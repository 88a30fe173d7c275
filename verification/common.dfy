/** Small wrappers shared by every part of the model: an optional value (a JSON key
    that may be missing, Python's `None`, JavaScript's `undefined`) and a result that
    may carry an error message (a Python exception turned into a value). */
module Common {

  datatype Option<+T> = None | Some(value: T) {

    /** The value, or `default` when absent: Python's `d.get(key, default)`. */
    function GetOr(default: T): T {
      match this
      case Some(v) => v
      case None => default
    }
  }

  datatype Result<+T> = Ok(value: T) | Err(message: string)
}
