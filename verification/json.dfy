/** Parsed JSON and YAML values, as far as the settings and the requests use them.
    Numbers are integers; floating point is not modelled. */
module Json {
  datatype Value =
    | Null
    | Bool(b: bool)
    | Num(n: int)
    | Str(s: string)
    | Arr(items: seq<Value>)
    | Obj(fields: map<string, Value>)

  /** The fields of `m[name]` when that is an object, and no fields otherwise. */
  function Section(m: map<string, Value>, name: string): map<string, Value> {
    if name in m && m[name].Obj? then m[name].fields else map[]
  }

  /** `dict.update`: every incoming key takes its incoming value and every other key
      of `base` keeps its own. */
  function Update(base: map<string, Value>, incoming: map<string, Value>): (r: map<string, Value>)
    ensures forall k :: k in r <==> k in base || k in incoming
    ensures forall k :: k in incoming ==> r[k] == incoming[k]
    ensures forall k :: k in base && k !in incoming ==> r[k] == base[k]
  {
    base + incoming
  }

  /** Updating twice with the same keys is updating once. */
  lemma UpdateIdempotent(base: map<string, Value>, incoming: map<string, Value>)
    ensures Update(Update(base, incoming), incoming) == Update(base, incoming)
  {
  }

  /** Updating with nothing changes nothing. */
  lemma UpdateEmpty(base: map<string, Value>)
    ensures Update(base, map[]) == base
  {
  }

  /** `m` without `key`: what `dict.pop(key)` leaves. */
  function Remove(m: map<string, Value>, key: string): (r: map<string, Value>)
    ensures key !in r
    ensures forall k :: k != key ==> (k in r <==> k in m)
    ensures forall k :: k in r ==> r[k] == m[k]
  {
    map k | k in m && k != key :: m[k]
  }
}
