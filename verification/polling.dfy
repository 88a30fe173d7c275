/** The fetch-then-set pattern the views share: a successful fetch replaces the
    shown value wholesale, and a failed one (the `catch` that only logs) keeps it.
    `None` stands for a failed fetch. The polling timer itself is left out; a run of
    polls is the sequence of their outcomes. */
module Polling {
  import opened Common

  function Apply<T>(current: T, fetched: Option<T>): T {
    match fetched
    case Some(v) => v
    case None => current
  }

  /** The value shown after the polls `fetches`, one after the other. */
  function ApplyAll<T>(current: T, fetches: seq<Option<T>>): T
    decreases |fetches|
  {
    if |fetches| == 0 then current
    else Apply(ApplyAll(current, fetches[..|fetches| - 1]), fetches[|fetches| - 1])
  }

  /** Poll `i` is the last one that succeeded. */
  predicate LatestSuccess<T>(fetches: seq<Option<T>>, i: int) {
    0 <= i < |fetches| && fetches[i].Some? && forall j :: i < j < |fetches| ==> fetches[j].None?
  }

  /** When every poll fails the view keeps what it showed. */
  lemma {:induction false} ApplyAllKeeps<T>(current: T, fetches: seq<Option<T>>)
    requires forall i :: 0 <= i < |fetches| ==> fetches[i].None?
    ensures ApplyAll(current, fetches) == current
    decreases |fetches|
  {
    if |fetches| > 0 {
      var n := |fetches| - 1;
      assert forall i :: 0 <= i < n ==> fetches[..n][i] == fetches[i];
      ApplyAllKeeps(current, fetches[..n]);
    }
  }

  /** Otherwise it shows the last successful fetch. */
  lemma {:induction false} ApplyAllShowsLatest<T>(current: T, fetches: seq<Option<T>>, i: int)
    requires LatestSuccess(fetches, i)
    ensures ApplyAll(current, fetches) == fetches[i].value
    decreases |fetches|
  {
    var n := |fetches| - 1;
    if i < n {
      var front := fetches[..n];
      assert forall j :: 0 <= j < n ==> front[j] == fetches[j];
      assert LatestSuccess(front, i);
      ApplyAllShowsLatest(current, front, i);
    }
  }
}
