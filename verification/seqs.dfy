/** Sequence operations shared by the pipeline stages and the list views: duplicate
    removal in first-occurrence order, and the order-preserving filter and
    filter-map that every stage is built from. */
module Seqs {
  import opened Common

  predicate NoDup<T(==)>(s: seq<T>) {
    forall i, j :: 0 <= i < j < |s| ==> s[i] != s[j]
  }

  function Elems<T(==)>(s: seq<T>): set<T> {
    set x | x in s
  }

  /** Each element once, at the position of its first occurrence: the order of the
      keys of a Python dict filled from `s`. */
  function Distinct<T(==, !new)>(s: seq<T>): (r: seq<T>)
    ensures NoDup(r)
    ensures forall x :: x in r <==> x in s
    ensures |r| <= |s|
    decreases |s|
  {
    if |s| == 0 then []
    else
      var d := Distinct(s[..|s| - 1]);
      var x := s[|s| - 1];
      assert s == s[..|s| - 1] + [x];
      if x in d then d else d + [x]
  }

  /** One more element: `Distinct` grows only by a new element. */
  lemma DistinctSnoc<T(!new)>(s: seq<T>, x: T)
    ensures Distinct(s + [x]) == if x in Distinct(s) then Distinct(s) else Distinct(s) + [x]
  {
    assert (s + [x])[..|s|] == s;
  }

  /** A sequence without duplicates is its own duplicate-free version. */
  lemma {:induction false} DistinctOfNoDup<T(!new)>(s: seq<T>)
    requires NoDup(s)
    ensures Distinct(s) == s
    decreases |s|
  {
    if |s| > 0 {
      DistinctOfNoDup(s[..|s| - 1]);
      assert s[|s| - 1] !in s[..|s| - 1];
      assert s[..|s| - 1] + [s[|s| - 1]] == s;
    }
  }

  /** The position of the first occurrence of `x`. */
  function FirstIndex<T(==)>(s: seq<T>, x: T): (i: nat)
    requires x in s
    ensures i < |s| && s[i] == x
    ensures forall j :: 0 <= j < i ==> s[j] != x
    decreases |s|
  {
    if s[0] == x then 0 else 1 + FirstIndex(s[1..], x)
  }

  lemma FirstIndexInFront<T>(front: seq<T>, x: T, y: T)
    requires y in front
    ensures FirstIndex(front + [x], y) == FirstIndex(front, y)
  {
    var s := front + [x];
    var f := FirstIndex(front, y);
    var g := FirstIndex(s, y);
    assert s[f] == y;
    assert g <= f;
  }

  /** `Distinct` lists the elements in the order of their first occurrences. */
  lemma {:induction false} DistinctFirstOrder<T(!new)>(s: seq<T>, i: int, j: int)
    requires 0 <= i < j < |Distinct(s)|
    ensures FirstIndex(s, Distinct(s)[i]) < FirstIndex(s, Distinct(s)[j])
    decreases |s|
  {
    var n := |s| - 1;
    var front := s[..n];
    var d := Distinct(front);
    assert s == front + [s[n]];
    var di := Distinct(s)[i];
    var dj := Distinct(s)[j];
    if s[n] in d || j < |d| {
      assert Distinct(s)[..|d|] == d;
      DistinctFirstOrder(front, i, j);
      FirstIndexInFront(front, s[n], di);
      FirstIndexInFront(front, s[n], dj);
    } else {
      assert dj == s[n] && dj !in front;
      assert FirstIndex(s, dj) == n;
      assert di == d[i] && di in front;
      FirstIndexInFront(front, s[n], di);
    }
  }

  /** Keep the elements `p` accepts, in order: Python's list comprehension with an
      `if`, JavaScript's `Array.prototype.filter`. */
  function Filter<T(!new)>(p: T -> bool, s: seq<T>): (r: seq<T>)
    ensures |r| <= |s|
    ensures forall x :: x in r <==> x in s && p(x)
    decreases |s|
  {
    if |s| == 0 then []
    else
      var rest := Filter(p, s[1..]);
      assert forall i :: 1 <= i < |s| ==> s[i] == s[1..][i - 1];
      if p(s[0]) then [s[0]] + rest else rest
  }

  lemma {:induction false} FilterAppend<T(!new)>(p: T -> bool, a: seq<T>, b: seq<T>)
    ensures Filter(p, a + b) == Filter(p, a) + Filter(p, b)
    decreases |a|
  {
    if |a| == 0 {
      assert a + b == b;
    } else {
      assert (a + b)[1..] == a[1..] + b;
      FilterAppend(p, a[1..], b);
    }
  }

  /** Map every element through `f` and keep the present results, in order: a loop
      that appends only when a conversion succeeds. */
  function FilterMap<A, B(==)>(f: A -> Option<B>, s: seq<A>): (r: seq<B>)
    ensures |r| <= |s|
    ensures forall k :: 0 <= k < |r| ==> exists i :: 0 <= i < |s| && f(s[i]) == Some(r[k])
    ensures forall i :: 0 <= i < |s| && f(s[i]).Some? ==> f(s[i]).value in r
    decreases |s|
  {
    if |s| == 0 then []
    else
      var rest := FilterMap(f, s[1..]);
      assert forall i :: 1 <= i < |s| ==> s[i] == s[1..][i - 1];
      match f(s[0])
      case Some(y) => [y] + rest
      case None => rest
  }

  lemma {:induction false} FilterMapAppend<A, B>(f: A -> Option<B>, a: seq<A>, b: seq<A>)
    ensures FilterMap(f, a + b) == FilterMap(f, a) + FilterMap(f, b)
    decreases |a|
  {
    if |a| == 0 {
      assert a + b == b;
    } else {
      assert (a + b)[1..] == a[1..] + b;
      FilterMapAppend(f, a[1..], b);
    }
  }

  /** How many elements `p` accepts. */
  function CountIf<T>(p: T -> bool, s: seq<T>): nat
    decreases |s|
  {
    if |s| == 0 then 0 else (if p(s[0]) then 1 else 0) + CountIf(p, s[1..])
  }

  /** A filter-map keeps exactly the elements whose conversion succeeds. */
  lemma {:induction false} FilterMapLength<A, B>(f: A -> Option<B>, p: A -> bool, s: seq<A>)
    requires forall x :: p(x) == f(x).Some?
    ensures |FilterMap(f, s)| == CountIf(p, s)
    decreases |s|
  {
    if |s| > 0 {
      FilterMapLength(f, p, s[1..]);
    }
  }
}
