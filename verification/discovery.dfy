/** The research-discovery agent (agents/discovery_agent.py): search every keyword,
    append the results in keyword order, then keep one paper per PubMed id. The
    search itself (`PubMedAPI.search_papers`, which calls Entrez) is a parameter. */
module Discovery {
  import opened PubMed
  import Seqs

  /** All papers found, keyword after keyword: `all_papers.extend(papers)`. */
  function Collect(keywords: seq<string>, search: string -> seq<Paper>): seq<Paper>
    decreases |keywords|
  {
    if |keywords| == 0 then []
    else Collect(keywords[..|keywords| - 1], search) + search(keywords[|keywords| - 1])
  }

  /** The results of each keyword follow those of the keywords before it. */
  lemma {:induction false} CollectAppend(a: seq<string>, b: seq<string>, search: string -> seq<Paper>)
    ensures Collect(a + b, search) == Collect(a, search) + Collect(b, search)
    decreases |b|
  {
    if |b| == 0 {
      assert a + b == a;
    } else {
      var n := |b| - 1;
      assert (a + b)[..|a + b| - 1] == a + b[..n];
      CollectAppend(a, b[..n], search);
    }
  }

  /** One search contributes exactly its own results. */
  lemma CollectOne(k: string, search: string -> seq<Paper>)
    ensures Collect([k], search) == search(k)
  {
    assert [k][..0] == [];
  }

  function Ids(ps: seq<Paper>): (r: seq<string>)
    ensures |r| == |ps|
    ensures forall i :: 0 <= i < |ps| ==> r[i] == ps[i].id
  {
    seq(|ps|, i requires 0 <= i < |ps| => ps[i].id)
  }

  lemma IdsSnoc(ps: seq<Paper>, i: int)
    requires 0 <= i < |ps|
    ensures Ids(ps[..i + 1]) == Ids(ps[..i]) + [ps[i].id]
  {
  }

  /** `ps[j]` is the last of `ps[..n]` with its id. */
  predicate LastWithIdBefore(ps: seq<Paper>, n: int, j: int) {
    0 <= j < n <= |ps| && forall m :: j < m < n ==> ps[m].id != ps[j].id
  }

  /** A later paper with another id keeps `ps[j]` the last with its id. */
  lemma LastWithIdStep(ps: seq<Paper>, n: int, j: int)
    requires LastWithIdBefore(ps, n, j) && n < |ps| && ps[n].id != ps[j].id
    ensures LastWithIdBefore(ps, n + 1, j)
  {
  }

  /** `p` is the last paper collected with its id. */
  ghost predicate IsLastWithId(ps: seq<Paper>, p: Paper) {
    exists j :: LastWithIdBefore(ps, |ps|, j) && p == ps[j]
  }

  /** The dict's key order after the first `n` assignments. */
  function KeyOrder(ps: seq<Paper>, n: nat): seq<string>
    requires n <= |ps|
  {
    if n == 0 then []
    else
      var keys := KeyOrder(ps, n - 1);
      if ps[n - 1].id in keys then keys else keys + [ps[n - 1].id]
  }

  lemma {:induction false} KeyOrderIsDistinct(ps: seq<Paper>, n: nat)
    requires n <= |ps|
    ensures KeyOrder(ps, n) == Seqs.Distinct(Ids(ps[..n]))
  {
    if n > 0 {
      KeyOrderIsDistinct(ps, n - 1);
      IdsSnoc(ps, n - 1);
      Seqs.DistinctSnoc(Ids(ps[..n - 1]), ps[n - 1].id);
    }
  }

  /** After `n` assignments every id in `table` holds the paper at `source[id]`, the
      last of the first `n` papers with that id. */
  ghost predicate Sourced(ps: seq<Paper>, n: int, table: map<string, Paper>, source: map<string, int>) {
    && source.Keys == table.Keys
    && forall id :: id in table ==>
         table[id].id == id && LastWithIdBefore(ps, n, source[id]) && table[id] == ps[source[id]]
  }

  lemma SourcedStep(ps: seq<Paper>, n: int, table: map<string, Paper>, source: map<string, int>)
    requires 0 <= n < |ps| && Sourced(ps, n, table, source)
    ensures Sourced(ps, n + 1, table[ps[n].id := ps[n]], source[ps[n].id := n])
  {
    var t, src := table[ps[n].id := ps[n]], source[ps[n].id := n];
    forall id | id in t
      ensures t[id].id == id && LastWithIdBefore(ps, n + 1, src[id]) && t[id] == ps[src[id]]
    {
      if id != ps[n].id {
        LastWithIdStep(ps, n, source[id]);
      }
    }
  }

  /** What the dict comprehension leaves behind: `keys` is the dict's key order (first
      insertion of each id) and `table` maps each id to the last paper assigned to it. */
  ghost predicate IsIdTable(ps: seq<Paper>, keys: seq<string>, table: map<string, Paper>) {
    && keys == Seqs.Distinct(Ids(ps))
    && (forall id :: id in table <==> id in keys)
    && (forall id :: id in table ==> table[id].id == id)
    && (forall id :: id in table ==> IsLastWithId(ps, table[id]))
  }

  /** The loop state after `n` assignments: the key order so far, a table with exactly
      those keys, and where each entry came from. */
  ghost predicate Built(ps: seq<Paper>, n: int, keys: seq<string>, table: map<string, Paper>, source: map<string, int>) {
    && 0 <= n <= |ps|
    && keys == KeyOrder(ps, n)
    && (forall id :: id in table <==> id in keys)
    && Sourced(ps, n, table, source)
  }

  /** One assignment `d[p['id']] = p` keeps the loop state. */
  lemma BuiltStep(ps: seq<Paper>, n: int, keys: seq<string>, table: map<string, Paper>, source: map<string, int>)
    requires Built(ps, n, keys, table, source) && n < |ps|
    ensures Built(ps, n + 1, if ps[n].id in table then keys else keys + [ps[n].id],
                  table[ps[n].id := ps[n]], source[ps[n].id := n])
  {
    SourcedStep(ps, n, table, source);
  }

  /** The loop of the dict comprehension, one assignment per collected paper. */
  method BuildTable(ps: seq<Paper>) returns (keys: seq<string>, table: map<string, Paper>)
    ensures IsIdTable(ps, keys, table)
  {
    keys := [];
    table := map[];
    ghost var source: map<string, int> := map[];
    var i := 0;
    while i < |ps|
      invariant Built(ps, i, keys, table, source)
    {
      var p := ps[i];
      BuiltStep(ps, i, keys, table, source);
      if p.id !in table {
        keys := keys + [p.id];
      }
      table := table[p.id := p];
      source := source[p.id := i];
      i := i + 1;
    }
    TableComplete(ps, keys, table, source);
  }

  /** The finished loop has built the id table. */
  lemma TableComplete(ps: seq<Paper>, keys: seq<string>, table: map<string, Paper>, source: map<string, int>)
    requires keys == KeyOrder(ps, |ps|)
    requires forall id :: id in table <==> id in keys
    requires Sourced(ps, |ps|, table, source)
    ensures IsIdTable(ps, keys, table)
  {
    KeyOrderIsDistinct(ps, |ps|);
    assert ps[..|ps|] == ps;
    forall id | id in table
      ensures IsLastWithId(ps, table[id])
    {
      assert LastWithIdBefore(ps, |ps|, source[id]);
    }
  }

  /** `r` lists the table's values in key order: `.values()`. */
  ghost predicate IsValues(keys: seq<string>, table: map<string, Paper>, r: seq<Paper>) {
    |r| == |keys| && forall m :: 0 <= m < |r| ==> keys[m] in table && r[m] == table[keys[m]]
  }

  /** The table's values in key order. */
  method Values(keys: seq<string>, table: map<string, Paper>) returns (r: seq<Paper>)
    requires forall m :: 0 <= m < |keys| ==> keys[m] in table
    ensures IsValues(keys, table, r)
  {
    r := [];
    var k := 0;
    while k < |keys|
      invariant 0 <= k <= |keys|
      invariant |r| == k
      invariant forall m :: 0 <= m < k ==> r[m] == table[keys[m]]
    {
      r := r + [table[keys[k]]];
      k := k + 1;
    }
  }

  lemma ValuesIds(ps: seq<Paper>, keys: seq<string>, table: map<string, Paper>, r: seq<Paper>)
    requires IsIdTable(ps, keys, table) && IsValues(keys, table, r)
    ensures Ids(r) == keys
  {
  }

  lemma ValueIsLast(ps: seq<Paper>, keys: seq<string>, table: map<string, Paper>, r: seq<Paper>, k: int)
    requires IsIdTable(ps, keys, table) && IsValues(keys, table, r)
    requires 0 <= k < |r|
    ensures IsLastWithId(ps, r[k])
  {
    var id := keys[k];
    assert id in keys;
    assert id in table && r[k] == table[id];
  }

  lemma ValuesAreLast(ps: seq<Paper>, keys: seq<string>, table: map<string, Paper>, r: seq<Paper>)
    requires IsIdTable(ps, keys, table) && IsValues(keys, table, r)
    ensures forall k :: 0 <= k < |r| ==> IsLastWithId(ps, r[k])
  {
    forall k | 0 <= k < |r|
      ensures IsLastWithId(ps, r[k])
    {
      ValueIsLast(ps, keys, table, r, k);
    }
  }

  lemma ValuesCoverIds(ps: seq<Paper>, r: seq<Paper>)
    requires Ids(r) == Seqs.Distinct(Ids(ps))
    ensures forall i :: 0 <= i < |ps| ==> exists k :: 0 <= k < |r| && r[k].id == ps[i].id
  {
    forall i | 0 <= i < |ps|
      ensures exists k :: 0 <= k < |r| && r[k].id == ps[i].id
    {
      assert Ids(ps)[i] in Ids(r);
    }
  }

  lemma ValuesInFirstOrder(ps: seq<Paper>, r: seq<Paper>)
    requires Ids(r) == Seqs.Distinct(Ids(ps))
    ensures forall k, l :: 0 <= k < l < |r| ==>
              Seqs.FirstIndex(Ids(ps), r[k].id) < Seqs.FirstIndex(Ids(ps), r[l].id)
  {
    forall k, l | 0 <= k < l < |r|
      ensures Seqs.FirstIndex(Ids(ps), r[k].id) < Seqs.FirstIndex(Ids(ps), r[l].id)
    {
      Seqs.DistinctFirstOrder(Ids(ps), k, l);
    }
  }

  /** `{p['id']: p for p in all_papers}.values()`: one paper per id, the last one
      collected with it, listed in the order the ids first appeared. */
  method DedupById(ps: seq<Paper>) returns (r: seq<Paper>)
    ensures |r| <= |ps|
    ensures Ids(r) == Seqs.Distinct(Ids(ps))
    ensures forall i, j :: 0 <= i < j < |r| ==> r[i].id != r[j].id
    ensures forall i :: 0 <= i < |ps| ==> exists k :: 0 <= k < |r| && r[k].id == ps[i].id
    ensures forall k :: 0 <= k < |r| ==> IsLastWithId(ps, r[k])
    ensures forall k, l :: 0 <= k < l < |r| ==>
              Seqs.FirstIndex(Ids(ps), r[k].id) < Seqs.FirstIndex(Ids(ps), r[l].id)
  {
    var keys, table := BuildTable(ps);
    r := Values(keys, table);
    ValuesIds(ps, keys, table, r);
    ValuesAreLast(ps, keys, table, r);
    ValuesCoverIds(ps, r);
    ValuesInFirstOrder(ps, r);
    assert forall i :: 0 <= i < |r| ==> r[i].id == Ids(r)[i];
  }
}
