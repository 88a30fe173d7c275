/** The author table view (frontend/src/components/Authors.tsx): the search filter,
    the sort-key toggle, the comparator under the engine's stable sort, the
    pagination arithmetic and the "Showing" label. Rendering is left out; the view is
    a pure function of its state. Sort keys are strings, a missing field reading as
    the empty string, and string order compares characters as Unicode code points,
    which agrees with JavaScript's UTF-16 code-unit order on the Basic Multilingual
    Plane. */
module Authors {
  import opened Common
  import Strings
  import Seqs
  import Polling

  /** An author as `get_all_authors` serves it, as far as the view reads it. A field
      may be `null`. */
  datatype Item = Item(name: Option<string>, email: Option<string>, journal: Option<string>, paperId: Option<string>)

  /** `field?.toLowerCase().includes(term.toLowerCase())`: a missing field never
      matches. */
  predicate FieldMatches(field: Option<string>, term: string) {
    field.Some? && Strings.Contains(Strings.Lower(field.value), Strings.Lower(term))
  }

  /** The search predicate: the term occurs in the name, the e-mail or the journal,
      ignoring case. */
  predicate Matches(a: Item, term: string) {
    FieldMatches(a.name, term) || FieldMatches(a.email, term) || FieldMatches(a.journal, term)
  }

  function Matcher(term: string): Item -> bool {
    a => Matches(a, term)
  }

  /** `filteredAuthors` */
  function FilterAuthors(items: seq<Item>, term: string): (r: seq<Item>)
    ensures |r| <= |items|
    ensures forall x :: x in r <==> x in items && Matches(x, term)
  {
    Seqs.Filter(Matcher(term), items)
  }

  /** Filtering keeps relative order: it distributes over concatenation. */
  lemma FilterAuthorsAppend(a: seq<Item>, b: seq<Item>, term: string)
    ensures FilterAuthors(a + b, term) == FilterAuthors(a, term) + FilterAuthors(b, term)
  {
    Seqs.FilterAppend(Matcher(term), a, b);
  }

  /** The empty term matches every author with at least one of the three fields; an
      author with none of them is hidden even then. */
  lemma EmptyTermMatches(a: Item)
    ensures Matches(a, "") <==> a.name.Some? || a.email.Some? || a.journal.Some?
  {
    assert Strings.Lower("") == "";
    if a.name.Some? { assert Strings.OccursAt(Strings.Lower(a.name.value), "", 0); }
    if a.email.Some? { assert Strings.OccursAt(Strings.Lower(a.email.value), "", 0); }
    if a.journal.Some? { assert Strings.OccursAt(Strings.Lower(a.journal.value), "", 0); }
  }

  datatype Direction = Asc | Desc

  datatype SortConfig = SortConfig(key: string, direction: Direction)

  /** `handleSort`: descending exactly when the same key is clicked while ascending. */
  function HandleSort(current: Option<SortConfig>, key: string): (r: SortConfig)
    ensures r.key == key
    ensures r.direction == Desc <==> current == Some(SortConfig(key, Asc))
  {
    if current.Some? && current.value.key == key && current.value.direction == Asc
    then SortConfig(key, Desc) else SortConfig(key, Asc)
  }

  /** Clicking the same column again flips the direction; a new column starts
      ascending. */
  lemma HandleSortToggles(current: Option<SortConfig>, key: string, other: string)
    requires other != key
    ensures HandleSort(Some(HandleSort(current, key)), key).direction != HandleSort(current, key).direction
    ensures HandleSort(Some(HandleSort(current, key)), other).direction == Asc
  {
  }

  /** JavaScript `<` on strings: lexicographic by character, characters compared as
      code points. */
  predicate StrLess(a: string, b: string)
    decreases |a|
  {
    if |a| == 0 then |b| > 0
    else |b| > 0 && (a[0] < b[0] || (a[0] == b[0] && StrLess(a[1..], b[1..])))
  }

  lemma {:induction false} StrLessIrreflexive(a: string)
    ensures !StrLess(a, a)
    decreases |a|
  {
    if |a| > 0 {
      StrLessIrreflexive(a[1..]);
    }
  }

  lemma {:induction false} StrLessTransitive(a: string, b: string, c: string)
    requires StrLess(a, b) && StrLess(b, c)
    ensures StrLess(a, c)
    decreases |a|
  {
    if |a| > 0 && a[0] == b[0] && b[0] == c[0] {
      StrLessTransitive(a[1..], b[1..], c[1..]);
    }
  }

  lemma {:induction false} StrLessTotal(a: string, b: string)
    ensures a == b || StrLess(a, b) || StrLess(b, a)
    decreases |a|
  {
    if |a| > 0 && |b| > 0 && a[0] == b[0] {
      StrLessTotal(a[1..], b[1..]);
      if a[1..] == b[1..] {
        assert a == [a[0]] + a[1..] && b == [b[0]] + b[1..];
      }
    }
  }

  /** `a[key]` for the columns the table sorts by and the other string fields; any
      other key reads as missing. */
  function KeyOf(a: Item, key: string): string {
    if key == "name" then a.name.GetOr("")
    else if key == "email" then a.email.GetOr("")
    else if key == "journal" then a.journal.GetOr("")
    else if key == "paper_id" then a.paperId.GetOr("")
    else ""
  }

  /** The comparator passed to `sort`: 0 without a sort configuration, otherwise the
      key order, reversed for a descending sort. */
  function Compare(a: Item, b: Item, cfg: Option<SortConfig>): int {
    match cfg
    case None => 0
    case Some(SortConfig(key, direction)) =>
      if StrLess(KeyOf(a, key), KeyOf(b, key)) then (if direction == Asc then -1 else 1)
      else if StrLess(KeyOf(b, key), KeyOf(a, key)) then (if direction == Asc then 1 else -1)
      else 0
  }

  /** The comparator orders by key: negative exactly when `a`'s key comes first in
      the chosen direction, zero exactly on equal keys. */
  lemma CompareMeaning(a: Item, b: Item, cfg: SortConfig)
    ensures Compare(a, b, Some(cfg)) < 0 <==>
              if cfg.direction == Asc then StrLess(KeyOf(a, cfg.key), KeyOf(b, cfg.key))
              else StrLess(KeyOf(b, cfg.key), KeyOf(a, cfg.key))
    ensures Compare(a, b, Some(cfg)) == 0 <==> KeyOf(a, cfg.key) == KeyOf(b, cfg.key)
    ensures Compare(a, b, Some(cfg)) == -Compare(b, a, Some(cfg))
  {
    var ka, kb := KeyOf(a, cfg.key), KeyOf(b, cfg.key);
    StrLessTotal(ka, kb);
    StrLessIrreflexive(ka);
    if StrLess(ka, kb) && StrLess(kb, ka) {
      StrLessTransitive(ka, kb, ka);
    }
  }

  /** `a` may stay before `b`. */
  predicate InOrder(a: Item, b: Item, cfg: Option<SortConfig>) {
    Compare(a, b, cfg) <= 0
  }

  /** `a` may stay before `b` exactly when `b`'s key does not strictly come first. */
  lemma InOrderMeaning(a: Item, b: Item, cfg: SortConfig)
    ensures InOrder(a, b, Some(cfg)) <==>
              if cfg.direction == Asc then !StrLess(KeyOf(b, cfg.key), KeyOf(a, cfg.key))
              else !StrLess(KeyOf(a, cfg.key), KeyOf(b, cfg.key))
  {
    CompareMeaning(b, a, cfg);
    CompareMeaning(a, b, cfg);
  }

  lemma StrLeqTransitive(a: string, b: string, c: string)
    requires !StrLess(b, a) && !StrLess(c, b)
    ensures !StrLess(c, a)
  {
    StrLessTotal(a, b);
    StrLessTotal(b, c);
    if StrLess(c, a) {
      if a != b { StrLessTransitive(c, a, b); }
    }
  }

  lemma InOrderTotal(a: Item, b: Item, cfg: Option<SortConfig>)
    ensures InOrder(a, b, cfg) || InOrder(b, a, cfg)
  {
    if cfg.Some? {
      CompareMeaning(a, b, cfg.value);
    }
  }

  lemma InOrderTransitive(a: Item, b: Item, c: Item, cfg: Option<SortConfig>)
    requires InOrder(a, b, cfg) && InOrder(b, c, cfg)
    ensures InOrder(a, c, cfg)
  {
    if cfg.Some? {
      var key := cfg.value.key;
      InOrderMeaning(a, b, cfg.value);
      InOrderMeaning(b, c, cfg.value);
      InOrderMeaning(a, c, cfg.value);
      if cfg.value.direction == Asc {
        StrLeqTransitive(KeyOf(a, key), KeyOf(b, key), KeyOf(c, key));
      } else {
        StrLeqTransitive(KeyOf(c, key), KeyOf(b, key), KeyOf(a, key));
      }
    }
  }

  predicate Sorted(s: seq<Item>, cfg: Option<SortConfig>) {
    forall i, j :: 0 <= i < j < |s| ==> InOrder(s[i], s[j], cfg)
  }

  /** `y` may stay before every element of `s`. */
  predicate Below(y: Item, s: seq<Item>, cfg: Option<SortConfig>) {
    forall z :: z in s ==> InOrder(y, z, cfg)
  }

  lemma SortedCons(y: Item, t: seq<Item>, cfg: Option<SortConfig>)
    requires Below(y, t, cfg) && Sorted(t, cfg)
    ensures Sorted([y] + t, cfg)
  {
    var r := [y] + t;
    forall i, j | 0 <= i < j < |r|
      ensures InOrder(r[i], r[j], cfg)
    {
      assert r[j] == t[j - 1];
      if i > 0 {
        assert r[i] == t[i - 1];
      }
    }
  }

  lemma SortedTail(s: seq<Item>, cfg: Option<SortConfig>)
    requires |s| > 0 && Sorted(s, cfg)
    ensures Sorted(s[1..], cfg) && Below(s[0], s[1..], cfg)
  {
    var t := s[1..];
    assert forall i :: 0 <= i < |t| ==> t[i] == s[i + 1];
  }

  /** Put `x` before the first element that does not strictly precede it. */
  function Insert(x: Item, s: seq<Item>, cfg: Option<SortConfig>): (r: seq<Item>)
    ensures multiset(r) == multiset{x} + multiset(s)
    decreases |s|
  {
    if |s| == 0 then [x]
    else if Compare(s[0], x, cfg) < 0 then
      assert s == [s[0]] + s[1..];
      [s[0]] + Insert(x, s[1..], cfg)
    else [x] + s
  }

  /** `[...filteredAuthors].sort(comparator)` under a stable sort: insertion from
      the back, each element going before the equal ones already placed. */
  function SortItems(s: seq<Item>, cfg: Option<SortConfig>): (r: seq<Item>)
    ensures multiset(r) == multiset(s)
    decreases |s|
  {
    if |s| == 0 then []
    else
      assert s == [s[0]] + s[1..];
      Insert(s[0], SortItems(s[1..], cfg), cfg)
  }

  lemma {:induction false} InsertSorted(x: Item, s: seq<Item>, cfg: Option<SortConfig>)
    requires Sorted(s, cfg)
    ensures Sorted(Insert(x, s, cfg), cfg)
    decreases |s|
  {
    if |s| == 0 {
    } else if Compare(s[0], x, cfg) < 0 {
      var rest := s[1..];
      SortedTail(s, cfg);
      InsertSorted(x, rest, cfg);
      var tail := Insert(x, rest, cfg);
      forall z | z in tail
        ensures InOrder(s[0], z, cfg)
      {
        assert z in multiset(tail);
      }
      SortedCons(s[0], tail, cfg);
    } else {
      InOrderTotal(s[0], x, cfg);
      SortedTail(s, cfg);
      forall z | z in s
        ensures InOrder(x, z, cfg)
      {
        if z != s[0] {
          InOrderTransitive(x, s[0], z, cfg);
        }
      }
      SortedCons(x, s, cfg);
    }
  }

  /** The sorted list is ordered by the comparator. */
  lemma {:induction false} SortItemsSorted(s: seq<Item>, cfg: Option<SortConfig>)
    ensures Sorted(SortItems(s, cfg), cfg)
    decreases |s|
  {
    if |s| > 0 {
      SortItemsSorted(s[1..], cfg);
      InsertSorted(s[0], SortItems(s[1..], cfg), cfg);
    }
  }

  /** Without a sort configuration the filtered order is kept. */
  lemma {:induction false} SortItemsUnsorted(s: seq<Item>)
    ensures SortItems(s, None) == s
    decreases |s|
  {
    if |s| > 0 {
      SortItemsUnsorted(s[1..]);
    }
  }

  /** The items whose key `key` reads `k`. */
  function WithKey(key: string, k: string): Item -> bool {
    a => KeyOf(a, key) == k
  }

  lemma {:induction false} InsertStable(x: Item, s: seq<Item>, cfg: SortConfig, k: string)
    ensures Seqs.Filter(WithKey(cfg.key, k), Insert(x, s, Some(cfg))) == Seqs.Filter(WithKey(cfg.key, k), [x] + s)
    decreases |s|
  {
    if |s| > 0 {
      assert ([x] + s)[1..] == s;
      if Compare(s[0], x, Some(cfg)) < 0 {
        InsertStable(x, s[1..], cfg, k);
        CompareMeaning(s[0], x, cfg);
        assert ([s[0]] + Insert(x, s[1..], Some(cfg)))[1..] == Insert(x, s[1..], Some(cfg));
        assert ([x] + s[1..])[1..] == s[1..];
      }
    }
  }

  /** The sort is stable: the items with any one key value keep their filtered
      order. */
  lemma {:induction false} SortItemsStable(s: seq<Item>, cfg: SortConfig, k: string)
    ensures Seqs.Filter(WithKey(cfg.key, k), SortItems(s, Some(cfg))) == Seqs.Filter(WithKey(cfg.key, k), s)
    decreases |s|
  {
    if |s| > 0 {
      SortItemsStable(s[1..], cfg, k);
      var t := SortItems(s[1..], Some(cfg));
      InsertStable(s[0], t, cfg, k);
      assert ([s[0]] + t)[1..] == t;
    }
  }

  /** `itemsPerPage` */
  const PerPage := 10

  /** `Math.ceil(n / itemsPerPage)` */
  function TotalPages(n: nat): (t: nat)
    ensures t * PerPage >= n
    ensures t == 0 || (t - 1) * PerPage < n
  {
    (n + PerPage - 1) / PerPage
  }

  /** A `slice` bound: negative counts from the end, and both ends clamp. */
  function SliceBound(n: nat, i: int): (b: nat)
    ensures b <= n
  {
    if i < 0 then (if n + i < 0 then 0 else n + i) else if i > n then n else i
  }

  /** `Array.prototype.slice(start, end)` */
  function Slice<T>(s: seq<T>, start: int, end: int): seq<T> {
    var lo, hi := SliceBound(|s|, start), SliceBound(|s|, end);
    if hi <= lo then [] else s[lo..hi]
  }

  /** `currentAuthors`: page `p` of the sorted list. */
  function PageOf<T>(s: seq<T>, p: int): seq<T> {
    Slice(s, (p - 1) * PerPage, p * PerPage)
  }

  function Min(a: int, b: int): int {
    if a < b then a else b
  }

  function Max(a: int, b: int): int {
    if a < b then b else a
  }

  /** Page `p` holds the items from index `(p-1)*10` up to but excluding
      `min(p*10, n)`: at most ten, and none past the end. */
  lemma PageContents<T>(s: seq<T>, p: int)
    requires p >= 1
    ensures var lo := Min((p - 1) * PerPage, |s|);
            PageOf(s, p) == s[lo..Min(p * PerPage, |s|)]
    ensures |PageOf(s, p)| <= PerPage
    ensures p > TotalPages(|s|) ==> PageOf(s, p) == []
  {
  }

  /** Every item is on exactly the page its index says. */
  lemma PageHolds<T>(s: seq<T>, i: int)
    requires 0 <= i < |s|
    ensures var p := i / PerPage + 1;
            1 <= p <= TotalPages(|s|) && i % PerPage < |PageOf(s, p)| && PageOf(s, p)[i % PerPage] == s[i]
  {
    var p := i / PerPage + 1;
    PageContents(s, p);
    assert (p - 1) * PerPage == i - i % PerPage;
  }

  /** The first item number of the "Showing" label. */
  function RangeStart(p: int, n: nat): int {
    Min((p - 1) * PerPage + 1, n)
  }

  /** The last item number of the "Showing" label. */
  function RangeEnd(p: int, n: nat): int {
    Min(p * PerPage, n)
  }

  /** On an existing page the label names exactly the items shown, numbered from 1. */
  lemma RangeMatchesPage<T>(s: seq<T>, p: int)
    requires 1 <= p <= TotalPages(|s|)
    ensures var page := PageOf(s, p);
            RangeEnd(p, |s|) - RangeStart(p, |s|) + 1 == |page| &&
            page[0] == s[RangeStart(p, |s|) - 1] && page[|page| - 1] == s[RangeEnd(p, |s|) - 1]
  {
    PageContents(s, p);
  }

  /** The "previous" button: `Math.max(1, p - 1)` */
  function PrevPage(p: int): int {
    Max(1, p - 1)
  }

  /** The "next" button: `Math.min(totalPages, p + 1)` */
  function NextPage(p: int, total: nat): int {
    Min(total, p + 1)
  }

  /** Prev never leaves page 1 behind and Next never passes the last page; from a
      valid page both stay on a valid page and move by at most one. */
  lemma PageButtonsClamp(p: int, total: nat)
    ensures PrevPage(p) >= 1 && NextPage(p, total) <= total
    ensures 1 <= p <= total ==> 1 <= PrevPage(p) <= total && 1 <= NextPage(p, total) <= total
    ensures 1 <= p ==> PrevPage(p) == (if p == 1 then 1 else p - 1)
    ensures p <= total ==> NextPage(p, total) == (if p == total then total else p + 1)
  {
  }

  /** The view's state. */
  datatype View = View(authors: seq<Item>, term: string, page: int, sort: Option<SortConfig>)

  const Initial := View([], "", 1, None)

  /** The rows on screen. */
  function Visible(v: View): seq<Item> {
    PageOf(SortItems(FilterAuthors(v.authors, v.term), v.sort), v.page)
  }

  /** Typing in the search box: the new term, back to page 1. */
  function OnSearch(v: View, term: string): (r: View)
    ensures r.term == term && r.page == 1
    ensures r.authors == v.authors && r.sort == v.sort
  {
    v.(term := term, page := 1)
  }

  /** After a search the first page of the matches is shown, at most ten of them,
      each a match. */
  lemma SearchShowsFirstPage(v: View, term: string)
    ensures var shown := Visible(OnSearch(v, term));
            var sorted := SortItems(FilterAuthors(v.authors, term), v.sort);
            shown == sorted[..Min(PerPage, |sorted|)] &&
            forall x :: x in shown ==> x in v.authors && Matches(x, term)
  {
    var sorted := SortItems(FilterAuthors(v.authors, term), v.sort);
    PageContents(sorted, 1);
    var shown := Visible(OnSearch(v, term));
    forall x | x in shown
      ensures x in v.authors && Matches(x, term)
    {
      assert x in multiset(sorted);
    }
  }

  /** `loadAuthors`: a successful fetch replaces the list, a failed one keeps it. */
  function LoadAuthors(v: View, fetched: Option<seq<Item>>): (r: View)
    ensures fetched.Some? ==> r.authors == fetched.value
    ensures fetched.None? ==> r == v
    ensures r.term == v.term && r.page == v.page && r.sort == v.sort
  {
    v.(authors := Polling.Apply(v.authors, fetched))
  }

  /** Clicking a column header. */
  function OnSort(v: View, key: string): (r: View)
    ensures r.sort.Some? && r.sort.value.key == key
    ensures r.authors == v.authors && r.term == v.term && r.page == v.page
  {
    v.(sort := Some(HandleSort(v.sort, key)))
  }
}
