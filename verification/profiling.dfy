/** The author-profiling agent (agents/profiling_agent.py): one profile per author
    with a non-blank last name, across the saved papers in order. Reading the newest
    paper file and writing the profiles back are left out; the papers arrive as
    parsed JSON records, so every key may be missing. */
module Profiling {
  import opened Common
  import Strings
  import Seqs

  /** An author object of a saved paper. */
  datatype AuthorEntry = AuthorEntry(
    firstName: Option<string>,
    lastName: Option<string>,
    affiliation: Option<seq<string>>)

  /** A saved paper, as far as profiling reads it. */
  datatype PaperEntry = PaperEntry(
    id: Option<string>,
    title: Option<string>,
    journal: Option<string>,
    authors: Option<seq<AuthorEntry>>)

  /** An author profile as it travels through the later stages. `emails` is an
      `Option` because a stage that reads a profile back cannot rely on the key. */
  datatype Profile = Profile(
    name: string,
    firstName: string,
    lastName: string,
    affiliations: seq<string>,
    paperTitle: Option<string>,
    paperId: Option<string>,
    journal: Option<string>,
    emails: Option<seq<string>>)

  /** `f"{first} {last}".strip()` */
  function FullName(first: string, last: string): string {
    Strings.Strip(Strings.Python, first + " " + last)
  }

  /** With both parts already stripped and a last name present, the full name is the
      last name alone when there is no first name, and both joined by one space
      otherwise. */
  lemma FullNameParts(first: string, last: string)
    requires Strings.IsTrimmed(Strings.Python, first) && Strings.IsTrimmed(Strings.Python, last) && last != ""
    ensures first == "" ==> FullName(first, last) == last
    ensures first != "" ==> FullName(first, last) == first + " " + last
  {
    if first == "" {
      assert first + " " + last == " " + last;
      Strings.StripAfterSpace(Strings.Python, " ", last);
      Strings.StripTrimmed(Strings.Python, last);
    } else {
      var s := first + " " + last;
      assert s[0] == first[0] && s[|s| - 1] == last[|last| - 1];
      Strings.StripTrimmed(Strings.Python, s);
    }
  }

  /** The author is profiled: its last name is not blank once stripped. */
  predicate Named(a: AuthorEntry) {
    Strings.Strip(Strings.Python, a.lastName.GetOr("")) != ""
  }

  /** The profile built for `a` in the loop over `paper`'s authors. */
  function AuthorProfile(paper: PaperEntry, a: AuthorEntry): (r: Option<Profile>)
    ensures r.Some? <==> Named(a)
    ensures r.Some? ==> r.value.firstName == Strings.Strip(Strings.Python, a.firstName.GetOr(""))
    ensures r.Some? ==> r.value.lastName == Strings.Strip(Strings.Python, a.lastName.GetOr("")) != ""
    ensures r.Some? ==> r.value.firstName == "" ==> r.value.name == r.value.lastName
    ensures r.Some? ==> r.value.firstName != "" ==> r.value.name == r.value.firstName + " " + r.value.lastName
    ensures r.Some? ==> r.value.affiliations == a.affiliation.GetOr([])
    ensures r.Some? ==> r.value.paperTitle == paper.title && r.value.paperId == paper.id && r.value.journal == paper.journal
    ensures r.Some? ==> r.value.emails == Some([])
  {
    var first := Strings.Strip(Strings.Python, a.firstName.GetOr(""));
    var last := Strings.Strip(Strings.Python, a.lastName.GetOr(""));
    if last == "" then None
    else
      FullNameParts(first, last);
      Some(Profile(FullName(first, last), first, last, a.affiliation.GetOr([]),
                   paper.title, paper.id, paper.journal, Some([])))
  }

  /** The profiling step for the authors of a paper with these fields. */
  function Profiler(title: Option<string>, id: Option<string>, journal: Option<string>): AuthorEntry -> Option<Profile> {
    a => AuthorProfile(PaperEntry(id, title, journal, None), a)
  }

  /** The profiles of one paper's authors, in author order; a paper without
      `authors` has none. */
  function PaperProfiles(paper: PaperEntry): (r: seq<Profile>)
    ensures paper.authors.None? ==> r == []
    ensures forall k :: 0 <= k < |r| ==> r[k].emails == Some([])
    ensures forall k :: 0 <= k < |r| ==>
              r[k].paperTitle == paper.title && r[k].paperId == paper.id && r[k].journal == paper.journal
  {
    Seqs.FilterMap(Profiler(paper.title, paper.id, paper.journal), paper.authors.GetOr([]))
  }

  /** Every profile of a paper comes from one of its named authors, and every named
      author gives one. */
  lemma PaperProfilesProvenance(paper: PaperEntry)
    ensures forall x :: x in PaperProfiles(paper) ==>
              exists j :: 0 <= j < |paper.authors.GetOr([])| && AuthorProfile(paper, paper.authors.GetOr([])[j]) == Some(x)
    ensures forall j :: 0 <= j < |paper.authors.GetOr([])| && Named(paper.authors.GetOr([])[j]) ==>
              AuthorProfile(paper, paper.authors.GetOr([])[j]).value in PaperProfiles(paper)
  {
    var authors := paper.authors.GetOr([]);
    var f := Profiler(paper.title, paper.id, paper.journal);
    var r := PaperProfiles(paper);
    forall j | 0 <= j < |authors|
      ensures f(authors[j]) == AuthorProfile(paper, authors[j])
    {
    }
    forall x | x in r
      ensures exists j :: 0 <= j < |authors| && AuthorProfile(paper, authors[j]) == Some(x)
    {
      var k :| 0 <= k < |r| && r[k] == x;
      var j :| 0 <= j < |authors| && f(authors[j]) == Some(r[k]);
    }
  }

  /** Author order within a paper is kept. */
  lemma PaperProfilesAppend(paper: PaperEntry, a: seq<AuthorEntry>, b: seq<AuthorEntry>)
    ensures PaperProfiles(paper.(authors := Some(a + b))) ==
              PaperProfiles(paper.(authors := Some(a))) + PaperProfiles(paper.(authors := Some(b)))
  {
    Seqs.FilterMapAppend(Profiler(paper.title, paper.id, paper.journal), a, b);
  }

  /** A paper gives as many profiles as it has named authors. */
  lemma PaperProfilesCount(paper: PaperEntry)
    ensures |PaperProfiles(paper)| == Seqs.CountIf(Named, paper.authors.GetOr([]))
  {
    Seqs.FilterMapLength(Profiler(paper.title, paper.id, paper.journal), Named, paper.authors.GetOr([]));
  }

  /** `extract_authors`: the profiles of the papers, paper after paper. */
  function ExtractAuthors(papers: seq<PaperEntry>): (r: seq<Profile>)
    ensures forall k :: 0 <= k < |r| ==> r[k].emails == Some([])
    decreases |papers|
  {
    if |papers| == 0 then [] else PaperProfiles(papers[0]) + ExtractAuthors(papers[1..])
  }

  /** Every profile comes from one of the papers. */
  lemma {:induction false} ExtractAuthorsProvenance(papers: seq<PaperEntry>)
    ensures forall x :: x in ExtractAuthors(papers) ==> exists i :: 0 <= i < |papers| && x in PaperProfiles(papers[i])
    decreases |papers|
  {
    if |papers| > 0 {
      var rest := papers[1..];
      ExtractAuthorsProvenance(rest);
      forall x | x in ExtractAuthors(papers)
        ensures exists i :: 0 <= i < |papers| && x in PaperProfiles(papers[i])
      {
        if x in ExtractAuthors(rest) {
          var i :| 0 <= i < |rest| && x in PaperProfiles(rest[i]);
          assert papers[i + 1] == rest[i];
        } else {
          assert x in PaperProfiles(papers[0]);
        }
      }
    }
  }

  /** Papers are profiled in order: the profiles of later papers follow. */
  lemma {:induction false} ExtractAuthorsAppend(a: seq<PaperEntry>, b: seq<PaperEntry>)
    ensures ExtractAuthors(a + b) == ExtractAuthors(a) + ExtractAuthors(b)
    decreases |a|
  {
    if |a| == 0 {
      assert a + b == b;
    } else {
      assert (a + b)[1..] == a[1..] + b;
      ExtractAuthorsAppend(a[1..], b);
    }
  }

  /** A paper without `authors` contributes nothing. */
  lemma ExtractAuthorsSkipsUnauthored(papers: seq<PaperEntry>, paper: PaperEntry)
    requires paper.authors.None?
    ensures ExtractAuthors(papers + [paper]) == ExtractAuthors(papers)
  {
    ExtractAuthorsAppend(papers, [paper]);
    assert ExtractAuthors([paper]) == [];
  }

  /** The number of named authors across all papers. */
  function NamedTotal(papers: seq<PaperEntry>): nat
    decreases |papers|
  {
    if |papers| == 0 then 0 else Seqs.CountIf(Named, papers[0].authors.GetOr([])) + NamedTotal(papers[1..])
  }

  /** One profile per named author, across all papers. */
  lemma {:induction false} ExtractAuthorsCount(papers: seq<PaperEntry>)
    ensures |ExtractAuthors(papers)| == NamedTotal(papers)
    decreases |papers|
  {
    if |papers| > 0 {
      ExtractAuthorsCount(papers[1..]);
      PaperProfilesCount(papers[0]);
    }
  }
}
