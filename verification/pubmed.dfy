/** The PubMed client of utils/pubmed_api.py, without the network: `_parse_article`
    turns one parsed efetch record into a paper, and `fetch_details` keeps the
    records that parse. A key that the record may lack is an `Option`; a key the code
    indexes without a default, when missing, makes the parse fail. */
module PubMed {
  import opened Common
  import Strings
  import Seqs

  // ---- The efetch record, as Entrez.read hands it over ----

  datatype AffiliationInfo = AffiliationInfo(affiliation: Option<string>)

  datatype RawAuthor = RawAuthor(
    lastName: Option<string>,
    foreName: Option<string>,
    affiliationInfo: Option<seq<AffiliationInfo>>)

  /** An `ELocationID` element: its text and its `EIdType` attribute. */
  datatype ELocationId = ELocationId(eIdType: Option<string>, text: string)

  datatype RawPubDate = RawPubDate(year: Option<string>, month: Option<string>, day: Option<string>)

  datatype JournalIssue = JournalIssue(pubDate: Option<RawPubDate>)

  datatype RawJournal = RawJournal(title: Option<string>, journalIssue: Option<JournalIssue>)

  datatype RawArticleData = RawArticleData(
    articleTitle: Option<string>,
    journal: Option<RawJournal>,
    authorList: Option<seq<RawAuthor>>,
    eLocationIds: Option<seq<ELocationId>>)

  datatype MedlineCitation = MedlineCitation(pmid: Option<string>, article: Option<RawArticleData>)

  datatype PubmedArticle = PubmedArticle(medlineCitation: Option<MedlineCitation>)

  /** The whole efetch answer; `PubmedArticle` may be absent. */
  datatype EfetchRecords = EfetchRecords(pubmedArticles: Option<seq<PubmedArticle>>)

  // ---- The paper record the discovery agent saves ----

  datatype Author = Author(firstName: string, lastName: string, affiliation: seq<string>, email: Option<string>)

  datatype Paper = Paper(
    id: string,
    title: string,
    journal: string,
    pubDate: string,
    doi: string,
    authors: seq<Author>,
    source: string)

  const Source := "pubmed"

  /** The `Affiliation` texts of an author's `AffiliationInfo` entries, in order;
      entries without one are skipped. */
  function Affiliations(infos: seq<AffiliationInfo>): (r: seq<string>)
    ensures |r| <= |infos|
    ensures forall k :: 0 <= k < |r| ==> exists i :: 0 <= i < |infos| && infos[i].affiliation == Some(r[k])
    ensures forall i :: 0 <= i < |infos| && infos[i].affiliation.Some? ==> infos[i].affiliation.value in r
  {
    Seqs.FilterMap((info: AffiliationInfo) => info.affiliation, infos)
  }

  /** Affiliations are collected in entry order. */
  lemma AffiliationsAppend(a: seq<AffiliationInfo>, b: seq<AffiliationInfo>)
    ensures Affiliations(a + b) == Affiliations(a) + Affiliations(b)
  {
    Seqs.FilterMapAppend((info: AffiliationInfo) => info.affiliation, a, b);
  }

  predicate HasNames(a: RawAuthor) {
    a.lastName.Some? && a.foreName.Some?
  }

  /** The author record of one `AuthorList` entry, or nothing when it lacks
      `LastName` or `ForeName`. */
  function ConvertAuthor(a: RawAuthor): (r: Option<Author>)
    ensures r.Some? <==> HasNames(a)
    ensures r.Some? ==> r.value.firstName == a.foreName.value && r.value.lastName == a.lastName.value
    ensures r.Some? ==> r.value.email == None
    ensures r.Some? ==> r.value.affiliation == Affiliations(a.affiliationInfo.GetOr([]))
  {
    if HasNames(a) then
      Some(Author(a.foreName.value, a.lastName.value, Affiliations(a.affiliationInfo.GetOr([])), None))
    else
      None
  }

  /** The authors kept from an `AuthorList`, in list order. */
  function KeptAuthors(list: seq<RawAuthor>): (r: seq<Author>)
    ensures |r| <= |list|
    ensures forall k :: 0 <= k < |r| ==> r[k].email == None
    ensures forall k :: 0 <= k < |r| ==> exists i :: 0 <= i < |list| && ConvertAuthor(list[i]) == Some(r[k])
    ensures forall i :: 0 <= i < |list| && HasNames(list[i]) ==> ConvertAuthor(list[i]).value in r
  {
    Seqs.FilterMap(ConvertAuthor, list)
  }

  /** Kept authors keep their relative order. */
  lemma KeptAuthorsAppend(a: seq<RawAuthor>, b: seq<RawAuthor>)
    ensures KeptAuthors(a + b) == KeptAuthors(a) + KeptAuthors(b)
  {
    Seqs.FilterMapAppend(ConvertAuthor, a, b);
  }

  /** `Year-Month-Day`, each part "" when missing. */
  function PubDate(d: RawPubDate): string
  {
    d.year.GetOr("") + "-" + d.month.GetOr("") + "-" + d.day.GetOr("")
  }

  /** The date string always has three `-`-separated fields, and when no part holds a
      `-` splitting it gives the three parts back. */
  lemma PubDateFields(d: RawPubDate)
    ensures multiset(PubDate(d))['-'] >= 2
    ensures '-' !in d.year.GetOr("") && '-' !in d.month.GetOr("") && '-' !in d.day.GetOr("") ==>
              Strings.Split(PubDate(d), '-') == [d.year.GetOr(""), d.month.GetOr(""), d.day.GetOr("")]
  {
    var parts := [d.year.GetOr(""), d.month.GetOr(""), d.day.GetOr("")];
    assert parts[1..][1..] == [parts[2]];
    assert Strings.Join(parts[1..], "-") == parts[1] + "-" + parts[2];
    assert PubDate(d) == Strings.Join(parts, "-");
    if '-' !in parts[0] && '-' !in parts[1] && '-' !in parts[2] {
      Strings.SplitJoin(parts, '-');
    }
  }

  /** The `PubDate` element, empty when `Journal`, `JournalIssue` or `PubDate` is
      missing. */
  function PubDateOf(article: RawArticleData): RawPubDate {
    match article.journal
    case None => RawPubDate(None, None, None)
    case Some(j) =>
      match j.journalIssue
      case None => RawPubDate(None, None, None)
      case Some(issue) => issue.pubDate.GetOr(RawPubDate(None, None, None))
  }

  predicate IsDoi(e: ELocationId) {
    e.eIdType == Some("doi")
  }

  /** `elocs[i]` is the last entry of type doi. */
  predicate LastDoiAt(elocs: seq<ELocationId>, i: int) {
    0 <= i < |elocs| && IsDoi(elocs[i]) && forall j :: i < j < |elocs| ==> !IsDoi(elocs[j])
  }

  /** The loop over `ELocationID`: every `doi` entry overwrites the previous one. */
  function Doi(elocs: seq<ELocationId>): (r: string)
    ensures (forall i :: 0 <= i < |elocs| ==> !IsDoi(elocs[i])) ==> r == ""
    decreases |elocs|
  {
    if |elocs| == 0 then ""
    else
      var last := elocs[|elocs| - 1];
      var front := elocs[..|elocs| - 1];
      assert forall i :: 0 <= i < |front| ==> front[i] == elocs[i];
      if IsDoi(last) then last.text else Doi(front)
  }

  /** The doi kept is the text of the last entry of type doi. */
  lemma {:induction false} DoiIsLast(elocs: seq<ELocationId>, i: int)
    requires LastDoiAt(elocs, i)
    ensures Doi(elocs) == elocs[i].text
    decreases |elocs|
  {
    var n := |elocs| - 1;
    if i < n {
      var front := elocs[..n];
      assert LastDoiAt(front, i);
      DoiIsLast(front, i);
    }
  }

  /** `_parse_article`: `None` exactly when `MedlineCitation`, `Article` or `PMID` is
      missing; otherwise the paper, with defaults for every optional part: the title
      and the journal default to "", the date, the doi and the authors are those the
      functions above compute from the article. */
  function ParseArticle(a: PubmedArticle): (r: Option<Paper>)
    ensures r.Some? <==>
              a.medlineCitation.Some? && a.medlineCitation.value.article.Some? && a.medlineCitation.value.pmid.Some?
    ensures r.Some? ==> r.value.id == a.medlineCitation.value.pmid.value && r.value.source == Source
    ensures r.Some? ==> r.value.title == a.medlineCitation.value.article.value.articleTitle.GetOr("")
    ensures r.Some? ==> forall k :: 0 <= k < |r.value.authors| ==> r.value.authors[k].email == None
    ensures r.Some? ==> |r.value.authors| <= |a.medlineCitation.value.article.value.authorList.GetOr([])|
    ensures r.Some? ==> var art := a.medlineCitation.value.article.value;
              && (art.journal.None? || art.journal.value.title.None? ==> r.value.journal == "")
              && (art.journal.Some? && art.journal.value.title.Some? ==> r.value.journal == art.journal.value.title.value)
    ensures r.Some? ==> var art := a.medlineCitation.value.article.value;
              && r.value.pubDate == PubDate(PubDateOf(art))
              && r.value.doi == Doi(art.eLocationIds.GetOr([]))
              && r.value.authors == KeptAuthors(art.authorList.GetOr([]))
  {
    match a.medlineCitation
    case None => None
    case Some(medline) =>
      match medline.article
      case None => None
      case Some(article) =>
        match medline.pmid
        case None => None
        case Some(pmid) =>
          var journal := match article.journal case Some(j) => j.title.GetOr("") case None => "";
          Some(Paper(
            pmid,
            article.articleTitle.GetOr(""),
            journal,
            PubDate(PubDateOf(article)),
            Doi(article.eLocationIds.GetOr([])),
            KeptAuthors(article.authorList.GetOr([])),
            Source))
  }

  /** The papers of the records that parse, in record order. */
  function ParsedPapers(articles: seq<PubmedArticle>): (r: seq<Paper>)
    ensures |r| <= |articles|
    ensures forall k :: 0 <= k < |r| ==> r[k].source == Source
    ensures forall k :: 0 <= k < |r| ==> exists i :: 0 <= i < |articles| && ParseArticle(articles[i]) == Some(r[k])
    ensures forall i :: 0 <= i < |articles| && ParseArticle(articles[i]).Some? ==> ParseArticle(articles[i]).value in r
  {
    Seqs.FilterMap(ParseArticle, articles)
  }

  lemma ParsedPapersAppend(a: seq<PubmedArticle>, b: seq<PubmedArticle>)
    ensures ParsedPapers(a + b) == ParsedPapers(a) + ParsedPapers(b)
  {
    Seqs.FilterMapAppend(ParseArticle, a, b);
  }

  /** `fetch_details` after the efetch call: no `PubmedArticle` key gives []. */
  function FetchDetails(records: EfetchRecords): (r: seq<Paper>)
    ensures records.pubmedArticles.None? ==> r == []
    ensures records.pubmedArticles.Some? ==> r == ParsedPapers(records.pubmedArticles.value)
  {
    match records.pubmedArticles
    case None => []
    case Some(articles) => ParsedPapers(articles)
  }
}
