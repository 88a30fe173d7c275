/** The validation agent (agents/validation_agent.py): normalise each candidate's
    addresses, drop the malformed ones and those already contacted, and keep one
    clean record per candidate that still has an address. The history is the set of
    addresses read from the history file (reading it is left out); the DNS check
    `validate_domain` is disabled in the source and is not modelled. */
module Validation {
  import opened Common
  import Strings
  import opened Profiling

  /** `email.lower().strip()` */
  function Normalize(e: string): string {
    Strings.Strip(Strings.Python, Strings.Lower(e))
  }

  /** A normalised address has no upper-case letter and no surrounding whitespace. */
  lemma NormalizeShape(e: string)
    ensures Strings.IsLowerCase(Normalize(e)) && Strings.IsTrimmed(Strings.Python, Normalize(e))
  {
    Strings.LowerIsLowerCase(e);
    Strings.StripKeepsLowerCase(Strings.Python, Strings.Lower(e));
  }

  /** A trailing unit separator, which Python counts as whitespace, is removed. */
  lemma NormalizeDropsSeparator()
    ensures Normalize("A@b\U{001F}") == "a@b"
  {
    var l := Strings.Lower("A@b\U{001F}");
    assert l == "a@b\U{001F}";
    assert Strings.TrimStart(Strings.Python, l) == l;
    assert l[..3] == "a@b";
  }

  /** Normalising twice changes nothing. */
  lemma NormalizeIdempotent(e: string)
    ensures Normalize(Normalize(e)) == Normalize(e)
  {
    var n := Normalize(e);
    NormalizeShape(e);
    assert Strings.Lower(n) == n;
    Strings.StripIdempotent(Strings.Python, Strings.Lower(e));
  }

  /** A normalised address passes: it is not empty, has an `@` and is not in the
      history. */
  predicate Admissible(e: string, history: set<string>) {
    e != "" && '@' in e && e !in history
  }

  /** The `valid_emails` list of one candidate: the admissible normalised addresses, in
      list order. */
  function ValidEmails(emails: seq<string>, history: set<string>): (r: seq<string>)
    ensures |r| <= |emails|
    ensures forall x :: x in r ==> Admissible(x, history)
    ensures forall x :: x in r ==> exists i :: 0 <= i < |emails| && Normalize(emails[i]) == x
    ensures forall i :: 0 <= i < |emails| && Admissible(Normalize(emails[i]), history) ==> Normalize(emails[i]) in r
    decreases |emails|
  {
    if |emails| == 0 then []
    else
      var e := Normalize(emails[0]);
      var rest := ValidEmails(emails[1..], history);
      assert forall i :: 1 <= i < |emails| ==> emails[i] == emails[1..][i - 1];
      if Admissible(e, history) then [e] + rest else rest
  }

  /** `emails[j]` is the first address that passes, and `x` is its normalised form. */
  predicate FirstPassingAt(emails: seq<string>, history: set<string>, x: string, j: int) {
    && 0 <= j < |emails|
    && x == Normalize(emails[j])
    && Admissible(x, history)
    && forall i :: 0 <= i < j ==> !Admissible(Normalize(emails[i]), history)
  }

  /** A failing address in front keeps the first passing one, one place later. */
  lemma FirstPassingShift(emails: seq<string>, history: set<string>, x: string, j: int)
    requires |emails| > 0 && !Admissible(Normalize(emails[0]), history)
    requires FirstPassingAt(emails[1..], history, x, j)
    ensures FirstPassingAt(emails, history, x, j + 1)
  {
    forall i | 0 <= i < j + 1
      ensures !Admissible(Normalize(emails[i]), history)
    {
      if i > 0 {
        assert emails[i] == emails[1..][i - 1];
      }
    }
  }

  /** The first valid address is the normalised form of the first address that
      passes; none before it passes. */
  lemma {:induction false} ValidEmailsFirst(emails: seq<string>, history: set<string>)
    requires |ValidEmails(emails, history)| > 0
    ensures exists j :: FirstPassingAt(emails, history, ValidEmails(emails, history)[0], j)
    decreases |emails|
  {
    var x := ValidEmails(emails, history)[0];
    if !Admissible(Normalize(emails[0]), history) {
      var rest := emails[1..];
      assert ValidEmails(emails, history) == ValidEmails(rest, history);
      ValidEmailsFirst(rest, history);
      var j :| FirstPassingAt(rest, history, x, j);
      FirstPassingShift(emails, history, x, j);
    } else {
      assert FirstPassingAt(emails, history, x, 0);
    }
  }

  /** The record handed to the outreach agent. */
  datatype Record = Record(
    name: string,
    firstName: string,
    email: string,
    paperTitle: Option<string>,
    journal: Option<string>)

  /** The clean record of one candidate, if any of its addresses survives; a candidate
      without `emails` has none. */
  function CandidateRecord(c: Profile, history: set<string>): (r: Option<Record>)
    ensures r.Some? <==> exists i :: 0 <= i < |c.emails.GetOr([])| && Admissible(Normalize(c.emails.GetOr([])[i]), history)
    ensures r.Some? ==> r.value.email == ValidEmails(c.emails.GetOr([]), history)[0]
    ensures r.Some? ==> Admissible(r.value.email, history)
    ensures r.Some? ==> r.value.name == c.name && r.value.firstName == c.firstName
    ensures r.Some? ==> r.value.paperTitle == c.paperTitle && r.value.journal == c.journal
  {
    var valid := ValidEmails(c.emails.GetOr([]), history);
    if |valid| > 0 then
      assert valid[0] in valid;
      Some(Record(c.name, c.firstName, valid[0], c.paperTitle, c.journal))
    else
      None
  }

  /** `validate_and_dedup`: one record per candidate with a surviving address, in
      candidate order. */
  function ValidateAndDedup(candidates: seq<Profile>, history: set<string>): (r: seq<Record>)
    ensures |r| <= |candidates|
    ensures forall x :: x in r ==> Admissible(x.email, history)
    decreases |candidates|
  {
    if |candidates| == 0 then []
    else
      var rest := ValidateAndDedup(candidates[1..], history);
      match CandidateRecord(candidates[0], history)
      case Some(x) => [x] + rest
      case None => rest
  }

  /** `x` is the record of one of the candidates. */
  ghost predicate RecordOf(candidates: seq<Profile>, history: set<string>, x: Record) {
    exists i :: 0 <= i < |candidates| && CandidateRecord(candidates[i], history) == Some(x)
  }

  /** Every record is the record of one of the candidates. */
  lemma {:induction false} ValidateAndDedupProvenance(candidates: seq<Profile>, history: set<string>)
    ensures forall x :: x in ValidateAndDedup(candidates, history) ==> RecordOf(candidates, history, x)
    decreases |candidates|
  {
    if |candidates| > 0 {
      var rest := candidates[1..];
      ValidateAndDedupProvenance(rest, history);
      forall x | x in ValidateAndDedup(candidates, history)
        ensures RecordOf(candidates, history, x)
      {
        if x in ValidateAndDedup(rest, history) {
          var i :| 0 <= i < |rest| && CandidateRecord(rest[i], history) == Some(x);
          assert candidates[i + 1] == rest[i];
        } else {
          assert CandidateRecord(candidates[0], history) == Some(x);
        }
      }
    }
  }

  /** Every candidate with a surviving address is represented by its record. */
  lemma {:induction false} ValidateAndDedupComplete(candidates: seq<Profile>, history: set<string>)
    ensures forall i :: 0 <= i < |candidates| && CandidateRecord(candidates[i], history).Some? ==>
              CandidateRecord(candidates[i], history).value in ValidateAndDedup(candidates, history)
    decreases |candidates|
  {
    if |candidates| > 0 {
      var rest := candidates[1..];
      ValidateAndDedupComplete(rest, history);
      forall i | 0 <= i < |candidates| && CandidateRecord(candidates[i], history).Some?
        ensures CandidateRecord(candidates[i], history).value in ValidateAndDedup(candidates, history)
      {
        if i > 0 {
          assert candidates[i] == rest[i - 1];
        }
      }
    }
  }

  /** Candidates keep their relative order. */
  lemma {:induction false} ValidateAndDedupAppend(a: seq<Profile>, b: seq<Profile>, history: set<string>)
    ensures ValidateAndDedup(a + b, history) == ValidateAndDedup(a, history) + ValidateAndDedup(b, history)
    decreases |a|
  {
    if |a| == 0 {
      assert a + b == b;
    } else {
      assert (a + b)[1..] == a[1..] + b;
      ValidateAndDedupAppend(a[1..], b, history);
    }
  }

  /** A record's address comes from its candidate: it is the first of the candidate's
      addresses that passes, normalised. */
  lemma RecordEmailIsFirstSurvivor(c: Profile, history: set<string>)
    requires CandidateRecord(c, history).Some?
    ensures exists j :: FirstPassingAt(c.emails.GetOr([]), history, CandidateRecord(c, history).value.email, j)
  {
    ValidEmailsFirst(c.emails.GetOr([]), history);
  }

  /** Every address handed on is in normal form: lower-case, without surrounding
      whitespace, not empty and with an `@`. */
  lemma ValidateAndDedupNormalized(candidates: seq<Profile>, history: set<string>)
    ensures forall x :: x in ValidateAndDedup(candidates, history) ==>
              Strings.IsLowerCase(x.email) && Strings.IsTrimmed(Strings.Python, x.email) && x.email != "" && '@' in x.email
  {
    forall x | x in ValidateAndDedup(candidates, history)
      ensures Strings.IsLowerCase(x.email) && Strings.IsTrimmed(Strings.Python, x.email)
    {
      ValidateAndDedupProvenance(candidates, history);
      var i :| 0 <= i < |candidates| && CandidateRecord(candidates[i], history) == Some(x);
      var es := candidates[i].emails.GetOr([]);
      RecordEmailIsFirstSurvivor(candidates[i], history);
      var j :| FirstPassingAt(es, history, x.email, j);
      NormalizeShape(es[j]);
    }
  }
}
