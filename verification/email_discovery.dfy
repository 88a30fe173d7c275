/** The e-mail discovery agent (agents/email_discovery.py): collect the addresses
    written in each profile's affiliation texts, merge them with the profile's own,
    and keep the profiles that end up with at least one. The regular-expression
    engine is not modelled: `re.findall` is a parameter `matcher`, and `EmailShaped`
    states what every one of its matches looks like. */
module EmailDiscovery {
  import opened Common
  import Strings
  import Seqs
  import opened Profiling

  predicate IsLetter(c: char) {
    'a' <= c <= 'z' || 'A' <= c <= 'Z'
  }

  predicate IsDigit(c: char) {
    '0' <= c <= '9'
  }

  /** `[a-zA-Z0-9._%+-]` */
  predicate IsLocalChar(c: char) {
    IsLetter(c) || IsDigit(c) || c == '.' || c == '_' || c == '%' || c == '+' || c == '-'
  }

  /** `[a-zA-Z0-9.-]` */
  predicate IsDomainChar(c: char) {
    IsLetter(c) || IsDigit(c) || c == '.' || c == '-'
  }

  /** `e` reads local part `e[..at]`, `@`, domain `e[at + 1..dot]`, `.`, and a top-level
      domain `e[dot + 1..]`. */
  predicate ShapedAt(e: string, at: int, dot: int) {
    && 0 < at && at + 1 < dot && dot + 2 < |e|
    && e[at] == '@' && e[dot] == '.'
    && (forall i :: 0 <= i < at ==> IsLocalChar(e[i]))
    && (forall i :: at < i < dot ==> IsDomainChar(e[i]))
    && (forall i :: dot < i < |e| ==> IsLetter(e[i]))
  }

  /** A whole match of `[a-zA-Z0-9._%+-]+@[a-zA-Z0-9.-]+\.[a-zA-Z]{2,}`. */
  predicate EmailShaped(e: string) {
    exists at, dot | 0 <= at < |e| && 0 <= dot < |e| :: ShapedAt(e, at, dot)
  }

  /** What `re.findall(EMAIL_REGEX, text)` may return: e-mail-shaped pieces of `text`. */
  predicate MatchesSound(text: string, ms: seq<string>) {
    forall m :: m in ms ==> EmailShaped(m) && Strings.Contains(text, m)
  }

  /** `find_emails`: nothing for empty text, otherwise the distinct matches. */
  function FindEmails(text: string, matcher: string -> seq<string>): (r: seq<string>)
    ensures text == "" ==> r == []
    ensures Seqs.NoDup(r)
    ensures text != "" ==> forall x :: x in r <==> x in matcher(text)
  {
    if text == "" then [] else Seqs.Distinct(matcher(text))
  }

  /** Every address found has the e-mail shape and is written in the text. */
  lemma FindEmailsSound(text: string, matcher: string -> seq<string>)
    requires MatchesSound(text, matcher(text))
    ensures forall x :: x in FindEmails(text, matcher) ==> EmailShaped(x) && Strings.Contains(text, x)
  {
  }

  /** The addresses found in each affiliation text, one text after the other. */
  function Found(affiliations: seq<string>, matcher: string -> seq<string>): (r: seq<string>)
    ensures forall x :: x in r <==> exists i :: 0 <= i < |affiliations| && x in FindEmails(affiliations[i], matcher)
    decreases |affiliations|
  {
    if |affiliations| == 0 then []
    else
      var rest := Found(affiliations[1..], matcher);
      assert forall i :: 1 <= i < |affiliations| ==> affiliations[i] == affiliations[1..][i - 1];
      FindEmails(affiliations[0], matcher) + rest
  }

  /** The profile after the affiliation loop: `emails` becomes the set of its own
      addresses and those found; nothing else changes. */
  function Enrich(p: Profile, matcher: string -> seq<string>): (r: Profile)
    ensures r == p.(emails := r.emails)
    ensures r.emails.Some? && Seqs.NoDup(r.emails.value)
  {
    p.(emails := Some(Seqs.Distinct(p.emails.GetOr([]) + Found(p.affiliations, matcher))))
  }

  /** The enriched set holds exactly the profile's own addresses and those found in its
      affiliations: none is lost, and every new one comes from an affiliation. */
  lemma EnrichEmails(p: Profile, matcher: string -> seq<string>)
    ensures forall x :: x in Enrich(p, matcher).emails.value <==>
              x in p.emails.GetOr([]) ||
              exists i :: 0 <= i < |p.affiliations| && x in FindEmails(p.affiliations[i], matcher)
  {
  }

  /** With sound matches, every added address has the e-mail shape and occurs in one of
      the profile's affiliations. */
  lemma EnrichSound(p: Profile, matcher: string -> seq<string>)
    requires forall t :: MatchesSound(t, matcher(t))
    ensures forall x :: x in Enrich(p, matcher).emails.value && x !in p.emails.GetOr([]) ==>
              EmailShaped(x) && exists i :: 0 <= i < |p.affiliations| && Strings.Contains(p.affiliations[i], x)
  {
    EnrichEmails(p, matcher);
    forall x | x in Enrich(p, matcher).emails.value && x !in p.emails.GetOr([])
      ensures EmailShaped(x) && exists i :: 0 <= i < |p.affiliations| && Strings.Contains(p.affiliations[i], x)
    {
      var i :| 0 <= i < |p.affiliations| && x in FindEmails(p.affiliations[i], matcher);
      FindEmailsSound(p.affiliations[i], matcher);
    }
  }

  /** The profile survives the stage: its enriched set is not empty. */
  predicate HasEmails(p: Profile, matcher: string -> seq<string>) {
    |Enrich(p, matcher).emails.value| > 0
  }

  /** A profile is kept exactly when it already had an address or an affiliation
      yields one. */
  lemma HasEmailsIff(p: Profile, matcher: string -> seq<string>)
    ensures HasEmails(p, matcher) <==>
              |p.emails.GetOr([])| > 0 || exists i :: 0 <= i < |p.affiliations| && |FindEmails(p.affiliations[i], matcher)| > 0
  {
    var q := Enrich(p, matcher);
    EnrichEmails(p, matcher);
    if |p.emails.GetOr([])| > 0 {
      assert p.emails.GetOr([])[0] in q.emails.value;
    }
    if i :| 0 <= i < |p.affiliations| && |FindEmails(p.affiliations[i], matcher)| > 0 {
      assert FindEmails(p.affiliations[i], matcher)[0] in q.emails.value;
    }
    if |q.emails.value| > 0 {
      assert q.emails.value[0] in q.emails.value;
    }
  }

  /** `process_profiles`: the enriched profiles that have an address, in input order. */
  function ProcessProfiles(profiles: seq<Profile>, matcher: string -> seq<string>): (r: seq<Profile>)
    ensures |r| <= |profiles|
    ensures forall x :: x in r ==> x.emails.Some? && |x.emails.value| > 0
    ensures forall x :: x in r ==> exists i :: 0 <= i < |profiles| && x == Enrich(profiles[i], matcher)
    ensures forall i :: 0 <= i < |profiles| && HasEmails(profiles[i], matcher) ==> Enrich(profiles[i], matcher) in r
    decreases |profiles|
  {
    if |profiles| == 0 then []
    else
      var q := Enrich(profiles[0], matcher);
      var rest := ProcessProfiles(profiles[1..], matcher);
      assert forall i :: 1 <= i < |profiles| ==> profiles[i] == profiles[1..][i - 1];
      if HasEmails(profiles[0], matcher) then [q] + rest else rest
  }

  /** Profiles keep their relative order. */
  lemma {:induction false} ProcessProfilesAppend(a: seq<Profile>, b: seq<Profile>, matcher: string -> seq<string>)
    ensures ProcessProfiles(a + b, matcher) == ProcessProfiles(a, matcher) + ProcessProfiles(b, matcher)
    decreases |a|
  {
    if |a| == 0 {
      assert a + b == b;
    } else {
      assert (a + b)[1..] == a[1..] + b;
      ProcessProfilesAppend(a[1..], b, matcher);
    }
  }
}
