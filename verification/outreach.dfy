/** The outreach agent (agents/outreach_agent.py): send the call-for-papers mail to
    the validated recipients, one after the other, until the daily quota is used up.
    SMTP itself is not modelled: whether each step of a session succeeds is a
    parameter, and so is the template text, the password and the clock. */
module Outreach {
  import opened Common
  import opened Validation

  /** The parts of `settings.yaml` the agent reads. `emailTemplateSubject` is a
      top-level key that may be missing. */
  datatype OutreachConfig = OutreachConfig(
    emailTemplateSubject: Option<string>,
    senderEmail: string,
    smtpServer: string,
    smtpPort: int,
    maxDailyEmails: int)

  datatype Security = Ssl | StartTls

  datatype Endpoint = Endpoint(host: string, port: int, security: Security)

  /** The connection `send_email` opens: implicit TLS on 465 when 465 is configured,
      otherwise port 587 upgraded with STARTTLS, whatever port was configured. */
  function Connection(server: string, configuredPort: int): (e: Endpoint)
    ensures e.host == server
    ensures e.security == Ssl <==> configuredPort == 465
    ensures e.port == (if e.security == Ssl then 465 else 587)
  {
    if configuredPort == 465 then Endpoint(server, 465, Ssl) else Endpoint(server, 587, StartTls)
  }

  /** Only the two standard submission ports are ever used, and a configured port
      other than 465 is never contacted as such. */
  lemma ConnectionPorts(server: string, configuredPort: int)
    ensures Connection(server, configuredPort).port in {465, 587}
    ensures Connection(server, configuredPort).port == configuredPort ==> configuredPort in {465, 587}
  {
  }

  /** `recipient['first_name'] or recipient['name']`: an empty first name is falsy. */
  function GreetingName(r: Record): (g: string)
    ensures g == r.firstName || g == r.name
    ensures g == r.name <== r.firstName == ""
    ensures r.firstName != "" ==> g == r.firstName
  {
    if r.firstName != "" then r.firstName else r.name
  }

  /** The greeting is empty only when both names are. */
  lemma GreetingNameNonEmpty(r: Record)
    ensures GreetingName(r) == "" <==> r.firstName == "" && r.name == ""
  {
  }

  /** The message as composed before the `try`: the template's fields and the
      headers. */
  datatype Message = Message(
    subject: string,
    sender: string,
    to: string,
    greeting: string,
    paperTitle: Option<string>,
    journal: Option<string>)

  /** One call on the SMTP connection inside the `try`. */
  datatype Step = Open(endpoint: Endpoint) | UpgradeTls | Login(user: string) | SendMessage(msg: Message) | Quit

  /** The calls of one session, in order. */
  function SessionSteps(e: Endpoint, sender: string, msg: Message): (steps: seq<Step>)
    ensures |steps| >= 4 && steps[0] == Open(e) && steps[|steps| - 1] == Quit
    ensures UpgradeTls in steps <==> e.security == StartTls
    ensures SendMessage(msg) in steps
  {
    [Open(e)] + (if e.security == StartTls then [UpgradeTls] else []) + [Login(sender), SendMessage(msg), Quit]
  }

  /** The message `send_email` composes for `r`, given the subject. */
  function ComposeMessage(cfg: OutreachConfig, subject: string, r: Record): Message {
    Message(subject, cfg.senderEmail, r.email, GreetingName(r), r.paperTitle, r.journal)
  }

  /** `send_email`. Composing the message happens outside the `try`, so a missing
      subject is an uncaught error; inside it any failing call turns into `False`. */
  function SendEmail(cfg: OutreachConfig, r: Record, succeeds: Step -> bool): (res: Result<bool>)
    ensures res.Err? <==> cfg.emailTemplateSubject.None?
  {
    match cfg.emailTemplateSubject
    case None => Err("KeyError: 'emailTemplateSubject'")
    case Some(subject) =>
      Ok(AllSucceed(SessionSteps(Connection(cfg.smtpServer, cfg.smtpPort), cfg.senderEmail,
                                 ComposeMessage(cfg, subject, r)), succeeds))
  }

  /** `send_email` returns `True` exactly when every call of the session, from opening
      the connection to `quit`, succeeds. */
  lemma SendEmailDelivers(cfg: OutreachConfig, r: Record, succeeds: Step -> bool)
    requires cfg.emailTemplateSubject.Some?
    ensures var steps := SessionSteps(Connection(cfg.smtpServer, cfg.smtpPort), cfg.senderEmail,
                                      ComposeMessage(cfg, cfg.emailTemplateSubject.value, r));
            SendEmail(cfg, r, succeeds) == Ok(true) <==> forall k :: 0 <= k < |steps| ==> succeeds(steps[k])
  {
  }

  /** The session runs to its end: no call raises. */
  function AllSucceed(steps: seq<Step>, succeeds: Step -> bool): (ok: bool)
    ensures ok <==> forall k :: 0 <= k < |steps| ==> succeeds(steps[k])
    decreases |steps|
  {
    if |steps| == 0 then true
    else
      assert forall k :: 1 <= k < |steps| ==> steps[k] == steps[1..][k - 1];
      succeeds(steps[0]) && AllSucceed(steps[1..], succeeds)
  }

  /** The delivered attempt `i`: `send_email` returned `True` for candidate `i`, whose
      session calls succeed as `succeeds(i)` says. */
  predicate Delivered(cfg: OutreachConfig, candidates: seq<Record>, succeeds: nat -> Step -> bool, i: nat)
    requires i < |candidates|
  {
    SendEmail(cfg, candidates[i], succeeds(i)) == Ok(true)
  }

  /** Whether the mail to each of the first `n` candidates goes out when it is
      tried, candidate by candidate. */
  function Outcomes(cfg: OutreachConfig, candidates: seq<Record>, succeeds: nat -> Step -> bool, n: nat): (sent: seq<bool>)
    requires n <= |candidates|
    ensures |sent| == n
    decreases n
  {
    if n == 0 then [] else Outcomes(cfg, candidates, succeeds, n - 1) + [Delivered(cfg, candidates, succeeds, n - 1)]
  }

  /** Entry `i` says whether `send_email` returned `True` for candidate `i`. */
  lemma {:induction false} OutcomeAt(cfg: OutreachConfig, candidates: seq<Record>, succeeds: nat -> Step -> bool, n: nat, i: nat)
    requires i < n <= |candidates|
    ensures Outcomes(cfg, candidates, succeeds, n)[i] <==> SendEmail(cfg, candidates[i], succeeds(i)) == Ok(true)
    decreases n
  {
    if i < n - 1 {
      OutcomeAt(cfg, candidates, succeeds, n - 1, i);
    }
  }

  /** The `sent_emails.csv` lines written for the first `n` candidates, one per
      delivered mail (the timestamp column is left out); `sent[i]` says whether the
      mail to candidate `i` went out. */
  function SentLog(candidates: seq<Record>, sent: seq<bool>, n: nat): (log: seq<string>)
    requires n <= |candidates| == |sent|
    ensures |log| <= n
    decreases n
  {
    if n == 0 then []
    else SentLog(candidates, sent, n - 1) + (if sent[n - 1] then [candidates[n - 1].email] else [])
  }

  /** `line` names a recipient among the first `n` whose mail went out. */
  ghost predicate DeliveredTo(candidates: seq<Record>, sent: seq<bool>, n: nat, line: string)
    requires n <= |candidates| == |sent|
  {
    exists i :: 0 <= i < n && sent[i] && line == candidates[i].email
  }

  /** Every line names a recipient whose mail went out. */
  lemma {:induction false} SentLogSound(candidates: seq<Record>, sent: seq<bool>, n: nat)
    requires n <= |candidates| == |sent|
    ensures forall line :: line in SentLog(candidates, sent, n) ==> DeliveredTo(candidates, sent, n, line)
    decreases n
  {
    if n > 0 {
      SentLogSound(candidates, sent, n - 1);
      var prev := SentLog(candidates, sent, n - 1);
      forall line | line in SentLog(candidates, sent, n)
        ensures DeliveredTo(candidates, sent, n, line)
      {
        if line in prev {
          var i :| 0 <= i < n - 1 && sent[i] && line == candidates[i].email;
        } else {
          assert sent[n - 1] && line == candidates[n - 1].email;
        }
      }
    }
  }

  /** Every recipient whose mail went out has its line. */
  lemma {:induction false} SentLogComplete(candidates: seq<Record>, sent: seq<bool>, n: nat)
    requires n <= |candidates| == |sent|
    ensures forall i :: 0 <= i < n && sent[i] ==> candidates[i].email in SentLog(candidates, sent, n)
    decreases n
  {
    if n > 0 {
      SentLogComplete(candidates, sent, n - 1);
      var prev := SentLog(candidates, sent, n - 1);
      var log := SentLog(candidates, sent, n);
      assert log[..|prev|] == prev;
      forall i | 0 <= i < n && sent[i]
        ensures candidates[i].email in log
      {
        if i < n - 1 {
          var k :| 0 <= k < |prev| && prev[k] == candidates[i].email;
          assert log[k] == prev[k];
        } else {
          assert log[|log| - 1] == candidates[i].email;
        }
      }
    }
  }

  /** The log of a prefix is never longer than the log of a longer prefix. */
  lemma {:induction false} SentLogGrows(candidates: seq<Record>, sent: seq<bool>, j: nat, n: nat)
    requires j <= n <= |candidates| == |sent|
    ensures |SentLog(candidates, sent, j)| <= |SentLog(candidates, sent, n)|
    decreases n
  {
    if j < n {
      SentLogGrows(candidates, sent, j, n - 1);
    }
  }

  /** Each of the first `n` candidates was reached while fewer than `limit` mails had
      gone out: the loop's `if count >= max_daily: break` came first. */
  predicate TriedUnderQuota(candidates: seq<Record>, sent: seq<bool>, limit: int, n: nat)
    requires n <= |candidates| == |sent|
  {
    forall j :: 0 <= j < n ==> |SentLog(candidates, sent, j)| < limit
  }

  /** It is enough that the last of them was reached under the limit. */
  lemma LastTriedUnderQuota(candidates: seq<Record>, sent: seq<bool>, limit: int, n: nat)
    requires 0 < n <= |candidates| == |sent|
    requires |SentLog(candidates, sent, n - 1)| < limit
    ensures TriedUnderQuota(candidates, sent, limit, n)
  {
    forall j | 0 <= j < n
      ensures |SentLog(candidates, sent, j)| < limit
    {
      SentLogGrows(candidates, sent, j, n - 1);
    }
  }

  /** `max(0, limit)`: a limit of zero or below allows no mail at all. */
  function Quota(limit: int): (q: nat)
    ensures q <= 0 <==> limit <= 0
    ensures limit > 0 ==> q == limit
  {
    if limit > 0 then limit else 0
  }

  /** The state of the send loop before candidate `i`: the log and the count are
      those of the first `i` candidates, within the quota, and the last candidate
      tried was reached under the limit. */
  predicate Sending(candidates: seq<Record>, sent: seq<bool>, limit: int, i: nat, log: seq<string>, count: nat)
    requires |candidates| == |sent|
  {
    && i <= |candidates|
    && log == SentLog(candidates, sent, i)
    && count == |log|
    && count <= Quota(limit)
    && (i > 0 ==> |SentLog(candidates, sent, i - 1)| < limit)
  }

  /** One pass of the loop body below the limit. */
  lemma SendingStep(candidates: seq<Record>, sent: seq<bool>, limit: int, i: nat, log: seq<string>, count: nat)
    requires |candidates| == |sent| && i < |candidates|
    requires Sending(candidates, sent, limit, i, log, count) && count < limit
    ensures Sending(candidates, sent, limit, i + 1,
                    if sent[i] then log + [candidates[i].email] else log,
                    if sent[i] then count + 1 else count)
  {
  }

  /** `main` after loading: try the candidates in order, stop before the next one once
      `count` reaches the limit, and count a candidate only when its mail went out.
      `tried` is how many candidates were handed to `send_email`; `aborted` says the
      run ended on an uncaught error. Every candidate handed over was reached while
      fewer than the limit had been delivered. */
  method RunOutreach(cfg: OutreachConfig, candidates: seq<Record>, succeeds: nat -> Step -> bool)
    returns (count: nat, log: seq<string>, tried: nat, aborted: bool)
    ensures |candidates| == 0 ==> tried == 0 && count == 0 && !aborted
    ensures tried <= |candidates|
    ensures count <= Quota(cfg.maxDailyEmails)
    ensures aborted <==> cfg.emailTemplateSubject.None? && |candidates| > 0 && cfg.maxDailyEmails > 0
    ensures aborted ==> tried == 1 && count == 0
    ensures log == SentLog(candidates, Outcomes(cfg, candidates, succeeds, |candidates|), if aborted then tried - 1 else tried)
    ensures count == |log|
    ensures !aborted && tried < |candidates| ==> count >= cfg.maxDailyEmails
    ensures TriedUnderQuota(candidates, Outcomes(cfg, candidates, succeeds, |candidates|), cfg.maxDailyEmails, tried)
  {
    count, log, tried, aborted := 0, [], 0, false;
    if |candidates| == 0 {
      return;
    }
    var sent := Outcomes(cfg, candidates, succeeds, |candidates|);
    var i := 0;
    while i < |candidates|
      invariant Sending(candidates, sent, cfg.maxDailyEmails, i, log, count)
      invariant i > 0 ==> cfg.emailTemplateSubject.Some? && cfg.maxDailyEmails > 0
    {
      if count >= cfg.maxDailyEmails {
        break;
      }
      var res := SendEmail(cfg, candidates[i], succeeds(i));
      if res.Err? {
        tried, aborted := i + 1, true;
        LastTriedUnderQuota(candidates, sent, cfg.maxDailyEmails, tried);
        return;
      }
      OutcomeAt(cfg, candidates, succeeds, |candidates|, i);
      SendingStep(candidates, sent, cfg.maxDailyEmails, i, log, count);
      if res.value {
        count := count + 1;
        log := log + [candidates[i].email];
      }
      i := i + 1;
    }
    tried := i;
    if tried > 0 {
      LastTriedUnderQuota(candidates, sent, cfg.maxDailyEmails, tried);
    }
  }
}
