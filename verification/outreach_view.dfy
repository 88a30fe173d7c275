/** The campaign page (frontend/src/components/Outreach.tsx): the campaign status and
    the three counters. `startOutreach` awaits twice; the answers of the two calls are
    parameters, `None` standing for a call that threw. */
module OutreachView {
  import opened Common
  import Api

  /** 'idle', 'running', 'completed' and 'error'. */
  datatype CampaignStatus = Idle | Running | Completed | Failed

  datatype Counters = Counters(sent: int, pending: int, failed: int)

  datatype View = View(status: CampaignStatus, counters: Counters)

  const Initial := View(Idle, Counters(0, 0, 0))

  /** The initial `loadStats`: on success `sent` is the backend's count and the other
      two counters are zero; on failure the initial zeros stay. */
  function LoadStats(v: View, fetched: Option<Api.Stats>): (r: View)
    ensures r.status == v.status
    ensures fetched.Some? ==> r.counters == Counters(fetched.value.emailsSent, 0, 0)
    ensures fetched.None? ==> r == v
  {
    match fetched
    case Some(s) => v.(counters := Counters(s.emailsSent, 0, 0))
    case None => v
  }

  /** The launch button is disabled exactly while a campaign runs. */
  predicate LaunchDisabled(v: View) {
    v.status == Running
  }

  /** `startOutreach`: the statuses it sets, in order, and the final view. The
      counters it writes are the ones it saw when it began, with `sent` refreshed;
      a refresh that throws after a successful start ends in the error status. */
  function StartOutreach(v: View, started: Option<string>, refreshed: Option<Api.Stats>)
    : (r: (seq<CampaignStatus>, View))
    ensures |r.0| >= 2 && r.0[0] == Running && r.0[|r.0| - 1] == r.1.status
    ensures r.1.status == Completed <==> started == Some("started") && refreshed.Some?
    ensures r.1.status == Failed <==> !(started == Some("started") && refreshed.Some?)
    ensures started == Some("started") ==> r.0[1] == Completed
    ensures started == Some("started") && refreshed.Some? ==>
              r.1.counters == v.counters.(sent := refreshed.value.emailsSent)
    ensures !(started == Some("started") && refreshed.Some?) ==> r.1.counters == v.counters
  {
    var snapshot := v.counters;
    if started == Some("started") then
      match refreshed
      case Some(s) => ([Running, Completed], View(Completed, snapshot.(sent := s.emailsSent)))
      case None => ([Running, Completed, Failed], View(Failed, snapshot))
    else ([Running, Failed], View(Failed, snapshot))
  }

  /** Launch is blocked while the call is in flight and free again once it ends,
      whatever the outcome; only `sent` ever changes. */
  lemma LaunchReenabled(v: View, started: Option<string>, refreshed: Option<Api.Stats>)
    ensures var r := StartOutreach(v, started, refreshed);
            LaunchDisabled(View(r.0[0], v.counters)) && !LaunchDisabled(r.1) &&
            r.1.counters.pending == v.counters.pending && r.1.counters.failed == v.counters.failed
  {
  }
}
