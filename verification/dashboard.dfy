/** The dashboard (frontend/src/components/Dashboard.tsx): the per-agent status map
    behind the start buttons, and the polled statistics. The five-second reset timer
    is an explicit event: a start the backend accepted leaves a pending reset, and
    `ResetFires` delivers it. Charts and rendering are left out. */
module Dashboard {
  import opened Common
  import Polling
  import Api
  import Backend

  /** The status strings the view sets: 'idle', 'running' and 'error'. */
  datatype AgentStatus = Idle | Running | Failed

  /** The view's state. `pending` holds the agents whose reset timer is running, once
      per timer. */
  datatype View = View(stats: Api.Stats, loading: bool, status: map<string, AgentStatus>, pending: multiset<string>)

  const Initial := View(Api.Stats(0, 0, 0), true, map[], multiset{})

  /** `agentStatus[id] || 'idle'`: an unset status shows as idle. */
  function Shown(status: map<string, AgentStatus>, id: string): (s: AgentStatus)
    ensures id !in status ==> s == Idle
    ensures id in status ==> s == status[id]
  {
    if id in status then status[id] else Idle
  }

  /** `AgentRow`'s `disabled`: running, or (`loading`) set to anything but idle. */
  predicate StartDisabled(status: map<string, AgentStatus>, id: string) {
    Shown(status, id) == Running || (id in status && status[id] != Idle)
  }

  /** The button is disabled exactly while the agent runs or after it failed, so a
      failed agent cannot be started again from here. */
  lemma StartDisabledIff(status: map<string, AgentStatus>, id: string)
    ensures StartDisabled(status, id) <==> Shown(status, id) in {Running, Failed}
  {
  }

  /** The click: `agentStatus[id]` becomes running, the others stay. */
  function StartClicked(v: View, id: string): (r: View)
    ensures Shown(r.status, id) == Running
    ensures forall other :: other != id ==> Shown(r.status, other) == Shown(v.status, other)
    ensures r.stats == v.stats && r.loading == v.loading && r.pending == v.pending
  {
    v.(status := v.status[id := Running])
  }

  /** The `status` field of the answer to `startAgent`, or `None` when the call
      threw. */
  type StartAnswer = Option<string>

  /** The answer arrives: 'started' leaves the status running and starts the reset
      timer; anything else, or a throw, marks the agent failed. */
  function StartAnswered(v: View, id: string, answer: StartAnswer): (r: View)
    ensures answer == Some("started") ==> r.status == v.status && r.pending == v.pending + multiset{id}
    ensures answer != Some("started") ==> r.status == v.status[id := Failed] && r.pending == v.pending
    ensures r.stats == v.stats && r.loading == v.loading
  {
    if answer == Some("started") then v.(pending := v.pending + multiset{id})
    else v.(status := v.status[id := Failed])
  }

  /** A reset timer for `id` fires: the agent shows idle again. Without a pending
      timer for `id` nothing happens. */
  function ResetFires(v: View, id: string): (r: View)
    ensures id in v.pending ==> Shown(r.status, id) == Idle && r.pending == v.pending - multiset{id}
    ensures id !in v.pending ==> r == v
    ensures forall other :: other != id ==> Shown(r.status, other) == Shown(v.status, other)
  {
    if id in v.pending then v.(status := v.status[id := Idle], pending := v.pending - multiset{id}) else v
  }

  /** A start the backend accepts ends, once its timer fires, with the agent idle and
      startable again; a rejected one ends failed and blocked. */
  lemma StartCycle(v: View, id: string, answer: StartAnswer)
    ensures var w := StartAnswered(StartClicked(v, id), id, answer);
            (answer == Some("started") ==> Shown(ResetFires(w, id).status, id) == Idle &&
                                            !StartDisabled(ResetFires(w, id).status, id)) &&
            (answer != Some("started") ==> Shown(w.status, id) == Failed && StartDisabled(w.status, id))
  {
  }

  /** What `api.startAgent(id)` yields against the backend: the JSON `status` of a
      200 answer; a 400 answer makes it throw. */
  function ClientStart(id: string): (a: StartAnswer)
    ensures a.Some? <==> Backend.StartAgent(id).code == 200
    ensures a.Some? ==> a.value == Backend.StartAgent(id).status
  {
    var resp := Backend.StartAgent(id);
    if resp.code == 200 then Some(resp.status) else None
  }

  /** With the backend reachable, a start ends failed exactly for a name the backend
      does not know. The three agents the dashboard offers are all known. */
  lemma StartFailsOnlyForUnknown(v: View, id: string)
    ensures var w := StartAnswered(StartClicked(v, id), id, ClientStart(id));
            Shown(w.status, id) == Failed <==> id !in Backend.AgentNames
    ensures "discovery" in Backend.AgentNames && "profiling" in Backend.AgentNames && "outreach" in Backend.AgentNames
  {
  }

  /** `fetchStats`: a successful fetch replaces the statistics, a failed one keeps
      them; loading ends either way. */
  function FetchStats(v: View, fetched: Option<Api.Stats>): (r: View)
    ensures !r.loading
    ensures fetched.Some? ==> r.stats == fetched.value
    ensures fetched.None? ==> r.stats == v.stats
    ensures r.status == v.status && r.pending == v.pending
  {
    v.(stats := Polling.Apply(v.stats, fetched), loading := false)
  }
}
