/** A peripheral's answer to a settings request: a report of its current settings,
    carrying the request's id back, raised for the relay to send to the central. */
module SettingsRequestListener {
  import opened Events
  import opened Activity

  /** The report answering `req` on a node whose store holds `current`; the relay
      later replaces the self marker with this peripheral's identity. */
  function BuildReport(current: Settings, req: ActivitySettingsRequest): ActivitySettingsReport {
    ActivitySettingsReport(current.idleMs, current.sleepMs, SourceSelf, req.requestId)
  }

  /** The listener's effect: one report per request, nothing for any other event, and
      never a change to the store. */
  function Respond(st: NodeState, eh: Event): (r: NodeState)
    ensures r.settings == st.settings
    ensures !eh.Request? ==> r == st
    ensures eh.Request? ==> |r.bus| == |st.bus| + 1 && r.bus[..|st.bus|] == st.bus
    ensures eh.Request? ==>
      var e := r.bus[|st.bus|];
      e.Report? && e.report.idleMs == st.settings.idleMs && e.report.sleepMs == st.settings.sleepMs
      && e.report.requestId == eh.request.requestId && e.report.source == SourceSelf
  {
    if eh.Request? then NodeState(st.settings, st.bus + [Report(BuildReport(st.settings, eh.request))])
    else st
  }

  /** The listener is built into split peripherals only. */
  predicate Subscribed(role: Role) {
    role == Peripheral
  }

  /** An event delivered to a node whose build may or may not contain the listener. */
  function Deliver(role: Role, st: NodeState, eh: Event): (r: NodeState)
    ensures r.settings == st.settings
    ensures r != st <==> role == Peripheral && eh.Request?
  {
    if Subscribed(role) then Respond(st, eh) else st
  }

  method ActivitySettingsRequestListener(node: Node, eh: Event) returns (verdict: Verdict)
    requires node.role == Peripheral
    modifies node`bus
    ensures verdict == Bubble
    ensures node.State() == Respond(old(node.State()), eh)
  {
    if !eh.Request? {
      return Bubble;
    }
    var idle := node.GetIdleMs();
    var sleep := node.GetSleepMs();
    var report := BuildReport(Settings(idle, sleep), eh.request);
    node.Raise(Report(report));
    return Bubble;
  }

  /** The event manager handing an event to this listener where the build has it. */
  method DeliverToListener(node: Node, eh: Event)
    modifies node`bus
    ensures node.State() == Deliver(node.role, old(node.State()), eh)
  {
    if Subscribed(node.role) {
      var _ := ActivitySettingsRequestListener(node, eh);
    }
  }
}
