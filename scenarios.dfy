/** Properties across the request handler, the two listeners and the split relay. */
module Scenarios {
  import opened Events
  import opened Activity
  import opened SettingsRpc
  import opened SettingsChangedListener
  import opened SettingsRequestListener

  /** What the split relay is assumed to do with an event it forwards from `sender`:
      replace the self marker with the sender's identity and keep every other field. */
  function Forwarded(eh: Event, sender: uint8): Event {
    match eh
    case Changed(c) => if c.source == SourceSelf then Changed(c.(source := sender)) else eh
    case Report(r) => if r.source == SourceSelf then Report(r.(source := sender)) else eh
    case _ => eh
  }

  /** A set that both setters accept is what a following get returns. */
  lemma SetThenGet(p: Policy, st: NodeState, v: Settings)
    requires Accepts(p, v)
    ensures Dispatch(p, Dispatch(p, st, Set(v)).state, Get).response == GotSettings(v)
  {
  }

  /** An accepted idle timeout stays written when the sleep timeout is rejected; the
      response is then an error and no event is raised. */
  lemma NoRollback(p: Policy, st: NodeState, v: Settings)
    requires p.acceptIdle(v.idleMs) && !p.acceptSleep(v.sleepMs)
    ensures var r := Dispatch(p, st, Set(v));
      r.state.settings == Settings(v.idleMs, st.settings.sleepMs)
      && r.response == Error(ProcessFailed) && r.state.bus == st.bus
  {
  }

  /** The events a request raises on a node, handed to that node's own changed listener,
      leave its store as the request left it. */
  lemma OwnChangeNotReapplied(p: Policy, st: NodeState, req: Request)
    ensures var r := Dispatch(p, st, req);
      |st.bus| <= |r.state.bus|
      && ApplyAll(p, r.state.settings, r.state.bus[|st.bus|..]) == r.state.settings
  {
  }

  /** A set accepted on one half, forwarded by the relay, is applied by a half whose
      setters accept the same values. */
  lemma ChangeReachesOtherHalf(p: Policy, q: Policy, st: NodeState, other: Settings, v: Settings, sender: uint8)
    requires Accepts(p, v) && Accepts(q, v) && sender != SourceSelf
    ensures var bus := Dispatch(p, st, Set(v)).state.bus;
      |bus| > 0 && Apply(q, other, Forwarded(bus[|bus| - 1], sender)) == v
  {
  }

  /** The report a peripheral raises, once forwarded, names that peripheral as its source
      and carries the peripheral's settings and the request's id. */
  lemma ForwardedReportIdentifiesPeripheral(st: NodeState, req: ActivitySettingsRequest, sender: uint8)
    requires sender != SourceSelf
    ensures var bus := Deliver(Peripheral, st, Request(req)).bus;
      |bus| > 0 && Forwarded(bus[|bus| - 1], sender)
        == Report(ActivitySettingsReport(st.settings.idleMs, st.settings.sleepMs, sender, req.requestId))
  {
  }

  /** A client of the handler on one node: set, then get. */
  method SetThenGetOnNode(node: Node, v: Settings) returns (resp: Response)
    modifies node`idleMs, node`sleepMs, node`bus
    ensures Accepts(node.policy, v) ==> resp == GotSettings(v)
    ensures !Accepts(node.policy, v) ==> resp == GotSettings(WriteBoth(node.policy, old(node.Current()), v))
  {
    var handled;
    handled, resp := HandleRequest(node, Set(v));
    handled, resp := HandleRequest(node, Get);
  }
}
