/** The settings request handler: decodes a request, dispatches it to the get or the
    set operation, and writes the response; a set that both setters accept raises an
    activity-settings-changed event for the relay to carry to the other halves. */
module SettingsRpc {
  import opened Events
  import opened Activity

  /** An inbound request after decoding; `Undecodable` stands for a payload the decoder
      refuses, `Unknown` for a decoded request of a type this handler does not serve. */
  datatype Request = Get | Set(settings: Settings) | Unknown | Undecodable

  datatype ErrorKind = DecodeFailed | ProcessFailed

  /** The response buffer; `Unset` is its state before any response type is written. */
  datatype Response =
    | Unset
    | GotSettings(settings: Settings)
    | SetDone(success: bool)
    | Error(kind: ErrorKind)

  /** What one of the two operations returns, writes and leaves behind. */
  datatype HandlerResult = HandlerResult(rc: int, response: Response, state: NodeState)

  /** What the request handler returns, the final response and the node afterwards. */
  datatype RpcResult = RpcResult(handled: bool, response: Response, state: NodeState)

  /** The event a set raises: the requested values, marked as raised on this node. */
  function ChangedBySelf(v: Settings): Event {
    Changed(ActivitySettingsChanged(v.idleMs, v.sleepMs, SourceSelf))
  }

  /** The set operation. Both setters are always called; one changed event is raised
      exactly when both accepted; a field whose setter accepted keeps its new value even
      when the other setter rejected. */
  function SetActivitySettings(p: Policy, st: NodeState, v: Settings): (r: HandlerResult)
    ensures r.state.settings == WriteBoth(p, st.settings, v)
    ensures r.state.bus == st.bus + (if Accepts(p, v) then [ChangedBySelf(v)] else [])
    ensures r.response == SetDone(Accepts(p, v))
    ensures r.rc == 0 <==> Accepts(p, v)
  {
    var (idleOk, afterIdle) := SetIdle(p, st.settings, v.idleMs);
    var (sleepOk, afterSleep) := SetSleep(p, afterIdle, v.sleepMs);
    var success := idleOk && sleepOk;
    var bus := if success then st.bus + [ChangedBySelf(v)] else st.bus;
    HandlerResult(if success then 0 else -1, SetDone(success), NodeState(afterSleep, bus))
  }

  /** The request handler. It reports every request as handled; failures become an error
      response. */
  function Dispatch(p: Policy, st: NodeState, req: Request): (r: RpcResult)
    ensures r.handled
    ensures r.response != Unset
    ensures r.response.Error? <==> !(req.Get? || (req.Set? && Accepts(p, req.settings)))
    ensures r.response == Error(DecodeFailed) <==> req.Undecodable?
    ensures !req.Set? ==> r.state == st
    ensures req.Get? ==> r.response == GotSettings(st.settings)
    ensures req.Set? ==> r.state.settings == WriteBoth(p, st.settings, req.settings)
    ensures req.Set? ==>
      r.state.bus == st.bus + (if Accepts(p, req.settings) then [ChangedBySelf(req.settings)] else [])
    ensures req.Set? && Accepts(p, req.settings) ==> r.response == SetDone(true)
    ensures r.response.SetDone? ==> r.response.success
  {
    match req
    case Undecodable => RpcResult(true, Error(DecodeFailed), st)
    case _ =>
      var h :=
        match req
        case Get => HandlerResult(0, GotSettings(st.settings), st)
        case Set(v) => SetActivitySettings(p, st, v)
        case _ => HandlerResult(-1, Unset, st);
      RpcResult(true, if h.rc != 0 then Error(ProcessFailed) else h.response, h.state)
  }

  method HandleGetActivitySettings(node: Node) returns (rc: int, resp: Response)
    ensures rc == 0
    ensures resp == GotSettings(node.Current())
  {
    var idle := node.GetIdleMs();
    var sleep := node.GetSleepMs();
    resp := GotSettings(Settings(idle, sleep));
    rc := 0;
  }

  method HandleSetActivitySettings(node: Node, v: Settings) returns (rc: int, resp: Response)
    modifies node`idleMs, node`sleepMs, node`bus
    ensures HandlerResult(rc, resp, node.State()) == SetActivitySettings(node.policy, old(node.State()), v)
  {
    var success := true;
    var ok := node.SetIdleMs(v.idleMs);
    if !ok {
      success := false;
    }
    ok := node.SetSleepMs(v.sleepMs);
    if !ok {
      success := false;
    }
    if success {
      node.Raise(Changed(ActivitySettingsChanged(v.idleMs, v.sleepMs, SourceSelf)));
    }
    resp := SetDone(success);
    rc := if success then 0 else -1;
  }

  method HandleRequest(node: Node, req: Request) returns (handled: bool, resp: Response)
    modifies node`idleMs, node`sleepMs, node`bus
    ensures RpcResult(handled, resp, node.State()) == Dispatch(node.policy, old(node.State()), req)
  {
    resp := Unset;
    var rc := 0;
    match req {
      case Undecodable =>
        resp := Error(DecodeFailed);
        return true, resp;
      case Get =>
        rc, resp := HandleGetActivitySettings(node);
      case Set(v) =>
        rc, resp := HandleSetActivitySettings(node, v);
      case Unknown =>
        rc := -1;
    }
    if rc != 0 {
      resp := Error(ProcessFailed);
    }
    return true, resp;
  }
}
