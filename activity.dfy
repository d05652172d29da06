/** The state a node of the split keyboard holds: the two activity timeouts in the
    activity subsystem's store, and the log of events raised on its event bus. */
module Activity {
  import opened Events

  /** The store's setters are outside this model; they either accept a value, and the
      field takes it, or reject it, and the field keeps its value. Which values they
      accept is a parameter of the model. */
  datatype Policy = Policy(acceptIdle: uint32 -> bool, acceptSleep: uint32 -> bool)

  /** Build configuration: not split, the central half, or a peripheral half. */
  datatype Role = Standalone | Central | Peripheral

  datatype NodeState = NodeState(settings: Settings, bus: seq<Event>)

  /** Both setters accept the two values of `v`. */
  predicate Accepts(p: Policy, v: Settings) {
    p.acceptIdle(v.idleMs) && p.acceptSleep(v.sleepMs)
  }

  /** The idle-timeout setter: its result, and the store after it. */
  function SetIdle(p: Policy, s: Settings, v: uint32): (bool, Settings) {
    if p.acceptIdle(v) then (true, s.(idleMs := v)) else (false, s)
  }

  /** The sleep-timeout setter: its result, and the store after it. */
  function SetSleep(p: Policy, s: Settings, v: uint32): (bool, Settings) {
    if p.acceptSleep(v) then (true, s.(sleepMs := v)) else (false, s)
  }

  /** The store after the idle setter and then the sleep setter are called with `v`,
      whatever either of them answers. */
  function WriteBoth(p: Policy, s: Settings, v: Settings): (r: Settings)
    ensures r.idleMs == if p.acceptIdle(v.idleMs) then v.idleMs else s.idleMs
    ensures r.sleepMs == if p.acceptSleep(v.sleepMs) then v.sleepMs else s.sleepMs
    ensures Accepts(p, v) ==> r == v
  {
    SetSleep(p, SetIdle(p, s, v.idleMs).1, v.sleepMs).1
  }

  /** One node: its store fields, its event log, and its fixed configuration. */
  class Node {
    var idleMs: uint32
    var sleepMs: uint32
    /** Every event raised on this node, oldest first; only ever appended to. */
    var bus: seq<Event>
    const role: Role
    const policy: Policy

    constructor (role: Role, policy: Policy, initial: Settings)
      ensures this.role == role
      ensures Current() == initial && bus == []
    {
      this.role := role;
      this.policy := policy;
      idleMs, sleepMs := initial.idleMs, initial.sleepMs;
      bus := [];
    }

    function Current(): Settings
      reads this
    {
      Settings(idleMs, sleepMs)
    }

    function State(): NodeState
      reads this
    {
      NodeState(Current(), bus)
    }

    method GetIdleMs() returns (v: uint32)
      ensures v == Current().idleMs
    {
      v := idleMs;
    }

    method GetSleepMs() returns (v: uint32)
      ensures v == Current().sleepMs
    {
      v := sleepMs;
    }

    method SetIdleMs(v: uint32) returns (ok: bool)
      modifies this`idleMs
      ensures (ok, Current()) == SetIdle(policy, old(Current()), v)
    {
      ok := policy.acceptIdle(v);
      if ok {
        idleMs := v;
      }
    }

    method SetSleepMs(v: uint32) returns (ok: bool)
      modifies this`sleepMs
      ensures (ok, Current()) == SetSleep(policy, old(Current()), v)
    {
      ok := policy.acceptSleep(v);
      if ok {
        sleepMs := v;
      }
    }

    /** Raising an event appends it to the node's event log. */
    method Raise(e: Event)
      modifies this`bus
      ensures bus == old(bus) + [e]
    {
      bus := bus + [e];
    }
  }
}
