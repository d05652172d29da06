/** The listener that applies a relayed activity-settings change to the local store.
    A change raised on this node itself still carries the self marker and is skipped. */
module SettingsChangedListener {
  import opened Events
  import opened Activity

  /** A changed event that came through the relay, so its source is a real node. */
  predicate IsRelayedChange(eh: Event) {
    eh.Changed? && eh.changed.source != SourceSelf
  }

  /** The store after the listener ran on `eh`: each field takes the event's value when
      the event was relayed and that field's setter accepts it; otherwise it is kept. */
  function Apply(p: Policy, s: Settings, eh: Event): (r: Settings)
    ensures r.idleMs ==
      if IsRelayedChange(eh) && p.acceptIdle(eh.changed.idleMs) then eh.changed.idleMs else s.idleMs
    ensures r.sleepMs ==
      if IsRelayedChange(eh) && p.acceptSleep(eh.changed.sleepMs) then eh.changed.sleepMs else s.sleepMs
  {
    if IsRelayedChange(eh) then WriteBoth(p, s, eh.changed.Values()) else s
  }

  method ActivitySettingsChangedListener(node: Node, eh: Event) returns (verdict: Verdict)
    modifies node`idleMs, node`sleepMs
    ensures verdict == Bubble
    ensures node.Current() == Apply(node.policy, old(node.Current()), eh)
    ensures node.bus == old(node.bus)
  {
    if !eh.Changed? {
      return Bubble;
    }
    var ev := eh.changed;
    if ev.source != SourceSelf {
      var _ := node.SetIdleMs(ev.idleMs);
      var _ := node.SetSleepMs(ev.sleepMs);
    }
    return Bubble;
  }

  /** Applying the same event a second time changes nothing more. */
  lemma ApplyIdempotent(p: Policy, s: Settings, eh: Event)
    ensures Apply(p, Apply(p, s, eh), eh) == Apply(p, s, eh)
  {
  }

  /** The store after the listener ran on each of `evs` in delivery order. */
  function ApplyAll(p: Policy, s: Settings, evs: seq<Event>): Settings
    decreases |evs|
  {
    if evs == [] then s else ApplyAll(p, Apply(p, s, evs[0]), evs[1..])
  }

  datatype Field = Idle | Sleep

  function FieldOf(s: Settings, f: Field): uint32 {
    match f
    case Idle => s.idleMs
    case Sleep => s.sleepMs
  }

  function Written(ev: ActivitySettingsChanged, f: Field): uint32 {
    FieldOf(ev.Values(), f)
  }

  predicate FieldAccepts(p: Policy, f: Field, v: uint32) {
    match f
    case Idle => p.acceptIdle(v)
    case Sleep => p.acceptSleep(v)
  }

  /** Last writer wins: the value of the most recent relayed change whose write to `f`
      was accepted, or `d` when there is none. */
  function LastWrite(p: Policy, f: Field, evs: seq<Event>, d: uint32): uint32
    decreases |evs|
  {
    if evs == [] then d
    else
      var e := evs[|evs| - 1];
      if IsRelayedChange(e) && FieldAccepts(p, f, Written(e.changed, f)) then Written(e.changed, f)
      else LastWrite(p, f, evs[..|evs| - 1], d)
  }

  lemma {:induction false} LastWriteAppend(p: Policy, f: Field, a: seq<Event>, b: seq<Event>, d: uint32)
    ensures LastWrite(p, f, a + b, d) == LastWrite(p, f, b, LastWrite(p, f, a, d))
    decreases |b|
  {
    if b == [] {
      assert a + b == a;
    } else {
      assert (a + b)[..|a + b| - 1] == a + b[..|b| - 1];
      assert (a + b)[|a + b| - 1] == b[|b| - 1];
      LastWriteAppend(p, f, a, b[..|b| - 1], d);
    }
  }

  /** Whatever the store held before, a run of changes leaves either the old value or
      the one value the run itself determines. */
  lemma {:induction false} LastWriteFromAnyStart(p: Policy, f: Field, evs: seq<Event>, x: uint32, y: uint32)
    ensures (LastWrite(p, f, evs, x) == x && LastWrite(p, f, evs, y) == y)
         || LastWrite(p, f, evs, x) == LastWrite(p, f, evs, y)
    decreases |evs|
  {
    if evs != [] {
      LastWriteFromAnyStart(p, f, evs[..|evs| - 1], x, y);
    }
  }

  /** Applying a run of events in order leaves every field at its last accepted write. */
  lemma {:induction false} LastWriterWins(p: Policy, s: Settings, evs: seq<Event>, f: Field)
    ensures FieldOf(ApplyAll(p, s, evs), f) == LastWrite(p, f, evs, FieldOf(s, f))
    decreases |evs|
  {
    if evs != [] {
      LastWriterWins(p, Apply(p, s, evs[0]), evs[1..], f);
      assert evs == [evs[0]] + evs[1..];
      LastWriteAppend(p, f, [evs[0]], evs[1..], FieldOf(s, f));
      assert [evs[0]][..0] == [];
    }
  }

  /** Delivering the same run of relayed changes twice leaves the store as delivering it once. */
  lemma ReplayIdempotent(p: Policy, s: Settings, evs: seq<Event>)
    ensures ApplyAll(p, s, evs + evs) == ApplyAll(p, s, evs)
  {
    var once := ApplyAll(p, s, evs);
    var twice := ApplyAll(p, s, evs + evs);
    forall f: Field
      ensures FieldOf(twice, f) == FieldOf(once, f)
    {
      var d := FieldOf(s, f);
      LastWriterWins(p, s, evs + evs, f);
      LastWriterWins(p, s, evs, f);
      LastWriteAppend(p, f, evs, evs, d);
      LastWriteFromAnyStart(p, f, evs, d, LastWrite(p, f, evs, d));
    }
    assert FieldOf(twice, Idle) == FieldOf(once, Idle);
    assert FieldOf(twice, Sleep) == FieldOf(once, Sleep);
  }

  /** A run with no relayed change, such as a node's own changes, leaves the store as it was. */
  lemma {:induction false} SelfChangesIgnored(p: Policy, s: Settings, evs: seq<Event>)
    requires forall i :: 0 <= i < |evs| ==> !IsRelayedChange(evs[i])
    ensures ApplyAll(p, s, evs) == s
    decreases |evs|
  {
    if evs != [] {
      assert !IsRelayedChange(evs[0]);
      assert forall i :: 0 <= i < |evs[1..]| ==> evs[1..][i] == evs[i + 1];
      SelfChangesIgnored(p, s, evs[1..]);
    }
  }
}
