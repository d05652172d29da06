# Activity-settings synchronisation of a ZMK split keyboard, in Dafny

This project models the settings-synchronisation logic of a ZMK module that lets a
host read and write two activity timeouts, `idle_ms` and `sleep_ms`, and keeps the
halves of a split keyboard in step. Each half is a `Node` (module `Activity`). A node
holds the two `u32` timeouts in the activity subsystem's store and an append-only log
of the events raised on its event bus. The store's setters are outside the module, so
they are modelled by a `Policy`: two acceptance predicates. An accepted value is
written. A rejected value leaves the field as it was.

Three pieces of behaviour are modelled:

- **The settings request handler** (`SettingsRpc`). A request has already been
  decoded into `Get`, `Set(v)`, `Unknown` or `Undecodable`. The handler dispatches
  it and writes the response.
  - Get returns the current settings.
  - Set calls both setters, in order, whatever the first one answers. Only when both
    accept does it raise an `activity_settings_changed` event carrying the requested
    values and the self source marker `0xFF`.
  - Any failure overwrites the response with an error.
  - The handler reports every request as handled.
- **The changed-event listener** (`SettingsChangedListener`). It writes a changed
  event's values through the two setters unless the event carries the self marker,
  and it always bubbles. The source has this listener twice, with the same body, in
  `src/events/activity_settings_changed.c` and in `src/studio/settings_rpc_handler.c`.
  It is modelled once.
- **The peripheral's answer to a settings request** (`SettingsRequestListener`). It
  raises one report holding the current settings, the request's id and the self
  marker. It exists only in split peripheral builds.

Each imperative method (`HandleRequest`, `HandleSetActivitySettings`, the two listener
methods) updates a `Node` in place. Its `ensures` clause ties the node's new state to
a pure function of the old state (`Dispatch`, `SetActivitySettings`, `Apply`,
`Respond`). The properties are stated on those functions and in lemmas:

- the error cases;
- when an event is raised and what it carries;
- no rollback when only one setter accepts;
- last writer wins over a sequence of relayed changes;
- replaying relayed changes is idempotent;
- a node's own change is never applied again.

Module `Scenarios` connects the pieces. It uses an explicit assumption about the split
relay, the function `Forwarded`: when the relay forwards an event from a node, it puts
that node's identity in place of the self marker.

Where the code and the general design of the protocol differ, this model follows
the code:
- The changed listener skips only events that carry the self marker. It does not also
  skip events whose source is the node's own identity.
- A set calls two independent setters and does not roll back, rather than making one
  atomic store write.

## Model

| member | source | states |
|---|---|---|
| SettingsRpc.Dispatch | src/studio/settings_rpc_handler.c:49-88 | The handler always returns true and always writes a response. The response is an error exactly when the request is undecodable, of an unknown type, or a set that one of the setters rejected. A decode failure has its own error kind. Requests other than set leave the store and the event log unchanged. Get answers the current settings. An accepted set answers success, and an error response never becomes a failed-set response. |
| SettingsRpc.HandleRequest | src/studio/settings_rpc_handler.c:49-88 | The node's new store, its event log, the returned flag and the response are exactly those that `Dispatch` gives for the node's old state. |
| SettingsRpc.SetActivitySettings | src/studio/settings_rpc_handler.c:116-153 | Each field takes the requested value exactly when its own setter accepts, so an accepted field is not rolled back. The event log gains exactly one changed event iff both setters accept. That event carries the requested values and source `0xFF`. The response's success flag and a return code of 0 both hold iff both setters accept. |
| SettingsRpc.HandleSetActivitySettings | src/studio/settings_rpc_handler.c:116-153 | The node's new state, the return code and the response equal `SetActivitySettings` of the old state. Both setters are called on every path. |
| SettingsRpc.HandleGetActivitySettings | src/studio/settings_rpc_handler.c:93-110 | Returns 0 with a response holding the node's current idle and sleep timeouts. It modifies nothing. |
| Activity.WriteBoth | src/studio/settings_rpc_handler.c:123-133 | After both setters are tried, each field holds the new value if its setter accepted it and the old value otherwise. When both accept, the store equals the requested settings. |
| SettingsChangedListener.Apply | src/events/activity_settings_changed.c:19-38 | For a changed event whose source is not `0xFF`, each field takes the event's value when its setter accepts it. For a self-marked event, and for any event of another kind, both fields are unchanged. |
| SettingsChangedListener.ActivitySettingsChangedListener | src/studio/settings_rpc_handler.c:169-185 | Always returns BUBBLE. The new store is `Apply` of the old store. The event log is unchanged, so nothing is raised. |
| SettingsChangedListener.ApplyIdempotent | src/events/activity_settings_changed.c:33-34 | Applying the same event twice leaves the store as applying it once does. |
| SettingsChangedListener.LastWriterWins | src/events/activity_settings_changed.c:26-35 | After a sequence of events is delivered in order, each field holds the value of the last relayed change whose write to that field was accepted. If there is no such change, it holds its initial value. |
| SettingsChangedListener.ReplayIdempotent | src/events/activity_settings_changed.c:33-34 | Delivering a sequence of events twice over leaves the store as delivering it once does. |
| SettingsChangedListener.SelfChangesIgnored | src/events/activity_settings_changed.c:26-27 | A sequence with no relayed change, for instance only self-marked events, leaves the store unchanged. |
| SettingsRequestListener.Respond | src/events/activity_settings_report.c:31-52 | A request appends exactly one event to the log and keeps the earlier entries. That event is a report holding the store's current idle and sleep values, the request's `request_id` and source `0xFF`. Any other event changes nothing. The store is never modified. |
| SettingsRequestListener.ActivitySettingsRequestListener | src/events/activity_settings_report.c:31-52 | On a split peripheral the listener always returns BUBBLE. The node's new state is `Respond` of the old state. |
| SettingsRequestListener.Deliver | src/events/activity_settings_report.c:23-58 | A node's state changes iff the node is a split peripheral and the event is a request. A central or non-split build never answers. The store is never modified. |
| SettingsRequestListener.DeliverToListener | src/events/activity_settings_report.c:54-57 | Delivering an event to a node changes it exactly as `Deliver` says for that node's role. |
| Scenarios.SetThenGet | src/studio/settings_rpc_handler.c:93-143 | After a set that both setters accept, a get returns the values that were set. |
| Scenarios.NoRollback | src/studio/settings_rpc_handler.c:121-152 | An accepted idle write whose sleep write is rejected stays applied. The old sleep value is kept, the response is the processing error and no event is raised. |
| Scenarios.OwnChangeNotReapplied | src/studio/settings_rpc_handler.c:135-143 | The events a request raises on a node, when that node's own changed listener receives them, leave the store as the request left it. |
| Scenarios.ChangeReachesOtherHalf | src/studio/settings_rpc_handler.c:135-182 | Assume the relay puts the sender's identity in place of the self marker. Then an accepted set's event, received by another half whose setters accept the same values, gives that half exactly those settings. |
| Scenarios.ForwardedReportIdentifiesPeripheral | src/events/activity_settings_report.c:38-47 | The report a peripheral raises, once the relay has put that peripheral's identity in place of the self marker, carries its settings and the request's id. |
| Scenarios.SetThenGetOnNode | src/studio/settings_rpc_handler.c:93-153 | On one node, a set followed by a get answers the requested settings when both setters accept them. Otherwise it answers the store left by the two setter calls. |

## Left out

- Protobuf decoding and encoding, and allocation of the response buffer, are foreign library code. The request enters the model already decoded, with `Undecodable` for a payload the decoder refuses.
- Registration of the custom subsystem, its UI URLs and its security level are build-time wiring.
- The split relay macros do not have their bodies in the source. The model does not include them. Their one assumed effect, putting the sender's identity in place of the self marker, is written out as `Scenarios.Forwarded`.
- The event manager's registration, subscription and dispatch internals are left out. Raising an event is modelled as appending it to the node's event log. When a node's own listeners receive an event it raised, that is modelled by applying the listener functions to logged events, as in `Scenarios.OwnChangeNotReapplied`.
- The error-message text and the logging are left out. The two error responses are kept apart as `DecodeFailed` and `ProcessFailed`.
- Build configuration is reduced to a role: not split, split central or split peripheral. The changed listener in the request handler file is built only with relay support; the model treats it as the same listener as the one in the changed-event file.
- The central's collection of reports (correlation sessions, the timed wait, the in-sync verdict) is not part of this model. It is not in the modelled source, and it would need concurrency.
- Activity.Policy: the store setters' acceptance depends only on the value written, not on the other field or on earlier writes. What the store actually accepts is not part of this model.
