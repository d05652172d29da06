/** The event structures of the settings-synchronisation module and the
    fixed-width integers they are made of. */
module Events {

  newtype uint8 = x: int | 0 <= x < 0x100
  newtype uint32 = x: int | 0 <= x < 0x1_0000_0000

  /** Relay source of an event raised on this node and not yet stamped by the relay. */
  const SourceSelf: uint8 := 0xFF
  /** Relay source of the central; peripherals are numbered from 1. */
  const SourceCentral: uint8 := 0

  /** The two activity timeouts a node holds. */
  datatype Settings = Settings(idleMs: uint32, sleepMs: uint32)

  /** Raised when the activity settings were changed; relayed to the other half. */
  datatype ActivitySettingsChanged = ActivitySettingsChanged(idleMs: uint32, sleepMs: uint32, source: uint8)
  {
    function Values(): Settings { Settings(idleMs, sleepMs) }
  }

  /** Raised on the central to ask every peripheral for its settings. */
  datatype ActivitySettingsRequest = ActivitySettingsRequest(requestId: uint8)

  /** A peripheral's answer to a request, carrying the request's id back. */
  datatype ActivitySettingsReport =
    ActivitySettingsReport(idleMs: uint32, sleepMs: uint32, source: uint8, requestId: uint8)

  /** What a listener receives: one of the module's events, or an event of any other kind,
      for which the typed cast yields nothing. */
  datatype Event =
    | Changed(changed: ActivitySettingsChanged)
    | Request(request: ActivitySettingsRequest)
    | Report(report: ActivitySettingsReport)
    | Other

  /** The event manager's listener verdicts. */
  datatype Verdict = Bubble | Handled | Captured
}
