/** The bridge's check on the order of server frames (crates/app/src/main.rs), and how it
    relates to the reducer of the display client that receives them. */
module FrameGuard {
  import opened Results
  import opened Js
  import opened Reducer
  import opened Sequences

  const MIN_SUPPORTED_MAJOR := 0

  datatype Capability =
    | DisplaySnapshots | ProviderAccounts | Settings | RuntimeActions | WidgetGeometry
    | PanelState | Notifications | ActionUpdates | CompatibilityErrors

  datatype ErrorCode = UnsupportedProtocolMajor | HelloRequired | ProtocolViolation

  /** Server frames as the bridge holds them after deserialising. */
  datatype Frame =
    | HelloFrame(protocol: Protocol, streamId: string, capabilities: seq<Capability>)
    | SnapshotFrame(sequence: nat, payload: Value)
    | ProgressFrame(requestId: nat, progress: Progress)
    | ErrorFrame(code: ErrorCode, supported: Protocol)
    | PongFrame(requestId: nat)

  predicate IsVersion(p: Protocol) {
    p.major <= 0xFFFF && p.minor <= 0xFFFF
  }

  predicate IsWireInteger(n: nat) {
    0 < n <= MAX_EXACT_INTEGER
  }

  /** What deserialising a frame guarantees. */
  predicate WellFormed(f: Frame) {
    match f
    case HelloFrame(protocol, streamId, capabilities) =>
      IsVersion(protocol) && IsSessionId(streamId) && Distinct(capabilities) && |capabilities| <= MAX_CAPABILITIES
    case SnapshotFrame(sequence, _) => IsWireInteger(sequence)
    case ProgressFrame(requestId, progress) => IsWireInteger(requestId) && !progress.Issued?
    case ErrorFrame(_, supported) => IsVersion(supported)
    case PongFrame(requestId) => IsWireInteger(requestId)
  }

  // ----- the guard -----

  datatype GuardState = Waiting | Open(capabilities: seq<Capability>) | Terminal

  /** The state after an accepted frame; no state when the frame is refused. */
  function Guard(g: GuardState, f: Frame): Option<GuardState> {
    if g.Waiting? && f.HelloFrame? && MIN_SUPPORTED_MAJOR <= f.protocol.major <= PROTOCOL_MAJOR then
      Some(Open(f.capabilities))
    else if (g.Waiting? || g.Open?) && f.ErrorFrame? then Some(Terminal)
    else if g.Open? && f.SnapshotFrame? && DisplaySnapshots in g.capabilities then Some(g)
    else if g.Open? && f.ProgressFrame? && ActionUpdates in g.capabilities then Some(g)
    else if g.Open? && f.PongFrame? then Some(g)
    else None
  }

  class ServerFrameGuard {
    var state: GuardState

    constructor ()
      ensures state == Waiting
    {
      state := Waiting;
    }

    method Accept(f: Frame) returns (ok: bool)
      modifies this
      ensures ok <==> Guard(old(state), f).Some?
      ensures state == if ok then Guard(old(state), f).value else old(state)
    {
      match state
      case Waiting =>
        if f.HelloFrame? && MIN_SUPPORTED_MAJOR <= f.protocol.major <= PROTOCOL_MAJOR {
          state := Open(f.capabilities);
          return true;
        }
        if f.ErrorFrame? {
          state := Terminal;
          return true;
        }
        return false;
      case Open(capabilities) =>
        if f.ErrorFrame? {
          state := Terminal;
          return true;
        }
        return (f.SnapshotFrame? && DisplaySnapshots in capabilities)
            || (f.ProgressFrame? && ActionUpdates in capabilities)
            || f.PongFrame?;
      case Terminal =>
        return false;
    }
  }

  // ----- the frames on the wire -----

  function CapabilityName(c: Capability): string {
    match c
    case DisplaySnapshots => "display_snapshots"
    case ProviderAccounts => "provider_accounts"
    case Settings => "settings"
    case RuntimeActions => "runtime_actions"
    case WidgetGeometry => "widget_geometry"
    case PanelState => "panel_state"
    case Notifications => "notifications"
    case ActionUpdates => "action_progress"
    case CompatibilityErrors => "compatibility_errors"
  }

  function CapabilityNames(cs: seq<Capability>): (r: seq<string>)
    ensures |r| == |cs| && forall i :: 0 <= i < |cs| ==> r[i] == CapabilityName(cs[i])
  {
    seq(|cs|, i requires 0 <= i < |cs| => CapabilityName(cs[i]))
  }

  function StrItems(names: seq<string>): (r: seq<Value>)
    ensures |r| == |names| && forall i :: 0 <= i < |names| ==> r[i] == Str(names[i])
  {
    seq(|names|, i requires 0 <= i < |names| => Str(names[i]))
  }

  function ErrorName(c: ErrorCode): string {
    match c
    case UnsupportedProtocolMajor => "unsupported_protocol_major"
    case HelloRequired => "hello_required"
    case ProtocolViolation => "protocol_violation"
  }

  function ProgressName(p: Progress): string {
    match p
    case Issued => "issued"
    case Queued => "queued"
    case Running => "running"
    case Completed => "completed"
    case Failed => "failed"
    case Cancelled => "cancelled"
  }

  function Integer(n: nat): Value {
    Num(Finite(n as real))
  }

  function ProtocolValue(p: Protocol): Value {
    Object([Field("major", Integer(p.major)), Field("minor", Integer(p.minor))])
  }

  /** The frame as the client reads it. */
  function Wire(f: Frame): Value {
    match f
    case HelloFrame(protocol, streamId, capabilities) =>
      Object([Field("type", Str("hello")), Field("protocol", ProtocolValue(protocol)),
              Field("stream_id", Str(streamId)), Field("capabilities", Array(StrItems(CapabilityNames(capabilities))))])
    case SnapshotFrame(sequence, payload) =>
      Object([Field("type", Str("snapshot")), Field("sequence", Integer(sequence)), Field("snapshot", payload)])
    case ProgressFrame(requestId, progress) =>
      Object([Field("type", Str("action_progress")), Field("request_id", Integer(requestId)),
              Field("state", Str(ProgressName(progress)))])
    case ErrorFrame(code, supported) =>
      Object([Field("type", Str("compatibility_error")), Field("code", Str(ErrorName(code))),
              Field("supported", ProtocolValue(supported))])
    case PongFrame(requestId) => Object([Field("type", Str("pong")), Field("request_id", Integer(requestId))])
  }

  /** What the client makes of a frame: itself, unless a snapshot has an invalid payload. */
  function Received(provider: Value -> bool, f: Frame): Message {
    match f
    case HelloFrame(protocol, streamId, capabilities) => Hello(protocol, streamId, CapabilityNames(capabilities))
    case SnapshotFrame(sequence, payload) =>
      if ValidEnvelope(provider, payload) then Snapshot(sequence, payload) else BadSnapshot
    case ProgressFrame(requestId, progress) => ActionProgress(requestId, progress)
    case ErrorFrame(code, supported) => Error(ErrorName(code), supported)
    case PongFrame(requestId) => Pong(requestId)
  }

  lemma DisplayNamesAreCanonical(c: Capability)
    requires c.DisplaySnapshots? || c.ProviderAccounts? || c.Settings?
    ensures IsCapabilityName(CapabilityName(c))
  {
  }

  lemma PanelNamesAreCanonical(c: Capability)
    requires c.RuntimeActions? || c.WidgetGeometry? || c.PanelState?
    ensures IsCapabilityName(CapabilityName(c))
  {
  }

  lemma CapabilityNamesAreCanonical(c: Capability)
    ensures IsCapabilityName(CapabilityName(c))
  {
    if c.DisplaySnapshots? || c.ProviderAccounts? || c.Settings? {
      DisplayNamesAreCanonical(c);
    } else if c.RuntimeActions? || c.WidgetGeometry? || c.PanelState? {
      PanelNamesAreCanonical(c);
    }
  }

  lemma CapabilityNamesAreKnown(c: Capability)
    ensures CapabilityName(c) in KNOWN_CAPABILITIES
  {
    assert KNOWN_CAPABILITIES[0] == "display_snapshots" && KNOWN_CAPABILITIES[1] == "provider_accounts";
    assert KNOWN_CAPABILITIES[2] == "settings" && KNOWN_CAPABILITIES[3] == "runtime_actions";
    assert KNOWN_CAPABILITIES[4] == "widget_geometry" && KNOWN_CAPABILITIES[5] == "panel_state";
    assert KNOWN_CAPABILITIES[6] == "notifications" && KNOWN_CAPABILITIES[7] == "action_progress";
    assert KNOWN_CAPABILITIES[8] == "compatibility_errors";
  }

  lemma NamesAreDistinct(c: Capability, d: Capability)
    requires CapabilityName(c) == CapabilityName(d)
    ensures c == d
  {
  }

  lemma CanonicalNames(cs: seq<Capability>)
    requires Distinct(cs)
    ensures Distinct(CapabilityNames(cs))
    ensures forall i :: 0 <= i < |cs| ==> IsCapabilityName(CapabilityNames(cs)[i])
  {
    var names := CapabilityNames(cs);
    forall i | 0 <= i < |cs| ensures IsCapabilityName(names[i]) {
      CapabilityNamesAreCanonical(cs[i]);
    }
    forall i, j | 0 <= i < j < |cs| ensures names[i] != names[j] {
      if names[i] == names[j] {
        NamesAreDistinct(cs[i], cs[j]);
      }
    }
  }

  lemma {:induction false} TextsOfItems(items: seq<Value>, names: seq<string>)
    requires items == StrItems(names)
    ensures Texts(items) == Some(names)
  {
    if names != [] {
      TextsOfItems(items[1..], names[1..]);
      assert names == [names[0]] + names[1..];
    }
  }

  lemma CapabilitiesAreRead(cs: seq<Capability>)
    requires Distinct(cs) && |cs| <= MAX_CAPABILITIES
    ensures ReadCapabilities(Some(Array(StrItems(CapabilityNames(cs))))) == Some(CapabilityNames(cs))
  {
    var names := CapabilityNames(cs);
    TextsOfItems(StrItems(names), names);
    CanonicalNames(cs);
  }

  lemma {:induction false} FindAt(fields: seq<Field>, i: nat)
    requires i < |fields| && forall j :: 0 <= j < i ==> fields[j].name != fields[i].name
    ensures Find(fields, fields[i].name) == Some(fields[i].value)
  {
    if i > 0 {
      assert fields[0].name != fields[i].name;
      FindAt(fields[1..], i - 1);
    }
  }

  lemma ProtocolIsRead(p: Protocol)
    requires IsVersion(p)
    ensures ReadProtocol(Some(ProtocolValue(p))) == Some(p)
  {
    var v := ProtocolValue(p);
    FindAt(v.fields, 0);
    FindAt(v.fields, 1);
    assert HasExactKeys(v, ["major", "minor"], []);
  }

  /** Every frame but a snapshot with a bad payload arrives as what it was. */
  lemma ParseOfWire(provider: Value -> bool, f: Frame)
    requires WellFormed(f)
    ensures Parse(provider, Wire(f)) == Received(provider, f)
  {
    FindAt(Wire(f).fields, 0);
    match f
    case HelloFrame(protocol, streamId, capabilities) => ParseOfHello(f);
    case SnapshotFrame(sequence, payload) => ParseOfSnapshot(provider, f);
    case ProgressFrame(requestId, progress) => ParseOfProgress(f);
    case ErrorFrame(code, supported) => ParseOfError(f);
    case PongFrame(requestId) => ParseOfPong(f);
  }

  lemma IntegerIsRead(n: nat)
    requires IsWireInteger(n)
    ensures ExactInteger(Some(Integer(n))) == Some(n)
  {
  }

  lemma ParseOfPong(f: Frame)
    requires WellFormed(f) && f.PongFrame?
    ensures ParsePong(Wire(f)) == Pong(f.requestId)
  {
    FindAt(Wire(f).fields, 0);
    FindAt(Wire(f).fields, 1);
    IntegerIsRead(f.requestId);
  }

  lemma ParseOfProgress(f: Frame)
    requires WellFormed(f) && f.ProgressFrame?
    ensures ParseProgress(Wire(f)) == ActionProgress(f.requestId, f.progress)
  {
    FindAt(Wire(f).fields, 0);
    FindAt(Wire(f).fields, 1);
    FindAt(Wire(f).fields, 2);
    IntegerIsRead(f.requestId);
    ProgressIsRead(f.progress);
  }

  lemma ProgressIsRead(p: Progress)
    requires !p.Issued?
    ensures ReadProgress(Some(Str(ProgressName(p)))) == Some(p)
  {
  }

  lemma ParseOfSnapshot(provider: Value -> bool, f: Frame)
    requires WellFormed(f) && f.SnapshotFrame?
    ensures ParseSnapshot(provider, Wire(f)) == Received(provider, f)
  {
    FindAt(Wire(f).fields, 0);
    FindAt(Wire(f).fields, 1);
    FindAt(Wire(f).fields, 2);
    IntegerIsRead(f.sequence);
  }

  lemma ParseOfError(f: Frame)
    requires WellFormed(f) && f.ErrorFrame?
    ensures ParseError(Wire(f)) == Error(ErrorName(f.code), f.supported)
  {
    FindAt(Wire(f).fields, 0);
    assert "type"[0] == 't' && "code"[0] == 'c';
    FindAt(Wire(f).fields, 1);
    FindAt(Wire(f).fields, 2);
    ProtocolIsRead(f.supported);
  }

  lemma ParseOfHello(f: Frame)
    requires WellFormed(f) && f.HelloFrame?
    ensures ParseHello(Wire(f)) == Hello(f.protocol, f.streamId, CapabilityNames(f.capabilities))
  {
    FindAt(Wire(f).fields, 0);
    FindAt(Wire(f).fields, 1);
    FindAt(Wire(f).fields, 2);
    FindAt(Wire(f).fields, 3);
    ProtocolIsRead(f.protocol);
    CapabilitiesAreRead(f.capabilities);
  }
}
