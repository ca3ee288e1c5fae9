/** The message reducer and request table of the display client
    (qml/omarchy-plugin/Protocol.js). */
module Reducer {
  import opened Results
  import opened Js
  import opened Sequences
  import SnapshotTree

  const MAX_CAPABILITIES := 32
  const MAX_SNAPSHOTS := 256
  const MAX_TRACKED_REQUESTS := 128
  const PROTOCOL_MAJOR := 1
  const PROTOCOL_MINOR := 0

  const DISPLAY_SNAPSHOTS := "display_snapshots"
  const ACTION_PROGRESS := "action_progress"

  const KNOWN_CAPABILITIES: seq<string> := [
    "display_snapshots", "provider_accounts", "settings", "runtime_actions", "widget_geometry",
    "panel_state", "notifications", "action_progress", "compatibility_errors"
  ]

  const COMPATIBILITY_CODES: set<string> := {"unsupported_protocol_major", "hello_required", "protocol_violation"}

  datatype Phase = AwaitingHello | Ready | Incompatible

  datatype Protocol = Protocol(major: nat, minor: nat)

  datatype Progress = Issued | Queued | Running | Completed | Failed | Cancelled {
    predicate Terminal() {
      Completed? || Failed? || Cancelled?
    }
  }

  datatype State = State(
    phase: Phase,
    compatible: bool,
    compatibilityFailure: string,
    protocol: Option<Protocol>,
    streamId: string,
    capabilities: seq<string>,
    lastSequence: nat,
    snapshot: Option<Value>,
    lastActionProgress: Option<(nat, Progress)>,
    lastPongRequestId: nat,
    requestProgress: map<nat, Progress>,
    requestOrder: seq<nat>)

  const INITIAL := State(AwaitingHello, false, "", None, "", [], 0, None, None, 0, map[], [])

  datatype Outcome = Outcome(
    state: State,
    accepted: bool,
    error: string,
    stale: bool,
    messageType: string,
    ackSequence: nat,
    fatal: bool)

  function Accept(state: State, messageType: string, ack: nat): Outcome {
    Outcome(state, true, "", false, messageType, ack, false)
  }

  function Reject(state: State, error: string): Outcome {
    Outcome(state, false, error, false, "", 0, true)
  }

  // ----- reading messages -----

  function Find(fields: seq<Field>, key: string): Option<Value> {
    if fields == [] then None
    else if fields[0].name == key then Some(fields[0].value)
    else Find(fields[1..], key)
  }

  function Get(v: Value, key: string): Option<Value> {
    if v.Object? then Find(v.fields, key) else None
  }

  predicate HasExactKeys(v: Value, required: seq<string>, optional: seq<string>) {
    && v.Object?
    && (forall key :: key in required ==> Get(v, key).Some?)
    && (forall i :: 0 <= i < |v.fields| ==> v.fields[i].name in required + optional)
  }

  predicate IsText(v: Option<Value>, text: string) {
    v == Some(Str(text))
  }

  /** A positive integer that a double represents exactly. */
  function ExactInteger(v: Option<Value>): (r: Option<nat>)
    ensures r.Some? ==> 0 < r.value <= MAX_EXACT_INTEGER
  {
    match v
    case Some(Num(Finite(x))) =>
      if x.Floor as real == x && 0.0 < x <= MAX_EXACT_INTEGER as real then Some(x.Floor) else None
    case _ => None
  }

  /** A 16-bit version number; minus zero passes as zero. */
  function VersionPart(v: Option<Value>): Option<nat> {
    match v
    case Some(Num(Finite(x))) => if x.Floor as real == x && 0.0 <= x <= 65535.0 then Some(x.Floor) else None
    case Some(Num(NegativeZero)) => Some(0)
    case _ => None
  }

  function ReadProtocol(v: Option<Value>): Option<Protocol> {
    if v.Some? && HasExactKeys(v.value, ["major", "minor"], [])
       && VersionPart(Get(v.value, "major")).Some? && VersionPart(Get(v.value, "minor")).Some?
    then Some(Protocol(VersionPart(Get(v.value, "major")).value, VersionPart(Get(v.value, "minor")).value))
    else None
  }

  predicate IsLowerHex(c: char) {
    '0' <= c <= '9' || 'a' <= c <= 'f'
  }

  predicate IsSessionId(s: string) {
    |s| == 32 && forall i :: 0 <= i < |s| ==> IsLowerHex(s[i])
  }

  predicate IsNameChar(c: char) {
    'a' <= c <= 'z' || '0' <= c <= '9'
  }

  /** Lower-case words joined by single underscores. */
  predicate IsCapabilityName(s: string) {
    && 0 < |s| <= 64
    && (forall i :: 0 <= i < |s| ==> IsNameChar(s[i]) || s[i] == '_')
    && s[0] != '_' && s[|s| - 1] != '_'
    && (forall i :: 0 <= i < |s| - 1 ==> s[i] != '_' || s[i + 1] != '_')
  }

  function Texts(items: seq<Value>): (r: Option<seq<string>>)
    ensures r.Some? ==> |r.value| == |items| && forall i :: 0 <= i < |items| ==> items[i] == Str(r.value[i])
  {
    if items == [] then Some([])
    else if items[0].Str? && Texts(items[1..]).Some? then Some([items[0].chars] + Texts(items[1..]).value)
    else None
  }

  function ReadCapabilities(v: Option<Value>): Option<seq<string>> {
    if v.None? || !v.value.Array? || |v.value.items| > MAX_CAPABILITIES then None
    else
      match Texts(v.value.items)
      case Some(names) =>
        if (forall i :: 0 <= i < |names| ==> IsCapabilityName(names[i])) && Distinct(names) then Some(names) else None
      case None => None
  }

  function Supported(names: seq<string>): (r: seq<string>)
    ensures forall name :: name in r <==> name in names && name in KNOWN_CAPABILITIES
  {
    if names == [] then []
    else
      assert names == [names[0]] + names[1..];
      if names[0] in KNOWN_CAPABILITIES then [names[0]] + Supported(names[1..]) else Supported(names[1..])
  }

  function ReadProgress(v: Option<Value>): (r: Option<Progress>)
    ensures r != Some(Issued)
  {
    if IsText(v, "queued") then Some(Queued)
    else if IsText(v, "running") then Some(Running)
    else if IsText(v, "completed") then Some(Completed)
    else if IsText(v, "failed") then Some(Failed)
    else if IsText(v, "cancelled") then Some(Cancelled)
    else None
  }

  /** The outer shape of a snapshot, its bounded tree, and one check per provider, which is
      left to `provider`. */
  predicate ValidEnvelope(provider: Value -> bool, v: Value) {
    && HasExactKeys(v, ["schema_version", "generated_at", "snapshots"], ["privacy"])
    && Get(v, "schema_version") == Some(Num(Finite(1.0)))
    && Get(v, "generated_at").value.Str? && 0 < |Utf16(Get(v, "generated_at").value.chars)| <= 64
    && (Get(v, "privacy").None? || IsText(Get(v, "privacy"), "redacted"))
    && Get(v, "snapshots").value.Array? && |Get(v, "snapshots").value.items| <= MAX_SNAPSHOTS
    && SnapshotTree.Accepted(v)
    && forall i :: 0 <= i < |Get(v, "snapshots").value.items| ==> provider(Get(v, "snapshots").value.items[i])
  }

  // ----- parsing -----

  /** A message after its shape checks. A known type with a bad shape keeps its type, since the
      reducer looks at the phase and the capabilities before it rejects the shape. */
  datatype Message =
    | NotAMessage
    | Unknown
    | BadError
    | Error(code: string, supported: Protocol)
    | BadHello
    | Hello(protocol: Protocol, streamId: string, capabilities: seq<string>)
    | BadSnapshot
    | Snapshot(sequence: nat, payload: Value)
    | BadProgress
    | ActionProgress(requestId: nat, progress: Progress)
    | BadPong
    | Pong(requestId: nat)

  function ParseError(m: Value): Message {
    if HasExactKeys(m, ["type", "code", "supported"], []) && Get(m, "code").value.Str?
       && Get(m, "code").value.chars in COMPATIBILITY_CODES && ReadProtocol(Get(m, "supported")).Some?
    then Error(Get(m, "code").value.chars, ReadProtocol(Get(m, "supported")).value)
    else BadError
  }

  function ParseHello(m: Value): Message {
    var protocol, capabilities := ReadProtocol(Get(m, "protocol")), ReadCapabilities(Get(m, "capabilities"));
    if HasExactKeys(m, ["type", "protocol", "stream_id", "capabilities"], []) && protocol.Some?
       && Get(m, "stream_id").value.Str? && IsSessionId(Get(m, "stream_id").value.chars) && capabilities.Some?
    then Hello(protocol.value, Get(m, "stream_id").value.chars, capabilities.value)
    else BadHello
  }

  function ParseSnapshot(provider: Value -> bool, m: Value): Message {
    if HasExactKeys(m, ["type", "sequence", "snapshot"], []) && ExactInteger(Get(m, "sequence")).Some?
       && ValidEnvelope(provider, Get(m, "snapshot").value)
    then Snapshot(ExactInteger(Get(m, "sequence")).value, Get(m, "snapshot").value)
    else BadSnapshot
  }

  function ParseProgress(m: Value): Message {
    var id, progress := ExactInteger(Get(m, "request_id")), ReadProgress(Get(m, "state"));
    if HasExactKeys(m, ["type", "request_id", "state"], []) && id.Some? && progress.Some?
    then ActionProgress(id.value, progress.value)
    else BadProgress
  }

  function ParsePong(m: Value): Message {
    if HasExactKeys(m, ["type", "request_id"], []) && ExactInteger(Get(m, "request_id")).Some?
    then Pong(ExactInteger(Get(m, "request_id")).value)
    else BadPong
  }

  function Parse(provider: Value -> bool, m: Value): Message {
    match Get(m, "type")
    case Some(Str(kind)) =>
      if kind == "compatibility_error" then ParseError(m)
      else if kind == "hello" then ParseHello(m)
      else if kind == "snapshot" then ParseSnapshot(provider, m)
      else if kind == "action_progress" then ParseProgress(m)
      else if kind == "pong" then ParsePong(m)
      else Unknown
    case _ => NotAMessage
  }

  // ----- the reducer -----

  function CompatibilityState(s: State, code: string, supported: Protocol): State {
    s.(phase := Incompatible, compatible := false, compatibilityFailure := code, protocol := Some(supported),
       capabilities := [], snapshot := None, requestProgress := map[], requestOrder := [])
  }

  function ReconnectingState(s: State): State {
    s.(phase := AwaitingHello, compatible := false, compatibilityFailure := "", protocol := None,
       capabilities := [], lastActionProgress := None, lastPongRequestId := 0)
  }

  function ResetRequests(s: State): State {
    s.(lastActionProgress := None, requestProgress := map[], requestOrder := [])
  }

  predicate ValidTransition(previous: Progress, next: Progress) {
    match previous
    case Issued => !next.Issued?
    case Queued => !next.Issued?
    case Running => !next.Issued? && !next.Queued?
    case _ => previous == next
  }

  /** The ready state after a hello; another stream than before starts from nothing. */
  function GreetStream(s: State, m: Message): State
    requires m.Hello?
  {
    var ready := s.(phase := Ready, compatible := true, compatibilityFailure := "", protocol := Some(m.protocol),
                    streamId := m.streamId, capabilities := Supported(m.capabilities));
    if s.streamId != "" && s.streamId != m.streamId then
      ready.(lastSequence := 0, snapshot := None, lastActionProgress := None,
             requestProgress := map[], requestOrder := [])
    else ready
  }

  function ReduceHello(s: State, m: Message): Outcome
    requires m.Hello? || m.BadHello?
  {
    if m.BadHello? then Reject(s, "invalid_hello")
    else if m.protocol.major != PROTOCOL_MAJOR then
      Accept(CompatibilityState(s, "unsupported_protocol_major", Protocol(PROTOCOL_MAJOR, PROTOCOL_MINOR)), "hello", 0)
    else if DISPLAY_SNAPSHOTS !in m.capabilities then
      Accept(CompatibilityState(s, "missing_display_snapshots", m.protocol), "hello", 0)
    else Accept(GreetStream(s, m), "hello", 0)
  }

  function ReduceSnapshot(s: State, m: Message): Outcome
    requires m.Snapshot? || m.BadSnapshot?
  {
    if DISPLAY_SNAPSHOTS !in s.capabilities then Reject(s, "capability_not_negotiated")
    else if m.BadSnapshot? then Reject(s, "invalid_snapshot")
    else if m.sequence == s.lastSequence then Outcome(s, false, "", true, "snapshot", m.sequence, false)
    else if m.sequence < s.lastSequence then Outcome(s, false, "", true, "snapshot", 0, false)
    else Accept(s.(lastSequence := m.sequence, snapshot := Some(m.payload)), "snapshot", m.sequence)
  }

  function ReduceProgress(s: State, m: Message): Outcome
    requires m.ActionProgress? || m.BadProgress?
  {
    if ACTION_PROGRESS !in s.capabilities then Reject(s, "capability_not_negotiated")
    else if m.BadProgress? then Reject(s, "invalid_action_progress")
    else if m.requestId !in s.requestProgress then Reject(s, "unsolicited_action_progress")
    else if !ValidTransition(s.requestProgress[m.requestId], m.progress) then
      Reject(s, "invalid_action_progress_transition")
    else
      Accept(s.(lastActionProgress := Some((m.requestId, m.progress)),
                requestProgress := s.requestProgress[m.requestId := m.progress]), "action_progress", 0)
  }

  function Reduce(s: State, m: Message): Outcome {
    if m.NotAMessage? then Reject(s, "invalid_message")
    else if m.BadError? then Reject(s, "invalid_compatibility_error")
    else if m.Error? then Accept(CompatibilityState(s, m.code, m.supported), "compatibility_error", 0)
    else if s.phase.AwaitingHello? then
      if m.Hello? || m.BadHello? then ReduceHello(s, m) else Reject(s, "hello_required")
    else if !s.phase.Ready? then Reject(s, "connection_incompatible")
    else if m.Hello? || m.BadHello? then Reject(s, "duplicate_hello")
    else if m.Snapshot? || m.BadSnapshot? then ReduceSnapshot(s, m)
    else if m.ActionProgress? || m.BadProgress? then ReduceProgress(s, m)
    else if m.Pong? then Accept(s.(lastPongRequestId := m.requestId), "pong", 0)
    else if m.BadPong? then Reject(s, "invalid_pong")
    else Reject(s, "unknown_message_type")
  }

  function ReduceMessage(provider: Value -> bool, s: State, m: Value): Outcome {
    Reduce(s, Parse(provider, m))
  }

  // ----- the request table -----

  predicate Finished(progress: map<nat, Progress>, id: nat) {
    id in progress && progress[id].Terminal()
  }

  /** The position of the first finished request, or the length if there is none. */
  function FirstFinished(order: seq<nat>, progress: map<nat, Progress>): (i: nat)
    ensures i <= |order|
    ensures forall j :: 0 <= j < i ==> !Finished(progress, order[j])
    ensures i < |order| ==> Finished(progress, order[i])
  {
    if order == [] || Finished(progress, order[0]) then 0 else 1 + FirstFinished(order[1..], progress)
  }

  function Registered(s: State, requestId: int): State {
    if !(0 < requestId <= MAX_EXACT_INTEGER) || requestId in s.requestProgress then s
    else if |s.requestOrder| < MAX_TRACKED_REQUESTS then
      s.(requestProgress := s.requestProgress[requestId := Issued], requestOrder := s.requestOrder + [requestId])
    else
      var i := FirstFinished(s.requestOrder, s.requestProgress);
      if i == |s.requestOrder| then s
      else
        s.(requestProgress := (s.requestProgress - {s.requestOrder[i]})[requestId := Issued],
           requestOrder := s.requestOrder[..i] + s.requestOrder[i + 1..] + [requestId])
  }

  /** Copies the table, makes room by dropping the first finished request, and adds the new one. */
  method RegisterRequest(s: State, requestId: int) returns (next: State)
    ensures next == Registered(s, requestId)
  {
    if !(0 < requestId <= MAX_EXACT_INTEGER) || requestId in s.requestProgress {
      return s;
    }
    var progress, order := s.requestProgress, s.requestOrder;
    if |order| >= MAX_TRACKED_REQUESTS {
      var evictionIndex := -1;
      var i := 0;
      ghost var first := FirstFinished(order, progress);
      while i < |order|
        invariant 0 <= i <= |order| && i <= first && evictionIndex == -1
      {
        if Finished(progress, order[i]) {
          evictionIndex := i;
          break;
        }
        i := i + 1;
      }
      if evictionIndex == -1 {
        return s;
      }
      assert evictionIndex == first;
      var evicted := order[evictionIndex];
      order := order[..evictionIndex] + order[evictionIndex + 1..];
      progress := progress - {evicted};
    }
    progress := progress[requestId := Issued];
    order := order + [requestId];
    next := s.(requestProgress := progress, requestOrder := order);
  }

  // ----- runs -----

  datatype Event = Receive(message: Message) | Reconnect | Register(requestId: int) | Reset

  function Step(s: State, e: Event): State {
    match e
    case Receive(m) => Reduce(s, m).state
    case Reconnect => ReconnectingState(s)
    case Register(id) => Registered(s, id)
    case Reset => ResetRequests(s)
  }

  /** `states` are the states before, between and after `events`, from a fresh start. */
  ghost predicate IsRun(events: seq<Event>, states: seq<State>) {
    && |states| == |events| + 1
    && states[0] == INITIAL
    && forall i :: 0 <= i < |events| ==> states[i + 1] == Step(states[i], events[i])
  }

  ghost predicate IsParsed(provider: Value -> bool, e: Event) {
    e.Receive? ==> exists m :: e.message == Parse(provider, m)
  }

  /** Every message received is what some JSON value parses to. */
  ghost predicate FromJson(provider: Value -> bool, events: seq<Event>) {
    forall i :: 0 <= i < |events| ==> IsParsed(provider, events[i])
  }
}
