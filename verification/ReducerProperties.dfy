/** What holds of the display client over every run of messages, reconnects, registrations
    and resets. */
module ReducerProperties {
  import opened Results
  import opened Js
  import opened Reducer
  import opened Sequences
  import SnapshotTree

  // ----- sequences -----

  lemma StepKeepsSequence(s: State, e: Event)
    requires Step(s, e).streamId == s.streamId
    ensures s.lastSequence <= Step(s, e).lastSequence
  {
  }

  /** While the stream stays the same, the last sequence never goes down. */
  lemma {:induction false} SequenceNeverDecreases(events: seq<Event>, states: seq<State>, i: nat, j: nat)
    requires IsRun(events, states) && i <= j < |states|
    requires forall k :: i <= k <= j ==> states[k].streamId == states[i].streamId
    ensures states[i].lastSequence <= states[j].lastSequence
    decreases j
  {
    if i < j {
      SequenceNeverDecreases(events, states, i, j - 1);
      assert states[j] == Step(states[j - 1], events[j - 1]);
      StepKeepsSequence(states[j - 1], events[j - 1]);
    }
  }

  lemma ParsedSequence(provider: Value -> bool, m: Value)
    requires Parse(provider, m).Snapshot?
    ensures ExactInteger(Get(m, "sequence")) == Some(Parse(provider, m).sequence)
  {
  }

  lemma OnlySnapshotsAreAcked(s: State, m: Message)
    requires Reduce(s, m).ackSequence != 0
    ensures s.phase.Ready? && m.Snapshot? && Reduce(s, m).ackSequence == m.sequence == Reduce(s, m).state.lastSequence
  {
  }

  /** An acknowledgement names the sequence the message carries and the client holds after it. */
  lemma AckIsLastSequence(provider: Value -> bool, s: State, m: Value)
    requires ReduceMessage(provider, s, m).ackSequence != 0
    ensures ReduceMessage(provider, s, m).ackSequence == ReduceMessage(provider, s, m).state.lastSequence
    ensures s.phase.Ready? && ExactInteger(Get(m, "sequence")) == Some(ReduceMessage(provider, s, m).ackSequence)
  {
    var parsed := Parse(provider, m);
    OnlySnapshotsAreAcked(s, parsed);
    ParsedSequence(provider, m);
  }

  /** The payload of an acknowledged snapshot is on display exactly when its sequence is new or it
      was on display before: a repeated sequence is acknowledged and its payload is not looked at. */
  lemma AckedPayloadIsShown(s: State, m: Message)
    requires Reduce(s, m).ackSequence != 0
    ensures m.Snapshot?
    ensures Reduce(s, m).state.snapshot == Some(m.payload)
       <==> m.sequence != s.lastSequence || s.snapshot == Some(m.payload)
  {
  }

  /** A message that is not accepted changes nothing. */
  lemma RejectionKeepsState(s: State, m: Message)
    requires !Reduce(s, m).accepted
    ensures Reduce(s, m).state == s
  {
  }

  // ----- phases -----

  /** What the phase says about the rest of the state. */
  ghost predicate PhaseOk(s: State) {
    && (s.compatible <==> s.phase.Ready?)
    && (s.phase.Incompatible? <==> s.compatibilityFailure != "")
    && (s.phase.AwaitingHello? <==> s.protocol.None?)
    && (s.phase.Ready? ==> s.protocol.value.major == PROTOCOL_MAJOR && DISPLAY_SNAPSHOTS in s.capabilities)
    && (s.phase.Ready? ==> forall name :: name in s.capabilities ==> name in KNOWN_CAPABILITIES)
    && (!s.phase.Ready? ==> s.capabilities == [])
    && (s.phase.Incompatible? ==> s.snapshot.None?)
    && (s.phase.AwaitingHello? ==> s.lastActionProgress.None? && s.lastPongRequestId == 0)
  }

  ghost predicate ErrorHasCode(e: Event) {
    e.Receive? && e.message.Error? ==> e.message.code in COMPATIBILITY_CODES
  }

  lemma ParsedErrorHasCode(provider: Value -> bool, e: Event)
    requires IsParsed(provider, e)
    ensures ErrorHasCode(e)
  {
  }

  lemma HelloKeepsPhase(s: State, m: Message)
    requires PhaseOk(s) && s.phase.AwaitingHello? && (m.Hello? || m.BadHello?)
    ensures PhaseOk(ReduceHello(s, m).state)
  {
    assert KNOWN_CAPABILITIES[0] == DISPLAY_SNAPSHOTS;
  }

  lemma StepKeepsPhase(s: State, e: Event)
    requires PhaseOk(s) && ErrorHasCode(e)
    ensures PhaseOk(Step(s, e))
  {
    assert "" !in COMPATIBILITY_CODES;
    if e.Receive? && s.phase.AwaitingHello? && (e.message.Hello? || e.message.BadHello?) {
      HelloKeepsPhase(s, e.message);
    }
  }

  /** Over any run the phase, the negotiated version, the capabilities and the display agree. */
  lemma {:induction false} PhasesAgree(provider: Value -> bool, events: seq<Event>, states: seq<State>, j: nat)
    requires IsRun(events, states) && FromJson(provider, events) && j < |states|
    ensures PhaseOk(states[j])
  {
    if j > 0 {
      PhasesAgree(provider, events, states, j - 1);
      assert states[j] == Step(states[j - 1], events[j - 1]) && IsParsed(provider, events[j - 1]);
      ParsedErrorHasCode(provider, events[j - 1]);
      StepKeepsPhase(states[j - 1], events[j - 1]);
    }
  }

  /** Another stream starts with nothing of the one before it. */
  lemma NewStreamStartsFresh(s: State, e: Event)
    requires s.streamId != "" && Step(s, e).streamId != s.streamId
    ensures Step(s, e).lastSequence == 0 && Step(s, e).snapshot.None? && Step(s, e).lastActionProgress.None?
    ensures Step(s, e).requestProgress == map[] && Step(s, e).requestOrder == []
  {
  }

  /** The end of compatibility drops the requests and the display, and keeps the stream and its
      last sequence. */
  lemma IncompatibleDropsRequests(s: State, e: Event)
    requires !s.phase.Incompatible? && Step(s, e).phase.Incompatible?
    ensures Step(s, e).requestProgress == map[] && Step(s, e).requestOrder == [] && Step(s, e).snapshot.None?
    ensures Step(s, e).streamId == s.streamId && Step(s, e).lastSequence == s.lastSequence
  {
  }

  // ----- where the snapshot comes from -----

  /** In state `s`, event `e` brings a snapshot that is allowed and newer than the last. */
  ghost predicate AcceptsSnapshot(s: State, e: Event, sequence: nat, payload: Value) {
    && e == Receive(Snapshot(sequence, payload))
    && s.phase.Ready? && DISPLAY_SNAPSHOTS in s.capabilities && s.lastSequence < sequence
  }

  lemma NewSnapshotsAreAccepted(s: State, sequence: nat, payload: Value)
    ensures Reduce(s, Snapshot(sequence, payload)).accepted
       <==> AcceptsSnapshot(s, Receive(Snapshot(sequence, payload)), sequence, payload)
  {
  }

  /** Event `i` is a snapshot that the client accepts. */
  ghost predicate AcceptedAt(events: seq<Event>, states: seq<State>, i: nat)
    requires i < |events| < |states|
  {
    events[i].Receive? && events[i].message.Snapshot? && Reduce(states[i], events[i].message).accepted
  }

  /** As long as the stream stays the same, snapshots are accepted in the order of their sequences,
      and none twice. */
  lemma AcceptedInOrder(events: seq<Event>, states: seq<State>, i: nat, j: nat)
    requires IsRun(events, states) && i < j < |events|
    requires AcceptedAt(events, states, i) && AcceptedAt(events, states, j)
    requires forall k :: i <= k <= j ==> states[k].streamId == states[i].streamId
    ensures events[i].message.sequence < events[j].message.sequence
  {
    NewSnapshotsAreAccepted(states[i], events[i].message.sequence, events[i].message.payload);
    NewSnapshotsAreAccepted(states[j], events[j].message.sequence, events[j].message.payload);
    assert states[i + 1] == Step(states[i], events[i]);
    SequenceNeverDecreases(events, states, i + 1, j);
  }

  /** After a step the snapshot on display is the one before it, or the one just accepted. */
  ghost predicate KeptOrAccepted(s: State, e: Event, t: State)
    requires t.snapshot.Some?
  {
    || (t.snapshot == s.snapshot && t.lastSequence == s.lastSequence && (t.streamId == s.streamId || s.streamId == ""))
    || (AcceptsSnapshot(s, e, t.lastSequence, t.snapshot.value) && t.streamId == s.streamId)
  }

  lemma HelloKeepsSnapshot(s: State, m: Message)
    requires m.Hello? || m.BadHello?
    requires ReduceHello(s, m).state.snapshot.Some?
    ensures KeptOrAccepted(s, Receive(m), ReduceHello(s, m).state)
  {
  }

  lemma SnapshotOrigin(s: State, e: Event)
    requires Step(s, e).snapshot.Some?
    ensures KeptOrAccepted(s, e, Step(s, e))
  {
    if e.Receive? && s.phase.AwaitingHello? && (e.message.Hello? || e.message.BadHello?) {
      HelloKeepsSnapshot(s, e.message);
    }
  }

  /** A ready client knows its stream; without a stream there is no sequence and nothing on
      display. */
  ghost predicate StreamKnown(s: State) {
    (s.phase.Ready? ==> s.streamId != "") && (s.streamId == "" ==> s.snapshot.None? && s.lastSequence == 0)
  }

  ghost predicate HelloNamesStream(e: Event) {
    e.Receive? && e.message.Hello? ==> e.message.streamId != ""
  }

  lemma StepKeepsStream(s: State, e: Event)
    requires StreamKnown(s) && HelloNamesStream(e)
    ensures StreamKnown(Step(s, e))
  {
  }

  lemma ParsedHelloNamesStream(provider: Value -> bool, e: Event)
    requires IsParsed(provider, e)
    ensures HelloNamesStream(e)
  {
  }

  lemma ParsedPayloadIsValid(provider: Value -> bool, e: Event)
    requires IsParsed(provider, e) && e.Receive? && e.message.Snapshot?
    ensures ValidEnvelope(provider, e.message.payload)
  {
  }

  lemma {:induction false} NoStreamNoSnapshot(provider: Value -> bool, events: seq<Event>, states: seq<State>, j: nat)
    requires IsRun(events, states) && FromJson(provider, events) && j < |states|
    ensures StreamKnown(states[j])
  {
    if j > 0 {
      NoStreamNoSnapshot(provider, events, states, j - 1);
      assert states[j] == Step(states[j - 1], events[j - 1]) && IsParsed(provider, events[j - 1]);
      ParsedHelloNamesStream(provider, events[j - 1]);
      StepKeepsStream(states[j - 1], events[j - 1]);
    }
  }

  ghost predicate OriginAt(events: seq<Event>, states: seq<State>, i: nat, j: nat)
    requires i < j < |states| && |states| == |events| + 1
  {
    && states[j].snapshot.Some?
    && AcceptsSnapshot(states[i], events[i], states[j].lastSequence, states[j].snapshot.value)
    && forall k :: i <= k <= j ==> states[k].streamId == states[j].streamId
  }

  lemma OriginStays(events: seq<Event>, states: seq<State>, i: nat, j: nat)
    requires i < j < |states| - 1 && |states| == |events| + 1 && OriginAt(events, states, i, j)
    requires states[j + 1].snapshot == states[j].snapshot && states[j + 1].lastSequence == states[j].lastSequence
    requires states[j + 1].streamId == states[j].streamId
    ensures OriginAt(events, states, i, j + 1)
  {
  }

  ghost predicate OriginStep(events: seq<Event>, states: seq<State>, j: nat)
    requires 0 < j < |states| && |states| == |events| + 1
  {
    && (states[j].snapshot.Some? ==> KeptOrAccepted(states[j - 1], events[j - 1], states[j]))
    && (states[j - 1].streamId == "" ==> states[j - 1].snapshot.None?)
  }

  lemma RunTakesOriginStep(provider: Value -> bool, events: seq<Event>, states: seq<State>, j: nat)
    requires IsRun(events, states) && FromJson(provider, events) && 0 < j < |states|
    ensures OriginStep(events, states, j)
  {
    NoStreamNoSnapshot(provider, events, states, j - 1);
    var s := states[j - 1];
    assert states[j] == Step(s, events[j - 1]);
    if states[j].snapshot.Some? {
      SnapshotOrigin(s, events[j - 1]);
    }
  }

  lemma {:induction false} StepsLeadToOrigin(events: seq<Event>, states: seq<State>, j: nat)
    requires j < |states| && |states| == |events| + 1 && states[0].snapshot.None? && states[j].snapshot.Some?
    requires forall k :: 0 < k < |states| ==> OriginStep(events, states, k)
    ensures exists i :: 0 <= i < j && OriginAt(events, states, i, j)
  {
    assert j > 0 && OriginStep(events, states, j);
    var s, e, t := states[j - 1], events[j - 1], states[j];
    if AcceptsSnapshot(s, e, t.lastSequence, t.snapshot.value) && t.streamId == s.streamId {
      assert OriginAt(events, states, j - 1, j);
    } else {
      StepsLeadToOrigin(events, states, j - 1);
      var i: nat :| i < j - 1 && OriginAt(events, states, i, j - 1);
      OriginStays(events, states, i, j - 1);
    }
  }

  /** The snapshot on display is the payload that was accepted with the last sequence, and the
      stream has not changed since. */
  lemma SnapshotWasAccepted(provider: Value -> bool, events: seq<Event>, states: seq<State>, j: nat)
    requires IsRun(events, states) && FromJson(provider, events) && j < |states| && states[j].snapshot.Some?
    ensures exists i :: 0 <= i < j && OriginAt(events, states, i, j)
  {
    forall k | 0 < k < |states| ensures OriginStep(events, states, k) {
      RunTakesOriginStep(provider, events, states, k);
    }
    StepsLeadToOrigin(events, states, j);
  }

  /** What is on display passes the bridge's converter too. */
  lemma SnapshotConverts(provider: Value -> bool, events: seq<Event>, states: seq<State>, j: nat)
    requires IsRun(events, states) && FromJson(provider, events) && j < |states| && states[j].snapshot.Some?
    ensures SnapshotTree.Convert(states[j].snapshot.value).ok
  {
    SnapshotWasAccepted(provider, events, states, j);
    var i: nat :| i < j && OriginAt(events, states, i, j);
    assert IsParsed(provider, events[i]);
    ParsedPayloadIsValid(provider, events[i]);
    SnapshotTree.AcceptedTreesConvert(states[j].snapshot.value);
  }

  // ----- where an acknowledged sequence comes from -----

  /** Event `i` was accepted with the sequence of state `j`, and the stream is still the same. */
  ghost predicate SequenceFrom(events: seq<Event>, states: seq<State>, i: nat, j: nat)
    requires i < j < |states| && |states| == |events| + 1
  {
    && events[i].Receive? && events[i].message.Snapshot?
    && AcceptsSnapshot(states[i], events[i], states[j].lastSequence, events[i].message.payload)
    && forall k :: i <= k <= j ==> states[k].streamId == states[j].streamId
  }

  ghost predicate SequenceStep(s: State, e: Event, t: State) {
    || t.lastSequence == 0
    || (t.lastSequence == s.lastSequence && t.streamId == s.streamId)
    || (e.Receive? && e.message.Snapshot? && t.streamId == s.streamId
        && AcceptsSnapshot(s, e, t.lastSequence, e.message.payload))
  }

  ghost predicate SequenceStepAt(events: seq<Event>, states: seq<State>, j: nat)
    requires 0 < j < |states| && |states| == |events| + 1
  {
    SequenceStep(states[j - 1], events[j - 1], states[j])
  }

  lemma StepTakesSequence(s: State, e: Event)
    requires StreamKnown(s)
    ensures SequenceStep(s, e, Step(s, e))
  {
  }

  lemma RunTakesSequenceStep(provider: Value -> bool, events: seq<Event>, states: seq<State>, j: nat)
    requires IsRun(events, states) && FromJson(provider, events) && 0 < j < |states|
    ensures SequenceStepAt(events, states, j)
  {
    NoStreamNoSnapshot(provider, events, states, j - 1);
    assert states[j] == Step(states[j - 1], events[j - 1]);
    StepTakesSequence(states[j - 1], events[j - 1]);
  }

  lemma SequenceStays(events: seq<Event>, states: seq<State>, i: nat, j: nat)
    requires i < j < |states| - 1 && |states| == |events| + 1 && SequenceFrom(events, states, i, j)
    requires states[j + 1].lastSequence == states[j].lastSequence && states[j + 1].streamId == states[j].streamId
    ensures SequenceFrom(events, states, i, j + 1)
  {
  }

  lemma {:induction false} StepsLeadToSequence(events: seq<Event>, states: seq<State>, j: nat)
    requires j < |states| && |states| == |events| + 1 && states[0].lastSequence == 0 && states[j].lastSequence > 0
    requires forall k :: 0 < k < |states| ==> SequenceStepAt(events, states, k)
    ensures exists i :: 0 <= i < j && SequenceFrom(events, states, i, j)
  {
    assert j > 0 && SequenceStepAt(events, states, j);
    var s, e, t := states[j - 1], events[j - 1], states[j];
    if t.lastSequence == s.lastSequence && t.streamId == s.streamId {
      StepsLeadToSequence(events, states, j - 1);
      var i: nat :| i < j - 1 && SequenceFrom(events, states, i, j - 1);
      SequenceStays(events, states, i, j - 1);
    } else {
      assert SequenceFrom(events, states, j - 1, j);
    }
  }

  /** Every acknowledgement of a run names a sequence whose snapshot was accepted, now or earlier, on
      the stream the client is still on, also when the display has been cleared since. */
  lemma AcksWereAccepted(provider: Value -> bool, events: seq<Event>, states: seq<State>, j: nat)
    requires IsRun(events, states) && FromJson(provider, events) && 0 < j < |states|
    requires events[j - 1].Receive? && Reduce(states[j - 1], events[j - 1].message).ackSequence != 0
    ensures Reduce(states[j - 1], events[j - 1].message).ackSequence == states[j].lastSequence
    ensures exists i :: 0 <= i < j && SequenceFrom(events, states, i, j)
  {
    assert states[j] == Step(states[j - 1], events[j - 1]);
    OnlySnapshotsAreAcked(states[j - 1], events[j - 1].message);
    forall k | 0 < k < |states| ensures SequenceStepAt(events, states, k) {
      RunTakesSequenceStep(provider, events, states, k);
    }
    StepsLeadToSequence(events, states, j);
  }

  /** As long as no newer snapshot comes, only the end of compatibility changes the display. */
  lemma StepKeepsDisplay(s: State, e: Event)
    requires PhaseOk(s) && Step(s, e).streamId == s.streamId && Step(s, e).lastSequence == s.lastSequence
    ensures Step(s, e).snapshot == if Step(s, e).phase.Incompatible? then None else s.snapshot
  {
  }

  /** At some time after event `i` and up to `j` the client was incompatible. */
  ghost predicate EndedSince(states: seq<State>, i: nat, j: nat)
    requires i <= j < |states|
  {
    exists k :: i < k <= j && states[k].phase.Incompatible?
  }

  lemma SequenceSince(events: seq<Event>, states: seq<State>, i: nat, k: nat, j: nat)
    requires IsRun(events, states) && i < k <= j < |states| && SequenceFrom(events, states, i, j)
    ensures states[k].lastSequence == states[j].lastSequence && states[k].streamId == states[j].streamId
  {
    assert states[i + 1] == Step(states[i], events[i]);
    SequenceNeverDecreases(events, states, i + 1, k);
    SequenceNeverDecreases(events, states, k, j);
  }

  lemma EndedOneLater(states: seq<State>, i: nat, k: nat)
    requires i < k < |states|
    ensures EndedSince(states, i, k) <==> EndedSince(states, i, k - 1) || states[k].phase.Incompatible?
  {
  }

  lemma AcceptedIsShown(s: State, e: Event, sequence: nat, payload: Value)
    requires AcceptsSnapshot(s, e, sequence, payload)
    ensures Step(s, e).snapshot == Some(payload) && !Step(s, e).phase.Incompatible?
  {
  }

  /** The display between the acceptance of the last sequence and now. */
  ghost predicate ShowsSince(events: seq<Event>, states: seq<State>, i: nat, k: nat)
    requires i <= k < |states| && i < |events| && events[i].Receive? && events[i].message.Snapshot?
  {
    states[k].snapshot == if EndedSince(states, i, k) then None else Some(events[i].message.payload)
  }

  lemma ShownOneLater(events: seq<Event>, states: seq<State>, i: nat, k: nat, e: Event)
    requires i < k < |states| && i < |events| && events[i].Receive? && events[i].message.Snapshot?
    requires ShowsSince(events, states, i, k - 1) && PhaseOk(states[k - 1])
    requires states[k] == Step(states[k - 1], e) && states[k].streamId == states[k - 1].streamId
    requires states[k].lastSequence == states[k - 1].lastSequence
    ensures ShowsSince(events, states, i, k)
  {
    StepKeepsDisplay(states[k - 1], e);
    EndedOneLater(states, i, k);
  }

  /** A step on the same stream and with the same last sequence. */
  ghost predicate QuietStep(events: seq<Event>, states: seq<State>, n: nat)
    requires 0 < n < |states| && |states| == |events| + 1
  {
    && states[n] == Step(states[n - 1], events[n - 1]) && PhaseOk(states[n - 1])
    && states[n].streamId == states[n - 1].streamId && states[n].lastSequence == states[n - 1].lastSequence
  }

  lemma SequenceIsQuiet(events: seq<Event>, states: seq<State>, i: nat, n: nat, j: nat)
    requires IsRun(events, states) && i + 1 < n <= j < |states| && SequenceFrom(events, states, i, j)
    ensures states[n].streamId == states[n - 1].streamId && states[n].lastSequence == states[n - 1].lastSequence
  {
    SequenceSince(events, states, i, n - 1, j);
    SequenceSince(events, states, i, n, j);
  }

  lemma RunTakesQuietStep(provider: Value -> bool, events: seq<Event>, states: seq<State>, n: nat)
    requires IsRun(events, states) && FromJson(provider, events) && 0 < n < |states|
    requires states[n].streamId == states[n - 1].streamId && states[n].lastSequence == states[n - 1].lastSequence
    ensures QuietStep(events, states, n)
  {
    PhasesAgree(provider, events, states, n - 1);
  }

  lemma ShownAtFirst(events: seq<Event>, states: seq<State>, i: nat, j: nat)
    requires IsRun(events, states) && i < j < |states| && SequenceFrom(events, states, i, j)
    ensures ShowsSince(events, states, i, i + 1)
  {
    AcceptedIsShown(states[i], events[i], states[j].lastSequence, events[i].message.payload);
    assert states[i + 1] == Step(states[i], events[i]);
  }

  lemma {:induction false} DisplaySince(events: seq<Event>, states: seq<State>, i: nat, k: nat)
    requires i < k < |states| && |states| == |events| + 1 && events[i].Receive? && events[i].message.Snapshot?
    requires ShowsSince(events, states, i, i + 1)
    requires forall n :: i + 1 < n <= k ==> QuietStep(events, states, n)
    ensures ShowsSince(events, states, i, k)
    decreases k
  {
    if k > i + 1 {
      DisplaySince(events, states, i, k - 1);
      assert QuietStep(events, states, k);
      ShownOneLater(events, states, i, k, events[k - 1]);
    }
  }

  /** On display is the snapshot accepted with the last sequence, and nothing exactly when the client
      was incompatible at some time since. */
  lemma DisplayFollowsSequence(
    provider: Value -> bool, events: seq<Event>, states: seq<State>, i: nat, j: nat)
    requires IsRun(events, states) && FromJson(provider, events)
    requires i < j < |states| && SequenceFrom(events, states, i, j)
    ensures states[j].snapshot == if EndedSince(states, i, j) then None else Some(events[i].message.payload)
  {
    ShownAtFirst(events, states, i, j);
    forall n | i + 1 < n <= j ensures QuietStep(events, states, n) {
      SequenceIsQuiet(events, states, i, n, j);
      RunTakesQuietStep(provider, events, states, n);
    }
    DisplaySince(events, states, i, j);
  }

  /** An acknowledged sequence was accepted with some payload, now or earlier on this stream; that
      payload is on display, unless the client was incompatible at some time since: then nothing is. */
  lemma AckedSnapshotIsShown(provider: Value -> bool, events: seq<Event>, states: seq<State>, j: nat)
    requires IsRun(events, states) && FromJson(provider, events) && 0 < j < |states|
    requires events[j - 1].Receive? && Reduce(states[j - 1], events[j - 1].message).ackSequence != 0
    ensures exists i :: 0 <= i < j && SequenceFrom(events, states, i, j)
              && states[j].snapshot == if EndedSince(states, i, j) then None else Some(events[i].message.payload)
  {
    AcksWereAccepted(provider, events, states, j);
    var i: nat :| i < j && SequenceFrom(events, states, i, j);
    DisplayFollowsSequence(provider, events, states, i, j);
  }

  /** A hello that names this stream and offers snapshots in version 1. */
  ghost predicate Resumes(m: Message, streamId: string) {
    m.Hello? && m.streamId == streamId && m.protocol.major == PROTOCOL_MAJOR && DISPLAY_SNAPSHOTS in m.capabilities
  }

  /** After a compatibility error, a reconnect to the same stream and the same snapshot again,
      the snapshot is acknowledged although nothing is on display. */
  lemma SnapshotLostAfterError(s: State, error: Message, hello: Message, payload: Value)
    requires s.streamId != "" && s.lastSequence > 0 && error.Error? && Resumes(hello, s.streamId)
    ensures
      var resumed := Step(Step(Step(s, Receive(error)), Reconnect), Receive(hello));
      var r := Reduce(resumed, Snapshot(s.lastSequence, payload));
      r.ackSequence == s.lastSequence && r.state.snapshot.None? && r.state == resumed
  {
    assert KNOWN_CAPABILITIES[0] == DISPLAY_SNAPSHOTS;
  }

  // ----- the request table -----

  /** The order lists each tracked request once, oldest first, and never more than 128. */
  ghost predicate TableOk(s: State) {
    && Distinct(s.requestOrder)
    && (forall id :: id in s.requestOrder <==> id in s.requestProgress)
    && |s.requestOrder| <= MAX_TRACKED_REQUESTS
    && (forall id :: id in s.requestOrder ==> 0 < id <= MAX_EXACT_INTEGER)
  }

  lemma AppendDistinct(order: seq<nat>, id: nat)
    requires Distinct(order) && id !in order
    ensures Distinct(order + [id])
    ensures forall x :: x in order + [id] <==> x in order || x == id
  {
  }

  lemma RemoveDistinct(order: seq<nat>, i: nat)
    requires Distinct(order) && i < |order|
    ensures Distinct(order[..i] + order[i + 1..])
    ensures forall x :: x in order[..i] + order[i + 1..] <==> x in order && x != order[i]
  {
    var rest := order[..i] + order[i + 1..];
    forall x | x in order && x != order[i] ensures x in rest {
      var k :| 0 <= k < |order| && order[k] == x;
      assert rest[if k < i then k else k - 1] == x;
    }
  }

  lemma TrackingKeepsTable(s: State, id: nat)
    requires TableOk(s) && |s.requestOrder| < MAX_TRACKED_REQUESTS
    requires id !in s.requestProgress && 0 < id <= MAX_EXACT_INTEGER
    ensures TableOk(s.(requestProgress := s.requestProgress[id := Issued], requestOrder := s.requestOrder + [id]))
  {
    AppendDistinct(s.requestOrder, id);
  }

  lemma DroppingKeepsTable(s: State, i: nat)
    requires TableOk(s) && i < |s.requestOrder|
    ensures TableOk(s.(requestProgress := s.requestProgress - {s.requestOrder[i]},
                       requestOrder := s.requestOrder[..i] + s.requestOrder[i + 1..]))
  {
    var order, progress := s.requestOrder, s.requestProgress;
    var rest := order[..i] + order[i + 1..];
    RemoveDistinct(order, i);
    forall id ensures id in rest <==> id in progress - {order[i]} {
      assert id in rest <==> id in order && id != order[i];
    }
  }

  lemma RegisterKeepsTable(s: State, id: int)
    requires TableOk(s)
    ensures TableOk(Registered(s, id))
  {
    if 0 < id <= MAX_EXACT_INTEGER && id !in s.requestProgress {
      var i := FirstFinished(s.requestOrder, s.requestProgress);
      if |s.requestOrder| < MAX_TRACKED_REQUESTS {
        TrackingKeepsTable(s, id);
      } else if i < |s.requestOrder| {
        DroppingKeepsTable(s, i);
        TrackingKeepsTable(s.(requestProgress := s.requestProgress - {s.requestOrder[i]},
                              requestOrder := s.requestOrder[..i] + s.requestOrder[i + 1..]), id);
      }
    }
  }

  /** The table has the same requests as before, or none. */
  ghost predicate SameOrNoRequests(s: State, t: State) {
    || (t.requestOrder == s.requestOrder && t.requestProgress.Keys == s.requestProgress.Keys)
    || (t.requestOrder == [] && t.requestProgress == map[])
  }

  lemma OtherEventsKeepIds(s: State, e: Event)
    requires !e.Register?
    ensures SameOrNoRequests(s, Step(s, e))
  {
  }

  lemma StepKeepsTable(s: State, e: Event)
    requires TableOk(s)
    ensures TableOk(Step(s, e))
  {
    if e.Register? {
      RegisterKeepsTable(s, e.requestId);
    } else {
      OtherEventsKeepIds(s, e);
      KeysDecideTable(s, Step(s, e));
    }
  }

  lemma KeysDecideTable(s: State, t: State)
    requires TableOk(s) && SameOrNoRequests(s, t)
    ensures TableOk(t)
  {
    assert forall id :: id in t.requestProgress <==> id in t.requestProgress.Keys;
  }

  lemma {:induction false} TableAlwaysOk(events: seq<Event>, states: seq<State>, j: nat)
    requires IsRun(events, states) && j < |states|
    ensures TableOk(states[j])
  {
    if j > 0 {
      TableAlwaysOk(events, states, j - 1);
      assert states[j] == Step(states[j - 1], events[j - 1]);
      StepKeepsTable(states[j - 1], events[j - 1]);
    }
  }

  // ----- the order of registration -----

  /** Event `i` registered the request, which has been tracked ever since. */
  ghost predicate TrackedSince(events: seq<Event>, states: seq<State>, i: nat, j: nat, id: nat)
    requires j < |states| && |states| == |events| + 1
  {
    && i < j && events[i] == Register(id) && id !in states[i].requestProgress
    && forall k :: i < k <= j ==> id in states[k].requestProgress
  }

  /** The requests of the table were registered by these events, one after the other. */
  ghost predicate RegisteredBy(events: seq<Event>, states: seq<State>, j: nat, starts: seq<nat>)
    requires j < |states| && |states| == |events| + 1
  {
    && |starts| == |states[j].requestOrder|
    && (forall a :: 0 <= a < |starts| ==> TrackedSince(events, states, starts[a], j, states[j].requestOrder[a]))
    && (forall a, b :: 0 <= a < b < |starts| ==> starts[a] < starts[b])
  }

  lemma StillTracked(events: seq<Event>, states: seq<State>, i: nat, j: nat, id: nat)
    requires j + 1 < |states| && |states| == |events| + 1
    requires TrackedSince(events, states, i, j, id) && id in states[j + 1].requestProgress
    ensures TrackedSince(events, states, i, j + 1, id)
  {
  }

  lemma SameOrder(events: seq<Event>, states: seq<State>, j: nat, starts: seq<nat>)
    requires j + 1 < |states| && |states| == |events| + 1 && TableOk(states[j + 1])
    requires RegisteredBy(events, states, j, starts) && states[j + 1].requestOrder == states[j].requestOrder
    ensures RegisteredBy(events, states, j + 1, starts)
  {
    var order := states[j].requestOrder;
    forall a | 0 <= a < |starts| ensures TrackedSince(events, states, starts[a], j + 1, order[a]) {
      assert order[a] in states[j + 1].requestOrder;
      StillTracked(events, states, starts[a], j, order[a]);
    }
  }

  /** Where element `a` was before the one at `i` was dropped. */
  function Earlier(i: nat, a: nat): nat {
    if a < i then a else a + 1
  }

  function Dropped<T>(s: seq<T>, i: nat): (r: seq<T>)
    requires i <= |s|
    ensures |r| == if i < |s| then |s| - 1 else |s|
    ensures forall a :: 0 <= a < |r| ==> Earlier(i, a) < |s| && r[a] == s[Earlier(i, a)]
  {
    if i < |s| then s[..i] + s[i + 1..] else s
  }

  lemma TrackedAfterDrop(events: seq<Event>, states: seq<State>, j: nat, n: nat, starts: seq<nat>, i: nat, a: nat)
    requires n == j + 1 < |states| && |states| == |events| + 1 && RegisteredBy(events, states, j, starts)
    requires i <= |starts| && a < |Dropped(starts, i)|
    requires Dropped(states[j].requestOrder, i)[a] in states[n].requestProgress
    ensures TrackedSince(events, states, Dropped(starts, i)[a], n, Dropped(states[j].requestOrder, i)[a])
    ensures Dropped(starts, i)[a] < j
  {
    var k := Earlier(i, a);
    assert TrackedSince(events, states, starts[k], j, states[j].requestOrder[k]);
    StillTracked(events, states, starts[k], j, states[j].requestOrder[k]);
  }

  lemma DropKeepsIncreasing(starts: seq<nat>, i: nat)
    requires i <= |starts| && forall a, b :: 0 <= a < b < |starts| ==> starts[a] < starts[b]
    ensures forall a, b :: 0 <= a < b < |Dropped(starts, i)| ==> Dropped(starts, i)[a] < Dropped(starts, i)[b]
  {
    forall a, b | 0 <= a < b < |Dropped(starts, i)| ensures Dropped(starts, i)[a] < Dropped(starts, i)[b] {
      assert Earlier(i, a) < Earlier(i, b);
    }
  }

  lemma LastIsLargest(rest: seq<nat>, j: nat)
    requires forall a :: 0 <= a < |rest| ==> rest[a] < j
    requires forall a, b :: 0 <= a < b < |rest| ==> rest[a] < rest[b]
    ensures forall a, b :: 0 <= a < b < |rest + [j]| ==> (rest + [j])[a] < (rest + [j])[b]
  {
  }

  lemma RegisteredAtEnd(s: State, id: int) returns (i: nat)
    requires TableOk(s) && Registered(s, id).requestOrder != s.requestOrder
    ensures id > 0 && id !in s.requestProgress && i <= |s.requestOrder|
    ensures Registered(s, id).requestOrder == Dropped(s.requestOrder, i) + [id]
  {
    i := if |s.requestOrder| < MAX_TRACKED_REQUESTS then |s.requestOrder|
    else FirstFinished(s.requestOrder, s.requestProgress);
  }

  lemma NewlyTracked(events: seq<Event>, states: seq<State>, j: nat, n: nat, id: nat)
    requires n == j + 1 < |states| && |states| == |events| + 1
    requires events[j] == Register(id) && id !in states[j].requestProgress && id in states[n].requestProgress
    ensures TrackedSince(events, states, j, n, id)
  {
  }

  lemma AllTracked(events: seq<Event>, states: seq<State>, n: nat, starts: seq<nat>, order: seq<nat>, j: nat, id: nat)
    requires n < |states| && |states| == |events| + 1 && |starts| == |order|
    requires states[n].requestOrder == order + [id]
    requires forall a :: 0 <= a < |starts| ==> TrackedSince(events, states, starts[a], n, order[a]) && starts[a] < j
    requires forall a, b :: 0 <= a < b < |starts| ==> starts[a] < starts[b]
    requires TrackedSince(events, states, j, n, id)
    ensures RegisteredBy(events, states, n, starts + [j])
  {
    LastIsLargest(starts, j);
  }

  /** A new request at the end, after the one at `i`, if any, was dropped. */
  lemma NewLast(events: seq<Event>, states: seq<State>, j: nat, n: nat, starts: seq<nat>, i: nat, id: nat)
    requires n == j + 1 < |states| && |states| == |events| + 1 && TableOk(states[n])
    requires RegisteredBy(events, states, j, starts) && events[j] == Register(id) && id !in states[j].requestProgress
    requires i <= |starts| && states[n].requestOrder == Dropped(states[j].requestOrder, i) + [id]
    ensures RegisteredBy(events, states, n, Dropped(starts, i) + [j])
  {
    var rest, order := Dropped(starts, i), Dropped(states[j].requestOrder, i);
    DropKeepsIncreasing(starts, i);
    forall x | x in order + [id] ensures x in states[n].requestProgress {
    }
    forall a | 0 <= a < |rest| ensures TrackedSince(events, states, rest[a], n, order[a]) && rest[a] < j {
      assert order[a] in order + [id];
      TrackedAfterDrop(events, states, j, n, starts, i, a);
    }
    assert id in order + [id];
    NewlyTracked(events, states, j, n, id);
    AllTracked(events, states, n, rest, order, j, id);
  }

  lemma StepKeepsOrder(events: seq<Event>, states: seq<State>, j: nat, n: nat, starts: seq<nat>)
    requires n == j + 1 < |states| && |states| == |events| + 1 && states[n] == Step(states[j], events[j])
    requires TableOk(states[j]) && TableOk(states[n]) && RegisteredBy(events, states, j, starts)
    ensures exists next :: RegisteredBy(events, states, n, next)
  {
    var s, e, t := states[j], events[j], states[n];
    if t.requestOrder == s.requestOrder {
      SameOrder(events, states, j, starts);
    } else if e.Register? {
      var i := RegisteredAtEnd(s, e.requestId);
      NewLast(events, states, j, n, starts, i, e.requestId);
    } else {
      OtherEventsKeepIds(s, e);
      assert RegisteredBy(events, states, n, []);
    }
  }

  /** Over any run the table lists the requests in the order in which they were registered, so the
      oldest finished request is the finished one that was registered first. */
  lemma {:induction false} TableIsInOrder(events: seq<Event>, states: seq<State>, j: nat)
    requires IsRun(events, states) && j < |states|
    ensures exists starts :: RegisteredBy(events, states, j, starts)
  {
    if j == 0 {
      assert RegisteredBy(events, states, 0, []);
    } else {
      TableIsInOrder(events, states, j - 1);
      var starts :| RegisteredBy(events, states, j - 1, starts);
      TableAlwaysOk(events, states, j - 1);
      TableAlwaysOk(events, states, j);
      assert states[j] == Step(states[j - 1], events[j - 1]);
      StepKeepsOrder(events, states, j - 1, j, starts);
    }
  }

  /** A tracked request was registered on the stream the client is on, or before it had any, and
      compatibility has not ended since. */
  lemma {:induction false} RequestsBelongToStream(
    events: seq<Event>, states: seq<State>, i: nat, k: nat, j: nat, id: nat)
    requires IsRun(events, states) && j < |states| && TrackedSince(events, states, i, j, id) && i < k <= j
    ensures states[k].streamId in {"", states[j].streamId}
    ensures k < j && !states[k].phase.Incompatible? ==> !states[k + 1].phase.Incompatible?
    decreases j - k
  {
    if k < j {
      var s, e := states[k], events[k];
      assert states[k + 1] == Step(s, e) && id in states[k + 1].requestProgress;
      if s.streamId != "" && Step(s, e).streamId != s.streamId {
        NewStreamStartsFresh(s, e);
      }
      if !s.phase.Incompatible? && Step(s, e).phase.Incompatible? {
        IncompatibleDropsRequests(s, e);
      }
      RequestsBelongToStream(events, states, i, k + 1, j, id);
    }
  }

  ghost predicate FullOfUnfinished(s: State) {
    && |s.requestOrder| == MAX_TRACKED_REQUESTS
    && forall id :: id in s.requestOrder ==> !Finished(s.requestProgress, id)
  }

  ghost predicate DropsOldestFinished(s: State, t: State, id: nat, i: nat)
    requires i < |s.requestOrder|
  {
    && Finished(s.requestProgress, s.requestOrder[i])
    && (forall j :: 0 <= j < i ==> !Finished(s.requestProgress, s.requestOrder[j]))
    && t.requestOrder == s.requestOrder[..i] + s.requestOrder[i + 1..] + [id]
    && t.requestProgress == (s.requestProgress - {s.requestOrder[i]})[id := Issued]
  }

  /** A new request is refused exactly when the table is full of unfinished ones; otherwise it
      is tracked as issued, and a full table drops its oldest finished request and no other. */
  lemma RegisterEvictsOldestFinished(s: State, id: nat)
    requires TableOk(s) && 0 < id <= MAX_EXACT_INTEGER && id !in s.requestProgress
    ensures Registered(s, id) == s <==> FullOfUnfinished(s)
    ensures Registered(s, id) != s
       ==> id in Registered(s, id).requestProgress && Registered(s, id).requestProgress[id] == Issued
    ensures Registered(s, id) != s && |s.requestOrder| < MAX_TRACKED_REQUESTS
       ==> Registered(s, id) == s.(requestProgress := s.requestProgress[id := Issued],
                                   requestOrder := s.requestOrder + [id])
    ensures Registered(s, id) != s && |s.requestOrder| == MAX_TRACKED_REQUESTS
       ==> exists i :: 0 <= i < |s.requestOrder| && DropsOldestFinished(s, Registered(s, id), id, i)
  {
    if |s.requestOrder| == MAX_TRACKED_REQUESTS {
      var i := FirstFinished(s.requestOrder, s.requestProgress);
      if i < |s.requestOrder| {
        assert s.requestOrder[i] in s.requestOrder;
        assert DropsOldestFinished(s, Registered(s, id), id, i);
      }
    }
  }

  function Rank(p: Progress): nat {
    match p
    case Issued => 0
    case Queued => 1
    case Running => 2
    case _ => 3
  }

  ghost predicate Forward(before: Progress, after: Progress) {
    Rank(before) <= Rank(after) && (before.Terminal() ==> after == before)
  }

  lemma RegisterKeepsProgress(s: State, requestId: int, id: nat)
    requires id in s.requestProgress && id in Registered(s, requestId).requestProgress
    ensures Registered(s, requestId).requestProgress[id] == s.requestProgress[id]
  {
  }

  lemma OtherMessagesKeepProgress(s: State, m: Message)
    requires !m.ActionProgress?
    ensures Reduce(s, m).state.requestProgress in {s.requestProgress, map[]}
  {
  }

  lemma StayingIsForward(p: Progress)
    ensures Forward(p, p)
  {
  }

  /** The allowed transitions are exactly the forward ones to a reported state. */
  lemma TransitionsAreForward(before: Progress, after: Progress)
    ensures ValidTransition(before, after) <==> !after.Issued? && Forward(before, after)
  {
  }

  lemma ProgressMovesForward(s: State, m: Message, id: nat)
    requires m.ActionProgress? && id in s.requestProgress
    ensures id in ReduceProgress(s, m).state.requestProgress
    ensures Forward(s.requestProgress[id], ReduceProgress(s, m).state.requestProgress[id])
  {
    StayingIsForward(s.requestProgress[id]);
    if m.requestId in s.requestProgress && ValidTransition(s.requestProgress[m.requestId], m.progress) {
      TransitionsAreForward(s.requestProgress[m.requestId], m.progress);
    }
  }

  /** A progress report is accepted exactly when it moves a tracked request forward on a
      connection that negotiated it; then that request, and no other, is in the reported state. */
  lemma ProgressIsRecorded(s: State, id: nat, progress: Progress)
    requires !progress.Issued?
    ensures Reduce(s, ActionProgress(id, progress)).accepted
       <==> && s.phase.Ready? && ACTION_PROGRESS in s.capabilities
            && id in s.requestProgress && Forward(s.requestProgress[id], progress)
    ensures Reduce(s, ActionProgress(id, progress)).accepted
       ==> Reduce(s, ActionProgress(id, progress)).state.requestProgress == s.requestProgress[id := progress]
  {
    if id in s.requestProgress {
      TransitionsAreForward(s.requestProgress[id], progress);
    }
  }

  lemma StepMovesForward(s: State, e: Event, id: nat)
    requires id in s.requestProgress && id in Step(s, e).requestProgress
    ensures Forward(s.requestProgress[id], Step(s, e).requestProgress[id])
  {
    if e.Register? {
      RegisterKeepsProgress(s, e.requestId, id);
    } else if e.Receive? && e.message.ActionProgress? {
      ProgressMovesForward(s, e.message, id);
    } else if e.Receive? {
      OtherMessagesKeepProgress(s, e.message);
    }
  }

  /** As long as a request stays tracked it only moves forward, and its final state stays. */
  lemma {:induction false} RequestsMoveForward(events: seq<Event>, states: seq<State>, i: nat, j: nat, id: nat)
    requires IsRun(events, states) && i <= j < |states|
    requires forall k :: i <= k <= j ==> id in states[k].requestProgress
    ensures Forward(states[i].requestProgress[id], states[j].requestProgress[id])
    decreases j
  {
    if i < j {
      RequestsMoveForward(events, states, i, j - 1, id);
      assert states[j] == Step(states[j - 1], events[j - 1]);
      StepMovesForward(states[j - 1], events[j - 1], id);
    }
  }

  /** A hello that leaves the client ready on the stream it had, if it had one. */
  ghost predicate KeepsStream(s: State, m: Message)
    requires m.Hello?
  {
    m.protocol.major == PROTOCOL_MAJOR && DISPLAY_SNAPSHOTS in m.capabilities && s.streamId in {"", m.streamId}
  }

  /** A reset, a compatibility error, and a hello that ends the connection or names another stream. */
  ghost predicate ClearsTable(s: State, e: Event) {
    || e.Reset?
    || (e.Receive? && e.message.Error?)
    || (e.Receive? && e.message.Hello? && s.phase.AwaitingHello? && !KeepsStream(s, e.message))
  }

  /** Exactly these events clear a table. */
  lemma TableClearedExactly(s: State, e: Event)
    requires s.requestProgress != map[] && !e.Register?
    ensures Step(s, e).requestProgress == map[] <==> ClearsTable(s, e)
  {
  }

  /** A request leaves the table only by being the oldest finished one dropped for a new request,
      or when the whole table is cleared. */
  lemma RequestsLeaveOnlyFinished(s: State, e: Event, id: nat)
    requires TableOk(s)
    requires id in s.requestProgress && id !in Step(s, e).requestProgress
    ensures e.Register? ==> |s.requestOrder| == MAX_TRACKED_REQUESTS && IsOldestFinished(s, id)
    ensures !e.Register? ==> ClearsTable(s, e)
  {
    if !e.Register? {
      OtherEventsKeepIds(s, e);
      assert id in s.requestProgress.Keys;
      TableClearedExactly(s, e);
    }
  }

  ghost predicate IsOldestFinished(s: State, id: nat) {
    var i := FirstFinished(s.requestOrder, s.requestProgress);
    i < |s.requestOrder| && s.requestOrder[i] == id
  }
}
