/** The display client behind the bridge: which frame sequences the guard lets through make the
    reducer reject a frame. */
module GuardedRuns {
  import opened Results
  import opened Js
  import opened Reducer
  import opened FrameGuard

  /** The rejections that depend on the payload or on the request table, and not on the order
      or the shape of frames. */
  const CONTENT_ERRORS: set<string> :=
    {"", "invalid_snapshot", "unsolicited_action_progress", "invalid_action_progress_transition"}

  const ORDER_ERRORS: set<string> :=
    {"hello_required", "connection_incompatible", "duplicate_hello", "capability_not_negotiated"}

  /** A hello that leaves the client ready. */
  predicate Suitable(f: Frame) {
    f.HelloFrame? && f.protocol.major == PROTOCOL_MAJOR && DisplaySnapshots in f.capabilities
  }

  /** The guard and the client are at the same point of the connection and agree on what was
      negotiated. */
  ghost predicate Related(g: GuardState, s: State) {
    match g
    case Waiting => s.phase.AwaitingHello?
    case Open(capabilities) =>
      && s.phase.Ready?
      && (DISPLAY_SNAPSHOTS in s.capabilities <==> DisplaySnapshots in capabilities)
      && (ACTION_PROGRESS in s.capabilities <==> ActionUpdates in capabilities)
    case Terminal => s.phase.Incompatible?
  }

  lemma NamesKeepMembers(c: Capability, cs: seq<Capability>)
    ensures CapabilityName(c) in Supported(CapabilityNames(cs)) <==> c in cs
  {
    CapabilityNamesAreKnown(c);
    var names := CapabilityNames(cs);
    if c in cs {
      var i :| 0 <= i < |cs| && cs[i] == c;
      assert names[i] == CapabilityName(c);
    }
    if CapabilityName(c) in names {
      var i :| 0 <= i < |names| && names[i] == CapabilityName(c);
      NamesAreDistinct(cs[i], c);
    }
  }

  lemma NamesAreNegotiated(cs: seq<Capability>)
    ensures DISPLAY_SNAPSHOTS in CapabilityNames(cs) <==> DisplaySnapshots in cs
    ensures DISPLAY_SNAPSHOTS in Supported(CapabilityNames(cs)) <==> DisplaySnapshots in cs
    ensures ACTION_PROGRESS in Supported(CapabilityNames(cs)) <==> ActionUpdates in cs
  {
    NamesKeepMembers(DisplaySnapshots, cs);
    NamesKeepMembers(ActionUpdates, cs);
    CapabilityNamesAreKnown(DisplaySnapshots);
  }

  lemma GreetingIsRelated(s: State, m: Message, cs: seq<Capability>)
    requires m.Hello? && m.capabilities == CapabilityNames(cs)
    ensures Related(Open(cs), GreetStream(s, m))
  {
    NamesAreNegotiated(cs);
  }

  lemma HelloIsRelated(provider: Value -> bool, s: State, f: Frame)
    requires s.phase.AwaitingHello? && Suitable(f)
    ensures Related(Open(f.capabilities), Reduce(s, Received(provider, f)).state)
    ensures Reduce(s, Received(provider, f)).error == ""
  {
    var m := Received(provider, f);
    assert Reduce(s, m) == Accept(GreetStream(s, m), "hello", 0) by {
      NamesAreNegotiated(f.capabilities);
    }
    GreetingIsRelated(s, m, f.capabilities);
  }

  lemma OtherFramesStayRelated(provider: Value -> bool, g: GuardState, s: State, f: Frame)
    requires Related(g, s) && Guard(g, f).Some? && !f.HelloFrame?
    ensures Related(Guard(g, f).value, Reduce(s, Received(provider, f)).state)
    ensures Reduce(s, Received(provider, f)).error in CONTENT_ERRORS
  {
  }

  /** A frame the guard lets through keeps the two related and is rejected for its content at
      most, provided the hello is suitable. */
  lemma StepsStayRelated(provider: Value -> bool, g: GuardState, s: State, f: Frame)
    requires WellFormed(f) && Related(g, s) && Guard(g, f).Some?
    requires f.HelloFrame? ==> Suitable(f)
    ensures Related(Guard(g, f).value, ReduceMessage(provider, s, Wire(f)).state)
    ensures ReduceMessage(provider, s, Wire(f)).error in CONTENT_ERRORS
  {
    ParseOfWire(provider, f);
    if f.HelloFrame? {
      HelloIsRelated(provider, s, f);
    } else {
      OtherFramesStayRelated(provider, g, s, f);
    }
  }

  /** The two frames that only the client takes: a hello of a later version, and another error
      after the end. */
  predicate OnlyClientTakes(g: GuardState, f: Frame) {
    (g.Waiting? && f.HelloFrame? && f.protocol.major > PROTOCOL_MAJOR) || (g.Terminal? && f.ErrorFrame?)
  }

  /** Seen from related states, the guard refuses a frame exactly when the client rejects its place
      in the connection or is the only one to take it. */
  lemma GuardRefusesWhatClientRejects(provider: Value -> bool, g: GuardState, s: State, f: Frame)
    requires Related(g, s)
    ensures Guard(g, f).None? <==> Reduce(s, Received(provider, f)).error in ORDER_ERRORS || OnlyClientTakes(g, f)
    ensures OnlyClientTakes(g, f) ==> Reduce(s, Received(provider, f)).accepted
  {
  }

  // ----- whole connections -----

  /** The guard accepts every frame in turn. */
  ghost predicate LetsThrough(g: GuardState, frames: seq<Frame>)
    decreases |frames|
  {
    frames == [] || (Guard(g, frames[0]).Some? && LetsThrough(Guard(g, frames[0]).value, frames[1..]))
  }

  /** No frame is rejected for its shape, its place or a missing capability. */
  ghost predicate TakesAll(provider: Value -> bool, s: State, frames: seq<Frame>)
    decreases |frames|
  {
    frames == [] ||
    (var r := ReduceMessage(provider, s, Wire(frames[0]));
     r.error in CONTENT_ERRORS && TakesAll(provider, r.state, frames[1..]))
  }

  lemma {:induction false} RelatedRunsAreTaken(provider: Value -> bool, g: GuardState, s: State, frames: seq<Frame>)
    requires forall i :: 0 <= i < |frames| ==> WellFormed(frames[i])
    requires !g.Waiting? && Related(g, s) && LetsThrough(g, frames)
    ensures TakesAll(provider, s, frames)
    decreases |frames|
  {
    if frames != [] {
      StepsStayRelated(provider, g, s, frames[0]);
      var r := ReduceMessage(provider, s, Wire(frames[0]));
      RelatedRunsAreTaken(provider, Guard(g, frames[0]).value, r.state, frames[1..]);
    }
  }

  lemma ErrorIsTaken(provider: Value -> bool, s: State, f: Frame)
    requires WellFormed(f) && f.ErrorFrame?
    ensures ReduceMessage(provider, s, Wire(f)).error == ""
    ensures ReduceMessage(provider, s, Wire(f)).state.phase.Incompatible?
  {
    ParseOfWire(provider, f);
  }

  lemma UnsuitableHelloEndsClient(provider: Value -> bool, s: State, f: Frame)
    requires WellFormed(f) && f.HelloFrame? && !Suitable(f) && s.phase.AwaitingHello?
    ensures ReduceMessage(provider, s, Wire(f)).error == ""
    ensures ReduceMessage(provider, s, Wire(f)).state.phase.Incompatible?
  {
    ParseOfWire(provider, f);
    NamesAreNegotiated(f.capabilities);
  }

  lemma EndedClientTakesOnlyErrors(provider: Value -> bool, s: State, f: Frame)
    requires WellFormed(f) && s.phase.Incompatible? && !f.ErrorFrame?
    ensures ReduceMessage(provider, s, Wire(f)).error == "connection_incompatible"
  {
    ParseOfWire(provider, f);
  }

  lemma {:induction false} EndedRunIsTaken(provider: Value -> bool, s: State, frames: seq<Frame>)
    requires forall i :: 0 <= i < |frames| ==> WellFormed(frames[i])
    requires s.phase.Incompatible?
    ensures TakesAll(provider, s, frames) <==> forall i :: 0 <= i < |frames| ==> frames[i].ErrorFrame?
    decreases |frames|
  {
    if frames != [] {
      var r := ReduceMessage(provider, s, Wire(frames[0]));
      if frames[0].ErrorFrame? {
        ErrorIsTaken(provider, s, frames[0]);
        EndedRunIsTaken(provider, r.state, frames[1..]);
        assert (forall i :: 0 <= i < |frames| ==> frames[i].ErrorFrame?)
          <==> (forall i :: 0 <= i < |frames[1..]| ==> frames[1..][i].ErrorFrame?);
      } else {
        EndedClientTakesOnlyErrors(provider, s, frames[0]);
        assert "connection_incompatible" !in CONTENT_ERRORS;
      }
    }
  }

  /** Of a connection the guard lets through, from any state that awaits a hello, the client
      takes every frame exactly when the hello is of version 1 and offers display snapshots, or
      nothing but errors follows it. */
  lemma GuardedConnectionIsTaken(provider: Value -> bool, s: State, frames: seq<Frame>)
    requires forall i :: 0 <= i < |frames| ==> WellFormed(frames[i])
    requires s.phase.AwaitingHello? && LetsThrough(Waiting, frames)
    ensures TakesAll(provider, s, frames)
       <==> frames == [] || Suitable(frames[0]) || forall i :: 1 <= i < |frames| ==> frames[i].ErrorFrame?
  {
    if frames != [] {
      var f, rest := frames[0], frames[1..];
      var g, r := Guard(Waiting, f).value, ReduceMessage(provider, s, Wire(f));
      assert (forall i :: 1 <= i < |frames| ==> frames[i].ErrorFrame?)
        <==> (forall i :: 0 <= i < |rest| ==> rest[i].ErrorFrame?) by {
        assert forall i :: 0 <= i < |rest| ==> rest[i] == frames[i + 1];
        assert forall i :: 1 <= i < |frames| ==> frames[i] == rest[i - 1];
      }
      if f.ErrorFrame? {
        ErrorIsTaken(provider, s, f);
        EndedRunIsTaken(provider, r.state, rest);
        assert rest == [];
      } else if Suitable(f) {
        StepsStayRelated(provider, Waiting, s, f);
        RelatedRunsAreTaken(provider, g, r.state, rest);
      } else {
        UnsuitableHelloEndsClient(provider, s, f);
        EndedRunIsTaken(provider, r.state, rest);
      }
    }
  }

  /** After any hello the bridge lets through, a pong is taken exactly when the hello was suitable: one
      of version 0, and one of version 1 without display snapshots, stop the client. */
  lemma OnlySuitableHellosGoOn(provider: Value -> bool, s: State, hello: Frame, id: nat)
    requires s.phase.AwaitingHello? && hello.HelloFrame? && Guard(Waiting, hello).Some?
    requires WellFormed(hello) && WellFormed(PongFrame(id))
    ensures LetsThrough(Waiting, [hello, PongFrame(id)])
    ensures TakesAll(provider, s, [hello, PongFrame(id)]) <==> Suitable(hello)
  {
    var frames := [hello, PongFrame(id)];
    assert frames[1..] == [PongFrame(id)] && [PongFrame(id)][1..] == [];
    assert LetsThrough(Guard(Waiting, hello).value, frames[1..]);
    GuardedConnectionIsTaken(provider, s, frames);
    assert !frames[1].ErrorFrame?;
  }

  /** The bridge still lets version 0 through: such a connection stops at its first pong. */
  lemma OlderHelloStopsClient(provider: Value -> bool)
    ensures
      var hello := HelloFrame(Protocol(0, 0), "00000000000000000000000000000000", [DisplaySnapshots]);
      LetsThrough(Waiting, [hello, PongFrame(1)]) && !TakesAll(provider, INITIAL, [hello, PongFrame(1)])
  {
    var hello := HelloFrame(Protocol(0, 0), "00000000000000000000000000000000", [DisplaySnapshots]);
    var frames := [hello, PongFrame(1)];
    assert WellFormed(hello) && WellFormed(PongFrame(1));
    assert frames[1..] == [PongFrame(1)] && [PongFrame(1)][1..] == [];
    assert LetsThrough(Open([DisplaySnapshots]), frames[1..]);
    GuardedConnectionIsTaken(provider, INITIAL, frames);
    assert !frames[1].ErrorFrame?;
  }
}
