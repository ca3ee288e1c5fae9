/** When the tray icon shows in place of a frontend (crates/ipc/src/frontend_presence.rs). */
module Presence {
  import opened Results

  const U64_MAX := 0xFFFF_FFFF_FFFF_FFFF
  const NANOS_PER_SECOND := 1_000_000_000
  const MAX_DURATION := (U64_MAX + 1) * NANOS_PER_SECOND - 1

  /** A duration in nanoseconds: 64-bit seconds and a fraction below one second. */
  type Duration = d: int | 0 <= d <= MAX_DURATION

  type ConnectionId = i: int | 1 <= i <= U64_MAX witness 1

  datatype Deadline = At(at: Duration) | BeyondRange

  datatype Fallback = Active | Suppressed | Waiting(deadline: Deadline)

  datatype Status = ShowTray | HideTray

  datatype Error = NonMonotonicTime(lastObserved: Duration, attempted: Duration) | IdSpaceExhausted

  datatype State = State(
    grace: Duration,
    observedAt: Duration,
    nextId: Option<ConnectionId>,
    open: set<ConnectionId>,
    fallback: Fallback)

  function AfterGrace(grace: Duration, now: Duration): Fallback {
    if grace == 0 then Active
    else if now + grace <= MAX_DURATION then Waiting(At(now + grace))
    else Waiting(BeyondRange)
  }

  function New(grace: Duration, startedAt: Duration): State {
    State(grace, startedAt, Some(1), {}, AfterGrace(grace, startedAt))
  }

  function Observe(s: State, now: Duration): Result<State, Error> {
    if now < s.observedAt then Err(NonMonotonicTime(s.observedAt, now))
    else
      var t := s.(observedAt := now);
      if s.fallback.Waiting? && s.fallback.deadline.At? && now >= s.fallback.deadline.at
      then Ok(t.(fallback := Active)) else Ok(t)
  }

  datatype Call =
    | ConnectAt(now: Duration, compatible: bool)
    | DisconnectAt(now: Duration, id: ConnectionId)
    | AdvanceTo(now: Duration)

  /** The state after an accepted call; an exhausted id space is noticed before the clock. */
  function Apply(s: State, call: Call): Result<State, Error> {
    if call.ConnectAt? && s.nextId.None? then Err(IdSpaceExhausted)
    else
      match Observe(s, call.now)
      case Err(e) => Err(e)
      case Ok(t) =>
        match call
        case ConnectAt(now, compatible) =>
          var id := s.nextId.value;
          var u := t.(nextId := if id < U64_MAX then Some(id + 1) else None);
          Ok(if compatible then u.(open := u.open + {id}, fallback := Suppressed) else u)
        case DisconnectAt(now, id) =>
          var u := t.(open := t.open - {id});
          Ok(if id in t.open && u.open == {} then u.(fallback := AfterGrace(s.grace, now)) else u)
        case AdvanceTo(now) => Ok(t)
  }

  function StatusOf(s: State): Status {
    if s.fallback.Active? then ShowTray else HideTray
  }

  /** The policy object. `log` records the accepted calls, newest last. */
  class FrontendPresence {
    const grace: Duration
    ghost const startedAt: Duration
    var observedAt: Duration
    var nextId: Option<ConnectionId>
    var open: set<ConnectionId>
    var fallback: Fallback
    ghost var log: seq<Call>

    ghost function Snapshot(): State
      reads this
    {
      State(grace, observedAt, nextId, open, fallback)
    }

    ghost predicate Valid()
      reads this
    {
      Run(New(grace, startedAt), log) == Ok(Snapshot())
    }

    constructor (grace: Duration, startedAt: Duration)
      ensures Valid() && log == [] && this.grace == grace && this.startedAt == startedAt
    {
      this.grace := grace;
      this.startedAt := startedAt;
      observedAt := startedAt;
      nextId := Some(1);
      open := {};
      fallback := AfterGrace(grace, startedAt);
      log := [];
    }

    method ObserveNow(now: Duration) returns (r: Option<Error>)
      modifies this`observedAt, this`fallback
      ensures r.None? ==> Observe(old(Snapshot()), now) == Ok(Snapshot())
      ensures r.Some? ==> Observe(old(Snapshot()), now) == Err(r.value) && Snapshot() == old(Snapshot())
    {
      if now < observedAt {
        return Some(NonMonotonicTime(observedAt, now));
      }
      observedAt := now;
      if fallback.Waiting? && fallback.deadline.At? && now >= fallback.deadline.at {
        fallback := Active;
      }
      r := None;
    }

    method Connect(now: Duration, compatible: bool) returns (r: Result<ConnectionId, Error>)
      requires Valid()
      modifies this
      ensures Valid()
      ensures r.Ok? ==> log == old(log) + [ConnectAt(now, compatible)] && old(nextId) == Some(r.value)
      ensures r.Err? ==> Snapshot() == old(Snapshot()) && log == old(log)
      ensures r.Err? <==> old(nextId).None? || now < old(observedAt)
    {
      if nextId.None? {
        return Err(IdSpaceExhausted);
      }
      var id := nextId.value;
      ghost var before := Snapshot();
      var failure := ObserveNow(now);
      if failure.Some? {
        return Err(failure.value);
      }
      nextId := if id < U64_MAX then Some(id + 1) else None;
      if compatible {
        open := open + {id};
        fallback := Suppressed;
      }
      RunOneMore(New(grace, startedAt), log, ConnectAt(now, compatible));
      log := log + [ConnectAt(now, compatible)];
      r := Ok(id);
    }

    method Disconnect(now: Duration, id: ConnectionId) returns (r: Option<Error>)
      requires Valid()
      modifies this
      ensures Valid()
      ensures r.None? ==> log == old(log) + [DisconnectAt(now, id)]
      ensures r.Some? ==> Snapshot() == old(Snapshot()) && log == old(log)
      ensures r.Some? <==> now < old(observedAt)
    {
      r := ObserveNow(now);
      if r.Some? {
        return;
      }
      var removed := id in open;
      open := open - {id};
      if removed && open == {} {
        fallback := AfterGrace(grace, now);
      }
      RunOneMore(New(grace, startedAt), log, DisconnectAt(now, id));
      log := log + [DisconnectAt(now, id)];
    }

    method Advance(now: Duration) returns (r: Result<Status, Error>)
      requires Valid()
      modifies this
      ensures Valid()
      ensures r.Ok? ==> log == old(log) + [AdvanceTo(now)] && r.value == StatusOf(Snapshot())
      ensures r.Err? ==> Snapshot() == old(Snapshot()) && log == old(log)
      ensures r.Err? <==> now < old(observedAt)
    {
      var failure := ObserveNow(now);
      if failure.Some? {
        return Err(failure.value);
      }
      RunOneMore(New(grace, startedAt), log, AdvanceTo(now));
      log := log + [AdvanceTo(now)];
      var status := CurrentStatus();
      r := Ok(status);
    }

    /** The tray shows exactly when no compatible connection is open and the grace period has
        fully passed since the start or since the last one closed. */
    method CurrentStatus() returns (r: Status)
      requires Valid()
      ensures r == StatusOf(Snapshot())
      ensures r.ShowTray? <==> OpenAfter(log) == {} && LastTime(startedAt, log) >= IdleSince(startedAt, log) + grace
    {
      StatusFollowsHistory(grace, startedAt, log);
      r := if fallback.Active? then ShowTray else HideTray;
    }

    /** Waiting until the deadline shows the tray, and any earlier time does not. */
    method NextDeadline() returns (r: Option<Duration>)
      requires Valid()
      ensures r.Some? ==> forall now: Duration :: observedAt <= now ==>
                (StatusOf(Observe(Snapshot(), now).value).ShowTray? <==> now >= r.value)
      ensures r.None? ==> forall now: Duration :: observedAt <= now ==>
                StatusOf(Observe(Snapshot(), now).value) == StatusOf(Snapshot())
    {
      r := if fallback.Waiting? && fallback.deadline.At? then Some(fallback.deadline.at) else None;
      StatusFollowsHistory(grace, startedAt, log);
    }
  }

  // ----- histories -----

  /** The state after a history of calls that were all accepted. */
  function Run(s: State, log: seq<Call>): Result<State, Error> {
    if log == [] then Ok(s)
    else
      match Run(s, log[..|log| - 1])
      case Err(e) => Err(e)
      case Ok(t) => Apply(t, log[|log| - 1])
  }

  lemma RunOneMore(s: State, log: seq<Call>, call: Call)
    requires Run(s, log).Ok?
    ensures Run(s, log + [call]) == Apply(Run(s, log).value, call)
  {
    assert (log + [call])[..|log|] == log;
  }

  /** How many connections a history made; the n-th one is known by the number n. */
  function Connects(log: seq<Call>): nat {
    if log == [] then 0
    else Connects(log[..|log| - 1]) + if log[|log| - 1].ConnectAt? then 1 else 0
  }

  /** The compatible connections a history opened and did not close. */
  function OpenAfter(log: seq<Call>): set<int> {
    if log == [] then {}
    else
      var before := OpenAfter(log[..|log| - 1]);
      match log[|log| - 1]
      case ConnectAt(_, compatible) => if compatible then before + {Connects(log)} else before
      case DisconnectAt(_, id) => before - {id}
      case AdvanceTo(_) => before
  }

  function LastTime(startedAt: Duration, log: seq<Call>): Duration {
    if log == [] then startedAt else log[|log| - 1].now
  }

  /** When the last compatible connection closed, or the start if none has. */
  function IdleSince(startedAt: Duration, log: seq<Call>): Duration {
    if log == [] then startedAt
    else
      var front, last := log[..|log| - 1], log[|log| - 1];
      if last.DisconnectAt? && last.id in OpenAfter(front) && OpenAfter(log) == {} then last.now
      else IdleSince(startedAt, front)
  }

  ghost predicate Explained(s: State, grace: Duration, startedAt: Duration, log: seq<Call>) {
    && s.grace == grace
    && s.observedAt == LastTime(startedAt, log)
    && (if Connects(log) < U64_MAX then s.nextId == Some(Connects(log) + 1) else s.nextId.None?)
    && Connects(log) <= U64_MAX
    && s.open == OpenAfter(log)
    && IdleSince(startedAt, log) <= s.observedAt
    && (s.fallback.Suppressed? <==> s.open != {})
    && (s.fallback.Active? <==> s.open == {} && s.observedAt >= IdleSince(startedAt, log) + grace)
    && (s.fallback.Waiting? ==> s.fallback == AfterGrace(grace, IdleSince(startedAt, log)))
  }

  /** In every reachable state the status follows from the history alone, also when the
      deadline is too far away to be represented. */
  lemma {:induction false} StatusFollowsHistory(grace: Duration, startedAt: Duration, log: seq<Call>)
    requires Run(New(grace, startedAt), log).Ok?
    ensures Explained(Run(New(grace, startedAt), log).value, grace, startedAt, log)
  {
    if log != [] {
      var front, last := log[..|log| - 1], log[|log| - 1];
      StatusFollowsHistory(grace, startedAt, front);
      var s, t := Run(New(grace, startedAt), front).value, Run(New(grace, startedAt), log).value;
      assert Apply(s, last) == Ok(t);
    }
  }

  lemma RefusedOnlyFor(s: State, call: Call)
    ensures Apply(s, call).Err? <==> call.now < s.observedAt || (call.ConnectAt? && s.nextId.None?)
  {
  }

  /** No call is earlier than the one before it or than the start. */
  predicate InTimeOrder(startedAt: Duration, log: seq<Call>) {
    log == [] ||
    (InTimeOrder(startedAt, log[..|log| - 1]) && LastTime(startedAt, log[..|log| - 1]) <= log[|log| - 1].now)
  }

  /** A sequence of calls is accepted exactly when time does not run backwards in it and it does not
      connect more often than there are ids. */
  lemma {:induction false} AcceptedHistories(grace: Duration, startedAt: Duration, log: seq<Call>)
    ensures Run(New(grace, startedAt), log).Ok? <==> InTimeOrder(startedAt, log) && Connects(log) <= U64_MAX
  {
    if log != [] {
      var front, last := log[..|log| - 1], log[|log| - 1];
      AcceptedHistories(grace, startedAt, front);
      if Run(New(grace, startedAt), front).Ok? {
        StatusFollowsHistory(grace, startedAt, front);
        RefusedOnlyFor(Run(New(grace, startedAt), front).value, last);
      }
    }
  }

  lemma {:induction false} ConnectsGrow(log: seq<Call>, i: nat, j: nat)
    requires i <= j <= |log|
    ensures Connects(log[..i]) <= Connects(log[..j])
    ensures i < j && log[j - 1].ConnectAt? ==> Connects(log[..i]) < Connects(log[..j])
    decreases j
  {
    if i < j {
      assert log[..j][..j - 1] == log[..j - 1];
      ConnectsGrow(log, i, j - 1);
    }
  }

  lemma {:induction false} RunPrefix(s: State, log: seq<Call>, i: nat)
    requires Run(s, log).Ok? && i <= |log|
    ensures Run(s, log[..i]).Ok?
    decreases |log|
  {
    if i < |log| {
      assert log[..|log| - 1][..i] == log[..i];
      RunPrefix(s, log[..|log| - 1], i);
    } else {
      assert log[..i] == log;
    }
  }

  /** The id the `i`-th accepted call hands out, if it is a connection. */
  function IssuedId(grace: Duration, startedAt: Duration, log: seq<Call>, i: nat): Option<ConnectionId>
    requires i < |log| && Run(New(grace, startedAt), log).Ok?
  {
    RunPrefix(New(grace, startedAt), log, i);
    if log[i].ConnectAt? then Run(New(grace, startedAt), log[..i]).value.nextId else None
  }

  /** The n-th connection of a history receives the id n. */
  lemma IssuedInOrder(grace: Duration, startedAt: Duration, log: seq<Call>, i: nat)
    requires Run(New(grace, startedAt), log).Ok? && i < |log| && log[i].ConnectAt?
    ensures IssuedId(grace, startedAt, log, i).Some?
    ensures IssuedId(grace, startedAt, log, i).value == Connects(log[..i]) + 1
  {
    var start := New(grace, startedAt);
    RunPrefix(start, log, i);
    RunPrefix(start, log, i + 1);
    StatusFollowsHistory(grace, startedAt, log[..i]);
    assert log[..i + 1][..i] == log[..i];
  }

  /** Over any history, every connection receives an id and no two receive the same. */
  lemma IdsNeverRepeat(grace: Duration, startedAt: Duration, log: seq<Call>, i: nat, j: nat)
    requires Run(New(grace, startedAt), log).Ok?
    requires i < j < |log| && log[i].ConnectAt? && log[j].ConnectAt?
    ensures IssuedId(grace, startedAt, log, i).Some? && IssuedId(grace, startedAt, log, j).Some?
    ensures IssuedId(grace, startedAt, log, i) != IssuedId(grace, startedAt, log, j)
  {
    IssuedInOrder(grace, startedAt, log, i);
    IssuedInOrder(grace, startedAt, log, j);
    ConnectsGrow(log, i, i + 1);
    ConnectsGrow(log, i + 1, j);
  }
}
