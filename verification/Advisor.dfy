/** Reset-redemption advice over several accounts (crates/domain/src/advisor.rs). */
module Advisor {
  import opened Results
  import opened Sorting
  import Text

  const CAPPED_USED_PERCENT := 99.5
  const MAX_ACCOUNTS := 8
  const MAX_NOTES := 8
  const NOTE_HORIZON_SECONDS := 14 * 24 * 60 * 60
  const NANOS_PER_SECOND := 1_000_000_000
  const I64_MAX := 0x7FFF_FFFF_FFFF_FFFF

  /** An instant in nanoseconds since the epoch, within the calendar years 0 to 9999 of RFC 3339. */
  type Timestamp = t: int | -62_167_219_200 * NANOS_PER_SECOND <= t < 253_402_300_800 * NANOS_PER_SECOND

  /** Whole seconds, rounded down. */
  function Seconds(t: Timestamp): (s: int)
    ensures s * NANOS_PER_SECOND <= t < (s + 1) * NANOS_PER_SECOND
    ensures s < I64_MAX
  {
    t / NANOS_PER_SECOND
  }

  datatype Account = Account(
    name: string,
    capped: bool,
    remaining: Option<real>,
    naturalReset: Option<Timestamp>,
    creditExpiries: seq<Option<Timestamp>>)

  datatype Action =
    | NotApplicable
    | Switch(account: string)
    | Redeem(account: string, creditExpiresAt: Option<Timestamp>, advancesBySeconds: Option<int>)
    | Wait(account: string, resetsAt: Timestamp, resetsInSeconds: int)
    | Blocked

  datatype Note = Note(account: string, expiresAt: Timestamp, expiresInSeconds: int)

  datatype Advice = Advice(primary: Action, alternatives: seq<Action>, expiring: seq<Note>)

  // ----- orders -----

  function Earlier(a: Option<Timestamp>, b: Option<Timestamp>): Option<Timestamp> {
    if a.None? then b else if b.None? || a.value <= b.value then a else b
  }

  /** The most perishable credit; credits without an expiry do not count. */
  function NextExpiry(expiries: seq<Option<Timestamp>>): Option<Timestamp> {
    if expiries == [] then None else Earlier(expiries[0], NextExpiry(expiries[1..]))
  }

  function SecondsOrMax(t: Option<Timestamp>): (s: int)
    ensures s <= I64_MAX
    ensures s == I64_MAX <==> t.None?
  {
    if t.Some? then Seconds(t.value) else I64_MAX
  }

  function CompareRemaining(a: Option<real>, b: Option<real>): Text.Ordering {
    match (a, b)
    case (None, None) => Text.Equal
    case (None, Some(_)) => Text.Less
    case (Some(_), None) => Text.Greater
    case (Some(x), Some(y)) => if x < y then Text.Less else if x == y then Text.Equal else Text.Greater
  }

  function SwitchOrder(a: Account, b: Account): Text.Ordering {
    CompareRemaining(a.remaining, b.remaining).Then(Text.Compare(a.name, b.name))
  }

  function LacksReserve(a: Account): int {
    if |a.creditExpiries| < 2 then 1 else 0
  }

  function RedeemOrder(a: Account, b: Account): Text.Ordering {
    Text.CompareInt(LacksReserve(a), LacksReserve(b))
      .Then(Text.CompareInt(SecondsOrMax(NextExpiry(a.creditExpiries)), SecondsOrMax(NextExpiry(b.creditExpiries))))
      .Then(Text.CompareInt(SecondsOrMax(a.naturalReset), SecondsOrMax(b.naturalReset)))
      .Then(Text.Compare(a.name, b.name))
  }

  function ResetOrder(a: (Account, Timestamp), b: (Account, Timestamp)): Text.Ordering {
    Text.CompareInt(a.1, b.1).Then(Text.Compare(a.0.name, b.0.name))
  }

  function NoteOrder(a: Note, b: Note): Text.Ordering {
    Text.CompareInt(a.expiresAt, b.expiresAt).Then(Text.Compare(a.account, b.account))
  }

  // ----- selections -----

  /** The first least element, as `min_by` picks it. */
  function FirstLeast<T>(order: (T, T) -> Text.Ordering, s: seq<T>): (m: T)
    requires s != []
    ensures m in s
  {
    if |s| == 1 then s[0]
    else
      var m := FirstLeast(order, s[..|s| - 1]);
      if order(m, s[|s| - 1]).Greater? then s[|s| - 1] else m
  }

  /** The last greatest element, as `max_by` picks it. */
  function LastGreatest<T>(order: (T, T) -> Text.Ordering, s: seq<T>): (m: T)
    requires s != []
    ensures m in s
  {
    if |s| == 1 then s[0]
    else
      var m := LastGreatest(order, s[..|s| - 1]);
      if order(m, s[|s| - 1]).Greater? then m else s[|s| - 1]
  }

  function Capped(accounts: seq<Account>): seq<Account> {
    Filter((a: Account) => a.capped, accounts)
  }

  function Headroom(accounts: seq<Account>): seq<Account> {
    Filter((a: Account) => !a.capped, accounts)
  }

  function Candidates(capped: seq<Account>): seq<Account> {
    Filter((a: Account) => a.creditExpiries != [], capped)
  }

  function ResetsLater(now: Timestamp): Account -> bool {
    (a: Account) => a.naturalReset.Some? && a.naturalReset.value > now
  }

  function FutureResets(capped: seq<Account>, now: Timestamp): seq<Account> {
    Filter(ResetsLater(now), capped)
  }

  function AsPairs(accounts: seq<Account>): (r: seq<(Account, Timestamp)>)
    requires forall a :: a in accounts ==> a.naturalReset.Some?
    ensures |r| == |accounts|
  {
    seq(|accounts|, i requires 0 <= i < |accounts| => (accounts[i], accounts[i].naturalReset.value))
  }

  function WaitFor(a: Account, resetsAt: Timestamp, now: Timestamp): Action {
    Wait(a.name, resetsAt, Seconds(resetsAt) - Seconds(now))
  }

  function WaitActions(capped: seq<Account>, now: Timestamp): seq<Action> {
    var later := FutureResets(capped, now);
    if later == [] then []
    else
      var soonest := FirstLeast(ResetOrder, AsPairs(later));
      [WaitFor(soonest.0, soonest.1, now)]
  }

  function NoteFor(name: string, expiresAt: Timestamp, now: Timestamp): Note {
    Note(name, expiresAt, Seconds(expiresAt) - Seconds(now))
  }

  function AccountNotes(name: string, expiries: seq<Option<Timestamp>>, now: Timestamp): (r: seq<Note>)
    ensures forall n :: n in r <==> n == NoteFor(name, n.expiresAt, now) && Some(n.expiresAt) in expiries
  {
    if expiries == [] then []
    else
      assert expiries == [expiries[0]] + expiries[1..];
      (if expiries[0].Some? then [NoteFor(name, expiries[0].value, now)] else [])
      + AccountNotes(name, expiries[1..], now)
  }

  function AllNotes(capped: seq<Account>, now: Timestamp): seq<Note> {
    if capped == [] then []
    else AccountNotes(capped[0].name, capped[0].creditExpiries, now) + AllNotes(capped[1..], now)
  }

  predicate InHorizon(n: Note) {
    0 < n.expiresInSeconds <= NOTE_HORIZON_SECONDS
  }

  predicate NoteAtMost(a: Note, b: Note) {
    !NoteOrder(a, b).Greater?
  }

  function PendingNotes(capped: seq<Account>, now: Timestamp): seq<Note> {
    Filter(InHorizon, AllNotes(capped, now))
  }

  function ExpiringNotes(capped: seq<Account>, now: Timestamp): seq<Note> {
    var sorted := Sort(NoteAtMost, PendingNotes(capped, now));
    if |sorted| > MAX_NOTES then sorted[..MAX_NOTES] else sorted
  }

  function RedeemAction(a: Account, now: Timestamp): Action {
    Redeem(a.name, NextExpiry(a.creditExpiries),
           if a.naturalReset.Some? then Some(Seconds(a.naturalReset.value) - Seconds(now)) else None)
  }

  function Evaluate(accounts: seq<Account>, now: Timestamp, active: bool): Option<Advice> {
    if |accounts| > MAX_ACCOUNTS then None
    else
      var capped := Capped(accounts);
      if capped == [] then Some(Advice(NotApplicable, [], []))
      else
        var expiring := ExpiringNotes(capped, now);
        var headroom := Headroom(accounts);
        if headroom != [] then
          Some(Advice(Switch(LastGreatest(SwitchOrder, headroom).name), [], expiring))
        else
          var waits := WaitActions(capped, now);
          var candidates := Candidates(capped);
          if candidates == [] then Some(Advice(Blocked, waits, expiring))
          else
            var redeem := RedeemAction(FirstLeast(RedeemOrder, candidates), now);
            if !active && waits != [] then Some(Advice(waits[0], [redeem], expiring))
            else Some(Advice(redeem, waits, expiring))
  }

  // ----- projecting a usage sample -----

  /** A main lane: its used percentage when known, and its reset time. */
  datatype Lane = Lane(used: Option<real>, resetsAt: Option<Timestamp>)

  predicate LaneCapped(l: Lane) {
    l.used.Some? && l.used.value >= CAPPED_USED_PERCENT
  }

  predicate LaneResetsLater(l: Lane, now: Timestamp) {
    LaneCapped(l) && l.resetsAt.Some? && l.resetsAt.value > now
  }

  /** Exhaustion of the main lanes: nothing to advise on unless some percentage is known;
      capped as soon as one lane is; the tightest remainder; the earliest future reset of a
      capped lane. */
  method ProjectLanes(lanes: seq<Lane>, now: Timestamp)
    returns (known: bool, capped: bool, remaining: Option<real>, naturalReset: Option<Timestamp>)
    ensures known <==> exists l :: l in lanes && l.used.Some?
    ensures capped <==> exists l :: l in lanes && LaneCapped(l)
    ensures remaining.Some? <==> known
    ensures known ==> exists l :: l in lanes && l.used.Some? && 100.0 - l.used.value == remaining.value
    ensures known ==> forall l :: l in lanes && l.used.Some? ==> remaining.value <= 100.0 - l.used.value
    ensures naturalReset.Some? <==> exists l :: l in lanes && LaneResetsLater(l, now)
    ensures naturalReset.Some? ==> exists l :: l in lanes && LaneResetsLater(l, now) && l.resetsAt == naturalReset
    ensures naturalReset.Some?
       ==> forall l :: l in lanes && LaneResetsLater(l, now) ==> naturalReset.value <= l.resetsAt.value
  {
    known, capped, remaining, naturalReset := false, false, None, None;
    for i := 0 to |lanes|
      invariant known <==> exists l :: l in lanes[..i] && l.used.Some?
      invariant capped <==> exists l :: l in lanes[..i] && LaneCapped(l)
      invariant remaining.Some? <==> known
      invariant known ==> exists l :: l in lanes[..i] && l.used.Some? && 100.0 - l.used.value == remaining.value
      invariant known ==> forall l :: l in lanes[..i] && l.used.Some? ==> remaining.value <= 100.0 - l.used.value
      invariant naturalReset.Some? <==> exists l :: l in lanes[..i] && LaneResetsLater(l, now)
      invariant naturalReset.Some?
         ==> exists l :: l in lanes[..i] && LaneResetsLater(l, now) && l.resetsAt == naturalReset
      invariant naturalReset.Some?
         ==> forall l :: l in lanes[..i] && LaneResetsLater(l, now) ==> naturalReset.value <= l.resetsAt.value
    {
      var lane := lanes[i];
      assert lanes[..i + 1] == lanes[..i] + [lane];
      assert lane in lanes[..i + 1];
      if lane.used.None? {
        continue;
      }
      known := true;
      var left := 100.0 - lane.used.value;
      remaining := if remaining.Some? && remaining.value <= left then remaining else Some(left);
      if lane.used.value >= CAPPED_USED_PERCENT {
        capped := true;
        if lane.resetsAt.Some? && lane.resetsAt.value > now {
          if naturalReset.None? || naturalReset.value > lane.resetsAt.value {
            naturalReset := lane.resetsAt;
          }
        }
      }
    }
    assert lanes[..|lanes|] == lanes;
  }

  /** A reset credit: whether its status is the available one, and when it expires. */
  datatype Credit = Credit(available: bool, expiresAt: Option<Timestamp>)

  predicate IsRedeemable(c: Credit, now: Timestamp) {
    c.available && (c.expiresAt.Some? ==> c.expiresAt.value > now)
  }

  /** The expiries of the redeemable credits, in the order of the inventory. */
  function RedeemableExpiries(credits: seq<Credit>, now: Timestamp): (expiries: seq<Option<Timestamp>>)
    ensures |expiries| <= |credits|
    ensures forall e :: e in expiries <==> exists c :: c in credits && IsRedeemable(c, now) && c.expiresAt == e
  {
    if credits == [] then []
    else
      assert credits == [credits[0]] + credits[1..];
      if IsRedeemable(credits[0], now) then [credits[0].expiresAt] + RedeemableExpiries(credits[1..], now)
      else RedeemableExpiries(credits[1..], now)
  }

  /** What the advisor reads of a usage sample; `lanes` are its main lanes. */
  datatype Sample = Sample(
    email: Option<string>,
    accountLabel: Option<string>,
    accountKey: string,
    lanes: seq<Lane>,
    credits: seq<Credit>)

  function SampleName(sample: Sample): string {
    if sample.email.Some? then sample.email.value
    else if sample.accountLabel.Some? then sample.accountLabel.value
    else sample.accountKey
  }

  predicate IsUsedUp(l: Lane) {
    l.used.Some? && l.used.value >= 99.5
  }

  predicate ComesBack(l: Lane, now: Timestamp) {
    IsUsedUp(l) && l.resetsAt.Some? && now < l.resetsAt.value
  }

  /** The exhaustion of the account is that of the lanes. */
  ghost predicate SumsUp(a: Account, lanes: seq<Lane>, now: Timestamp) {
    && (a.capped <==> exists l :: l in lanes && IsUsedUp(l))
    && a.remaining.Some?
    && (exists l :: l in lanes && l.used.Some? && 100.0 - l.used.value == a.remaining.value)
    && (forall l :: l in lanes && l.used.Some? ==> a.remaining.value <= 100.0 - l.used.value)
    && (a.naturalReset.Some? <==> exists l :: l in lanes && ComesBack(l, now))
    && (a.naturalReset.Some? ==>
          && (exists l :: l in lanes && ComesBack(l, now) && l.resetsAt == a.naturalReset)
          && (forall l :: l in lanes && ComesBack(l, now) ==> a.naturalReset.value <= l.resetsAt.value))
  }

  /** An account to advise on, unless no lane has a known percentage. */
  method FromSample(sample: Sample, now: Timestamp) returns (account: Option<Account>)
    ensures account.Some? <==> exists l :: l in sample.lanes && l.used.Some?
    ensures account.Some? ==> SumsUp(account.value, sample.lanes, now)
    ensures account.Some? ==> account.value.name == SampleName(sample)
    ensures account.Some? ==> account.value.creditExpiries == RedeemableExpiries(sample.credits, now)
  {
    var known, capped, remaining, naturalReset := ProjectLanes(sample.lanes, now);
    assert forall l :: l in sample.lanes ==> (LaneCapped(l) <==> IsUsedUp(l));
    assert forall l :: l in sample.lanes ==> (LaneResetsLater(l, now) <==> ComesBack(l, now));
    if !known {
      return None;
    }
    var expiries: seq<Option<Timestamp>> := [];
    for i := 0 to |sample.credits|
      invariant expiries + RedeemableExpiries(sample.credits[i..], now) == RedeemableExpiries(sample.credits, now)
    {
      var credit := sample.credits[i];
      assert sample.credits[i..][1..] == sample.credits[i + 1..];
      if IsRedeemable(credit, now) {
        expiries := expiries + [credit.expiresAt];
      }
    }
    account := Some(Account(SampleName(sample), capped, remaining, naturalReset, expiries));
  }
}
