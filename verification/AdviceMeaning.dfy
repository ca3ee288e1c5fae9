/** What an advice says, read off the fields of the accounts: who is named, with which times, and
    which credits are noted. */
module AdviceMeaning {
  import opened Results
  import opened Sorting
  import opened Advisor
  import opened AdviceProperties
  import Text

  // ----- times and names -----

  /** In whole seconds since the epoch `s` is before `t`; no time at all comes last. */
  predicate Sooner(s: Option<Timestamp>, t: Option<Timestamp>) {
    s.Some? && (t.None? || s.value / 1_000_000_000 < t.value / 1_000_000_000)
  }

  predicate SameSecond(s: Option<Timestamp>, t: Option<Timestamp>) {
    !Sooner(s, t) && !Sooner(t, s)
  }

  ghost predicate NamedFirst(a: Account, b: Account) {
    a.name == b.name || Text.Precedes(a.name, b.name)
  }

  function SecondsUntil(t: Timestamp, now: Timestamp): int {
    t / 1_000_000_000 - now / 1_000_000_000
  }

  // ----- switching -----

  /** An account without a known remainder counts below all others. */
  predicate HasNoMore(b: Account, a: Account) {
    b.remaining.None? || (a.remaining.Some? && b.remaining.value <= a.remaining.value)
  }

  /** No other uncapped account has more left, and of those with as much `a` is named last. */
  ghost predicate HasMostLeft(a: Account, accounts: seq<Account>) {
    && a in accounts && !a.capped
    && forall b :: b in accounts && !b.capped ==>
         HasNoMore(b, a) && (HasNoMore(a, b) ==> NamedFirst(b, a))
  }

  // ----- redeeming -----

  /** The earliest of the times, if there is one. */
  predicate IsEarliest(t: Option<Timestamp>, times: seq<Option<Timestamp>>) {
    if t.None? then forall e :: e in times ==> e.None?
    else t in times && forall e :: e in times && e.Some? ==> t.value <= e.value
  }

  predicate KeepsReserve(a: Account) {
    |a.creditExpiries| >= 2
  }

  /** Spending a credit of `a`, the earliest of which expires at `s`, is no worse than one of `b`: a
      second credit left over decides, then the earlier expiry, the earlier reset, and the name. */
  ghost predicate SpendsFirst(a: Account, s: Option<Timestamp>, b: Account, t: Option<Timestamp>) {
    || (KeepsReserve(a) && !KeepsReserve(b))
    || ((KeepsReserve(a) <==> KeepsReserve(b))
        && (Sooner(s, t)
            || (SameSecond(s, t)
                && (Sooner(a.naturalReset, b.naturalReset)
                    || (SameSecond(a.naturalReset, b.naturalReset) && NamedFirst(a, b))))))
  }

  ghost predicate IsToSpend(a: Account, s: Option<Timestamp>, accounts: seq<Account>) {
    && a in accounts && a.creditExpiries != [] && IsEarliest(s, a.creditExpiries)
    && forall b, t :: b in accounts && b.creditExpiries != [] && IsEarliest(t, b.creditExpiries) ==>
         SpendsFirst(a, s, b, t)
  }

  ghost predicate SaysRedeem(action: Action, a: Account, s: Option<Timestamp>, now: Timestamp) {
    action == Redeem(a.name, s, if a.naturalReset.Some? then Some(SecondsUntil(a.naturalReset.value, now)) else None)
  }

  // ----- waiting -----

  predicate ResetsAfter(a: Account, now: Timestamp) {
    a.naturalReset.Some? && now < a.naturalReset.value
  }

  /** No other future reset is earlier, and of those at the same instant `a` is named first. */
  ghost predicate ResetsFirst(a: Account, accounts: seq<Account>, now: Timestamp) {
    && a in accounts && ResetsAfter(a, now)
    && forall b :: b in accounts && ResetsAfter(b, now) ==>
         || a.naturalReset.value < b.naturalReset.value
         || (a.naturalReset.value == b.naturalReset.value && NamedFirst(a, b))
  }

  /** The wait, if any account resets later, is for the first one that does. */
  ghost predicate SaysWait(waits: seq<Action>, accounts: seq<Account>, now: Timestamp) {
    if forall a :: a in accounts ==> !ResetsAfter(a, now) then waits == []
    else exists a :: ResetsFirst(a, accounts, now)
           && waits == [Wait(a.name, a.naturalReset.value, SecondsUntil(a.naturalReset.value, now))]
  }

  // ----- notes -----

  /** How many credits of capped accounts of that name expire then, if that is within 14 days. */
  ghost function CreditsNoted(n: Note, accounts: seq<Account>, now: Timestamp): nat {
    if accounts == [] then 0
    else
      CreditsNoted(n, accounts[1..], now)
      + if accounts[0].capped && accounts[0].name == n.account && n.expiresInSeconds == SecondsUntil(n.expiresAt, now)
           && 0 < n.expiresInSeconds <= 14 * 24 * 60 * 60
        then multiset(accounts[0].creditExpiries)[Some(n.expiresAt)] else 0
  }

  /** By expiry, then by name. */
  ghost predicate InOrder(notes: seq<Note>) {
    forall i, j :: 0 <= i < j < |notes| ==>
      || notes[i].expiresAt < notes[j].expiresAt
      || (notes[i].expiresAt == notes[j].expiresAt
          && (notes[i].account == notes[j].account || Text.Precedes(notes[i].account, notes[j].account)))
  }

  /** The first eight of all credits that expire soon, in order. */
  ghost predicate SaysNotes(notes: seq<Note>, accounts: seq<Account>, now: Timestamp) {
    exists all: seq<Note> ::
      && InOrder(all) && (forall n :: multiset(all)[n] == CreditsNoted(n, accounts, now))
      && notes == if |all| <= 8 then all else all[..8]
  }

  // ----- the advice -----

  /** With all accounts capped: redeem, wait, or neither; whoever is active redeems first. */
  ghost predicate SaysCapped(advice: Advice, accounts: seq<Account>, now: Timestamp, active: bool) {
    if forall a :: a in accounts ==> a.creditExpiries == [] then
      advice.primary == Blocked && SaysWait(advice.alternatives, accounts, now)
    else
      exists redeem, waits ::
        && SaysSpend(redeem, accounts, now) && SaysWait(waits, accounts, now)
        && InTurn(advice, redeem, waits, active)
  }

  ghost predicate SaysSpend(redeem: Action, accounts: seq<Account>, now: Timestamp) {
    exists a, s :: IsToSpend(a, s, accounts) && SaysRedeem(redeem, a, s, now)
  }

  predicate InTurn(advice: Advice, redeem: Action, waits: seq<Action>, active: bool) {
    if active || waits == [] then advice.primary == redeem && advice.alternatives == waits
    else [advice.primary] == waits && advice.alternatives == [redeem]
  }

  ghost predicate SaysSwitch(advice: Advice, accounts: seq<Account>) {
    exists a :: HasMostLeft(a, accounts) && advice.primary == Switch(a.name) && advice.alternatives == []
  }

  ghost predicate Says(advice: Advice, accounts: seq<Account>, now: Timestamp, active: bool) {
    if forall a :: a in accounts ==> !a.capped then advice == Advice(NotApplicable, [], [])
    else
      && SaysNotes(advice.expiring, accounts, now)
      && (if exists a :: a in accounts && !a.capped then
            SaysSwitch(advice, accounts)
          else SaysCapped(advice, accounts, now, active))
  }

  // ----- the orders say so -----

  lemma SwitchOrderSays(b: Account, a: Account)
    ensures !SwitchOrder(b, a).Greater? <==> HasNoMore(b, a) && (HasNoMore(a, b) ==> NamedFirst(b, a))
  {
    Text.AtMostIsPrecedes(b.name, a.name);
  }

  lemma {:induction false} NextExpiryIsEarliest(times: seq<Option<Timestamp>>)
    ensures IsEarliest(NextExpiry(times), times)
  {
    if times != [] {
      NextExpiryIsEarliest(times[1..]);
      assert times == [times[0]] + times[1..];
    }
  }

  lemma EarliestIsUnique(s: Option<Timestamp>, t: Option<Timestamp>, times: seq<Option<Timestamp>>)
    requires IsEarliest(s, times) && IsEarliest(t, times)
    ensures s == t
  {
  }

  lemma SecondsOrder(s: Option<Timestamp>, t: Option<Timestamp>)
    ensures SecondsOrMax(s) < SecondsOrMax(t) <==> Sooner(s, t)
    ensures SecondsOrMax(s) == SecondsOrMax(t) <==> SameSecond(s, t)
  {
  }

  lemma RedeemOrderSays(a: Account, b: Account)
    ensures !RedeemOrder(a, b).Greater?
       <==> SpendsFirst(a, NextExpiry(a.creditExpiries), b, NextExpiry(b.creditExpiries))
  {
    Text.AtMostIsPrecedes(a.name, b.name);
    SecondsOrder(NextExpiry(a.creditExpiries), NextExpiry(b.creditExpiries));
    SecondsOrder(NextExpiry(b.creditExpiries), NextExpiry(a.creditExpiries));
    SecondsOrder(a.naturalReset, b.naturalReset);
    SecondsOrder(b.naturalReset, a.naturalReset);
  }

  lemma SwitchSays(accounts: seq<Account>, a: Account)
    requires IsSwitchTarget(a, accounts)
    ensures HasMostLeft(a, accounts)
  {
    forall b | b in accounts && !b.capped ensures HasNoMore(b, a) && (HasNoMore(a, b) ==> NamedFirst(b, a)) {
      assert b in Headroom(accounts);
      SwitchOrderSays(b, a);
    }
  }

  lemma RedeemSays(accounts: seq<Account>, a: Account)
    requires IsRedeemTarget(a, accounts)
    ensures IsToSpend(a, NextExpiry(a.creditExpiries), accounts)
  {
    NextExpiryIsEarliest(a.creditExpiries);
    forall b, t | b in accounts && b.creditExpiries != [] && IsEarliest(t, b.creditExpiries)
      ensures SpendsFirst(a, NextExpiry(a.creditExpiries), b, t)
    {
      assert b in Candidates(accounts);
      NextExpiryIsEarliest(b.creditExpiries);
      EarliestIsUnique(t, NextExpiry(b.creditExpiries), b.creditExpiries);
      RedeemOrderSays(a, b);
    }
  }

  lemma SoonestSays(accounts: seq<Account>, a: Account, now: Timestamp)
    requires IsSoonest(a, accounts, now)
    ensures ResetsFirst(a, accounts, now)
  {
    forall b | b in accounts && ResetsAfter(b, now)
      ensures a.naturalReset.value < b.naturalReset.value
           || (a.naturalReset.value == b.naturalReset.value && NamedFirst(a, b))
    {
      assert ResetsLater(now)(b);
      Text.AtMostIsPrecedes(a.name, b.name);
    }
  }

  lemma OneWaitSays(accounts: seq<Account>, a: Account, now: Timestamp)
    requires ResetsFirst(a, accounts, now)
    ensures SaysWait([WaitFor(a, a.naturalReset.value, now)], accounts, now)
  {
    assert a in accounts && ResetsAfter(a, now);
    assert WaitFor(a, a.naturalReset.value, now).resetsInSeconds == SecondsUntil(a.naturalReset.value, now);
  }

  lemma WaitSays(accounts: seq<Account>, waits: seq<Action>, now: Timestamp)
    requires IsWait(waits, accounts, now)
    ensures SaysWait(waits, accounts, now)
  {
    if waits == [] {
      forall a | a in accounts ensures !ResetsAfter(a, now) {
        assert !ResetsLater(now)(a);
      }
    } else {
      var a :| IsSoonest(a, accounts, now) && waits == [WaitFor(a, a.naturalReset.value, now)];
      SoonestSays(accounts, a, now);
      OneWaitSays(accounts, a, now);
    }
  }

  // ----- the notes say so -----

  lemma NoteOrderSays(x: Note, y: Note)
    ensures NoteAtMost(x, y)
       <==> x.expiresAt < y.expiresAt
            || (x.expiresAt == y.expiresAt && (x.account == y.account || Text.Precedes(x.account, y.account)))
  {
    Text.AtMostIsPrecedes(x.account, y.account);
  }

  lemma {:induction false} AccountNotesCount(name: string, expiries: seq<Option<Timestamp>>, now: Timestamp, n: Note)
    ensures multiset(AccountNotes(name, expiries, now))[n]
         == if n == NoteFor(name, n.expiresAt, now) then multiset(expiries)[Some(n.expiresAt)] else 0
  {
    if expiries != [] {
      AccountNotesCount(name, expiries[1..], now, n);
      assert expiries == [expiries[0]] + expiries[1..];
      var here := if expiries[0].Some? then [NoteFor(name, expiries[0].value, now)] else [];
      assert AccountNotes(name, expiries, now) == here + AccountNotes(name, expiries[1..], now);
      assert multiset(expiries) == multiset{expiries[0]} + multiset(expiries[1..]);
    }
  }

  lemma {:induction false} NotesCount(accounts: seq<Account>, now: Timestamp, n: Note)
    ensures CreditsNoted(n, accounts, now)
         == if InHorizon(n) then multiset(AllNotes(Capped(accounts), now))[n] else 0
  {
    if accounts != [] {
      var a, rest := accounts[0], accounts[1..];
      NotesCount(rest, now, n);
      AccountNotesCount(a.name, a.creditExpiries, now, n);
      if a.capped {
        assert Capped(accounts) == [a] + Capped(rest);
        assert ([a] + Capped(rest))[1..] == Capped(rest);
      } else {
        assert Capped(accounts) == Capped(rest);
      }
    }
  }

  lemma NotesSay(accounts: seq<Account>, now: Timestamp)
    ensures SaysNotes(ExpiringNotes(Capped(accounts), now), accounts, now)
  {
    var capped := Capped(accounts);
    var pending := PendingNotes(capped, now);
    var all := Sort(NoteAtMost, pending);
    PendingNotesOrdered(capped, now);
    SortSorts(NoteAtMost, pending);
    forall i, j | 0 <= i < j < |all|
      ensures all[i].expiresAt < all[j].expiresAt
           || (all[i].expiresAt == all[j].expiresAt
               && (all[i].account == all[j].account || Text.Precedes(all[i].account, all[j].account)))
    {
      NoteOrderSays(all[i], all[j]);
    }
    FilterBag(InHorizon, AllNotes(capped, now));
    forall n ensures multiset(all)[n] == CreditsNoted(n, accounts, now) {
      NotesCount(accounts, now, n);
    }
    assert InOrder(all);
  }

  // ----- the main statement -----

  lemma AllCapped(accounts: seq<Account>)
    requires forall a :: a in accounts ==> a.capped
    ensures Capped(accounts) == accounts && Headroom(accounts) == []
  {
    NoMembers(Headroom(accounts));
    NoHeadroomAllCapped(accounts);
  }

  lemma SpendSays(accounts: seq<Account>, a: Account, now: Timestamp)
    requires IsRedeemTarget(a, accounts)
    ensures SaysSpend(RedeemAction(a, now), accounts, now)
  {
    RedeemSays(accounts, a);
    assert SaysRedeem(RedeemAction(a, now), a, NextExpiry(a.creditExpiries), now);
  }

  lemma WaitIsOne(waits: seq<Action>, accounts: seq<Account>, now: Timestamp)
    requires IsWait(waits, accounts, now) && waits != []
    ensures waits == [waits[0]]
  {
  }

  lemma CappedSays(accounts: seq<Account>, now: Timestamp, active: bool, advice: Advice)
    requires accounts != [] && IsCappedAdvice(advice, accounts, now, active)
    ensures SaysCapped(advice, accounts, now, active)
  {
    if Candidates(accounts) == [] {
      forall a | a in accounts ensures a.creditExpiries == [] {
        assert a !in Candidates(accounts);
      }
      WaitSays(accounts, advice.alternatives, now);
    } else {
      assert Candidates(accounts)[0] in accounts && Candidates(accounts)[0].creditExpiries != [];
      var a, waits :| IsRedeemTarget(a, accounts) && IsWait(waits, accounts, now)
        && Ranked(advice, RedeemAction(a, now), waits, active);
      SpendSays(accounts, a, now);
      WaitSays(accounts, waits, now);
      if waits != [] {
        WaitIsOne(waits, accounts, now);
      }
      assert InTurn(advice, RedeemAction(a, now), waits, active);
    }
  }

  lemma SwitchAdviceSays(accounts: seq<Account>, advice: Advice)
    requires IsSwitchAdvice(advice, accounts)
    ensures SaysSwitch(advice, accounts)
  {
    var best :| IsSwitchTarget(best, accounts) && advice.primary == Switch(best.name) && advice.alternatives == [];
    SwitchSays(accounts, best);
  }

  lemma BestSays(accounts: seq<Account>, now: Timestamp, active: bool, advice: Advice)
    requires IsBest(advice, accounts, now, active) && advice.expiring == ExpiringNotes(Capped(accounts), now)
    requires exists a :: a in accounts && a.capped
    ensures Says(advice, accounts, now, active)
  {
    var a :| a in accounts && a.capped;
    assert a in Capped(accounts);
    NotesSay(accounts, now);
    if b :| b in accounts && !b.capped {
      assert b in Headroom(accounts);
      SwitchAdviceSays(accounts, advice);
    } else {
      AllCapped(accounts);
      CappedSays(accounts, now, active, advice);
    }
  }

  lemma NoneCapped(accounts: seq<Account>)
    requires forall a :: a in accounts ==> !a.capped
    ensures Capped(accounts) == []
  {
    NoMembers(Capped(accounts));
  }

  /** An advice is given for at most eight accounts, and it says what their fields make of it. */
  lemma EvaluateSays(accounts: seq<Account>, now: Timestamp, active: bool)
    ensures Evaluate(accounts, now, active).Some? <==> |accounts| <= 8
    ensures |accounts| <= 8 ==> Says(Evaluate(accounts, now, active).value, accounts, now, active)
  {
    if |accounts| <= 8 {
      if a :| a in accounts && a.capped {
        assert a in Capped(accounts);
        EvaluateIsBest(accounts, now, active);
        BestSays(accounts, now, active, Evaluate(accounts, now, active).value);
      } else {
        NoneCapped(accounts);
      }
    }
  }
}
