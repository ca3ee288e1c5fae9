/** What the advice promises: the best choice of every kind, whatever the order of the accounts. */
module AdviceProperties {
  import opened Results
  import opened Sorting
  import opened Advisor
  import Text

  // ----- selections are optimal -----

  /** `order` compares consistently on `s`: it flips, and chains of "at most" compose. */
  ghost predicate Consistent<T(!new)>(order: (T, T) -> Text.Ordering, s: seq<T>) {
    && (forall x, y :: x in s && y in s ==> order(y, x) == order(x, y).Flip())
    && (forall x, y, z :: x in s && y in s && z in s && !order(x, y).Greater? && !order(y, z).Greater? ==>
          !order(x, z).Greater?)
  }

  ghost predicate Least<T(!new)>(order: (T, T) -> Text.Ordering, m: T, s: seq<T>) {
    m in s && forall x :: x in s ==> !order(m, x).Greater?
  }

  ghost predicate Greatest<T(!new)>(order: (T, T) -> Text.Ordering, m: T, s: seq<T>) {
    m in s && forall x :: x in s ==> !order(x, m).Greater?
  }

  lemma {:induction false} FirstLeastIsLeast<T(!new)>(order: (T, T) -> Text.Ordering, s: seq<T>)
    requires s != [] && Consistent(order, s)
    ensures Least(order, FirstLeast(order, s), s)
  {
    var front, last := s[..|s| - 1], s[|s| - 1];
    assert s == front + [last];
    assert order(last, last) == order(last, last).Flip();
    if |s| > 1 {
      assert forall x :: x in front ==> x in s;
      FirstLeastIsLeast(order, front);
      var m := FirstLeast(order, front);
      if order(m, last).Greater? {
        assert order(last, m).Less?;
      }
    }
  }

  lemma {:induction false} LastGreatestIsGreatest<T(!new)>(order: (T, T) -> Text.Ordering, s: seq<T>)
    requires s != [] && Consistent(order, s)
    ensures Greatest(order, LastGreatest(order, s), s)
  {
    var front, last := s[..|s| - 1], s[|s| - 1];
    assert s == front + [last];
    assert order(last, last) == order(last, last).Flip();
    if |s| > 1 {
      assert forall x :: x in front ==> x in s;
      LastGreatestIsGreatest(order, front);
    }
  }

  /** A least element in front is the one picked. */
  lemma {:induction false} FirstLeastInFront<T(!new)>(order: (T, T) -> Text.Ordering, s: seq<T>)
    requires s != [] && Least(order, s[0], s)
    ensures FirstLeast(order, s) == s[0]
  {
    if |s| > 1 {
      var front := s[..|s| - 1];
      assert forall x :: x in front ==> x in s;
      FirstLeastInFront(order, front);
    }
  }

  // ----- the four orders are consistent -----

  lemma SwitchConsistent(s: seq<Account>)
    ensures Consistent(SwitchOrder, s)
  {
    forall x, y | x in s && y in s ensures SwitchOrder(y, x) == SwitchOrder(x, y).Flip() {
      Text.CompareFlips(x.name, y.name);
    }
    forall x, y, z | x in s && y in s && z in s && !SwitchOrder(x, y).Greater? && !SwitchOrder(y, z).Greater?
      ensures !SwitchOrder(x, z).Greater?
    {
      if !Text.Compare(x.name, y.name).Greater? && !Text.Compare(y.name, z.name).Greater? {
        Text.CompareTransitive(x.name, y.name, z.name);
      }
    }
  }

  lemma RedeemConsistent(s: seq<Account>)
    ensures Consistent(RedeemOrder, s)
  {
    forall x, y | x in s && y in s ensures RedeemOrder(y, x) == RedeemOrder(x, y).Flip() {
      Text.CompareFlips(x.name, y.name);
    }
    forall x, y, z | x in s && y in s && z in s && !RedeemOrder(x, y).Greater? && !RedeemOrder(y, z).Greater?
      ensures !RedeemOrder(x, z).Greater?
    {
      if !Text.Compare(x.name, y.name).Greater? && !Text.Compare(y.name, z.name).Greater? {
        Text.CompareTransitive(x.name, y.name, z.name);
      }
    }
  }

  lemma ResetConsistent(s: seq<(Account, Timestamp)>)
    ensures Consistent(ResetOrder, s)
  {
    forall x, y | x in s && y in s ensures ResetOrder(y, x) == ResetOrder(x, y).Flip() {
      Text.CompareFlips(x.0.name, y.0.name);
    }
    forall x, y, z | x in s && y in s && z in s && !ResetOrder(x, y).Greater? && !ResetOrder(y, z).Greater?
      ensures !ResetOrder(x, z).Greater?
    {
      if !Text.Compare(x.0.name, y.0.name).Greater? && !Text.Compare(y.0.name, z.0.name).Greater? {
        Text.CompareTransitive(x.0.name, y.0.name, z.0.name);
      }
    }
  }

  lemma NotesOrdered(s: seq<Note>, now: Timestamp)
    requires forall n :: n in s ==> n == NoteFor(n.account, n.expiresAt, now)
    ensures Orders(NoteAtMost, s) && Antisymmetric(NoteAtMost, s)
  {
    forall x, y | x in s && y in s
      ensures NoteAtMost(x, y) || NoteAtMost(y, x)
      ensures NoteAtMost(x, y) && NoteAtMost(y, x) ==> x == y
    {
      Text.CompareFlips(x.account, y.account);
    }
    forall x, y, z | x in s && y in s && z in s && NoteAtMost(x, y) && NoteAtMost(y, z)
      ensures NoteAtMost(x, z)
    {
      if !Text.Compare(x.account, y.account).Greater? && !Text.Compare(y.account, z.account).Greater? {
        Text.CompareTransitive(x.account, y.account, z.account);
      }
    }
  }

  // ----- the notes -----

  ghost predicate IsNote(n: Note, capped: seq<Account>, now: Timestamp) {
    exists a :: a in capped && n == NoteFor(a.name, n.expiresAt, now) && Some(n.expiresAt) in a.creditExpiries
  }

  lemma {:induction false} AllNotesMembers(capped: seq<Account>, now: Timestamp)
    ensures forall n :: n in AllNotes(capped, now) <==> IsNote(n, capped, now)
  {
    if capped != [] {
      AllNotesMembers(capped[1..], now);
      assert capped == [capped[0]] + capped[1..];
      assert forall n :: n in AccountNotes(capped[0].name, capped[0].creditExpiries, now) ==> IsNote(n, capped, now);
      forall n | IsNote(n, capped, now) ensures n in AllNotes(capped, now) {
        var a :| a in capped && n == NoteFor(a.name, n.expiresAt, now) && Some(n.expiresAt) in a.creditExpiries;
        if a in capped[1..] {
          assert IsNote(n, capped[1..], now);
        }
      }
      forall n | IsNote(n, capped[1..], now) ensures IsNote(n, capped, now) {
      }
    }
  }

  /** `kept` is a sorted choice from `all` that nothing left out should precede. */
  ghost predicate SoonestOf(kept: seq<Note>, all: seq<Note>) {
    && multiset(kept) <= multiset(all)
    && Sorted(NoteAtMost, kept)
    && forall x, y :: x in kept && y in multiset(all) - multiset(kept) ==> NoteAtMost(x, y)
  }

  lemma SortedPrefixIsSoonest(sorted: seq<Note>, k: nat)
    requires k <= |sorted| && Sorted(NoteAtMost, sorted)
    ensures SoonestOf(sorted[..k], sorted)
  {
    SortedParts(NoteAtMost, sorted, k);
    forall x, y | x in sorted[..k] && y in multiset(sorted) - multiset(sorted[..k]) ensures NoteAtMost(x, y) {
      assert y in multiset(sorted[k..]);
    }
  }

  /** The pending notes are the credits that expire within the horizon. */
  lemma PendingNotesMembers(capped: seq<Account>, now: Timestamp)
    ensures forall n :: n in PendingNotes(capped, now) <==> IsNote(n, capped, now) && InHorizon(n)
  {
    AllNotesMembers(capped, now);
  }

  lemma PendingNotesOrdered(capped: seq<Account>, now: Timestamp)
    ensures Orders(NoteAtMost, PendingNotes(capped, now)) && Antisymmetric(NoteAtMost, PendingNotes(capped, now))
  {
    PendingNotesMembers(capped, now);
    NotesOrdered(PendingNotes(capped, now), now);
  }

  /** All notes, as far as the limit goes. */
  function NotesKept(pending: nat): nat {
    if pending < MAX_NOTES then pending else MAX_NOTES
  }

  /** A choice of soonest notes is the beginning of the sorted list: its size determines it. */
  lemma SoonestIsSortedFront(kept: seq<Note>, all: seq<Note>)
    requires Orders(NoteAtMost, all) && Antisymmetric(NoteAtMost, all) && SoonestOf(kept, all)
    ensures |kept| <= |all| && kept == Sort(NoteAtMost, all)[..|kept|]
  {
    SortedFront(NoteAtMost, kept, all);
  }

  /** The notes kept are pending ones in order, as many as fit, and none left out would come
      before one that was kept. */
  lemma NotesAreSoonest(capped: seq<Account>, now: Timestamp)
    ensures SoonestOf(ExpiringNotes(capped, now), PendingNotes(capped, now))
    ensures |ExpiringNotes(capped, now)| == NotesKept(|PendingNotes(capped, now)|)
  {
    var pending := PendingNotes(capped, now);
    PendingNotesOrdered(capped, now);
    SortSorts(NoteAtMost, pending);
    var sorted := Sort(NoteAtMost, pending);
    var k := |ExpiringNotes(capped, now)|;
    assert sorted[..k] == ExpiringNotes(capped, now);
    SortedPrefixIsSoonest(sorted, k);
  }

  lemma {:induction false} AllNotesPermute(a: seq<Account>, b: seq<Account>, now: Timestamp)
    requires multiset(a) == multiset(b)
    ensures multiset(AllNotes(a, now)) == multiset(AllNotes(b, now))
  {
    if a == [] {
      assert |multiset(b)| == 0;
    } else {
      var k := FindHead(a, b);
      AllNotesPermute(a[1..], Without(b, k), now);
      AllNotesWithout(b, k, now);
    }
  }

  lemma {:induction false} AllNotesWithout(b: seq<Account>, k: nat, now: Timestamp)
    requires k < |b|
    ensures multiset(AllNotes(b, now))
         == multiset(AccountNotes(b[k].name, b[k].creditExpiries, now)) + multiset(AllNotes(Without(b, k), now))
    decreases k
  {
    if k == 0 {
      assert Without(b, 0) == b[1..];
    } else {
      AllNotesWithout(b[1..], k - 1, now);
      WithoutHead(b, k);
      assert Without(b, k)[1..] == Without(b[1..], k - 1);
    }
  }

  lemma NotesIgnoreOrder(a: seq<Account>, b: seq<Account>, now: Timestamp)
    requires multiset(a) == multiset(b)
    ensures ExpiringNotes(a, now) == ExpiringNotes(b, now)
  {
    AllNotesPermute(a, b, now);
    FilterPermutes(InHorizon, AllNotes(a, now), AllNotes(b, now));
    PendingNotesOrdered(a, now);
    SortIgnoresOrder(NoteAtMost, PendingNotes(a, now), PendingNotes(b, now));
  }

  // ----- waiting -----

  /** `a` resets in the future and no capped account resets before it. */
  ghost predicate IsSoonest(a: Account, capped: seq<Account>, now: Timestamp) {
    && a in capped && ResetsLater(now)(a)
    && forall b :: b in capped && ResetsLater(now)(b) ==>
         !ResetOrder((a, a.naturalReset.value), (b, b.naturalReset.value)).Greater?
  }

  /** The wait names an account that is soonest, and is absent when nothing resets later. */
  lemma WaitIsSoonest(capped: seq<Account>, now: Timestamp)
    ensures WaitActions(capped, now) == [] <==> forall a :: a in capped ==> !ResetsLater(now)(a)
    ensures WaitActions(capped, now) != [] ==>
              exists a :: IsSoonest(a, capped, now)
                && WaitActions(capped, now) == [WaitFor(a, a.naturalReset.value, now)]
  {
    var later := FutureResets(capped, now);
    if later != [] {
      var pairs := AsPairs(later);
      ResetConsistent(pairs);
      FirstLeastIsLeast(ResetOrder, pairs);
      var m := FirstLeast(ResetOrder, pairs);
      assert m.0 in later && m.1 == m.0.naturalReset.value;
      forall b | b in capped && ResetsLater(now)(b)
        ensures !ResetOrder(m, (b, b.naturalReset.value)).Greater?
      {
        assert b in later;
        var i :| 0 <= i < |later| && later[i] == b;
        assert pairs[i] == (b, b.naturalReset.value) && pairs[i] in pairs;
      }
      assert IsSoonest(m.0, capped, now);
    }
  }

  lemma SoonestTie(x: Account, y: Account, capped: seq<Account>, now: Timestamp)
    requires IsSoonest(x, capped, now) && IsSoonest(y, capped, now)
    ensures x.name == y.name && x.naturalReset == y.naturalReset
  {
    var p, q := (x, x.naturalReset.value), (y, y.naturalReset.value);
    ResetConsistent([p, q]);
    assert p in [p, q] && q in [p, q];
    assert ResetOrder(p, q).Equal?;
  }

  lemma WaitPick(capped: seq<Account>, now: Timestamp) returns (a: Account)
    requires WaitActions(capped, now) != []
    ensures IsSoonest(a, capped, now) && WaitActions(capped, now) == [WaitFor(a, a.naturalReset.value, now)]
  {
    WaitIsSoonest(capped, now);
    a :| IsSoonest(a, capped, now) && WaitActions(capped, now) == [WaitFor(a, a.naturalReset.value, now)];
  }

  lemma WaitNeeded(capped: seq<Account>, a: Account, now: Timestamp)
    requires a in capped && ResetsLater(now)(a)
    ensures WaitActions(capped, now) != []
  {
    WaitIsSoonest(capped, now);
  }

  lemma WaitIgnoresOrder(a: seq<Account>, b: seq<Account>, now: Timestamp)
    requires multiset(a) == multiset(b)
    ensures WaitActions(a, now) == WaitActions(b, now)
  {
    SameMembers(a, b);
    if WaitActions(a, now) != [] {
      var x := WaitPick(a, now);
      WaitNeeded(b, x, now);
      var y := WaitPick(b, now);
      assert IsSoonest(y, a, now);
      SoonestTie(x, y, a, now);
    } else if WaitActions(b, now) != [] {
      var y := WaitPick(b, now);
      WaitNeeded(a, y, now);
    }
  }

  // ----- redeeming and switching -----

  /** Least in the reserve, expiry, reset, label order among the accounts that hold credits. */
  ghost predicate IsRedeemTarget(a: Account, capped: seq<Account>) {
    Least(RedeemOrder, a, Candidates(capped))
  }

  /** Most remaining capacity, then the greatest label. */
  ghost predicate IsSwitchTarget(a: Account, accounts: seq<Account>) {
    Greatest(SwitchOrder, a, Headroom(accounts))
  }

  lemma RedeemTargetPicked(capped: seq<Account>)
    requires Candidates(capped) != []
    ensures IsRedeemTarget(FirstLeast(RedeemOrder, Candidates(capped)), capped)
  {
    RedeemConsistent(Candidates(capped));
    FirstLeastIsLeast(RedeemOrder, Candidates(capped));
  }

  lemma SwitchTargetPicked(accounts: seq<Account>)
    requires Headroom(accounts) != []
    ensures IsSwitchTarget(LastGreatest(SwitchOrder, Headroom(accounts)), accounts)
  {
    SwitchConsistent(Headroom(accounts));
    LastGreatestIsGreatest(SwitchOrder, Headroom(accounts));
  }

  ghost predicate IsSwitchAdvice(advice: Advice, accounts: seq<Account>) {
    exists a :: IsSwitchTarget(a, accounts) && advice.primary == Switch(a.name) && advice.alternatives == []
  }

  ghost predicate IsWait(waits: seq<Action>, capped: seq<Account>, now: Timestamp) {
    if waits == [] then forall a :: a in capped ==> !ResetsLater(now)(a)
    else exists a :: IsSoonest(a, capped, now) && waits == [WaitFor(a, a.naturalReset.value, now)]
  }

  /** An active user redeems and may wait instead; an idle one waits, if there is a reset to
      wait for, and may redeem instead. */
  predicate Ranked(advice: Advice, redeem: Action, waits: seq<Action>, active: bool) {
    if active || waits == [] then advice.primary == redeem && advice.alternatives == waits
    else advice.primary == waits[0] && advice.alternatives == [redeem]
  }

  ghost predicate IsCappedAdvice(advice: Advice, capped: seq<Account>, now: Timestamp, active: bool) {
    if Candidates(capped) == [] then advice.primary == Blocked && IsWait(advice.alternatives, capped, now)
    else exists a, waits :: IsRedeemTarget(a, capped) && IsWait(waits, capped, now)
           && Ranked(advice, RedeemAction(a, now), waits, active)
  }

  /** Everything an advice for `accounts` has to satisfy, stated without the selection code. */
  ghost predicate IsBest(advice: Advice, accounts: seq<Account>, now: Timestamp, active: bool) {
    var capped := Capped(accounts);
    if capped == [] then advice == Advice(NotApplicable, [], [])
    else
      && SoonestOf(advice.expiring, PendingNotes(capped, now))
      && |advice.expiring| == NotesKept(|PendingNotes(capped, now)|)
      && (if Headroom(accounts) != [] then IsSwitchAdvice(advice, accounts)
          else IsCappedAdvice(advice, capped, now, active))
  }

  lemma CappedAdvice(accounts: seq<Account>, now: Timestamp, active: bool)
    requires |accounts| <= MAX_ACCOUNTS && Capped(accounts) != [] && Headroom(accounts) == []
    ensures IsCappedAdvice(Evaluate(accounts, now, active).value, Capped(accounts), now, active)
  {
    var capped := Capped(accounts);
    var waits, advice := WaitActions(capped, now), Evaluate(accounts, now, active).value;
    WaitIsSoonest(capped, now);
    assert IsWait(waits, capped, now);
    if Candidates(capped) != [] {
      RedeemTargetPicked(capped);
      var a := FirstLeast(RedeemOrder, Candidates(capped));
      assert Ranked(advice, RedeemAction(a, now), waits, active);
    }
  }

  /** The decision is the best one; it is refused only for too many accounts. */
  lemma EvaluateIsBest(accounts: seq<Account>, now: Timestamp, active: bool)
    ensures Evaluate(accounts, now, active).None? <==> |accounts| > MAX_ACCOUNTS
    ensures |accounts| <= MAX_ACCOUNTS ==> IsBest(Evaluate(accounts, now, active).value, accounts, now, active)
  {
    if |accounts| <= MAX_ACCOUNTS && Capped(accounts) != [] {
      NotesAreSoonest(Capped(accounts), now);
      if Headroom(accounts) != [] {
        SwitchTargetPicked(accounts);
      } else {
        CappedAdvice(accounts, now, active);
      }
    }
  }

  // ----- independence from the order of the accounts -----

  /** Redeem targets that tie agree on the credit they would spend. */
  ghost predicate TiesAgree(capped: seq<Account>) {
    forall x, y :: IsRedeemTarget(x, capped) && IsRedeemTarget(y, capped) ==>
      NextExpiry(x.creditExpiries) == NextExpiry(y.creditExpiries)
  }

  ghost predicate RedeemReached(accounts: seq<Account>) {
    |accounts| <= MAX_ACCOUNTS && Headroom(accounts) == [] && Candidates(accounts) != []
  }

  ghost predicate OrderIndependent(accounts: seq<Account>, now: Timestamp, active: bool) {
    forall other :: multiset(other) == multiset(accounts) ==>
      Evaluate(other, now, active) == Evaluate(accounts, now, active)
  }

  lemma NoHeadroomAllCapped(accounts: seq<Account>)
    requires Headroom(accounts) == []
    ensures Capped(accounts) == accounts
  {
    if accounts != [] {
      assert accounts == [accounts[0]] + accounts[1..];
      assert accounts[0] !in Headroom(accounts);
      NoHeadroomAllCapped(accounts[1..]);
    }
  }

  lemma SameMembersTarget(a: seq<Account>, b: seq<Account>, x: Account)
    requires multiset(a) == multiset(b)
    ensures IsRedeemTarget(x, a) <==> IsRedeemTarget(x, b)
  {
    SameMembers(a, b);
  }

  lemma RedeemTie(x: Account, y: Account, capped: seq<Account>, now: Timestamp)
    requires IsRedeemTarget(x, capped) && IsRedeemTarget(y, capped)
    ensures x.name == y.name
    ensures NextExpiry(x.creditExpiries) == NextExpiry(y.creditExpiries)
       ==> RedeemAction(x, now) == RedeemAction(y, now)
  {
    RedeemConsistent([x, y]);
    assert x in [x, y] && y in [x, y];
    assert RedeemOrder(x, y).Equal?;
  }

  lemma SwitchIgnoresOrder(a: seq<Account>, b: seq<Account>)
    requires multiset(a) == multiset(b) && Headroom(a) != [] && Headroom(b) != []
    ensures LastGreatest(SwitchOrder, Headroom(a)).name == LastGreatest(SwitchOrder, Headroom(b)).name
  {
    SameMembers(a, b);
    SwitchTargetPicked(a);
    SwitchTargetPicked(b);
    var x, y := LastGreatest(SwitchOrder, Headroom(a)), LastGreatest(SwitchOrder, Headroom(b));
    SwitchConsistent([x, y]);
    assert x in [x, y] && y in [x, y];
    assert y in Headroom(a) && x in Headroom(b);
    assert SwitchOrder(x, y).Equal?;
  }

  lemma TiesAgreeSuffices(a: seq<Account>, b: seq<Account>, now: Timestamp, active: bool)
    requires multiset(a) == multiset(b)
    requires RedeemReached(a) ==> TiesAgree(a)
    ensures Evaluate(a, now, active) == Evaluate(b, now, active)
  {
    SameMembers(a, b);
    FilterPermutes((x: Account) => x.capped, a, b);
    FilterPermutes((x: Account) => !x.capped, a, b);
    var ca, cb := Capped(a), Capped(b);
    SameMembers(ca, cb);
    SameMembers(Headroom(a), Headroom(b));
    NotesIgnoreOrder(ca, cb, now);
    WaitIgnoresOrder(ca, cb, now);
    FilterPermutes((x: Account) => x.creditExpiries != [], ca, cb);
    SameMembers(Candidates(ca), Candidates(cb));
    if Headroom(a) != [] {
      SwitchIgnoresOrder(a, b);
    } else if Candidates(ca) != [] {
      NoHeadroomAllCapped(a);
      RedeemTargetPicked(ca);
      RedeemTargetPicked(cb);
      var x, y := FirstLeast(RedeemOrder, Candidates(ca)), FirstLeast(RedeemOrder, Candidates(cb));
      SameMembersTarget(ca, cb, y);
      RedeemTie(x, y, ca, now);
    }
  }

  lemma RedeemAdvice(accounts: seq<Account>, now: Timestamp, active: bool)
    requires RedeemReached(accounts)
    ensures Evaluate(accounts, now, active).Some?
    ensures Ranked(Evaluate(accounts, now, active).value,
                   RedeemAction(FirstLeast(RedeemOrder, Candidates(accounts)), now), WaitActions(accounts, now), active)
  {
    NoHeadroomAllCapped(accounts);
  }

  /** The order of the accounts can bring any redeem target to the fore. */
  lemma BringToFront(accounts: seq<Account>, x: Account) returns (other: seq<Account>)
    requires RedeemReached(accounts) && IsRedeemTarget(x, accounts)
    ensures multiset(other) == multiset(accounts) && RedeemReached(other)
    ensures FirstLeast(RedeemOrder, Candidates(other)) == x
  {
    var i :| 0 <= i < |accounts| && accounts[i] == x;
    other := [x] + Without(accounts, i);
    BagWithout(accounts, i);
    SameMembers(accounts, other);
    SameMembersTarget(accounts, other, x);
    assert |other| == |accounts|;
    assert forall a :: a in Headroom(other) ==> a in Headroom(accounts);
    NoMembers(Headroom(other));
    assert other[1..] == Without(accounts, i) && Candidates(other)[0] == x;
    FirstLeastInFront(RedeemOrder, Candidates(other));
  }

  lemma TiesAgreeNeeded(accounts: seq<Account>, now: Timestamp, active: bool)
    requires RedeemReached(accounts) && OrderIndependent(accounts, now, active)
    ensures TiesAgree(accounts)
  {
    forall x, y | IsRedeemTarget(x, accounts) && IsRedeemTarget(y, accounts)
      ensures NextExpiry(x.creditExpiries) == NextExpiry(y.creditExpiries)
    {
      var p := BringToFront(accounts, x);
      var q := BringToFront(accounts, y);
      RedeemAdvice(p, now, active);
      RedeemAdvice(q, now, active);
      WaitIgnoresOrder(p, q, now);
      assert Evaluate(p, now, active) == Evaluate(accounts, now, active) == Evaluate(q, now, active);
      assert RedeemAction(x, now) == RedeemAction(y, now);
    }
  }

  /** The decision is the same for every order of the accounts exactly when, in case it comes
      to redeeming, tied targets agree on the credit. */
  lemma OrderMattersOnlyForTies(accounts: seq<Account>, now: Timestamp, active: bool)
    ensures OrderIndependent(accounts, now, active) <==> (RedeemReached(accounts) ==> TiesAgree(accounts))
  {
    if RedeemReached(accounts) ==> TiesAgree(accounts) {
      forall other | multiset(other) == multiset(accounts)
        ensures Evaluate(other, now, active) == Evaluate(accounts, now, active)
      {
        TiesAgreeSuffices(accounts, other, now, active);
      }
    } else if OrderIndependent(accounts, now, active) {
      TiesAgreeNeeded(accounts, now, active);
    }
  }

  /** Pairwise distinct labels leave no ties: the order of the accounts never matters. */
  lemma DistinctLabelsDecide(accounts: seq<Account>, now: Timestamp, active: bool)
    requires forall i, j :: 0 <= i < j < |accounts| ==> accounts[i].name != accounts[j].name
    ensures OrderIndependent(accounts, now, active)
  {
    forall x, y | IsRedeemTarget(x, accounts) && IsRedeemTarget(y, accounts)
      ensures NextExpiry(x.creditExpiries) == NextExpiry(y.creditExpiries)
    {
      RedeemTie(x, y, accounts, now);
      assert x in accounts && y in accounts;
    }
    OrderMattersOnlyForTies(accounts, now, active);
  }

  /** Equal labels do: two credits expiring within one second tie, and the first one listed
      is named. */
  lemma SubsecondTieDependsOnOrder()
    ensures exists accounts :: !OrderIndependent(accounts, 0, true)
  {
    var x := Account("a", true, None, None, [Some(1)]);
    var y := Account("a", true, None, None, [Some(2)]);
    var accounts := [x, y];
    assert x in Candidates(accounts) && y in Candidates(accounts);
    NoMembers(Headroom(accounts));
    assert NextExpiry([Some(1)]) == Some(1) && NextExpiry([Some(2)]) == Some(2);
    assert Seconds(1) == 0 && Seconds(2) == 0;
    RedeemConsistent(accounts);
    assert IsRedeemTarget(x, accounts) && IsRedeemTarget(y, accounts);
    OrderMattersOnlyForTies(accounts, 0, true);
  }
}
