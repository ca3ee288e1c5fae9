/** What logins, activations and removals keep, whichever of their steps fail. */
module CodexAccountRuns {
  import opened Results
  import opened AtomicFile
  import opened AccountIdentity
  import opened CodexAccounts
  import opened Sequences

  // ----- the invariant -----

  /** The active account is the ambient one or a listed, enabled one. */
  ghost predicate ActiveIsListed(c: Config) {
    ActiveId(c) == AMBIENT || Account(ActiveId(c), true) in Accounts(c)
  }

  ghost predicate AllHomed(c: Config, homes: map<string, Home>) {
    forall id :: id in Ids(Accounts(c)) ==> id in homes
  }

  ghost predicate Consistent(w: World) {
    w.config.Some? ==>
      var c := w.config.value;
      Distinct(Ids(Accounts(c))) && ActiveIsListed(c) && AllHomed(c, w.homes)
  }

  // ----- lists of accounts -----

  lemma ListedId(accounts: seq<Account>, a: Account)
    requires a in accounts
    ensures a.id in Ids(accounts)
  {
    var i :| 0 <= i < |accounts| && accounts[i] == a;
    assert Ids(accounts)[i] == a.id;
  }

  lemma DistinctTail(accounts: seq<Account>)
    requires accounts != [] && Distinct(Ids(accounts))
    ensures Distinct(Ids(accounts[1..])) && accounts[0].id !in Ids(accounts[1..])
    ensures Ids(accounts) == [accounts[0].id] + Ids(accounts[1..])
  {
    assert Ids(accounts) == [accounts[0].id] + Ids(accounts[1..]);
    assert Ids(accounts[1..]) == Ids(accounts)[1..];
  }

  lemma DistinctCons(a: Account, rest: seq<Account>)
    requires Distinct(Ids(rest)) && a.id !in Ids(rest)
    ensures Distinct(Ids([a] + rest)) && Ids([a] + rest) == [a.id] + Ids(rest)
  {
    assert Ids([a] + rest) == [a.id] + Ids(rest);
  }

  lemma IdsOfCons(a: Account, rest: seq<Account>)
    ensures Ids([a] + rest) == [a.id] + Ids(rest)
  {
  }

  lemma {:induction false} RetainedMembers(accounts: seq<Account>, account: string, duplicates: seq<string>, a: Account)
    ensures a in Retained(accounts, account, duplicates) <==> a in accounts && (a.id == account || a.id !in duplicates)
  {
    if accounts != [] {
      var rest := Retained(accounts[1..], account, duplicates);
      RetainedMembers(accounts[1..], account, duplicates, a);
      assert accounts == [accounts[0]] + accounts[1..];
      ConsMembers(accounts[0], accounts[1..], a);
      ConsMembers(accounts[0], rest, a);
    }
  }

  lemma {:induction false} RetainedIds(accounts: seq<Account>, account: string, duplicates: seq<string>, id: string)
    ensures id in Ids(Retained(accounts, account, duplicates))
       <==> id in Ids(accounts) && (id == account || id !in duplicates)
  {
    if accounts != [] {
      var rest := Retained(accounts[1..], account, duplicates);
      RetainedIds(accounts[1..], account, duplicates, id);
      assert accounts == [accounts[0]] + accounts[1..];
      IdsOfCons(accounts[0], accounts[1..]);
      IdsOfCons(accounts[0], rest);
    }
  }

  lemma {:induction false} RetainedIsDistinct(accounts: seq<Account>, account: string, duplicates: seq<string>)
    requires Distinct(Ids(accounts))
    ensures Distinct(Ids(Retained(accounts, account, duplicates)))
  {
    if accounts != [] {
      DistinctTail(accounts);
      RetainedIsDistinct(accounts[1..], account, duplicates);
      RetainedIds(accounts[1..], account, duplicates, accounts[0].id);
      if accounts[0].id == account || accounts[0].id !in duplicates {
        DistinctCons(accounts[0], Retained(accounts[1..], account, duplicates));
      }
    }
  }

  lemma {:induction false} EnabledIds(accounts: seq<Account>, id: string)
    ensures Ids(Enabled(accounts, id)) == if id in Ids(accounts) then Ids(accounts) else Ids(accounts) + [id]
  {
    if accounts == [] {
      IdsOfCons(Account(id, true), []);
    } else {
      var head, rest := accounts[0], accounts[1..];
      assert accounts == [head] + rest;
      IdsOfCons(head, rest);
      if head.id == id {
        IdsOfCons(Account(id, true), rest);
      } else {
        EnabledIds(rest, id);
        IdsOfCons(head, Enabled(rest, id));
      }
    }
  }

  lemma {:induction false} EnabledMembers(accounts: seq<Account>, id: string, a: Account)
    requires Distinct(Ids(accounts))
    ensures a in Enabled(accounts, id) <==> a == Account(id, true) || (a in accounts && a.id != id)
  {
    if accounts != [] {
      var head, rest := accounts[0], accounts[1..];
      DistinctTail(accounts);
      ConsMembers(head, rest, a);
      assert accounts == [head] + rest;
      if head.id == id {
        ConsMembers(Account(id, true), rest, a);
        if a in rest {
          ListedId(rest, a);
        }
      } else {
        ConsMembers(head, Enabled(rest, id), a);
        EnabledMembers(rest, id, a);
      }
    }
  }

  lemma ConsMembers<T>(head: T, rest: seq<T>, a: T)
    ensures a in [head] + rest <==> a == head || a in rest
  {
  }

  lemma EnabledIsExact(accounts: seq<Account>, id: string)
    requires Distinct(Ids(accounts))
    ensures Distinct(Ids(Enabled(accounts, id)))
    ensures forall a :: a in Enabled(accounts, id) <==> a == Account(id, true) || (a in accounts && a.id != id)
    ensures forall x :: x in Ids(Enabled(accounts, id)) <==> x == id || x in Ids(accounts)
  {
    EnabledIds(accounts, id);
    forall a ensures a in Enabled(accounts, id) <==> a == Account(id, true) || (a in accounts && a.id != id) {
      EnabledMembers(accounts, id, a);
    }
  }

  /** Everything the operations on accounts have no business with is as before. */
  ghost predicate SameRest(before: Config, after: Config) {
    && after.rest == before.rest && after.otherCodexRoutes == before.otherCodexRoutes
    && RouteOf(after).rest == RouteOf(before).rest
  }

  /** After a login the account is listed and enabled, its duplicates are gone, and every other
      account is listed as before. */
  lemma RelistedIsExact(c: Config, account: string, duplicates: seq<string>)
    requires Distinct(Ids(Accounts(c)))
    ensures var next := Relisted(c, account, duplicates); Distinct(Ids(Accounts(next))) && ActiveIsListed(next)
    ensures SameRest(c, Relisted(c, account, duplicates)) && RouteOf(Relisted(c, account, duplicates)).enabled
    ensures forall a :: a in Accounts(Relisted(c, account, duplicates)) <==>
              a == Account(account, true) || (a in Accounts(c) && a.id != account && a.id !in duplicates)
    ensures forall id :: id in Ids(Accounts(Relisted(c, account, duplicates))) <==>
              id == account || (id in Ids(Accounts(c)) && id !in duplicates)
  {
    var accounts := RouteOf(c).accounts;
    RetainedIsDistinct(accounts, account, duplicates);
    EnabledIsExact(Retained(accounts, account, duplicates), account);
    forall a
      ensures a in Retained(accounts, account, duplicates)
         <==> a in accounts && (a.id == account || a.id !in duplicates)
    {
      RetainedMembers(accounts, account, duplicates, a);
    }
    forall id
      ensures id in Ids(Retained(accounts, account, duplicates))
         <==> id in Ids(accounts) && (id == account || id !in duplicates)
    {
      RetainedIds(accounts, account, duplicates, id);
    }
  }

  // ----- archiving -----

  ghost predicate Injective<T(!new), U>(m: map<T, U>) {
    forall a, b :: a in m && b in m && a != b ==> m[a] != m[b]
  }

  /** The homes in `moved` went to the archive, each under a fresh name of its own; no other home
      and no other archive name came, went or changed. */
  ghost predicate MovedAs(before: World, after: World, moved: map<string, string>) {
    && after.config == before.config && Injective(moved)
    && (forall id :: id in moved ==> id in before.homes && moved[id] !in before.archive)
    && (forall id :: id in moved ==> moved[id] in after.archive && after.archive[moved[id]] == before.homes[id])
    && (forall id :: id in after.homes <==> id in before.homes && id !in moved)
    && (forall id :: id in after.homes ==> after.homes[id] == before.homes[id])
    && (forall name :: name in before.archive ==> name in after.archive && after.archive[name] == before.archive[name])
    && (forall name :: name in after.archive ==> name in before.archive || name in moved.Values)
  }

  /** Archiving moves homes; it never drops, merges or overwrites one. */
  ghost predicate OnlyMoved(before: World, after: World) {
    exists moved :: MovedAs(before, after, moved)
  }

  lemma ArchiveMoves(w: World, id: string, stuck: set<string>)
    ensures OnlyMoved(w, Archive(w, id, stuck).world)
    ensures forall x :: x in w.homes && x != id ==> x in Archive(w, id, stuck).world.homes
    ensures Archive(w, id, stuck).failure.None? ==> id !in Archive(w, id, stuck).world.homes
  {
    var t := Archive(w, id, stuck).world;
    var name := ArchiveIsMove(w, id, stuck);
    NothingMoves(t);
    MoveThenMoves(w, t, t, id, name);
  }

  lemma NothingMoves(w: World)
    ensures OnlyMoved(w, w)
  {
    assert MovedAs(w, w, map[]);
  }

  /** One home and its fresh name, as a step of archiving. */
  ghost predicate MovedOne(a: World, b: World, id: string, name: string) {
    && id in a.homes && name !in a.archive
    && b == a.(homes := a.homes - {id}, archive := a.archive[name := a.homes[id]])
  }

  lemma MovesAfterOne(a: World, b: World, c: World, id: string, name: string, moved: map<string, string>)
    requires MovedOne(a, b, id, name) && MovedAs(b, c, moved)
    ensures OnlyMoved(a, c)
  {
    var both := moved[id := name];
    assert id !in moved && name in b.archive && name !in moved.Values;
    assert forall x :: x in both <==> x == id || x in moved;
    forall n | n in c.archive ensures n in a.archive || n in both.Values {
      if n == name {
        assert both[id] == name;
      } else if n in moved.Values {
        var x :| x in moved && moved[x] == n;
        assert both[x] == n;
      }
    }
    assert MovedAs(a, c, both);
  }

  lemma ArchiveIsMove(w: World, id: string, stuck: set<string>) returns (name: string)
    ensures Archive(w, id, stuck).world == w || MovedOne(w, Archive(w, id, stuck).world, id, name)
  {
    var free := FreeName(w.archive, id, 0);
    name := if free.Some? then free.value else id;
  }

  lemma ArchivedHome(w: World, id: string, stuck: set<string>)
    requires Archive(w, id, stuck).failure.None?
    ensures
      var after := Archive(w, id, stuck).world;
      && after.config == w.config && after.homes == w.homes - {id}
      && (id !in w.homes ==> after.archive == w.archive)
      && (id in w.homes ==>
            exists name :: name !in w.archive && after.archive == w.archive[name := w.homes[id]])
  {
    if id !in w.homes {
      assert w.homes - {id} == w.homes;
    } else {
      var name := FreeName(w.archive, id, 0).value;
      assert Archive(w, id, stuck).world.archive == w.archive[name := w.homes[id]];
    }
  }

  lemma MoveThenMoves(a: World, b: World, c: World, id: string, name: string)
    requires (b == a || MovedOne(a, b, id, name)) && OnlyMoved(b, c)
    ensures OnlyMoved(a, c)
  {
    if b != a {
      var moved :| MovedAs(b, c, moved);
      MovesAfterOne(a, b, c, id, name, moved);
    }
  }

  lemma OnlyMovedKeeps(before: World, after: World)
    requires OnlyMoved(before, after)
    ensures after.config == before.config
    ensures forall id :: id in after.homes ==> id in before.homes && after.homes[id] == before.homes[id]
    ensures forall id :: id in before.homes && id !in after.homes ==> before.homes[id] in after.archive.Values
  {
  }

  lemma {:induction false} ArchiveAllMoves(w: World, ids: seq<string>, account: string, stuck: set<string>)
    ensures OnlyMoved(w, ArchiveAll(w, ids, account, stuck).world)
    ensures forall x :: x in w.homes && (x == account || x !in ids) ==>
              x in ArchiveAll(w, ids, account, stuck).world.homes
    ensures ArchiveAll(w, ids, account, stuck).failure.None? ==>
      forall x :: x in ids && x != account ==> x !in ArchiveAll(w, ids, account, stuck).world.homes
    decreases |ids|
  {
    if ids == [] {
      NothingMoves(w);
    } else {
      assert ids == [ids[0]] + ids[1..];
      if ids[0] == account {
        ArchiveAllMoves(w, ids[1..], account, stuck);
      } else {
        var first := Archive(w, ids[0], stuck);
        ArchiveMoves(w, ids[0], stuck);
        if first.failure.None? {
          var last := ArchiveAll(first.world, ids[1..], account, stuck).world;
          ArchiveAllMoves(first.world, ids[1..], account, stuck);
          OnlyMovedKeeps(first.world, last);
          var name := ArchiveIsMove(w, ids[0], stuck);
          MoveThenMoves(w, first.world, last, ids[0], name);
        }
      }
    }
  }

  /** What archiving leaves of the homes, without the names in the archive. */
  lemma ArchiveAllKeeps(w: World, ids: seq<string>, account: string, stuck: set<string>)
    ensures
      var after := ArchiveAll(w, ids, account, stuck);
      && after.world.config == w.config
      && (forall id :: id in after.world.homes ==> id in w.homes && after.world.homes[id] == w.homes[id])
      && (forall id :: id in w.homes && (id == account || id !in ids) ==> id in after.world.homes)
      && (forall id :: id in w.homes && id !in after.world.homes ==> w.homes[id] in after.world.archive.Values)
      && (after.failure.None? ==> forall id :: id in ids && id != account ==> id !in after.world.homes)
  {
    ArchiveAllMoves(w, ids, account, stuck);
    OnlyMovedKeeps(w, ArchiveAll(w, ids, account, stuck).world);
  }

  // ----- login -----

  /** The homes have the same names, and only `account` may differ. */
  ghost predicate SameHomesBut(before: World, after: World, account: string) {
    && after.archive == before.archive
    && after.homes.Keys == before.homes.Keys
    && forall id :: id in before.homes && id != account ==> after.homes[id] == before.homes[id]
  }

  /** The three ways a commit can end: nothing committed, committed with an error reported, and
      committed with the duplicates archived as far as possible. */
  lemma CommitEnds(w: World, pending: string, account: string, duplicates: seq<string>, next: Config, s: LoginScript)
    requires pending in w.homes && account in w.homes
    ensures
      var done := Commit(w, pending, account, duplicates, next, s);
      var t := done.world;
      || (done.result.Err? && t.config == w.config && SameHomesBut(w, t, account))
      || (done.result.Err? && t.config == Some(next) && s.configWrite.Unsynced? && SameHomesBut(w, t, account))
      || (t.config == Some(next) && s.configWrite.Synced? && account in t.homes
          && (forall x :: x in w.homes && x !in duplicates ==> x in t.homes)
          && (done.result.Ok? ==> done.result.value == account)
          && (done.result.Ok? ==> forall x :: x in duplicates && x != account ==> x !in t.homes))
  {
    match ReplaceAuth(w, pending, account, s)
    case Err(after) =>
    case Ok(replaced) =>
      assert SameHomesBut(w, replaced, account);
      if s.configWrite.Synced? {
        var committed := replaced.(config := Some(next));
        ArchiveAllKeeps(committed, duplicates, account, s.stuck);
      }
  }

  ghost predicate Lists(w: World, id: string) {
    w.config.Some? && id in Ids(Accounts(w.config.value))
  }

  /** The login belongs to nobody listed, and its configuration can be saved. */
  ghost predicate SavesNewAccount(w: World, pending: string, identity: Identity, s: LoginScript) {
    var loaded := Load(w, s.configReadable);
    && loaded.Some? && s.configStaged
    && Duplicates(w.homes, Accounts(loaded.value), identity, s.unreadable) == []
    && Valid(Relisted(loaded.value, pending, []))
  }

  lemma CommitKeepsConsistent(
    w: World, pending: string, account: string, duplicates: seq<string>, c: Config, s: LoginScript)
    requires Consistent(w) && (w.config == Some(c) || (w.config.None? && c == EMPTY))
    requires pending in w.homes && !Lists(w, pending) && account in w.homes
    requires account == (if duplicates == [] then pending else duplicates[0])
    requires forall id :: id in duplicates ==> id in Ids(Accounts(c))
    ensures
      var done := Commit(w, pending, account, duplicates, Relisted(c, account, duplicates), s);
      && Consistent(done.world)
      && (Lists(done.world, pending) <==> duplicates == [] && !s.configWrite.Refused?)
      && (done.result == Ok(pending) <==> duplicates == [] && s.configWrite.Synced?)
  {
    CommitEnds(w, pending, account, duplicates, Relisted(c, account, duplicates), s);
    RelistedIsExact(c, account, duplicates);
    assert duplicates != [] ==> duplicates[0] in duplicates;
  }

  lemma FinishLoginKeepsConsistent(w: World, pending: string, identity: Identity, s: LoginScript)
    requires Consistent(w) && pending in w.homes && !Lists(w, pending)
    ensures
      var done := FinishLogin(w, pending, identity, s);
      var saves := SavesNewAccount(w, pending, identity, s);
      && Consistent(done.world)
      && (Lists(done.world, pending) <==> saves && !s.configWrite.Refused?)
      && (done.result == Ok(pending) <==> saves && s.configWrite.Synced?)
  {
    var loaded := Load(w, s.configReadable);
    if loaded.Some? {
      var c := loaded.value;
      var duplicates := Duplicates(w.homes, Accounts(c), identity, s.unreadable);
      var account := if duplicates == [] then pending else duplicates[0];
      if Valid(Relisted(c, account, duplicates)) && s.configStaged {
        CommitKeepsConsistent(w, pending, account, duplicates, c, s);
      }
    }
  }

  /** The one way a login breaks the invariant: it adds a new account, the new configuration is
      in place although its save reports an error, and the new home is then cleaned up. */
  ghost predicate Strands(w: World, s: LoginScript) {
    var pending := Allocate(w.homes, s.draws, ID_ATTEMPTS);
    && s.rootReady && pending.Some? && s.homeMade.Synced? && s.executableFound && s.exitedWell
    && var ran := w.(homes := w.homes[pending.value := Home(None, "")][pending.value := s.produced]);
       var identity := ReadIdentity(ran.homes, pending.value, s.unreadable);
       && identity.Some? && (identity.value.email.Some? || identity.value.workspace.Some?)
       && SavesNewAccount(ran, pending.value, identity.value, s)
       && s.configWrite.Unsynced? && s.leftover.None?
  }

  lemma MoreHomesStayConsistent(w: World, pending: string, home: Home)
    requires Consistent(w) && pending !in w.homes
    ensures Consistent(w.(homes := w.homes[pending := home])) && !Lists(w, pending)
  {
  }

  lemma CleaningKeepsConsistent(w: World, pending: string, leftover: Option<Home>)
    requires Consistent(w)
    ensures Consistent(Cleaned(w, pending, leftover)) <==> leftover.Some? || !Lists(w, pending)
  {
  }

  /** A login keeps the invariant exactly when it does not strand a new account. */
  lemma LoginKeepsConsistent(w: World, s: LoginScript)
    requires Consistent(w)
    ensures Consistent(Login(w, s).world) <==> !Strands(w, s)
  {
    var drawn := Allocate(w.homes, s.draws, ID_ATTEMPTS);
    if s.rootReady && drawn.Some? {
      var pending := drawn.value;
      MoreHomesStayConsistent(w, pending, Home(None, ""));
      if s.homeMade.Synced? {
        var made := w.(homes := w.homes[pending := Home(None, "")]);
        var done := LoginInHome(made, pending, s);
        if s.executableFound {
          var ran := made.(homes := made.homes[pending := s.produced]);
          assert Consistent(ran);
          var identity := ReadIdentity(ran.homes, pending, s.unreadable);
          if s.exitedWell && identity.Some? && (identity.value.email.Some? || identity.value.workspace.Some?) {
            FinishLoginKeepsConsistent(ran, pending, identity.value, s);
          }
        }
        CleaningKeepsConsistent(done.world, pending, s.leftover);
      }
    }
  }

  /** A login into an empty store whose save reports an error after the rename: the account is
      listed and active, and its home is gone. */
  lemma LoginCanStrand(s: LoginScript)
    requires s.rootReady && s.draws == [Some("0011")] && s.homeMade.Synced? && s.executableFound && s.exitedWell
    requires s.unreadable == {} && s.configReadable && s.configStaged && s.configWrite.Unsynced? && s.leftover.None?
    requires s.produced == Home(Some(Auth("token", Some(Identity(Some("a@example.com"), None)))), "")
    ensures
      var after := Login(World(None, map[], map[]), s).world;
      Lists(after, "acct-0011") && ActiveId(after.config.value) == "acct-0011" && "acct-0011" !in after.homes
  {
    var w := World(None, map[], map[]);
    var pending := "acct-0011";
    assert Allocate(w.homes, s.draws, ID_ATTEMPTS) == Some(pending) by {
      assert "acct-" + "0011" == pending;
    }
    var ran := w.(homes := w.homes[pending := Home(None, "")][pending := s.produced]);
    var identity := s.produced.auth.value.identity.value;
    var next := Relisted(EMPTY, pending, []);
    assert ReadIdentity(ran.homes, pending, {}) == Some(identity) by {
      assert pending[0] == 'a' && |pending| != |AMBIENT|;
    }
    assert Accounts(next) == [Account(pending, true)];
    assert Duplicates(ran.homes, [], identity, {}) == [];
    FinishLoginKeepsConsistent(ran, pending, identity, s);
    assert Login(w, s).world == Cleaned(FinishLogin(ran, pending, identity, s).world, pending, None);
  }

  // ----- activate and remove -----

  lemma SelectionIsListed(c: Config, id: string)
    requires CanActivate(c, id)
    ensures ActiveIsListed(Selected(c, id)) && ActiveId(Selected(c, id)) == id
    ensures Accounts(Selected(c, id)) == Accounts(c)
  {
  }

  lemma ActivateKeepsConsistent(w: World, id: string, s: EditScript)
    requires Consistent(w)
    ensures Consistent(Activate(w, id, s).world)
  {
    var loaded := Load(w, s.configReadable);
    if loaded.Some? && CanActivate(loaded.value, id) {
      SelectionIsListed(loaded.value, id);
    }
  }

  /** An activation that is written makes exactly the requested account active, and only
      ambient and enabled accounts can be requested. */
  lemma ActivationIsExact(w: World, id: string, s: EditScript)
    requires Activate(w, id, s).result.Ok?
    ensures
      var before, after := (if w.config.Some? then w.config.value else EMPTY), Activate(w, id, s).world;
      && CanActivate(before, id) && after.config.Some? && ActiveId(after.config.value) == id
      && Accounts(after.config.value) == Accounts(before) && SameRest(before, after.config.value)
      && RouteOf(after.config.value).enabled == RouteOf(before).enabled
      && after.homes == w.homes && after.archive == w.archive
  {
  }

  lemma {:induction false} WithoutMembers(accounts: seq<Account>, id: string, a: Account)
    ensures a in Without(accounts, id) <==> a in accounts && a.id != id
  {
    if accounts != [] {
      WithoutMembers(accounts[1..], id, a);
      assert accounts == [accounts[0]] + accounts[1..];
    }
  }

  lemma {:induction false} WithoutIds(accounts: seq<Account>, id: string, x: string)
    ensures x in Ids(Without(accounts, id)) <==> x in Ids(accounts) && x != id
  {
    if accounts != [] {
      var rest := Without(accounts[1..], id);
      WithoutIds(accounts[1..], id, x);
      assert accounts == [accounts[0]] + accounts[1..];
      IdsOfCons(accounts[0], accounts[1..]);
      IdsOfCons(accounts[0], rest);
    }
  }

  lemma {:induction false} WithoutIsDistinct(accounts: seq<Account>, id: string)
    requires Distinct(Ids(accounts))
    ensures Distinct(Ids(Without(accounts, id)))
  {
    if accounts != [] {
      DistinctTail(accounts);
      WithoutIsDistinct(accounts[1..], id);
      WithoutIds(accounts[1..], id, accounts[0].id);
      if accounts[0].id != id {
        DistinctCons(accounts[0], Without(accounts[1..], id));
      }
    }
  }

  lemma WithoutIsExact(accounts: seq<Account>, id: string)
    requires Distinct(Ids(accounts))
    ensures Distinct(Ids(Without(accounts, id)))
    ensures forall a :: a in Without(accounts, id) <==> a in accounts && a.id != id
    ensures forall x :: x in Ids(Without(accounts, id)) <==> x in Ids(accounts) && x != id
  {
    WithoutIsDistinct(accounts, id);
    forall a ensures a in Without(accounts, id) <==> a in accounts && a.id != id {
      WithoutMembers(accounts, id, a);
    }
    forall x ensures x in Ids(Without(accounts, id)) <==> x in Ids(accounts) && x != id {
      WithoutIds(accounts, id, x);
    }
  }

  lemma UnlistedIsConsistent(c: Config, id: string)
    requires Distinct(Ids(Accounts(c))) && ActiveIsListed(c)
    ensures Distinct(Ids(Accounts(Unlisted(c, id)))) && ActiveIsListed(Unlisted(c, id))
    ensures forall x :: x in Ids(Accounts(Unlisted(c, id))) <==> x in Ids(Accounts(c)) && x != id
    ensures forall a :: a in Accounts(Unlisted(c, id)) <==> a in Accounts(c) && a.id != id
    ensures ActiveId(Unlisted(c, id)) == if ActiveId(c) == id then AMBIENT else ActiveId(c)
  {
    WithoutIsExact(RouteOf(c).accounts, id);
  }

  lemma RemoveKeepsConsistent(w: World, id: string, s: EditScript)
    requires Consistent(w)
    ensures Consistent(Remove(w, id, s).world)
  {
    var loaded := Load(w, s.configReadable);
    if loaded.Some? {
      UnlistedIsConsistent(loaded.value, id);
      var written := w.(config := Some(Unlisted(loaded.value, id)));
      ArchiveMoves(written, id, s.stuck);
      OnlyMovedKeeps(written, Archive(written, id, s.stuck).world);
    }
  }

  /** A removal takes the account off the list, falls back to ambient if it was active, and moves
      its home, if it has one, to a fresh name in the archive; every other account, home and name
      stays. */
  lemma RemovalIsExact(w: World, id: string, s: EditScript)
    requires Remove(w, id, s).result.Ok?
    ensures w.config.Some? && Remove(w, id, s).world.config.Some?
    ensures
      var before, after := w.config.value, Remove(w, id, s).world.config.value;
      && (forall a :: a in Accounts(after) <==> a in Accounts(before) && a.id != id)
      && SameRest(before, after) && RouteOf(after).enabled == RouteOf(before).enabled
      && ActiveId(after) == if ActiveId(before) == id then AMBIENT else ActiveId(before)
    ensures
      var after := Remove(w, id, s).world;
      && after.homes == w.homes - {id}
      && (id !in w.homes ==> after.archive == w.archive)
      && (id in w.homes ==>
            exists name :: name !in w.archive && after.archive == w.archive[name := w.homes[id]])
  {
    assert Ids([]) == [];
    var c := Load(w, s.configReadable).value;
    WithoutIsExact(RouteOf(c).accounts, id);
    var written := w.(config := Some(Unlisted(c, id)));
    assert Remove(w, id, s).world == Archive(written, id, s.stuck).world;
    ArchivedHome(written, id, s.stuck);
  }

  /** Requests for unknown or impossible accounts are refused as such, and change nothing. */
  lemma RequestsAreChecked(w: World, id: string, s: EditScript)
    requires Load(w, s.configReadable).Some?
    ensures var known := id == AMBIENT || Account(id, true) in Accounts(Load(w, s.configReadable).value);
            (Activate(w, id, s).result == Err(UnknownAccount) <==> !known) && (!known ==> Activate(w, id, s).world == w)
    ensures var possible := IsAccountKey(id) && id != AMBIENT;
            && (Remove(w, id, s).result == Err(InvalidAccount) <==> !possible)
            && (!possible ==> Remove(w, id, s).world == w)
    ensures var missing := IsAccountKey(id) && id != AMBIENT && id !in Ids(Accounts(Load(w, s.configReadable).value));
            (Remove(w, id, s).result == Err(UnknownAccount) <==> missing) && (missing ==> Remove(w, id, s).world == w)
  {
  }

  // ----- whole runs -----

  datatype Call =
    | LoginCall(login: LoginScript)
    | ActivateCall(id: string, edit: EditScript)
    | RemoveCall(id: string, edit: EditScript)

  function Step(w: World, call: Call): World {
    match call
    case LoginCall(s) => Login(w, s).world
    case ActivateCall(id, s) => Activate(w, id, s).world
    case RemoveCall(id, s) => Remove(w, id, s).world
  }

  ghost predicate StrandsAt(w: World, call: Call) {
    call.LoginCall? && Strands(w, call.login)
  }

  ghost predicate IsRun(calls: seq<Call>, worlds: seq<World>) {
    && |worlds| == |calls| + 1
    && forall i :: 0 <= i < |calls| ==> worlds[i + 1] == Step(worlds[i], calls[i])
  }

  lemma StepKeepsConsistent(w: World, call: Call)
    requires Consistent(w)
    ensures Consistent(Step(w, call)) <==> !StrandsAt(w, call)
  {
    match call
    case LoginCall(s) => LoginKeepsConsistent(w, s);
    case ActivateCall(id, s) => ActivateKeepsConsistent(w, id, s);
    case RemoveCall(id, s) => RemoveKeepsConsistent(w, id, s);
  }

  lemma {:induction false} ConsistentUpTo(calls: seq<Call>, worlds: seq<World>, j: nat)
    requires IsRun(calls, worlds) && Consistent(worlds[0]) && j < |worlds|
    requires forall i :: 0 <= i < j ==> !StrandsAt(worlds[i], calls[i])
    ensures Consistent(worlds[j])
  {
    if j > 0 {
      ConsistentUpTo(calls, worlds, j - 1);
      assert worlds[j] == Step(worlds[j - 1], calls[j - 1]);
      StepKeepsConsistent(worlds[j - 1], calls[j - 1]);
    }
  }

  /** Over any run from a consistent state, with any step allowed to fail, the invariant holds
      throughout exactly when no login strands a new account. */
  lemma RunsStayConsistent(calls: seq<Call>, worlds: seq<World>)
    requires IsRun(calls, worlds) && Consistent(worlds[0])
    ensures (forall j :: 0 <= j < |worlds| ==> Consistent(worlds[j]))
       <==> (forall i :: 0 <= i < |calls| ==> !StrandsAt(worlds[i], calls[i]))
  {
    if forall j :: 0 <= j < |worlds| ==> Consistent(worlds[j]) {
      forall i | 0 <= i < |calls| ensures !StrandsAt(worlds[i], calls[i]) {
        assert worlds[i + 1] == Step(worlds[i], calls[i]);
        StepKeepsConsistent(worlds[i], calls[i]);
      }
    }
    if forall i :: 0 <= i < |calls| ==> !StrandsAt(worlds[i], calls[i]) {
      forall j | 0 <= j < |worlds| ensures Consistent(worlds[j]) {
        ConsistentUpTo(calls, worlds, j);
      }
    }
  }
}
