/** What a login leaves behind when it succeeds, when its save fails, and over whole runs. */
module CodexLoginEffects {
  import opened Results
  import opened AtomicFile
  import opened AccountIdentity
  import opened CodexAccounts
  import opened CodexAccountRuns
  import opened Sequences

  // ----- a login that fails -----

  function Before(w: World): Config {
    if w.config.Some? then w.config.value else EMPTY
  }

  /** The accounts a finished login takes into account. */
  function Found(w: World, identity: Identity, s: LoginScript): seq<string> {
    Duplicates(w.homes, Accounts(Before(w)), identity, s.unreadable)
  }

  function Chosen(pending: string, duplicates: seq<string>): string {
    if duplicates == [] then pending else duplicates[0]
  }

  lemma ChosenIsHomed(w: World, pending: string, identity: Identity, s: LoginScript)
    requires pending in w.homes
    ensures Chosen(pending, Found(w, identity, s)) in w.homes
    ensures Chosen(pending, Found(w, identity, s)) == pending
         || IsDuplicate(w.homes, Chosen(pending, Found(w, identity, s)), identity, s.unreadable)
  {
    var duplicates := Found(w, identity, s);
    assert duplicates != [] ==> IsDuplicate(w.homes, duplicates[0], identity, s.unreadable);
  }

  function AuthOf(w: World, id: string): Option<Auth> {
    if id in w.homes then w.homes[id].auth else None
  }

  /** Both auth files can be read, so the old one is about to be replaced. */
  predicate ReadsBoth(w: World, pending: string, account: string, s: LoginScript) {
    && account != pending && s.oldAuthReadable && AuthOf(w, account).Some?
    && s.newAuthReadable && AuthOf(w, pending).Some?
  }

  /** The commit gets as far as the configuration. */
  predicate Reaches(w: World, pending: string, account: string, s: LoginScript) {
    account == pending || (ReadsBoth(w, pending, account, s) && s.authWrite.Synced?)
  }

  /** The auth file of an earlier account becomes another one, and nothing puts it back. */
  predicate SwapsAuth(w: World, pending: string, account: string, s: LoginScript) {
    && ReadsBoth(w, pending, account, s) && AuthOf(w, account) != AuthOf(w, pending)
    && (s.authWrite.Unsynced? || (s.authWrite.Synced? && s.authRestore.Refused?))
  }

  /** A configuration that is not committed, or whose commit reports an error, stays as it was
      unless the commit took effect; the homes stay as they were unless an auth file is swapped. */
  lemma FailedCommitRestores(
    w: World, pending: string, account: string, duplicates: seq<string>, next: Config, s: LoginScript)
    requires pending in w.homes && account in w.homes
    requires !s.configWrite.Synced? || !Reaches(w, pending, account, s)
    ensures
      var done := Commit(w, pending, account, duplicates, next, s);
      && done.result.Err? && done.world.archive == w.archive && account in done.world.homes
      && (done.world.config == w.config
          <==> !Reaches(w, pending, account, s) || s.configWrite.Refused? || w.config == Some(next))
      && (done.world.homes == w.homes <==> done.world.homes[account] == w.homes[account])
      && (done.world.homes == w.homes <==> !SwapsAuth(w, pending, account, s))
  {
    var t := Commit(w, pending, account, duplicates, next, s).world;
    assert t.homes.Keys == w.homes.Keys;
    assert forall id :: id in w.homes && id != account ==> t.homes[id] == w.homes[id];
    assert t.homes == w.homes <==> t.homes[account] == w.homes[account];
    assert w.homes[account].auth == t.homes[account].auth ==> w.homes[account] == t.homes[account];
  }

  lemma {:induction false} NothingToArchive(w: World, ids: seq<string>, account: string, stuck: set<string>)
    requires forall id :: id in ids ==> id == account
    ensures ArchiveAll(w, ids, account, stuck) == Archived(w, None)
  {
    if ids != [] {
      assert ids[0] in ids && forall id :: id in ids[1..] ==> id in ids;
      NothingToArchive(w, ids[1..], account, stuck);
    }
  }

  /** Taking a duplicate off the list changes the list. */
  lemma RelistedDiffers(c: Config, account: string, duplicates: seq<string>, id: string)
    requires id in duplicates && id != account && id in Ids(Accounts(c))
    ensures Relisted(c, account, duplicates) != c
  {
    var kept := Retained(Accounts(c), account, duplicates);
    assert Ids([]) == [];
    RetainedIds(Accounts(c), account, duplicates, id);
    EnabledIds(kept, account);
    assert Accounts(Relisted(c, account, duplicates)) == Enabled(kept, account);
  }

  /** A commit that took effect and fails later has changed the configuration. */
  lemma FailedArchivingChanges(
    w: World, pending: string, account: string, duplicates: seq<string>, s: LoginScript)
    requires pending in w.homes && account in w.homes && Reaches(w, pending, account, s) && s.configWrite.Synced?
    requires forall id :: id in duplicates ==> id in Ids(Accounts(Before(w)))
    requires Commit(w, pending, account, duplicates, Relisted(Before(w), account, duplicates), s).result.Err?
    ensures
      var next := Relisted(Before(w), account, duplicates);
      Commit(w, pending, account, duplicates, next, s).world.config == Some(next) && w.config != Some(next)
  {
    var next := Relisted(Before(w), account, duplicates);
    var committed := ReplaceAuth(w, pending, account, s).value.(config := Some(next));
    ArchiveAllKeeps(committed, duplicates, account, s.stuck);
    if forall id :: id in duplicates ==> id == account {
      NothingToArchive(committed, duplicates, account, s.stuck);
    } else {
      var id :| id in duplicates && id != account;
      RelistedDiffers(Before(w), account, duplicates, id);
    }
  }

  /** The login gets to a commit that puts another configuration in place or swaps an auth file. */
  predicate FinishDisturbs(w: World, pending: string, identity: Identity, s: LoginScript) {
    var duplicates := Found(w, identity, s);
    var account := Chosen(pending, duplicates);
    var next := Relisted(Before(w), account, duplicates);
    && Load(w, s.configReadable).Some? && Valid(next) && s.configStaged
    && ((Reaches(w, pending, account, s) && !s.configWrite.Refused? && w.config != Some(next))
        || SwapsAuth(w, pending, account, s))
  }

  /** The configuration or a home other than the pending one is not what it was. */
  ghost predicate Disturbed(before: World, after: World, pending: string) {
    || after.config != before.config
    || exists id :: id in before.homes && id in after.homes && id != pending && after.homes[id] != before.homes[id]
  }

  lemma FailedCommitIsExact(
    w: World, pending: string, account: string, duplicates: seq<string>, next: Config, s: LoginScript)
    requires pending in w.homes && account in w.homes && next == Relisted(Before(w), account, duplicates)
    requires forall id :: id in duplicates ==> id in Ids(Accounts(Before(w)))
    requires Commit(w, pending, account, duplicates, next, s).result.Err?
    ensures
      var after := Commit(w, pending, account, duplicates, next, s).world;
      var disturbs := (Reaches(w, pending, account, s) && !s.configWrite.Refused? && w.config != Some(next))
                      || SwapsAuth(w, pending, account, s);
      (disturbs ==> Disturbed(w, after, pending)) && (!disturbs ==> after == w)
  {
    if s.configWrite.Synced? && Reaches(w, pending, account, s) {
      FailedArchivingChanges(w, pending, account, duplicates, s);
    } else {
      FailedCommitRestores(w, pending, account, duplicates, next, s);
    }
  }

  lemma FailedFinishIsExact(w: World, pending: string, identity: Identity, s: LoginScript)
    requires pending in w.homes && FinishLogin(w, pending, identity, s).result.Err?
    ensures
      var after := FinishLogin(w, pending, identity, s).world;
      if FinishDisturbs(w, pending, identity, s) then Disturbed(w, after, pending) else after == w
  {
    var duplicates := Found(w, identity, s);
    var account := Chosen(pending, duplicates);
    var next := Relisted(Before(w), account, duplicates);
    ChosenIsHomed(w, pending, identity, s);
    if Load(w, s.configReadable).Some? && Valid(next) && s.configStaged {
      assert FinishLogin(w, pending, identity, s) == Commit(w, pending, account, duplicates, next, s);
      FailedCommitIsExact(w, pending, account, duplicates, next, s);
    }
  }

  /** The configuration, the archive and every home are what they were, and at most the drawn home
      is new. */
  ghost predicate Untouched(before: World, after: World, drawn: Option<string>) {
    && after.config == before.config && after.archive == before.archive
    && (forall id :: id in before.homes ==> id in after.homes && after.homes[id] == before.homes[id])
    && (forall id :: id in after.homes ==> id in before.homes || drawn == Some(id))
  }

  /** The login runs, the person is known, and finishing it disturbs what was there. */
  predicate LoginDisturbs(w: World, s: LoginScript) {
    var pending := Allocate(w.homes, s.draws, ID_ATTEMPTS);
    && s.rootReady && pending.Some? && s.homeMade.Synced? && s.executableFound && s.exitedWell
    && var ran := w.(homes := w.homes[pending.value := s.produced]);
       var identity := ReadIdentity(ran.homes, pending.value, s.unreadable);
       && identity.Some? && (identity.value.email.Some? || identity.value.workspace.Some?)
       && FinishDisturbs(ran, pending.value, identity.value, s)
  }

  lemma FailedInHomeIsExact(w: World, pending: string, s: LoginScript)
    requires pending !in w.homes && Allocate(w.homes, s.draws, ID_ATTEMPTS) == Some(pending)
    requires s.rootReady && s.homeMade.Synced?
    requires LoginInHome(w.(homes := w.homes[pending := Home(None, "")]), pending, s).result.Err?
    ensures
      var after := LoginInHome(w.(homes := w.homes[pending := Home(None, "")]), pending, s).world;
      Untouched(w, Cleaned(after, pending, s.leftover), Some(pending)) <==> !LoginDisturbs(w, s)
  {
    var made := w.(homes := w.homes[pending := Home(None, "")]);
    var ran := w.(homes := w.homes[pending := s.produced]);
    assert made.(homes := made.homes[pending := s.produced]) == ran;
    var identity := ReadIdentity(ran.homes, pending, s.unreadable);
    if s.executableFound && s.exitedWell && identity.Some?
       && (identity.value.email.Some? || identity.value.workspace.Some?) {
      FailedFinishIsExact(ran, pending, identity.value, s);
      var after := FinishLogin(ran, pending, identity.value, s).world;
      if FinishDisturbs(ran, pending, identity.value, s) && after.config == w.config {
        var id :| id in ran.homes && id in after.homes && id != pending && after.homes[id] != ran.homes[id];
        assert id in w.homes && id in Cleaned(after, pending, s.leftover).homes;
      }
    }
  }

  /** A login that reports an error leaves the configuration, the archive and every earlier home as
      they were exactly when its commit neither took effect nor left a swapped auth file. */
  lemma FailedLoginRestores(w: World, s: LoginScript)
    requires Login(w, s).result.Err?
    ensures Untouched(w, Login(w, s).world, Allocate(w.homes, s.draws, ID_ATTEMPTS)) <==> !LoginDisturbs(w, s)
  {
    var drawn := Allocate(w.homes, s.draws, ID_ATTEMPTS);
    if s.rootReady && drawn.Some? && s.homeMade.Synced? {
      FailedInHomeIsExact(w, drawn.value, s);
    }
  }

  lemma UncommittedFinishFails(w: World, pending: string, identity: Identity, s: LoginScript)
    requires pending in w.homes && !s.configWrite.Synced?
    ensures FinishLogin(w, pending, identity, s).result.Err?
  {
    var duplicates := Found(w, identity, s);
    var account := Chosen(pending, duplicates);
    ChosenIsHomed(w, pending, identity, s);
    FailedCommitRestores(w, pending, account, duplicates, Relisted(Before(w), account, duplicates), s);
  }

  /** A login whose configuration write reports any error reports an error itself. */
  lemma UncommittedLoginFails(w: World, s: LoginScript)
    requires !s.configWrite.Synced?
    ensures Login(w, s).result.Err?
  {
    var drawn := Allocate(w.homes, s.draws, ID_ATTEMPTS);
    if s.rootReady && drawn.Some? && s.homeMade.Synced? {
      var pending := drawn.value;
      var ran := w.(homes := w.homes[pending := Home(None, "")][pending := s.produced]);
      var identity := ReadIdentity(ran.homes, pending, s.unreadable);
      if identity.Some? {
        UncommittedFinishFails(ran, pending, identity.value, s);
      }
    }
  }

  /** With a refused commit everything is as it was, provided the old auth file could be put back. */
  lemma RefusedLoginRestores(w: World, s: LoginScript)
    requires s.configWrite.Refused? && !s.authWrite.Unsynced? && !s.authRestore.Refused?
    ensures Login(w, s).result.Err?
    ensures Untouched(w, Login(w, s).world, Allocate(w.homes, s.draws, ID_ATTEMPTS))
  {
    UncommittedLoginFails(w, s);
    FailedLoginRestores(w, s);
  }

  /** A commit that reports an error after its rename: the login fails, and the configuration it
      reports as not saved is in place. */
  lemma FailedLoginCanDisturb(s: LoginScript)
    requires s.rootReady && s.draws == [Some("0011")] && s.homeMade.Synced? && s.executableFound && s.exitedWell
    requires s.unreadable == {} && s.configReadable && s.configStaged && s.configWrite.Unsynced? && s.leftover.None?
    requires s.produced == Home(Some(Auth("token", Some(Identity(Some("a@example.com"), None)))), "")
    ensures var w := World(None, map[], map[]);
            Login(w, s).result.Err? && Login(w, s).world.config.Some? && LoginDisturbs(w, s)
  {
    var w := World(None, map[], map[]);
    LoginCanStrand(s);
    UncommittedLoginFails(w, s);
    FailedLoginRestores(w, s);
  }

  // ----- a successful login -----

  /** A listed account of the person who logged in. */
  ghost predicate WasSame(before: World, id: string, identity: Identity, unreadable: set<string>) {
    id in Ids(Accounts(Before(before))) && IsDuplicate(before.homes, id, identity, unreadable)
  }

  /** `account` is listed, enabled and active; of the other accounts exactly those of the same
      person are gone from the list, and so is one listed under the drawn id. */
  ghost predicate ListedAfter(
    before: World, after: World, account: string, drawn: string, identity: Identity, unreadable: set<string>) {
    && after.config.Some? && ActiveId(after.config.value) == account
    && (forall a :: a in Accounts(after.config.value) <==>
          || a == Account(account, true)
          || (a in Accounts(Before(before)) && a.id != account && a.id != drawn
              && !WasSame(before, a.id, identity, unreadable)))
  }

  /** `account` holds `auth` next to its earlier files, the homes of the other accounts of the
      same person are archived, and every other home is as before; none but the drawn one is new. */
  ghost predicate HomesAfter(
    before: World, after: World, account: string, drawn: string, identity: Identity, auth: Option<Auth>,
    unreadable: set<string>) {
    && account in after.homes && after.homes[account].auth == auth
    && (account in before.homes ==> after.homes[account].rest == before.homes[account].rest)
    && (forall id :: id in before.homes && id != account && WasSame(before, id, identity, unreadable) ==>
          id !in after.homes && before.homes[id] in after.archive.Values)
    && (forall id :: id in before.homes && id != account && !WasSame(before, id, identity, unreadable) ==>
          id in after.homes && after.homes[id] == before.homes[id])
    && (forall id :: id in after.homes ==> id in before.homes || id == drawn)
  }

  ghost predicate LoggedIn(
    before: World, after: World, account: string, drawn: string, identity: Identity, auth: Option<Auth>,
    unreadable: set<string>) {
    && ListedAfter(before, after, account, drawn, identity, unreadable)
    && HomesAfter(before, after, account, drawn, identity, auth, unreadable)
  }

  lemma SuccessfulCommit(
    w: World, pending: string, account: string, duplicates: seq<string>, next: Config, s: LoginScript)
    requires pending in w.homes && account in w.homes
    requires Commit(w, pending, account, duplicates, next, s).result.Ok?
    ensures
      var after := Commit(w, pending, account, duplicates, next, s).world;
      && after.config == Some(next)
      && account in after.homes && after.homes[account] == w.homes[account].(auth := w.homes[pending].auth)
      && (forall id :: id in w.homes && id != account && id !in duplicates ==>
            id in after.homes && after.homes[id] == w.homes[id])
      && (forall id :: id in duplicates && id != account ==> id !in after.homes)
      && (forall id :: id in w.homes && id in duplicates && id != account ==> w.homes[id] in after.archive.Values)
      && (forall id :: id in after.homes ==> id in w.homes)
  {
    var replaced := ReplaceAuth(w, pending, account, s).value;
    var committed := replaced.(config := Some(next));
    ArchiveAllKeeps(committed, duplicates, account, s.stuck);
    var after := ArchiveAll(committed, duplicates, account, s.stuck).world;
    forall id | id in w.homes && id in duplicates && id != account ensures w.homes[id] in after.archive.Values {
      assert id in committed.homes && committed.homes[id] == w.homes[id];
    }
  }

  /** An account listed under the drawn id, which had no home before, is the person who logs in. */
  lemma DrawnIsFound(w: World, pending: string, identity: Identity, s: LoginScript)
    requires ReadIdentity(w.homes, pending, s.unreadable) == Some(identity)
    requires pending in Ids(Accounts(Before(w))) && Chosen(pending, Found(w, identity, s)) != pending
    ensures pending in Found(w, identity, s)
  {
    var duplicates := Found(w, identity, s);
    assert duplicates[0] in duplicates;
    assert identity.email.Some?;
  }

  lemma ListAfterFinish(w: World, pending: string, identity: Identity, s: LoginScript)
    requires Distinct(Ids(Accounts(Before(w)))) && ReadIdentity(w.homes, pending, s.unreadable) == Some(identity)
    ensures
      var account := Chosen(pending, Found(w, identity, s));
      var after := w.(config := Some(Relisted(Before(w), account, Found(w, identity, s))));
      ListedAfter(w, after, account, pending, identity, s.unreadable)
  {
    var c, duplicates := Before(w), Found(w, identity, s);
    var account := Chosen(pending, duplicates);
    assert Ids([]) == [];
    RelistedIsExact(c, account, duplicates);
    forall a | a in Accounts(c) ensures WasSame(w, a.id, identity, s.unreadable) <==> a.id in duplicates {
      ListedId(Accounts(c), a);
    }
    forall a | a in Accounts(c) && a.id == pending && account != pending ensures a.id in duplicates {
      ListedId(Accounts(c), a);
      DrawnIsFound(w, pending, identity, s);
    }
  }

  lemma FinishIsCommit(w: World, pending: string, identity: Identity, s: LoginScript, account: string)
    requires pending in w.homes && FinishLogin(w, pending, identity, s).result.Ok?
    requires account == Chosen(pending, Found(w, identity, s)) && account in w.homes
    ensures FinishLogin(w, pending, identity, s)
         == Commit(w, pending, account, Found(w, identity, s), Relisted(Before(w), account, Found(w, identity, s)), s)
    ensures Distinct(Ids(Accounts(Before(w))))
  {
    assert Ids([]) == [];
  }

  lemma CommitReturnsAccount(
    w: World, pending: string, account: string, duplicates: seq<string>, next: Config, s: LoginScript)
    requires pending in w.homes && account in w.homes
    requires Commit(w, pending, account, duplicates, next, s).result.Ok?
    ensures Commit(w, pending, account, duplicates, next, s).result == Ok(account)
  {
  }

  lemma FoundAreSame(w: World, identity: Identity, s: LoginScript)
    ensures forall id :: id in Found(w, identity, s) <==> WasSame(w, id, identity, s.unreadable)
  {
  }

  lemma HomesAfterCommit(
    w: World, pending: string, account: string, duplicates: seq<string>, next: Config, identity: Identity,
    s: LoginScript)
    requires pending in w.homes && account in w.homes
    requires Commit(w, pending, account, duplicates, next, s).result.Ok?
    requires forall id :: id in duplicates <==> WasSame(w, id, identity, s.unreadable)
    ensures
      var after := Commit(w, pending, account, duplicates, next, s).world;
      HomesAfter(w, after, account, pending, identity, w.homes[pending].auth, s.unreadable)
    ensures Commit(w, pending, account, duplicates, next, s).world.config == Some(next)
  {
    SuccessfulCommit(w, pending, account, duplicates, next, s);
  }

  lemma ListedByConfig(
    before: World, a: World, b: World, account: string, drawn: string, identity: Identity, unreadable: set<string>)
    requires ListedAfter(before, a, account, drawn, identity, unreadable) && a.config == b.config
    ensures ListedAfter(before, b, account, drawn, identity, unreadable)
  {
  }

  lemma SuccessfulFinish(w: World, pending: string, identity: Identity, s: LoginScript)
    requires pending in w.homes && ReadIdentity(w.homes, pending, s.unreadable) == Some(identity)
    requires FinishLogin(w, pending, identity, s).result.Ok?
    ensures
      var done := FinishLogin(w, pending, identity, s);
      && LoggedIn(w, done.world, done.result.value, pending, identity, w.homes[pending].auth, s.unreadable)
      && (done.result.value == pending || IsDuplicate(w.homes, done.result.value, identity, s.unreadable))
  {
    var duplicates := Found(w, identity, s);
    var account := Chosen(pending, duplicates);
    var next := Relisted(Before(w), account, duplicates);
    ChosenIsHomed(w, pending, identity, s);
    FinishIsCommit(w, pending, identity, s, account);
    CommitReturnsAccount(w, pending, account, duplicates, next, s);
    FoundAreSame(w, identity, s);
    HomesAfterCommit(w, pending, account, duplicates, next, identity, s);
    ListAfterFinish(w, pending, identity, s);
    var after := FinishLogin(w, pending, identity, s).world;
    ListedByConfig(w, w.(config := Some(next)), after, account, pending, identity, s.unreadable);
  }

  /** After a successful login nobody else on the list is the person who logged in. */
  lemma NoOtherIsTheSame(
    before: World, after: World, account: string, drawn: string, identity: Identity, auth: Option<Auth>,
    unreadable: set<string>, a: Account)
    requires LoggedIn(before, after, account, drawn, identity, auth, unreadable)
    requires a in Accounts(after.config.value) && a.id != account
    ensures !IsDuplicate(after.homes, a.id, identity, unreadable)
  {
    ListedId(Accounts(Before(before)), a);
    assert !WasSame(before, a.id, identity, unreadable);
    assert a.id in after.homes ==> a.id in before.homes;
  }

  lemma SameBesidesDrawn(w: World, ran: World, pending: string, id: string, identity: Identity, unreadable: set<string>)
    requires ran.config == w.config && id != pending
    requires id in ran.homes <==> id in w.homes
    requires id in w.homes ==> ran.homes[id] == w.homes[id]
    ensures WasSame(ran, id, identity, unreadable) <==> WasSame(w, id, identity, unreadable)
  {
  }

  lemma CleaningKeepsLoggedIn(
    w: World, ran: World, after: World, pending: string, account: string, identity: Identity, s: LoginScript)
    requires pending !in w.homes && ran == w.(homes := w.homes[pending := s.produced])
    requires LoggedIn(ran, after, account, pending, identity, s.produced.auth, s.unreadable)
    requires account == pending || account in w.homes
    ensures
      var cleaned := if account == pending then after else Cleaned(after, pending, s.leftover);
      LoggedIn(w, cleaned, account, pending, identity, s.produced.auth, s.unreadable)
  {
    forall id | id != pending
      ensures WasSame(ran, id, identity, s.unreadable) <==> WasSame(w, id, identity, s.unreadable)
    {
      SameBesidesDrawn(w, ran, pending, id, identity, s.unreadable);
    }
    var cleaned := if account == pending then after else Cleaned(after, pending, s.leftover);
    assert ListedAfter(w, cleaned, account, pending, identity, s.unreadable);
    HomesOfCleaned(w, ran, after, pending, account, identity, s);
  }

  lemma HomesOfCleaned(
    w: World, ran: World, after: World, pending: string, account: string, identity: Identity, s: LoginScript)
    requires pending !in w.homes && ran == w.(homes := w.homes[pending := s.produced])
    requires HomesAfter(ran, after, account, pending, identity, s.produced.auth, s.unreadable)
    requires account == pending || account in w.homes
    requires forall id :: id != pending ==>
               (WasSame(ran, id, identity, s.unreadable) <==> WasSame(w, id, identity, s.unreadable))
    ensures
      var cleaned := if account == pending then after else Cleaned(after, pending, s.leftover);
      HomesAfter(w, cleaned, account, pending, identity, s.produced.auth, s.unreadable)
  {
    forall id | id in w.homes ensures id != pending && id in ran.homes && ran.homes[id] == w.homes[id] {
    }
  }

  /** A successful login, from any state, keeps the id and the other files of the first listed
      account of the same person, archives the rest of them, and touches no other account. */
  lemma SuccessfulLogin(w: World, s: LoginScript)
    requires Login(w, s).result.Ok?
    ensures s.produced.auth.Some? && s.produced.auth.value.identity.Some?
    ensures Allocate(w.homes, s.draws, ID_ATTEMPTS).Some?
    ensures
      var account, identity := Login(w, s).result.value, s.produced.auth.value.identity.value;
      var drawn := Allocate(w.homes, s.draws, ID_ATTEMPTS).value;
      LoggedIn(w, Login(w, s).world, account, drawn, identity, s.produced.auth, s.unreadable)
  {
    var pending := Allocate(w.homes, s.draws, ID_ATTEMPTS).value;
    var made := w.(homes := w.homes[pending := Home(None, "")]);
    var ran := w.(homes := w.homes[pending := s.produced]);
    assert made.(homes := made.homes[pending := s.produced]) == ran;
    var identity := ReadIdentity(ran.homes, pending, s.unreadable).value;
    var done := FinishLogin(ran, pending, identity, s);
    assert LoginInHome(made, pending, s) == done;
    SuccessfulFinish(ran, pending, identity, s);
    CleaningKeepsLoggedIn(w, ran, done.world, pending, done.result.value, identity, s);
  }

  // ----- no home is lost -----

  /** The homes in `moved` are archived as they were, each under a fresh name of its own; every
      other home is still there with its files; and the archive only grows. */
  ghost predicate SurvivesAs(before: World, after: World, moved: map<string, string>) {
    && Injective(moved)
    && (forall id :: id in moved ==> id in before.homes && moved[id] !in before.archive)
    && (forall id :: id in moved ==> moved[id] in after.archive && after.archive[moved[id]] == before.homes[id])
    && (forall id :: id in before.homes && id !in moved ==>
          id in after.homes && after.homes[id].rest == before.homes[id].rest)
    && (forall name :: name in before.archive ==> name in after.archive && after.archive[name] == before.archive[name])
  }

  ghost predicate HomesSurvive(before: World, after: World) {
    exists moved :: SurvivesAs(before, after, moved)
  }

  lemma SameHomesSurvive(before: World, after: World)
    requires after.archive == before.archive
    requires forall id :: id in before.homes ==> id in after.homes && after.homes[id].rest == before.homes[id].rest
    ensures HomesSurvive(before, after)
  {
    assert SurvivesAs(before, after, map[]);
  }

  lemma MovesSurvive(a: World, b: World, c: World)
    requires b.archive == a.archive && b.homes.Keys == a.homes.Keys
    requires forall id :: id in a.homes ==> b.homes[id].rest == a.homes[id].rest
    requires OnlyMoved(b, c)
    requires forall id :: id in a.homes && b.homes[id] != a.homes[id] ==> id in c.homes
    ensures HomesSurvive(a, c)
  {
    var moved :| MovedAs(b, c, moved);
    forall id | id in a.homes ensures id in b.homes {
      assert id in b.homes.Keys;
    }
    forall id | id in moved ensures id in a.homes && b.homes[id] == a.homes[id] {
      assert id in b.homes.Keys;
    }
    MovedSurvives(a, b, c, moved);
  }

  lemma MovedSurvives(a: World, b: World, c: World, moved: map<string, string>)
    requires MovedAs(b, c, moved) && b.archive == a.archive
    requires forall id :: id in a.homes ==> id in b.homes && b.homes[id].rest == a.homes[id].rest
    requires forall id :: id in moved ==> id in a.homes && b.homes[id] == a.homes[id]
    ensures HomesSurvive(a, c)
  {
    assert SurvivesAs(a, c, moved);
  }

  lemma ReplacedAuthOnly(w: World, pending: string, account: string, s: LoginScript)
    requires pending in w.homes && account in w.homes && Reaches(w, pending, account, s)
    ensures ReplaceAuth(w, pending, account, s).Ok?
    ensures SameHomesBut(w, ReplaceAuth(w, pending, account, s).value, account)
    ensures account in ReplaceAuth(w, pending, account, s).value.homes
    ensures ReplaceAuth(w, pending, account, s).value.homes[account].rest == w.homes[account].rest
  {
    assert account == pending || ReplaceAuth(w, pending, account, s).value.homes.Keys == w.homes.Keys;
  }

  lemma ArchivingSurvives(w: World, committed: World, duplicates: seq<string>, account: string, s: LoginScript)
    requires SameHomesBut(w, committed, account) && account in w.homes && account in committed.homes
    requires committed.homes[account].rest == w.homes[account].rest
    ensures HomesSurvive(w, ArchiveAll(committed, duplicates, account, s.stuck).world)
  {
    ArchiveAllMoves(committed, duplicates, account, s.stuck);
    MovesSurvive(w, committed, ArchiveAll(committed, duplicates, account, s.stuck).world);
  }

  lemma CommitSurvives(
    w: World, pending: string, account: string, duplicates: seq<string>, next: Config, s: LoginScript)
    requires pending in w.homes && account in w.homes
    ensures HomesSurvive(w, Commit(w, pending, account, duplicates, next, s).world)
  {
    if Reaches(w, pending, account, s) && s.configWrite.Synced? {
      ReplacedAuthOnly(w, pending, account, s);
      ArchivingSurvives(w, ReplaceAuth(w, pending, account, s).value.(config := Some(next)), duplicates, account, s);
    } else {
      FailedCommitKeepsFiles(w, pending, account, duplicates, next, s);
    }
  }

  lemma FailedCommitKeepsFiles(
    w: World, pending: string, account: string, duplicates: seq<string>, next: Config, s: LoginScript)
    requires pending in w.homes && account in w.homes
    requires !s.configWrite.Synced? || !Reaches(w, pending, account, s)
    ensures HomesSurvive(w, Commit(w, pending, account, duplicates, next, s).world)
  {
    SameHomesSurvive(w, Commit(w, pending, account, duplicates, next, s).world);
  }

  lemma FinishSurvives(w: World, pending: string, identity: Identity, s: LoginScript)
    requires pending in w.homes
    ensures HomesSurvive(w, FinishLogin(w, pending, identity, s).world)
  {
    var duplicates := Found(w, identity, s);
    var account := Chosen(pending, duplicates);
    var next := Relisted(Before(w), account, duplicates);
    ChosenIsHomed(w, pending, identity, s);
    if Load(w, s.configReadable).Some? && Valid(next) && s.configStaged {
      assert FinishLogin(w, pending, identity, s) == Commit(w, pending, account, duplicates, next, s);
      CommitSurvives(w, pending, account, duplicates, next, s);
    } else {
      SameHomesSurvive(w, w);
    }
  }

  /** No call destroys a home that was there before it, whichever of its steps fail and whatever
      the calls before it left behind. */
  lemma StepKeepsHomes(w: World, call: Call)
    ensures HomesSurvive(w, Step(w, call))
  {
    match call
    case LoginCall(s) => LoginKeepsHomes(w, s);
    case ActivateCall(id, s) => SameHomesSurvive(w, Activate(w, id, s).world);
    case RemoveCall(id, s) => RemoveKeepsHomes(w, id, s);
  }

  lemma RemoveKeepsHomes(w: World, id: string, s: EditScript)
    ensures HomesSurvive(w, Remove(w, id, s).world)
  {
    var after := Remove(w, id, s).world;
    if after.homes == w.homes && after.archive == w.archive {
      SameHomesSurvive(w, after);
    } else {
      var written := w.(config := Some(Unlisted(Before(w), id)));
      assert after == Archive(written, id, s.stuck).world;
      ArchiveMoves(written, id, s.stuck);
      MovesSurvive(w, written, after);
    }
  }

  lemma CleaningSurvives(w: World, home: Home, after: World, pending: string, leftover: Option<Home>)
    requires pending !in w.homes && HomesSurvive(w.(homes := w.homes[pending := home]), after)
    ensures HomesSurvive(w, after) && HomesSurvive(w, Cleaned(after, pending, leftover))
  {
    var made := w.(homes := w.homes[pending := home]);
    var moved :| SurvivesAs(made, after, moved);
    forall id | id in w.homes ensures id != pending && id in made.homes && made.homes[id] == w.homes[id] {
    }
    assert SurvivesAs(w, after, moved - {pending});
    assert SurvivesAs(w, Cleaned(after, pending, leftover), moved - {pending});
  }

  lemma LoginInHomeSurvives(w: World, pending: string, s: LoginScript)
    requires pending !in w.homes
    ensures
      var after := LoginInHome(w.(homes := w.homes[pending := Home(None, "")]), pending, s).world;
      HomesSurvive(w, after) && HomesSurvive(w, Cleaned(after, pending, s.leftover))
  {
    var made := w.(homes := w.homes[pending := Home(None, "")]);
    var ran := w.(homes := w.homes[pending := s.produced]);
    assert made.(homes := made.homes[pending := s.produced]) == ran;
    var after := LoginInHome(made, pending, s).world;
    if after == made {
      SameHomesSurvive(made, after);
    } else if after == ran {
      SameHomesSurvive(ran, after);
    } else {
      FinishSurvives(ran, pending, ReadIdentity(ran.homes, pending, s.unreadable).value, s);
    }
    CleaningSurvives(w, if after == made then Home(None, "") else s.produced, after, pending, s.leftover);
  }

  lemma LoginKeepsHomes(w: World, s: LoginScript)
    ensures HomesSurvive(w, Login(w, s).world)
  {
    var drawn := Allocate(w.homes, s.draws, ID_ATTEMPTS);
    if s.rootReady && drawn.Some? && s.homeMade.Synced? {
      LoginInHomeSurvives(w, drawn.value, s);
    } else {
      SameHomesSurvive(w, Login(w, s).world);
    }
  }

  // ----- whole runs -----

  /** Where a home can be. */
  datatype Place = InUse(id: string) | InArchive(name: string)

  predicate IsPlace(w: World, p: Place) {
    match p
    case InUse(id) => id in w.homes
    case InArchive(name) => name in w.archive
  }

  /** The files in a place, such as a session history. */
  function FilesAt(w: World, p: Place): string
    requires IsPlace(w, p)
  {
    match p
    case InUse(id) => w.homes[id].rest
    case InArchive(name) => w.archive[name].rest
  }

  /** Every place of `a` has a place of its own in `b` that holds the same files. */
  ghost predicate CarriedBy(a: World, b: World, to: map<Place, Place>) {
    && Injective(to)
    && (forall p :: IsPlace(a, p) ==> p in to)
    && (forall p :: p in to ==> IsPlace(a, p) && IsPlace(b, to[p]) && FilesAt(b, to[p]) == FilesAt(a, p))
  }

  ghost predicate Carried(a: World, b: World) {
    exists to :: CarriedBy(a, b, to)
  }

  function Destination(moved: map<string, string>, p: Place): Place {
    if p.InUse? && p.id in moved then InArchive(moved[p.id]) else p
  }

  function Places(w: World): (places: set<Place>)
    ensures forall p :: p in places <==> IsPlace(w, p)
  {
    (set id | id in w.homes :: InUse(id)) + (set name | name in w.archive :: InArchive(name))
  }

  lemma PlaceSurvives(a: World, b: World, moved: map<string, string>, p: Place)
    requires SurvivesAs(a, b, moved) && IsPlace(a, p)
    ensures IsPlace(b, Destination(moved, p)) && FilesAt(b, Destination(moved, p)) == FilesAt(a, p)
  {
  }

  lemma PlacesStayApart(a: World, b: World, moved: map<string, string>, p: Place, q: Place)
    requires SurvivesAs(a, b, moved) && IsPlace(a, p) && IsPlace(a, q) && p != q
    ensures Destination(moved, p) != Destination(moved, q)
  {
  }

  lemma SurvivorsAreCarried(a: World, b: World)
    requires HomesSurvive(a, b)
    ensures Carried(a, b)
  {
    var moved :| SurvivesAs(a, b, moved);
    var to := map p | p in Places(a) :: Destination(moved, p);
    forall p | p in to ensures IsPlace(b, to[p]) && FilesAt(b, to[p]) == FilesAt(a, p) {
      PlaceSurvives(a, b, moved, p);
    }
    forall p, q | p in to && q in to && p != q ensures to[p] != to[q] {
      PlacesStayApart(a, b, moved, p, q);
    }
    assert CarriedBy(a, b, to);
  }

  lemma CarriedTwice(a: World, b: World, c: World)
    requires Carried(a, b) && Carried(b, c)
    ensures Carried(a, c)
  {
    var first :| CarriedBy(a, b, first);
    var second :| CarriedBy(b, c, second);
    var both := map p | p in first :: second[first[p]];
    assert CarriedBy(a, c, both);
  }

  lemma CarriedToItself(a: World)
    ensures Carried(a, a)
  {
    assert CarriedBy(a, a, map p | p in Places(a) :: p);
  }

  /** Over any run from any state, also one that strands accounts, no files of a home are lost or
      merged with others: every home, in use or archived, has a home of its own with the same
      files at any later time. */
  lemma {:induction false} FilesAreNeverLost(calls: seq<Call>, worlds: seq<World>, i: nat, j: nat)
    requires IsRun(calls, worlds) && i <= j < |worlds|
    ensures Carried(worlds[i], worlds[j])
    decreases j
  {
    if i == j {
      CarriedToItself(worlds[i]);
    } else {
      FilesAreNeverLost(calls, worlds, i, j - 1);
      assert worlds[j] == Step(worlds[j - 1], calls[j - 1]);
      StepKeepsHomes(worlds[j - 1], calls[j - 1]);
      SurvivorsAreCarried(worlds[j - 1], worlds[j]);
      CarriedTwice(worlds[i], worlds[j - 1], worlds[j]);
    }
  }
}
