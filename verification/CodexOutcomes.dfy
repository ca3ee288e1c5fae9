/** When logins, activations and removals succeed, and which error they report otherwise. */
module CodexOutcomes {
  import opened Results
  import opened AtomicFile
  import opened AccountIdentity
  import opened CodexAccounts
  import opened CodexAccountRuns
  import opened CodexLoginEffects
  import opened Sequences
  import Decimal

  // ----- what a configuration, a key and an archive name are -----

  function AccountsOf(c: Config): seq<Account> {
    if c.route.Some? then c.route.value.accounts else []
  }

  function Listing(w: World): seq<Account> {
    if w.config.Some? then AccountsOf(w.config.value) else []
  }

  predicate Apart(accounts: seq<Account>) {
    forall i, j :: 0 <= i < j < |accounts| ==> accounts[i].id != accounts[j].id
  }

  /** Ids without repetition, at most 64, and Codex ordered exactly if it has a route. */
  predicate Sound(c: Config) {
    && Apart(AccountsOf(c)) && |AccountsOf(c)| <= 64
    && (c.codexOrdered <==> c.route.Some? || c.otherCodexRoutes)
  }

  predicate ConfigLoads(w: World, readable: bool) {
    readable && (w.config.Some? ==> Sound(w.config.value))
  }

  predicate IsListed(w: World, id: string) {
    exists i :: 0 <= i < |Listing(w)| && Listing(w)[i].id == id
  }

  /** Up to 160 ASCII letters, digits and five marks. */
  predicate LegalKey(id: string) {
    && 1 <= |id| <= 160
    && forall c :: c in id ==>
         || 'a' <= c <= 'z' || 'A' <= c <= 'Z' || '0' <= c <= '9'
         || c == '-' || c == '_' || c == '.' || c == ':' || c == '+'
  }

  /** The first name of the home that is not taken yet: its id, or its id and a number. */
  ghost predicate IsFirstFree(name: string, id: string, taken: set<string>) {
    exists k :: 0 <= k < 65536 && IsNameOf(name, id, k) && name !in taken
      && forall j, other :: 0 <= j < k && IsNameOf(other, id, j) ==> other in taken
  }

  predicate IsNameOf(name: string, id: string, k: nat) {
    name == if k == 0 then id else id + "-" + Decimal.Text(k)
  }

  ghost predicate CanArchive(w: World, id: string, stuck: set<string>) {
    id in w.homes ==> id !in stuck && exists name :: IsFirstFree(name, id, w.archive.Keys)
  }

  // ----- these are what the operations use -----

  lemma LoadsExactly(w: World, readable: bool)
    ensures Load(w, readable).Some? <==> ConfigLoads(w, readable)
    ensures Load(w, readable).Some? ==> Accounts(Load(w, readable).value) == Listing(w)
    ensures Accounts(Before(w)) == Listing(w)
  {
    if w.config.Some? {
      SoundIsValid(w.config.value);
    }
  }

  lemma SoundIsValid(c: Config)
    ensures Valid(c) <==> Sound(c)
  {
    ApartIsDistinct(Accounts(c));
  }

  lemma ApartIsDistinct(accounts: seq<Account>)
    ensures Apart(accounts) <==> Distinct(Ids(accounts))
  {
    var ids := Ids(accounts);
    if Distinct(ids) {
      forall i, j | 0 <= i < j < |accounts| ensures accounts[i].id != accounts[j].id {
        assert ids[i] != ids[j];
      }
    }
  }

  lemma ListedExactly(w: World, id: string)
    ensures id in Ids(Listing(w)) <==> IsListed(w, id)
  {
    var ids := Ids(Listing(w));
    if id in ids {
      var i :| 0 <= i < |ids| && ids[i] == id;
      assert Listing(w)[i].id == id;
    }
    if i :| 0 <= i < |Listing(w)| && Listing(w)[i].id == id {
      assert ids[i] == id;
    }
  }

  lemma KeysAreLegal(id: string)
    ensures IsAccountKey(id) <==> LegalKey(id)
  {
    if LegalKey(id) {
      forall i | 0 <= i < |id|
        ensures 'a' <= id[i] <= 'z' || 'A' <= id[i] <= 'Z' || '0' <= id[i] <= '9' || id[i] in "-_.:+"
      {
        assert id[i] in id;
        assert "-_.:+"[0] == '-' && "-_.:+"[1] == '_' && "-_.:+"[2] == '.' && "-_.:+"[3] == ':' && "-_.:+"[4] == '+';
      }
    }
  }

  lemma {:induction false} FreeNameFrom(archive: map<string, Home>, id: string, suffix: nat)
    requires forall j, other :: 0 <= j < suffix && IsNameOf(other, id, j) ==> other in archive
    ensures FreeName(archive, id, suffix).Some? <==> exists name :: IsFirstFree(name, id, archive.Keys)
    ensures FreeName(archive, id, suffix).Some? ==> IsFirstFree(FreeName(archive, id, suffix).value, id, archive.Keys)
    decreases MAX_ARCHIVE_NAMES - suffix
  {
    if suffix < MAX_ARCHIVE_NAMES {
      var name := ArchiveName(id, suffix);
      assert IsNameOf(name, id, suffix);
      if name in archive {
        FreeNameFrom(archive, id, suffix + 1);
      } else {
        assert IsFirstFree(name, id, archive.Keys);
      }
    }
  }

  lemma FirstFreeIsUnique(a: string, b: string, id: string, taken: set<string>)
    requires IsFirstFree(a, id, taken) && IsFirstFree(b, id, taken)
    ensures a == b
  {
  }

  lemma ArchivesExactly(w: World, id: string, stuck: set<string>)
    requires id != AMBIENT
    ensures Archive(w, id, stuck).failure.None? <==> CanArchive(w, id, stuck)
    ensures Archive(w, id, stuck).failure.Some? ==> Archive(w, id, stuck) == Archived(w, Some(Storage))
    ensures Archive(w, id, stuck).failure.None? && id in w.homes ==>
              exists name :: IsFirstFree(name, id, w.archive.Keys)
                && Archive(w, id, stuck).world
                   == w.(homes := w.homes - {id}, archive := w.archive[name := w.homes[id]])
  {
    FreeNameFrom(w.archive, id, 0);
  }

  // ----- legal keys -----

  predicate IsLowerHexText(s: string) {
    forall c :: c in s ==> '0' <= c <= '9' || 'a' <= c <= 'f'
  }

  /** The ids that are drawn for new accounts are legal and never the ambient one. */
  lemma DrawnIdsAreLegal(hex: string)
    requires IsLowerHexText(hex) && |hex| <= 155
    ensures IsAccountKey("acct-" + hex) && "acct-" + hex != AMBIENT
  {
    var id := "acct-" + hex;
    forall c | c in id
      ensures 'a' <= c <= 'z' || 'A' <= c <= 'Z' || '0' <= c <= '9'
           || c == '-' || c == '_' || c == '.' || c == ':' || c == '+'
    {
      if c !in hex {
        assert c in "acct-";
      }
    }
    assert id[1] == 'c' && AMBIENT[1] == 'm';
    KeysAreLegal(id);
  }

  // ----- activating -----

  /** Writing the next configuration succeeds. */
  predicate Writes(s: EditScript) {
    s.configStaged && s.configWrite.Synced?
  }

  /** An activation succeeds exactly for a readable, sound configuration, the ambient account or a
      listed and enabled one, and a write that goes through; without any Codex route it does not,
      because the route it adds is not in the provider order. */
  lemma ActivationSucceedsExactly(w: World, id: string, s: EditScript)
    ensures
      Activate(w, id, s).result
        == if !ConfigLoads(w, s.configReadable) then Err(Storage)
           else if id != "ambient" && Account(id, true) !in Listing(w) then Err(UnknownAccount)
           else if Writes(s) && (w.config.Some? && (w.config.value.route.Some? || w.config.value.otherCodexRoutes))
           then Ok(id)
           else Err(Storage)
  {
    LoadsExactly(w, s.configReadable);
    if ConfigLoads(w, s.configReadable) {
      var c := Load(w, s.configReadable).value;
      SoundIsValid(c);
      SoundIsValid(Selected(c, id));
      assert Accounts(Selected(c, id)) == Accounts(c);
    }
  }

  // ----- removing -----

  lemma UnlistedIsSound(c: Config, id: string)
    requires Sound(c) && id in Ids(Accounts(c))
    ensures Valid(Unlisted(c, id))
  {
    SoundIsValid(c);
    WithoutIsExact(Accounts(c), id);
    WithoutIsShorter(Accounts(c), id);
    assert Accounts(Unlisted(c, id)) == Without(Accounts(c), id);
  }

  lemma {:induction false} WithoutIsShorter(accounts: seq<Account>, id: string)
    ensures |Without(accounts, id)| <= |accounts|
  {
    if accounts != [] {
      WithoutIsShorter(accounts[1..], id);
    }
  }

  /** A removal succeeds exactly for a legal key that is listed, with a readable, sound configuration,
      a write that goes through, and, if the account has a home, one that can be archived. Whether the
      account is the active one makes no difference. */
  lemma RemovalSucceedsExactly(w: World, id: string, s: EditScript)
    ensures
      Remove(w, id, s).result
        == if !LegalKey(id) || id == "ambient" then Err(InvalidAccount)
           else if !ConfigLoads(w, s.configReadable) then Err(Storage)
           else if !IsListed(w, id) then Err(UnknownAccount)
           else if Writes(s) && CanArchive(w, id, s.stuck) then Ok(id)
           else Err(Storage)
  {
    KeysAreLegal(id);
    LoadsExactly(w, s.configReadable);
    ListedExactly(w, id);
    if LegalKey(id) && id != AMBIENT && ConfigLoads(w, s.configReadable) && IsListed(w, id) {
      var c := Load(w, s.configReadable).value;
      UnlistedIsSound(c, id);
      var written := w.(config := Some(Unlisted(c, id)));
      ArchivesExactly(written, id, s.stuck);
      assert CanArchive(written, id, s.stuck) <==> CanArchive(w, id, s.stuck);
    }
  }

  /** `id` is the active account, and nothing else is different. */
  ghost predicate MakesActive(before: Config, after: Config, id: string) {
    && ActiveId(after) == id && Accounts(after) == Accounts(before) && SameRest(before, after)
    && RouteOf(after).enabled == RouteOf(before).enabled && after.codexOrdered == before.codexOrdered
  }

  /** `id` is not listed any more, the ambient account is active if it was, and nothing else is
      different. */
  ghost predicate TakesOff(before: Config, after: Config, id: string) {
    && (forall a :: a in Accounts(after) <==> a in Accounts(before) && a.id != id)
    && ActiveId(after) == (if ActiveId(before) == id then AMBIENT else ActiveId(before))
    && SameRest(before, after) && RouteOf(after).enabled == RouteOf(before).enabled
    && after.codexOrdered == before.codexOrdered
  }

  lemma EditsSay(c: Config, id: string)
    ensures MakesActive(c, Selected(c, id), id)
    ensures Sound(c) ==> TakesOff(c, Unlisted(c, id), id)
  {
    if Sound(c) {
      ApartIsDistinct(AccountsOf(c));
      assert Ids([]) == [];
      WithoutIsExact(RouteOf(c).accounts, id);
    }
  }

  /** The write takes effect, whether it reports an error or not. */
  predicate TakesEffect(s: EditScript) {
    s.configStaged && !s.configWrite.Refused?
  }

  /** An activation that reports an error changes nothing, unless the configuration was put in place
      all the same: then it makes the account active and changes nothing else. */
  lemma FailedActivationLeaves(w: World, id: string, s: EditScript)
    requires Activate(w, id, s).result.Err?
    ensures
      var after := Activate(w, id, s).world;
      if ConfigLoads(w, s.configReadable) && (id == "ambient" || Account(id, true) in Listing(w))
         && w.config.Some? && (w.config.value.route.Some? || w.config.value.otherCodexRoutes) && TakesEffect(s)
      then after == w.(config := after.config) && after.config.Some?
           && MakesActive(w.config.value, after.config.value, id)
      else after == w
  {
    LoadsExactly(w, s.configReadable);
    if ConfigLoads(w, s.configReadable) {
      var c := Load(w, s.configReadable).value;
      SoundIsValid(c);
      SoundIsValid(Selected(c, id));
      EditsSay(c, id);
      assert Accounts(Selected(c, id)) == Accounts(c);
    }
  }

  /** A removal that reports an error changes nothing, unless the configuration was put in place all
      the same: then the account is off the list and its home is where it was. */
  lemma FailedRemovalLeaves(w: World, id: string, s: EditScript)
    requires Remove(w, id, s).result.Err?
    ensures
      var after := Remove(w, id, s).world;
      if LegalKey(id) && id != "ambient" && ConfigLoads(w, s.configReadable) && IsListed(w, id) && TakesEffect(s)
      then after == w.(config := after.config) && w.config.Some? && after.config.Some?
           && TakesOff(w.config.value, after.config.value, id)
      else after == w
  {
    KeysAreLegal(id);
    LoadsExactly(w, s.configReadable);
    ListedExactly(w, id);
    if LegalKey(id) && id != AMBIENT && ConfigLoads(w, s.configReadable) && IsListed(w, id) {
      var c := Load(w, s.configReadable).value;
      UnlistedIsSound(c, id);
      EditsSay(c, id);
      ArchivesExactly(w.(config := Some(Unlisted(c, id))), id, s.stuck);
    }
  }

  // ----- logging in -----

  /** The `i`-th draw is the first one without a home, among the first 32, and none before it failed. */
  predicate IsFirstFreeDraw(homes: map<string, Home>, draws: seq<Option<string>>, i: nat) {
    && i < |draws| && i < 32 && draws[i].Some? && "acct-" + draws[i].value !in homes
    && forall j :: 0 <= j < i ==> draws[j].Some? && "acct-" + draws[j].value in homes
  }

  lemma {:induction false} AllocatesFirstFree(
    homes: map<string, Home>, draws: seq<Option<string>>, attempts: nat, id: string)
    requires attempts <= 32
    ensures Allocate(homes, draws, attempts) == Some(id)
       <==> exists i :: 0 <= i < attempts && IsFirstFreeDraw(homes, draws, i) && id == "acct-" + draws[i].value
    decreases attempts
  {
    if attempts > 0 && draws != [] && draws[0].Some? && "acct-" + draws[0].value in homes {
      var rest := draws[1..];
      AllocatesFirstFree(homes, rest, attempts - 1, id);
      if i :| 0 <= i < attempts - 1 && IsFirstFreeDraw(homes, rest, i) && id == "acct-" + rest[i].value {
        var n := i + 1;
        forall j | 0 <= j < n ensures draws[j].Some? && "acct-" + draws[j].value in homes {
          if j > 0 { assert draws[j] == rest[j - 1]; }
        }
        assert IsFirstFreeDraw(homes, draws, n);
      }
      if i :| 0 <= i < attempts && IsFirstFreeDraw(homes, draws, i) && id == "acct-" + draws[i].value {
        assert i > 0;
        forall j | 0 <= j < i - 1 ensures rest[j].Some? && "acct-" + rest[j].value in homes {
          assert rest[j] == draws[j + 1];
        }
        assert IsFirstFreeDraw(homes, rest, i - 1);
      }
    } else if Allocate(homes, draws, attempts).Some? {
      assert IsFirstFreeDraw(homes, draws, 0);
    } else {
      assert forall i :: 0 <= i < attempts && IsFirstFreeDraw(homes, draws, i) ==> i == 0 || draws[0].Some?;
    }
  }

  /** The first of the ids with a property. */
  ghost predicate IsFirstWith(same: string -> bool, ids: seq<string>, id: string) {
    exists i :: 0 <= i < |ids| && ids[i] == id && same(id) && forall j :: 0 <= j < i ==> !same(ids[j])
  }

  function Picked(same: string -> bool, ids: seq<string>): seq<string> {
    if ids == [] then [] else if same(ids[0]) then [ids[0]] + Picked(same, ids[1..]) else Picked(same, ids[1..])
  }

  lemma FirstLater(same: string -> bool, ids: seq<string>, id: string)
    requires ids != [] && !same(ids[0]) && IsFirstWith(same, ids[1..], id)
    ensures IsFirstWith(same, ids, id)
  {
    var rest := ids[1..];
    var i :| 0 <= i < |rest| && rest[i] == id && forall j :: 0 <= j < i ==> !same(rest[j]);
    var n := i + 1;
    forall j | 0 <= j < n ensures !same(ids[j]) {
      if j > 0 { assert ids[j] == rest[j - 1]; }
    }
    assert ids[n] == id;
  }

  lemma {:induction false} PickedInOrder(same: string -> bool, ids: seq<string>)
    ensures Picked(same, ids) == [] ==> forall id :: id in ids ==> !same(id)
    ensures Picked(same, ids) != [] ==> IsFirstWith(same, ids, Picked(same, ids)[0])
  {
    if ids != [] {
      PickedInOrder(same, ids[1..]);
      if same(ids[0]) {
        assert ids[0] == Picked(same, ids)[0];
      } else {
        assert ids == [ids[0]] + ids[1..];
        if Picked(same, ids) != [] {
          FirstLater(same, ids, Picked(same, ids)[0]);
        }
      }
    }
  }

  ghost function SamePerson(w: World, identity: Identity, unreadable: set<string>): string -> bool {
    id => IsDuplicate(w.homes, id, identity, unreadable)
  }

  lemma {:induction false} DuplicatesArePicked(
    w: World, accounts: seq<Account>, identity: Identity, unreadable: set<string>)
    ensures Duplicates(w.homes, accounts, identity, unreadable)
         == Picked(SamePerson(w, identity, unreadable), Ids(accounts))
  {
    if accounts != [] {
      DuplicatesArePicked(w, accounts[1..], identity, unreadable);
      assert Ids(accounts)[1..] == Ids(accounts[1..]);
    }
  }

  /** A managed home names somebody exactly when it is there, can be read, and its auth file does. */
  lemma IdentitiesAreRead(homes: map<string, Home>, id: string, unreadable: set<string>)
    ensures
      ReadIdentity(homes, id, unreadable)
        == if id != "ambient" && id in homes && id !in unreadable && homes[id].auth.Some?
           then homes[id].auth.value.identity else None
  {
  }

  lemma SamePersonExactly(w: World, id: string, identity: Identity, unreadable: set<string>)
    ensures
      var existing := ReadIdentity(w.homes, id, unreadable);
      IsDuplicate(w.homes, id, identity, unreadable)
        == (existing.Some? && SameIdentity(identity, existing.value))
  {
  }

  /** The first listed account of the person. */
  ghost predicate IsFirstSame(w: World, id: string, identity: Identity, unreadable: set<string>) {
    IsFirstWith(SamePerson(w, identity, unreadable), Ids(Listing(w)), id)
  }

  ghost predicate NobodyIsSame(w: World, identity: Identity, unreadable: set<string>) {
    forall id :: id in Ids(Listing(w)) ==> !SamePerson(w, identity, unreadable)(id)
  }

  lemma ChosenIsFirst(w: World, pending: string, identity: Identity, s: LoginScript)
    ensures
      var account := Chosen(pending, Found(w, identity, s));
      || (NobodyIsSame(w, identity, s.unreadable) && Found(w, identity, s) == [] && account == pending)
      || IsFirstSame(w, account, identity, s.unreadable)
  {
    LoadsExactly(w, true);
    DuplicatesArePicked(w, Listing(w), identity, s.unreadable);
    PickedInOrder(SamePerson(w, identity, s.unreadable), Ids(Listing(w)));
  }

  /** The homes of these accounts, but for `account`, can be archived one after the other. */
  ghost predicate EachArchived(
    homes: set<string>, taken: set<string>, ids: seq<string>, account: string, stuck: set<string>)
    decreases |ids|
  {
    ids == [] ||
    if ids[0] == account || ids[0] !in homes then EachArchived(homes, taken, ids[1..], account, stuck)
    else
      && ids[0] !in stuck
      && exists name :: IsFirstFree(name, ids[0], taken)
           && EachArchived(homes - {ids[0]}, taken + {name}, ids[1..], account, stuck)
  }

  lemma {:induction false} ArchivesEachExactly(w: World, ids: seq<string>, account: string, stuck: set<string>)
    requires AMBIENT !in ids
    ensures ArchiveAll(w, ids, account, stuck).failure.None?
       <==> EachArchived(w.homes.Keys, w.archive.Keys, ids, account, stuck)
    ensures ArchiveAll(w, ids, account, stuck).failure in {None, Some(Storage)}
    decreases |ids|
  {
    if ids != [] {
      assert ids[0] in ids && AMBIENT !in ids[1..];
      if ids[0] == account {
        ArchivesEachExactly(w, ids[1..], account, stuck);
      } else {
        ArchivesExactly(w, ids[0], stuck);
        var first := Archive(w, ids[0], stuck);
        if first.failure.None? {
          ArchivesEachExactly(first.world, ids[1..], account, stuck);
          if ids[0] in w.homes {
            var name :| IsFirstFree(name, ids[0], w.archive.Keys)
              && first.world == w.(homes := w.homes - {ids[0]}, archive := w.archive[name := w.homes[ids[0]]]);
            assert first.world.homes.Keys == w.homes.Keys - {ids[0]};
            assert first.world.archive.Keys == w.archive.Keys + {name};
            forall other | IsFirstFree(other, ids[0], w.archive.Keys) ensures other == name {
              FirstFreeIsUnique(other, name, ids[0], w.archive.Keys);
            }
          }
        }
      }
    }
  }

  /** The list has room for one more, or somebody on it is replaced. */
  predicate HasRoom(w: World, pending: string, same: seq<string>) {
    same != [] || IsListed(w, pending) || |Listing(w)| < 64
  }

  lemma {:induction false} RetainedIsShorter(accounts: seq<Account>, account: string, duplicates: seq<string>)
    ensures |Retained(accounts, account, duplicates)| <= |accounts|
  {
    if accounts != [] {
      RetainedIsShorter(accounts[1..], account, duplicates);
    }
  }

  lemma RelistedFits(w: World, pending: string, identity: Identity, s: LoginScript)
    requires ConfigLoads(w, true)
    ensures
      var same := Found(w, identity, s);
      Valid(Relisted(Before(w), Chosen(pending, same), same)) <==> HasRoom(w, pending, same)
  {
    var same := Found(w, identity, s);
    var account, accounts := Chosen(pending, same), Listing(w);
    LoadsExactly(w, true);
    ListedExactly(w, account);
    assert Ids([]) == [];
    assert Distinct(Ids(accounts)) && |accounts| <= 64 by {
      if w.config.Some? { SoundIsValid(w.config.value); }
    }
    RelistedIsExact(Before(w), account, same);
    var kept := Retained(accounts, account, same);
    RetainedIsShorter(accounts, account, same);
    RetainedIds(accounts, account, same, account);
    EnabledIds(kept, account);
    assert Accounts(Relisted(Before(w), account, same)) == Enabled(kept, account);
    assert |Enabled(kept, account)| == |Ids(Enabled(kept, account))|;
    if same == [] {
      NothingRetainedAway(accounts, account);
    } else {
      assert same[0] in same;
    }
  }

  lemma {:induction false} NothingRetainedAway(accounts: seq<Account>, account: string)
    ensures Retained(accounts, account, []) == accounts
  {
    if accounts != [] {
      NothingRetainedAway(accounts[1..], account);
    }
  }

  /** What finishing the login of `identity` in the home `pending` needs. */
  ghost predicate Finishes(w: World, pending: string, identity: Identity, s: LoginScript) {
    var same := Found(w, identity, s);
    var account := Chosen(pending, same);
    && ConfigLoads(w, s.configReadable) && HasRoom(w, pending, same) && s.configStaged && s.configWrite.Synced?
    && (account != pending ==> s.oldAuthReadable && s.newAuthReadable && s.authWrite.Synced?)
    && EachArchived(w.homes.Keys, w.archive.Keys, same, account, s.stuck)
  }

  lemma DuplicatesAreManaged(w: World, identity: Identity, s: LoginScript)
    ensures AMBIENT !in Found(w, identity, s)
    ensures forall id :: id in Found(w, identity, s) ==> id in w.homes && w.homes[id].auth.Some?
  {
    forall id | id in Found(w, identity, s) ensures id != AMBIENT && id in w.homes && w.homes[id].auth.Some? {
      assert IsDuplicate(w.homes, id, identity, s.unreadable);
    }
  }

  lemma CommitSucceedsExactly(
    w: World, pending: string, account: string, duplicates: seq<string>, next: Config, s: LoginScript)
    requires pending in w.homes && account in w.homes && AMBIENT !in duplicates
    requires w.homes[account].auth.Some? && w.homes[pending].auth.Some?
    ensures Commit(w, pending, account, duplicates, next, s).result.Ok?
       <==> && s.configWrite.Synced?
            && (account != pending ==> s.oldAuthReadable && s.newAuthReadable && s.authWrite.Synced?)
            && EachArchived(w.homes.Keys, w.archive.Keys, duplicates, account, s.stuck)
    ensures Commit(w, pending, account, duplicates, next, s).result in {Ok(account), Err(Storage)}
  {
    if s.configWrite.Synced? && Reaches(w, pending, account, s) {
      var replaced := ReplaceAuth(w, pending, account, s).value;
      var committed := replaced.(config := Some(next));
      assert committed.homes.Keys == w.homes.Keys;
      ArchivesEachExactly(committed, duplicates, account, s.stuck);
    }
  }

  lemma FinishSucceedsExactly(w: World, pending: string, identity: Identity, s: LoginScript)
    requires pending in w.homes && w.homes[pending].auth.Some?
    ensures FinishLogin(w, pending, identity, s).result.Ok? <==> Finishes(w, pending, identity, s)
    ensures FinishLogin(w, pending, identity, s).result.Err? ==>
              FinishLogin(w, pending, identity, s).result.error.Storage?
  {
    LoadsExactly(w, s.configReadable);
    if ConfigLoads(w, s.configReadable) {
      var same := Found(w, identity, s);
      var account := Chosen(pending, same);
      RelistedFits(w, pending, identity, s);
      ChosenIsHomed(w, pending, identity, s);
      DuplicatesAreManaged(w, identity, s);
      CommitSucceedsExactly(w, pending, account, same, Relisted(Before(w), account, same), s);
    }
  }

  /** The login ran in the drawn home and says who logged in. */
  predicate RunsAndKnows(pending: string, s: LoginScript) {
    && s.homeMade.Synced? && s.executableFound && s.exitedWell && pending !in s.unreadable
    && s.produced.auth.Some? && s.produced.auth.value.identity.Some?
    && var identity := s.produced.auth.value.identity.value;
       identity.email.Some? || identity.workspace.Some?
  }

  /** Everything a login needs to succeed. */
  ghost predicate LoginGoesThrough(w: World, i: nat, s: LoginScript) {
    && s.rootReady && IsFirstFreeDraw(w.homes, s.draws, i)
    && var pending := "acct-" + s.draws[i].value;
       && RunsAndKnows(pending, s)
       && Finishes(w.(homes := w.homes[pending := s.produced]), pending, s.produced.auth.value.identity.value, s)
  }

  lemma LoginInHomeSucceedsExactly(w: World, pending: string, s: LoginScript)
    requires pending !in w.homes && pending != AMBIENT && s.homeMade.Synced?
    ensures
      var done := LoginInHome(w.(homes := w.homes[pending := Home(None, "")]), pending, s);
      var ran := w.(homes := w.homes[pending := s.produced]);
      done.result.Ok? == (RunsAndKnows(pending, s) && Finishes(ran, pending, s.produced.auth.value.identity.value, s))
  {
    var made := w.(homes := w.homes[pending := Home(None, "")]);
    var ran := w.(homes := w.homes[pending := s.produced]);
    assert made.(homes := made.homes[pending := s.produced]) == ran;
    if RunsAndKnows(pending, s) {
      FinishSucceedsExactly(ran, pending, s.produced.auth.value.identity.value, s);
    }
  }

  /** A login succeeds exactly when a free id is drawn, the external login runs and says who it was,
      the configuration loads, has room and is written, an earlier auth file is read and replaced,
      and the other accounts of the person can be archived. */
  lemma LoginSucceedsExactly(w: World, s: LoginScript)
    ensures Login(w, s).result.Ok? <==> exists i: nat :: LoginGoesThrough(w, i, s)
  {
    var drawn := Allocate(w.homes, s.draws, 32);
    if drawn.Some? {
      AllocatesFirstFree(w.homes, s.draws, 32, drawn.value);
      if s.rootReady && s.homeMade.Synced? {
        LoginInHomeSucceedsExactly(w, drawn.value, s);
      }
    }
    forall i: nat | IsFirstFreeDraw(w.homes, s.draws, i) ensures drawn == Some("acct-" + s.draws[i].value) {
      AllocatesFirstFree(w.homes, s.draws, 32, "acct-" + s.draws[i].value);
    }
    if Login(w, s).result.Ok? {
      var i: nat :| i < 32 && IsFirstFreeDraw(w.homes, s.draws, i) && drawn.value == "acct-" + s.draws[i].value;
      assert LoginGoesThrough(w, i, s);
    }
  }

  /** The error a failed login reports: only a missing executable, a failed external login and an
      unknown person are told apart from failures of the storage. */
  lemma LoginReports(w: World, s: LoginScript)
    requires Login(w, s).result.Err?
    ensures
      Login(w, s).result.error
        == if !s.rootReady || Allocate(w.homes, s.draws, 32).None? || !s.homeMade.Synced? then Storage
           else if !s.executableFound then MissingExecutable
           else if !s.exitedWell then LoginFailed
           else if !RunsAndKnows(Allocate(w.homes, s.draws, 32).value, s) then MissingIdentity
           else Storage
  {
    var drawn := Allocate(w.homes, s.draws, 32);
    if s.rootReady && drawn.Some? && s.homeMade.Synced? {
      var pending := drawn.value;
      var made := w.(homes := w.homes[pending := Home(None, "")]);
      var ran := w.(homes := w.homes[pending := s.produced]);
      assert made.(homes := made.homes[pending := s.produced]) == ran;
      if RunsAndKnows(pending, s) {
        FinishSucceedsExactly(ran, pending, s.produced.auth.value.identity.value, s);
      }
    }
  }

  /** The account is the first listed one of the person, or the drawn one if there is none. */
  ghost predicate IsForFirst(w: World, pending: string, account: string, identity: Identity, unreadable: set<string>) {
    || (NobodyIsSame(w, identity, unreadable) && account == pending)
    || IsFirstSame(w, account, identity, unreadable)
  }

  lemma FinishIsChosen(w: World, pending: string, identity: Identity, s: LoginScript)
    requires pending in w.homes && FinishLogin(w, pending, identity, s).result.Ok?
    ensures FinishLogin(w, pending, identity, s).result == Ok(Chosen(pending, Found(w, identity, s)))
  {
    var same := Found(w, identity, s);
    var account := Chosen(pending, same);
    ChosenIsHomed(w, pending, identity, s);
    FinishIsCommit(w, pending, identity, s, account);
    CommitReturnsAccount(w, pending, account, same, Relisted(Before(w), account, same), s);
  }

  /** What a login that succeeds returns comes from finishing it in the drawn home. */
  lemma LoginIsFinished(w: World, s: LoginScript) returns (pending: string, identity: Identity, ran: World)
    requires Login(w, s).result.Ok?
    ensures Allocate(w.homes, s.draws, ID_ATTEMPTS) == Some(pending)
    ensures s.produced.auth.Some? && s.produced.auth.value.identity == Some(identity)
    ensures ran == w.(homes := w.homes[pending := s.produced])
    ensures FinishLogin(ran, pending, identity, s).result == Login(w, s).result
  {
    pending := Allocate(w.homes, s.draws, ID_ATTEMPTS).value;
    var made := w.(homes := w.homes[pending := Home(None, "")]);
    ran := w.(homes := w.homes[pending := s.produced]);
    assert made.(homes := made.homes[pending := s.produced]) == ran;
    identity := ReadIdentity(ran.homes, pending, s.unreadable).value;
    assert LoginInHome(made, pending, s) == FinishLogin(ran, pending, identity, s);
  }

  /** A successful login is for the first listed account of the person, or for the drawn one if
      nobody listed is that person. */
  lemma LoginKeepsFirst(w: World, s: LoginScript)
    requires Login(w, s).result.Ok?
    ensures
      exists pending, identity ::
        && Allocate(w.homes, s.draws, ID_ATTEMPTS) == Some(pending)
        && s.produced.auth.Some? && s.produced.auth.value.identity == Some(identity)
        && IsForFirst(w.(homes := w.homes[pending := s.produced]), pending, Login(w, s).result.value, identity,
                      s.unreadable)
  {
    var pending, identity, ran := LoginIsFinished(w, s);
    FinishIsChosen(ran, pending, identity, s);
    ChosenIsFirst(ran, pending, identity, s);
    assert IsForFirst(ran, pending, Login(w, s).result.value, identity, s.unreadable);
  }
}
