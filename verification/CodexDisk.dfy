/** The operations on managed Codex accounts as they change the disk step by step. */
module CodexDisk {
  import opened Results
  import opened AtomicFile
  import opened AccountIdentity
  import opened CodexAccounts

  lemma RetainedSplit(a: seq<Account>, b: seq<Account>, account: string, duplicates: seq<string>)
    ensures Retained(a + b, account, duplicates) == Retained(a, account, duplicates) + Retained(b, account, duplicates)
  {
    if a == [] {
      assert a + b == b;
    } else {
      assert (a + b)[1..] == a[1..] + b;
      RetainedSplit(a[1..], b, account, duplicates);
    }
  }

  lemma EnabledFrom(a: seq<Account>, b: seq<Account>, id: string)
    requires forall i :: 0 <= i < |a| ==> a[i].id != id
    ensures Enabled(a + b, id) == a + Enabled(b, id)
  {
    if a == [] {
      assert a + b == b;
    } else {
      assert (a + b)[1..] == a[1..] + b;
      EnabledFrom(a[1..], b, id);
    }
  }

  method Retain(accounts: seq<Account>, account: string, duplicates: seq<string>) returns (kept: seq<Account>)
    ensures kept == Retained(accounts, account, duplicates)
  {
    kept := [];
    for i := 0 to |accounts|
      invariant kept == Retained(accounts[..i], account, duplicates)
    {
      RetainedSplit(accounts[..i], [accounts[i]], account, duplicates);
      assert accounts[..i + 1] == accounts[..i] + [accounts[i]];
      if accounts[i].id == account || accounts[i].id !in duplicates {
        kept := kept + [accounts[i]];
      }
    }
    assert accounts[..|accounts|] == accounts;
  }

  method Enable(accounts: seq<Account>, id: string) returns (listed: seq<Account>)
    ensures listed == Enabled(accounts, id)
  {
    var i := 0;
    while i < |accounts| && accounts[i].id != id
      invariant 0 <= i <= |accounts| && forall j :: 0 <= j < i ==> accounts[j].id != id
    {
      i := i + 1;
    }
    EnabledFrom(accounts[..i], accounts[i..], id);
    assert accounts == accounts[..i] + accounts[i..];
    if i < |accounts| {
      listed := accounts[i := accounts[i].(enabled := true)];
      assert listed == accounts[..i] + ([Account(id, true)] + accounts[i..][1..]);
    } else {
      listed := accounts + [Account(id, true)];
    }
  }

  class Disk {
    var config: Option<Config>
    var homes: map<string, Home>
    var archive: map<string, Home>

    constructor (w: World)
      ensures Contents() == w
    {
      config, homes, archive := w.config, w.homes, w.archive;
    }

    ghost function Contents(): World
      reads this
    {
      World(config, homes, archive)
    }

    method LoadConfig(readable: bool) returns (r: Option<Config>)
      ensures r == Load(Contents(), readable)
    {
      if !readable {
        return None;
      }
      if config.None? {
        return Some(EMPTY);
      }
      return if Valid(config.value) then config else None;
    }

    method SaveConfig(next: Config, staged: bool, outcome: WriteOutcome) returns (ok: bool)
      modifies this`config
      ensures var r := WriteConfig(old(Contents()), next, staged, outcome);
              ok == r.Ok? && Contents() == if r.Ok? then r.value else r.error
    {
      if !Valid(next) || !staged {
        return false;
      }
      if !outcome.Refused? {
        config := Some(next);
      }
      return outcome.Synced?;
    }

    /** Up to 32 draws; a drawn id that has a home is drawn again. */
    method AllocateId(draws: seq<Option<string>>) returns (r: Option<string>)
      ensures r == Allocate(homes, draws, ID_ATTEMPTS)
    {
      for i := 0 to ID_ATTEMPTS
        invariant i <= |draws|
        invariant Allocate(homes, draws[i..], ID_ATTEMPTS - i) == Allocate(homes, draws, ID_ATTEMPTS)
      {
        if i == |draws| || draws[i].None? {
          return None;
        }
        var id := "acct-" + draws[i].value;
        if id !in homes {
          return Some(id);
        }
        assert draws[i..][1..] == draws[i + 1..];
      }
      return None;
    }

    method ArchiveHome(id: string, stuck: set<string>) returns (failure: Option<Failure>)
      modifies this`homes, this`archive
      ensures Archived(Contents(), failure) == Archive(old(Contents()), id, stuck)
    {
      if id == AMBIENT {
        return Some(InvalidAccount);
      }
      if id !in homes {
        return None;
      }
      var suffix := 0;
      while suffix < MAX_ARCHIVE_NAMES && ArchiveName(id, suffix) in archive
        invariant 0 <= suffix <= MAX_ARCHIVE_NAMES
        invariant FreeName(archive, id, suffix) == FreeName(archive, id, 0)
      {
        suffix := suffix + 1;
      }
      if suffix == MAX_ARCHIVE_NAMES || id in stuck {
        return Some(Storage);
      }
      archive := archive[ArchiveName(id, suffix) := homes[id]];
      homes := homes - {id};
      return None;
    }

    method ArchiveDuplicates(ids: seq<string>, account: string, stuck: set<string>) returns (failure: Option<Failure>)
      modifies this`homes, this`archive
      ensures Archived(Contents(), failure) == ArchiveAll(old(Contents()), ids, account, stuck)
    {
      for i := 0 to |ids|
        invariant ArchiveAll(Contents(), ids[i..], account, stuck) == ArchiveAll(old(Contents()), ids, account, stuck)
      {
        assert ids[i..][1..] == ids[i + 1..];
        if ids[i] != account {
          failure := ArchiveHome(ids[i], stuck);
          if failure.Some? {
            return;
          }
        }
      }
      failure := None;
    }

    method WriteAuth(id: string, auth: Option<Auth>, outcome: WriteOutcome) returns (ok: bool)
      requires id in homes
      modifies this`homes
      ensures homes == old(homes)[id := After(old(homes)[id], old(homes)[id].(auth := auth), outcome)]
      ensures ok == outcome.Synced?
    {
      if !outcome.Refused? {
        homes := homes[id := homes[id].(auth := auth)];
      }
      assert old(homes) == old(homes)[id := old(homes)[id]];
      return outcome.Synced?;
    }

    method CommitLogin(
      pending: string, account: string, duplicates: seq<string>, next: Config, s: LoginScript)
      returns (r: Result<string, Failure>)
      requires pending in homes && account in homes
      modifies this
      ensures Done(Contents(), r) == Commit(old(Contents()), pending, account, duplicates, next, s)
    {
      var saved := homes[account].auth;
      if account != pending {
        if !s.oldAuthReadable || saved.None? || !s.newAuthReadable || homes[pending].auth.None? {
          return Err(Storage);
        }
        var replaced := WriteAuth(account, homes[pending].auth, s.authWrite);
        if !replaced {
          return Err(Storage);
        }
      }
      if !s.configWrite.Refused? {
        config := Some(next);
      }
      if !s.configWrite.Synced? {
        if account != pending {
          var _ := WriteAuth(account, saved, s.authRestore);
        }
        return Err(Storage);
      }
      var failure := ArchiveDuplicates(duplicates, account, s.stuck);
      return if failure.Some? then Err(failure.value) else Ok(account);
    }

    method CompleteLogin(pending: string, identity: Identity, s: LoginScript) returns (r: Result<string, Failure>)
      requires pending in homes
      modifies this
      ensures Done(Contents(), r) == FinishLogin(old(Contents()), pending, identity, s)
    {
      var loaded := LoadConfig(s.configReadable);
      if loaded.None? {
        return Err(Storage);
      }
      var next := loaded.value;
      var duplicates := Duplicates(homes, Accounts(next), identity, s.unreadable);
      var account := if duplicates == [] then pending else duplicates[0];
      assert duplicates != [] ==> IsDuplicate(homes, duplicates[0], identity, s.unreadable);
      var route := RouteOf(next).(enabled := true);
      var accounts := Retain(route.accounts, account, duplicates);
      accounts := Enable(accounts, account);
      route := route.(accounts := accounts, active := Some(account));
      next := next.(route := Some(route), codexOrdered := true);
      if !Valid(next) || !s.configStaged {
        return Err(Storage);
      }
      r := CommitLogin(pending, account, duplicates, next, s);
    }

    method RunLogin(pending: string, s: LoginScript) returns (r: Result<string, Failure>)
      requires pending in homes
      modifies this
      ensures Done(Contents(), r) == LoginInHome(old(Contents()), pending, s)
    {
      if !s.executableFound {
        return Err(MissingExecutable);
      }
      homes := homes[pending := s.produced];
      if !s.exitedWell {
        return Err(LoginFailed);
      }
      var identity := ReadIdentity(homes, pending, s.unreadable);
      if identity.None? || (identity.value.email.None? && identity.value.workspace.None?) {
        return Err(MissingIdentity);
      }
      r := CompleteLogin(pending, identity.value, s);
    }

    method LogIn(s: LoginScript) returns (r: Result<string, Failure>)
      modifies this
      ensures Done(Contents(), r) == Login(old(Contents()), s)
    {
      if !s.rootReady {
        return Err(Storage);
      }
      var drawn := AllocateId(s.draws);
      if drawn.None? {
        return Err(Storage);
      }
      var pending := drawn.value;
      if !s.homeMade.Refused? {
        homes := homes[pending := Home(None, "")];
      }
      if !s.homeMade.Synced? {
        return Err(Storage);
      }
      r := RunLogin(pending, s);
      if r != Ok(pending) {
        homes := if s.leftover.Some? then homes[pending := s.leftover.value] else homes - {pending};
      }
    }

    method ActivateAccount(id: string, s: EditScript) returns (r: Result<string, Failure>)
      modifies this
      ensures Done(Contents(), r) == Activate(old(Contents()), id, s)
    {
      var loaded := LoadConfig(s.configReadable);
      if loaded.None? {
        return Err(Storage);
      }
      var next := loaded.value;
      if !CanActivate(next, id) {
        return Err(UnknownAccount);
      }
      next := next.(route := Some(RouteOf(next).(active := Some(id))));
      var ok := SaveConfig(next, s.configStaged, s.configWrite);
      return if ok then Ok(id) else Err(Storage);
    }

    method RemoveAccount(id: string, s: EditScript) returns (r: Result<string, Failure>)
      modifies this
      ensures Done(Contents(), r) == Remove(old(Contents()), id, s)
    {
      if !IsAccountKey(id) || id == AMBIENT {
        return Err(InvalidAccount);
      }
      var loaded := LoadConfig(s.configReadable);
      if loaded.None? {
        return Err(Storage);
      }
      var next := loaded.value;
      var active := ActiveId(next);
      var route := RouteOf(next);
      if id !in Ids(route.accounts) {
        return Err(UnknownAccount);
      }
      route := route.(accounts := Without(route.accounts, id));
      if active == id {
        route := route.(active := Some(AMBIENT));
      }
      next := next.(route := Some(route));
      var ok := SaveConfig(next, s.configStaged, s.configWrite);
      if !ok {
        return Err(Storage);
      }
      var failure := ArchiveHome(id, s.stuck);
      return if failure.Some? then Err(failure.value) else Ok(id);
    }
  }
}
