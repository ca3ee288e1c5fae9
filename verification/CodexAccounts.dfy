/** Managed Codex accounts (crates/app/src/codex_accounts.rs): the configuration, one home
    directory per account, and an archive of removed homes. Every operation takes a script
    that says which of its input and output steps succeed. */
module CodexAccounts {
  import opened Results
  import opened AtomicFile
  import opened AccountIdentity
  import opened Sequences
  import Decimal

  const AMBIENT := "ambient"
  const ID_ATTEMPTS := 32
  const MAX_ACCOUNTS := 64
  const MAX_ACCOUNT_KEY_BYTES := 160
  const MAX_ARCHIVE_NAMES := 0x1_0000

  datatype Failure = Storage | MissingExecutable | LoginFailed | MissingIdentity | UnknownAccount | InvalidAccount

  datatype Auth = Auth(contents: string, identity: Option<Identity>)

  /** A home directory: its auth file, and everything else in it. */
  datatype Home = Home(auth: Option<Auth>, rest: string)

  datatype Account = Account(id: string, enabled: bool)

  datatype Route = Route(enabled: bool, accounts: seq<Account>, active: Option<string>, rest: string)

  /** `route` is the default Codex route; `rest` stands for what no operation here touches. */
  datatype Config = Config(route: Option<Route>, otherCodexRoutes: bool, codexOrdered: bool, rest: string)

  const EMPTY := Config(None, false, false, "")

  datatype World = World(config: Option<Config>, homes: map<string, Home>, archive: map<string, Home>)

  datatype Done = Done(world: World, result: Result<string, Failure>)

  // ----- configuration -----

  function Ids(accounts: seq<Account>): (r: seq<string>)
    ensures |r| == |accounts| && forall i :: 0 <= i < |r| ==> r[i] == accounts[i].id
  {
    seq(|accounts|, i requires 0 <= i < |accounts| => accounts[i].id)
  }

  function Accounts(c: Config): seq<Account> {
    if c.route.Some? then c.route.value.accounts else []
  }

  function ActiveId(c: Config): string {
    if c.route.Some? && c.route.value.active.Some? then c.route.value.active.value else AMBIENT
  }

  function RouteOf(c: Config): Route {
    if c.route.Some? then c.route.value else Route(true, [], None, "")
  }

  /** The checks of the configuration that concern Codex. */
  predicate Valid(c: Config) {
    && Distinct(Ids(Accounts(c))) && |Accounts(c)| <= MAX_ACCOUNTS
    && (c.codexOrdered <==> c.route.Some? || c.otherCodexRoutes)
  }

  function Load(w: World, readable: bool): (r: Option<Config>)
    ensures r.Some? ==> r.value == (if w.config.Some? then w.config.value else EMPTY)
  {
    if !readable then None
    else if w.config.None? then Some(EMPTY)
    else if Valid(w.config.value) then w.config
    else None
  }

  function WriteConfig(w: World, next: Config, staged: bool, outcome: WriteOutcome): Result<World, World> {
    if !Valid(next) || !staged then Err(w)
    else
      var after := w.(config := After(w.config, Some(next), outcome));
      if outcome.Synced? then Ok(after) else Err(after)
  }

  // ----- login -----

  /** What the steps of one login meet. `leftover` is what stays of the pending home when it is
      cleaned up; `stuck` names the homes that cannot be archived. */
  datatype LoginScript = LoginScript(
    rootReady: bool,
    draws: seq<Option<string>>,
    homeMade: WriteOutcome,
    executableFound: bool,
    produced: Home,
    exitedWell: bool,
    unreadable: set<string>,
    configReadable: bool,
    configStaged: bool,
    oldAuthReadable: bool,
    newAuthReadable: bool,
    authWrite: WriteOutcome,
    configWrite: WriteOutcome,
    authRestore: WriteOutcome,
    stuck: set<string>,
    leftover: Option<Home>)

  /** The first drawn id without a home. */
  function Allocate(homes: map<string, Home>, draws: seq<Option<string>>, attempts: nat): (r: Option<string>)
    ensures r.Some? ==> r.value !in homes && r.value != AMBIENT
  {
    if attempts == 0 || draws == [] || draws[0].None? then None
    else
      var id := "acct-" + draws[0].value;
      assert id[1] == 'c' && AMBIENT[1] == 'm';
      if id in homes then Allocate(homes, draws[1..], attempts - 1) else Some(id)
  }

  function ReadIdentity(homes: map<string, Home>, id: string, unreadable: set<string>): Option<Identity> {
    if id == AMBIENT || id !in homes || id in unreadable || homes[id].auth.None? then None
    else homes[id].auth.value.identity
  }

  predicate IsDuplicate(homes: map<string, Home>, id: string, identity: Identity, unreadable: set<string>) {
    var existing := ReadIdentity(homes, id, unreadable);
    existing.Some? && SameIdentity(identity, existing.value)
  }

  /** The listed accounts of the same person, in their order. */
  function Duplicates(
    homes: map<string, Home>, accounts: seq<Account>, identity: Identity, unreadable: set<string>): (r: seq<string>)
    ensures forall id :: id in r <==> id in Ids(accounts) && IsDuplicate(homes, id, identity, unreadable)
  {
    if accounts == [] then []
    else
      var rest := Duplicates(homes, accounts[1..], identity, unreadable);
      assert Ids(accounts) == [accounts[0].id] + Ids(accounts[1..]);
      if IsDuplicate(homes, accounts[0].id, identity, unreadable) then [accounts[0].id] + rest else rest
  }

  function Retained(accounts: seq<Account>, account: string, duplicates: seq<string>): seq<Account> {
    if accounts == [] then []
    else
      var rest := Retained(accounts[1..], account, duplicates);
      if accounts[0].id == account || accounts[0].id !in duplicates then [accounts[0]] + rest else rest
  }

  /** Enables the first account with the id, or appends a new one. */
  function Enabled(accounts: seq<Account>, id: string): seq<Account> {
    if accounts == [] then [Account(id, true)]
    else if accounts[0].id == id then [Account(id, true)] + accounts[1..]
    else [accounts[0]] + Enabled(accounts[1..], id)
  }

  /** The configuration after a login as `account`, replacing its duplicates. */
  function Relisted(c: Config, account: string, duplicates: seq<string>): Config {
    var route := RouteOf(c);
    c.(route := Some(route.(enabled := true, active := Some(account),
                            accounts := Enabled(Retained(route.accounts, account, duplicates), account))),
       codexOrdered := true)
  }

  /** Copies the new auth file over the old one when an earlier account is kept. */
  function ReplaceAuth(w: World, pending: string, account: string, s: LoginScript): Result<World, World>
    requires pending in w.homes && account in w.homes
  {
    if account == pending then Ok(w)
    else if !s.oldAuthReadable || w.homes[account].auth.None? || !s.newAuthReadable || w.homes[pending].auth.None?
    then Err(w)
    else
      var home := w.homes[account];
      var after := w.(homes := w.homes[account := After(home, home.(auth := w.homes[pending].auth), s.authWrite)]);
      if s.authWrite.Synced? then Ok(after) else Err(after)
  }

  /** Puts the old auth file back after a failed commit. */
  function RestoreAuth(w: World, pending: string, account: string, saved: Option<Auth>, s: LoginScript): World
    requires account in w.homes
  {
    if account == pending then w
    else
      var home := w.homes[account];
      w.(homes := w.homes[account := After(home, home.(auth := saved), s.authRestore)])
  }

  function ArchiveName(id: string, suffix: nat): string {
    if suffix == 0 then id else id + "-" + Decimal.Text(suffix)
  }

  function FreeName(archive: map<string, Home>, id: string, suffix: nat): (r: Option<string>)
    ensures r.Some? ==> r.value !in archive
    decreases MAX_ARCHIVE_NAMES - suffix
  {
    if suffix >= MAX_ARCHIVE_NAMES then None
    else if ArchiveName(id, suffix) !in archive then Some(ArchiveName(id, suffix))
    else FreeName(archive, id, suffix + 1)
  }

  datatype Archived = Archived(world: World, failure: Option<Failure>)

  function Archive(w: World, id: string, stuck: set<string>): Archived {
    if id == AMBIENT then Archived(w, Some(InvalidAccount))
    else if id !in w.homes then Archived(w, None)
    else
      var name := FreeName(w.archive, id, 0);
      if name.None? || id in stuck then Archived(w, Some(Storage))
      else Archived(w.(homes := w.homes - {id}, archive := w.archive[name.value := w.homes[id]]), None)
  }

  /** Archives all the duplicates but the account itself, up to the first failure. */
  function ArchiveAll(w: World, ids: seq<string>, account: string, stuck: set<string>): Archived
    decreases |ids|
  {
    if ids == [] then Archived(w, None)
    else if ids[0] == account then ArchiveAll(w, ids[1..], account, stuck)
    else
      var first := Archive(w, ids[0], stuck);
      if first.failure.Some? then first else ArchiveAll(first.world, ids[1..], account, stuck)
  }

  /** Replaces the auth file, commits the configuration and archives the duplicates. */
  function Commit(
    w: World, pending: string, account: string, duplicates: seq<string>, next: Config, s: LoginScript): Done
    requires pending in w.homes && account in w.homes
  {
    match ReplaceAuth(w, pending, account, s)
    case Err(after) => Done(after, Err(Storage))
    case Ok(replaced) =>
      var committed := replaced.(config := After(w.config, Some(next), s.configWrite));
      if !s.configWrite.Synced? then
        Done(RestoreAuth(committed, pending, account, w.homes[account].auth, s), Err(Storage))
      else
        var archived := ArchiveAll(committed, duplicates, account, s.stuck);
        Done(archived.world, if archived.failure.Some? then Err(archived.failure.value) else Ok(account))
  }

  function FinishLogin(w: World, pending: string, identity: Identity, s: LoginScript): Done
    requires pending in w.homes
  {
    match Load(w, s.configReadable)
    case None => Done(w, Err(Storage))
    case Some(c) =>
      var duplicates := Duplicates(w.homes, Accounts(c), identity, s.unreadable);
      var account := if duplicates == [] then pending else duplicates[0];
      var next := Relisted(c, account, duplicates);
      assert duplicates != [] ==> IsDuplicate(w.homes, duplicates[0], identity, s.unreadable);
      if !Valid(next) || !s.configStaged then Done(w, Err(Storage))
      else Commit(w, pending, account, duplicates, next, s)
  }

  /** Runs the external login in the pending home. */
  function LoginInHome(w: World, pending: string, s: LoginScript): Done
    requires pending in w.homes
  {
    if !s.executableFound then Done(w, Err(MissingExecutable))
    else
      var ran := w.(homes := w.homes[pending := s.produced]);
      var identity := ReadIdentity(ran.homes, pending, s.unreadable);
      if !s.exitedWell then Done(ran, Err(LoginFailed))
      else if identity.None? || (identity.value.email.None? && identity.value.workspace.None?)
      then Done(ran, Err(MissingIdentity))
      else FinishLogin(ran, pending, identity.value, s)
  }

  function Cleaned(w: World, pending: string, leftover: Option<Home>): World {
    w.(homes := if leftover.Some? then w.homes[pending := leftover.value] else w.homes - {pending})
  }

  function Login(w: World, s: LoginScript): Done {
    if !s.rootReady then Done(w, Err(Storage))
    else
      match Allocate(w.homes, s.draws, ID_ATTEMPTS)
      case None => Done(w, Err(Storage))
      case Some(pending) =>
        var made := w.(homes := if s.homeMade.Refused? then w.homes else w.homes[pending := Home(None, "")]);
        if !s.homeMade.Synced? then Done(made, Err(Storage))
        else
          var done := LoginInHome(made, pending, s);
          if done.result == Ok(pending) then done else Done(Cleaned(done.world, pending, s.leftover), done.result)
  }

  // ----- activate and remove -----

  datatype EditScript = EditScript(
    configReadable: bool,
    configStaged: bool,
    configWrite: WriteOutcome,
    stuck: set<string>)

  function Selected(c: Config, id: string): Config {
    c.(route := Some(RouteOf(c).(active := Some(id))))
  }

  predicate CanActivate(c: Config, id: string) {
    id == AMBIENT || Account(id, true) in Accounts(c)
  }

  function Activate(w: World, id: string, s: EditScript): Done {
    match Load(w, s.configReadable)
    case None => Done(w, Err(Storage))
    case Some(c) =>
      if !CanActivate(c, id) then Done(w, Err(UnknownAccount))
      else
        match WriteConfig(w, Selected(c, id), s.configStaged, s.configWrite)
        case Err(after) => Done(after, Err(Storage))
        case Ok(after) => Done(after, Ok(id))
  }

  predicate IsAccountKey(id: string) {
    && 0 < |id| <= MAX_ACCOUNT_KEY_BYTES
    && forall i :: 0 <= i < |id| ==>
      'a' <= id[i] <= 'z' || 'A' <= id[i] <= 'Z' || '0' <= id[i] <= '9' || id[i] in "-_.:+"
  }

  function Without(accounts: seq<Account>, id: string): seq<Account> {
    if accounts == [] then []
    else if accounts[0].id == id then Without(accounts[1..], id)
    else [accounts[0]] + Without(accounts[1..], id)
  }

  function Unlisted(c: Config, id: string): Config {
    var route := RouteOf(c);
    c.(route := Some(route.(accounts := Without(route.accounts, id),
                            active := if ActiveId(c) == id then Some(AMBIENT) else route.active)))
  }

  function Remove(w: World, id: string, s: EditScript): Done {
    if !IsAccountKey(id) || id == AMBIENT then Done(w, Err(InvalidAccount))
    else
      match Load(w, s.configReadable)
      case None => Done(w, Err(Storage))
      case Some(c) =>
        if id !in Ids(Accounts(c)) then Done(w, Err(UnknownAccount))
        else
          match WriteConfig(w, Unlisted(c, id), s.configStaged, s.configWrite)
          case Err(after) => Done(after, Err(Storage))
          case Ok(after) =>
            var archived := Archive(after, id, s.stuck);
            Done(archived.world, if archived.failure.Some? then Err(archived.failure.value) else Ok(id))
  }
}
