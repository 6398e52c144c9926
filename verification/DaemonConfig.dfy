// The daemon's command line and environment (`config.rs` of ironmaintd): a
// hand-written walk over the arguments, then flag before variable before
// default. Arguments are taken after their lossy conversion to text.
module DaemonConfig {
  import opened Prelude
  import opened Text

  datatype SocketAddr = SocketAddr(ip: seq<byte>, port: nat)

  datatype Setting =
    | StateDir | MigrationsDir | Bind | TokenFile | WorkspaceRoot | ArtifactsRoot
    | FixtureBin | DebianToolBin | Log | SourceImportAllowlist | BtsHelper

  datatype Flag = HelpFlag | VersionFlag | Sets(setting: Setting) | UnknownFlag

  datatype ConfigError =
    | UnknownArgument(flag: string)
    | RequiresValue(flag: string)
    | NoToken
    | InvalidValue(value: string)
    | Missing(what: Setting, path: string)

  datatype RuntimeConfig = RuntimeConfig(
    stateDir: string,
    migrationsDir: string,
    bind: SocketAddr,
    tokenFile: string,
    workspaceRoot: string,
    artifactsRoot: string,
    fixtureBin: string,
    debianToolBin: string,
    logFilter: string,
    sourceImportAllowlist: seq<string>,
    btsHelper: Option<string>)

  datatype ConfigOutcome = Run(config: RuntimeConfig) | Help | Version

  type AddrParser = string -> Option<SocketAddr>

  // What the process supplies: its environment, the address parser of the
  // standard library, the file system, and the two computed defaults.
  datatype World = World(
    getEnv: string -> Option<string>,
    parseAddr: AddrParser,
    isFile: string -> bool,
    isDir: string -> bool,
    defaultMigrationsDir: string,
    defaultFixtureBin: string)

  function FlagOf(flag: string): Flag {
    if flag == "--help" || flag == "-h" then HelpFlag
    else if flag == "--version" || flag == "-V" then VersionFlag
    else if flag == "--state-dir" then Sets(StateDir)
    else if flag == "--migrations-dir" then Sets(MigrationsDir)
    else if flag == "--bind" then Sets(Bind)
    else if flag == "--token-file" then Sets(TokenFile)
    else if flag == "--workspace-root" then Sets(WorkspaceRoot)
    else if flag == "--artifacts-root" then Sets(ArtifactsRoot)
    else if flag == "--fixture-bin" then Sets(FixtureBin)
    else if flag == "--debian-tool-bin" then Sets(DebianToolBin)
    else if flag == "--log" then Sets(Log)
    else if flag == "--source-import-allowlist" then Sets(SourceImportAllowlist)
    else if flag == "--bts-helper" then Sets(BtsHelper)
    else UnknownFlag
  }

  function EnvName(s: Setting): string {
    match s
    case StateDir => "IRONMAINT_STATE_DIR"
    case MigrationsDir => "IRONMAINT_MIGRATIONS_DIR"
    case Bind => "IRONMAINT_BIND"
    case TokenFile => "IRONMAINT_TOKEN_FILE"
    case WorkspaceRoot => "IRONMAINT_WORKSPACE_ROOT"
    case ArtifactsRoot => "IRONMAINT_ARTIFACTS_ROOT"
    case FixtureBin => "IRONMAINT_FIXTURE_BIN"
    case DebianToolBin => "IRONMAINT_DEBIAN_TOOL_BIN"
    case Log => "IRONMAINT_LOG"
    case SourceImportAllowlist => "IRONMAINT_SOURCE_IMPORT_ALLOWLIST"
    case BtsHelper => "IRONMAINT_BTS_HELPER"
  }

  // ---- The options a list of arguments spells --------------------------------------

  datatype Item = Item(flag: string, value: Option<string>)

  // `--flag=value` is cut at its first "=", but only behind a leading "-".
  function SplitInline(arg: string): (string, Option<string>) {
    match Find(arg, '=')
    case Some(i) => if StartsWith(arg[..i], "-") then (arg[..i], Some(arg[i + 1..])) else (arg, None)
    case None => (arg, None)
  }

  function Next(args: seq<string>): (r: (Item, seq<string>))
    requires args != []
    ensures |r.1| < |args|
  {
    var (flag, inline_) := SplitInline(args[0]);
    if !FlagOf(flag).Sets? then (Item(flag, None), args[1..])
    else if inline_.Some? then (Item(flag, inline_), args[1..])
    else if |args| == 1 then (Item(flag, None), [])
    else (Item(flag, Some(args[1])), args[2..])
  }

  // Nothing behind such an option is looked at.
  predicate Stops(item: Item, p: AddrParser) {
    match FlagOf(item.flag)
    case Sets(Bind) => item.value.None? || p(item.value.value).None?
    case Sets(_) => item.value.None?
    case _ => true
  }

  function Items(args: seq<string>, p: AddrParser): seq<Item>
    decreases |args|
  {
    if args == [] then []
    else
      var (item, rest) := Next(args);
      if Stops(item, p) then [item] else [item] + Items(rest, p)
  }

  function StopOutcome(item: Item): Result<ConfigOutcome, ConfigError> {
    match FlagOf(item.flag)
    case HelpFlag => Ok(Help)
    case VersionFlag => Ok(Version)
    case UnknownFlag => Err(UnknownArgument(item.flag))
    case Sets(_) => if item.value.None? then Err(RequiresValue(item.flag)) else Err(InvalidValue(item.value.value))
  }

  predicate SetsValue(item: Item, s: Setting) {
    FlagOf(item.flag) == Sets(s) && item.value.Some?
  }

  function Last(items: seq<Item>, s: Setting): Option<string> {
    if items == [] then None
    else if SetsValue(items[|items| - 1], s) then items[|items| - 1].value
    else Last(items[..|items| - 1], s)
  }

  function All(items: seq<Item>, s: Setting): seq<string> {
    if items == [] then []
    else
      var front, last := items[..|items| - 1], items[|items| - 1];
      if SetsValue(last, s) then All(front, s) + [last.value.value] else All(front, s)
  }

  datatype Options = Options(
    stateDir: Option<string>,
    migrationsDir: Option<string>,
    bind: Option<SocketAddr>,
    tokenFile: Option<string>,
    workspaceRoot: Option<string>,
    artifactsRoot: Option<string>,
    fixtureBin: Option<string>,
    debianToolBin: Option<string>,
    logFilter: Option<string>,
    allowlist: seq<string>,
    btsHelper: Option<string>)

  function AddrOf(raw: Option<string>, p: AddrParser): Option<SocketAddr> {
    if raw.None? then None else p(raw.value)
  }

  // Every scalar as last given; the allowlist as all it was given, in order.
  function Settings(items: seq<Item>, p: AddrParser): Options {
    Options(
      Last(items, StateDir),
      Last(items, MigrationsDir),
      AddrOf(Last(items, Bind), p),
      Last(items, TokenFile),
      Last(items, WorkspaceRoot),
      Last(items, ArtifactsRoot),
      Last(items, FixtureBin),
      Last(items, DebianToolBin),
      Last(items, Log),
      All(items, SourceImportAllowlist),
      Last(items, BtsHelper))
  }

  predicate Stopped(items: seq<Item>, p: AddrParser) {
    items != [] && Stops(items[|items| - 1], p)
  }

  function Configure(args: seq<string>, w: World): Result<ConfigOutcome, ConfigError> {
    var items := Items(args, w.parseAddr);
    if Stopped(items, w.parseAddr) then StopOutcome(items[|items| - 1]) else Resolve(Settings(items, w.parseAddr), w)
  }

  // ---- Flag, variable, default -----------------------------------------------------------

  const DEFAULT_BIND := "127.0.0.1:7341"

  // `PathBuf::join` with a relative name.
  function PathJoin(dir: string, name: string): string {
    if dir == "" || dir[|dir| - 1] == '/' then dir + name else dir + "/" + name
  }

  function OrElse(flag: Option<string>, s: Setting, w: World): Option<string> {
    if flag.Some? then flag else w.getEnv(EnvName(s))
  }

  function OrDefault(flag: Option<string>, s: Setting, fallback: string, w: World): string {
    var v := OrElse(flag, s, w);
    if v.Some? then v.value else fallback
  }

  function ResolveBind(flag: Option<SocketAddr>, w: World): Option<SocketAddr> {
    if flag.Some? then flag
    else
      var env := AddrOf(w.getEnv(EnvName(Bind)), w.parseAddr);
      if env.Some? then env else w.parseAddr(DEFAULT_BIND)
  }

  // `split(',')`, each piece trimmed, the empty ones dropped.
  function SplitList(raw: string): seq<string>
    decreases |raw|
  {
    match Find(raw, ',')
    case None => Piece(raw)
    case Some(i) => Piece(raw[..i]) + SplitList(raw[i + 1..])
  }

  function Piece(raw: string): seq<string> {
    if Trim(raw) == "" then [] else [Trim(raw)]
  }

  function ResolveAllowlist(flags: seq<string>, w: World): seq<string> {
    var raw := w.getEnv(EnvName(SourceImportAllowlist));
    if flags == [] && raw.Some? then SplitList(raw.value) else flags
  }

  function Resolve(o: Options, w: World): Result<ConfigOutcome, ConfigError> {
    var stateDir := OrDefault(o.stateDir, StateDir, ".ironmaint", w);
    var migrationsDir := OrDefault(o.migrationsDir, MigrationsDir, w.defaultMigrationsDir, w);
    var bind := ResolveBind(o.bind, w);
    var tokenFile := OrElse(o.tokenFile, TokenFile, w);
    if bind.None? then Err(InvalidValue(DEFAULT_BIND))
    else if tokenFile.None? then Err(NoToken)
    else if !w.isFile(tokenFile.value) then Err(Missing(TokenFile, tokenFile.value))
    else if !w.isDir(migrationsDir) then Err(Missing(MigrationsDir, migrationsDir))
    else
      Ok(Run(RuntimeConfig(
        stateDir,
        migrationsDir,
        bind.value,
        tokenFile.value,
        OrDefault(o.workspaceRoot, WorkspaceRoot, PathJoin(stateDir, "workspaces"), w),
        OrDefault(o.artifactsRoot, ArtifactsRoot, PathJoin(stateDir, "artifacts"), w),
        OrDefault(o.fixtureBin, FixtureBin, w.defaultFixtureBin, w),
        OrDefault(o.debianToolBin, DebianToolBin, "/nonexistent/ironmaint-debian-tool", w),
        OrDefault(o.logFilter, Log, "info", w),
        ResolveAllowlist(o.allowlist, w),
        OrElse(o.btsHelper, BtsHelper, w))))
  }

  // ---- The walk ------------------------------------------------------------------------------

  function Assign(o: Options, s: Setting, value: string, p: AddrParser): Options {
    match s
    case StateDir => o.(stateDir := Some(value))
    case MigrationsDir => o.(migrationsDir := Some(value))
    case Bind => o.(bind := p(value))
    case TokenFile => o.(tokenFile := Some(value))
    case WorkspaceRoot => o.(workspaceRoot := Some(value))
    case ArtifactsRoot => o.(artifactsRoot := Some(value))
    case FixtureBin => o.(fixtureBin := Some(value))
    case DebianToolBin => o.(debianToolBin := Some(value))
    case Log => o.(logFilter := Some(value))
    case SourceImportAllowlist => o.(allowlist := o.allowlist + [value])
    case BtsHelper => o.(btsHelper := Some(value))
  }

  lemma LastSnoc(items: seq<Item>, item: Item, s: Setting)
    ensures Last(items + [item], s) == if SetsValue(item, s) then item.value else Last(items, s)
    ensures All(items + [item], s) == if SetsValue(item, s) then All(items, s) + [item.value.value] else All(items, s)
  {
    assert (items + [item])[..|items|] == items;
  }

  lemma SettingsSnoc(items: seq<Item>, item: Item, s: Setting, p: AddrParser)
    requires SetsValue(item, s)
    ensures Settings(items + [item], p) == Assign(Settings(items, p), s, item.value.value, p)
  {
    LastSnoc(items, item, StateDir);
    LastSnoc(items, item, MigrationsDir);
    LastSnoc(items, item, Bind);
    LastSnoc(items, item, TokenFile);
    LastSnoc(items, item, WorkspaceRoot);
    LastSnoc(items, item, ArtifactsRoot);
    LastSnoc(items, item, FixtureBin);
    LastSnoc(items, item, DebianToolBin);
    LastSnoc(items, item, Log);
    LastSnoc(items, item, SourceImportAllowlist);
    LastSnoc(items, item, BtsHelper);
  }

  // The options before `rest` have been walked over, and none of them stops.
  ghost predicate Walked(args: seq<string>, done: seq<Item>, rest: seq<string>, p: AddrParser) {
    && Items(args, p) == done + Items(rest, p)
    && (forall item | item in done :: !Stops(item, p))
  }

  lemma WalkStops(args: seq<string>, done: seq<Item>, rest: seq<string>, w: World)
    requires Walked(args, done, rest, w.parseAddr) && rest != [] && Stops(Next(rest).0, w.parseAddr)
    ensures Configure(args, w) == StopOutcome(Next(rest).0)
  {
    assert Items(rest, w.parseAddr) == [Next(rest).0];
  }

  lemma WalkGoesOn(args: seq<string>, done: seq<Item>, rest: seq<string>, s: Setting, w: World)
    requires Walked(args, done, rest, w.parseAddr) && rest != [] && !Stops(Next(rest).0, w.parseAddr)
    requires SetsValue(Next(rest).0, s)
    ensures Walked(args, done + [Next(rest).0], Next(rest).1, w.parseAddr)
    ensures var (item, p) := (Next(rest).0, w.parseAddr);
      Settings(done + [item], p) == Assign(Settings(done, p), s, item.value.value, p)
  {
    ConcatAssoc(done, [Next(rest).0], Items(Next(rest).1, w.parseAddr));
    SettingsSnoc(done, Next(rest).0, s, w.parseAddr);
  }

  lemma WalkEnds(args: seq<string>, done: seq<Item>, w: World)
    requires Walked(args, done, [], w.parseAddr)
    ensures Configure(args, w) == Resolve(Settings(done, w.parseAddr), w)
  {
    assert done + [] == done;
  }

  method FromEnvAndArgs(args: seq<string>, w: World) returns (r: Result<ConfigOutcome, ConfigError>)
    ensures r == Configure(args, w)
  {
    var o := Options(None, None, None, None, None, None, None, None, None, [], None);
    ghost var done: seq<Item> := [];
    var index := 0;
    while index < |args|
      invariant index <= |args| && Walked(args, done, args[index..], w.parseAddr) && o == Settings(done, w.parseAddr)
      decreases |args| - index
    {
      ghost var rest := args[index..];
      var (flag, inline_) := SplitInline(args[index]);
      index := index + 1;
      var kind := FlagOf(flag);
      match kind {
        case HelpFlag =>
          WalkStops(args, done, rest, w);
          return Ok(Help);
        case VersionFlag =>
          WalkStops(args, done, rest, w);
          return Ok(Version);
        case UnknownFlag =>
          WalkStops(args, done, rest, w);
          return Err(UnknownArgument(flag));
        case Sets(setting) =>
          // `take`
          var value := inline_;
          if value.None? {
            if index == |args| {
              WalkStops(args, done, rest, w);
              return Err(RequiresValue(flag));
            }
            value := Some(args[index]);
            index := index + 1;
          }
          assert Next(rest) == (Item(flag, value), args[index..]);
          if setting == Bind && w.parseAddr(value.value).None? {
            WalkStops(args, done, rest, w);
            return Err(InvalidValue(value.value));
          }
          WalkGoesOn(args, done, rest, setting, w);
          o := Assign(o, setting, value.value, w.parseAddr);
          done := done + [Item(flag, value)];
      }
    }
    assert args[index..] == [];
    WalkEnds(args, done, w);
    r := Resolve(o, w);
  }

  // ---- Spellings ------------------------------------------------------------------------------

  // Every `--flag=value` in a flag position as two arguments; values are left
  // alone, whatever they look like.
  function Expand(args: seq<string>): seq<string>
    decreases |args|
  {
    if args == [] then []
    else
      var (flag, inline_) := SplitInline(args[0]);
      if inline_.Some? then [flag, inline_.value] + Expand(args[1..])
      else if FlagOf(flag).Sets? && |args| > 1 then [flag, args[1]] + Expand(args[2..])
      else [flag] + Expand(args[1..])
  }

  lemma FlagHasNoInline(arg: string)
    ensures SplitInline(SplitInline(arg).0) == (SplitInline(arg).0, None)
  {
  }

  lemma ItemsTwoTokens(flag: string, value: string, rest: seq<string>, p: AddrParser)
    requires SplitInline(flag) == (flag, None)
    ensures Items([flag, value] + rest, p) ==
      if !FlagOf(flag).Sets? then [Item(flag, None)]
      else if Stops(Item(flag, Some(value)), p) then [Item(flag, Some(value))]
      else [Item(flag, Some(value))] + Items(rest, p)
  {
    var args := [flag, value] + rest;
    assert args[0] == flag && args[1] == value && args[2..] == rest;
  }

  lemma ItemsOneToken(flag: string, rest: seq<string>, p: AddrParser)
    requires SplitInline(flag) == (flag, None)
    requires !FlagOf(flag).Sets? || rest == []
    ensures Items([flag] + rest, p) == [Item(flag, None)]
  {
    assert ([flag] + rest)[0] == flag;
  }

  // Both spellings are the same list of options ...
  lemma {:induction false} ExpandKeepsItems(args: seq<string>, p: AddrParser)
    ensures Items(Expand(args), p) == Items(args, p)
    decreases |args|
  {
    if args != [] {
      var (flag, inline_) := SplitInline(args[0]);
      FlagHasNoInline(args[0]);
      if inline_.Some? {
        ExpandKeepsItems(args[1..], p);
        ItemsTwoTokens(flag, inline_.value, Expand(args[1..]), p);
      } else if FlagOf(flag).Sets? && |args| > 1 {
        ExpandKeepsItems(args[2..], p);
        ItemsTwoTokens(flag, args[1], Expand(args[2..]), p);
      } else {
        ItemsOneToken(flag, Expand(args[1..]), p);
      }
    }
  }

  // ... so lists that differ only in spelling configure the same daemon, or
  // fail with the same error.
  lemma SpellingsAgree(a: seq<string>, b: seq<string>, w: World)
    requires Expand(a) == Expand(b)
    ensures Configure(a, w) == Configure(b, w)
  {
    ExpandKeepsItems(a, w.parseAddr);
    ExpandKeepsItems(b, w.parseAddr);
  }

  lemma ExpandedConfiguresTheSame(args: seq<string>, w: World)
    ensures Configure(Expand(args), w) == Configure(args, w)
  {
    ExpandKeepsItems(args, w.parseAddr);
  }

  lemma InlineSpelling(flag: string, value: string, rest: seq<string>)
    requires StartsWith(flag, "-") && '=' !in flag
    ensures Expand([flag + ['='] + value] + rest) == [flag, value] + Expand(rest)
  {
    var arg := flag + ['='] + value;
    CutAt(flag, '=', value, arg);
    assert ([arg] + rest)[0] == arg && ([arg] + rest)[1..] == rest;
  }

  // ---- What wins -----------------------------------------------------------------------------

  lemma ItemsConcat(a: seq<string>, b: seq<string>, p: AddrParser)
    requires !Stopped(Items(a, p), p)
    ensures Items(a + b, p) == Items(a, p) + Items(b, p)
    decreases |a|
  {
    if a == [] {
      assert a + b == b;
      assert [] + Items(b, p) == Items(b, p);
    } else {
      var (item, rest) := Next(a);
      assert !Stops(item, p);
      NextConcat(a, b, p);
      ItemsConcat(rest, b, p);
      ConcatAssoc([item], Items(rest, p), Items(b, p));
    }
  }

  lemma NextConcat(a: seq<string>, b: seq<string>, p: AddrParser)
    requires a != []
    requires !Stops(Next(a).0, p) || FlagOf(SplitInline(a[0]).0).Sets? ==> Next(a).0.value.Some?
    ensures Next(a + b) == (Next(a).0, Next(a).1 + b)
  {
    assert (a + b)[0] == a[0] && (a + b)[1..] == a[1..] + b;
    if |a| > 1 {
      assert (a + b)[1] == a[1] && (a + b)[2..] == a[2..] + b;
    }
  }

  lemma FlagAppends(args: seq<string>, flag: string, value: string, s: Setting, p: AddrParser)
    requires !Stopped(Items(args, p), p)
    requires SplitInline(flag) == (flag, None) && FlagOf(flag) == Sets(s)
    requires s == Bind ==> p(value).Some?
    ensures var items := Items(args + [flag, value], p);
      !Stopped(items, p) && Settings(items, p) == Assign(Settings(Items(args, p), p), s, value, p)
  {
    var item := Item(flag, Some(value));
    ItemsConcat(args, [flag, value], p);
    assert [flag, value] + [] == [flag, value];
    ItemsTwoTokens(flag, value, [], p);
    assert [item] + [] == [item];
    var items := Items(args, p) + [item];
    assert items[|items| - 1] == item;
    SettingsSnoc(Items(args, p), item, s, p);
  }

  // An argument list without an error is extended by one more option: that
  // option takes the value, whatever came before, and no other is touched.
  lemma LaterFlagWins(args: seq<string>, flag: string, value: string, s: Setting, w: World)
    requires !Stopped(Items(args, w.parseAddr), w.parseAddr)
    requires SplitInline(flag) == (flag, None) && FlagOf(flag) == Sets(s)
    requires s == Bind ==> w.parseAddr(value).Some?
    ensures Configure(args + [flag, value], w) ==
      Resolve(Assign(Settings(Items(args, w.parseAddr), w.parseAddr), s, value, w.parseAddr), w)
  {
    FlagAppends(args, flag, value, s, w.parseAddr);
  }

  // The last option stops the walk, and not for want of a value that the
  // next argument would give it.
  predicate StopsForGood(items: seq<Item>, p: AddrParser) {
    Stopped(items, p)
    && var outcome := StopOutcome(items[|items| - 1]);
    !(outcome.Err? && outcome.error.RequiresValue?)
  }

  lemma StopsForGoodTail(item: Item, tail: seq<Item>, p: AddrParser)
    requires StopsForGood([item] + tail, p) && !Stops(item, p)
    ensures StopsForGood(tail, p)
  {
    var all := [item] + tail;
    assert all[|all| - 1] == if tail == [] then item else tail[|tail| - 1];
  }

  lemma {:induction false} ItemsStop(a: seq<string>, b: seq<string>, p: AddrParser)
    requires StopsForGood(Items(a, p), p)
    ensures Items(a + b, p) == Items(a, p)
    decreases |a|
  {
    var (item, rest) := Next(a);
    NextConcat(a, b, p);
    if !Stops(item, p) {
      StopsForGoodTail(item, Items(rest, p), p);
      ItemsStop(rest, b, p);
    }
  }

  // The first option that stops the walk decides: what follows cannot matter.
  lemma FirstStopDecides(args: seq<string>, more: seq<string>, w: World)
    requires StopsForGood(Items(args, w.parseAddr), w.parseAddr)
    ensures Configure(args + more, w) == Configure(args, w)
  {
    ItemsStop(args, more, w.parseAddr);
  }

  predicate Given(items: seq<Item>, s: Setting) {
    exists item | item in items :: SetsValue(item, s)
  }

  lemma GivenSnoc(front: seq<Item>, last: Item, s: Setting)
    ensures Given(front + [last], s) <==> Given(front, s) || SetsValue(last, s)
  {
    if SetsValue(last, s) {
      assert last in front + [last];
    }
    if Given(front, s) {
      var item :| item in front && SetsValue(item, s);
      assert item in front + [last];
    }
  }

  lemma {:induction false} GivenSpec(items: seq<Item>, s: Setting)
    ensures Last(items, s).Some? <==> Given(items, s)
    ensures All(items, s) != [] <==> Given(items, s)
  {
    if items != [] {
      var front, last := items[..|items| - 1], items[|items| - 1];
      GivenSpec(front, s);
      GivenSnoc(front, last, s);
      assert items == front + [last];
    }
  }

  lemma {:induction false} LastIsGiven(items: seq<Item>, s: Setting)
    requires Last(items, s).Some?
    ensures exists item | item in items :: SetsValue(item, s) && item.value == Last(items, s)
  {
    var front, last := items[..|items| - 1], items[|items| - 1];
    if !SetsValue(last, s) {
      LastIsGiven(front, s);
      var item :| item in front && SetsValue(item, s) && item.value == Last(front, s);
      assert item in items;
    }
  }

  lemma {:induction false} NoneStops(args: seq<string>, p: AddrParser)
    requires !Stopped(Items(args, p), p)
    ensures forall item | item in Items(args, p) :: !Stops(item, p)
    decreases |args|
  {
    if args != [] {
      var (item, rest) := Next(args);
      assert !Stops(item, p);
      assert Items(args, p) == [item] + Items(rest, p);
      NoneStops(rest, p);
    }
  }

  lemma GivenBindParses(args: seq<string>, p: AddrParser)
    requires !Stopped(Items(args, p), p)
    ensures Settings(Items(args, p), p).bind.Some? <==> Given(Items(args, p), Bind)
  {
    var items := Items(args, p);
    GivenSpec(items, Bind);
    if Last(items, Bind).Some? {
      NoneStops(args, p);
      LastIsGiven(items, Bind);
    }
  }

  // Two environments that agree on the variables of the options no argument
  // sets give the same daemon: the others are never looked at.
  lemma EnvironmentOnlyWhereNoFlag(args: seq<string>, w: World, env: string -> Option<string>)
    requires forall s | !Given(Items(args, w.parseAddr), s) :: env(EnvName(s)) == w.getEnv(EnvName(s))
    ensures Configure(args, w.(getEnv := env)) == Configure(args, w)
  {
    var items, w' := Items(args, w.parseAddr), w.(getEnv := env);
    if !Stopped(items, w.parseAddr) {
      forall s: Setting
        ensures Last(items, s).Some? <==> Given(items, s)
        ensures All(items, s) != [] <==> Given(items, s)
      {
        GivenSpec(items, s);
      }
      GivenBindParses(args, w.parseAddr);
      SettingsResolve(Settings(items, w.parseAddr), w, w');
    }
  }

  lemma SettingsResolve(o: Options, w: World, w': World)
    requires w' == w.(getEnv := w'.getEnv)
    requires o.bind.None? ==> SameVariable(Bind, w, w')
    requires o.stateDir.None? ==> SameVariable(StateDir, w, w')
    requires o.migrationsDir.None? ==> SameVariable(MigrationsDir, w, w')
    requires o.tokenFile.None? ==> SameVariable(TokenFile, w, w')
    requires o.workspaceRoot.None? ==> SameVariable(WorkspaceRoot, w, w')
    requires o.artifactsRoot.None? ==> SameVariable(ArtifactsRoot, w, w')
    requires o.fixtureBin.None? ==> SameVariable(FixtureBin, w, w')
    requires o.debianToolBin.None? ==> SameVariable(DebianToolBin, w, w')
    requires o.logFilter.None? ==> SameVariable(Log, w, w')
    requires o.allowlist == [] ==> SameVariable(SourceImportAllowlist, w, w')
    requires o.btsHelper.None? ==> SameVariable(BtsHelper, w, w')
    ensures Resolve(o, w') == Resolve(o, w)
  {
  }

  predicate SameVariable(s: Setting, w: World, w': World) {
    w'.getEnv(EnvName(s)) == w.getEnv(EnvName(s))
  }

  // A daemon that starts has looked at every argument, has a token file that
  // somebody named and a migrations directory, both of which exist, has every
  // given option as last given, and keeps unnamed roots under its state directory.
  lemma StartedAsAsked(args: seq<string>, w: World, c: RuntimeConfig)
    requires Configure(args, w) == Ok(Run(c))
    ensures var items := Items(args, w.parseAddr);
      && !Stopped(items, w.parseAddr)
      && w.isFile(c.tokenFile) && w.isDir(c.migrationsDir)
      && Some(c.tokenFile) ==
        (if Given(items, TokenFile) then Last(items, TokenFile) else w.getEnv(EnvName(TokenFile)))
      && (Given(items, StateDir) ==> Last(items, StateDir) == Some(c.stateDir))
      && (Given(items, MigrationsDir) ==> Last(items, MigrationsDir) == Some(c.migrationsDir))
      && (Given(items, Bind) ==> AddrOf(Last(items, Bind), w.parseAddr) == Some(c.bind))
      && (Given(items, WorkspaceRoot) ==> Last(items, WorkspaceRoot) == Some(c.workspaceRoot))
      && (Given(items, ArtifactsRoot) ==> Last(items, ArtifactsRoot) == Some(c.artifactsRoot))
      && (Given(items, FixtureBin) ==> Last(items, FixtureBin) == Some(c.fixtureBin))
      && (Given(items, DebianToolBin) ==> Last(items, DebianToolBin) == Some(c.debianToolBin))
      && (Given(items, Log) ==> Last(items, Log) == Some(c.logFilter))
      && (Given(items, SourceImportAllowlist) ==> All(items, SourceImportAllowlist) == c.sourceImportAllowlist)
      && (Given(items, BtsHelper) ==> Last(items, BtsHelper) == c.btsHelper)
      && (!Given(items, WorkspaceRoot) && w.getEnv(EnvName(WorkspaceRoot)).None? ==> c.stateDir <= c.workspaceRoot)
      && (!Given(items, ArtifactsRoot) && w.getEnv(EnvName(ArtifactsRoot)).None? ==> c.stateDir <= c.artifactsRoot)
  {
    forall s: Setting
      ensures Last(Items(args, w.parseAddr), s).Some? <==> Given(Items(args, w.parseAddr), s)
      ensures All(Items(args, w.parseAddr), s) != [] <==> Given(Items(args, w.parseAddr), s)
    {
      GivenSpec(Items(args, w.parseAddr), s);
    }
    if !Stopped(Items(args, w.parseAddr), w.parseAddr) {
      GivenBindParses(args, w.parseAddr);
    }
  }

  // ---- The words themselves --------------------------------------------------------------------

  // The flags are these fifteen, and each sets what it says.
  lemma FlagTable(f: string)
    ensures FlagOf(f) == HelpFlag <==> f == "--help" || f == "-h"
    ensures FlagOf(f) == VersionFlag <==> f == "--version" || f == "-V"
    ensures FlagOf(f) == Sets(StateDir) <==> f == "--state-dir"
    ensures FlagOf(f) == Sets(MigrationsDir) <==> f == "--migrations-dir"
    ensures FlagOf(f) == Sets(Bind) <==> f == "--bind"
    ensures FlagOf(f) == Sets(TokenFile) <==> f == "--token-file"
    ensures FlagOf(f) == Sets(WorkspaceRoot) <==> f == "--workspace-root"
    ensures FlagOf(f) == Sets(ArtifactsRoot) <==> f == "--artifacts-root"
    ensures FlagOf(f) == Sets(FixtureBin) <==> f == "--fixture-bin"
    ensures FlagOf(f) == Sets(DebianToolBin) <==> f == "--debian-tool-bin"
    ensures FlagOf(f) == Sets(Log) <==> f == "--log"
    ensures FlagOf(f) == Sets(SourceImportAllowlist) <==> f == "--source-import-allowlist"
    ensures FlagOf(f) == Sets(BtsHelper) <==> f == "--bts-helper"
  {
  }

  lemma ShortFlagsArePlain()
    ensures '=' !in "--help"
    ensures '=' !in "-h"
    ensures '=' !in "--version"
    ensures '=' !in "-V"
    ensures '=' !in "--bind"
    ensures '=' !in "--log"
    ensures '=' !in "--state-dir"
    ensures '=' !in "--token-file"
  {
  }

  lemma LongFlagsArePlain()
    ensures '=' !in "--migrations-dir"
    ensures '=' !in "--workspace-root"
    ensures '=' !in "--artifacts-root"
    ensures '=' !in "--fixture-bin"
    ensures '=' !in "--debian-tool-bin"
    ensures '=' !in "--source-import-allowlist"
    ensures '=' !in "--bts-helper"
  {
  }

  lemma KnownFlagIsPlain(f: string)
    requires FlagOf(f) != UnknownFlag
    ensures SplitInline(f) == (f, None)
  {
    ShortFlagsArePlain();
    LongFlagsArePlain();
    FlagTable(f);
    assert '=' !in f;
  }

  lemma StopAppended(args: seq<string>, tail: seq<string>, item: Item, w: World)
    requires !Stopped(Items(args, w.parseAddr), w.parseAddr)
    requires Items(tail, w.parseAddr) == [item] && Stops(item, w.parseAddr)
    ensures Configure(args + tail, w) == StopOutcome(item)
  {
    ItemsConcat(args, tail, w.parseAddr);
    var items := Items(args, w.parseAddr) + [item];
    assert items[|items| - 1] == item;
  }

  lemma LoneFlag(args: seq<string>, flag: string, w: World)
    requires !Stopped(Items(args, w.parseAddr), w.parseAddr) && SplitInline(flag) == (flag, None)
    ensures Configure(args + [flag], w) == StopOutcome(Item(flag, None))
  {
    ItemsOneToken(flag, [], w.parseAddr);
    assert [flag] + [] == [flag];
    StopAppended(args, [flag], Item(flag, None), w);
  }

  // Behind arguments without an error: the words that ask for help or the
  // version, a flag that still needs its value, and a word that is no flag.
  lemma LastWordDecides(args: seq<string>, word: string, w: World)
    requires !Stopped(Items(args, w.parseAddr), w.parseAddr)
    ensures word in ["--help", "-h"] ==> Configure(args + [word], w) == Ok(Help)
    ensures word in ["--version", "-V"] ==> Configure(args + [word], w) == Ok(Version)
    ensures FlagOf(word).Sets? ==> Configure(args + [word], w) == Err(RequiresValue(word))
    ensures FlagOf(word) == UnknownFlag && '=' !in word ==> Configure(args + [word], w) == Err(UnknownArgument(word))
  {
    FlagTable(word);
    if FlagOf(word) != UnknownFlag {
      KnownFlagIsPlain(word);
    }
    if SplitInline(word) == (word, None) {
      LoneFlag(args, word, w);
    }
  }

  // An "=" cuts a word only behind a leading "-".
  lemma SplitInlineSpec(flag: string, value: string)
    requires '=' !in flag
    ensures SplitInline(flag) == (flag, None)
    ensures var word := flag + ['='] + value;
      SplitInline(word) == if "-" <= flag then (flag, Some(value)) else (word, None)
  {
    CutAt(flag, '=', value, flag + ['='] + value);
  }

  // A word without a leading "-" is no flag, whatever it contains; a flag that
  // is not known is named without the value behind its "=".
  lemma UnknownWords(args: seq<string>, word: string, value: string, w: World)
    requires !Stopped(Items(args, w.parseAddr), w.parseAddr)
    ensures !("-" <= word) ==> Configure(args + [word], w) == Err(UnknownArgument(word))
    ensures "-" <= word && '=' !in word && FlagOf(word) == UnknownFlag ==>
      Configure(args + [word + ['='] + value], w) == Err(UnknownArgument(word))
  {
    if !("-" <= word) {
      FlagTable(word);
      DashNeeded(word);
      LoneFlag(args, word, w);
    } else if '=' !in word && FlagOf(word) == UnknownFlag {
      var long := word + ['='] + value;
      SplitInlineSpec(word, value);
      assert [long][0] == long;
      assert Next([long]).0 == Item(word, None);
      StopAppended(args, [long], Item(word, None), w);
    }
  }

  lemma DashNeeded(word: string)
    requires !("-" <= word)
    ensures FlagOf(word) == UnknownFlag && SplitInline(word) == (word, None)
  {
    if '=' in word {
      var i := Find(word, '=').value;
      assert word == word[..i] + ['='] + word[i + 1..];
      assert "-" <= word[..i] ==> "-" <= word;
    }
  }

  lemma BadAddress(args: seq<string>, value: string, w: World)
    requires !Stopped(Items(args, w.parseAddr), w.parseAddr) && w.parseAddr(value).None?
    ensures Configure(args + ["--bind", value], w) == Err(InvalidValue(value))
  {
    FlagTable("--bind");
    KnownFlagIsPlain("--bind");
    ItemsTwoTokens("--bind", value, [], w.parseAddr);
    assert ["--bind", value] + [] == ["--bind", value];
    StopAppended(args, ["--bind", value], Item("--bind", Some(value)), w);
  }

  // A flag's value, else the variable's, else the default.
  function Choose(flag: Option<string>, variable: Option<string>, fallback: string): string {
    if flag.Some? then flag.value else if variable.Some? then variable.value else fallback
  }

  lemma VariableTable()
    ensures EnvName(StateDir) == "IRONMAINT_STATE_DIR"
    ensures EnvName(MigrationsDir) == "IRONMAINT_MIGRATIONS_DIR"
    ensures EnvName(Bind) == "IRONMAINT_BIND"
    ensures EnvName(TokenFile) == "IRONMAINT_TOKEN_FILE"
    ensures EnvName(WorkspaceRoot) == "IRONMAINT_WORKSPACE_ROOT"
    ensures EnvName(ArtifactsRoot) == "IRONMAINT_ARTIFACTS_ROOT"
    ensures EnvName(FixtureBin) == "IRONMAINT_FIXTURE_BIN"
    ensures EnvName(DebianToolBin) == "IRONMAINT_DEBIAN_TOOL_BIN"
    ensures EnvName(Log) == "IRONMAINT_LOG"
    ensures EnvName(SourceImportAllowlist) == "IRONMAINT_SOURCE_IMPORT_ALLOWLIST"
    ensures EnvName(BtsHelper) == "IRONMAINT_BTS_HELPER"
  {
  }

  // What a started daemon is configured with, setting by setting.
  lemma ResolvedSettings(o: Options, w: World, c: RuntimeConfig)
    requires Resolve(o, w) == Ok(Run(c))
    ensures c.stateDir == Choose(o.stateDir, w.getEnv(EnvName(StateDir)), ".ironmaint")
    ensures c.migrationsDir ==
      Choose(o.migrationsDir, w.getEnv(EnvName(MigrationsDir)), w.defaultMigrationsDir)
    ensures c.tokenFile == Choose(o.tokenFile, w.getEnv(EnvName(TokenFile)), c.tokenFile)
    ensures c.fixtureBin == Choose(o.fixtureBin, w.getEnv(EnvName(FixtureBin)), w.defaultFixtureBin)
    ensures c.debianToolBin == Choose(
      o.debianToolBin, w.getEnv(EnvName(DebianToolBin)), "/nonexistent/ironmaint-debian-tool")
    ensures c.logFilter == Choose(o.logFilter, w.getEnv(EnvName(Log)), "info")
    ensures c.btsHelper == if o.btsHelper.Some? then o.btsHelper else w.getEnv(EnvName(BtsHelper))
  {
  }

  // The settings either start the daemon or give exactly one error, in this
  // order: no usable address, no token, no token file, no migrations directory.
  lemma StartsIff(o: Options, w: World)
    ensures var token := if o.tokenFile.Some? then o.tokenFile else w.getEnv(EnvName(TokenFile));
      var migrations := Choose(o.migrationsDir, w.getEnv(EnvName(MigrationsDir)), w.defaultMigrationsDir);
      var variable := w.getEnv(EnvName(Bind));
      var noAddress := o.bind.None? && w.parseAddr("127.0.0.1:7341").None?
        && (variable.None? || w.parseAddr(variable.value).None?);
      var r := Resolve(o, w);
      if noAddress then r == Err(InvalidValue("127.0.0.1:7341"))
      else if token.None? then r == Err(NoToken)
      else if !w.isFile(token.value) then r == Err(Missing(TokenFile, token.value))
      else if !w.isDir(migrations) then r == Err(Missing(MigrationsDir, migrations))
      else r.Ok? && r.value.Run?
  {
  }

  lemma ResolvedRest(o: Options, w: World, c: RuntimeConfig)
    requires Resolve(o, w) == Ok(Run(c))
    ensures c.workspaceRoot ==
      Choose(o.workspaceRoot, w.getEnv(EnvName(WorkspaceRoot)), PathJoin(c.stateDir, "workspaces"))
    ensures c.artifactsRoot ==
      Choose(o.artifactsRoot, w.getEnv(EnvName(ArtifactsRoot)), PathJoin(c.stateDir, "artifacts"))
    ensures var variable := w.getEnv(EnvName(SourceImportAllowlist));
      c.sourceImportAllowlist ==
        if o.allowlist != [] then o.allowlist else if variable.Some? then SplitList(variable.value) else []
    ensures var variable := w.getEnv(EnvName(Bind));
      Some(c.bind) ==
        if o.bind.Some? then o.bind
        else if variable.Some? && w.parseAddr(variable.value).Some? then w.parseAddr(variable.value)
        else w.parseAddr("127.0.0.1:7341")
  {
  }

  // A name under a directory: with one slash between the two.
  lemma PathJoinSpec(dir: string, name: string)
    ensures PathJoin(dir, name) == (if dir == "" || dir[|dir| - 1] == '/' then dir else dir + "/") + name
  {
  }

  // Each flag, given last, is what the started daemon has for its setting.
  lemma FlagSetsIts(args: seq<string>, flag: string, x: string, w: World, c: RuntimeConfig)
    requires !Stopped(Items(args, w.parseAddr), w.parseAddr)
    requires FlagOf(flag).Sets? && Configure(args + [flag, x], w) == Ok(Run(c))
    ensures flag == "--state-dir" ==> c.stateDir == x
    ensures flag == "--migrations-dir" ==> c.migrationsDir == x
    ensures flag == "--bind" ==> w.parseAddr(x) == Some(c.bind)
    ensures flag == "--token-file" ==> c.tokenFile == x
    ensures flag == "--workspace-root" ==> c.workspaceRoot == x
    ensures flag == "--artifacts-root" ==> c.artifactsRoot == x
    ensures flag == "--fixture-bin" ==> c.fixtureBin == x
    ensures flag == "--debian-tool-bin" ==> c.debianToolBin == x
    ensures flag == "--log" ==> c.logFilter == x
    ensures flag == "--source-import-allowlist" ==> x in c.sourceImportAllowlist
    ensures flag == "--bts-helper" ==> c.btsHelper == Some(x)
  {
    FlagTable(flag);
    KnownFlagIsPlain(flag);
    if flag == "--bind" && w.parseAddr(x).None? {
      BadAddress(args, x, w);
    } else {
      LaterFlagWins(args, flag, x, FlagOf(flag).setting, w);
      AssignedIsResolved(Settings(Items(args, w.parseAddr), w.parseAddr), FlagOf(flag).setting, x, w, c);
    }
  }

  lemma AssignedIsResolved(o: Options, s: Setting, x: string, w: World, c: RuntimeConfig)
    requires Resolve(Assign(o, s, x, w.parseAddr), w) == Ok(Run(c)) && (s == Bind ==> w.parseAddr(x).Some?)
    ensures match s
      case StateDir => c.stateDir == x
      case MigrationsDir => c.migrationsDir == x
      case Bind => w.parseAddr(x) == Some(c.bind)
      case TokenFile => c.tokenFile == x
      case WorkspaceRoot => c.workspaceRoot == x
      case ArtifactsRoot => c.artifactsRoot == x
      case FixtureBin => c.fixtureBin == x
      case DebianToolBin => c.debianToolBin == x
      case Log => c.logFilter == x
      case SourceImportAllowlist => c.sourceImportAllowlist == o.allowlist + [x]
      case BtsHelper => c.btsHelper == Some(x)
  {
    ResolvedSettings(Assign(o, s, x, w.parseAddr), w, c);
    ResolvedRest(Assign(o, s, x, w.parseAddr), w, c);
  }

  // Each variable counts where no argument gives its setting.
  lemma VariableSetsIts(args: seq<string>, w: World, c: RuntimeConfig, x: string)
    requires Configure(args, w) == Ok(Run(c))
    ensures var items := Items(args, w.parseAddr);
      && (!Given(items, StateDir) && w.getEnv("IRONMAINT_STATE_DIR") == Some(x) ==> c.stateDir == x)
      && (!Given(items, MigrationsDir) && w.getEnv("IRONMAINT_MIGRATIONS_DIR") == Some(x) ==> c.migrationsDir == x)
      && (!Given(items, TokenFile) && w.getEnv("IRONMAINT_TOKEN_FILE") == Some(x) ==> c.tokenFile == x)
      && (!Given(items, WorkspaceRoot) && w.getEnv("IRONMAINT_WORKSPACE_ROOT") == Some(x) ==> c.workspaceRoot == x)
      && (!Given(items, ArtifactsRoot) && w.getEnv("IRONMAINT_ARTIFACTS_ROOT") == Some(x) ==> c.artifactsRoot == x)
      && (!Given(items, FixtureBin) && w.getEnv("IRONMAINT_FIXTURE_BIN") == Some(x) ==> c.fixtureBin == x)
      && (!Given(items, DebianToolBin) && w.getEnv("IRONMAINT_DEBIAN_TOOL_BIN") == Some(x) ==> c.debianToolBin == x)
      && (!Given(items, Log) && w.getEnv("IRONMAINT_LOG") == Some(x) ==> c.logFilter == x)
      && (!Given(items, BtsHelper) && w.getEnv("IRONMAINT_BTS_HELPER") == Some(x) ==> c.btsHelper == Some(x))
  {
    var items := Items(args, w.parseAddr);
    VariableTable();
    GivenScalars(items);
    if !Stopped(items, w.parseAddr) {
      ResolvedSettings(Settings(items, w.parseAddr), w, c);
      ResolvedRest(Settings(items, w.parseAddr), w, c);
    }
  }

  lemma GivenScalars(items: seq<Item>)
    ensures forall s :: Last(items, s).Some? <==> Given(items, s)
  {
    forall s: Setting
      ensures Last(items, s).Some? <==> Given(items, s)
    {
      GivenSpec(items, s);
    }
  }

  // ---- Missing paths ---------------------------------------------------------------------------

  // The token file and the migrations directory that the settings come to.
  function TokenPath(o: Options, w: World): Option<string> {
    OrElse(o.tokenFile, TokenFile, w)
  }

  function MigrationsPath(o: Options, w: World): string {
    OrDefault(o.migrationsDir, MigrationsDir, w.defaultMigrationsDir, w)
  }

  predicate TokenMissing(o: Options, w: World) {
    TokenPath(o, w).Some? && !w.isFile(TokenPath(o, w).value)
  }

  predicate MigrationsMissing(o: Options, w: World) {
    !w.isDir(MigrationsPath(o, w))
  }

  // The settings are far enough in order for the paths to be looked at.
  predicate PathsAreChecked(o: Options, w: World) {
    ResolveBind(o.bind, w).Some? && TokenPath(o, w).Some?
  }

  predicate Named(r: Result<ConfigOutcome, ConfigError>, what: Setting, path: string) {
    r == Err(Missing(what, path))
  }

  // Whether the operator learns of every missing path in one go.
  predicate AllMissingNamed(o: Options, w: World) {
    && (TokenMissing(o, w) ==> Named(Resolve(o, w), TokenFile, TokenPath(o, w).value))
    && (MigrationsMissing(o, w) ==> Named(Resolve(o, w), MigrationsDir, MigrationsPath(o, w)))
  }

  // Every missing path is named if and only if not both are missing, or, where
  // an earlier error keeps the paths from being looked at, neither is.
  lemma AllMissingNamedIff(o: Options, w: World)
    ensures AllMissingNamed(o, w) <==>
      if PathsAreChecked(o, w) then !(TokenMissing(o, w) && MigrationsMissing(o, w))
      else !TokenMissing(o, w) && !MigrationsMissing(o, w)
  {
  }

  // With both missing, only the token file is named.
  lemma OnlyTheTokenFileIsNamed(args: seq<string>, w: World)
    requires !Stopped(Items(args, w.parseAddr), w.parseAddr)
    requires var o := Settings(Items(args, w.parseAddr), w.parseAddr);
      PathsAreChecked(o, w) && TokenMissing(o, w) && MigrationsMissing(o, w)
    ensures var o := Settings(Items(args, w.parseAddr), w.parseAddr);
      && Named(Configure(args, w), TokenFile, TokenPath(o, w).value)
      && !Named(Configure(args, w), MigrationsDir, MigrationsPath(o, w))
      && !AllMissingNamed(o, w)
  {
  }

  // For instance: no arguments, every variable set to "x", and no such file
  // or directory.
  lemma MissingDirectoryGoesUnnamed()
    ensures var w := World(_ => Some("x"), _ => Some(SocketAddr([], 0)), _ => false, _ => false, "", "");
      && Configure([], w) == Err(Missing(TokenFile, "x"))
      && MigrationsPath(Settings([], w.parseAddr), w) == "x" && !w.isDir("x")
      && !AllMissingNamed(Settings([], w.parseAddr), w)
  {
    var w := World(_ => Some("x"), _ => Some(SocketAddr([], 0)), _ => false, _ => false, "", "");
    assert Items([], w.parseAddr) == [];
    OnlyTheTokenFileIsNamed([], w);
  }

  // ---- The allowlist -----------------------------------------------------------------------

  predicate IsPrefixEntry(x: string) {
    x != "" && Trimmed(x) && ',' !in x
  }

  predicate AllEntries(xs: seq<string>) {
    forall x | x in xs :: IsPrefixEntry(x)
  }

  lemma PieceIsEntry(raw: string)
    requires ',' !in raw
    ensures AllEntries(Piece(raw))
  {
    TrimIsTrimmed(raw);
    var pre, post := TrimSplits(raw);
    assert forall i | 0 <= i < |Trim(raw)| :: Trim(raw)[i] == raw[|pre| + i];
  }

  lemma {:induction false} SplitListIsNormal(raw: string)
    ensures AllEntries(SplitList(raw))
    decreases |raw|
  {
    var comma := Find(raw, ',');
    if comma.None? {
      PieceIsEntry(raw);
    } else {
      PieceIsEntry(raw[..comma.value]);
      SplitListIsNormal(raw[comma.value + 1..]);
    }
  }

  lemma EntryIsPiece(x: string)
    requires IsPrefixEntry(x)
    ensures Piece(x) == [x]
  {
    TrimTrimmed(x);
  }

  lemma SplitListCons(x: string, rest: string)
    requires IsPrefixEntry(x)
    ensures SplitList(x + ("," + rest)) == [x] + SplitList(rest)
  {
    var raw := x + ("," + rest);
    assert raw == x + [','] + rest;
    CutAt(x, ',', rest, raw);
    EntryIsPiece(x);
  }

  lemma {:induction false} SplitListJoined(xs: seq<string>)
    requires AllEntries(xs)
    ensures SplitList(Join(xs, ",")) == xs
  {
    if |xs| == 0 {
      TrimTrimmed("");
    } else if |xs| == 1 {
      EntryIsPiece(xs[0]);
    } else {
      SplitListJoined(xs[1..]);
      SplitListCons(xs[0], Join(xs[1..], ","));
    }
  }

  // Two laws that determine the variable's list: every comma separates, and a
  // piece is trimmed, or dropped when it is blank.
  lemma {:induction false} SplitListAtComma(a: string, b: string)
    ensures SplitList(a + [','] + b) == SplitList(a) + SplitList(b)
    decreases |a|
  {
    var raw := a + [','] + b;
    match Find(a, ',')
    case None =>
      CutAt(a, ',', b, raw);
    case Some(i) =>
      var head, rest := a[..i], a[i + 1..];
      assert raw == head + [','] + (rest + [','] + b);
      CutAt(head, ',', rest + [','] + b, raw);
      SplitListAtComma(rest, b);
      ConcatAssoc(Piece(head), SplitList(rest), SplitList(b));
  }

  lemma SplitListSingle(x: string)
    requires ',' !in x
    ensures SplitList(x) == if Blank(x) then [] else [Trim(x)]
  {
    TrimBlank(x);
  }

  // The variable can spell exactly the lists of trimmed, non-empty prefixes
  // without a comma.
  lemma VariableSpellsIff(xs: seq<string>)
    ensures SplitList(Join(xs, ",")) == xs <==> AllEntries(xs)
  {
    SplitListIsNormal(Join(xs, ","));
    if AllEntries(xs) {
      SplitListJoined(xs);
    }
  }

  function AllowFlags(flag: string, xs: seq<string>): seq<string> {
    if xs == [] then [] else AllowFlags(flag, xs[..|xs| - 1]) + [flag, xs[|xs| - 1]]
  }

  // The longer list has the same options, and these prefixes on top.
  predicate Adds(args: seq<string>, longer: seq<string>, xs: seq<string>, p: AddrParser) {
    var before, after := Settings(Items(args, p), p), Settings(Items(longer, p), p);
    !Stopped(Items(longer, p), p) && after == before.(allowlist := before.allowlist + xs)
  }

  lemma AssignAllowlist(o: Options, x: string, p: AddrParser)
    ensures Assign(o, SourceImportAllowlist, x, p) == o.(allowlist := o.allowlist + [x])
  {
  }

  lemma AddsOne(args: seq<string>, longer: seq<string>, xs: seq<string>, flag: string, x: string, p: AddrParser)
    requires Adds(args, longer, xs, p)
    requires SplitInline(flag) == (flag, None) && FlagOf(flag) == Sets(SourceImportAllowlist)
    ensures Adds(args, longer + [flag, x], xs + [x], p)
  {
    var before, middle := Settings(Items(args, p), p), Settings(Items(longer, p), p);
    FlagAppends(longer, flag, x, SourceImportAllowlist, p);
    AssignAllowlist(middle, x, p);
    ConcatAssoc(before.allowlist, xs, [x]);
  }

  lemma {:induction false} FlagsCollect(args: seq<string>, flag: string, xs: seq<string>, p: AddrParser)
    requires !Stopped(Items(args, p), p)
    requires SplitInline(flag) == (flag, None) && FlagOf(flag) == Sets(SourceImportAllowlist)
    ensures Adds(args, args + AllowFlags(flag, xs), xs, p)
  {
    if xs == [] {
      assert args + [] == args;
      assert Settings(Items(args, p), p).allowlist + [] == Settings(Items(args, p), p).allowlist;
    } else {
      var front, last := xs[..|xs| - 1], xs[|xs| - 1];
      FlagsCollect(args, flag, front, p);
      AddsOne(args, args + AllowFlags(flag, front), front, flag, last, p);
      ConcatAssoc(args, AllowFlags(flag, front), [flag, last]);
      assert front + [last] == xs;
    }
  }

  // Naming the prefixes one flag at a time and naming them in the variable
  // is the same.
  lemma FlagsOrVariable(args: seq<string>, flag: string, xs: seq<string>, w: World)
    requires !Stopped(Items(args, w.parseAddr), w.parseAddr)
    requires !Given(Items(args, w.parseAddr), SourceImportAllowlist)
    requires SplitInline(flag) == (flag, None) && FlagOf(flag) == Sets(SourceImportAllowlist)
    requires AllEntries(xs) && w.getEnv(EnvName(SourceImportAllowlist)) == Some(Join(xs, ","))
    ensures Configure(args + AllowFlags(flag, xs), w) == Configure(args, w)
  {
    GivenSpec(Items(args, w.parseAddr), SourceImportAllowlist);
    FlagsCollect(args, flag, xs, w.parseAddr);
    SplitListJoined(xs);
    assert [] + xs == xs;
  }
}
