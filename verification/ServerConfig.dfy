/**
 src/server/ServerConfig.cc, loadServerConfig: an INI file laid over the settings in place.
 */
module ServerConfig {
  import opened Common
  import opened EnvExpand
  import opened Ordering

  /** A group of an INI file: key to value. */
  type Group = map<string, string>

  /** The groups of an INI file that are read; a group that is absent is empty. */
  datatype Groups = Groups(server: Group, tls: Group, allowlist: Group, denylist: Group, auth: Group, log: Group)

  /** What QSettings makes of the path. */
  datatype IniFile = NotThere | Unreadable | Ini(groups: Groups)

  /** QString::toInt, QVariant::toBool and the order of QStringList::sort. */
  datatype Library = Library(toInt: string -> int, toBool: string -> bool, le: (string, string) -> bool)

  datatype LoadError = NoError | NotFound | CannotOpen | BadPort(got: int) | BadTimeout(got: int)

  datatype TlsSettings = TlsSettings(enabled: bool, certFile: string, keyFile: string, caFile: string)

  datatype LogSettings = LogSettings(file: string, level: string, debugLevel: int)

  datatype Others = Others(tls: TlsSettings, allowlist: seq<string>, denylist: seq<string>,
                           authTokens: map<string, string>, log: LogSettings)

  /** The numbers of the [server] group, which are checked, and what the other groups set. */
  datatype Settings = Settings(port: int, cmdTimeoutMs: int, others: Others)

  // ----- the overlay ------------------------------------------------------------------------

  function Setting(g: Group, key: string, current: string): string {
    if key in g then g[key] else current
  }

  function Path(g: Group, key: string, current: string, env: Environment): string {
    if key in g then Expand(g[key], env) else current
  }

  function Flag(g: Group, key: string, current: bool, lib: Library): bool {
    if key in g then lib.toBool(g[key]) else current
  }

  function Number(g: Group, key: string, current: int, lib: Library): int {
    if key in g then lib.toInt(g[key]) else current
  }

  /** The non-empty values for a sequence of keys. */
  function NonEmptyValues(g: Group, keys: seq<string>): seq<string>
    requires forall i | 0 <= i < |keys| :: keys[i] in g
  {
    if keys == [] then []
    else (if g[keys[0]] == "" then [] else [g[keys[0]]]) + NonEmptyValues(g, keys[1..])
  }

  ghost function SortedKeys(g: Group, lib: Library): (keys: seq<string>)
    requires TotalOrder(lib.le)
    ensures forall i | 0 <= i < |keys| :: keys[i] in g
  {
    var keys := Sorted(g.Keys, lib.le);
    assert forall i | 0 <= i < |keys| :: keys[i] in keys;
    keys
  }

  ghost function Patterns(g: Group, current: seq<string>, lib: Library): seq<string>
    requires TotalOrder(lib.le)
  {
    if g == map[] then current else NonEmptyValues(g, SortedKeys(g, lib))
  }

  /** The entries of the given identities whose expanded token is not empty. */
  function TokensOf(g: Group, identities: set<string>, env: Environment): map<string, string>
    requires identities <= g.Keys
  {
    map identity | identity in identities && Expand(g[identity], env) != "" :: Expand(g[identity], env)
  }

  function AuthTokens(g: Group, current: map<string, string>, env: Environment): map<string, string> {
    if g == map[] then current else TokensOf(g, g.Keys, env)
  }

  function Numbers(server: Group, lib: Library, c: Settings): Settings {
    c.(port := Number(server, "port", c.port, lib),
       cmdTimeoutMs := Number(server, "cmd_timeout_ms", c.cmdTimeoutMs, lib))
  }

  function OverlayTls(tls: Group, env: Environment, lib: Library, c: TlsSettings): TlsSettings {
    TlsSettings(Flag(tls, "enabled", c.enabled, lib),
                Path(tls, "cert", c.certFile, env),
                Path(tls, "key", c.keyFile, env),
                Path(tls, "ca", c.caFile, env))
  }

  function OverlayLog(log: Group, lib: Library, c: LogSettings): LogSettings {
    LogSettings(Setting(log, "file", c.file),
                Setting(log, "level", c.level),
                Number(log, "debug_level", c.debugLevel, lib))
  }

  ghost function Overlay(groups: Groups, env: Environment, lib: Library, c: Others): Others
    requires TotalOrder(lib.le)
  {
    Others(OverlayTls(groups.tls, env, lib, c.tls),
           Patterns(groups.allowlist, c.allowlist, lib),
           Patterns(groups.denylist, c.denylist, lib),
           AuthTokens(groups.auth, c.authTokens, env),
           OverlayLog(groups.log, lib, c.log))
  }

  /** The numbers are checked before the other groups are read; an error leaves those alone. */
  function Checked(numbers: Settings, others: Others): (LoadError, Settings) {
    if !(1 <= numbers.port <= 65535) then (BadPort(numbers.port), numbers)
    else if numbers.cmdTimeoutMs <= 0 then (BadTimeout(numbers.cmdTimeoutMs), numbers)
    else (NoError, numbers.(others := others))
  }

  /** The whole of loadServerConfig. */
  ghost function Load(file: IniFile, env: Environment, lib: Library, c: Settings): (LoadError, Settings)
    requires TotalOrder(lib.le)
  {
    match file
    case NotThere => (NotFound, c)
    case Unreadable => (CannotOpen, c)
    case Ini(groups) => Checked(Numbers(groups.server, lib, c), Overlay(groups, env, lib, c.others))
  }

  // ----- what a load guarantees ---------------------------------------------------------------

  function Section(a: Group, b: Group): Group {
    if b == map[] then a else b
  }

  /** The file that says what a and then b say: single keys one by one, and of a section that holds
      a list or the tokens all of b's, unless b has none. */
  function Merge(a: Groups, b: Groups): Groups {
    Groups(a.server + b.server, a.tls + b.tls,
           Section(a.allowlist, b.allowlist), Section(a.denylist, b.denylist), Section(a.auth, b.auth),
           a.log + b.log)
  }

  lemma MergeSelf(a: Groups)
    ensures Merge(a, a) == a
  {
    assert a.server + a.server == a.server && a.tls + a.tls == a.tls && a.log + a.log == a.log;
  }

  lemma NumbersTwice(a: Group, b: Group, lib: Library, c: Settings, d: Settings)
    requires d.port == Numbers(a, lib, c).port && d.cmdTimeoutMs == Numbers(a, lib, c).cmdTimeoutMs
    ensures Numbers(b, lib, d).port == Numbers(a + b, lib, c).port
    ensures Numbers(b, lib, d).cmdTimeoutMs == Numbers(a + b, lib, c).cmdTimeoutMs
  {
  }

  /** A key of both files is b's, a key of one file is that file's. */
  lemma TlsTwice(a: Group, b: Group, env: Environment, lib: Library, c: TlsSettings)
    ensures OverlayTls(b, env, lib, OverlayTls(a, env, lib, c)) == OverlayTls(a + b, env, lib, c)
  {
  }

  lemma LogTwice(a: Group, b: Group, lib: Library, c: LogSettings)
    ensures OverlayLog(b, lib, OverlayLog(a, lib, c)) == OverlayLog(a + b, lib, c)
  {
  }

  lemma OverlayTwice(a: Groups, b: Groups, env: Environment, lib: Library, c: Others)
    requires TotalOrder(lib.le)
    ensures Overlay(b, env, lib, Overlay(a, env, lib, c)) == Overlay(Merge(a, b), env, lib, c)
  {
    TlsTwice(a.tls, b.tls, env, lib, c.tls);
    LogTwice(a.log, b.log, lib, c.log);
  }

  lemma CheckedAlike(n: Settings, m: Settings, others: Others)
    requires n.port == m.port && n.cmdTimeoutMs == m.cmdTimeoutMs
    ensures var x, y := Checked(n, others), Checked(m, others);
            && x.0 == y.0 && x.1.port == y.1.port && x.1.cmdTimeoutMs == y.1.cmdTimeoutMs
            && (x.0 == NoError ==> x == y)
  {
  }

  lemma Loaded(a: Groups, env: Environment, lib: Library, c: Settings, d: Settings)
    requires TotalOrder(lib.le) && Load(Ini(a), env, lib, c) == (NoError, d)
    ensures d == Numbers(a.server, lib, c).(others := Overlay(a, env, lib, c.others))
  {
  }

  /** The second load, where the first has laid file a over the settings. */
  lemma LoadSecond(a: Groups, b: Groups, env: Environment, lib: Library, c: Settings, d: Settings)
    requires TotalOrder(lib.le) && d == Numbers(a.server, lib, c).(others := Overlay(a, env, lib, c.others))
    ensures var twice, once := Load(Ini(b), env, lib, d), Load(Ini(Merge(a, b)), env, lib, c);
            && twice.0 == once.0
            && twice.1.port == once.1.port && twice.1.cmdTimeoutMs == once.1.cmdTimeoutMs
            && (twice.0 == NoError ==> twice == once)
  {
    NumbersTwice(a.server, b.server, lib, c, d);
    OverlayTwice(a, b, env, lib, c.others);
    CheckedAlike(Numbers(b.server, lib, d), Numbers(a.server + b.server, lib, c), Overlay(b, env, lib, d.others));
  }

  /** Loading file a and then file b is loading the file that says what both say: with the same error, if
      any, the same port and timeout, and, when there is no error, the same settings throughout. */
  lemma LoadTwoFiles(a: Groups, b: Groups, env: Environment, lib: Library, c: Settings, d: Settings)
    requires TotalOrder(lib.le) && Load(Ini(a), env, lib, c) == (NoError, d)
    ensures var twice, once := Load(Ini(b), env, lib, d), Load(Ini(Merge(a, b)), env, lib, c);
            && twice.0 == once.0
            && twice.1.port == once.1.port && twice.1.cmdTimeoutMs == once.1.cmdTimeoutMs
            && (twice.0 == NoError ==> twice == once)
  {
    Loaded(a, env, lib, c, d);
    LoadSecond(a, b, env, lib, c, d);
  }

  /** Success means usable numbers, and loading the same file again changes nothing. */
  lemma LoadedIsValidAndStable(file: IniFile, env: Environment, lib: Library, c: Settings)
    requires TotalOrder(lib.le) && Load(file, env, lib, c).0 == NoError
    ensures var d := Load(file, env, lib, c).1;
            && 1 <= d.port <= 65535 && d.cmdTimeoutMs > 0
            && Load(file, env, lib, d) == (NoError, d)
  {
    var groups := file.groups;
    MergeSelf(groups);
    LoadTwoFiles(groups, groups, env, lib, c, Load(Ini(groups), env, lib, c).1);
  }

  /** An error changes nothing but the port and the timeout, and those only where the file has them. */
  lemma FailedLoadKeepsTheRest(file: IniFile, env: Environment, lib: Library, c: Settings)
    requires TotalOrder(lib.le) && Load(file, env, lib, c).0 != NoError
    ensures var d := Load(file, env, lib, c).1;
            && d.others == c.others
            && (!file.Ini? ==> d == c)
            && (file.Ini? && "port" !in file.groups.server ==> d.port == c.port)
            && (file.Ini? && "cmd_timeout_ms" !in file.groups.server ==> d.cmdTimeoutMs == c.cmdTimeoutMs)
  {
  }

  ghost predicate TlsKept(tls: Group, c: TlsSettings, d: TlsSettings) {
    && ("enabled" !in tls ==> d.enabled == c.enabled)
    && ("cert" !in tls ==> d.certFile == c.certFile)
    && ("key" !in tls ==> d.keyFile == c.keyFile)
    && ("ca" !in tls ==> d.caFile == c.caFile)
  }

  ghost predicate LogKept(log: Group, c: LogSettings, d: LogSettings) {
    && ("file" !in log ==> d.file == c.file)
    && ("level" !in log ==> d.level == c.level)
    && ("debug_level" !in log ==> d.debugLevel == c.debugLevel)
  }

  lemma AbsentTlsKeys(tls: Group, env: Environment, lib: Library, c: TlsSettings, d: TlsSettings)
    requires d == OverlayTls(tls, env, lib, c)
    ensures TlsKept(tls, c, d)
  {
  }

  lemma AbsentLogKeys(log: Group, lib: Library, c: LogSettings, d: LogSettings)
    requires d == OverlayLog(log, lib, c)
    ensures LogKept(log, c, d)
  {
  }

  /** Absent keys and empty sections leave their fields alone, whatever else the file says. */
  lemma AbsentKeysKeepFields(groups: Groups, env: Environment, lib: Library, c: Others, d: Others)
    requires TotalOrder(lib.le) && d == Overlay(groups, env, lib, c)
    ensures TlsKept(groups.tls, c.tls, d.tls) && LogKept(groups.log, c.log, d.log)
    ensures groups.allowlist == map[] ==> d.allowlist == c.allowlist
    ensures groups.denylist == map[] ==> d.denylist == c.denylist
    ensures groups.auth == map[] ==> d.authTokens == c.authTokens
  {
    AbsentTlsKeys(groups.tls, env, lib, c.tls, d.tls);
    AbsentLogKeys(groups.log, lib, c.log, d.log);
  }

  ghost predicate Ascending(keys: seq<string>, lib: Library) {
    forall i, j | 0 <= i < j < |keys| :: lib.le(keys[i], keys[j]) && keys[i] != keys[j]
  }

  lemma SortedKeysAre(g: Group, lib: Library)
    requires TotalOrder(lib.le)
    ensures var keys := SortedKeys(g, lib);
            && Ascending(keys, lib)
            && (forall k :: k in keys <==> k in g)
  {
    var keys := SortedKeys(g, lib);
    forall i, j | 0 <= i < j < |keys|
      ensures lib.le(keys[i], keys[j]) && keys[i] != keys[j]
    {
      SortedIsOrdered(g.Keys, lib.le, i, j);
    }
  }

  /** The keys whose value is not empty. */
  function UsedKeys(g: Group, keys: seq<string>): (used: seq<string>)
    requires forall i | 0 <= i < |keys| :: keys[i] in g
    ensures forall i | 0 <= i < |used| :: used[i] in g
  {
    if keys == [] then []
    else (if g[keys[0]] == "" then [] else [keys[0]]) + UsedKeys(g, keys[1..])
  }

  lemma {:induction false} UsedKeysGiveValues(g: Group, keys: seq<string>)
    requires forall i | 0 <= i < |keys| :: keys[i] in g
    ensures var used, list := UsedKeys(g, keys), NonEmptyValues(g, keys);
            |list| == |used| && forall i | 0 <= i < |used| :: list[i] == g[used[i]]
    decreases |keys|
  {
    if keys == [] {
    } else {
      UsedKeysGiveValues(g, keys[1..]);
    }
  }

  lemma {:induction false} UsedKeysAre(g: Group, keys: seq<string>, k: string)
    requires forall i | 0 <= i < |keys| :: keys[i] in g
    ensures k in UsedKeys(g, keys) <==> k in keys && g[k] != ""
    decreases |keys|
  {
    if keys == [] {
    } else {
      assert keys == [keys[0]] + keys[1..];
      UsedKeysAre(g, keys[1..], k);
    }
  }

  lemma {:induction false} UsedKeysAscend(g: Group, keys: seq<string>, lib: Library)
    requires forall i | 0 <= i < |keys| :: keys[i] in g
    requires Ascending(keys, lib)
    ensures Ascending(UsedKeys(g, keys), lib)
    decreases |keys|
  {
    if keys == [] {
    } else {
      var rest := UsedKeys(g, keys[1..]);
      UsedKeysAscend(g, keys[1..], lib);
      forall j | 0 <= j < |rest|
        ensures lib.le(keys[0], rest[j]) && keys[0] != rest[j]
      {
        assert rest[j] in rest;
        UsedKeysAre(g, keys[1..], rest[j]);
        var i :| 0 <= i < |keys| - 1 && keys[1..][i] == rest[j];
        assert keys[i + 1] == rest[j];
      }
    }
  }

  /** A pattern section that is present replaces the whole list: with the values of exactly those of its keys whose
      value is not empty, one for each, in the order of the keys. */
  lemma PresentSectionReplaces(g: Group, current: seq<string>, lib: Library) returns (used: seq<string>)
    requires TotalOrder(lib.le) && g != map[]
    ensures forall k :: k in used <==> k in g && g[k] != ""
    ensures Ascending(used, lib)
    ensures var list := Patterns(g, current, lib);
            |list| == |used| && forall i | 0 <= i < |list| :: used[i] in g && list[i] == g[used[i]]
  {
    var keys := SortedKeys(g, lib);
    SortedKeysAre(g, lib);
    used := UsedKeys(g, keys);
    UsedKeysGiveValues(g, keys);
    UsedKeysAscend(g, keys, lib);
    forall k
      ensures k in used <==> k in g && g[k] != ""
    {
      UsedKeysAre(g, keys, k);
    }
  }

  /** A present [auth] section keeps exactly the entries whose expanded token is not empty. */
  lemma PresentAuthReplaces(g: Group, current: map<string, string>, env: Environment, identity: string)
    requires g != map[]
    ensures var tokens := AuthTokens(g, current, env);
            && (identity in tokens <==> identity in g && Expand(g[identity], env) != "")
            && (identity in tokens ==> tokens[identity] == Expand(g[identity], env))
  {
  }

  // ----- what a load does, key by key --------------------------------------------------------------

  /** What the keys that are present set; of the paths and tokens, after expansion. */
  ghost predicate TlsSet(tls: Group, env: Environment, lib: Library, d: TlsSettings) {
    && ("enabled" in tls ==> d.enabled == lib.toBool(tls["enabled"]))
    && ("cert" in tls ==> d.certFile == Expand(tls["cert"], env))
    && ("key" in tls ==> d.keyFile == Expand(tls["key"], env))
    && ("ca" in tls ==> d.caFile == Expand(tls["ca"], env))
  }

  ghost predicate LogSet(log: Group, lib: Library, d: LogSettings) {
    && ("file" in log ==> d.file == log["file"])
    && ("level" in log ==> d.level == log["level"])
    && ("debug_level" in log ==> d.debugLevel == lib.toInt(log["debug_level"]))
  }

  lemma PresentTlsKeys(tls: Group, env: Environment, lib: Library, c: TlsSettings)
    ensures TlsSet(tls, env, lib, OverlayTls(tls, env, lib, c))
  {
  }

  lemma PresentLogKeys(log: Group, lib: Library, c: LogSettings)
    ensures LogSet(log, lib, OverlayLog(log, lib, c))
  {
  }

  /** A section of patterns, if there is one, replaces the list: with the values of exactly those of its keys
      whose value is not empty, one for each, in the order of the keys. */
  ghost predicate ListSet(g: Group, current: seq<string>, lib: Library, list: seq<string>) {
    if g == map[] then list == current
    else exists used: seq<string> ::
      && Ascending(used, lib) && (forall k :: k in used <==> k in g && g[k] != "")
      && |list| == |used| && forall i | 0 <= i < |list| :: used[i] in g && list[i] == g[used[i]]
  }

  /** The section of tokens, if there is one, replaces them all: with those that are not empty after expansion. */
  ghost predicate TokensSet(g: Group, current: map<string, string>, env: Environment, tokens: map<string, string>) {
    if g == map[] then tokens == current
    else
      && (forall i :: i in tokens <==> i in g && Expand(g[i], env) != "")
      && forall i | i in tokens :: i in g && tokens[i] == Expand(g[i], env)
  }

  lemma PatternsSet(g: Group, current: seq<string>, lib: Library)
    requires TotalOrder(lib.le)
    ensures ListSet(g, current, lib, Patterns(g, current, lib))
  {
    if g != map[] {
      var used := PresentSectionReplaces(g, current, lib);
    }
  }

  lemma AuthTokensSet(g: Group, current: map<string, string>, env: Environment)
    ensures TokensSet(g, current, env, AuthTokens(g, current, env))
  {
  }

  /** What the groups other than [server] set, each its own fields. */
  ghost predicate OthersSet(groups: Groups, env: Environment, lib: Library, c: Others, d: Others) {
    && TlsSet(groups.tls, env, lib, d.tls) && TlsKept(groups.tls, c.tls, d.tls)
    && ListSet(groups.allowlist, c.allowlist, lib, d.allowlist)
    && ListSet(groups.denylist, c.denylist, lib, d.denylist)
    && TokensSet(groups.auth, c.authTokens, env, d.authTokens)
    && LogSet(groups.log, lib, d.log) && LogKept(groups.log, c.log, d.log)
  }

  lemma OverlaySets(groups: Groups, env: Environment, lib: Library, c: Others, d: Others)
    requires TotalOrder(lib.le) && d == Overlay(groups, env, lib, c)
    ensures OthersSet(groups, env, lib, c, d)
  {
    PresentTlsKeys(groups.tls, env, lib, c.tls);
    PresentLogKeys(groups.log, lib, c.log);
    AbsentTlsKeys(groups.tls, env, lib, c.tls, d.tls);
    AbsentLogKeys(groups.log, lib, c.log, d.log);
    PatternsSet(groups.allowlist, c.allowlist, lib);
    PatternsSet(groups.denylist, c.denylist, lib);
    AuthTokensSet(groups.auth, c.authTokens, env);
  }

  /** The number of a file that has it, or else the current one. */
  ghost predicate NumberOf(server: Group, key: string, lib: Library, current: int, n: int) {
    n == if key in server then lib.toInt(server[key]) else current
  }

  /** The numbers are set and checked first, and an error names the number that is not allowed; without an
      error the other groups set their fields. */
  ghost predicate LoadedKeys(groups: Groups, env: Environment, lib: Library, c: Settings,
                             error: LoadError, d: Settings)
  {
    && NumberOf(groups.server, "port", lib, c.port, d.port)
    && NumberOf(groups.server, "cmd_timeout_ms", lib, c.cmdTimeoutMs, d.cmdTimeoutMs)
    && (if d.port < 1 || 65535 < d.port then error == BadPort(d.port)
        else if d.cmdTimeoutMs < 1 then error == BadTimeout(d.cmdTimeoutMs)
        else error == NoError)
    && (if error == NoError then OthersSet(groups, env, lib, c.others, d.others) else d.others == c.others)
  }

  lemma CheckedNumbers(server: Group, lib: Library, c: Settings, others: Others)
    ensures var numbers := Numbers(server, lib, c);
            var (error, d) := Checked(numbers, others);
            && NumberOf(server, "port", lib, c.port, d.port)
            && NumberOf(server, "cmd_timeout_ms", lib, c.cmdTimeoutMs, d.cmdTimeoutMs)
            && (if d.port < 1 || 65535 < d.port then error == BadPort(d.port)
                else if d.cmdTimeoutMs < 1 then error == BadTimeout(d.cmdTimeoutMs)
                else error == NoError)
            && d.others == if error == NoError then others else c.others
  {
  }

  lemma LoadSetsKeys(groups: Groups, env: Environment, lib: Library, c: Settings, error: LoadError, d: Settings)
    requires TotalOrder(lib.le) && Load(Ini(groups), env, lib, c) == (error, d)
    ensures LoadedKeys(groups, env, lib, c, error, d)
  {
    CheckedNumbers(groups.server, lib, c, Overlay(groups, env, lib, c.others));
    if error == NoError {
      OverlaySets(groups, env, lib, c.others, d.others);
    }
  }

  // ----- the settings object ----------------------------------------------------------------------

  class ServerConfig {
    var port: int
    var cmdTimeoutMs: int
    var tlsEnabled: bool
    var certFile: string
    var keyFile: string
    var caFile: string
    var allowlist: seq<string>
    var denylist: seq<string>
    var authTokens: map<string, string>
    var logFile: string
    var logLevel: string
    var debugLevel: int

    function Value(): Settings
      reads this
    {
      Settings(port, cmdTimeoutMs,
               Others(TlsSettings(tlsEnabled, certFile, keyFile, caFile), allowlist, denylist, authTokens,
                      LogSettings(logFile, logLevel, debugLevel)))
    }

    constructor ()
      ensures Value() == Settings(50051, 30000,
                                  Others(TlsSettings(false, "", "", ""), [], [], map[], LogSettings("", "", -1)))
    {
      port, cmdTimeoutMs, tlsEnabled := 50051, 30000, false;
      certFile, keyFile, caFile := "", "", "";
      allowlist, denylist, authTokens := [], [], map[];
      logFile, logLevel, debugLevel := "", "", -1;
    }
  }

  lemma NonEmptyValuesFrom(g: Group, keys: seq<string>, i: nat)
    requires forall k | 0 <= k < |keys| :: keys[k] in g
    requires i < |keys|
    ensures NonEmptyValues(g, keys[i..])
            == (if g[keys[i]] == "" then [] else [g[keys[i]]]) + NonEmptyValues(g, keys[i + 1..])
  {
    assert keys[i..][1..] == keys[i + 1..];
  }

  /** The loop over the sorted keys of a pattern section. */
  method CollectPatterns(g: Group, sorted: seq<string>) returns (list: seq<string>)
    requires forall i | 0 <= i < |sorted| :: sorted[i] in g
    ensures list == NonEmptyValues(g, sorted)
  {
    list := [];
    var i := 0;
    ghost var all, rest := NonEmptyValues(g, sorted), NonEmptyValues(g, sorted);
    assert sorted[0..] == sorted;
    while i < |sorted|
      invariant 0 <= i <= |sorted|
      invariant rest == NonEmptyValues(g, sorted[i..])
      invariant list + rest == all
    {
      NonEmptyValuesFrom(g, sorted, i);
      rest := NonEmptyValues(g, sorted[i + 1..]);
      if g[sorted[i]] != "" {
        ConcatAssoc(list, [g[sorted[i]]], rest);
        list := list + [g[sorted[i]]];
      }
      i := i + 1;
    }
  }

  method LoadPatterns(g: Group, current: seq<string>, lib: Library) returns (list: seq<string>)
    requires TotalOrder(lib.le)
    ensures list == Patterns(g, current, lib)
  {
    if g == map[] {
      return current;
    }
    var sorted := Sort(g.Keys, lib.le);
    assert forall i | 0 <= i < |sorted| :: sorted[i] in sorted;
    list := CollectPatterns(g, sorted);
  }

  lemma TokensOfOneMore(g: Group, done: set<string>, identity: string, env: Environment)
    requires done <= g.Keys && identity in g && identity !in done
    ensures var token, before := Expand(g[identity], env), TokensOf(g, done, env);
            TokensOf(g, done + {identity}, env) == if token == "" then before else before[identity := token]
  {
  }

  /** The loop over the [auth] section, in whatever order its keys come. */
  method LoadTokens(g: Group, current: map<string, string>, env: Environment) returns (tokens: map<string, string>)
    ensures tokens == AuthTokens(g, current, env)
  {
    if g == map[] {
      return current;
    }
    tokens := map[];
    var rest := g.Keys;
    ghost var done: set<string> := {};
    while rest != {}
      invariant done <= g.Keys && rest == g.Keys - done
      invariant tokens == TokensOf(g, done, env)
      decreases |rest|
    {
      var identity :| identity in rest;
      rest := rest - {identity};
      TokensOfOneMore(g, done, identity, env);
      done := done + {identity};
      var token := ExpandEnvVars(g[identity], env);
      if token != "" {
        tokens := tokens[identity := token];
      }
    }
    assert done == g.Keys;
  }

  /** The [server] group. */
  method LoadNumbers(server: Group, lib: Library, cfg: ServerConfig)
    modifies cfg
    ensures cfg.Value() == Numbers(server, lib, old(cfg.Value()))
  {
    if "port" in server {
      cfg.port := lib.toInt(server["port"]);
    }
    if "cmd_timeout_ms" in server {
      cfg.cmdTimeoutMs := lib.toInt(server["cmd_timeout_ms"]);
    }
  }

  method LoadPath(g: Group, key: string, current: string, env: Environment) returns (path: string)
    ensures path == Path(g, key, current, env)
  {
    path := current;
    if key in g {
      path := ExpandEnvVars(g[key], env);
    }
  }

  /** The [tls] group. */
  method LoadTls(tls: Group, env: Environment, lib: Library, cfg: ServerConfig)
    modifies cfg
    ensures var c := old(cfg.Value());
            cfg.Value() == c.(others := c.others.(tls := OverlayTls(tls, env, lib, c.others.tls)))
  {
    cfg.tlsEnabled := Flag(tls, "enabled", cfg.tlsEnabled, lib);
    cfg.certFile := LoadPath(tls, "cert", cfg.certFile, env);
    cfg.keyFile := LoadPath(tls, "key", cfg.keyFile, env);
    cfg.caFile := LoadPath(tls, "ca", cfg.caFile, env);
  }

  /** The groups that cannot fail. */
  method LoadSections(groups: Groups, env: Environment, lib: Library, cfg: ServerConfig)
    requires TotalOrder(lib.le)
    modifies cfg
    ensures var c := old(cfg.Value());
            cfg.Value() == c.(others := Overlay(groups, env, lib, c.others))
  {
    LoadTls(groups.tls, env, lib, cfg);
    cfg.allowlist := LoadPatterns(groups.allowlist, cfg.allowlist, lib);
    cfg.denylist := LoadPatterns(groups.denylist, cfg.denylist, lib);
    cfg.authTokens := LoadTokens(groups.auth, cfg.authTokens, env);
    cfg.logFile := Setting(groups.log, "file", cfg.logFile);
    cfg.logLevel := Setting(groups.log, "level", cfg.logLevel);
    cfg.debugLevel := Number(groups.log, "debug_level", cfg.debugLevel, lib);
  }

  /** loadServerConfig. */
  method LoadServerConfig(file: IniFile, env: Environment, lib: Library, cfg: ServerConfig) returns (error: LoadError)
    requires TotalOrder(lib.le)
    modifies cfg
    ensures (error, cfg.Value()) == Load(file, env, lib, old(cfg.Value()))
    ensures file.Ini? ==> LoadedKeys(file.groups, env, lib, old(cfg.Value()), error, cfg.Value())
    ensures !file.Ini? ==> cfg.Value() == old(cfg.Value()) && error == if file.NotThere? then NotFound else CannotOpen
  {
    if file.Ini? {
      ghost var loaded := Load(file, env, lib, cfg.Value());
      LoadSetsKeys(file.groups, env, lib, cfg.Value(), loaded.0, loaded.1);
    }
    if file.NotThere? {
      return NotFound;
    }
    if file.Unreadable? {
      return CannotOpen;
    }
    LoadNumbers(file.groups.server, lib, cfg);
    if cfg.port <= 0 || cfg.port > 65535 {
      return BadPort(cfg.port);
    }
    if cfg.cmdTimeoutMs <= 0 {
      return BadTimeout(cfg.cmdTimeoutMs);
    }
    LoadSections(file.groups, env, lib, cfg);
    return NoError;
  }
}
