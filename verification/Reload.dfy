/**
 Hot reload of config.yaml by the MX server (mx/reload.go, mx/config.go): a content hash
 decides whether the file is read again; the watcher and SMTP sessions share one cell.
 */
module Reload {
  import opened Wrappers
  import opened Text

  /** The settings of the file that sessions and the cap job use; 0 and "" count as absent. */
  datatype RawConfig = RawConfig(
    databaseUrl: string, domains: seq<string>, maxMsgSizeMb: int, maxEmailsPerAddress: int,
    maxMessagesPerHourIp: Option<int>, maxMimeParts: Option<int>)

  datatype Config = Config(
    domains: seq<string>, maxMsgSizeMb: int, maxEmailsPerAddress: int,
    maxMessagesPerHourIp: Option<int>, maxMimeParts: Option<int>)

  /** yaml.Unmarshal (None for an error) and the hex SHA-256 of a file. */
  datatype Env = Env(unmarshal: string -> Option<RawConfig>, sum: string -> string)

  /** LoadConfig: required keys, then defaults. */
  function Load(env: Env, content: string): Option<Config> {
    match env.unmarshal(content)
    case None => None
    case Some(raw) =>
      if raw.databaseUrl == "" || raw.domains == [] then None
      else Some(Config(
        raw.domains,
        if raw.maxMsgSizeMb == 0 then 10 else raw.maxMsgSizeMb,
        if raw.maxEmailsPerAddress == 0 then 100 else raw.maxEmailsPerAddress,
        raw.maxMessagesPerHourIp,
        raw.maxMimeParts))
  }

  function LoadFile(env: Env, file: Option<string>): Option<Config> {
    if file.Some? then Load(env, file.value) else None
  }

  /** hashFile: "" when the file cannot be read. */
  function HashFile(env: Env, file: Option<string>): string {
    if file.Some? then env.sum(file.value) else ""
  }

  function MaxMessageSize(c: Config): int { c.maxMsgSizeMb * 1_048_576 }
  function MaxMessagesPerHourIp(c: Config): int { if c.maxMessagesPerHourIp.None? then 300 else c.maxMessagesPerHourIp.value }
  function MaxMimeParts(c: Config): int { if c.maxMimeParts.None? then 100 else c.maxMimeParts.value }

  /** The domains a session accepts: trimmed, lower-cased, blanks dropped. */
  function DomainSet(domains: seq<string>): set<string> {
    set i | 0 <= i < |domains| && ToLower(Strip(domains[i])) != "" :: ToLower(Strip(domains[i]))
  }

  method GetDomainMap(c: Config) returns (domains: set<string>)
    ensures domains == DomainSet(c.domains)
    ensures forall d :: d in domains <==> d != "" && exists i :: 0 <= i < |c.domains| && ToLower(Strip(c.domains[i])) == d
  {
    domains := {};
    for i := 0 to |c.domains|
      invariant domains == set j | 0 <= j < i && ToLower(Strip(c.domains[j])) != "" :: ToLower(Strip(c.domains[j]))
    {
      var normalized := ToLower(Strip(c.domains[i]));
      if normalized != "" {
        domains := domains + {normalized};
      }
    }
  }

  /**
   What a file says: it loads iff it parses and names a database and a domain, and the
   limits it gives are in force, with 10 MB a message, 100 messages a mailbox, 300 messages
   an hour and 100 parts where it says nothing. Zero counts as nothing for the first two.
   */
  lemma LoadedLimits(env: Env, content: string, raw: RawConfig)
    requires env.unmarshal(content) == Some(raw)
    ensures Load(env, content).Some? <==> raw.databaseUrl != "" && |raw.domains| > 0
    ensures Load(env, content).Some? ==> var c := Load(env, content).value;
      && c.domains == raw.domains
      && MaxMessageSize(c) == (if raw.maxMsgSizeMb == 0 then 10_485_760 else raw.maxMsgSizeMb * 1024 * 1024)
      && c.maxEmailsPerAddress == (if raw.maxEmailsPerAddress == 0 then 100 else raw.maxEmailsPerAddress)
      && (match raw.maxMessagesPerHourIp
          case None => MaxMessagesPerHourIp(c) == 300
          case Some(n) => MaxMessagesPerHourIp(c) == n)
      && (match raw.maxMimeParts case None => MaxMimeParts(c) == 100 case Some(n) => MaxMimeParts(c) == n)
  {
  }

  /** A file that cannot be read or parsed does not load. */
  lemma UnreadableDoesNotLoad(env: Env, file: Option<string>)
    ensures LoadFile(env, file).Some? ==> file.Some? && env.unmarshal(file.value).Some?
  {
  }

  // --------------------------------------------------------------------- the cell

  /** currentConfig and configHash. */
  datatype Cell = Cell(current: Config, hash: string)

  /**
   reloadIfChanged. It reads the file twice, once to hash and once to load; `atHash` and
   `atLoad` are what those reads find.
   */
  function AfterReload(env: Env, s: Cell, atHash: Option<string>, atLoad: Option<string>): (Cell, Option<Config>) {
    var sum := HashFile(env, atHash);
    if sum == "" || sum == s.hash then (s, None)
    else match LoadFile(env, atLoad)
      case None => (s, None)
      case Some(c) => (Cell(c, sum), Some(c))
  }

  class ConfigCell {
    var current: Config
    var configHash: string

    constructor (c: Config, hash: string)
      ensures State() == Cell(c, hash)
    {
      current, configHash := c, hash;
    }

    function State(): Cell
      reads this
    {
      Cell(current, configHash)
    }

    method ReloadIfChanged(env: Env, atHash: Option<string>, atLoad: Option<string>) returns (r: Option<Config>)
      modifies this
      ensures (State(), r) == AfterReload(env, old(State()), atHash, atLoad)
    {
      var sum := HashFile(env, atHash);
      if sum == "" || sum == configHash {
        return None;
      }
      r := LoadFile(env, atLoad);
      if r.None? {
        return None;
      }
      configHash := sum;
      current := r.value;
    }
  }

  // -------------------------------------------------------------------- invariance

  /** Distinct contents have distinct, non-empty sums. */
  ghost predicate HashIsFaithful(env: Env) {
    && (forall x, y :: env.sum(x) == env.sum(y) ==> x == y)
    && forall x :: env.sum(x) != ""
  }

  /** The current configuration is the load of the content whose sum is recorded. */
  ghost predicate InStep(env: Env, s: Cell) {
    exists content :: env.sum(content) == s.hash && Load(env, content) == Some(s.current)
  }

  /**
   With both reads finding the same file, a reload keeps cell and hash in step, a failed
   load changes neither, and a loadable file is in force afterwards.
   */
  lemma AtomicReload(env: Env, s: Cell, file: Option<string>)
    requires HashIsFaithful(env) && InStep(env, s)
    ensures var (s', r) := AfterReload(env, s, file, file);
      && InStep(env, s')
      && (LoadFile(env, file).None? ==> s' == s && r == None)
      && (LoadFile(env, file).Some? ==> Some(s'.current) == LoadFile(env, file))
      && (r.Some? <==> LoadFile(env, file).Some? && env.sum(file.value) != s.hash)
  {
    if file.Some? {
      var (s', r) := AfterReload(env, s, file, file);
      assert r.Some? ==> env.sum(file.value) == s'.hash && Load(env, file.value) == Some(s'.current);
    }
  }

  datatype Event = FileChanges(file: Option<string>) | Tick

  datatype World = World(file: Option<string>, cell: Cell)

  function Step(env: Env, w: World, e: Event): World {
    match e
    case FileChanges(file) => w.(file := file)
    case Tick => w.(cell := AfterReload(env, w.cell, w.file, w.file).0)
  }

  /** Every run of file edits and reloads, by the watcher or by sessions, stays in step. */
  function Run(env: Env, start: World, events: seq<Event>): (w: World)
    requires HashIsFaithful(env) && InStep(env, start.cell)
    ensures InStep(env, w.cell)
    ensures events != [] && events[|events| - 1].Tick? && LoadFile(env, w.file).Some? ==>
      LoadFile(env, w.file) == Some(w.cell.current)
  {
    if events == [] then start
    else
      var w := Run(env, start, events[..|events| - 1]);
      AtomicReload(env, w.cell, w.file);
      Step(env, w, events[|events| - 1])
  }

  // --------------------------------------------------------- when the reads differ

  /** A write between the two reads leaves cell and hash in step iff it did not change the configuration. */
  lemma SplitReadStaysInStepIff(env: Env, s: Cell, atHash: string, atLoad: string)
    requires HashIsFaithful(env) && env.sum(atHash) != s.hash && Load(env, atLoad).Some?
    ensures InStep(env, AfterReload(env, s, Some(atHash), Some(atLoad)).0) <==> Load(env, atHash) == Load(env, atLoad)
  {
    var s' := AfterReload(env, s, Some(atHash), Some(atLoad)).0;
    if Load(env, atHash) == Load(env, atLoad) {
      assert env.sum(atHash) == s'.hash && Load(env, atHash) == Some(s'.current);
    }
  }

  /**
   After such a split read the next tick repairs the cell from any other loadable content,
   but a file put back to what was hashed is never read again.
   */
  lemma SplitReadHealsUnlessFileReturns(env: Env, s: Cell, atHash: string, atLoad: string, file: string)
    requires HashIsFaithful(env) && env.sum(atHash) != s.hash
    requires Load(env, atLoad).Some? && Load(env, file).Some? && Load(env, atHash) != Load(env, atLoad)
    ensures var s' := AfterReload(env, s, Some(atHash), Some(atLoad)).0;
      && (file != atHash ==> InStep(env, AfterReload(env, s', Some(file), Some(file)).0))
      && (file == atHash ==> AfterReload(env, s', Some(file), Some(file)) == (s', None) && !InStep(env, s'))
  {
    var s' := AfterReload(env, s, Some(atHash), Some(atLoad)).0;
    SplitReadStaysInStepIff(env, s, atHash, atLoad);
    if file != atHash {
      var s'' := AfterReload(env, s', Some(file), Some(file)).0;
      assert env.sum(file) == s''.hash && Load(env, file) == Some(s''.current);
    }
  }

  /** Start-up loads the file and hashes it later: in step iff no edit in between changed the configuration. */
  lemma StartUpInStepIff(env: Env, loaded: string, hashed: string)
    requires HashIsFaithful(env) && Load(env, loaded).Some?
    ensures InStep(env, Cell(Load(env, loaded).value, env.sum(hashed))) <==> Load(env, hashed) == Load(env, loaded)
  {
    if Load(env, hashed) == Load(env, loaded) {
      assert env.sum(hashed) == env.sum(hashed) && Load(env, hashed) == Some(Load(env, loaded).value);
    }
  }
}
