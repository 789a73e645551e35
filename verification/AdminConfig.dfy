/**
 The admin routes that change the configuration (api/app/routers/admin.py): each reads
 config.yaml, edits the dictionary and commits it with roll-back.
 */
module AdminConfig {
  import opened Wrappers
  import opened Text
  import opened ConfigValues
  import opened ConfigPatch
  import opened ConfigFile
  import opened LiveSettings
  import opened PatchLaws

  // ---------------------------------------------------------------- _commit_config

  datatype World = World(files: Files, fields: Fields)

  /** What the API has in memory is what a fresh load of the file would give. */
  ghost predicate InStep(y: Yaml, w: World) {
    Reload(map[], Parse(y, w.files.main)) == (w.fields, true)
  }

  /** The configuration in the file loads. */
  predicate Loadable(v: Value) { Reload(map[], Some(v)).1 }

  /** _commit_config: the result says whether the new configuration was kept. */
  function Commit(y: Yaml, w: World, config: Value): (World, bool) {
    var previous := Read(y, w.files);
    var files1 := Written(y, w.files, config);
    var (fields1, ok1) := Reload(w.fields, Parse(y, files1.main));
    if ok1 then (World(files1, fields1), true)
    else
      var files2 := Written(y, files1, previous);
      (World(files2, Reload(fields1, Parse(y, files2.main)).0), false)
  }

  method CommitConfig(disk: Disk, settings: Settings, y: Yaml, config: Value) returns (kept: bool)
    requires disk.files in disk.seen
    modifies disk, settings
    ensures (World(disk.files, settings.fields), kept) == Commit(y, World(old(disk.files), old(settings.fields)), config)
    ensures disk.files in disk.seen
  {
    var previous := disk.ReadConfig(y);
    disk.WriteConfig(y, config);
    kept := settings.ReloadSettings(Parse(y, disk.files.main));
    if !kept {
      disk.WriteConfig(y, previous);
      var _ := settings.ReloadSettings(Parse(y, disk.files.main));
    }
  }

  /** safe_load reads back what safe_dump wrote. */
  ghost predicate ReadsBack(y: Yaml, v: Value) { y.parse(y.dump(v)) == Some(v) }

  /**
   Commit is all or nothing over the file and the live settings: it keeps the new
   configuration iff that loads, otherwise file and settings are those of the previous
   one, even when _apply had already overwritten some fields.
   */
  lemma CommitIsAllOrNothing(y: Yaml, w: World, config: Value)
    requires ReadsBack(y, config) && ReadsBack(y, Read(y, w.files))
    requires w.fields.Keys <= AllFields() && Loadable(Read(y, w.files))
    ensures var (w', kept) := Commit(y, w, config);
      && (kept <==> Loadable(config))
      && var now := if kept then config else Read(y, w.files);
         && Parse(y, w'.files.main) == Some(now)
         && (w'.fields, true) == Reload(map[], Some(now))
         && w'.fields.Keys <= AllFields()
  {
    var previous := Read(y, w.files);
    var files1 := Written(y, w.files, config);
    ReloadForgetsThePast(map[], w.fields, Parse(y, files1.main));
    var fields1 := Reload(w.fields, Parse(y, files1.main)).0;
    ReloadForgetsThePast(map[], fields1, Some(previous));
  }

  /** File and settings agree after a commit iff the new or the previous configuration loads. */
  lemma CommitEndsInStepIff(y: Yaml, w: World, config: Value)
    requires ReadsBack(y, config) && ReadsBack(y, Read(y, w.files)) && w.fields.Keys <= AllFields()
    ensures InStep(y, Commit(y, w, config).0) <==> Loadable(config) || Loadable(Read(y, w.files))
  {
    var previous := Read(y, w.files);
    var files1 := Written(y, w.files, config);
    ReloadForgetsThePast(map[], w.fields, Parse(y, files1.main));
    var fields1 := Reload(w.fields, Parse(y, files1.main)).0;
    ReloadForgetsThePast(map[], fields1, Some(previous));
  }

  // ------------------------------------------------------------------- the routes

  const MAX_DOMAINS := 100

  datatype Request =
    | AddDomain(domain: string)
    | RemoveDomain(domain: string)
    | UpdateConfig(patch: Patch)

  /** [d for d in (config.get('domains') or [])] */
  function Domains(c: Config): seq<Value> {
    if "domains" in c && c["domains"].List? then c["domains"].items else []
  }

  function Without(domains: seq<Value>, d: Value): seq<Value> {
    if domains == [] then []
    else (if domains[0] == d then [] else [domains[0]]) + Without(domains[1..], d)
  }

  /** The configuration a request wants to commit; None is an error reply. */
  function Proposed(c: Config, r: Request): Option<Config> {
    match r
    case AddDomain(d) =>
      var domain := ToLower(Strip(d));
      if !IsDomain(domain) || Str(domain) in Domains(c) || |Domains(c)| >= MAX_DOMAINS then None
      else Some(c["domains" := List(Domains(c) + [Str(domain)])])
    case RemoveDomain(d) =>
      var domain := ToLower(Strip(d));
      if Str(domain) !in Domains(c) || |Domains(c)| <= 1 then None
      else Some(c["domains" := List(Without(Domains(c), Str(domain)))])
    case UpdateConfig(patch) =>
      (match Apply(c, Edits(patch))
       case Ok(c', _) => Some(c')
       case _ => None)
  }

  /** One request: the world after it, and whether it succeeded. */
  function Serve(y: Yaml, w: World, r: Request): (World, bool) {
    var current := Read(y, w.files);
    if !current.Dict? then (w, false)
    else match Proposed(current.entries, r)
      case None => (w, false)
      case Some(c) => Commit(y, w, Dict(c))
  }

  /** The routes: read the file, edit a dictionary, commit. False is an error reply. */
  method Handle(disk: Disk, settings: Settings, y: Yaml, r: Request) returns (kept: bool)
    requires disk.files in disk.seen
    modifies disk, settings
    ensures (World(disk.files, settings.fields), kept) == Serve(y, World(old(disk.files), old(settings.fields)), r)
  {
    var current := disk.ReadConfig(y);
    if !current.Dict? {
      return false;
    }
    var proposed: Config;
    match r {
      case AddDomain(d) =>
        var domain := ToLower(Strip(d));
        var domains := Domains(current.entries);
        if !IsDomain(domain) || Str(domain) in domains || |domains| >= MAX_DOMAINS {
          return false;
        }
        proposed := current.entries["domains" := List(domains + [Str(domain)])];
      case RemoveDomain(d) =>
        var domain := Str(ToLower(Strip(d)));
        var domains := Domains(current.entries);
        if domain !in domains || |domains| <= 1 {
          return false;
        }
        proposed := current.entries["domains" := List(Without(domains, domain))];
      case UpdateConfig(patch) =>
        var dictionary := new ConfigDict(current.entries);
        var outcome := dictionary.ApplyPatch(patch);
        if !outcome.Ok? {
          return false;
        }
        proposed := dictionary.root;
    }
    kept := CommitConfig(disk, settings, y, Dict(proposed));
  }

  // -------------------------------------------------------------------- invariant

  ghost predicate Distinct(s: seq<Value>) {
    forall i, j :: 0 <= i < j < |s| ==> s[i] != s[j]
  }

  /** A list of 1 to 100 different domain names. */
  ghost predicate DomainsSound(c: Config) {
    && "domains" in c && c["domains"].List? && 1 <= |Domains(c)| <= MAX_DOMAINS && Distinct(Domains(c))
    && forall i :: 0 <= i < |Domains(c)| ==> Domains(c)[i].Str?
  }

  ghost predicate ConfigSound(c: Config) { DomainsSound(c) && PanelIsReachable(c) }

  lemma {:induction false} WithoutRemovesOne(s: seq<Value>, d: Value)
    requires Distinct(s)
    ensures Distinct(Without(s, d)) && |Without(s, d)| == |s| - if d in s then 1 else 0
    ensures forall v :: v in Without(s, d) <==> v in s && v != d
  {
    if s != [] {
      WithoutRemovesOne(s[1..], d);
      assert s == [s[0]] + s[1..];
      assert s[0] !in s[1..] by {
        assert forall j :: 0 <= j < |s[1..]| ==> s[1..][j] == s[j + 1];
      }
    }
  }

  lemma EditsStayOffDomains(c: Config, edits: seq<Edit>)
    requires Apply(c, edits).Ok?
    ensures var c' := Apply(c, edits).config; ("domains" in c' <==> "domains" in c) && ("domains" in c ==> c'["domains"] == c["domains"])
  {
    SectionsWritten(c, {}, edits, "domains");
    AppliedEditsAreWellTyped(c, {}, edits);
    assert "domains" !in ALLOWED;
  }

  lemma PanelCheckPassed(c: Config, edits: seq<Edit>)
    requires Apply(c, edits).Ok?
    ensures PanelIsReachable(Apply(c, edits).config)
  {
  }

  lemma OtherKeysKeepPanel(c: Config, domains: Value)
    requires PanelIsReachable(c)
    ensures PanelIsReachable(c["domains" := domains])
  {
    assert "domains" != "web";
  }

  lemma ProposedIsSound(c: Config, r: Request)
    requires ConfigSound(c) && Proposed(c, r).Some?
    ensures ConfigSound(Proposed(c, r).value)
  {
    match r
    case AddDomain(d) => OtherKeysKeepPanel(c, List(Domains(c) + [Str(ToLower(Strip(d)))]));
    case RemoveDomain(d) =>
      var domain := Str(ToLower(Strip(d)));
      WithoutRemovesOne(Domains(c), domain);
      forall i | 0 <= i < |Without(Domains(c), domain)| ensures Without(Domains(c), domain)[i].Str? {
        assert Without(Domains(c), domain)[i] in Domains(c);
      }
      OtherKeysKeepPanel(c, List(Without(Domains(c), domain)));
    case UpdateConfig(patch) =>
      EditsStayOffDomains(c, Edits(patch));
      PanelCheckPassed(c, Edits(patch));
  }

  ghost predicate WorldSound(y: Yaml, w: World) {
    && InStep(y, w) && w.fields.Keys <= AllFields()
    && var v := Parse(y, w.files.main); IsConfig(v) && ConfigSound(v.value.entries)
  }

  /** Start-up on a file that holds a sound configuration which loads ends in a sound world. */
  lemma StartUpIsSound(y: Yaml, f: Files, c: Config)
    requires Parse(y, f.main) == Some(Dict(c)) && ConfigSound(c) && Loadable(Dict(c))
    ensures WorldSound(y, World(f, Reload(map[], Some(Dict(c))).0))
  {
    ReloadForgetsThePast(map[], map[], Some(Dict(c)));
    assert "domains" in c;
  }

  // --------------------------------------------------------- roll-back is never needed

  /** The CORS origins are something that `in` accepts. */
  ghost predicate OriginsAreContainer(c: Config) {
    IsContainer(Get(c, ("cors", "allow_origins"), List([])))
  }

  lemma LoadableIff(c: Config)
    requires DomainsSound(c)
    ensures Loadable(Dict(c)) <==> SectionsAreMappings(c) && OriginsAreContainer(c)
  {
    assert "domains" in c && Acceptable(Some(Dict(c))) == Some(c);
    ApplySucceedsIff(map[], c);
  }

  /** A file that lists one domain and nothing else is sound and loads: every setting has a default. */
  lemma OneDomainIsEnough(domain: string)
    ensures var c := map["domains" := List([Str(domain)])]; ConfigSound(c) && Loadable(Dict(c))
  {
    var c := map["domains" := List([Str(domain)])];
    assert "cors" !in c && "web" !in c && forall section :: section in SECTIONS ==> section !in c;
    LoadableIff(c);
  }

  lemma PutKeepsOrigins(c: Config, k: Key, v: Value)
    requires IsWellTyped(k, v) && Section(c, k.0).Some? && OriginsAreContainer(c)
    ensures OriginsAreContainer(Put(c, k, Normalized(k, v)))
  {
    PutLooksUp(c, k, Normalized(k, v), ("cors", "allow_origins"));
  }

  lemma {:induction false} EditsKeepOrigins(c: Config, changed: set<Key>, edits: seq<Edit>)
    requires ApplyEdits(c, changed, edits).Ok? && OriginsAreContainer(c)
    ensures OriginsAreContainer(ApplyEdits(c, changed, edits).config)
    decreases |edits|
  {
    if edits != [] {
      FirstEdit(c, changed, edits);
      var k, stored := edits[0].key, Normalized(edits[0].key, edits[0].value);
      PutKeepsOrigins(c, k, edits[0].value);
      EditsKeepOrigins(Put(c, k, stored), if PyEq(Get(c, k, Null), stored) then changed else changed + {k}, edits[1..]);
    }
  }

  lemma EditsKeepMappings(c: Config, edits: seq<Edit>)
    requires Apply(c, edits).Ok? && SectionsAreMappings(c)
    ensures SectionsAreMappings(Apply(c, edits).config)
  {
    forall section | section in SECTIONS ensures Section(Apply(c, edits).config, section).Some? {
      SectionsWritten(c, {}, edits, section);
    }
  }

  lemma DomainsAreNoSection(c: Config, domains: Value)
    requires SectionsAreMappings(c) && OriginsAreContainer(c)
    ensures SectionsAreMappings(c["domains" := domains]) && OriginsAreContainer(c["domains" := domains])
  {
    assert forall section :: section in SECTIONS ==> section != "domains";
  }

  lemma ProposedKeepsSections(c: Config, r: Request)
    requires SectionsAreMappings(c) && OriginsAreContainer(c) && Proposed(c, r).Some?
    ensures SectionsAreMappings(Proposed(c, r).value) && OriginsAreContainer(Proposed(c, r).value)
  {
    if r.UpdateConfig? {
      EditsKeepMappings(c, Edits(r.patch));
      EditsKeepOrigins(c, {}, Edits(r.patch));
    } else {
      DomainsAreNoSection(c, Proposed(c, r).value["domains"]);
    }
  }

  /** What a route proposes for a configuration that loads, loads as well. */
  lemma ProposedLoads(c: Config, r: Request)
    requires ConfigSound(c) && Loadable(Dict(c)) && Proposed(c, r).Some?
    ensures Loadable(Dict(Proposed(c, r).value))
  {
    var c' := Proposed(c, r).value;
    LoadableIff(c);
    assert DomainsSound(c') by {
      ProposedIsSound(c, r);
    }
    assert SectionsAreMappings(c') && OriginsAreContainer(c') by {
      ProposedKeepsSections(c, r);
    }
    LoadableIff(c');
  }

  /** A configuration that loads is kept, whatever the state of the live settings. */
  lemma CommitKeepsLoadable(y: Yaml, w: World, config: Value, w': World, kept: bool)
    requires ReadsBack(y, config) && Loadable(config) && w.fields.Keys <= AllFields() && (w', kept) == Commit(y, w, config)
    ensures kept && Parse(y, w'.files.main) == Some(config)
    ensures (w'.fields, true) == Reload(map[], Some(config)) && w'.fields.Keys <= AllFields()
  {
    ReloadForgetsThePast(map[], w.fields, Some(config));
  }

  /** The configuration in the file, in a sound world. */
  function FileConfig(y: Yaml, w: World): Config
    requires IsConfig(Parse(y, w.files.main))
  {
    Parse(y, w.files.main).value.entries
  }

  /** A sound world whose file holds `c`. */
  ghost predicate IsAt(y: Yaml, w: World, c: Config) { WorldSound(y, w) && FileConfig(y, w) == c }

  /** What the route is about to write, if anything, can be read back. */
  ghost predicate ProposalReadsBack(y: Yaml, c: Config, r: Request) {
    Proposed(c, r).Some? ==> ReadsBack(y, Dict(Proposed(c, r).value))
  }

  /** The configuration after a request that passes, or does not pass, the checks of its route. */
  function Evolved(c: Config, r: Request): Config {
    match Proposed(c, r)
    case None => c
    case Some(c') => c'
  }

  lemma LoadedFileIsSound(y: Yaml, w: World, c: Config)
    requires Parse(y, w.files.main) == Some(Dict(c)) && (w.fields, true) == Reload(map[], Some(Dict(c))) && ConfigSound(c)
    ensures IsAt(y, w, c)
  {
    assert w == World(w.files, Reload(map[], Some(Dict(c))).0);
    StartUpIsSound(y, w.files, c);
  }

  lemma CommittedIsSound(y: Yaml, w: World, c: Config, w': World, kept: bool)
    requires ReadsBack(y, Dict(c)) && Loadable(Dict(c)) && ConfigSound(c) && w.fields.Keys <= AllFields()
    requires (w', kept) == Commit(y, w, Dict(c))
    ensures kept && IsAt(y, w', c)
  {
    CommitKeepsLoadable(y, w, Dict(c), w', kept);
    LoadedFileIsSound(y, w', c);
  }

  /** A request changes nothing, or commits a sound configuration that loads. */
  lemma ServeCommitsSoundly(y: Yaml, w: World, r: Request) returns (c: Option<Config>)
    requires WorldSound(y, w)
    ensures c == Proposed(FileConfig(y, w), r)
    ensures c.None? ==> Serve(y, w, r) == (w, false)
    ensures c.Some? ==> Serve(y, w, r) == Commit(y, w, Dict(c.value)) && ConfigSound(c.value) && Loadable(Dict(c.value))
  {
    var current := FileConfig(y, w);
    assert Read(y, w.files) == Dict(current) && Loadable(Dict(current));
    c := Proposed(current, r);
    if c.Some? {
      ProposedLoads(current, r);
      ProposedIsSound(current, r);
    }
  }

  /**
   In a sound world every request that passes the checks of its route is kept, without a
   roll-back; every other changes nothing; and the world stays sound.
   */
  lemma AcceptedRequestIsKept(y: Yaml, w: World, c: Config, r: Request, w': World, kept: bool)
    requires IsAt(y, w, c) && ProposalReadsBack(y, c, r) && (w', kept) == Serve(y, w, r)
    ensures kept <==> Proposed(c, r).Some?
    ensures !kept ==> w' == w
    ensures IsAt(y, w', Evolved(c, r))
  {
    var proposed := ServeCommitsSoundly(y, w, r);
    if proposed.Some? {
      CommittedIsSound(y, w, proposed.value, w', kept);
    }
  }

  // --------------------------------------------------- what each route leaves in the file

  /** The domain list of a sound configuration. */
  function ListOf(c: Config): seq<Value>
    requires DomainsSound(c)
  {
    c["domains"].items
  }

  /** Top-level keys other than `domains` are those of before. */
  ghost predicate OnlyDomainsDiffer(c: Config, c': Config) {
    forall k :: k != "domains" ==> (k in c' <==> k in c) && (k in c ==> c'[k] == c[k])
  }

  /**
   POST /domains is kept iff the name, trimmed and in lower case, is a well-formed domain
   that is not listed yet among fewer than a hundred; the list then ends with it. Otherwise
   nothing changes.
   */
  lemma KeptDomainIsAppended(y: Yaml, w: World, c: Config, d: string, w': World, kept: bool)
    requires IsAt(y, w, c) && ProposalReadsBack(y, c, AddDomain(d)) && (w', kept) == Serve(y, w, AddDomain(d))
    ensures kept <==> IsDomain(ToLower(Strip(d))) && Str(ToLower(Strip(d))) !in ListOf(c) && |ListOf(c)| < 100
    ensures !kept ==> w' == w
    ensures kept ==> WorldSound(y, w') && var c' := FileConfig(y, w');
      ListOf(c') == ListOf(c) + [Str(ToLower(Strip(d)))] && OnlyDomainsDiffer(c, c')
  {
    AcceptedRequestIsKept(y, w, c, AddDomain(d), w', kept);
  }

  /** `s'` is `s` without its i-th entry, which is `v`. */
  ghost predicate LosesEntry(s: seq<Value>, s': seq<Value>, v: Value, i: nat) {
    i < |s| && s[i] == v && s' == s[..i] + s[i + 1..]
  }

  lemma {:induction false} WithoutIsCutOut(s: seq<Value>, d: Value) returns (i: nat)
    requires Distinct(s) && d in s
    ensures LosesEntry(s, Without(s, d), d, i)
  {
    if s[0] == d {
      i := 0;
      assert d !in s[1..] by {
        assert forall j :: 0 <= j < |s[1..]| ==> s[1..][j] == s[j + 1];
      }
      WithoutAbsent(s[1..], d);
    } else {
      assert d in s[1..];
      i := WithoutIsCutOut(s[1..], d);
      assert s[1..][..i] == s[1..i + 1] && [s[0]] + s[1..i + 1] == s[..i + 1];
      assert s[1..][i + 1..] == s[i + 2..];
      i := i + 1;
    }
  }

  lemma {:induction false} WithoutAbsent(s: seq<Value>, d: Value)
    requires d !in s
    ensures Without(s, d) == s
  {
    if s != [] {
      WithoutAbsent(s[1..], d);
    }
  }

  /**
   DELETE /domains/{domain} is kept iff the name is listed and not the only one; the list
   then lacks just that entry. Otherwise nothing changes.
   */
  lemma KeptRemovalCutsOneOut(y: Yaml, w: World, c: Config, d: string, w': World, kept: bool) returns (i: nat)
    requires IsAt(y, w, c) && ProposalReadsBack(y, c, RemoveDomain(d)) && (w', kept) == Serve(y, w, RemoveDomain(d))
    ensures kept <==> Str(ToLower(Strip(d))) in ListOf(c) && |ListOf(c)| > 1
    ensures !kept ==> w' == w
    ensures kept ==> WorldSound(y, w') && var c' := FileConfig(y, w');
      LosesEntry(ListOf(c), ListOf(c'), Str(ToLower(Strip(d))), i) && OnlyDomainsDiffer(c, c')
  {
    i := 0;
    AcceptedRequestIsKept(y, w, c, RemoveDomain(d), w', kept);
    if kept {
      i := WithoutIsCutOut(ListOf(c), Str(ToLower(Strip(d))));
    }
  }

  /** The value that the file holds for a key: the patch's, host names trimmed and in lower case, or the old one. */
  ghost predicate HoldsPatch(c: Config, c': Config, patch: Patch) {
    && (forall k, v :: Gives(patch, k, v) ==>
          Lookup(c', k) == Some(if k in {("server", "hostname"), ("web", "hostname")} && v.Str? then Str(ToLower(Strip(v.s))) else v))
    && forall k :: (forall v :: !Gives(patch, k, v)) ==> Lookup(c', k) == Lookup(c, k)
  }

  lemma PatchedConfigHolds(c: Config, patch: Patch)
    requires IsObject(patch) && Apply(c, Edits(patch)).Ok?
    ensures HoldsPatch(c, Apply(c, Edits(patch)).config, patch)
  {
    var c' := Apply(c, Edits(patch)).config;
    ObjectsSetKeysOnce(patch);
    AppliedEditsAreWellTyped(c, {}, Edits(patch));
    MisshapenEdits(patch);
    forall k, v | Gives(patch, k, v)
      ensures Lookup(c', k) == Some(if k in {("server", "hostname"), ("web", "hostname")} && v.Str? then Str(ToLower(Strip(v.s))) else v)
    {
      EditsAreThePatch(patch, k, v);
      WritesExactly(c, {}, Edits(patch), k);
      StoredValue(k, v);
    }
    forall k | forall v :: !Gives(patch, k, v) ensures Lookup(c', k) == Lookup(c, k) {
      forall v ensures Set(k, v) !in Edits(patch) {
        EditsAreThePatch(patch, k, v);
      }
      WritesExactly(c, {}, Edits(patch), k);
    }
  }

  /** Each key may be patched, has a value of the right kind and fits, and the panel stays reachable. */
  ghost predicate PatchFits(c: Config, edits: seq<Edit>) {
    && (forall i :: 0 <= i < |edits| ==> IsEditable(c, edits[i]) && BoundFits(c, edits[..i], edits[i]))
    && Section(c, "web").Some? && PanelStaysReachable(c, edits)
  }

  lemma ProposedPatch(c: Config, patch: Patch)
    requires IsObject(patch)
    ensures Proposed(c, UpdateConfig(patch)).Some? <==> PatchFits(c, Edits(patch))
    ensures HoldsPatch(c, Evolved(c, UpdateConfig(patch)), patch) || !PatchFits(c, Edits(patch))
  {
    ObjectsSetKeysOnce(patch);
    PatchSucceedsIff(c, Edits(patch));
    if Apply(c, Edits(patch)).Ok? {
      PatchedConfigHolds(c, patch);
    }
  }

  /**
   PUT /config is kept iff the patch fits; the file then holds the patch over the old
   configuration. Otherwise nothing changes.
   */
  lemma KeptPatchIsInTheFile(y: Yaml, w: World, c: Config, patch: Patch, w': World, kept: bool)
    requires IsAt(y, w, c) && IsObject(patch) && ProposalReadsBack(y, c, UpdateConfig(patch))
    requires (w', kept) == Serve(y, w, UpdateConfig(patch))
    ensures kept <==> PatchFits(c, Edits(patch))
    ensures !kept ==> w' == w
    ensures kept ==> WorldSound(y, w') && HoldsPatch(c, FileConfig(y, w'), patch)
  {
    AcceptedRequestIsKept(y, w, c, UpdateConfig(patch), w', kept);
    ProposedPatch(c, patch);
  }

  // ------------------------------------------------------------------- whole runs

  /** What a list of requests makes of a configuration. */
  function Evolution(c: Config, requests: seq<Request>): Config {
    if requests == [] then c
    else Evolved(Evolution(c, requests[..|requests| - 1]), requests[|requests| - 1])
  }

  /** Every configuration that is written on the way can be read back. */
  ghost predicate WritesReadBack(y: Yaml, c: Config, requests: seq<Request>) {
    forall i :: 0 <= i < |requests| ==> ProposalReadsBack(y, Evolution(c, requests[..i]), requests[i])
  }

  /** The worlds between the requests of a run. */
  ghost predicate IsRun(y: Yaml, worlds: seq<World>, requests: seq<Request>) {
    && |worlds| == |requests| + 1
    && forall i :: 0 <= i < |requests| ==> worlds[i + 1] == Serve(y, worlds[i], requests[i]).0
  }

  lemma EvolutionNext(c: Config, requests: seq<Request>, i: nat)
    requires i < |requests|
    ensures Evolution(c, requests[..i + 1]) == Evolved(Evolution(c, requests[..i]), requests[i])
  {
    assert requests[..i + 1][..i] == requests[..i];
  }

  lemma OneMoreRequest(y: Yaml, here: Config, before: World, r: Request, next: Config, w: World)
    requires ProposalReadsBack(y, here, r) && IsAt(y, before, here) && w == Serve(y, before, r).0 && next == Evolved(here, r)
    ensures IsAt(y, w, next)
  {
    AcceptedRequestIsKept(y, before, here, r, w, Serve(y, before, r).1);
  }

  /**
   At every point of every run of the three routes the file holds 1 to 100 distinct
   domains, panel access is not restricted without a panel host name, the live settings
   are those of the file, and the file is what the accepted requests make of it.
   */
  lemma {:induction false} RunStaysSound(y: Yaml, c: Config, worlds: seq<World>, requests: seq<Request>, i: nat)
    requires IsRun(y, worlds, requests) && WritesReadBack(y, c, requests) && IsAt(y, worlds[0], c) && i <= |requests|
    ensures IsAt(y, worlds[i], Evolution(c, requests[..i]))
    decreases i
  {
    if i > 0 {
      RunStaysSound(y, c, worlds, requests, i - 1);
      EvolutionNext(c, requests, i - 1);
      OneMoreRequest(y, Evolution(c, requests[..i - 1]), worlds[i - 1], requests[i - 1], Evolution(c, requests[..i]), worlds[i]);
    }
  }

  function IndexOf(values: seq<Value>, v: Value): (i: nat)
    requires v in values
    ensures i < |values| && values[i] == v
  {
    if values[0] == v then 0 else 1 + IndexOf(values[1..], v)
  }

  function Unary(n: nat): string { seq(n, _ => 'x') }

  /** A text format for finitely many values: the i-th one is written as i letters. */
  function TallyYaml(values: seq<Value>): Yaml {
    Yaml(
      text => if |text| < |values| && text == Unary(|text|) then Some(values[|text|]) else None,
      v => if v in values then Unary(IndexOf(values, v)) else "?")
  }

  lemma TallyReadsBack(values: seq<Value>, v: Value)
    requires v in values
    ensures ReadsBack(TallyYaml(values), v)
  {
    assert |Unary(IndexOf(values, v))| == IndexOf(values, v);
  }

  /** The configurations that a list of requests goes through. */
  function History(c: Config, requests: seq<Request>): seq<Value> {
    seq(|requests| + 1, i requires 0 <= i <= |requests| => Dict(Evolution(c, requests[..i])))
  }

  lemma HistoryReadsBack(c: Config, requests: seq<Request>)
    ensures ReadsBack(TallyYaml(History(c, requests)), Dict(c)) && WritesReadBack(TallyYaml(History(c, requests)), c, requests)
  {
    var values := History(c, requests);
    assert values[0] == Dict(c);
    TallyReadsBack(values, Dict(c));
    forall i | 0 <= i < |requests| ensures ProposalReadsBack(TallyYaml(values), Evolution(c, requests[..i]), requests[i]) {
      assert requests[..i + 1][..i] == requests[..i];
      assert values[i + 1] == Dict(Evolved(Evolution(c, requests[..i]), requests[i]));
      TallyReadsBack(values, values[i + 1]);
    }
  }

  /** Every list of requests to a sound configuration that loads has such a run. */
  lemma EveryHistoryHasARun(c: Config, requests: seq<Request>) returns (y: Yaml, start: World)
    requires ConfigSound(c) && Loadable(Dict(c))
    ensures IsAt(y, start, c) && WritesReadBack(y, c, requests)
  {
    y := TallyYaml(History(c, requests));
    HistoryReadsBack(c, requests);
    var f := Files(Some(y.dump(Dict(c))), None);
    StartUpIsSound(y, f, c);
    start := World(f, Reload(map[], Some(Dict(c))).0);
  }

  /** In every such world the API serves exactly the domains that the file lists. */
  lemma ServedDomainsAreListed(y: Yaml, w: World)
    requires WorldSound(y, w)
    ensures "DOMAINS" in w.fields && w.fields["DOMAINS"] == List(Domains(FileConfig(y, w)))
  {
    DomainsFollowTheFile(map[], FileConfig(y, w));
  }

  /** And its other settings are those of the file, or their defaults. */
  lemma LiveSettingsFollowTheFile(y: Yaml, w: World)
    requires WorldSound(y, w)
    ensures SettingsHold(w.fields, FileConfig(y, w))
  {
    AppliedSettings(map[], FileConfig(y, w), w.fields);
  }

  /** Adding a fresh domain and removing it again restores the list. */
  lemma RemoveUndoesAdd(c: Config, d: string)
    requires DomainsSound(c) && Proposed(c, AddDomain(d)).Some?
    ensures Proposed(Proposed(c, AddDomain(d)).value, RemoveDomain(d)) == Some(c)
  {
    var domain := Str(ToLower(Strip(d)));
    var added := Domains(c) + [domain];
    WithoutFresh(Domains(c), domain);
    var c' := c["domains" := List(added)];
    assert Domains(c') == added && domain in added;
    assert c'["domains" := c["domains"]] == c;
  }

  lemma {:induction false} WithoutFresh(s: seq<Value>, d: Value)
    requires d !in s
    ensures Without(s + [d], d) == s
  {
    if s == [] {
      assert s + [d] == [d] && [d][1..] == [];
    } else {
      assert (s + [d])[0] == s[0] && (s + [d])[1..] == s[1..] + [d];
      WithoutFresh(s[1..], d);
    }
  }
}
