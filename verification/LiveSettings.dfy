/**
 The live settings object (Config._apply and reload_settings in api/app/config.py). Python
 keeps an object's fields in a dictionary; _apply assigns them one by one and stops where
 an assignment raises, leaving the earlier ones in place.
 */
module LiveSettings {
  import opened Wrappers
  import opened ConfigValues
  import opened ConfigPatch

  type Fields = map<string, Value>

  /** self.field = config.get(section, {}).get(key, default) */
  datatype Assignment = Assignment(field: string, section: string, key: string, default: Value)

  const WILDCARD := List([Str("*")])

  const RESERVED := List([
    Str("admin"), Str("postmaster"), Str("abuse"), Str("noreply"), Str("no-reply"), Str("root"), Str("webmaster"),
    Str("hostmaster"), Str("mailer-daemon"), Str("info"), Str("support"), Str("security"), Str("sales"), Str("contact")])

  /** The assignments up to the CORS check, in source order; DOMAINS is a key of the top level. */
  const BEFORE_CORS_CHECK: seq<Assignment> := [
    Assignment("ADMIN_TOKEN", "admin", "token", Str("")),
    Assignment("SETUP_INITIALIZED", "setup", "initialized", Bool(false)),
    Assignment("DATABASE_URL", "database", "url", Str("")),
    Assignment("DB_POOL_SIZE", "database", "pool_size", Int(10)),
    Assignment("DB_MAX_OVERFLOW", "database", "max_overflow", Int(20)),
    Assignment("API_HOST", "server", "api_host", Str("127.0.0.1")),
    Assignment("API_PORT", "server", "api_port", Int(8000)),
    Assignment("MX_PORT", "server", "mx_port", Int(25)),
    Assignment("MAX_MESSAGE_SIZE_MB", "server", "max_message_size_mb", Int(10)),
    Assignment("HOSTNAME", "server", "hostname", Str("mail.tempmail.local")),
    Assignment("DOCS_ENABLED", "server", "docs_enabled", Bool(true)),
    Assignment("ADDRESS_LIFETIME_HOURS", "tempmail", "address_lifetime_hours", Int(24)),
    Assignment("MAX_EMAILS_PER_ADDRESS", "tempmail", "max_emails_per_address", Int(100)),
    Assignment("CLEANUP_INTERVAL_HOURS", "tempmail", "cleanup_interval_hours", Int(1)),
    Assignment("ADDRESS_FORMAT", "tempmail", "address_format", Str("random")),
    Assignment("ALLOW_CUSTOM_USERNAMES", "tempmail", "allow_custom_usernames", Bool(true)),
    Assignment("MIN_USERNAME_LENGTH", "tempmail", "min_username_length", Int(3)),
    Assignment("MAX_USERNAME_LENGTH", "tempmail", "max_username_length", Int(64)),
    Assignment("MAX_STORAGE_MB", "tempmail", "max_storage_mb", Int(1024)),
    Assignment("RESERVED_USERNAMES", "tempmail", "reserved_usernames", RESERVED),
    Assignment("CHECK_DKIM", "validation", "check_dkim", Bool(true)),
    Assignment("CHECK_SPF", "validation", "check_spf", Bool(true)),
    Assignment("CHECK_DMARC", "validation", "check_dmarc", Bool(true)),
    Assignment("STORE_VALIDATION_RESULTS", "validation", "store_results", Bool(true)),
    Assignment("TLS_ENABLED", "tls", "enabled", Bool(false)),
    Assignment("TLS_CERT_FILE", "tls", "cert_file", Str("/config/certs/cert.pem")),
    Assignment("TLS_KEY_FILE", "tls", "key_file", Str("/config/certs/key.pem")),
    Assignment("WEB_HOSTNAME", "web", "hostname", Str("")),
    Assignment("WEB_ALLOW_IP_ACCESS", "web", "allow_ip_access", Bool(true)),
    Assignment("INTEGRATION_API_KEY", "integration", "api_key", Str("")),
    Assignment("PERMANENT_EMAIL_RETENTION_DAYS", "tempmail", "permanent_email_retention_days", Int(30)),
    Assignment("MAX_PERMANENT_ADDRESSES", "tempmail", "max_permanent_addresses", Int(0)),
    Assignment("LOG_LEVEL", "logging", "level", Str("info")),
    Assignment("LOG_FORMAT", "logging", "format", Str("json")),
    Assignment("CORS_ALLOW_ORIGINS", "cors", "allow_origins", List([])),
    Assignment("CORS_ALLOW_CREDENTIALS", "cors", "allow_credentials", Bool(false)),
    Assignment("CORS_ALLOW_METHODS", "cors", "allow_methods", WILDCARD),
    Assignment("CORS_ALLOW_HEADERS", "cors", "allow_headers", WILDCARD)]

  const AFTER_CORS_CHECK: seq<Assignment> := [
    Assignment("SETUP_KEY", "setup", "key", Str("")),
    Assignment("RL_ADDRESS_CREATE", "rate_limits", "address_create_per_minute", Int(50)),
    Assignment("RL_PERMANENT_CREATE", "rate_limits", "permanent_create_per_minute", Int(20)),
    Assignment("RL_API_CREATE", "rate_limits", "api_create_per_minute", Int(0)),
    Assignment("RL_SETUP", "rate_limits", "setup_per_minute", Int(5)),
    Assignment("RL_ADMIN", "rate_limits", "admin_per_minute", Int(120)),
    Assignment("RL_EMAIL_READ", "rate_limits", "email_read_per_minute", Int(300))]

  function Names(table: seq<Assignment>): set<string> {
    set i | 0 <= i < |table| :: table[i].field
  }

  function FieldsOf(before: seq<Assignment>, after: seq<Assignment>): set<string> {
    {"DOMAINS"} + Names(before) + Names(after)
  }

  function AllFields(): set<string> { FieldsOf(BEFORE_CORS_CHECK, AFTER_CORS_CHECK) }

  // ----------------------------------------------------------------------- _apply

  /** The fields after running a table, and whether it ran to the end. */
  function RunTable(f: Fields, c: Config, table: seq<Assignment>): (Fields, bool)
    decreases |table|
  {
    if table == [] then (f, true)
    else
      var a := table[0];
      if Section(c, a.section).None? then (f, false)
      else RunTable(f[a.field := Get(c, (a.section, a.key), a.default)], c, table[1..])
  }

  /** '*' in origins; None when the value is not a container. */
  function HasWildcard(origins: Value): Option<bool> {
    match origins
    case List(items) => Some(Str("*") in items)
    case Str(s) => Some('*' in s)
    case Dict(entries) => Some("*" in entries)
    case _ => None
  }

  /** Never ships a wildcard origin together with credentials. */
  function CheckCors(f: Fields): (Fields, bool) {
    if "CORS_ALLOW_ORIGINS" !in f || "CORS_ALLOW_CREDENTIALS" !in f then (f, false)
    else match HasWildcard(f["CORS_ALLOW_ORIGINS"])
      case None => (f, false)
      case Some(wildcard) =>
        if wildcard && Truthy(f["CORS_ALLOW_CREDENTIALS"]) then (f["CORS_ALLOW_CREDENTIALS" := Bool(false)], true) else (f, true)
  }

  function RunAll(f: Fields, c: Config, before: seq<Assignment>, after: seq<Assignment>): (Fields, bool) {
    var domains := if "domains" in c then c["domains"] else List([]);
    var (f1, ok1) := RunTable(f["DOMAINS" := domains], c, before);
    if !ok1 then (f1, false)
    else
      var (f2, ok2) := CheckCors(f1);
      if !ok2 then (f2, false) else RunTable(f2, c, after)
  }

  function ApplyConfig(f: Fields, c: Config): (Fields, bool) {
    RunAll(f, c, BEFORE_CORS_CHECK, AFTER_CORS_CHECK)
  }

  /** What reload_settings accepts of a parsed file: a mapping with a non-empty domain list. */
  function Acceptable(parsed: Option<Value>): Option<Config> {
    if parsed.None? then None
    else
      var config := if Truthy(parsed.value) then parsed.value else Dict(map[]);
      if !config.Dict? || "domains" !in config.entries || !Truthy(config.entries["domains"]) then None
      else Some(config.entries)
  }

  /** reload_settings on the parsed file: None is a YAML error or an unreadable file. */
  function Reload(f: Fields, parsed: Option<Value>): (Fields, bool) {
    if Acceptable(parsed).None? then (f, false) else ApplyConfig(f, Acceptable(parsed).value)
  }

  /** The settings singleton. */
  class Settings {
    var fields: map<string, Value>

    constructor ()
      ensures fields == map[]
    {
      fields := map[];
    }

    method RunAssignments(c: Config, table: seq<Assignment>) returns (ok: bool)
      modifies this
      ensures (fields, ok) == RunTable(old(fields), c, table)
    {
      var i := 0;
      assert table[0..] == table;
      while i < |table|
        invariant 0 <= i <= |table|
        invariant RunTable(fields, c, table[i..]) == RunTable(old(fields), c, table)
      {
        var a := table[i];
        assert table[i..][1..] == table[i + 1..];
        if Section(c, a.section).None? {
          return false;
        }
        fields := fields[a.field := Get(c, (a.section, a.key), a.default)];
        i := i + 1;
      }
      return true;
    }

    method Apply(c: Config) returns (ok: bool)
      modifies this
      ensures (fields, ok) == ApplyConfig(old(fields), c)
      ensures ok ==> SettingsHold(fields, c)
    {
      ghost var before := fields;
      fields := fields["DOMAINS" := if "domains" in c then c["domains"] else List([])];
      ok := RunAssignments(c, BEFORE_CORS_CHECK);
      if !ok {
        return;
      }
      var checked := CheckCors(fields);
      fields := checked.0;
      if !checked.1 {
        return false;
      }
      ok := RunAssignments(c, AFTER_CORS_CHECK);
      if ok {
        AppliedSettings(before, c, fields);
      }
    }

    method ReloadSettings(parsed: Option<Value>) returns (ok: bool)
      modifies this
      ensures (fields, ok) == Reload(old(fields), parsed)
    {
      if parsed.None? {
        return false;
      }
      var config := if Truthy(parsed.value) then parsed.value else Dict(map[]);
      if !config.Dict? || "domains" !in config.entries || !Truthy(config.entries["domains"]) {
        return false;
      }
      ok := Apply(config.entries);
    }
  }

  // --------------------------------------------------- nothing stale survives _apply

  ghost predicate AgreeOn(f: Fields, g: Fields, names: set<string>) {
    names <= f.Keys && names <= g.Keys && forall n :: n in names ==> f[n] == g[n]
  }

  lemma {:induction false} TableForgetsThePast(f: Fields, g: Fields, c: Config, table: seq<Assignment>, done: set<string>)
    requires AgreeOn(f, g, done)
    ensures var (f', ok), (g', ok') := RunTable(f, c, table), RunTable(g, c, table);
      && ok == ok' && (ok ==> AgreeOn(f', g', done + Names(table)))
      && f'.Keys <= f.Keys + Names(table) && g'.Keys <= g.Keys + Names(table)
    decreases |table|
  {
    if table == [] {
      assert done + Names(table) == done;
    } else {
      var a := table[0];
      assert a.field in Names(table) && Names(table) == {a.field} + Names(table[1..]) by {
        assert forall i :: 1 <= i < |table| ==> table[i] == table[1..][i - 1];
      }
      if Section(c, a.section).Some? {
        var v := Get(c, (a.section, a.key), a.default);
        TableForgetsThePast(f[a.field := v], g[a.field := v], c, table[1..], done + {a.field});
        assert done + {a.field} + Names(table[1..]) == done + Names(table);
      }
    }
  }

  ghost predicate AssignsCors(table: seq<Assignment>) {
    "CORS_ALLOW_ORIGINS" in Names(table) && "CORS_ALLOW_CREDENTIALS" in Names(table)
  }

  lemma CorsFieldsAssignedBeforeTheCheckOnly()
    ensures AssignsCors(BEFORE_CORS_CHECK)
    ensures "CORS_ALLOW_ORIGINS" !in Names(AFTER_CORS_CHECK) && "CORS_ALLOW_CREDENTIALS" !in Names(AFTER_CORS_CHECK)
  {
    assert BEFORE_CORS_CHECK[34].field == "CORS_ALLOW_ORIGINS";
    assert BEFORE_CORS_CHECK[35].field == "CORS_ALLOW_CREDENTIALS";
    assert forall i :: 0 <= i < |AFTER_CORS_CHECK| ==> AFTER_CORS_CHECK[i].field[0] != 'C';
  }

  lemma CheckForgetsThePast(f: Fields, g: Fields, done: set<string>)
    requires AgreeOn(f, g, done) && "CORS_ALLOW_ORIGINS" in done && "CORS_ALLOW_CREDENTIALS" in done
    ensures var (f', ok), (g', ok') := CheckCors(f), CheckCors(g);
      ok == ok' && AgreeOn(f', g', done) && f'.Keys == f.Keys && g'.Keys == g.Keys
  {
  }

  /** Both attempts fail, or both succeed with the same fields. */
  ghost predicate SameOutcome(r: (Fields, bool), r': (Fields, bool), names: set<string>) {
    r.1 == r'.1 && (r.1 ==> r.0 == r'.0) && r.0.Keys <= names && r'.0.Keys <= names
  }

  lemma RunAllAgrees(f: Fields, g: Fields, c: Config, before: seq<Assignment>, after: seq<Assignment>)
    requires AssignsCors(before) && f.Keys <= FieldsOf(before, after) && g.Keys <= FieldsOf(before, after)
    ensures var (f', ok), (g', ok') := RunAll(f, c, before, after), RunAll(g, c, before, after);
      && ok == ok' && (ok ==> AgreeOn(f', g', FieldsOf(before, after)))
      && f'.Keys <= FieldsOf(before, after) && g'.Keys <= FieldsOf(before, after)
  {
    var domains := if "domains" in c then c["domains"] else List([]);
    var f0, g0 := f["DOMAINS" := domains], g["DOMAINS" := domains];
    TableForgetsThePast(f0, g0, c, before, {"DOMAINS"});
    var (f1, ok1) := RunTable(f0, c, before);
    var (g1, ok1') := RunTable(g0, c, before);
    assert f1.Keys <= FieldsOf(before, after) && g1.Keys <= FieldsOf(before, after);
    if ok1 {
      var done := {"DOMAINS"} + Names(before);
      CheckForgetsThePast(f1, g1, done);
      TableForgetsThePast(CheckCors(f1).0, CheckCors(g1).0, c, after, done);
    }
  }

  lemma RunAllForgetsThePast(f: Fields, g: Fields, c: Config, before: seq<Assignment>, after: seq<Assignment>)
    requires AssignsCors(before) && f.Keys <= FieldsOf(before, after) && g.Keys <= FieldsOf(before, after)
    ensures SameOutcome(RunAll(f, c, before, after), RunAll(g, c, before, after), FieldsOf(before, after))
  {
    RunAllAgrees(f, g, c, before, after);
    FullAgreement(RunAll(f, c, before, after), RunAll(g, c, before, after), FieldsOf(before, after));
  }

  lemma FullAgreement(r: (Fields, bool), r': (Fields, bool), names: set<string>)
    requires r.1 == r'.1 && (r.1 ==> AgreeOn(r.0, r'.0, names)) && r.0.Keys <= names && r'.0.Keys <= names
    ensures SameOutcome(r, r', names)
  {
  }

  /**
   Whether _apply succeeds, and the settings it then produces, depend on the configuration
   alone: whatever an earlier, interrupted _apply left behind is overwritten.
   */
  lemma ApplyForgetsThePast(f: Fields, g: Fields, c: Config)
    requires f.Keys <= AllFields() && g.Keys <= AllFields()
    ensures SameOutcome(ApplyConfig(f, c), ApplyConfig(g, c), AllFields())
  {
    CorsFieldsAssignedBeforeTheCheckOnly();
    RunAllForgetsThePast(f, g, c, BEFORE_CORS_CHECK, AFTER_CORS_CHECK);
  }

  lemma ReloadForgetsThePast(f: Fields, g: Fields, parsed: Option<Value>)
    requires f.Keys <= AllFields() && g.Keys <= AllFields()
    ensures SameOutcome(Reload(f, parsed), Reload(g, parsed), AllFields())
  {
    if Acceptable(parsed).Some? {
      ApplyForgetsThePast(f, g, Acceptable(parsed).value);
    }
  }

  lemma {:induction false} TableKeepsOthers(f: Fields, c: Config, table: seq<Assignment>, name: string)
    requires name !in Names(table)
    ensures var f' := RunTable(f, c, table).0; (name in f' <==> name in f) && (name in f ==> f'[name] == f[name])
    decreases |table|
  {
    if table != [] {
      var a := table[0];
      assert a.field in Names(table);
      assert forall i :: 1 <= i < |table| ==> table[i] == table[1..][i - 1] && table[i].field in Names(table);
      if Section(c, a.section).Some? {
        TableKeepsOthers(f[a.field := Get(c, (a.section, a.key), a.default)], c, table[1..], name);
      }
    }
  }

  ghost predicate WildcardWithCredentials(f: Fields) {
    && "CORS_ALLOW_ORIGINS" in f && "CORS_ALLOW_CREDENTIALS" in f
    && HasWildcard(f["CORS_ALLOW_ORIGINS"]) == Some(true) && Truthy(f["CORS_ALLOW_CREDENTIALS"])
  }

  lemma CheckRefusesWildcardWithCredentials(f: Fields)
    requires CheckCors(f).1
    ensures !WildcardWithCredentials(CheckCors(f).0)
  {
    assert "CORS_ALLOW_ORIGINS" != "CORS_ALLOW_CREDENTIALS";
  }

  lemma RunAllIsSafe(f: Fields, c: Config, before: seq<Assignment>, after: seq<Assignment>)
    requires RunAll(f, c, before, after).1
    requires "CORS_ALLOW_ORIGINS" !in Names(after) && "CORS_ALLOW_CREDENTIALS" !in Names(after)
    ensures !WildcardWithCredentials(RunAll(f, c, before, after).0)
  {
    var f1 := RunTable(f["DOMAINS" := if "domains" in c then c["domains"] else List([])], c, before).0;
    CheckRefusesWildcardWithCredentials(f1);
    TableKeepsOthers(CheckCors(f1).0, c, after, "CORS_ALLOW_ORIGINS");
    TableKeepsOthers(CheckCors(f1).0, c, after, "CORS_ALLOW_CREDENTIALS");
  }

  /** A loaded configuration never pairs a wildcard origin with credentials. */
  lemma WildcardNeverWithCredentials(f: Fields, c: Config)
    requires ApplyConfig(f, c).1
    ensures !WildcardWithCredentials(ApplyConfig(f, c).0)
  {
    CorsFieldsAssignedBeforeTheCheckOnly();
    RunAllIsSafe(f, c, BEFORE_CORS_CHECK, AFTER_CORS_CHECK);
  }

  lemma NoAssignmentNamesDomains()
    ensures "DOMAINS" !in Names(BEFORE_CORS_CHECK) && "DOMAINS" !in Names(AFTER_CORS_CHECK)
  {
    assert forall i :: 0 <= i < |BEFORE_CORS_CHECK| ==> |BEFORE_CORS_CHECK[i].field| != 7 || BEFORE_CORS_CHECK[i].field[0] != 'D';
    assert forall i :: 0 <= i < |AFTER_CORS_CHECK| ==> AFTER_CORS_CHECK[i].field[0] != 'D';
  }

  lemma RunAllKeepsDomains(f: Fields, c: Config, before: seq<Assignment>, after: seq<Assignment>)
    requires RunAll(f, c, before, after).1 && "DOMAINS" !in Names(before) && "DOMAINS" !in Names(after)
    ensures var f' := RunAll(f, c, before, after).0;
            "DOMAINS" in f' && f'["DOMAINS"] == if "domains" in c then c["domains"] else List([])
  {
    var f0 := f["DOMAINS" := if "domains" in c then c["domains"] else List([])];
    var f1 := RunTable(f0, c, before).0;
    TableKeepsOthers(f0, c, before, "DOMAINS");
    TableKeepsOthers(CheckCors(f1).0, c, after, "DOMAINS");
  }

  /** The domains the API serves are those of the configuration it applied last. */
  lemma DomainsFollowTheFile(f: Fields, c: Config)
    requires ApplyConfig(f, c).1
    ensures var f' := ApplyConfig(f, c).0;
            "DOMAINS" in f' && f'["DOMAINS"] == if "domains" in c then c["domains"] else List([])
  {
    NoAssignmentNamesDomains();
    RunAllKeepsDomains(f, c, BEFORE_CORS_CHECK, AFTER_CORS_CHECK);
  }

  // ------------------------------------------------------------ what loads at all

  lemma {:induction false} TableRunsIff(f: Fields, c: Config, table: seq<Assignment>)
    ensures RunTable(f, c, table).1 <==> forall a :: a in table ==> Section(c, a.section).Some?
    decreases |table|
  {
    if table != [] {
      var a := table[0];
      assert table == [a] + table[1..];
      if Section(c, a.section).Some? {
        TableRunsIff(f[a.field := Get(c, (a.section, a.key), a.default)], c, table[1..]);
      }
    }
  }

  /** An assignment whose field is not assigned again leaves the file's value, or the default. */
  lemma {:induction false} TableAssigns(f: Fields, c: Config, table: seq<Assignment>, i: nat)
    requires RunTable(f, c, table).1 && i < |table| && table[i].field !in Names(table[i + 1..])
    ensures var (f', a) := (RunTable(f, c, table).0, table[i]);
            a.field in f' && f'[a.field] == Get(c, (a.section, a.key), a.default)
    decreases |table|
  {
    var a := table[0];
    var f1 := f[a.field := Get(c, (a.section, a.key), a.default)];
    if i == 0 {
      TableKeepsOthers(f1, c, table[1..], a.field);
    } else {
      assert table[1..][i - 1 + 1..] == table[i + 1..];
      TableAssigns(f1, c, table[1..], i - 1);
    }
  }

  const SECTIONS: set<string> := {
    "admin", "setup", "database", "server", "tempmail", "validation", "tls", "web", "integration", "logging", "cors",
    "rate_limits"}

  /** Every section that _apply reads is a mapping or absent. */
  ghost predicate SectionsAreMappings(c: Config) {
    forall section :: section in SECTIONS ==> Section(c, section).Some?
  }

  ghost predicate Within(table: seq<Assignment>, sections: set<string>) {
    forall i :: 0 <= i < |table| ==> table[i].section in sections
  }

  ghost predicate Reads(table: seq<Assignment>, section: string) {
    exists i :: 0 <= i < |table| && table[i].section == section
  }

  ghost predicate ReadSomewhere(before: seq<Assignment>, after: seq<Assignment>, sections: set<string>) {
    forall section :: section in sections ==> Reads(before, section) || Reads(after, section)
  }

  lemma FirstTableWithin()
    ensures Within(BEFORE_CORS_CHECK, SECTIONS)
  {
  }

  lemma SecondTableWithin()
    ensures Within(AFTER_CORS_CHECK, SECTIONS)
  {
  }

  lemma EarlySectionsAreRead()
    ensures Reads(BEFORE_CORS_CHECK, "admin")
    ensures Reads(BEFORE_CORS_CHECK, "setup")
    ensures Reads(BEFORE_CORS_CHECK, "database")
    ensures Reads(BEFORE_CORS_CHECK, "server")
    ensures Reads(BEFORE_CORS_CHECK, "tempmail")
    ensures Reads(BEFORE_CORS_CHECK, "validation")
  {
    assert BEFORE_CORS_CHECK[0].section == "admin";
    assert BEFORE_CORS_CHECK[1].section == "setup";
    assert BEFORE_CORS_CHECK[2].section == "database";
    assert BEFORE_CORS_CHECK[5].section == "server";
    assert BEFORE_CORS_CHECK[11].section == "tempmail";
    assert BEFORE_CORS_CHECK[20].section == "validation";
  }

  lemma LateSectionsAreRead()
    ensures Reads(BEFORE_CORS_CHECK, "tls")
    ensures Reads(BEFORE_CORS_CHECK, "web")
    ensures Reads(BEFORE_CORS_CHECK, "integration")
    ensures Reads(BEFORE_CORS_CHECK, "logging")
    ensures Reads(BEFORE_CORS_CHECK, "cors")
    ensures Reads(AFTER_CORS_CHECK, "rate_limits")
  {
    assert BEFORE_CORS_CHECK[24].section == "tls";
    assert BEFORE_CORS_CHECK[27].section == "web";
    assert BEFORE_CORS_CHECK[29].section == "integration";
    assert BEFORE_CORS_CHECK[32].section == "logging";
    assert BEFORE_CORS_CHECK[34].section == "cors";
    assert AFTER_CORS_CHECK[1].section == "rate_limits";
  }

  lemma TheseAreAllSections(before: seq<Assignment>, after: seq<Assignment>)
    requires Reads(before, "admin") && Reads(before, "setup") && Reads(before, "database") && Reads(before, "server")
    requires Reads(before, "tempmail") && Reads(before, "validation") && Reads(before, "tls") && Reads(before, "web")
    requires Reads(before, "integration") && Reads(before, "logging") && Reads(before, "cors")
    requires Reads(after, "rate_limits")
    ensures ReadSomewhere(before, after, SECTIONS)
  {
  }

  lemma EverySectionIsRead()
    ensures ReadSomewhere(BEFORE_CORS_CHECK, AFTER_CORS_CHECK, SECTIONS)
  {
    EarlySectionsAreRead();
    LateSectionsAreRead();
    TheseAreAllSections(BEFORE_CORS_CHECK, AFTER_CORS_CHECK);
  }

  lemma TablesRunIff(f: Fields, g: Fields, c: Config, before: seq<Assignment>, after: seq<Assignment>, sections: set<string>)
    requires Within(before, sections) && Within(after, sections) && ReadSomewhere(before, after, sections)
    ensures RunTable(f, c, before).1 && RunTable(g, c, after).1 <==>
            forall section :: section in sections ==> Section(c, section).Some?
  {
    TableRunsIff(f, c, before);
    TableRunsIff(g, c, after);
    if RunTable(f, c, before).1 && RunTable(g, c, after).1 {
      forall section | section in sections ensures Section(c, section).Some? {
        if i :| 0 <= i < |before| && before[i].section == section {
          assert before[i] in before;
        } else {
          var i :| 0 <= i < |after| && after[i].section == section;
          assert after[i] in after;
        }
      }
    }
  }

  const ORIGINS: Assignment := Assignment("CORS_ALLOW_ORIGINS", "cors", "allow_origins", List([]))

  /** The first table assigns the origins, and then the credentials flag, once each. */
  ghost predicate AssignsOriginsAt(table: seq<Assignment>, i: nat) {
    && i < |table| && table[i] == ORIGINS && "CORS_ALLOW_ORIGINS" !in Names(table[i + 1..])
    && "CORS_ALLOW_CREDENTIALS" in Names(table[i + 1..])
  }

  lemma OriginsAreAssignedOnce()
    ensures AssignsOriginsAt(BEFORE_CORS_CHECK, 34)
  {
    var later := BEFORE_CORS_CHECK[35..];
    assert |later| == 3 && later[0].field == "CORS_ALLOW_CREDENTIALS";
    assert later[1].field == "CORS_ALLOW_METHODS" && later[2].field == "CORS_ALLOW_HEADERS";
  }

  lemma {:induction false} TableAssignsItsNames(f: Fields, c: Config, table: seq<Assignment>)
    requires RunTable(f, c, table).1
    ensures RunTable(f, c, table).0.Keys == f.Keys + Names(table)
    decreases |table|
  {
    if table == [] {
      assert f.Keys + Names(table) == f.Keys;
    } else {
      var a := table[0];
      TableAssignsItsNames(f[a.field := Get(c, (a.section, a.key), a.default)], c, table[1..]);
      assert Names(table) == {a.field} + Names(table[1..]) by {
        assert forall i :: 1 <= i < |table| ==> table[i] == table[1..][i - 1];
      }
    }
  }

  /** What the `in` of Python accepts on its right. */
  predicate IsContainer(v: Value) { v.List? || v.Str? || v.Dict? }

  lemma CheckPassesIff(f: Fields, c: Config, before: seq<Assignment>, i: nat)
    requires RunTable(f, c, before).1 && AssignsOriginsAt(before, i)
    ensures CheckCors(RunTable(f, c, before).0).1 <==> IsContainer(Get(c, ("cors", "allow_origins"), List([])))
  {
    TableAssigns(f, c, before, i);
    TableAssignsItsNames(f, c, before);
    var later := before[i + 1..];
    var k :| 0 <= k < |later| && later[k].field == "CORS_ALLOW_CREDENTIALS";
    assert before[i + 1 + k] == later[k];
  }

  lemma RunAllSucceedsIff(f: Fields, c: Config, before: seq<Assignment>, after: seq<Assignment>, sections: set<string>, i: nat)
    requires Within(before, sections) && Within(after, sections) && ReadSomewhere(before, after, sections)
    requires AssignsOriginsAt(before, i)
    ensures RunAll(f, c, before, after).1 <==>
            (forall section :: section in sections ==> Section(c, section).Some?) &&
            IsContainer(Get(c, ("cors", "allow_origins"), List([])))
  {
    var f0 := f["DOMAINS" := if "domains" in c then c["domains"] else List([])];
    var f1 := RunTable(f0, c, before).0;
    TablesRunIff(f0, CheckCors(f1).0, c, before, after, sections);
    if RunTable(f0, c, before).1 {
      CheckPassesIff(f0, c, before, i);
    }
  }

  /**
   A configuration is applied to the end iff each section that _apply reads is a mapping or
   absent and the CORS origins are a list, a text or a mapping.
   */
  lemma ApplySucceedsIff(f: Fields, c: Config)
    ensures ApplyConfig(f, c).1 <==>
            SectionsAreMappings(c) && IsContainer(Get(c, ("cors", "allow_origins"), List([])))
  {
    FirstTableWithin();
    SecondTableWithin();
    EverySectionIsRead();
    OriginsAreAssignedOnce();
    RunAllSucceedsIff(f, c, BEFORE_CORS_CHECK, AFTER_CORS_CHECK, SECTIONS, 34);
  }

  /** The file parses as a mapping whose `domains` is not empty. */
  ghost predicate IsAcceptable(parsed: Option<Value>) {
    && parsed.Some? && parsed.value.Dict? && "domains" in parsed.value.entries
    && !CountsAsFalse(parsed.value.entries["domains"])
  }

  lemma AcceptableIff(parsed: Option<Value>)
    ensures Acceptable(parsed).Some? <==> IsAcceptable(parsed)
    ensures IsAcceptable(parsed) ==> Acceptable(parsed).value == parsed.value.entries
  {
    if parsed.Some? && parsed.value.Dict? && "domains" in parsed.value.entries {
      FalseValues(parsed.value.entries["domains"]);
    }
  }

  /**
   A reload goes through iff the file is acceptable and _apply gets through it. Any other
   file leaves the settings untouched.
   */
  lemma ReloadSucceedsIff(f: Fields, parsed: Option<Value>)
    ensures !IsAcceptable(parsed) ==> Reload(f, parsed) == (f, false)
    ensures IsAcceptable(parsed) ==>
      (Reload(f, parsed).1 <==>
       SectionsAreMappings(parsed.value.entries) &&
       IsContainer(Get(parsed.value.entries, ("cors", "allow_origins"), List([]))))
  {
    AcceptableIff(parsed);
    if IsAcceptable(parsed) {
      ApplySucceedsIff(f, parsed.value.entries);
    }
  }

  // --------------------------------------------------------- the values that are applied

  /** The value the file gives under section and key, or the default. */
  function InFile(c: Config, section: string, key: string, default: Value): Value {
    if section in c && c[section].Dict? && key in c[section].entries then c[section].entries[key] else default
  }

  ghost predicate Holds(f: Fields, c: Config, field: string, section: string, key: string, default: Value) {
    field in f && f[field] == InFile(c, section, key, default)
  }

  /** No assignment from `i` on is to a field of that length with `ch` at `k`. */
  ghost predicate NoneLike(table: seq<Assignment>, i: nat, length: nat, k: nat, ch: char) {
    forall j :: i <= j < |table| ==> |table[j].field| != length || (k < length && table[j].field[k] != ch)
  }

  lemma NotNamed(table: seq<Assignment>, i: nat, name: string, k: nat, ch: char)
    requires i <= |table| && NoneLike(table, i, |name|, k, ch) && k < |name| && name[k] == ch
    ensures name !in Names(table[i..])
  {
    forall j | 0 <= j < |table[i..]| ensures table[i..][j].field != name {
      assert table[i..][j] == table[i + j];
    }
  }

  lemma CheckTouchesCredentialsOnly(f: Fields, name: string)
    requires name != "CORS_ALLOW_CREDENTIALS" && name in f
    ensures name in CheckCors(f).0 && CheckCors(f).0[name] == f[name]
  {
  }

  /** The i-th row of the first table is `a`, and no later row is like it. */
  ghost predicate IsEarlyRow(before: seq<Assignment>, after: seq<Assignment>, i: nat, k: nat, a: Assignment) {
    && i < |before| && before[i] == a && k < |a.field| && a.field != "CORS_ALLOW_CREDENTIALS"
    && NoneLike(before, i + 1, |a.field|, k, a.field[k]) && NoneLike(after, 0, |a.field|, k, a.field[k])
  }

  /** And so for the second table. */
  ghost predicate IsLateRow(after: seq<Assignment>, i: nat, k: nat, a: Assignment) {
    i < |after| && after[i] == a && k < |a.field| && NoneLike(after, i + 1, |a.field|, k, a.field[k])
  }

  ghost predicate HoldsRow(f: Fields, c: Config, a: Assignment) { Holds(f, c, a.field, a.section, a.key, a.default) }

  lemma EarlyRowHolds(f: Fields, c: Config, before: seq<Assignment>, after: seq<Assignment>, i: nat, k: nat, a: Assignment, f': Fields)
    requires (f', true) == RunAll(f, c, before, after) && IsEarlyRow(before, after, i, k, a)
    ensures HoldsRow(f', c, a)
  {
    var f0 := f["DOMAINS" := if "domains" in c then c["domains"] else List([])];
    var f1 := RunTable(f0, c, before).0;
    NotNamed(before, i + 1, a.field, k, a.field[k]);
    NotNamed(after, 0, a.field, k, a.field[k]);
    assert after[0..] == after;
    TableAssigns(f0, c, before, i);
    CheckTouchesCredentialsOnly(f1, a.field);
    TableKeepsOthers(CheckCors(f1).0, c, after, a.field);
  }

  lemma LateRowHolds(f: Fields, c: Config, before: seq<Assignment>, after: seq<Assignment>, i: nat, k: nat, a: Assignment, f': Fields)
    requires (f', true) == RunAll(f, c, before, after) && IsLateRow(after, i, k, a)
    ensures HoldsRow(f', c, a)
  {
    var f0 := f["DOMAINS" := if "domains" in c then c["domains"] else List([])];
    NotNamed(after, i + 1, a.field, k, a.field[k]);
    TableAssigns(CheckCors(RunTable(f0, c, before).0).0, c, after, i);
  }

  /** The default list of reserved names. */
  lemma ReservedByDefault()
    ensures RESERVED.items == [
      Str("admin"), Str("postmaster"), Str("abuse"), Str("noreply"), Str("no-reply"), Str("root"), Str("webmaster"),
      Str("hostmaster"), Str("mailer-daemon"), Str("info"), Str("support"), Str("security"), Str("sales"), Str("contact")]
  {
  }

  lemma AddressLifetimeIsNotReassigned()
    ensures NoneLike(BEFORE_CORS_CHECK, 12, 22, 1, 'D')
  {
  }

  lemma AddressLifetimeRow()
    ensures IsEarlyRow(BEFORE_CORS_CHECK, AFTER_CORS_CHECK, 11, 1, Assignment("ADDRESS_LIFETIME_HOURS", "tempmail", "address_lifetime_hours", Int(24)))
  {
    AddressLifetimeIsNotReassigned();
    assert "ADDRESS_LIFETIME_HOURS"[0] != "CORS_ALLOW_CREDENTIALS"[0];
  }

  lemma CustomUsernamesIsNotReassigned()
    ensures NoneLike(BEFORE_CORS_CHECK, 16, 22, 0, 'A')
  {
  }

  lemma CustomUsernamesRow()
    ensures IsEarlyRow(BEFORE_CORS_CHECK, AFTER_CORS_CHECK, 15, 0, Assignment("ALLOW_CUSTOM_USERNAMES", "tempmail", "allow_custom_usernames", Bool(true)))
  {
    CustomUsernamesIsNotReassigned();
    assert "ALLOW_CUSTOM_USERNAMES"[0] != "CORS_ALLOW_CREDENTIALS"[0];
  }

  lemma MinLengthIsNotReassigned()
    ensures NoneLike(BEFORE_CORS_CHECK, 17, 19, 1, 'I')
  {
  }

  lemma MinLengthRow()
    ensures IsEarlyRow(BEFORE_CORS_CHECK, AFTER_CORS_CHECK, 16, 1, Assignment("MIN_USERNAME_LENGTH", "tempmail", "min_username_length", Int(3)))
  {
    MinLengthIsNotReassigned();
  }

  lemma MaxLengthRow()
    ensures IsEarlyRow(BEFORE_CORS_CHECK, AFTER_CORS_CHECK, 17, 0, Assignment("MAX_USERNAME_LENGTH", "tempmail", "max_username_length", Int(64)))
  {
  }

  lemma MaxStorageRow()
    ensures IsEarlyRow(BEFORE_CORS_CHECK, AFTER_CORS_CHECK, 18, 0, Assignment("MAX_STORAGE_MB", "tempmail", "max_storage_mb", Int(1024)))
  {
  }

  lemma ReservedNamesRow()
    ensures IsEarlyRow(BEFORE_CORS_CHECK, AFTER_CORS_CHECK, 19, 0, Assignment("RESERVED_USERNAMES", "tempmail", "reserved_usernames", RESERVED))
  {
  }

  lemma RetentionRow()
    ensures IsEarlyRow(BEFORE_CORS_CHECK, AFTER_CORS_CHECK, 30, 0, Assignment("PERMANENT_EMAIL_RETENTION_DAYS", "tempmail", "permanent_email_retention_days", Int(30)))
  {
  }

  lemma MaxPermanentRow()
    ensures IsEarlyRow(BEFORE_CORS_CHECK, AFTER_CORS_CHECK, 31, 0, Assignment("MAX_PERMANENT_ADDRESSES", "tempmail", "max_permanent_addresses", Int(0)))
  {
  }

  lemma AddressRateRow()
    ensures IsLateRow(AFTER_CORS_CHECK, 1, 0, Assignment("RL_ADDRESS_CREATE", "rate_limits", "address_create_per_minute", Int(50)))
  {
  }

  lemma PermanentRateRow()
    ensures IsLateRow(AFTER_CORS_CHECK, 2, 0, Assignment("RL_PERMANENT_CREATE", "rate_limits", "permanent_create_per_minute", Int(20)))
  {
  }

  lemma ApiRateRow()
    ensures IsLateRow(AFTER_CORS_CHECK, 3, 3, Assignment("RL_API_CREATE", "rate_limits", "api_create_per_minute", Int(0)))
  {
  }

  lemma SetupRateRow()
    ensures IsLateRow(AFTER_CORS_CHECK, 4, 3, Assignment("RL_SETUP", "rate_limits", "setup_per_minute", Int(5)))
  {
  }

  lemma AdminRateRow()
    ensures IsLateRow(AFTER_CORS_CHECK, 5, 3, Assignment("RL_ADMIN", "rate_limits", "admin_per_minute", Int(120)))
  {
  }

  lemma ReadRateRow()
    ensures IsLateRow(AFTER_CORS_CHECK, 6, 3, Assignment("RL_EMAIL_READ", "rate_limits", "email_read_per_minute", Int(300)))
  {
  }

  /** The origins name the wildcard: as an entry, as a character of a text, or as a key. */
  ghost predicate NamesWildcard(origins: Value) {
    match origins
    case List(items) => Str("*") in items
    case Str(text) => '*' in text
    case Dict(entries) => "*" in entries
    case _ => false
  }

  /** The credentials flag of the file, except that a wildcard origin switches a truthy one off. */
  ghost predicate CredentialsHold(f: Fields, c: Config) {
    var (origins, flag) := (InFile(c, "cors", "allow_origins", List([])), InFile(c, "cors", "allow_credentials", Bool(false)));
    && "CORS_ALLOW_CREDENTIALS" in f
    && f["CORS_ALLOW_CREDENTIALS"] == (if NamesWildcard(origins) && Truthy(flag) then Bool(false) else flag)
  }

  lemma CredentialsAfterCheck(f: Fields, c: Config, before: seq<Assignment>, after: seq<Assignment>, i: nat, f': Fields)
    requires (f', true) == RunAll(f, c, before, after) && AssignsOriginsAt(before, i) && i + 1 < |before|
    requires before[i + 1] == Assignment("CORS_ALLOW_CREDENTIALS", "cors", "allow_credentials", Bool(false))
    requires NoneLike(before, i + 2, 22, 1, 'O') && NoneLike(after, 0, 22, 1, 'O')
    ensures CredentialsHold(f', c)
  {
    var name := "CORS_ALLOW_CREDENTIALS";
    var f0 := f["DOMAINS" := if "domains" in c then c["domains"] else List([])];
    var f1 := RunTable(f0, c, before).0;
    assert after[0..] == after;
    NotNamed(before, i + 2, name, 1, 'O');
    NotNamed(after, 0, name, 1, 'O');
    TableAssigns(f0, c, before, i);
    TableAssigns(f0, c, before, i + 1);
    TableKeepsOthers(CheckCors(f1).0, c, after, name);
  }

  lemma CredentialsRow()
    ensures BEFORE_CORS_CHECK[35] == Assignment("CORS_ALLOW_CREDENTIALS", "cors", "allow_credentials", Bool(false))
    ensures NoneLike(BEFORE_CORS_CHECK, 36, 22, 1, 'O') && NoneLike(AFTER_CORS_CHECK, 0, 22, 1, 'O')
  {
  }

  lemma CredentialsAreApplied(f: Fields, c: Config, f': Fields)
    requires (f', true) == ApplyConfig(f, c)
    ensures CredentialsHold(f', c)
  {
    OriginsAreAssignedOnce();
    CredentialsRow();
    CredentialsAfterCheck(f, c, BEFORE_CORS_CHECK, AFTER_CORS_CHECK, 34, f');
  }

  /** Rows that address creation reads, */
  lemma AddressRowsHold(f: Fields, c: Config, before: seq<Assignment>, after: seq<Assignment>, f': Fields)
    requires (f', true) == RunAll(f, c, before, after)
    requires IsEarlyRow(before, after, 11, 1, Assignment("ADDRESS_LIFETIME_HOURS", "tempmail", "address_lifetime_hours", Int(24)))
    requires IsEarlyRow(before, after, 15, 0, Assignment("ALLOW_CUSTOM_USERNAMES", "tempmail", "allow_custom_usernames", Bool(true)))
    requires IsEarlyRow(before, after, 16, 1, Assignment("MIN_USERNAME_LENGTH", "tempmail", "min_username_length", Int(3)))
    requires IsEarlyRow(before, after, 17, 0, Assignment("MAX_USERNAME_LENGTH", "tempmail", "max_username_length", Int(64)))
    ensures Holds(f', c, "ADDRESS_LIFETIME_HOURS", "tempmail", "address_lifetime_hours", Int(24))
    ensures Holds(f', c, "ALLOW_CUSTOM_USERNAMES", "tempmail", "allow_custom_usernames", Bool(true))
    ensures Holds(f', c, "MIN_USERNAME_LENGTH", "tempmail", "min_username_length", Int(3))
    ensures Holds(f', c, "MAX_USERNAME_LENGTH", "tempmail", "max_username_length", Int(64))
  {
    EarlyRowHolds(f, c, before, after, 11, 1, Assignment("ADDRESS_LIFETIME_HOURS", "tempmail", "address_lifetime_hours", Int(24)), f');
    EarlyRowHolds(f, c, before, after, 15, 0, Assignment("ALLOW_CUSTOM_USERNAMES", "tempmail", "allow_custom_usernames", Bool(true)), f');
    EarlyRowHolds(f, c, before, after, 16, 1, Assignment("MIN_USERNAME_LENGTH", "tempmail", "min_username_length", Int(3)), f');
    EarlyRowHolds(f, c, before, after, 17, 0, Assignment("MAX_USERNAME_LENGTH", "tempmail", "max_username_length", Int(64)), f');
  }

  /** and the clean-up jobs and caps, */
  lemma StorageRowsHold(f: Fields, c: Config, before: seq<Assignment>, after: seq<Assignment>, f': Fields)
    requires (f', true) == RunAll(f, c, before, after)
    requires IsEarlyRow(before, after, 18, 0, Assignment("MAX_STORAGE_MB", "tempmail", "max_storage_mb", Int(1024)))
    requires IsEarlyRow(before, after, 19, 0, Assignment("RESERVED_USERNAMES", "tempmail", "reserved_usernames", RESERVED))
    requires IsEarlyRow(before, after, 30, 0, Assignment("PERMANENT_EMAIL_RETENTION_DAYS", "tempmail", "permanent_email_retention_days", Int(30)))
    requires IsEarlyRow(before, after, 31, 0, Assignment("MAX_PERMANENT_ADDRESSES", "tempmail", "max_permanent_addresses", Int(0)))
    ensures Holds(f', c, "MAX_STORAGE_MB", "tempmail", "max_storage_mb", Int(1024))
    ensures Holds(f', c, "RESERVED_USERNAMES", "tempmail", "reserved_usernames", RESERVED)
    ensures Holds(f', c, "PERMANENT_EMAIL_RETENTION_DAYS", "tempmail", "permanent_email_retention_days", Int(30))
    ensures Holds(f', c, "MAX_PERMANENT_ADDRESSES", "tempmail", "max_permanent_addresses", Int(0))
  {
    EarlyRowHolds(f, c, before, after, 18, 0, Assignment("MAX_STORAGE_MB", "tempmail", "max_storage_mb", Int(1024)), f');
    EarlyRowHolds(f, c, before, after, 19, 0, Assignment("RESERVED_USERNAMES", "tempmail", "reserved_usernames", RESERVED), f');
    EarlyRowHolds(f, c, before, after, 30, 0, Assignment("PERMANENT_EMAIL_RETENTION_DAYS", "tempmail", "permanent_email_retention_days", Int(30)), f');
    EarlyRowHolds(f, c, before, after, 31, 0, Assignment("MAX_PERMANENT_ADDRESSES", "tempmail", "max_permanent_addresses", Int(0)), f');
  }

  /** and the rate limiter. */
  lemma RateRowsHold(f: Fields, c: Config, before: seq<Assignment>, after: seq<Assignment>, f': Fields)
    requires (f', true) == RunAll(f, c, before, after)
    requires IsLateRow(after, 1, 0, Assignment("RL_ADDRESS_CREATE", "rate_limits", "address_create_per_minute", Int(50)))
    requires IsLateRow(after, 2, 0, Assignment("RL_PERMANENT_CREATE", "rate_limits", "permanent_create_per_minute", Int(20)))
    requires IsLateRow(after, 3, 3, Assignment("RL_API_CREATE", "rate_limits", "api_create_per_minute", Int(0)))
    requires IsLateRow(after, 4, 3, Assignment("RL_SETUP", "rate_limits", "setup_per_minute", Int(5)))
    requires IsLateRow(after, 5, 3, Assignment("RL_ADMIN", "rate_limits", "admin_per_minute", Int(120)))
    requires IsLateRow(after, 6, 3, Assignment("RL_EMAIL_READ", "rate_limits", "email_read_per_minute", Int(300)))
    ensures Holds(f', c, "RL_ADDRESS_CREATE", "rate_limits", "address_create_per_minute", Int(50))
    ensures Holds(f', c, "RL_PERMANENT_CREATE", "rate_limits", "permanent_create_per_minute", Int(20))
    ensures Holds(f', c, "RL_API_CREATE", "rate_limits", "api_create_per_minute", Int(0))
    ensures Holds(f', c, "RL_SETUP", "rate_limits", "setup_per_minute", Int(5))
    ensures Holds(f', c, "RL_ADMIN", "rate_limits", "admin_per_minute", Int(120))
    ensures Holds(f', c, "RL_EMAIL_READ", "rate_limits", "email_read_per_minute", Int(300))
  {
    LateRowHolds(f, c, before, after, 1, 0, Assignment("RL_ADDRESS_CREATE", "rate_limits", "address_create_per_minute", Int(50)), f');
    LateRowHolds(f, c, before, after, 2, 0, Assignment("RL_PERMANENT_CREATE", "rate_limits", "permanent_create_per_minute", Int(20)), f');
    LateRowHolds(f, c, before, after, 3, 3, Assignment("RL_API_CREATE", "rate_limits", "api_create_per_minute", Int(0)), f');
    LateRowHolds(f, c, before, after, 4, 3, Assignment("RL_SETUP", "rate_limits", "setup_per_minute", Int(5)), f');
    LateRowHolds(f, c, before, after, 5, 3, Assignment("RL_ADMIN", "rate_limits", "admin_per_minute", Int(120)), f');
    LateRowHolds(f, c, before, after, 6, 3, Assignment("RL_EMAIL_READ", "rate_limits", "email_read_per_minute", Int(300)), f');
  }

  /** The fields that address creation, the clean-up jobs and the rate limiter read are those of the file, or the defaults. */
  ghost predicate SettingsHold(f: Fields, c: Config) {
    && Holds(f, c, "ADDRESS_LIFETIME_HOURS", "tempmail", "address_lifetime_hours", Int(24))
    && Holds(f, c, "ALLOW_CUSTOM_USERNAMES", "tempmail", "allow_custom_usernames", Bool(true))
    && Holds(f, c, "MIN_USERNAME_LENGTH", "tempmail", "min_username_length", Int(3))
    && Holds(f, c, "MAX_USERNAME_LENGTH", "tempmail", "max_username_length", Int(64))
    && Holds(f, c, "MAX_STORAGE_MB", "tempmail", "max_storage_mb", Int(1024))
    && Holds(f, c, "RESERVED_USERNAMES", "tempmail", "reserved_usernames", RESERVED)
    && Holds(f, c, "PERMANENT_EMAIL_RETENTION_DAYS", "tempmail", "permanent_email_retention_days", Int(30))
    && Holds(f, c, "MAX_PERMANENT_ADDRESSES", "tempmail", "max_permanent_addresses", Int(0))
    && Holds(f, c, "RL_ADDRESS_CREATE", "rate_limits", "address_create_per_minute", Int(50))
    && Holds(f, c, "RL_PERMANENT_CREATE", "rate_limits", "permanent_create_per_minute", Int(20))
    && Holds(f, c, "RL_API_CREATE", "rate_limits", "api_create_per_minute", Int(0))
    && Holds(f, c, "RL_SETUP", "rate_limits", "setup_per_minute", Int(5))
    && Holds(f, c, "RL_ADMIN", "rate_limits", "admin_per_minute", Int(120))
    && Holds(f, c, "RL_EMAIL_READ", "rate_limits", "email_read_per_minute", Int(300))
    && CredentialsHold(f, c)
  }

  /**
   Once _apply has run to its end, each setting that a modelled operation reads is that of
   the file, or its documented default.
   */
  lemma AppliedSettings(f: Fields, c: Config, f': Fields)
    requires (f', true) == ApplyConfig(f, c)
    ensures SettingsHold(f', c)
  {
    AddressLifetimeRow();
    CustomUsernamesRow();
    MinLengthRow();
    MaxLengthRow();
    MaxStorageRow();
    ReservedNamesRow();
    RetentionRow();
    MaxPermanentRow();
    AddressRateRow();
    PermanentRateRow();
    ApiRateRow();
    SetupRateRow();
    AdminRateRow();
    ReadRateRow();
    AddressRowsHold(f, c, BEFORE_CORS_CHECK, AFTER_CORS_CHECK, f');
    StorageRowsHold(f, c, BEFORE_CORS_CHECK, AFTER_CORS_CHECK, f');
    RateRowsHold(f, c, BEFORE_CORS_CHECK, AFTER_CORS_CHECK, f');
    CredentialsAreApplied(f, c, f');
  }
}
