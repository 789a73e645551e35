/**
 Patching the configuration from the admin panel (apply_patch in api/app/runtime_config.py):
 whitelisted keys are validated one by one and written straight into the dictionary.
 */
module ConfigPatch {
  import opened Wrappers
  import opened Text
  import opened ConfigValues

  type Config = map<string, Value>
  type Key = (string, string)

  const ALLOWED: map<string, set<string>> := map[
    "server" := {"max_message_size_mb", "docs_enabled", "hostname"},
    "tempmail" := {
      "address_lifetime_hours", "max_emails_per_address", "cleanup_interval_hours", "address_format",
      "allow_custom_usernames", "min_username_length", "max_username_length", "reserved_usernames",
      "max_storage_mb", "permanent_email_retention_days", "max_permanent_addresses"},
    "validation" := {"check_dkim", "check_spf", "check_dmarc", "store_results"},
    "cors" := {"allow_origins", "allow_credentials", "allow_methods", "allow_headers"},
    "database" := {"pool_size", "max_overflow"},
    "admin" := {"token"},
    "tls" := {"enabled"},
    "web" := {"hostname", "allow_ip_access"},
    "rate_limits" := {
      "address_create_per_minute", "permanent_create_per_minute", "api_create_per_minute",
      "setup_per_minute", "admin_per_minute", "email_read_per_minute"}]

  const POSITIVE_INT_KEYS: set<Key> := {
    ("server", "max_message_size_mb"), ("tempmail", "address_lifetime_hours"),
    ("tempmail", "max_emails_per_address"), ("tempmail", "cleanup_interval_hours"),
    MIN_LENGTH, MAX_LENGTH, ("tempmail", "permanent_email_retention_days"),
    ("tempmail", "max_permanent_addresses"), ("database", "pool_size"), ("database", "max_overflow")}

  const MAX_STORAGE: Key := ("tempmail", "max_storage_mb")
  const MIN_LENGTH: Key := ("tempmail", "min_username_length")
  const MAX_LENGTH: Key := ("tempmail", "max_username_length")
  const SERVER_HOSTNAME: Key := ("server", "hostname")
  const WEB_HOSTNAME: Key := ("web", "hostname")
  const ADMIN_TOKEN: Key := ("admin", "token")

  predicate IsIntKey(k: Key) {
    k in POSITIVE_INT_KEYS || k == MAX_STORAGE || (k.0 == "rate_limits" && k.1 in ALLOWED["rate_limits"])
  }

  const BOOL_KEYS: set<Key> := {
    ("server", "docs_enabled"), ("tempmail", "allow_custom_usernames"), ("validation", "check_dkim"),
    ("validation", "check_spf"), ("validation", "check_dmarc"), ("validation", "store_results"),
    ("cors", "allow_credentials"), ("tls", "enabled"), ("web", "allow_ip_access")}

  const LIST_KEYS: set<Key> := {
    ("tempmail", "reserved_usernames"), ("cors", "allow_origins"), ("cors", "allow_methods"), ("cors", "allow_headers")}

  predicate IsAllowed(k: Key) { k.0 in ALLOWED && k.1 in ALLOWED[k.0] }

  // --------------------------------------------------------------------- patches

  /** JSON objects keep their key order, which matters here; their keys are distinct. */
  datatype SectionPatch = NotAnObject | Entries(entries: seq<(string, Value)>)
  type Patch = seq<(string, SectionPatch)>

  /** What apply_patch meets as it walks a patch: a section it refuses, or a key to set. */
  datatype Edit = BadSection | Set(key: Key, value: Value)

  function SectionEdits(section: string, entries: seq<(string, Value)>): seq<Edit> {
    if entries == [] then [] else [Set((section, entries[0].0), entries[0].1)] + SectionEdits(section, entries[1..])
  }

  function Edits(patch: Patch): seq<Edit> {
    if patch == [] then []
    else
      (if patch[0].0 !in ALLOWED || patch[0].1.NotAnObject? then [BadSection]
       else SectionEdits(patch[0].0, patch[0].1.entries)) + Edits(patch[1..])
  }

  ghost predicate DistinctKeys(edits: seq<Edit>) {
    forall i, j :: 0 <= i < j < |edits| && edits[i].Set? && edits[j].Set? ==> edits[i].key != edits[j].key
  }

  // ------------------------------------------------------------------- the rules

  /** ValueError is the 400 reply; Crash is any other exception, raised on ill-typed stored values. */
  datatype Outcome = Ok(config: Config, changed: set<Key>) | ValueError | Crash

  /** config.get(section, {}) as a dictionary; None when calling .get on it raises. */
  function Section(c: Config, section: string): Option<map<string, Value>> {
    if section !in c then Some(map[])
    else match c[section] case Dict(m) => Some(m) case _ => None
  }

  /** config.get(section, {}).get(key, default), where that does not raise. */
  function Get(c: Config, k: Key, default: Value): Value {
    match Section(c, k.0)
    case Some(m) => if k.1 in m then m[k.1] else default
    case None => default
  }

  predicate IsStringList(v: Value) {
    v.List? && forall i :: 0 <= i < |v.items| ==> v.items[i].Str?
  }

  /** The checks on one value that do not look at the rest of the configuration. */
  predicate IsWellTyped(k: Key, v: Value) {
    && IsAllowed(k)
    && (IsIntKey(k) ==> v.Int?)
    && (k in POSITIVE_INT_KEYS ==> v.Int? && v.i >= 1)
    && ((k.0 == "rate_limits" || k == MAX_STORAGE) && IsIntKey(k) ==> v.Int? && v.i >= 0)
    && (k in BOOL_KEYS ==> v.Bool?)
    && (k in LIST_KEYS ==> IsStringList(v))
    && (k == SERVER_HOSTNAME ==> v.Str? && IsHostname(Strip(v.s)))
    && (k == WEB_HOSTNAME ==> v.Str? && (Strip(v.s) == "" || IsHostname(Strip(v.s))))
    && (k == ADMIN_TOKEN ==> v.Str? && 8 <= |Strip(v.s)| <= 128)
  }

  datatype Verdict = Fine | Refused | Raises

  /** The username-length bounds compare a new value with the stored partner. */
  function CheckBounds(c: Config, k: Key, v: Value): Verdict
    requires IsWellTyped(k, v)
  {
    if k != MIN_LENGTH && k != MAX_LENGTH then Fine
    else if Section(c, "tempmail").None? then Raises
    else
      var partner := Numeric(if k == MIN_LENGTH then Get(c, MAX_LENGTH, Int(64)) else Get(c, MIN_LENGTH, Int(3)));
      if partner.None? then Raises
      else if k == MIN_LENGTH && v.i as real > partner.value then Refused
      else if k == MAX_LENGTH && (v.i as real) < partner.value then Refused
      else Fine
  }

  /** What is stored: host names are trimmed and lower-cased. */
  function Normalized(k: Key, v: Value): Value {
    if (k == SERVER_HOSTNAME || k == WEB_HOSTNAME) && v.Str? then Str(ToLower(Strip(v.s))) else v
  }

  /** config.setdefault(section, {})[key] = value */
  function Put(c: Config, k: Key, v: Value): Config
    requires Section(c, k.0).Some?
  {
    c[k.0 := Dict(Section(c, k.0).value[k.1 := v])]
  }

  function ApplyEdit(c: Config, changed: set<Key>, e: Edit): Outcome {
    match e
    case BadSection => ValueError
    case Set(k, v) =>
      if !IsWellTyped(k, v) then ValueError
      else match CheckBounds(c, k, v)
        case Refused => ValueError
        case Raises => Crash
        case Fine =>
          if Section(c, k.0).None? then Crash
          else
            var stored := Normalized(k, v);
            Ok(Put(c, k, stored), if PyEq(Get(c, k, Null), stored) then changed else changed + {k})
  }

  function ApplyEdits(c: Config, changed: set<Key>, edits: seq<Edit>): Outcome
    decreases |edits|
  {
    if edits == [] then Ok(c, changed)
    else match ApplyEdit(c, changed, edits[0])
      case Ok(c', changed') => ApplyEdits(c', changed', edits[1..])
      case failed => failed
  }

  /** web.allow_ip_access may be False only with a non-blank web.hostname. */
  function CheckPanel(c: Config): Verdict {
    match Section(c, "web")
    case None => Raises
    case Some(web) =>
      if !("allow_ip_access" in web && web["allow_ip_access"] == Bool(false)) then Fine
      else
        var hostname := Get(c, WEB_HOSTNAME, Null);
        if !Truthy(hostname) then Refused
        else if !hostname.Str? then Raises
        else if Strip(hostname.s) == "" then Refused else Fine
  }

  function Apply(c: Config, edits: seq<Edit>): Outcome {
    match ApplyEdits(c, {}, edits)
    case Ok(c', changed) =>
      (match CheckPanel(c')
       case Fine => Ok(c', changed)
       case Refused => ValueError
       case Raises => Crash)
    case failed => failed
  }

  // -------------------------------------------------------------- the dictionary

  /** The dictionary that apply_patch edits in place; a raised error leaves it half edited. */
  class ConfigDict {
    var root: Config

    constructor (root: Config)
      ensures this.root == root
    {
      this.root := root;
    }

    method ApplyPatch(patch: Patch) returns (r: Outcome)
      modifies this
      ensures r == Apply(old(root), Edits(patch))
      ensures r.Ok? ==> root == r.config
    {
      var changed: set<Key> := {};
      var i := 0;
      assert patch[0..] == patch;
      while i < |patch|
        invariant 0 <= i <= |patch|
        invariant ApplyEdits(root, changed, Edits(patch[i..])) == ApplyEdits(old(root), {}, Edits(patch))
      {
        var (section, values) := patch[i];
        SplitFirstSection(root, changed, patch[i..]);
        if section !in ALLOWED || values.NotAnObject? {
          return ValueError;
        }
        assert patch[i..][1..] == patch[i + 1..];
        r, changed := ApplySection(section, values.entries, changed, Edits(patch[i + 1..]));
        if !r.Ok? {
          return r;
        }
        i := i + 1;
      }
      match CheckPanel(root) {
        case Fine => return Ok(root, changed);
        case Refused => return ValueError;
        case Raises => return Crash;
      }
    }

    /** The inner loop of apply_patch over the keys of one section. */
    method ApplySection(section: string, entries: seq<(string, Value)>, before: set<Key>, ghost later: seq<Edit>)
      returns (r: Outcome, changed: set<Key>)
      modifies this
      ensures r == ApplyEdits(old(root), before, SectionEdits(section, entries))
      ensures r.Ok? ==> root == r.config && changed == r.changed
      ensures ApplyEdits(old(root), before, SectionEdits(section, entries) + later) ==
              if r.Ok? then ApplyEdits(root, changed, later) else r
    {
      changed := before;
      var i := 0;
      assert entries[0..] == entries;
      while i < |entries|
        invariant 0 <= i <= |entries|
        invariant ApplyEdits(root, changed, SectionEdits(section, entries[i..])) ==
                  ApplyEdits(old(root), before, SectionEdits(section, entries))
      {
        var (key, value) := entries[i];
        var k := (section, key);
        assert entries[i..][1..] == entries[i + 1..];
        if !IsWellTyped(k, value) {
          r := ValueError;
          ApplyInTurn(old(root), before, SectionEdits(section, entries), later);
          return;
        }
        var bounds := CheckBounds(root, k, value);
        if bounds != Fine || Section(root, section).None? {
          r := if bounds == Refused then ValueError else Crash;
          ApplyInTurn(old(root), before, SectionEdits(section, entries), later);
          return;
        }
        var stored := Normalized(k, value);
        if !PyEq(Get(root, k, Null), stored) {
          changed := changed + {k};
        }
        root := Put(root, k, stored);
        i := i + 1;
      }
      r := Ok(root, changed);
      ApplyInTurn(old(root), before, SectionEdits(section, entries), later);
    }
  }

  lemma {:induction false} ApplyInTurn(c: Config, changed: set<Key>, first: seq<Edit>, later: seq<Edit>)
    ensures ApplyEdits(c, changed, first + later) ==
            (match ApplyEdits(c, changed, first)
             case Ok(c', changed') => ApplyEdits(c', changed', later)
             case failed => failed)
    decreases |first|
  {
    if first == [] {
      assert first + later == later;
    } else {
      assert (first + later)[0] == first[0] && (first + later)[1..] == first[1..] + later;
      match ApplyEdit(c, changed, first[0])
      case Ok(c', changed') => ApplyInTurn(c', changed', first[1..], later);
      case _ =>
    }
  }

  lemma SplitFirstSection(c: Config, changed: set<Key>, patch: Patch)
    requires patch != []
    ensures patch[0].0 !in ALLOWED || patch[0].1.NotAnObject? ==> ApplyEdits(c, changed, Edits(patch)) == ValueError
    ensures patch[0].0 in ALLOWED && patch[0].1.Entries? ==>
      Edits(patch) == SectionEdits(patch[0].0, patch[0].1.entries) + Edits(patch[1..])
  {
  }
}
