/** What a successful configuration patch guarantees, for every configuration and patch. */
module PatchLaws {
  import opened Wrappers
  import opened Text
  import opened ConfigValues
  import opened ConfigPatch

  function Lookup(c: Config, k: Key): Option<Value> {
    match Section(c, k.0)
    case Some(m) => if k.1 in m then Some(m[k.1]) else None
    case None => None
  }

  ghost predicate Sets(edits: seq<Edit>, k: Key) {
    exists v :: Set(k, v) in edits
  }

  ghost predicate SetsSection(edits: seq<Edit>, section: string) {
    exists e :: e in edits && e.Set? && e.key.0 == section
  }

  lemma PutLooksUp(c: Config, k: Key, v: Value, other: Key)
    requires Section(c, k.0).Some?
    ensures Lookup(Put(c, k, v), other) == if other == k then Some(v) else Lookup(c, other)
    ensures other.0 != k.0 ==> Section(Put(c, k, v), other.0) == Section(c, other.0)
  {
  }

  lemma GetIsLookup(c: Config, k: Key, default: Value)
    ensures Get(c, k, default) == if Lookup(c, k).Some? then Lookup(c, k).value else default
  {
  }

  /** The first edit of a list that goes through, and what the others then start from. */
  lemma FirstEdit(c: Config, changed: set<Key>, edits: seq<Edit>)
    requires edits != [] && ApplyEdits(c, changed, edits).Ok?
    ensures edits[0].Set? && Section(c, edits[0].key.0).Some? && IsWellTyped(edits[0].key, edits[0].value)
    ensures var (k, v) := (edits[0].key, edits[0].value); var stored := Normalized(k, v);
      && CheckBounds(c, k, v) == Fine
      && ApplyEdits(c, changed, edits) ==
         ApplyEdits(Put(c, k, stored), if PyEq(Get(c, k, Null), stored) then changed else changed + {k}, edits[1..])
  {
  }

  // ----------------------------------------------------- keys of a JSON object are distinct

  /** What a JSON parser guarantees: no section twice, and no key twice within one. */
  ghost predicate IsObject(patch: Patch) {
    && (forall i, j :: 0 <= i < j < |patch| ==> patch[i].0 != patch[j].0)
    && forall i :: 0 <= i < |patch| && patch[i].1.Entries? ==> HasDistinctKeys(patch[i].1.entries)
  }

  ghost predicate HasDistinctKeys(entries: seq<(string, Value)>) {
    forall i, j :: 0 <= i < j < |entries| ==> entries[i].0 != entries[j].0
  }

  lemma {:induction false} SectionEditsAre(section: string, entries: seq<(string, Value)>)
    ensures var edits := SectionEdits(section, entries);
      && |edits| == |entries|
      && forall i :: 0 <= i < |entries| ==> edits[i] == Set((section, entries[i].0), entries[i].1)
  {
    if entries != [] {
      SectionEditsAre(section, entries[1..]);
    }
  }

  lemma {:induction false} EditsComeFromSections(patch: Patch)
    ensures forall i :: 0 <= i < |Edits(patch)| && Edits(patch)[i].Set? ==>
      exists j :: 0 <= j < |patch| && patch[j].0 == Edits(patch)[i].key.0
  {
    if patch != [] {
      EditsComeFromSections(patch[1..]);
      if patch[0].1.Entries? {
        SectionEditsAre(patch[0].0, patch[0].1.entries);
      }
      forall i | 0 <= i < |Edits(patch)| && Edits(patch)[i].Set?
        ensures exists j :: 0 <= j < |patch| && patch[j].0 == Edits(patch)[i].key.0
      {
        var n := |Edits(patch)| - |Edits(patch[1..])|;
        if i < n {
          assert patch[0].0 == Edits(patch)[i].key.0;
        } else {
          assert Edits(patch)[i] == Edits(patch[1..])[i - n];
          var j :| 0 <= j < |patch[1..]| && patch[1..][j].0 == Edits(patch[1..])[i - n].key.0;
          assert patch[j + 1] == patch[1..][j];
        }
      }
    }
  }

  lemma DistinctAppend(a: seq<Edit>, b: seq<Edit>)
    requires DistinctKeys(a) && DistinctKeys(b)
    requires forall i, j :: 0 <= i < |a| && 0 <= j < |b| && a[i].Set? && b[j].Set? ==> a[i].key != b[j].key
    ensures DistinctKeys(a + b)
  {
  }

  /** So the edits of a patch, as it arrives, never set a key twice. */
  lemma {:induction false} ObjectsSetKeysOnce(patch: Patch)
    requires IsObject(patch)
    ensures DistinctKeys(Edits(patch))
  {
    if patch != [] {
      var section, values, rest := patch[0].0, patch[0].1, patch[1..];
      assert IsObject(rest);
      ObjectsSetKeysOnce(rest);
      EditsComeFromSections(rest);
      forall i | 0 <= i < |Edits(rest)| && Edits(rest)[i].Set? ensures Edits(rest)[i].key.0 != section {
        var j :| 0 <= j < |rest| && rest[j].0 == Edits(rest)[i].key.0;
        assert patch[j + 1] == rest[j];
      }
      if section in ALLOWED && values.Entries? {
        SectionEditsAre(section, values.entries);
        DistinctAppend(SectionEdits(section, values.entries), Edits(rest));
      } else {
        DistinctAppend([BadSection], Edits(rest));
      }
    }
  }

  /** The patch gives `v` for the key. */
  ghost predicate Gives(patch: Patch, k: Key, v: Value) {
    exists i, j :: 0 <= i < |patch| && patch[i].0 == k.0 && patch[i].1.Entries? &&
                   0 <= j < |patch[i].1.entries| && patch[i].1.entries[j] == (k.1, v)
  }

  /** Every section of the patch is one that may be patched, and an object. */
  ghost predicate IsWellShaped(patch: Patch) {
    forall i :: 0 <= i < |patch| ==> patch[i].0 in ALLOWED && patch[i].1.Entries?
  }

  lemma GivesSplit(patch: Patch, k: Key, v: Value)
    requires patch != [] && patch[0].1.Entries?
    ensures Gives(patch, k, v) <==> (patch[0].0 == k.0 && (k.1, v) in patch[0].1.entries) || Gives(patch[1..], k, v)
  {
    if i, j :| 0 <= i < |patch| && patch[i].0 == k.0 && patch[i].1.Entries? &&
               0 <= j < |patch[i].1.entries| && patch[i].1.entries[j] == (k.1, v) {
      if i > 0 {
        assert patch[1..][i - 1] == patch[i];
      }
    }
    if i, j :| 0 <= i < |patch[1..]| && patch[1..][i].0 == k.0 && patch[1..][i].1.Entries? &&
               0 <= j < |patch[1..][i].1.entries| && patch[1..][i].1.entries[j] == (k.1, v) {
      assert patch[i + 1] == patch[1..][i];
    }
  }

  lemma SectionGives(section: string, entries: seq<(string, Value)>, k: Key, v: Value)
    ensures Set(k, v) in SectionEdits(section, entries) <==> section == k.0 && (k.1, v) in entries
  {
    SectionEditsAre(section, entries);
    if section == k.0 && (k.1, v) in entries {
      var j :| 0 <= j < |entries| && entries[j] == (k.1, v);
      assert SectionEdits(section, entries)[j] == Set(k, v);
    }
    if Set(k, v) in SectionEdits(section, entries) {
      var j :| 0 <= j < |entries| && SectionEdits(section, entries)[j] == Set(k, v);
      assert entries[j] == (k.1, v);
    }
  }

  /** The edits of a patch set what the patch gives, and nothing else. */
  lemma {:induction false} EditsAreThePatch(patch: Patch, k: Key, v: Value)
    requires IsWellShaped(patch)
    ensures Set(k, v) in Edits(patch) <==> Gives(patch, k, v)
  {
    if patch != [] {
      assert IsWellShaped(patch[1..]);
      EditsAreThePatch(patch[1..], k, v);
      GivesSplit(patch, k, v);
      SectionGives(patch[0].0, patch[0].1.entries, k, v);
    }
  }

  /** A patch with a section that may not be patched, or is no object, does not go through. */
  lemma {:induction false} MisshapenEdits(patch: Patch)
    ensures IsWellShaped(patch) <==> BadSection !in Edits(patch)
  {
    if patch != [] {
      MisshapenEdits(patch[1..]);
      assert forall i :: 0 < i < |patch| ==> patch[i] == patch[1..][i - 1];
      if patch[0].0 in ALLOWED && patch[0].1.Entries? {
        SectionEditsAre(patch[0].0, patch[0].1.entries);
        assert IsWellShaped(patch) <==> IsWellShaped(patch[1..]);
      } else {
        assert Edits(patch)[0] == BadSection;
      }
    }
  }

  // --------------------------------------------------------------- the rules, key by key

  predicate IsCount(v: Value) { v.Int? && v.i >= 1 }

  predicate IsCountOrZero(v: Value) { v.Int? && v.i >= 0 }

  ghost predicate AreTexts(v: Value) { v.List? && forall item :: item in v.items ==> item.Str? }

  /** The rule for a key of `server`. */
  ghost predicate ServerRule(key: string, v: Value) {
    || (key == "max_message_size_mb" && IsCount(v))
    || (key == "docs_enabled" && v.Bool?)
    || (key == "hostname" && v.Str? && IsHostname(Strip(v.s)))
  }

  lemma ServerRuleHolds(key: string, v: Value)
    ensures IsWellTyped(("server", key), v) <==> ServerRule(key, v)
  {
  }

  /** The rule for a key of `tempmail`. */
  ghost predicate TempmailRule(key: string, v: Value) {
    || (key == "address_lifetime_hours" && IsCount(v))
    || (key == "max_emails_per_address" && IsCount(v))
    || (key == "cleanup_interval_hours" && IsCount(v))
    || (key == "address_format")
    || (key == "allow_custom_usernames" && v.Bool?)
    || (key == "min_username_length" && IsCount(v))
    || (key == "max_username_length" && IsCount(v))
    || (key == "reserved_usernames" && AreTexts(v))
    || (key == "max_storage_mb" && IsCountOrZero(v))
    || (key == "permanent_email_retention_days" && IsCount(v))
    || (key == "max_permanent_addresses" && IsCount(v))
  }

  lemma TempmailRuleHolds(key: string, v: Value)
    ensures IsWellTyped(("tempmail", key), v) <==> TempmailRule(key, v)
  {
  }

  /** The rule for a key of `validation`. */
  ghost predicate ValidationRule(key: string, v: Value) {
    || (key == "check_dkim" && v.Bool?)
    || (key == "check_spf" && v.Bool?)
    || (key == "check_dmarc" && v.Bool?)
    || (key == "store_results" && v.Bool?)
  }

  lemma ValidationRuleHolds(key: string, v: Value)
    ensures IsWellTyped(("validation", key), v) <==> ValidationRule(key, v)
  {
  }

  /** The rule for a key of `cors`. */
  ghost predicate CorsRule(key: string, v: Value) {
    || (key == "allow_origins" && AreTexts(v))
    || (key == "allow_credentials" && v.Bool?)
    || (key == "allow_methods" && AreTexts(v))
    || (key == "allow_headers" && AreTexts(v))
  }

  lemma CorsRuleHolds(key: string, v: Value)
    ensures IsWellTyped(("cors", key), v) <==> CorsRule(key, v)
  {
  }

  /** The rule for a key of `database`. */
  ghost predicate DatabaseRule(key: string, v: Value) {
    || (key == "pool_size" && IsCount(v))
    || (key == "max_overflow" && IsCount(v))
  }

  lemma DatabaseRuleHolds(key: string, v: Value)
    ensures IsWellTyped(("database", key), v) <==> DatabaseRule(key, v)
  {
  }

  /** The rule for a key of `admin`. */
  ghost predicate AdminRule(key: string, v: Value) {
    (key == "token" && v.Str? && 8 <= |Strip(v.s)| <= 128)
  }

  lemma AdminRuleHolds(key: string, v: Value)
    ensures IsWellTyped(("admin", key), v) <==> AdminRule(key, v)
  {
  }

  /** The rule for a key of `tls`. */
  ghost predicate TlsRule(key: string, v: Value) {
    (key == "enabled" && v.Bool?)
  }

  lemma TlsRuleHolds(key: string, v: Value)
    ensures IsWellTyped(("tls", key), v) <==> TlsRule(key, v)
  {
  }

  /** The rule for a key of `web`. */
  ghost predicate WebRule(key: string, v: Value) {
    || (key == "hostname" && v.Str? && (Strip(v.s) == "" || IsHostname(Strip(v.s))))
    || (key == "allow_ip_access" && v.Bool?)
  }

  lemma WebRuleHolds(key: string, v: Value)
    ensures IsWellTyped(("web", key), v) <==> WebRule(key, v)
  {
  }

  /** The rule for a key of `rate_limits`. */
  ghost predicate RateLimitsRule(key: string, v: Value) {
    || (key == "address_create_per_minute" && IsCountOrZero(v))
    || (key == "permanent_create_per_minute" && IsCountOrZero(v))
    || (key == "api_create_per_minute" && IsCountOrZero(v))
    || (key == "setup_per_minute" && IsCountOrZero(v))
    || (key == "admin_per_minute" && IsCountOrZero(v))
    || (key == "email_read_per_minute" && IsCountOrZero(v))
  }

  lemma RateLimitsRuleHolds(key: string, v: Value)
    ensures IsWellTyped(("rate_limits", key), v) <==> RateLimitsRule(key, v)
  {
  }

  /** What may be patched, and with which values. */
  ghost predicate MayBeSet(k: Key, v: Value) {
    || (k.0 == "server" && ServerRule(k.1, v))
    || (k.0 == "tempmail" && TempmailRule(k.1, v))
    || (k.0 == "validation" && ValidationRule(k.1, v))
    || (k.0 == "cors" && CorsRule(k.1, v))
    || (k.0 == "database" && DatabaseRule(k.1, v))
    || (k.0 == "admin" && AdminRule(k.1, v))
    || (k.0 == "tls" && TlsRule(k.1, v))
    || (k.0 == "web" && WebRule(k.1, v))
    || (k.0 == "rate_limits" && RateLimitsRule(k.1, v))
  }

  lemma SectionIsAllowed(k: Key, v: Value)
    requires IsWellTyped(k, v)
    ensures k.0 in {"server", "tempmail", "validation", "cors", "database", "admin", "tls", "web", "rate_limits"}
  {
  }

  /** A value passes the checks on its own iff its key may be patched and it is of the right kind. */
  lemma RulesKeyByKey(k: Key, v: Value)
    ensures IsWellTyped(k, v) <==> MayBeSet(k, v)
  {
    if IsWellTyped(k, v) {
      SectionIsAllowed(k, v);
    }
    ServerRuleHolds(k.1, v);
    TempmailRuleHolds(k.1, v);
    ValidationRuleHolds(k.1, v);
    CorsRuleHolds(k.1, v);
    DatabaseRuleHolds(k.1, v);
    AdminRuleHolds(k.1, v);
    TlsRuleHolds(k.1, v);
    WebRuleHolds(k.1, v);
    RateLimitsRuleHolds(k.1, v);
  }

  /** What is stored: host names trimmed and in lower case, anything else as it is. */
  lemma StoredValue(k: Key, v: Value)
    ensures k in {("server", "hostname"), ("web", "hostname")} && v.Str? ==> Normalized(k, v) == Str(ToLower(Strip(v.s)))
    ensures k !in {("server", "hostname"), ("web", "hostname")} || !v.Str? ==> Normalized(k, v) == v
  {
  }

  // ------------------------------------------------------- what is written, exactly

  lemma {:induction false} WritesExactly(c: Config, changed: set<Key>, edits: seq<Edit>, k: Key)
    requires ApplyEdits(c, changed, edits).Ok? && DistinctKeys(edits)
    ensures var c' := ApplyEdits(c, changed, edits).config;
      && (forall v :: Set(k, v) in edits ==> IsAllowed(k) && Lookup(c', k) == Some(Normalized(k, v)))
      && (!Sets(edits, k) ==> Lookup(c', k) == Lookup(c, k))
    decreases |edits|
  {
    if edits != [] {
      FirstEdit(c, changed, edits);
      var k0, stored := edits[0].key, Normalized(edits[0].key, edits[0].value);
      var changed' := if PyEq(Get(c, k0, Null), stored) then changed else changed + {k0};
      WritesExactly(Put(c, k0, stored), changed', edits[1..], k);
      PutLooksUp(c, k0, stored, k);
      SplitMembership(edits, k);
    }
  }

  lemma SplitMembership(edits: seq<Edit>, k: Key)
    requires edits != [] && edits[0].Set? && DistinctKeys(edits)
    ensures forall v :: Set(k, v) in edits <==> edits[0] == Set(k, v) || Set(k, v) in edits[1..]
    ensures Sets(edits, k) <==> edits[0].key == k || Sets(edits[1..], k)
    ensures edits[0].key == k ==> !Sets(edits[1..], k)
    ensures DistinctKeys(edits[1..])
  {
    assert edits == [edits[0]] + edits[1..];
    assert edits[0] == Set(edits[0].key, edits[0].value);
  }

  /** Sections nobody set are the very same values; the others are dictionaries afterwards. */
  lemma {:induction false} SectionsWritten(c: Config, changed: set<Key>, edits: seq<Edit>, section: string)
    requires ApplyEdits(c, changed, edits).Ok?
    ensures var c' := ApplyEdits(c, changed, edits).config;
      if SetsSection(edits, section) then section in c' && c'[section].Dict?
      else (section in c' <==> section in c) && (section in c ==> c'[section] == c[section])
    decreases |edits|
  {
    if edits != [] {
      FirstEdit(c, changed, edits);
      var k0, stored := edits[0].key, Normalized(edits[0].key, edits[0].value);
      var changed' := if PyEq(Get(c, k0, Null), stored) then changed else changed + {k0};
      SectionsWritten(Put(c, k0, stored), changed', edits[1..], section);
      assert edits == [edits[0]] + edits[1..];
      assert edits[0] in edits;
    }
  }

  lemma {:induction false} ReportsChanges(c: Config, changed: set<Key>, edits: seq<Edit>, k: Key)
    requires ApplyEdits(c, changed, edits).Ok? && DistinctKeys(edits)
    ensures var r := ApplyEdits(c, changed, edits);
      k in r.changed <==> k in changed || (Sets(edits, k) && !PyEq(Get(c, k, Null), Get(r.config, k, Null)))
    decreases |edits|
  {
    if edits != [] {
      FirstEdit(c, changed, edits);
      var k0, stored := edits[0].key, Normalized(edits[0].key, edits[0].value);
      var c1, changed1 := Put(c, k0, stored), if PyEq(Get(c, k0, Null), stored) then changed else changed + {k0};
      SplitMembership(edits, k);
      ReportsChanges(c1, changed1, edits[1..], k);
      WritesExactly(c1, changed1, edits[1..], k);
      PutLooksUp(c, k0, stored, k);
    }
  }

  // ---------------------------------------------------------- cross-key invariants

  /** Both bounds are numbers (missing ones count as 3 and 64) and in order. */
  ghost predicate BoundsInOrder(c: Config) {
    && Section(c, "tempmail").Some?
    && var (lo, hi) := (Numeric(Get(c, MIN_LENGTH, Int(3))), Numeric(Get(c, MAX_LENGTH, Int(64))));
       lo.Some? && hi.Some? && lo.value <= hi.value
  }

  lemma PutKeepsBounds(c: Config, k: Key, v: Value)
    requires IsWellTyped(k, v) && CheckBounds(c, k, v) == Fine && Section(c, k.0).Some?
    ensures k == MIN_LENGTH || k == MAX_LENGTH ==> BoundsInOrder(Put(c, k, Normalized(k, v)))
    ensures k != MIN_LENGTH && k != MAX_LENGTH && BoundsInOrder(c) ==> BoundsInOrder(Put(c, k, Normalized(k, v)))
  {
    assert MIN_LENGTH.1[1] != MAX_LENGTH.1[1];
    PutLooksUp(c, k, Normalized(k, v), MIN_LENGTH);
    PutLooksUp(c, k, Normalized(k, v), MAX_LENGTH);
  }

  lemma FirstOrLater(edits: seq<Edit>, k: Key)
    requires edits != [] && edits[0].Set? && Sets(edits, k)
    ensures edits[0].key == k || Sets(edits[1..], k)
  {
    assert edits == [edits[0]] + edits[1..];
  }

  lemma {:induction false} BoundsKept(c: Config, changed: set<Key>, edits: seq<Edit>)
    requires ApplyEdits(c, changed, edits).Ok?
    requires BoundsInOrder(c) || Sets(edits, MIN_LENGTH) || Sets(edits, MAX_LENGTH)
    ensures BoundsInOrder(ApplyEdits(c, changed, edits).config)
    decreases |edits|
  {
    if edits != [] {
      FirstEdit(c, changed, edits);
      var k0, stored := edits[0].key, Normalized(edits[0].key, edits[0].value);
      PutKeepsBounds(c, k0, edits[0].value);
      assert BoundsInOrder(Put(c, k0, stored)) || Sets(edits[1..], MIN_LENGTH) || Sets(edits[1..], MAX_LENGTH) by {
        if Sets(edits, MIN_LENGTH) {
          FirstOrLater(edits, MIN_LENGTH);
        }
        if Sets(edits, MAX_LENGTH) {
          FirstOrLater(edits, MAX_LENGTH);
        }
      }
      BoundsKept(Put(c, k0, stored), if PyEq(Get(c, k0, Null), stored) then changed else changed + {k0}, edits[1..]);
    }
  }

  /** Restricted panel access never goes without a panel host name. */
  ghost predicate PanelIsReachable(c: Config) {
    Get(c, ("web", "allow_ip_access"), Null) == Bool(false) ==>
      var hostname := Get(c, WEB_HOSTNAME, Null); hostname.Str? && Strip(hostname.s) != ""
  }

  /**
   Main result. A successful patch stores exactly its own, whitelisted, keys and leaves
   all others alone; reports exactly the keys whose value differs afterwards; keeps the
   username bounds in order whenever it touches one; and never locks the panel away.
   */
  lemma SuccessfulPatch(c: Config, edits: seq<Edit>)
    requires Apply(c, edits).Ok? && DistinctKeys(edits)
    ensures var r := Apply(c, edits);
      && (forall k, v :: Set(k, v) in edits ==> IsAllowed(k) && Lookup(r.config, k) == Some(Normalized(k, v)))
      && (forall k :: !Sets(edits, k) ==> Lookup(r.config, k) == Lookup(c, k))
      && (forall k :: k in r.changed <==> !PyEq(Get(c, k, Null), Get(r.config, k, Null)))
      && (Sets(edits, MIN_LENGTH) || Sets(edits, MAX_LENGTH) || BoundsInOrder(c) ==> BoundsInOrder(r.config))
      && PanelIsReachable(r.config)
  {
    var r := ApplyEdits(c, {}, edits);
    forall k, v | Set(k, v) in edits ensures IsAllowed(k) && Lookup(r.config, k) == Some(Normalized(k, v)) {
      WritesExactly(c, {}, edits, k);
    }
    forall k
      ensures !Sets(edits, k) ==> Lookup(r.config, k) == Lookup(c, k)
      ensures k in r.changed <==> !PyEq(Get(c, k, Null), Get(r.config, k, Null))
    {
      WritesExactly(c, {}, edits, k);
      ReportsChanges(c, {}, edits, k);
      PyEqReflexive(Get(c, k, Null));
    }
    if Sets(edits, MIN_LENGTH) || Sets(edits, MAX_LENGTH) || BoundsInOrder(c) {
      BoundsKept(c, {}, edits);
    }
  }

  // ------------------------------------------------------- repetition and reordering

  /** An edit whose value is already in place and whose checks pass changes nothing. */
  ghost predicate IsSettled(c: Config, e: Edit) {
    && e.Set? && IsWellTyped(e.key, e.value) && Lookup(c, e.key) == Some(Normalized(e.key, e.value))
    && (e.key == MIN_LENGTH || e.key == MAX_LENGTH ==> BoundsInOrder(c))
  }

  lemma SettledEditIsNoOp(c: Config, e: Edit)
    requires IsSettled(c, e)
    ensures ApplyEdit(c, {}, e) == Ok(c, {})
  {
    var k, stored := e.key, Normalized(e.key, e.value);
    assert MIN_LENGTH.1[1] != MAX_LENGTH.1[1];
    PyEqReflexive(stored);
    var m := Section(c, k.0).value;
    assert m[k.1 := stored] == m;
    assert c[k.0 := c[k.0]] == c;
  }

  lemma {:induction false} SettledEditsAreNoOps(c: Config, edits: seq<Edit>)
    requires forall e :: e in edits ==> IsSettled(c, e)
    ensures ApplyEdits(c, {}, edits) == Ok(c, {})
    decreases |edits|
  {
    if edits != [] {
      SettledEditIsNoOp(c, edits[0]);
      SettledEditsAreNoOps(c, edits[1..]);
    }
  }

  lemma {:induction false} AppliedEditsAreWellTyped(c: Config, changed: set<Key>, edits: seq<Edit>)
    requires ApplyEdits(c, changed, edits).Ok?
    ensures forall e :: e in edits ==> e.Set? && IsWellTyped(e.key, e.value)
    decreases |edits|
  {
    if edits != [] {
      FirstEdit(c, changed, edits);
      var k0, stored := edits[0].key, Normalized(edits[0].key, edits[0].value);
      AppliedEditsAreWellTyped(Put(c, k0, stored), if PyEq(Get(c, k0, Null), stored) then changed else changed + {k0}, edits[1..]);
      assert edits == [edits[0]] + edits[1..];
    }
  }

  /** Sending a patch that succeeded once more succeeds and changes nothing. */
  lemma PatchIsIdempotent(c: Config, edits: seq<Edit>)
    requires Apply(c, edits).Ok? && DistinctKeys(edits)
    ensures Apply(Apply(c, edits).config, edits) == Ok(Apply(c, edits).config, {})
  {
    var c' := Apply(c, edits).config;
    AppliedEditsAreWellTyped(c, {}, edits);
    forall e | e in edits ensures IsSettled(c', e) {
      assert e == Set(e.key, e.value);
      WritesExactly(c, {}, edits, e.key);
      if e.key == MIN_LENGTH || e.key == MAX_LENGTH {
        assert Sets(edits, e.key);
        BoundsKept(c, {}, edits);
      }
    }
    SettledEditsAreNoOps(c', edits);
  }

  /** Two key orders of one patch that both succeed give the same configuration and report. */
  lemma KeyOrderDoesNotMatter(c: Config, edits: seq<Edit>, edits': seq<Edit>)
    requires Apply(c, edits).Ok? && Apply(c, edits').Ok?
    requires DistinctKeys(edits) && DistinctKeys(edits')
    requires forall e :: e in edits <==> e in edits'
    ensures Apply(c, edits) == Apply(c, edits')
  {
    var r, r' := Apply(c, edits), Apply(c, edits');
    forall k ensures Lookup(r.config, k) == Lookup(r'.config, k) {
      WritesExactly(c, {}, edits, k);
      WritesExactly(c, {}, edits', k);
      if v :| Set(k, v) in edits {
        assert Set(k, v) in edits';
      }
    }
    forall section
      ensures section in r.config <==> section in r'.config
      ensures section in r.config ==> r.config[section] == r'.config[section]
    {
      SectionsWritten(c, {}, edits, section);
      SectionsWritten(c, {}, edits', section);
      if SetsSection(edits, section) {
        SameDictionary(r.config, r'.config, section);
      }
    }
    assert r.config == r'.config;
    SuccessfulPatch(c, edits);
    SuccessfulPatch(c, edits');
    assert forall k :: k in r.changed <==> k in r'.changed;
  }

  lemma SameDictionary(c: Config, c': Config, section: string)
    requires section in c && section in c' && c[section].Dict? && c'[section].Dict?
    requires forall k: Key :: Lookup(c, k) == Lookup(c', k)
    ensures c[section] == c'[section]
  {
    forall key: string
      ensures key in c[section].entries <==> key in c'[section].entries
      ensures key in c[section].entries ==> c[section].entries[key] == c'[section].entries[key]
    {
      assert Lookup(c, (section, key)) == Lookup(c', (section, key));
    }
    assert c[section].entries == c'[section].entries;
  }

  // --------------------------------------------------- when a patch goes through

  /** The edit is well typed and its section, if stored already, is a mapping. */
  ghost predicate IsEditable(c: Config, e: Edit) {
    e.Set? && IsWellTyped(e.key, e.value) && Section(c, e.key.0).Some?
  }

  /** The new minimum `v` fits: under the maximum that the patch set before, else under the stored one. */
  ghost predicate MinFits(c: Config, before: seq<Edit>, v: int) {
    && (forall max: int :: Set(MAX_LENGTH, Int(max)) in before ==> v <= max)
    && (!Sets(before, MAX_LENGTH) ==> var hi := Numeric(Get(c, MAX_LENGTH, Int(64))); hi.Some? && v as real <= hi.value)
  }

  /** And the new maximum `v`: not below the minimum set before, else not below the stored one. */
  ghost predicate MaxFits(c: Config, before: seq<Edit>, v: int) {
    && (forall min: int :: Set(MIN_LENGTH, Int(min)) in before ==> min <= v)
    && (!Sets(before, MIN_LENGTH) ==> var lo := Numeric(Get(c, MIN_LENGTH, Int(3))); lo.Some? && lo.value <= v as real)
  }

  ghost predicate BoundFits(c: Config, before: seq<Edit>, e: Edit) {
    && (forall v: int :: e == Set(MIN_LENGTH, Int(v)) ==> MinFits(c, before, v))
    && (forall v: int :: e == Set(MAX_LENGTH, Int(v)) ==> MaxFits(c, before, v))
  }

  lemma LengthIsWellTyped(k: Key, v: Value)
    requires k == MIN_LENGTH || k == MAX_LENGTH
    ensures IsWellTyped(k, v) <==> v.Int? && v.i >= 1
    ensures Normalized(k, v) == v
  {
  }

  lemma {:induction false} SectionsStay(c: Config, changed: set<Key>, edits: seq<Edit>, section: string)
    requires ApplyEdits(c, changed, edits).Ok?
    ensures Section(ApplyEdits(c, changed, edits).config, section).Some? <==> Section(c, section).Some?
    decreases |edits|
  {
    if edits != [] {
      FirstEdit(c, changed, edits);
      var k0, stored := edits[0].key, Normalized(edits[0].key, edits[0].value);
      SectionsStay(Put(c, k0, stored), if PyEq(Get(c, k0, Null), stored) then changed else changed + {k0}, edits[1..], section);
    }
  }

  /** The partner bound as the check of a later edit sees it. */
  lemma PartnerSeen(c: Config, before: seq<Edit>, p: Key, default: Value)
    requires ApplyEdits(c, {}, before).Ok? && DistinctKeys(before) && (p == MIN_LENGTH || p == MAX_LENGTH)
    ensures var c' := ApplyEdits(c, {}, before).config;
      && (forall v :: Set(p, v) in before ==> v.Int? && Get(c', p, default) == v)
      && (!Sets(before, p) ==> Get(c', p, default) == Get(c, p, default))
  {
    var c' := ApplyEdits(c, {}, before).config;
    WritesExactly(c, {}, before, p);
    AppliedEditsAreWellTyped(c, {}, before);
    GetIsLookup(c, p, default);
    GetIsLookup(c', p, default);
    forall v | Set(p, v) in before ensures v.Int? && Get(c', p, default) == v {
      assert IsWellTyped(Set(p, v).key, Set(p, v).value);
      LengthIsWellTyped(p, v);
    }
  }

  lemma MinCheckedIff(c: Config, before: seq<Edit>, v: int)
    requires ApplyEdits(c, {}, before).Ok? && DistinctKeys(before) && v >= 1 && Section(c, "tempmail").Some?
    requires IsWellTyped(MIN_LENGTH, Int(v))
    ensures CheckBounds(ApplyEdits(c, {}, before).config, MIN_LENGTH, Int(v)) == Fine <==> MinFits(c, before, v)
  {
    PartnerSeen(c, before, MAX_LENGTH, Int(64));
    SectionsStay(c, {}, before, "tempmail");
    if Sets(before, MAX_LENGTH) {
      var max :| Set(MAX_LENGTH, max) in before;
      assert max == Int(max.i);
    }
  }

  lemma MaxCheckedIff(c: Config, before: seq<Edit>, v: int)
    requires ApplyEdits(c, {}, before).Ok? && DistinctKeys(before) && v >= 1 && Section(c, "tempmail").Some?
    requires IsWellTyped(MAX_LENGTH, Int(v))
    ensures CheckBounds(ApplyEdits(c, {}, before).config, MAX_LENGTH, Int(v)) == Fine <==> MaxFits(c, before, v)
  {
    PartnerSeen(c, before, MIN_LENGTH, Int(3));
    SectionsStay(c, {}, before, "tempmail");
    if Sets(before, MIN_LENGTH) {
      var min :| Set(MIN_LENGTH, min) in before;
      assert min == Int(min.i);
    }
  }

  /** One edit after others that went through. */
  lemma LastEditPassesIff(c: Config, before: seq<Edit>, e: Edit)
    requires ApplyEdits(c, {}, before).Ok? && DistinctKeys(before)
    ensures var r := ApplyEdits(c, {}, before);
      ApplyEdit(r.config, r.changed, e).Ok? <==> IsEditable(c, e) && BoundFits(c, before, e)
  {
    if IsEditable(c, e) {
      SectionsStay(c, {}, before, e.key.0);
      if e.key == MIN_LENGTH {
        LengthIsWellTyped(MIN_LENGTH, e.value);
        MinCheckedIff(c, before, e.value.i);
      } else if e.key == MAX_LENGTH {
        LengthIsWellTyped(MAX_LENGTH, e.value);
        MaxCheckedIff(c, before, e.value.i);
      }
    } else if e.Set? {
      SectionsStay(c, {}, before, e.key.0);
    }
  }

  /**
   A patch goes through iff each of its keys is whitelisted with a well-typed value in a
   section that is a mapping, and each new username bound fits against its partner: the
   one that the patch has set before it, otherwise the stored one.
   */
  lemma {:induction false} PatchPassesIff(c: Config, edits: seq<Edit>)
    requires DistinctKeys(edits)
    ensures ApplyEdits(c, {}, edits).Ok? <==>
            forall i :: 0 <= i < |edits| ==> IsEditable(c, edits[i]) && BoundFits(c, edits[..i], edits[i])
    decreases |edits|
  {
    if edits != [] {
      var n := |edits| - 1;
      var front, last := edits[..n], edits[n];
      assert edits == front + [last];
      ApplyInTurn(c, {}, front, [last]);
      PatchPassesIff(c, front);
      assert forall i :: 0 <= i < n ==> front[..i] == edits[..i];
      if ApplyEdits(c, {}, front).Ok? {
        var r := ApplyEdits(c, {}, front);
        LastEditPassesIff(c, front, last);
        OneEdit(r.config, r.changed, last);
      }
    }
  }

  lemma OneEdit(c: Config, changed: set<Key>, e: Edit)
    ensures ApplyEdits(c, changed, [e]) == ApplyEdit(c, changed, e)
  {
    assert [e][1..] == [];
  }

  lemma PanelFineIff(c: Config)
    ensures CheckPanel(c) == Fine <==> Section(c, "web").Some? && PanelIsReachable(c)
  {
    GetIsLookup(c, ("web", "allow_ip_access"), Null);
  }

  /** The value that key `k` has after the patch: the patch's own, else the stored one. */
  ghost predicate EndsAs(c: Config, edits: seq<Edit>, k: Key, v: Value) {
    (exists u :: Set(k, u) in edits && Normalized(k, u) == v) || (!Sets(edits, k) && Get(c, k, Null) == v)
  }

  lemma EndsAsStored(c: Config, edits: seq<Edit>, k: Key, v: Value)
    requires DistinctKeys(edits) && ApplyEdits(c, {}, edits).Ok?
    ensures EndsAs(c, edits, k, v) <==> Get(ApplyEdits(c, {}, edits).config, k, Null) == v
  {
    WritesExactly(c, {}, edits, k);
    GetIsLookup(c, k, Null);
    GetIsLookup(ApplyEdits(c, {}, edits).config, k, Null);
  }

  /** Access is left open, or a panel host name is there in the end. */
  ghost predicate PanelStaysReachable(c: Config, edits: seq<Edit>) {
    EndsAs(c, edits, ("web", "allow_ip_access"), Bool(false)) ==>
      exists h: string :: EndsAs(c, edits, WEB_HOSTNAME, Str(h)) && Strip(h) != ""
  }

  lemma PanelStaysReachableIff(c: Config, edits: seq<Edit>)
    requires DistinctKeys(edits) && ApplyEdits(c, {}, edits).Ok?
    ensures PanelStaysReachable(c, edits) <==> PanelIsReachable(ApplyEdits(c, {}, edits).config)
  {
    var hostname := Get(ApplyEdits(c, {}, edits).config, WEB_HOSTNAME, Null);
    EndsAsStored(c, edits, ("web", "allow_ip_access"), Bool(false));
    forall h: string ensures EndsAs(c, edits, WEB_HOSTNAME, Str(h)) <==> hostname == Str(h) {
      EndsAsStored(c, edits, WEB_HOSTNAME, Str(h));
    }
    if hostname.Str? {
      assert hostname == Str(hostname.s);
    }
  }

  /** And apply_patch as a whole succeeds iff in addition the panel stays reachable. */
  lemma PatchSucceedsIff(c: Config, edits: seq<Edit>)
    requires DistinctKeys(edits)
    ensures Apply(c, edits).Ok? <==>
      && (forall i :: 0 <= i < |edits| ==> IsEditable(c, edits[i]) && BoundFits(c, edits[..i], edits[i]))
      && Section(c, "web").Some? && PanelStaysReachable(c, edits)
  {
    PatchPassesIff(c, edits);
    if ApplyEdits(c, {}, edits).Ok? {
      SectionsStay(c, {}, edits, "web");
      PanelFineIff(ApplyEdits(c, {}, edits).config);
      PanelStaysReachableIff(c, edits);
    }
  }

  /** A patch whose edits `i` and `j` set the two bounds. */
  ghost predicate SetsBounds(c: Config, edits: seq<Edit>, i: nat, j: nat, min: int, max: int) {
    && DistinctKeys(edits) && (forall e :: e in edits ==> IsEditable(c, e)) && BoundsInOrder(c)
    && i < |edits| && j < |edits| && edits[i] == Set(MIN_LENGTH, Int(min)) && edits[j] == Set(MAX_LENGTH, Int(max))
  }

  lemma BoundsFitInOrder(c: Config, edits: seq<Edit>, i: nat, j: nat, min: int, max: int)
    requires SetsBounds(c, edits, i, j, min, max)
    ensures MinFits(c, edits[..i], min) <==> if j < i then min <= max else min as real <= Numeric(Get(c, MAX_LENGTH, Int(64))).value
    ensures MaxFits(c, edits[..j], max) <==> if i < j then min <= max else Numeric(Get(c, MIN_LENGTH, Int(3))).value <= max as real
  {
    if j < i {
      assert edits[..i][j] == Set(MAX_LENGTH, Int(max));
    }
    if i < j {
      assert edits[..j][i] == Set(MIN_LENGTH, Int(min));
    }
  }

  /**
   Whether new username bounds are accepted depends on their order in the patch, whatever
   else it sets: the minimum first needs it to fit under the stored maximum, the maximum
   first over the stored minimum, and they must be in order themselves.
   */
  lemma BoundsOrderMatters(c: Config, edits: seq<Edit>, i: nat, j: nat, min: int, max: int)
    requires SetsBounds(c, edits, i, j, min, max)
    ensures var (lo, hi) := (Numeric(Get(c, MIN_LENGTH, Int(3))).value, Numeric(Get(c, MAX_LENGTH, Int(64))).value);
      ApplyEdits(c, {}, edits).Ok? <==> min <= max && if i < j then min as real <= hi else lo <= max as real
  {
    PatchPassesIff(c, edits);
    BoundsFitInOrder(c, edits, i, j, min, max);
    forall k | 0 <= k < |edits| ensures BoundFits(c, edits[..k], edits[k]) <==>
      (k == i ==> MinFits(c, edits[..i], min)) && (k == j ==> MaxFits(c, edits[..j], max))
    {
      OnlyBoundsAreChecked(c, edits, i, j, min, max, k);
    }
  }

  lemma OnlyBoundsAreChecked(c: Config, edits: seq<Edit>, i: nat, j: nat, min: int, max: int, k: nat)
    requires SetsBounds(c, edits, i, j, min, max) && k < |edits|
    ensures BoundFits(c, edits[..k], edits[k]) <==>
      (k == i ==> MinFits(c, edits[..i], min)) && (k == j ==> MaxFits(c, edits[..j], max))
  {
    assert MIN_LENGTH.1[1] != MAX_LENGTH.1[1];
  }

  /** The same patch with its two bounds exchanged. */
  function Exchanged(edits: seq<Edit>, i: nat, j: nat): seq<Edit>
    requires i < |edits| && j < |edits|
  {
    edits[i := edits[j]][j := edits[i]]
  }

  /** New bounds that are in order always pass in at least one of the two orders. */
  lemma OneOrderPasses(c: Config, edits: seq<Edit>, i: nat, j: nat, min: int, max: int)
    requires SetsBounds(c, edits, i, j, min, max) && min <= max
    ensures ApplyEdits(c, {}, edits).Ok? || ApplyEdits(c, {}, Exchanged(edits, i, j)).Ok?
  {
    assert SetsBounds(c, Exchanged(edits, i, j), j, i, min, max) by {
      assert MIN_LENGTH.1[1] != MAX_LENGTH.1[1];
      forall e | e in Exchanged(edits, i, j) ensures e in edits {
      }
    }
    BoundsOrderMatters(c, edits, i, j, min, max);
    BoundsOrderMatters(c, Exchanged(edits, i, j), j, i, min, max);
  }
}
