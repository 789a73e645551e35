/**
 config.yaml on disk (read_config and write_config in api/app/runtime_config.py): the file
 is rewritten in place, with a copy of its previous content kept beside it, and a crash
 may stop the rewriting after any character.
 */
module ConfigFile {
  import opened Wrappers
  import opened ConfigValues

  /** The two files; None is a missing file. */
  datatype Files = Files(main: Option<string>, backup: Option<string>)

  /** yaml.safe_load (None for a YAML error) and yaml.safe_dump. */
  datatype Yaml = Yaml(parse: string -> Option<Value>, dump: Value -> string)

  /** A non-empty mapping: the only content that counts as a configuration. */
  predicate IsConfig(v: Option<Value>) {
    v.Some? && v.value.Dict? && v.value.entries != map[]
  }

  function Parse(y: Yaml, file: Option<string>): Option<Value> {
    if file.Some? then y.parse(file.value) else None
  }

  /** read_config. The last case falls off the end of the function, which yields None in Python. */
  function Read(y: Yaml, f: Files): Value {
    if IsConfig(Parse(y, f.main)) then Parse(y, f.main).value
    else match Parse(y, f.backup)
      case None => Dict(map[])
      case Some(v) => if IsConfig(Some(v)) then v else Null
  }

  /** The backup after the copy: an empty or missing file is not worth one. */
  function Backup(f: Files): Option<string> {
    if f.main.Some? && f.main.value != "" then f.main else f.backup
  }

  function Written(y: Yaml, f: Files, config: Value): Files {
    Files(Some(y.dump(config)), Backup(f))
  }

  predicate StartsWith(text: string, p: string) { p <= text }

  /** One file holds a beginning of `text` while the other is as given. */
  ghost predicate IsTorn(file: Option<string>, text: string, other: Option<string>, given: Option<string>) {
    file.Some? && StartsWith(text, file.value) && other == given
  }

  /**
   The states of the disk between the start and the end of a write: nothing done yet, the
   backup copied in part, or the new text written in part.
   */
  ghost predicate MayBeLeft(y: Yaml, f: Files, config: Value, left: Files) {
    || left == f
    || (f.main.Some? && f.main.value != "" && IsTorn(left.backup, f.main.value, left.main, f.main))
    || IsTorn(left.main, y.dump(config), left.backup, Backup(f))
  }

  class Disk {
    var files: Files

    /** Everything the disk has contained since the object was made. */
    ghost var seen: set<Files>

    constructor (f: Files)
      ensures files == f && seen == {f}
    {
      files := f;
      seen := {f};
    }

    method SetMain(text: string)
      modifies this
      ensures files == old(files).(main := Some(text)) && seen == old(seen) + {files}
    {
      files := files.(main := Some(text));
      seen := seen + {files};
    }

    method SetBackup(text: string)
      modifies this
      ensures files == old(files).(backup := Some(text)) && seen == old(seen) + {files}
    {
      files := files.(backup := Some(text));
      seen := seen + {files};
    }

    /**
     write_config: copy the old content, truncate, then write character by character. The
     disk goes through exactly the states that MayBeLeft describes.
     */
    method WriteConfig(y: Yaml, config: Value)
      requires files in seen
      modifies this
      ensures files == Written(y, old(files), config) && files in seen
      ensures files.main == Some(y.dump(config))
      ensures if old(files).main.Some? && |old(files).main.value| > 0 then files.backup == old(files).main
              else files.backup == old(files).backup
      ensures forall f :: f in seen <==> f in old(seen) || MayBeLeft(y, old(files), config, f)
    {
      ghost var start := files;
      if files.main.Some? && files.main.value != "" {
        CopyToBackup();
      }
      assert files.main == start.main && files.backup == Backup(start);
      ghost var copied := seen;
      var text := y.dump(config);
      SetMain("");
      var i := 0;
      while i < |text|
        invariant 0 <= i <= |text| && files == Files(Some(text[..i]), Backup(start)) && files in seen
        invariant forall f :: f in seen <==> f in copied || IsTorn(f.main, text[..i], f.backup, Backup(start))
      {
        i := i + 1;
        SetMain(text[..i]);
        OneMoreCharacter(text, i - 1);
      }
      assert text[..i] == text;
    }

    method CopyToBackup()
      requires files in seen && files.main.Some? && files.main.value != ""
      modifies this
      ensures files == old(files).(backup := old(files).main) && files in seen
      ensures forall f :: f in seen <==> f in old(seen) || IsTorn(f.backup, files.main.value, f.main, files.main)
    {
      var text := files.main.value;
      SetBackup("");
      var i := 0;
      while i < |text|
        invariant 0 <= i <= |text| && files == old(files).(backup := Some(text[..i])) && files in seen
        invariant forall f :: f in seen <==> f in old(seen) || IsTorn(f.backup, text[..i], f.main, files.main)
      {
        i := i + 1;
        SetBackup(text[..i]);
        OneMoreCharacter(text, i - 1);
      }
      assert text[..i] == text;
    }

    method ReadConfig(y: Yaml) returns (v: Value)
      ensures v == Read(y, files)
    {
      var main := Parse(y, files.main);
      if IsConfig(main) {
        return main.value;
      }
      var backup := Parse(y, files.backup);
      if backup.None? {
        return Dict(map[]);
      }
      return if IsConfig(backup) then backup.value else Null;
    }
  }

  /** A text that safe_load turns into a mapping with at least one key. */
  ghost predicate IsReadable(y: Yaml, file: Option<string>, v: Value) {
    file.Some? && y.parse(file.value) == Some(v) && v.Dict? && v.entries.Keys != {}
  }

  /** What is read: the main file if it is readable, else the backup, else an empty mapping or None. */
  lemma ReadIs(y: Yaml, f: Files, v: Value)
    ensures IsReadable(y, f.main, v) ==> Read(y, f) == v
    ensures (forall u :: !IsReadable(y, f.main, u)) && IsReadable(y, f.backup, v) ==> Read(y, f) == v
    ensures (forall u :: !IsReadable(y, f.main, u) && !IsReadable(y, f.backup, u)) ==>
      Read(y, f) == if f.backup.Some? && y.parse(f.backup.value).Some? then Null else Dict(map[])
  {
    if IsConfig(Parse(y, f.main)) {
      NonEmptyHasKeys(Parse(y, f.main).value.entries);
      assert IsReadable(y, f.main, Parse(y, f.main).value);
    }
    if IsConfig(Parse(y, f.backup)) {
      NonEmptyHasKeys(Parse(y, f.backup).value.entries);
      assert IsReadable(y, f.backup, Parse(y, f.backup).value);
    }
  }

  lemma NonEmptyHasKeys(m: map<string, Value>)
    ensures m != map[] <==> m.Keys != {}
  {
    if m.Keys == {} {
      assert m == map[];
    }
  }

  lemma OneMoreCharacter(text: string, i: nat)
    requires i < |text|
    ensures forall p :: StartsWith(text[..i + 1], p) <==> StartsWith(text[..i], p) || p == text[..i + 1]
  {
    forall p | StartsWith(text[..i + 1], p) ensures StartsWith(text[..i], p) || p == text[..i + 1] {
      if |p| <= i {
        assert text[..i] == text[..i + 1][..i];
      }
    }
  }

  // ----------------------------------------------------------------- one crash

  /** A text that stops early does not read as a third configuration. */
  ghost predicate TearsHarmlessly(y: Yaml, before: Value, after: Value) {
    forall p :: p <= y.dump(after) && IsConfig(y.parse(p)) ==> y.parse(p).value == before || y.parse(p).value == after
  }

  /**
   Recovery from a single crash: with a good file to start from, every crash during a
   write leaves the old or the new configuration iff no beginning of the new text parses
   as some other non-empty mapping.
   */
  lemma CrashRecoversIffTextTearsHarmlessly(y: Yaml, f: Files, config: Value)
    requires IsConfig(Parse(y, f.main)) && f.main != Some("")
    ensures (forall left: Files :: MayBeLeft(y, f, config, left) ==> Read(y, left) == Read(y, f) || Read(y, left) == config) <==>
            TearsHarmlessly(y, Read(y, f), config)
  {
    var before := Read(y, f);
    if TearsHarmlessly(y, before, config) {
      forall left: Files | MayBeLeft(y, f, config, left) ensures Read(y, left) == before || Read(y, left) == config {
      }
    }
    if forall left: Files :: MayBeLeft(y, f, config, left) ==> Read(y, left) == before || Read(y, left) == config {
      forall p | p <= y.dump(config) && IsConfig(y.parse(p)) ensures y.parse(p).value == before || y.parse(p).value == config {
        assert MayBeLeft(y, f, config, Files(Some(p), Backup(f)));
      }
    }
  }

  /** Once the write is complete the new configuration is read, and the old one is the backup. */
  lemma CompletedWriteIsRead(y: Yaml, f: Files, config: Value)
    requires IsConfig(Some(config)) && y.parse(y.dump(config)) == Some(config)
    ensures Read(y, Written(y, f, config)) == config
    ensures IsConfig(Parse(y, f.main)) && f.main != Some("") ==>
      Parse(y, Written(y, f, config).backup) == Some(Read(y, f))
  {
  }

  /**
   A block-style YAML text of a mapping begins with the text of its first entries. When
   that shorter mapping is neither the old nor the new configuration, a crash can leave
   it to be read: the backup is never consulted.
   */
  lemma BlockTextTearsIntoAThirdConfiguration(y: Yaml, f: Files, part: Value, config: Value)
    requires IsConfig(Parse(y, f.main)) && f.main != Some("")
    requires IsConfig(Some(part)) && y.parse(y.dump(part)) == Some(part) && y.dump(part) <= y.dump(config)
    requires part != Read(y, f) && part != config
    ensures exists left :: MayBeLeft(y, f, config, left) && Read(y, left) == part
  {
    var left := Files(Some(y.dump(part)), Backup(f));
    assert MayBeLeft(y, f, config, left);
  }

  const SHORT: Value := Dict(map["a" := Int(1)])
  const LONG: Value := Dict(map["a" := Int(1), "b" := Int(2)])
  const OTHER: Value := Dict(map["c" := Int(3)])

  /** YAML, as far as three small block-style files are concerned. */
  function SmallYaml(): Yaml {
    Yaml(
      text => if text == "a: 1\n" then Some(SHORT) else if text == "a: 1\nb: 2\n" then Some(LONG)
              else if text == "c: 3\n" then Some(OTHER) else None,
      v => if v == SHORT then "a: 1\n" else if v == LONG then "a: 1\nb: 2\n" else "c: 3\n")
  }

  /** A concrete instance: the text of {a: 1, b: 2}, torn after its first line, reads as {a: 1}. */
  lemma TornTwoLineFile()
    ensures exists left :: MayBeLeft(SmallYaml(), Files(Some("c: 3\n"), None), LONG, left) && Read(SmallYaml(), left) == SHORT
    ensures Read(SmallYaml(), Files(Some("c: 3\n"), None)) == OTHER
  {
    assert "a" in SHORT.entries && "b" in LONG.entries && "c" in OTHER.entries && "b" !in SHORT.entries && "a" !in OTHER.entries;
    assert "a: 1\n" == "a: 1\nb: 2\n"[..5];
    assert "c: 3\n"[0] == 'c' && "a: 1\n"[0] == 'a' && "a: 1\nb: 2\n"[0] == 'a';
    BlockTextTearsIntoAThirdConfiguration(SmallYaml(), Files(Some("c: 3\n"), None), SHORT, LONG);
  }

  // ---------------------------------------------------------------- two crashes

  /** An empty text is no configuration; safe_load returns None for it. */
  ghost predicate EmptyIsNoConfig(y: Yaml) { !IsConfig(y.parse("")) }

  /** The main file is a configuration, empty or missing: anything but torn. */
  predicate IsMainIntact(y: Yaml, f: Files) {
    f.main.None? || f.main == Some("") || IsConfig(Parse(y, f.main))
  }

  /**
   Which disks may be written to: as long as a configuration can be read, a crash during a
   write always leaves one to be read iff the main file is not a torn one. A torn file gets
   copied over the backup that is being read.
   */
  lemma WriteIsSafeIffMainIsIntact(y: Yaml, f: Files, config: Value)
    requires EmptyIsNoConfig(y) && IsConfig(Some(Read(y, f)))
    ensures (forall left: Files :: MayBeLeft(y, f, config, left) ==> IsConfig(Some(Read(y, left)))) <==> IsMainIntact(y, f)
  {
    if IsMainIntact(y, f) {
      forall left: Files | MayBeLeft(y, f, config, left) ensures IsConfig(Some(Read(y, left))) {
      }
    } else {
      var left := Files(f.main, Some(""));
      assert MayBeLeft(y, f, config, left) && !IsConfig(Some(Read(y, left)));
    }
  }

  /**
   Two crashes in a row: after a crash that tore a write to a good disk there is always
   something to read, and a crash during the next write is survived iff the file the first
   one left is not torn.
   */
  lemma SecondCrashSurvivedIff(y: Yaml, f: Files, first: Value, left1: Files, second: Value)
    requires EmptyIsNoConfig(y) && IsConfig(Parse(y, f.main)) && MayBeLeft(y, f, first, left1)
    ensures IsConfig(Some(Read(y, left1)))
    ensures (forall left2 :: MayBeLeft(y, left1, second, left2) ==> IsConfig(Some(Read(y, left2)))) <==>
            left1.main == Some("") || IsConfig(Parse(y, left1.main))
  {
    WriteIsSafeIffMainIsIntact(y, f, first);
    WriteIsSafeIffMainIsIntact(y, left1, second);
  }

  /** The failing run: the first crash leaves a torn file, whose copy then replaces the good backup. */
  lemma SecondCrashCanLoseEverything(y: Yaml, f: Files, first: Value, second: Value, torn: string)
    requires torn != "" && torn <= y.dump(first) && !IsConfig(y.parse(torn)) && EmptyIsNoConfig(y)
    ensures exists left1, left2 ::
      MayBeLeft(y, f, first, left1) && MayBeLeft(y, left1, second, left2) && !IsConfig(Some(Read(y, left2)))
  {
    var left1 := Files(Some(torn), Backup(f));
    var left2 := Files(Some(torn), Some(""));
    assert MayBeLeft(y, f, first, left1) && MayBeLeft(y, left1, second, left2);
  }

  /** A concrete instance: {c: 3} on disk, two torn writes of {a: 1}, and nothing left to read. */
  lemma TwoTornWrites()
    ensures var y, f := SmallYaml(), Files(Some("c: 3\n"), None);
      IsConfig(Some(Read(y, f))) && exists left1, left2 ::
        MayBeLeft(y, f, SHORT, left1) && MayBeLeft(y, left1, SHORT, left2) && !IsConfig(Some(Read(y, left2)))
  {
    assert "c" in OTHER.entries;
    assert |"a: 1"| != |"a: 1\n"| && "a: 1" == "a: 1\n"[..4];
    SecondCrashCanLoseEverything(SmallYaml(), Files(Some("c: 3\n"), None), SHORT, SHORT, "a: 1");
  }

  /** The window closes with the next completed write: from then on one crash is survived again, under the same condition. */
  lemma CompletedWriteRestoresProtection(y: Yaml, f: Files, config: Value, next: Value)
    requires IsConfig(Some(config)) && y.parse(y.dump(config)) == Some(config) && y.dump(config) != ""
    ensures (forall left: Files :: MayBeLeft(y, Written(y, f, config), next, left) ==> Read(y, left) == config || Read(y, left) == next) <==>
            TearsHarmlessly(y, config, next)
  {
    CompletedWriteIsRead(y, f, config);
    CrashRecoversIffTextTearsHarmlessly(y, Written(y, f, config), next);
  }
}
