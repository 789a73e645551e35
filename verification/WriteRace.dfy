/**
 The API rewrites config.yaml in place (api/app/runtime_config.py) while the MX server
 polls it (mx/reload.go): what ticks in the middle of a write put in force, and whether
 the first tick after it repairs that.
 */
module WriteRace {
  import opened Wrappers
  import opened Reload
  import opened ConfigValues
  import ConfigFile

  /** The file at moment k of a write: as it was, then each beginning of the new text in turn. */
  function During(before: Option<string>, after: string, k: nat): Option<string>
    requires k <= |after| + 1
  {
    if k == 0 then before else Some(after[..k - 1])
  }

  /** The moments at which a tick hashes and loads the file. */
  datatype TickAt = TickAt(atHash: nat, atLoad: nat)

  /** Ticks one after the other, none beyond the end of the write. */
  predicate IsSchedule(ticks: seq<TickAt>, after: string) {
    && (forall i :: 0 <= i < |ticks| ==> ticks[i].atHash <= ticks[i].atLoad <= |after| + 1)
    && forall i, j :: 0 <= i < j < |ticks| ==> ticks[i].atLoad <= ticks[j].atHash
  }

  /** The cell after those ticks. */
  function AfterTicks(env: Env, s: Cell, before: Option<string>, after: string, ticks: seq<TickAt>): Cell
    requires IsSchedule(ticks, after)
  {
    if ticks == [] then s
    else
      var last := ticks[|ticks| - 1];
      AfterReload(env, AfterTicks(env, s, before, after, ticks[..|ticks| - 1]),
                  During(before, after, last.atHash), During(before, after, last.atLoad)).0
  }

  /** During a write, the main file goes through exactly the moments. */
  lemma MomentsAreTheWritesOfTheApi(y: ConfigFile.Yaml, f: ConfigFile.Files, config: Value, main: Option<string>)
    ensures (exists left: ConfigFile.Files :: ConfigFile.MayBeLeft(y, f, config, left) && left.main == main) <==>
            (exists k: nat :: k <= |y.dump(config)| + 1 && During(f.main, y.dump(config), k) == main)
  {
    var text := y.dump(config);
    if left: ConfigFile.Files :| ConfigFile.MayBeLeft(y, f, config, left) && left.main == main {
      if main != f.main {
        assert main.Some? && ConfigFile.StartsWith(text, main.value);
        assert text[..|main.value|] == main.value;
        assert During(f.main, text, |main.value| + 1) == main;
      } else {
        assert During(f.main, text, 0) == main;
      }
    }
    if k: nat :| k <= |text| + 1 && During(f.main, text, k) == main {
      if k == 0 {
        assert ConfigFile.MayBeLeft(y, f, config, f);
      } else {
        assert ConfigFile.StartsWith(text, text[..k - 1]);
        assert ConfigFile.MayBeLeft(y, f, config, ConfigFile.Files(main, ConfigFile.Backup(f)));
      }
    }
  }

  // ------------------------------------------------------------- during the write

  /** In force before, stored before, or stored by the write. */
  predicate IsOldOrNew(env: Env, s: Cell, before: Option<string>, after: string, c: Config) {
    c == s.current || Some(c) == LoadFile(env, before) || Some(c) == Load(env, after)
  }

  /** Every beginning of the new text that loads, loads as an old or the new configuration. */
  ghost predicate LoadsHarmlessly(env: Env, s: Cell, before: Option<string>, after: string) {
    forall k :: 0 <= k <= |after| && Load(env, after[..k]).Some? ==> IsOldOrNew(env, s, before, after, Load(env, after[..k]).value)
  }

  lemma {:induction false} HarmlessTicks(env: Env, s: Cell, before: Option<string>, after: string, ticks: seq<TickAt>)
    requires IsSchedule(ticks, after) && LoadsHarmlessly(env, s, before, after)
    ensures IsOldOrNew(env, s, before, after, AfterTicks(env, s, before, after, ticks).current)
  {
    if ticks != [] {
      HarmlessTicks(env, s, before, after, ticks[..|ticks| - 1]);
    }
  }

  /** A torn text that loads as something else is put in force by a tick that falls on it. */
  lemma TickOnTornText(env: Env, s: Cell, before: Option<string>, after: string, k: nat)
    requires HashIsFaithful(env) && InStep(env, s) && k <= |after| && Load(env, after[..k]).Some?
    ensures AfterTicks(env, s, before, after, [TickAt(k + 1, k + 1)]).current == Load(env, after[..k]).value
  {
    var ticks := [TickAt(k + 1, k + 1)];
    assert AfterTicks(env, s, before, after, ticks[..0]) == s;
    AtomicReload(env, s, Some(after[..k]));
  }

  /**
   Whatever ticks fall into a write, an old or the new configuration is in force, iff no
   beginning of the new text loads as another one.
   */
  lemma TicksAreSafeIffTextLoadsHarmlessly(env: Env, s: Cell, before: Option<string>, after: string)
    requires HashIsFaithful(env) && InStep(env, s)
    ensures (forall ticks :: IsSchedule(ticks, after) ==>
               IsOldOrNew(env, s, before, after, AfterTicks(env, s, before, after, ticks).current)) <==>
            LoadsHarmlessly(env, s, before, after)
  {
    if LoadsHarmlessly(env, s, before, after) {
      forall ticks | IsSchedule(ticks, after)
        ensures IsOldOrNew(env, s, before, after, AfterTicks(env, s, before, after, ticks).current) {
        HarmlessTicks(env, s, before, after, ticks);
      }
    } else {
      var k :| 0 <= k <= |after| && Load(env, after[..k]).Some? &&
        !IsOldOrNew(env, s, before, after, Load(env, after[..k]).value);
      TickOnTornText(env, s, before, after, k);
      assert IsSchedule([TickAt(k + 1, k + 1)], after);
    }
  }

  // -------------------------------------------------------------- after the write

  /** The text already stood in the file, unread, and some beginning of it loads differently. */
  ghost predicate CanStick(env: Env, s: Cell, before: Option<string>, after: string) {
    && before == Some(after) && s.hash != env.sum(after)
    && exists k :: 0 <= k <= |after| && Load(env, after[..k]).Some? && Load(env, after[..k]) != Load(env, after)
  }

  /** The sum of the new text stands for the new configuration. */
  predicate NotStuck(env: Env, s: Cell, after: string) {
    s.hash == env.sum(after) ==> Some(s.current) == Load(env, after)
  }

  /** As long as the file was hashed before the write began, a cell that knew the text is unchanged. */
  lemma {:induction false} EarlyTicks(env: Env, s: Cell, after: string, ticks: seq<TickAt>)
    requires IsSchedule(ticks, after) && s.hash == env.sum(after)
    requires forall i :: 0 <= i < |ticks| ==> ticks[i].atHash == 0
    ensures AfterTicks(env, s, Some(after), after, ticks) == s
  {
    if ticks != [] {
      EarlyTicks(env, s, after, ticks[..|ticks| - 1]);
    }
  }

  lemma {:induction false} TicksDoNotStick(env: Env, s: Cell, before: Option<string>, after: string, ticks: seq<TickAt>)
    requires HashIsFaithful(env) && InStep(env, s) && IsSchedule(ticks, after) && !CanStick(env, s, before, after)
    ensures NotStuck(env, AfterTicks(env, s, before, after, ticks), after)
  {
    if ticks != [] {
      var front, last := ticks[..|ticks| - 1], ticks[|ticks| - 1];
      TicksDoNotStick(env, s, before, after, front);
      var found, w := During(before, after, last.atHash), AfterTicks(env, s, before, after, front);
      var w' := AfterTicks(env, s, before, after, ticks);
      if w' != w && w'.hash == env.sum(after) {
        assert found == Some(after);
        HashedLast(env, s, before, after, ticks);
      }
    }
  }

  lemma HashedLast(env: Env, s: Cell, before: Option<string>, after: string, ticks: seq<TickAt>)
    requires HashIsFaithful(env) && InStep(env, s) && IsSchedule(ticks, after) && !CanStick(env, s, before, after)
    requires ticks != [] && During(before, after, ticks[|ticks| - 1].atHash) == Some(after)
    requires NotStuck(env, AfterTicks(env, s, before, after, ticks[..|ticks| - 1]), after)
    ensures NotStuck(env, AfterTicks(env, s, before, after, ticks), after)
  {
    var front, last := ticks[..|ticks| - 1], ticks[|ticks| - 1];
    if last.atHash == 0 {
      if s.hash == env.sum(after) {
        EarlyTicks(env, s, after, front);
      } else {
        assert last.atLoad > 0 ==> 0 <= last.atLoad - 1 <= |after|;
      }
    } else {
      assert last.atLoad == last.atHash == |after| + 1;
    }
  }

  /** The one way to stick: hash the old copy of the text, load the torn new one. */
  lemma TickThatSticks(env: Env, s: Cell, after: string, k: nat)
    requires s.hash != env.sum(after) && env.sum(after) != "" && k <= |after| && Load(env, after[..k]).Some?
    ensures AfterTicks(env, s, Some(after), after, [TickAt(0, k + 1)]) == Cell(Load(env, after[..k]).value, env.sum(after))
  {
    var ticks := [TickAt(0, k + 1)];
    assert AfterTicks(env, s, Some(after), after, ticks[..0]) == s;
  }

  /**
   Whatever ticks fell into the write, the first one after it puts the new configuration in
   force, iff they cannot have recorded the new text's sum for a torn configuration: that
   takes a write of the very text that stood in the file already, not yet read by the server.
   */
  lemma FirstTickAfterTheWriteRepairsIff(env: Env, s: Cell, before: Option<string>, after: string)
    requires HashIsFaithful(env) && InStep(env, s) && Load(env, after).Some?
    ensures (forall ticks :: IsSchedule(ticks, after) ==>
               Some(AfterReload(env, AfterTicks(env, s, before, after, ticks), Some(after), Some(after)).0.current) == Load(env, after)) <==>
            !CanStick(env, s, before, after)
  {
    if !CanStick(env, s, before, after) {
      forall ticks | IsSchedule(ticks, after)
        ensures Some(AfterReload(env, AfterTicks(env, s, before, after, ticks), Some(after), Some(after)).0.current) == Load(env, after) {
        TicksDoNotStick(env, s, before, after, ticks);
      }
    } else {
      var k :| 0 <= k <= |after| && Load(env, after[..k]).Some? && Load(env, after[..k]) != Load(env, after);
      TickThatSticks(env, s, after, k);
      assert IsSchedule([TickAt(0, k + 1)], after);
    }
  }
}
