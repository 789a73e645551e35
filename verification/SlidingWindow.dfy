/**
 The API's sliding-window rate limiter (api/app/rate_limit.py).

 The limiter caches, per key, a deque of admission times. The head is popped
 when it leaves the window and whole keys are dropped by a periodic sweep. The
 reference limiter at the end of this module remembers every admission for ever;
 the theorems say when the two decide alike and what the decisions guarantee.

 Times are seconds of a monotonic clock, read once per call.
 */
module SlidingWindow {

  const SWEEP_INTERVAL_SECONDS := 60.0
  const SWEEP_MIN_KEYS := 512
  const SWEEP_STALE_SECONDS := 3600.0

  // ---------------------------------------------------------------- the cache

  datatype State = State(windows: map<string, seq<real>>, lastSweep: real)

  const INITIAL := State(map[], 0.0)

  /** Queue of a key; a key that was never seen or was swept has an empty queue. */
  function Queue(s: State, key: string): seq<real> {
    if key in s.windows then s.windows[key] else []
  }

  /** Drops expired times from the head of a queue. */
  function PopExpired(q: seq<real>, now: real, window: real): seq<real> {
    if q != [] && now - q[0] >= window then PopExpired(q[1..], now, window) else q
  }

  predicate IsStale(q: seq<real>, now: real) {
    q == [] || now - q[|q| - 1] >= SWEEP_STALE_SECONDS
  }

  function Sweep(s: State, now: real): State {
    if now - s.lastSweep < SWEEP_INTERVAL_SECONDS then s
    else if |s.windows| < SWEEP_MIN_KEYS then s.(lastSweep := now)
    else State(map k | k in s.windows && !IsStale(s.windows[k], now) :: s.windows[k], now)
  }

  function Allow(s: State, key: string, limit: int, window: real, now: real): (State, bool) {
    var q := PopExpired(Queue(s, key), now, window);
    if |q| >= limit then (s.(windows := s.windows[key := q]), false)
    else (Sweep(s.(windows := s.windows[key := q + [now]]), now), true)
  }

  /** The limiter object: the module globals _WINDOWS and _LAST_SWEEP. */
  class RateLimiter {
    var windows: map<string, seq<real>>
    var lastSweep: real

    constructor ()
      ensures Contents() == INITIAL
    {
      windows, lastSweep := map[], 0.0;
    }

    function Contents(): State
      reads this
    {
      State(windows, lastSweep)
    }

    method SweepLocked(now: real)
      modifies this
      ensures Contents() == Sweep(old(Contents()), now)
    {
      if now - lastSweep < SWEEP_INTERVAL_SECONDS {
        return;
      }
      lastSweep := now;
      if |windows| < SWEEP_MIN_KEYS {
        return;
      }
      var stale := set k | k in windows && IsStale(windows[k], now);
      while stale != {}
        invariant stale <= windows.Keys <= old(windows).Keys
        invariant forall k :: k in stale ==> IsStale(old(windows)[k], now)
        invariant forall k :: k in old(windows) && !IsStale(old(windows)[k], now) ==> k in windows
        invariant forall k :: k in windows ==>
          windows[k] == old(windows)[k] && (k in stale || !IsStale(old(windows)[k], now))
        invariant lastSweep == now
        decreases stale
      {
        var key :| key in stale;
        windows := windows - {key};
        stale := stale - {key};
      }
    }

    method IsAllowed(key: string, limit: int, window: real, now: real) returns (allowed: bool)
      modifies this
      ensures (Contents(), allowed) == Allow(old(Contents()), key, limit, window, now)
    {
      var q := Queue(Contents(), key);
      while q != [] && now - q[0] >= window
        invariant PopExpired(q, now, window) == PopExpired(Queue(old(Contents()), key), now, window)
        decreases |q|
      {
        q := q[1..];
      }
      windows := windows[key := q];
      if |q| >= limit {
        return false;
      }
      windows := windows[key := q + [now]];
      assert windows == old(windows)[key := q + [now]];
      SweepLocked(now);
      return true;
    }

    /** The FastAPI dependency: a limit of zero or less switches the check off. */
    method Check(call: Call, window: string -> real) returns (allowed: bool)
      modifies this
      ensures (Contents(), allowed) == Step(old(Contents()), call, window)
    {
      if call.limit <= 0 {
        return true;
      }
      allowed := IsAllowed(call.key, call.limit, window(call.key), call.now);
    }
  }

  // ------------------------------------------------------------ runs of calls

  /** One request: its key (scope and client address), the limit in force and the clock. */
  datatype Call = Call(key: string, limit: int, now: real)

  /** `window` maps a key to its window: each scope has one fixed window. */
  function Step(s: State, c: Call, window: string -> real): (State, bool) {
    if c.limit <= 0 then (s, true) else Allow(s, c.key, c.limit, window(c.key), c.now)
  }

  /** The key has had no admission for an hour. */
  ghost predicate IsIdle(q: seq<real>, now: real) {
    q != [] ==> q[|q| - 1] <= now - 3600.0
  }

  /**
   The sweep, written out: at most once a minute, only in a table of 512 keys or more, and
   then exactly the idle keys go.
   */
  lemma SweepExactly(s: State, now: real)
    ensures now < s.lastSweep + 60.0 ==> Sweep(s, now) == s
    ensures now >= s.lastSweep + 60.0 ==> var s' := Sweep(s, now);
      && s'.lastSweep == now
      && (forall k :: k in s'.windows ==> k in s.windows && s'.windows[k] == s.windows[k])
      && forall k :: k in s.windows ==> (k !in s'.windows <==> |s.windows| >= 512 && IsIdle(s.windows[k], now))
  {
  }

  ghost predicate ClockIsMonotone(calls: seq<Call>) {
    forall i, j :: 0 <= i < j < |calls| ==> calls[i].now <= calls[j].now
  }

  function StateAfter(calls: seq<Call>, window: string -> real): State {
    if calls == [] then INITIAL
    else Step(StateAfter(calls[..|calls| - 1], window), calls[|calls| - 1], window).0
  }

  /** Answer of the cached limiter to the last call of a run. */
  function LastAnswer(calls: seq<Call>, window: string -> real): bool
    requires calls != []
  {
    Step(StateAfter(calls[..|calls| - 1], window), calls[|calls| - 1], window).1
  }

  // ----------------------------------------------- the history-based reference

  datatype Admission = Admission(key: string, limit: int, time: real)

  /** How many admissions of `key` in `log` have a time in [from, to). */
  function CountIn(log: seq<Admission>, key: string, from: real, to: real): nat {
    if log == [] then 0
    else
      var a := log[|log| - 1];
      CountIn(log[..|log| - 1], key, from, to) + if a.key == key && from <= a.time < to then 1 else 0
  }

  /** How many admissions of `key` are younger than `window` at `now`. */
  function CountRecent(log: seq<Admission>, key: string, now: real, window: real): nat {
    if log == [] then 0
    else
      var a := log[|log| - 1];
      CountRecent(log[..|log| - 1], key, now, window) + if a.key == key && now - a.time < window then 1 else 0
  }

  predicate ReferenceAnswer(log: seq<Admission>, c: Call, window: string -> real) {
    c.limit <= 0 || CountRecent(log, c.key, c.now, window(c.key)) < c.limit
  }

  /** The full log of counted admissions, decided by the reference. */
  function Log(calls: seq<Call>, window: string -> real): seq<Admission> {
    if calls == [] then []
    else
      var log, c := Log(calls[..|calls| - 1], window), calls[|calls| - 1];
      Record(log, c, window)
  }

  /** The reference's log after one more call. */
  function Record(log: seq<Admission>, c: Call, window: string -> real): seq<Admission> {
    if c.limit > 0 && ReferenceAnswer(log, c, window) then log + [Admission(c.key, c.limit, c.now)] else log
  }

  // ------------------------------------------------------------- refinement

  /** Times of the admissions of one key, oldest first. */
  function Times(log: seq<Admission>, key: string): seq<real> {
    if log == [] then []
    else
      var a, front := log[|log| - 1], Times(log[..|log| - 1], key);
      if a.key == key then front + [a.time] else front
  }

  function CountYoung(times: seq<real>, now: real, window: real): nat {
    if times == [] then 0
    else CountYoung(times[..|times| - 1], now, window) + if now - times[|times| - 1] < window then 1 else 0
  }

  ghost predicate Sorted(times: seq<real>) {
    forall i, j :: 0 <= i < j < |times| ==> times[i] <= times[j]
  }

  /** `q` is what is left of `times` after expired entries were cut off its front. */
  ghost predicate Covers(q: seq<real>, times: seq<real>, now: real, window: real) {
    && |q| <= |times|
    && q == times[|times| - |q|..]
    && forall i :: 0 <= i < |times| - |q| ==> now - times[i] >= window
  }

  lemma {:induction false} CountRecentIsCountYoung(log: seq<Admission>, key: string, now: real, window: real)
    ensures CountRecent(log, key, now, window) == CountYoung(Times(log, key), now, window)
  {
    if log != [] {
      var front, a := log[..|log| - 1], log[|log| - 1];
      CountRecentIsCountYoung(front, key, now, window);
      if a.key == key {
        assert Times(log, key)[..|Times(log, key)| - 1] == Times(front, key);
      }
    }
  }

  lemma {:induction false} PopKeepsCover(q: seq<real>, times: seq<real>, now: real, window: real)
    requires Covers(q, times, now, window)
    ensures Covers(PopExpired(q, now, window), times, now, window)
    ensures var p := PopExpired(q, now, window); p != [] ==> now - p[0] < window
    decreases |q|
  {
    if q != [] && now - q[0] >= window {
      PopKeepsCover(q[1..], times, now, window);
    }
  }

  /** In a sorted history the young entries are exactly a tail of it. */
  lemma {:induction false} CoverCountsYoung(q: seq<real>, times: seq<real>, now: real, window: real)
    requires Covers(q, times, now, window) && Sorted(times)
    requires q != [] ==> now - q[0] < window
    ensures CountYoung(times, now, window) == |q|
    decreases |times|
  {
    if times != [] {
      var n := |times| - 1;
      if q == [] {
        CoverCountsYoung([], times[..n], now, window);
      } else {
        assert q[0] == times[|times| - |q|] <= times[n];
        var front := q[..|q| - 1];
        assert front == times[..n][n - |front|..];
        CoverCountsYoung(front, times[..n], now, window);
      }
    }
  }

  /** What the cache knows about one key of the full log after a run whose last clock reading is `last`. */
  ghost predicate Represents(s: State, log: seq<Admission>, last: real, window: string -> real, k: string) {
    && Sorted(Times(log, k))
    && (forall i :: 0 <= i < |Times(log, k)| ==> Times(log, k)[i] <= last)
    && Covers(Queue(s, k), Times(log, k), last, window(k))
  }

  lemma {:induction false} CoverAges(q: seq<real>, times: seq<real>, last: real, now: real, window: real)
    requires Covers(q, times, last, window) && last <= now
    ensures Covers(q, times, now, window)
  {
  }

  /** The sweep drops a key only when nothing in its queue can count again. */
  lemma SweepKeepsCover(s: State, k: string, times: seq<real>, now: real, window: real)
    requires Covers(Queue(s, k), times, now, window) && Sorted(times)
    requires window <= SWEEP_STALE_SECONDS
    ensures Covers(Queue(Sweep(s, now), k), times, now, window)
  {
    var q := Queue(s, k);
    if q != [] && IsStale(q, now) {
      assert q[|q| - 1] == times[|times| - 1];
    }
  }

  lemma LogStep(log: seq<Admission>, a: Admission, k: string)
    ensures Times(log + [a], k) == if a.key == k then Times(log, k) + [a.time] else Times(log, k)
  {
    assert (log + [a])[..|log|] == log;
  }

  lemma KeyAgrees(s: State, log: seq<Admission>, last: real, c: Call, window: string -> real)
    requires Represents(s, log, last, window, c.key) && last <= c.now
    ensures Step(s, c, window).1 == ReferenceAnswer(log, c, window)
    ensures c.limit > 0 ==> var q := PopExpired(Queue(s, c.key), c.now, window(c.key));
            Covers(q, Times(log, c.key), c.now, window(c.key)) && (ReferenceAnswer(log, c, window) <==> |q| < c.limit)
  {
    var w := window(c.key);
    var q := PopExpired(Queue(s, c.key), c.now, w);
    CoverAges(Queue(s, c.key), Times(log, c.key), last, c.now, w);
    PopKeepsCover(Queue(s, c.key), Times(log, c.key), c.now, w);
    CoverCountsYoung(q, Times(log, c.key), c.now, w);
    CountRecentIsCountYoung(log, c.key, c.now, w);
  }

  lemma RecordedTimes(log: seq<Admission>, last: real, c: Call, window: string -> real, k: string)
    requires Sorted(Times(log, k)) && last <= c.now
    requires forall i :: 0 <= i < |Times(log, k)| ==> Times(log, k)[i] <= last
    ensures var times := Times(Record(log, c, window), k);
            Sorted(times) && forall i :: 0 <= i < |times| ==> times[i] <= c.now
  {
    LogStep(log, Admission(c.key, c.limit, c.now), k);
  }

  lemma PutQueue(s: State, key: string, q: seq<real>, k: string)
    ensures Queue(s.(windows := s.windows[key := q]), k) == if k == key then q else Queue(s, k)
  {
  }

  /** Admitting a request of `key` and sweeping keeps the cover of every key `k`. */
  lemma AdmitCovers(s: State, key: string, q: seq<real>, k: string, times: seq<real>, now: real, window: real)
    requires Covers(if k == key then q else Queue(s, k), times, now, window) && window <= SWEEP_STALE_SECONDS
    requires Sorted(times) && forall i :: 0 <= i < |times| ==> times[i] <= now
    ensures var swept := Sweep(s.(windows := s.windows[key := q + [now]]), now);
            Covers(Queue(swept, k), if k == key then times + [now] else times, now, window)
  {
    var mid := s.(windows := s.windows[key := q + [now]]);
    PutQueue(s, key, q + [now], k);
    if k == key {
      CoverGrows(q, times, now, window);
      SweepKeepsCover(mid, k, times + [now], now, window);
    } else {
      SweepKeepsCover(mid, k, times, now, window);
    }
  }

  lemma StepCovers(s: State, log: seq<Admission>, last: real, c: Call, window: string -> real, k: string)
    requires Represents(s, log, last, window, k) && last <= c.now && window(k) <= SWEEP_STALE_SECONDS
    ensures Covers(Queue(Step(s, c, window).0, k), Times(Record(log, c, window), k), c.now, window(k))
  {
    var q, times := PopExpired(Queue(s, c.key), c.now, window(c.key)), Times(log, k);
    CoverAges(Queue(s, k), times, last, c.now, window(k));
    LogStep(log, Admission(c.key, c.limit, c.now), k);
    if c.key == k {
      KeyAgrees(s, log, last, c, window);
    }
    if c.limit > 0 {
      if |q| < c.limit {
        AdmitCovers(s, c.key, q, k, times, c.now, window(k));
      } else {
        PutQueue(s, c.key, q, k);
      }
    }
  }

  lemma CoverGrows(q: seq<real>, times: seq<real>, now: real, window: real)
    requires Covers(q, times, now, window)
    ensures Covers(q + [now], times + [now], now, window)
  {
  }

  /** One step, whatever key it is about and however the other keys are configured. */
  lemma StepRepresents(s: State, log: seq<Admission>, last: real, c: Call, window: string -> real, k: string)
    requires Represents(s, log, last, window, k) && last <= c.now && window(k) <= SWEEP_STALE_SECONDS
    ensures Represents(Step(s, c, window).0, Record(log, c, window), c.now, window, k)
  {
    RecordedTimes(log, last, c, window, k);
    StepCovers(s, log, last, c, window, k);
  }

  lemma {:induction false} RunRepresents(calls: seq<Call>, window: string -> real, k: string, last: real)
    requires ClockIsMonotone(calls) && window(k) <= SWEEP_STALE_SECONDS
    requires calls != [] ==> calls[|calls| - 1].now <= last
    ensures Represents(StateAfter(calls, window), Log(calls, window), last, window, k)
  {
    if calls != [] {
      var front, c := calls[..|calls| - 1], calls[|calls| - 1];
      RunRepresents(front, window, k, c.now);
      StepRepresents(StateAfter(front, window), Log(front, window), c.now, c, window, k);
      CoverAges(Queue(StateAfter(calls, window), k), Times(Log(calls, window), k), c.now, last, window(k));
    }
  }

  /**
   Main result. For every call sequence over any number of keys, popping heads and
   sweeping keys never changes a decision about a key whose window is at most an hour: a
   request passes iff fewer than `limit` earlier admissions of its key are younger than
   the window. The windows of other keys do not matter.
   */
  lemma CacheDecidesLikeFullHistory(calls: seq<Call>, window: string -> real, n: nat)
    requires ClockIsMonotone(calls) && n < |calls| && window(calls[n].key) <= SWEEP_STALE_SECONDS
    ensures LastAnswer(calls[..n + 1], window) == ReferenceAnswer(Log(calls[..n], window), calls[n], window)
  {
    assert calls[..n + 1][..n] == calls[..n];
    RunRepresents(calls[..n], window, calls[n].key, calls[n].now);
    KeyAgrees(StateAfter(calls[..n], window), Log(calls[..n], window), calls[n].now, calls[n], window);
  }

  lemma {:induction false} LogExtends(calls: seq<Call>, n: nat, window: string -> real)
    requires n <= |calls|
    ensures Log(calls[..n], window) <= Log(calls, window)
    decreases |calls|
  {
    if n < |calls| {
      LogExtends(calls[..|calls| - 1], n, window);
      assert calls[..|calls| - 1][..n] == calls[..n];
    } else {
      assert calls[..n] == calls;
    }
  }

  // --------------------------------------------- why 3600 seconds is the bound

  /** `first` with n letters appended: an unbounded supply of distinct keys. */
  function ManyKeys(first: string, n: nat): string { first + seq(n, _ => 'k') }

  /** `n` requests of distinct keys at time 0, each with a budget of one. */
  function Burst(first: string, n: nat): seq<Call> {
    if n == 0 then [] else Burst(first, n - 1) + [Call(ManyKeys(first, n - 1), 1, 0.0)]
  }

  function BurstWindows(first: string, n: nat): map<string, seq<real>> {
    if n == 0 then map[] else BurstWindows(first, n - 1)[ManyKeys(first, n - 1) := [0.0]]
  }

  lemma {:induction false} BurstWindowsShape(first: string, n: nat)
    ensures |BurstWindows(first, n)| == n && (n > 0 ==> first in BurstWindows(first, n))
    ensures forall k :: k in BurstWindows(first, n) ==> |k| < |first| + n && BurstWindows(first, n)[k] == [0.0]
  {
    if n > 0 {
      BurstWindowsShape(first, n - 1);
      assert |ManyKeys(first, n - 1)| == |first| + n - 1;
      assert ManyKeys(first, 0) == first;
    }
  }

  lemma FirstRequest(s: State, c: Call, window: string -> real)
    requires c.key !in s.windows && c.limit > 0 && c.now - s.lastSweep < SWEEP_INTERVAL_SECONDS
    ensures Step(s, c, window) == (s.(windows := s.windows[c.key := [c.now]]), true)
  {
    assert PopExpired([], c.now, window(c.key)) == [];
    assert [] + [c.now] == [c.now];
  }

  lemma {:induction false} BurstState(first: string, n: nat, window: string -> real)
    ensures StateAfter(Burst(first, n), window) == State(BurstWindows(first, n), 0.0)
  {
    if n > 0 {
      BurstState(first, n - 1, window);
      var calls, c := Burst(first, n), Call(ManyKeys(first, n - 1), 1, 0.0);
      assert c.key !in BurstWindows(first, n - 1) by {
        BurstWindowsShape(first, n - 1);
      }
      assert calls[..|calls| - 1] == Burst(first, n - 1) && calls[|calls| - 1] == c;
      FirstRequest(State(BurstWindows(first, n - 1), 0.0), c, window);
    }
  }

  lemma {:induction false} BurstShape(first: string, n: nat)
    ensures |Burst(first, n)| == n && forall i :: 0 <= i < n ==> Burst(first, n)[i].now == 0.0
  {
    if n > 0 {
      BurstShape(first, n - 1);
    }
  }

  lemma FirstCallIsLogged(c: Call, window: string -> real)
    requires c.limit > 0
    ensures Log([c], window) == [Admission(c.key, c.limit, c.now)]
  {
    assert [c][..0] == [] && Log([], window) == [];
    assert ReferenceAnswer([], c, window);
  }

  lemma {:induction false} BurstLog(first: string, n: nat, window: string -> real)
    requires n > 0
    ensures [Admission(first, 1, 0.0)] <= Log(Burst(first, n), window)
  {
    if n == 1 {
      assert ManyKeys(first, 0) == first && Burst(first, 1) == [Call(first, 1, 0.0)];
      FirstCallIsLogged(Call(first, 1, 0.0), window);
    } else {
      BurstLog(first, n - 1, window);
      BurstShape(first, n);
      BurstShape(first, n - 1);
      assert Burst(first, n)[..n - 1] == Burst(first, n - 1);
      LogExtends(Burst(first, n), n - 1, window);
    }
  }

  lemma {:induction false} FirstYoungCounts(log: seq<Admission>, now: real, window: real)
    requires log != [] && now - log[0].time < window
    ensures CountRecent(log, log[0].key, now, window) >= 1
  {
    if |log| > 1 {
      FirstYoungCounts(log[..|log| - 1], now, window);
    } else {
      assert log[..0] == [];
    }
  }

  /** A burst of 512 keys, a request that triggers the sweep, then the first key again. */
  function ForgetfulRun(first: string): seq<Call> {
    Burst(first, SWEEP_MIN_KEYS) + [Call(ManyKeys(first, SWEEP_MIN_KEYS), 1, 3600.0), Call(first, 1, 3600.0)]
  }

  /** The last request of the run is answered as the full history would answer it. */
  ghost predicate LastAnswersAgree(calls: seq<Call>, window: string -> real)
    requires calls != []
  {
    LastAnswer(calls, window) == ReferenceAnswer(Log(calls[..|calls| - 1], window), calls[|calls| - 1], window)
  }

  lemma ForgetfulRunShape(key: string)
    ensures var calls := ForgetfulRun(key); var n := |calls| - 1;
      && n == SWEEP_MIN_KEYS + 1 && ClockIsMonotone(calls) && calls[n] == Call(key, 1, 3600.0)
      && calls[..n] == Burst(key, SWEEP_MIN_KEYS) + [Call(ManyKeys(key, SWEEP_MIN_KEYS), 1, 3600.0)]
      && calls[..n][..n - 1] == Burst(key, SWEEP_MIN_KEYS)
  {
    BurstShape(key, SWEEP_MIN_KEYS);
  }

  /** With any window longer than an hour the sweep forgets admissions that still count. */
  lemma SweepForgetsLongWindows(key: string, window: string -> real)
    requires window(key) > SWEEP_STALE_SECONDS
    ensures ClockIsMonotone(ForgetfulRun(key))
    ensures var calls := ForgetfulRun(key); var n := |calls| - 1;
            LastAnswer(calls, window) && !ReferenceAnswer(Log(calls[..n], window), calls[n], window)
  {
    var calls := ForgetfulRun(key);
    var n := |calls| - 1;
    ForgetfulRunShape(key);
    assert LastAnswer(calls, window) by {
      ForgottenState(key, window);
    }
    assert CountRecent(Log(calls[..n], window), key, 3600.0, window(key)) >= 1 by {
      BurstLog(key, SWEEP_MIN_KEYS, window);
      LogExtends(calls[..n], n - 1, window);
      FirstYoungCounts(Log(calls[..n], window), 3600.0, window(key));
    }
  }

  lemma ForgottenState(first: string, window: string -> real)
    ensures var c := Call(ManyKeys(first, SWEEP_MIN_KEYS), 1, 3600.0);
            first !in Step(StateAfter(Burst(first, SWEEP_MIN_KEYS), window), c, window).0.windows
  {
    var key, burst := ManyKeys(first, SWEEP_MIN_KEYS), BurstWindows(first, SWEEP_MIN_KEYS);
    BurstState(first, SWEEP_MIN_KEYS, window);
    BurstWindowsShape(first, SWEEP_MIN_KEYS);
    assert |key| == |first| + SWEEP_MIN_KEYS && key !in burst;
    var s := State(burst[key := [] + [3600.0]], 0.0);
    assert |s.windows| == SWEEP_MIN_KEYS + 1;
    assert IsStale(s.windows[first], 3600.0) by {
      assert first != key;
    }
    assert first !in Sweep(s, 3600.0).windows;
    assert PopExpired(Queue(State(burst, 0.0), key), 3600.0, window(key)) == [];
  }

  /** The cache agrees with the full history about a key, on every run, iff its window is at most an hour. */
  lemma AgreementIffWindowAtMostOneHour(window: string -> real, key: string)
    ensures window(key) <= SWEEP_STALE_SECONDS <==>
            forall calls: seq<Call> :: ClockIsMonotone(calls) && calls != [] && calls[|calls| - 1].key == key ==>
              LastAnswersAgree(calls, window)
  {
    if window(key) <= SWEEP_STALE_SECONDS {
      forall calls: seq<Call> | ClockIsMonotone(calls) && calls != [] && calls[|calls| - 1].key == key
        ensures LastAnswersAgree(calls, window)
      {
        CacheDecidesLikeFullHistory(calls, window, |calls| - 1);
        assert calls[..|calls|] == calls;
      }
    } else {
      SweepForgetsLongWindows(key, window);
      assert !LastAnswersAgree(ForgetfulRun(key), window);
    }
  }

  // --------------------------------------------------- what a limit guarantees

  lemma {:induction false} CountInAtMostRecent(log: seq<Admission>, key: string, from: real, now: real, window: real)
    requires now < from + window
    ensures CountIn(log, key, from, from + window) <= CountRecent(log, key, now, window)
  {
    if log != [] {
      CountInAtMostRecent(log[..|log| - 1], key, from, now, window);
    }
  }

  /** Only the admissions up to the last one inside [from, to) count. */
  lemma {:induction false} CountInStopsAt(log: seq<Admission>, key: string, from: real, to: real, last: nat)
    requires last < |log| && log[last].key == key && from <= log[last].time < to
    requires forall i :: last < i < |log| ==> !(log[i].key == key && from <= log[i].time < to)
    ensures CountIn(log, key, from, to) == CountIn(log[..last], key, from, to) + 1
  {
    if last < |log| - 1 {
      var front := log[..|log| - 1];
      CountInStopsAt(front, key, from, to, last);
      assert front[..last] == log[..last];
    }
  }

  /** Admission number `last` is the last one of `key` with a time in [from, to). */
  ghost predicate IsLastIn(log: seq<Admission>, key: string, from: real, to: real, last: nat) {
    && last < |log| && log[last].key == key && from <= log[last].time < to
    && forall i :: last < i < |log| ==> !(log[i].key == key && from <= log[i].time < to)
  }

  /**
   If admission `last` is the last one of `key` in the window that starts at `from`, the
   window holds at most the limit then in force.
   */
  ghost predicate WithinLimit(log: seq<Admission>, window: string -> real, key: string, from: real, last: nat) {
    IsLastIn(log, key, from, from + window(key), last) ==> CountIn(log, key, from, from + window(key)) <= log[last].limit
  }

  /** Every half-open interval of one window length of the key is within its limit. */
  ghost predicate KeepsLimit(log: seq<Admission>, window: string -> real, key: string) {
    forall from: real, last: nat :: WithinLimit(log, window, key, from, last)
  }

  /** What the cached limiter itself lets in under a limit. */
  function Admitted(calls: seq<Call>, window: string -> real): seq<Admission> {
    if calls == [] then []
    else
      var admitted, c := Admitted(calls[..|calls| - 1], window), calls[|calls| - 1];
      if c.limit > 0 && LastAnswer(calls, window) then admitted + [Admission(c.key, c.limit, c.now)] else admitted
  }

  lemma {:induction false} AdmittedTimes(calls: seq<Call>, window: string -> real, key: string)
    requires ClockIsMonotone(calls) && window(key) <= SWEEP_STALE_SECONDS
    ensures Times(Admitted(calls, window), key) == Times(Log(calls, window), key)
  {
    if calls != [] {
      var n := |calls| - 1;
      var front, c := calls[..n], calls[n];
      AdmittedTimes(front, window, key);
      LogStep(Admitted(front, window), Admission(c.key, c.limit, c.now), key);
      LogStep(Log(front, window), Admission(c.key, c.limit, c.now), key);
      if c.key == key {
        CacheDecidesLikeFullHistory(calls, window, n);
        assert calls[..n + 1] == calls;
      }
    }
  }

  /** Every admission found its key below the limit then in force. */
  lemma {:induction false} AdmittedIsFair(calls: seq<Call>, window: string -> real, n: nat)
    requires ClockIsMonotone(calls) && n < |Admitted(calls, window)|
    requires window(Admitted(calls, window)[n].key) <= SWEEP_STALE_SECONDS
    ensures var (log, a) := (Admitted(calls, window), Admitted(calls, window)[n]);
            CountRecent(log[..n], a.key, a.time, window(a.key)) < a.limit
  {
    var front, c := calls[..|calls| - 1], calls[|calls| - 1];
    var log := Admitted(front, window);
    if n < |log| {
      AdmittedIsFair(front, window, n);
      assert Admitted(calls, window)[..n] == log[..n];
    } else {
      assert Admitted(calls, window)[..n] == log;
      CacheDecidesLikeFullHistory(calls, window, |calls| - 1);
      assert calls[..|calls|] == calls;
      AdmittedTimes(front, window, c.key);
      CountRecentIsCountYoung(log, c.key, c.now, window(c.key));
      CountRecentIsCountYoung(Log(front, window), c.key, c.now, window(c.key));
    }
  }

  lemma {:induction false} AdmittedExtends(calls: seq<Call>, n: nat, window: string -> real)
    requires n <= |calls|
    ensures Admitted(calls[..n], window) <= Admitted(calls, window)
    decreases |calls|
  {
    if n < |calls| {
      AdmittedExtends(calls[..|calls| - 1], n, window);
      assert calls[..|calls| - 1][..n] == calls[..n];
    } else {
      assert calls[..n] == calls;
    }
  }

  lemma {:induction false} TwoAreCounted(log: seq<Admission>, key: string, from: real, to: real)
    requires |log| >= 2 && log[0].key == key == log[|log| - 1].key
    requires from <= log[0].time < to && from <= log[|log| - 1].time < to
    ensures CountIn(log, key, from, to) >= 2
  {
    FirstIsCounted(log[..|log| - 1], key, from, to);
  }

  lemma {:induction false} FirstIsCounted(log: seq<Admission>, key: string, from: real, to: real)
    requires log != [] && log[0].key == key && from <= log[0].time < to
    ensures CountIn(log, key, from, to) >= 1
  {
    if |log| > 1 {
      FirstIsCounted(log[..|log| - 1], key, from, to);
    }
  }

  lemma FirstCallIsAdmitted(c: Call, window: string -> real)
    requires c.limit > 0
    ensures Admitted([c], window) == [Admission(c.key, c.limit, c.now)]
  {
    assert [c][..0] == [] && Admitted([], window) == [];
    assert PopExpired(Queue(INITIAL, c.key), c.now, window(c.key)) == [];
  }

  lemma {:induction false} BurstStartsWith(first: string, n: nat)
    requires n > 0
    ensures Burst(first, n) != [] && Burst(first, n)[0] == Call(first, 1, 0.0)
  {
    if n == 1 {
      assert ManyKeys(first, 0) == first && Burst(first, 0) == [];
    } else {
      BurstStartsWith(first, n - 1);
    }
  }

  lemma ForgetfulAdmissions(key: string, window: string -> real)
    requires window(key) > SWEEP_STALE_SECONDS
    ensures var admitted := Admitted(ForgetfulRun(key), window);
      |admitted| >= 2 && admitted[0] == Admission(key, 1, 0.0) && admitted[|admitted| - 1] == Admission(key, 1, 3600.0)
  {
    var calls := ForgetfulRun(key);
    var n := |calls| - 1;
    assert [Admission(key, 1, 0.0)] <= Admitted(calls[..n], window) by {
      BurstStartsWith(key, SWEEP_MIN_KEYS);
      assert calls[..n][..1] == [Call(key, 1, 0.0)];
      FirstCallIsAdmitted(Call(key, 1, 0.0), window);
      AdmittedExtends(calls[..n], 1, window);
    }
    assert LastAnswer(calls, window) by {
      SweepForgetsLongWindows(key, window);
    }
  }

  lemma TwoExceedOne(log: seq<Admission>, key: string, window: string -> real)
    requires window(key) > SWEEP_STALE_SECONDS && |log| >= 2
    requires log[0] == Admission(key, 1, 0.0) && log[|log| - 1] == Admission(key, 1, 3600.0)
    ensures !KeepsLimit(log, window, key)
  {
    TwoAreCounted(log, key, 0.0, 0.0 + window(key));
    assert !WithinLimit(log, window, key, 0.0, |log| - 1);
  }

  /** With a longer window, the forgetful run gets two requests of one key past a limit of one. */
  lemma ForgetfulRunBreaksLimit(key: string, window: string -> real)
    requires window(key) > SWEEP_STALE_SECONDS
    ensures !KeepsLimit(Admitted(ForgetfulRun(key), window), window, key)
  {
    ForgetfulAdmissions(key, window);
    TwoExceedOne(Admitted(ForgetfulRun(key), window), key, window);
  }

  /**
   What the limiter lets in: for every run with a monotone clock, however limits change,
   each half-open window of a key, if at most an hour long, holds at most the limit in
   force at the last admission in it.
   */
  lemma WindowHoldsAtMostLimit(calls: seq<Call>, window: string -> real, key: string)
    requires ClockIsMonotone(calls) && window(key) <= SWEEP_STALE_SECONDS
    ensures KeepsLimit(Admitted(calls, window), window, key)
  {
    forall from: real, last: nat ensures WithinLimit(Admitted(calls, window), window, key, from, last) {
      if IsLastIn(Admitted(calls, window), key, from, from + window(key), last) {
        AdmittedIsFair(calls, window, last);
        FairIsWithin(Admitted(calls, window), window, key, from, last);
      }
    }
  }

  lemma FairIsWithin(log: seq<Admission>, window: string -> real, key: string, from: real, last: nat)
    requires IsLastIn(log, key, from, from + window(key), last)
    requires CountRecent(log[..last], key, log[last].time, window(key)) < log[last].limit
    ensures WithinLimit(log, window, key, from, last)
  {
    CountInStopsAt(log, key, from, from + window(key), last);
    CountInAtMostRecent(log[..last], key, from, log[last].time, window(key));
  }

  /** The limiter keeps that promise about a key, on every run, iff its window is at most an hour. */
  lemma LimitHoldsIffWindowAtMostOneHour(window: string -> real, key: string)
    ensures window(key) <= SWEEP_STALE_SECONDS <==>
            forall calls :: ClockIsMonotone(calls) ==> KeepsLimit(Admitted(calls, window), window, key)
  {
    if window(key) <= SWEEP_STALE_SECONDS {
      forall calls | ClockIsMonotone(calls) ensures KeepsLimit(Admitted(calls, window), window, key) {
        WindowHoldsAtMostLimit(calls, window, key);
      }
    } else {
      SweepForgetsLongWindows(key, window);
      ForgetfulRunBreaksLimit(key, window);
    }
  }

  ghost predicate WasAdmitted(log: seq<Admission>, key: string, time: real) {
    exists i :: 0 <= i < |log| && log[i].key == key && log[i].time == time
  }

  /** A queue holds only times of admissions of its key. */
  ghost predicate QueueIsAdmitted(q: seq<real>, log: seq<Admission>, key: string) {
    forall j :: 0 <= j < |q| ==> WasAdmitted(log, key, q[j])
  }

  lemma {:induction false} PopIsTail(q: seq<real>, now: real, window: real)
    ensures |PopExpired(q, now, window)| <= |q| && PopExpired(q, now, window) == q[|q| - |PopExpired(q, now, window)|..]
    ensures (forall j :: 0 <= j < |q| ==> now - q[j] >= window) ==> PopExpired(q, now, window) == []
  {
    if q != [] && now - q[0] >= window {
      PopIsTail(q[1..], now, window);
    }
  }

  lemma AdmittedGrows(q: seq<real>, log: seq<Admission>, more: seq<Admission>, key: string)
    requires QueueIsAdmitted(q, log, key) && log <= more
    ensures QueueIsAdmitted(q, more, key)
  {
    forall j | 0 <= j < |q| ensures WasAdmitted(more, key, q[j]) {
      assert WasAdmitted(log, key, q[j]);
      var i :| 0 <= i < |log| && log[i].key == key && log[i].time == q[j];
      assert more[i] == log[i];
    }
  }

  lemma SweptQueue(s: State, now: real, k: string)
    ensures Queue(Sweep(s, now), k) == Queue(s, k) || Queue(Sweep(s, now), k) == []
  {
  }

  /** What a step can make of a queue. */
  ghost predicate CanBecome(q: seq<real>, q': seq<real>, c: Call, window: real, mine: bool, letIn: bool) {
    q' == [] || q' == q || q' == PopExpired(q, c.now, window) ||
    (mine && letIn && q' == PopExpired(q, c.now, window) + [c.now])
  }

  lemma StepQueue(s: State, c: Call, window: string -> real, k: string)
    ensures CanBecome(Queue(s, k), Queue(Step(s, c, window).0, k), c, window(k), c.key == k, c.limit > 0 && Step(s, c, window).1)
  {
    if c.limit > 0 {
      var q := PopExpired(Queue(s, c.key), c.now, window(c.key));
      if |q| >= c.limit {
        PutQueue(s, c.key, q, k);
        assert Step(s, c, window).0 == s.(windows := s.windows[c.key := q]);
      } else {
        var mid := s.(windows := s.windows[c.key := q + [c.now]]);
        PutQueue(s, c.key, q + [c.now], k);
        SweptQueue(mid, c.now, k);
        assert Step(s, c, window) == (Sweep(mid, c.now), true);
      }
    }
  }

  /** Whatever the windows and the clock do, the cache never invents an admission. */
  lemma {:induction false} CacheHoldsAdmitted(calls: seq<Call>, window: string -> real, k: string)
    ensures QueueIsAdmitted(Queue(StateAfter(calls, window), k), Admitted(calls, window), k)
  {
    if calls != [] {
      var front, c := calls[..|calls| - 1], calls[|calls| - 1];
      var q, q' := Queue(StateAfter(front, window), k), Queue(StateAfter(calls, window), k);
      var log := Admitted(calls, window);
      CacheHoldsAdmitted(front, window, k);
      AdmittedGrows(q, Admitted(front, window), log, k);
      StepQueue(StateAfter(front, window), c, window, k);
      PopIsTail(q, c.now, window(k));
      TailIsAdmitted(q, PopExpired(q, c.now, window(k)), log, k);
      if c.limit > 0 && LastAnswer(calls, window) && c.key == k {
        OneMoreAdmitted(PopExpired(q, c.now, window(k)), log, k, c.now);
      }
    }
  }

  lemma TailIsAdmitted(q: seq<real>, tail: seq<real>, log: seq<Admission>, key: string)
    requires QueueIsAdmitted(q, log, key) && |tail| <= |q| && tail == q[|q| - |tail|..]
    ensures QueueIsAdmitted(tail, log, key)
  {
    forall j | 0 <= j < |tail| ensures WasAdmitted(log, key, tail[j]) {
      assert tail[j] == q[|q| - |tail| + j];
    }
  }

  lemma OneMoreAdmitted(q: seq<real>, log: seq<Admission>, key: string, now: real)
    requires QueueIsAdmitted(q, log, key) && log != []
    requires log[|log| - 1].key == key && log[|log| - 1].time == now
    ensures QueueIsAdmitted(q + [now], log, key)
  {
    assert WasAdmitted(log, key, now);
  }

  lemma {:induction false} AdmittedInOrder(calls: seq<Call>, window: string -> real)
    requires ClockIsMonotone(calls) && calls != []
    ensures forall i :: 0 <= i < |Admitted(calls, window)| ==> Admitted(calls, window)[i].time <= calls[|calls| - 1].now
  {
    if |calls| > 1 {
      AdmittedInOrder(calls[..|calls| - 1], window);
    } else {
      assert Admitted(calls[..0], window) == [];
    }
  }

  /**
   Retry-After is honest for windows of any length: one window after the request number
   `refused`, the client gets in, provided no request of its key was admitted from that
   one on.
   */
  lemma RetryAfterIsHonoured(calls: seq<Call>, window: string -> real, refused: nat, retry: nat)
    requires ClockIsMonotone(calls) && refused < retry < |calls| && calls[refused].key == calls[retry].key
    requires calls[retry].now >= calls[refused].now + window(calls[retry].key)
    requires forall i :: |Admitted(calls[..refused], window)| <= i < |Admitted(calls[..retry], window)| ==>
      Admitted(calls[..retry], window)[i].key != calls[retry].key
    ensures LastAnswer(calls[..retry + 1], window)
  {
    var c, log, before := calls[retry], Admitted(calls[..retry], window), Admitted(calls[..refused], window);
    var st := StateAfter(calls[..retry], window);
    CacheHoldsAdmitted(calls[..retry], window, c.key);
    AdmittedUpTo(calls, refused, retry, window);
    forall j | 0 <= j < |Queue(st, c.key)| ensures c.now - Queue(st, c.key)[j] >= window(c.key) {
      AdmittedEarly(log, before, c.key, Queue(st, c.key)[j], calls[refused].now);
    }
    OldQueueLetsIn(st, c, window);
    assert calls[..retry + 1][..retry] == calls[..retry];
  }

  lemma AdmittedEarly(log: seq<Admission>, before: seq<Admission>, key: string, time: real, end: real)
    requires WasAdmitted(log, key, time) && before <= log
    requires forall i :: |before| <= i < |log| ==> log[i].key != key
    requires forall i :: 0 <= i < |before| ==> before[i].time <= end
    ensures time <= end
  {
    var i :| 0 <= i < |log| && log[i].key == key && log[i].time == time;
    assert i < |before| && log[i] == before[i];
  }

  lemma AdmittedUpTo(calls: seq<Call>, n: nat, m: nat, window: string -> real)
    requires ClockIsMonotone(calls) && n <= m < |calls|
    ensures Admitted(calls[..n], window) <= Admitted(calls[..m], window)
    ensures forall i :: 0 <= i < |Admitted(calls[..n], window)| ==> Admitted(calls[..n], window)[i].time <= calls[n].now
  {
    assert calls[..m][..n] == calls[..n];
    AdmittedExtends(calls[..m], n, window);
    if n > 0 {
      AdmittedInOrder(calls[..n], window);
    }
  }

  lemma OldQueueLetsIn(s: State, c: Call, window: string -> real)
    requires forall j :: 0 <= j < |Queue(s, c.key)| ==> c.now - Queue(s, c.key)[j] >= window(c.key)
    ensures Step(s, c, window).1
  {
    PopIsTail(Queue(s, c.key), c.now, window(c.key));
  }
}
