/**
 The MX server's per-IP delivery limiter (allowMessageFrom in mx/session.go): a fixed
 one-hour window per source address, in a table that is pruned when it grows large.
 Times are nanoseconds of the monotonic clock.
 */
module HourlyWindow {
  import opened Wrappers

  const HOUR: int := 3_600_000_000_000
  const PRUNE_ABOVE := 4096

  datatype IpWindow = IpWindow(start: int, count: int)

  type Table = map<string, IpWindow>

  datatype Call = Call(ip: string, limit: int, now: int)

  predicate IsOver(w: IpWindow, now: int) { now - w.start > HOUR }

  function Prune(table: Table, now: int): Table {
    if |table| > PRUNE_ABOVE then map ip | ip in table && !IsOver(table[ip], now) :: table[ip] else table
  }

  function Allow(table: Table, c: Call): (Table, bool) {
    if c.limit <= 0 then (table, true)
    else
      var pruned := Prune(table, c.now);
      if c.ip !in pruned || IsOver(pruned[c.ip], c.now) then (pruned[c.ip := IpWindow(c.now, 1)], true)
      else if pruned[c.ip].count >= c.limit then (pruned, false)
      else (pruned[c.ip := pruned[c.ip].(count := pruned[c.ip].count + 1)], true)
  }

  /** The package-level table ipWindows. */
  class MessageLimiter {
    var ipWindows: map<string, IpWindow>

    constructor ()
      ensures ipWindows == map[]
    {
      ipWindows := map[];
    }

    method AllowMessageFrom(ip: string, limit: int, now: int) returns (allowed: bool)
      modifies this
      ensures (ipWindows, allowed) == Allow(old(ipWindows), Call(ip, limit, now))
    {
      if limit <= 0 {
        return true;
      }
      if |ipWindows| > PRUNE_ABOVE {
        var keys := ipWindows.Keys;
        while keys != {}
          invariant keys <= ipWindows.Keys <= old(ipWindows).Keys
          invariant forall k :: k in ipWindows ==>
            ipWindows[k] == old(ipWindows)[k] && (k in keys || !IsOver(ipWindows[k], now))
          invariant forall k :: k in old(ipWindows) && !IsOver(old(ipWindows)[k], now) ==> k in ipWindows
          decreases keys
        {
          var key :| key in keys;
          if IsOver(ipWindows[key], now) {
            ipWindows := ipWindows - {key};
          }
          keys := keys - {key};
        }
      }
      assert ipWindows == Prune(old(ipWindows), now);
      if ip !in ipWindows || IsOver(ipWindows[ip], now) {
        ipWindows := ipWindows[ip := IpWindow(now, 1)];
        return true;
      }
      var w := ipWindows[ip];
      if w.count >= limit {
        return false;
      }
      ipWindows := ipWindows[ip := w.(count := w.count + 1)];
      return true;
    }
  }

  /** The window of `ip` started no more than an hour ago. */
  ghost predicate IsOpen(table: Table, ip: string, now: int) {
    ip in table && now - table[ip].start <= 3_600_000_000_000
  }

  /**
   One call, written out. No limit, no record. Otherwise it passes iff its address has no
   open window or room in it, and counts there; the windows of others stay, except that a
   table of more than 4096 windows first loses those that are over.
   */
  lemma AllowExactly(table: Table, c: Call)
    ensures c.limit <= 0 ==> Allow(table, c) == (table, true)
    ensures c.limit > 0 ==> var (table', allowed) := Allow(table, c);
      && (allowed <==> IsOpen(table, c.ip, c.now) ==> table[c.ip].count < c.limit)
      && (IsOpen(table, c.ip, c.now) ==>
            c.ip in table' && table'[c.ip] == IpWindow(table[c.ip].start, table[c.ip].count + if allowed then 1 else 0))
      && (!IsOpen(table, c.ip, c.now) ==> c.ip in table' && table'[c.ip] == IpWindow(c.now, 1))
      && forall ip :: ip != c.ip ==>
           && (ip in table' <==> ip in table && (|table| > 4096 ==> IsOpen(table, ip, c.now)))
           && (ip in table' ==> table'[ip] == table[ip])
  {
  }

  // ------------------------------------------------------------ runs of calls

  ghost predicate ClockIsMonotone(calls: seq<Call>) {
    forall i, j :: 0 <= i < j < |calls| ==> calls[i].now <= calls[j].now
  }

  function TableAfter(calls: seq<Call>): Table {
    if calls == [] then map[] else Allow(TableAfter(calls[..|calls| - 1]), calls[|calls| - 1]).0
  }

  function LastAnswer(calls: seq<Call>): bool
    requires calls != []
  {
    Allow(TableAfter(calls[..|calls| - 1]), calls[|calls| - 1]).1
  }

  // ------------------------------------------------- the limiter of one address

  /** One address on its own, with nothing ever pruned. */
  function SoloStep(w: Option<IpWindow>, limit: int, now: int): (Option<IpWindow>, bool) {
    if limit <= 0 then (w, true)
    else if w.None? || IsOver(w.value, now) then (Some(IpWindow(now, 1)), true)
    else if w.value.count >= limit then (w, false)
    else (Some(w.value.(count := w.value.count + 1)), true)
  }

  function SoloAfter(calls: seq<Call>, ip: string): Option<IpWindow> {
    if calls == [] then None
    else
      var w, c := SoloAfter(calls[..|calls| - 1], ip), calls[|calls| - 1];
      if c.ip == ip then SoloStep(w, c.limit, c.now).0 else w
  }

  predicate SoloAnswer(calls: seq<Call>)
    requires calls != []
  {
    var c := calls[|calls| - 1];
    SoloStep(SoloAfter(calls[..|calls| - 1], c.ip), c.limit, c.now).1
  }

  /** A table may lack a window only after that window is over. */
  ghost predicate Matches(table: Table, ip: string, w: Option<IpWindow>, last: int) {
    if ip in table then w == Some(table[ip]) else w.Some? ==> IsOver(w.value, last)
  }

  lemma StepMatches(table: Table, c: Call, ip: string, w: Option<IpWindow>, last: int)
    requires Matches(table, ip, w, last) && last <= c.now
    ensures Matches(Allow(table, c).0, ip, if c.ip == ip then SoloStep(w, c.limit, c.now).0 else w, c.now)
    ensures c.ip == ip ==> Allow(table, c).1 == SoloStep(w, c.limit, c.now).1
  {
    assert Matches(Prune(table, c.now), ip, w, c.now);
  }

  lemma {:induction false} RunMatches(calls: seq<Call>, ip: string)
    requires ClockIsMonotone(calls)
    ensures calls == [] ==> TableAfter(calls) == map[] && SoloAfter(calls, ip) == None
    ensures calls != [] ==> Matches(TableAfter(calls), ip, SoloAfter(calls, ip), calls[|calls| - 1].now)
  {
    if calls != [] {
      var front, c := calls[..|calls| - 1], calls[|calls| - 1];
      RunMatches(front, ip);
      StepMatches(TableAfter(front), c, ip, SoloAfter(front, ip), if front == [] then c.now else front[|front| - 1].now);
    }
  }

  /**
   Neither pruning nor the traffic of other addresses ever changes a decision: every
   call of every run is answered as if its address had a private, unpruned window.
   */
  lemma PruningNeverChangesADecision(calls: seq<Call>)
    requires calls != [] && ClockIsMonotone(calls)
    ensures LastAnswer(calls) == SoloAnswer(calls)
  {
    var front, c := calls[..|calls| - 1], calls[|calls| - 1];
    RunMatches(front, c.ip);
    StepMatches(TableAfter(front), c, c.ip, SoloAfter(front, c.ip), if front == [] then c.now else front[|front| - 1].now);
  }

  // ------------------------------------------------------ the arithmetic bound

  /** Messages of `ip` that the real limiter admitted with a clock reading of at least `from`. */
  function AdmittedSince(calls: seq<Call>, ip: string, from: int): nat {
    if calls == [] then 0
    else
      var c := calls[|calls| - 1];
      AdmittedSince(calls[..|calls| - 1], ip, from) +
      if c.ip == ip && from <= c.now && LastAnswer(calls) then 1 else 0
  }

  /** Messages of `ip` admitted in the closed interval from `from` to `to`. */
  function AdmittedWithin(calls: seq<Call>, ip: string, from: int, to: int): nat {
    if calls == [] then 0
    else
      var c := calls[|calls| - 1];
      AdmittedWithin(calls[..|calls| - 1], ip, from, to) +
      if c.ip == ip && from <= c.now <= to && LastAnswer(calls) then 1 else 0
  }

  /** The limit is switched on for `ip` throughout and never above `most`. */
  ghost predicate LimitedTo(calls: seq<Call>, ip: string, most: int) {
    forall i :: 0 <= i < |calls| && calls[i].ip == ip ==> 1 <= calls[i].limit <= most
  }

  /**
   Only the current window and the tail of the one before it can reach into the last
   hour, and the first message of the earlier window lies outside it.
   */
  ghost predicate Budget(calls: seq<Call>, ip: string, most: int, w: Option<IpWindow>) {
    match w
    case None => forall from: int :: AdmittedSince(calls, ip, from) == 0
    case Some(w) =>
      && 1 <= w.count <= most
      && (calls != [] ==> w.start <= calls[|calls| - 1].now)
      && (forall from: int :: from > w.start ==> AdmittedSince(calls, ip, from) <= w.count - 1)
      && (forall from: int :: from >= w.start - HOUR ==> AdmittedSince(calls, ip, from) <= most - 1 + w.count)
  }

  lemma {:induction false} NothingLater(calls: seq<Call>, ip: string, from: int)
    requires ClockIsMonotone(calls) && (calls != [] ==> calls[|calls| - 1].now < from)
    ensures AdmittedSince(calls, ip, from) == 0
  {
    if calls != [] {
      NothingLater(calls[..|calls| - 1], ip, from);
    }
  }

  lemma {:induction false} RunKeepsBudget(calls: seq<Call>, ip: string, most: int)
    requires ClockIsMonotone(calls) && LimitedTo(calls, ip, most)
    ensures Budget(calls, ip, most, SoloAfter(calls, ip))
  {
    if calls != [] {
      var front, c := calls[..|calls| - 1], calls[|calls| - 1];
      RunKeepsBudget(front, ip, most);
      PruningNeverChangesADecision(calls);
      forall from: int
        ensures from > c.now ==> AdmittedSince(front, ip, from) == 0
        ensures AdmittedSince(calls, ip, from) == AdmittedSince(front, ip, from) +
                if c.ip == ip && from <= c.now && SoloAnswer(calls) then 1 else 0
      {
        if from > c.now {
          NothingLater(front, ip, from);
        }
      }
    }
  }

  lemma {:induction false} WithinIsSince(calls: seq<Call>, ip: string, from: int, to: int)
    requires ClockIsMonotone(calls) && (calls != [] ==> calls[|calls| - 1].now <= to)
    ensures AdmittedWithin(calls, ip, from, to) == AdmittedSince(calls, ip, from)
  {
    if calls != [] {
      WithinIsSince(calls[..|calls| - 1], ip, from, to);
    }
  }

  /**
   With limits between 1 and `most`, no closed one-hour interval holds more than
   2 * most - 1 admitted messages of one address.
   */
  lemma {:induction false} HourHoldsLessThanTwiceTheLimit(calls: seq<Call>, ip: string, most: int, from: int)
    requires ClockIsMonotone(calls) && LimitedTo(calls, ip, most) && most >= 1
    ensures AdmittedWithin(calls, ip, from, from + HOUR) <= 2 * most - 1
  {
    if calls != [] {
      var front, c := calls[..|calls| - 1], calls[|calls| - 1];
      HourHoldsLessThanTwiceTheLimit(front, ip, most, from);
      if c.ip == ip && from <= c.now <= from + HOUR && LastAnswer(calls) {
        PruningNeverChangesADecision(calls);
        RunKeepsBudget(calls, ip, most);
        WithinIsSince(calls, ip, from, from + HOUR);
      }
    }
  }

  // --------------------------------------------------------- the bound is sharp

  /** A run of one address under a constant limit, summed up by its window and its score. */
  ghost predicate Scored(calls: seq<Call>, limit: int, w: IpWindow, score: nat, now: int) {
    && ClockIsMonotone(calls) && LimitedTo(calls, "ip", limit)
    && SoloAfter(calls, "ip") == Some(w)
    && AdmittedSince(calls, "ip", 1) == score
    && calls != [] && calls[|calls| - 1].now == now
  }

  lemma OneMore(front: seq<Call>, limit: int, w: IpWindow, score: nat, last: int, now: int)
    requires Scored(front, limit, w, score, last) && last <= now && 1 <= now && 1 <= limit
    requires IsOver(w, now) || w.count < limit
    ensures Scored(front + [Call("ip", limit, now)], limit,
                   if IsOver(w, now) then IpWindow(now, 1) else w.(count := w.count + 1), score + 1, now)
  {
    var calls := front + [Call("ip", limit, now)];
    assert calls[..|calls| - 1] == front;
    PruningNeverChangesADecision(calls);
  }

  lemma {:induction false} Volley(front: seq<Call>, limit: int, w: IpWindow, score: nat, last: int, now: int, n: nat)
    returns (calls: seq<Call>)
    requires Scored(front, limit, w, score, last) && last <= now && 1 <= now && 1 <= limit
    requires !IsOver(w, now) && w.count + n <= limit
    ensures Scored(calls, limit, w.(count := w.count + n), score + n, if n == 0 then last else now)
  {
    calls := front;
    if n > 0 {
      calls := Volley(front, limit, w, score, last, now, n - 1);
      OneMore(calls, limit, w.(count := w.count + n - 1), score + n - 1, if n == 1 then last else now, now);
      calls := calls + [Call("ip", limit, now)];
    }
  }

  /**
   The bound is sharp: one message at time 0, the rest of the budget exactly an hour
   later and a whole new budget one tick after that fill the hour that starts at 1.
   */
  lemma TwiceTheLimitLessOneIsReached(limit: nat) returns (calls: seq<Call>)
    requires limit >= 1
    ensures ClockIsMonotone(calls) && LimitedTo(calls, "ip", limit)
    ensures AdmittedWithin(calls, "ip", 1, 1 + HOUR) == 2 * limit - 1
  {
    calls := [Call("ip", limit, 0)];
    assert calls[..0] == [];
    calls := Volley(calls, limit, IpWindow(0, 1), 0, 0, HOUR, limit - 1);
    OneMore(calls, limit, IpWindow(0, limit), limit - 1, if limit == 1 then 0 else HOUR, HOUR + 1);
    calls := calls + [Call("ip", limit, HOUR + 1)];
    calls := Volley(calls, limit, IpWindow(HOUR + 1, 1), limit, HOUR + 1, HOUR + 1, limit - 1);
    WithinIsSince(calls, "ip", 1, 1 + HOUR);
  }
}
