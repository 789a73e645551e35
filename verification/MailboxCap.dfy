/**
 The per-address cap as a concurrent protocol (mx/database.go): every committed delivery
 starts one asynchronous EnforceEmailLimit job, and jobs run later in any order, or fail.

 The module watches one mailbox. Everything else that happens on the server is an
 `Elsewhere` step, which may change anything but this mailbox's links and messages.
 */
module MailboxCap {
  import opened Wrappers
  import opened Text
  import opened MailTables
  import opened MailOps

  /**
   The tables, every link this mailbox ever got with its message's time of receipt, the
   cap jobs not yet run, and the jobs that failed since one last succeeded.
   */
  datatype Watch = Watch(t: Tables, ever: map<Id, Time>, pending: nat, failed: nat)

  datatype Event =
    | Delivered(m: Message, now: Time)
    | CapRan(n: nat, victims: set<Id>)
    | CapFailed
    | Elsewhere(t': Tables)

  ghost predicate SameMailbox(t: Tables, t': Tables, a: Id) {
    LinksOf(t', a) == LinksOf(t, a) && forall l :: l in LinksOf(t, a) ==> LinkUntouched(t, t', l)
  }

  /** `lo` and `hi` bound the cap in force at each job; a fixed cap is lo == hi. */
  ghost predicate CanHappen(w: Watch, e: Event, a: Id, lo: nat, hi: nat)
  {
    match e
    case Delivered(m, now) => m.linkId !in w.ever && Store(w.t, m, now, None) == (Stored(w.t, m, a), Some(a))
    case CapRan(n, victims) => w.pending > 0 && lo <= n <= hi && IsCapChoice(w.t, a, n, victims)
    case CapFailed => w.pending > 0
    case Elsewhere(t') => Consistent(t') && SameMailbox(w.t, t', a)
  }

  function After(w: Watch, e: Event, a: Id): Watch {
    match e
    case Delivered(m, now) => Watch(Stored(w.t, m, a), w.ever[m.linkId := m.email.receivedAt], w.pending + 1, w.failed)
    case CapRan(n, victims) => Watch(DeleteLinks(w.t, victims), w.ever, if w.pending > 0 then w.pending - 1 else 0, 0)
    case CapFailed => w.(pending := if w.pending > 0 then w.pending - 1 else 0, failed := w.failed + 1)
    case Elsewhere(t') => w.(t := t')
  }

  /** A run: states and the events between them. */
  ghost predicate IsRun(states: seq<Watch>, events: seq<Event>, a: Id, lo: nat, hi: nat) {
    && |states| == |events| + 1
    && forall i :: 0 <= i < |events| ==>
         && CanHappen(states[i], events[i], a, lo, hi)
         && states[i + 1] == After(states[i], events[i], a)
  }

  /** Start: any consistent tables in which the mailbox is within the cap. */
  ghost predicate IsStart(w: Watch, a: Id, hi: nat) {
    && Consistent(w.t) && w.pending == 0 && w.failed == 0
    && w.ever.Keys == LinksOf(w.t, a) && |LinksOf(w.t, a)| <= hi
    && forall l :: l in w.ever ==> w.ever[l] == ReceivedAt(w.t, l)
  }

  // ------------------------------------------------------------------ invariant

  /** Links of `s` whose message is at least as new as `time`. */
  function AsNewAs(s: set<Id>, ever: map<Id, Time>, time: Time): set<Id>
    requires s <= ever.Keys
  {
    set k | k in s && ever[k] >= time
  }

  ghost predicate Remembers(w: Watch, a: Id) {
    && Consistent(w.t) && LinksOf(w.t, a) <= w.ever.Keys
    && forall l :: l in LinksOf(w.t, a) ==> w.ever[l] == ReceivedAt(w.t, l)
  }

  ghost predicate Invariant(w: Watch, a: Id, lo: nat, hi: nat) {
    && Remembers(w, a)
    && |LinksOf(w.t, a)| <= hi + w.pending + w.failed
    && forall d :: d in w.ever.Keys - LinksOf(w.t, a) ==> |AsNewAs(LinksOf(w.t, a), w.ever, w.ever[d])| >= lo
  }

  lemma DeliveryLinks(t: Tables, m: Message, now: Time, a: Id)
    requires SchemaHolds(t) && Store(t, m, now, None) == (Stored(t, m, a), Some(a))
    ensures LinksOf(Stored(t, m, a), a) == LinksOf(t, a) + {m.linkId} && m.linkId !in t.links
    ensures ReceivedAt(Stored(t, m, a), m.linkId) == m.email.receivedAt
    ensures forall l :: l in t.links ==> ReceivedAt(Stored(t, m, a), l) == ReceivedAt(t, l)
  {
  }

  lemma DeliveryRemembers(w: Watch, m: Message, now: Time, a: Id, lo: nat, hi: nat)
    requires Remembers(w, a) && CanHappen(w, Delivered(m, now), a, lo, hi)
    ensures Remembers(After(w, Delivered(m, now), a), a)
    ensures LinksOf(Stored(w.t, m, a), a) == LinksOf(w.t, a) + {m.linkId}
  {
    DeliveryLinks(w.t, m, now, a);
    assert Consistent(Stored(w.t, m, a)) by {
      StoreKeepsConsistency(w.t, m, now, None);
    }
  }

  lemma NewLinkKeepsNewer(s: set<Id>, ever: map<Id, Time>, l: Id, time: Time, lo: nat)
    requires s <= ever.Keys && l !in ever
    requires forall d :: d in ever.Keys - s ==> |AsNewAs(s, ever, ever[d])| >= lo
    ensures var ever' := ever[l := time];
            forall d :: d in ever'.Keys - (s + {l}) ==> |AsNewAs(s + {l}, ever', ever'[d])| >= lo
    ensures |s + {l}| == |s| + 1
  {
    var ever' := ever[l := time];
    forall d | d in ever'.Keys - (s + {l}) ensures |AsNewAs(s + {l}, ever', ever'[d])| >= lo {
      SubsetSize(AsNewAs(s, ever, ever[d]), AsNewAs(s + {l}, ever', ever'[d]));
    }
  }

  lemma DeliveryKeeps(w: Watch, m: Message, now: Time, a: Id, lo: nat, hi: nat)
    requires Invariant(w, a, lo, hi) && CanHappen(w, Delivered(m, now), a, lo, hi)
    ensures Invariant(After(w, Delivered(m, now), a), a, lo, hi)
  {
    DeliveryRemembers(w, m, now, a, lo, hi);
    NewLinkKeepsNewer(LinksOf(w.t, a), w.ever, m.linkId, m.email.receivedAt, lo);
  }

  /** After a cap job, everything it or an earlier job dropped still has `lo` newer survivors. */
  lemma CapKeepsNewer(s: set<Id>, ever: map<Id, Time>, victims: set<Id>, n: nat, lo: nat, d: Id)
    requires s <= ever.Keys && victims <= s && d in ever
    requires |s - victims| == (if |s| <= n then |s| else n) && lo <= n
    requires forall k, v :: k in s - victims && v in victims ==> ever[k] >= ever[v]
    requires d !in s ==> |AsNewAs(s, ever, ever[d])| >= lo
    requires d !in s - victims
    ensures |AsNewAs(s - victims, ever, ever[d])| >= lo
  {
    var kept := s - victims;
    SubsetSize(kept, s);
    if v :| v in victims && ever[v] >= ever[d] {
      assert AsNewAs(kept, ever, ever[d]) == kept;
    } else {
      assert AsNewAs(kept, ever, ever[d]) == AsNewAs(s, ever, ever[d]);
    }
  }

  lemma CapRemembers(w: Watch, victims: set<Id>, a: Id)
    requires Remembers(w, a)
    ensures Remembers(w.(t := DeleteLinks(w.t, victims)), a)
    ensures LinksOf(DeleteLinks(w.t, victims), a) == LinksOf(w.t, a) - victims
  {
    DeleteLinksKeepsConsistency(w.t, victims);
    MailboxAfterUnlinking(w.t, victims, a);
  }

  lemma CapChoiceInMemory(w: Watch, n: nat, victims: set<Id>, a: Id)
    requires Remembers(w, a) && IsCapChoice(w.t, a, n, victims)
    ensures forall k, v :: k in LinksOf(w.t, a) - victims && v in victims ==> w.ever[k] >= w.ever[v]
  {
  }

  lemma CapKeeps(w: Watch, n: nat, victims: set<Id>, a: Id, lo: nat, hi: nat)
    requires Invariant(w, a, lo, hi) && CanHappen(w, CapRan(n, victims), a, lo, hi)
    ensures Invariant(After(w, CapRan(n, victims), a), a, lo, hi)
  {
    var s, w' := LinksOf(w.t, a), After(w, CapRan(n, victims), a);
    CapRemembers(w, victims, a);
    assert Remembers(w', a);
    CapChoiceInMemory(w, n, victims, a);
    forall d | d in w.ever.Keys - (s - victims) ensures |AsNewAs(s - victims, w.ever, w.ever[d])| >= lo {
      CapKeepsNewer(s, w.ever, victims, n, lo, d);
    }
  }

  lemma StepKeeps(w: Watch, e: Event, a: Id, lo: nat, hi: nat)
    requires Invariant(w, a, lo, hi) && CanHappen(w, e, a, lo, hi)
    ensures Invariant(After(w, e, a), a, lo, hi)
  {
    match e
    case Delivered(m, now) => DeliveryKeeps(w, m, now, a, lo, hi);
    case CapRan(n, victims) => CapKeeps(w, n, victims, a, lo, hi);
    case CapFailed =>
    case Elsewhere(t') =>
      forall l | l in LinksOf(w.t, a) ensures ReceivedAt(t', l) == ReceivedAt(w.t, l) {
        assert LinkUntouched(w.t, t', l);
      }
  }

  lemma RunPrefix(states: seq<Watch>, events: seq<Event>, a: Id, lo: nat, hi: nat, n: nat)
    requires IsRun(states, events, a, lo, hi) && n <= |events|
    ensures IsRun(states[..n + 1], events[..n], a, lo, hi)
  {
  }

  lemma StartHolds(w: Watch, a: Id, lo: nat, hi: nat)
    requires IsStart(w, a, hi)
    ensures Invariant(w, a, lo, hi)
  {
  }

  lemma {:induction false} RunKeeps(states: seq<Watch>, events: seq<Event>, a: Id, lo: nat, hi: nat)
    requires IsRun(states, events, a, lo, hi) && IsStart(states[0], a, hi)
    ensures Invariant(states[|events|], a, lo, hi)
    decreases |events|
  {
    if events == [] {
      StartHolds(states[0], a, lo, hi);
    } else {
      var n := |events| - 1;
      RunPrefix(states, events, a, lo, hi, n);
      RunKeeps(states[..n + 1], events[..n], a, lo, hi);
      StepKeeps(states[n], events[n], a, lo, hi);
    }
  }

  // ------------------------------------------------------------------- theorems

  /** `kept` is a choice of the n newest among everything in `ever`. */
  ghost predicate IsNewest(kept: set<Id>, ever: map<Id, Time>, n: nat) {
    && kept <= ever.Keys
    && |kept| == (if |ever| <= n then |ever| else n)
    && forall k, d :: k in kept && d in ever.Keys - kept ==> ever[k] >= ever[d]
  }

  /**
   At every point of every run, with a cap that may vary between lo and hi, the mailbox
   exceeds the upper cap by at most its unfinished and failed jobs, and every message it
   lost is outnumbered by lo messages at least as new that it still holds.
   */
  lemma MailboxStaysBounded(states: seq<Watch>, events: seq<Event>, a: Id, lo: nat, hi: nat, i: nat)
    requires IsRun(states, events, a, lo, hi) && IsStart(states[0], a, hi) && i <= |events|
    ensures Consistent(states[i].t)
    ensures |LinksOf(states[i].t, a)| <= hi + states[i].pending + states[i].failed
    ensures LinksOf(states[i].t, a) <= states[i].ever.Keys
    ensures forall d :: d in states[i].ever.Keys - LinksOf(states[i].t, a) ==>
      |AsNewAs(LinksOf(states[i].t, a), states[i].ever, states[i].ever[d])| >= lo
  {
    RunPrefix(states, events, a, lo, hi, i);
    RunKeeps(states[..i + 1], events[..i], a, lo, hi);
  }

  lemma DroppedIsOlder(s: set<Id>, ever: map<Id, Time>, n: nat, d: Id)
    requires s <= ever.Keys && |s| <= n && d in ever && |AsNewAs(s, ever, ever[d])| >= n
    ensures |s| == n && forall k :: k in s ==> ever[k] >= ever[d]
  {
    SubsetSize(AsNewAs(s, ever, ever[d]), s);
    assert AsNewAs(s, ever, ever[d]) == s;
  }

  lemma OutnumberedIsNewest(s: set<Id>, ever: map<Id, Time>, n: nat)
    requires s <= ever.Keys && |s| <= n
    requires forall d :: d in ever.Keys - s ==> |AsNewAs(s, ever, ever[d])| >= n
    ensures IsNewest(s, ever, n)
  {
    forall d | d in ever.Keys - s ensures |s| == n && forall k :: k in s ==> ever[k] >= ever[d] {
      DroppedIsOlder(s, ever, n, d);
    }
    SubsetSize(s, ever.Keys);
    if s != ever.Keys {
      assert |s| < |ever.Keys|;
      var d :| d in ever.Keys - s;
    }
  }

  /** With a fixed cap, a mailbox at rest holds exactly the n newest messages it ever got. */
  lemma MailboxAtRestHoldsTheNewest(states: seq<Watch>, events: seq<Event>, a: Id, n: nat)
    requires IsRun(states, events, a, n, n) && IsStart(states[0], a, n)
    requires states[|events|].pending == 0 && states[|events|].failed == 0
    ensures IsNewest(LinksOf(states[|events|].t, a), states[|events|].ever, n)
  {
    RunKeeps(states, events, a, n, n);
    OutnumberedIsNewest(LinksOf(states[|events|].t, a), states[|events|].ever, n);
  }

  lemma DifferentChoicesTie(kept: set<Id>, other: set<Id>, ever: map<Id, Time>, n: nat, x: Id)
    returns (y: Id)
    requires IsNewest(kept, ever, n) && IsNewest(other, ever, n) && x in kept && x !in other
    ensures y in other && y !in kept && ever[x] == ever[y]
  {
    if other <= kept {
      SubsetSize(other, kept);
      assert false;
    }
    y :| y in other && y !in kept;
  }

  /** When no two messages arrived at the same instant there is only one such choice. */
  lemma NewestIsUnique(kept: set<Id>, other: set<Id>, ever: map<Id, Time>, n: nat)
    requires IsNewest(kept, ever, n) && IsNewest(other, ever, n)
    requires forall k, l :: k in ever && l in ever && ever[k] == ever[l] ==> k == l
    ensures kept == other
  {
    if x :| x in kept && x !in other {
      var y := DifferentChoicesTie(kept, other, ever, n, x);
      assert false;
    }
    SubsetSize(kept, other);
  }

  /**
   Confluence: two servers that received the same messages for a mailbox, at distinct
   times, hold the same mail once at rest, however their cap jobs interleaved.
   */
  lemma InterleavingDoesNotMatter(states: seq<Watch>, events: seq<Event>, states': seq<Watch>, events': seq<Event>, a: Id, n: nat)
    requires IsRun(states, events, a, n, n) && IsStart(states[0], a, n)
    requires IsRun(states', events', a, n, n) && IsStart(states'[0], a, n)
    requires states[|events|].pending == 0 == states[|events|].failed
    requires states'[|events'|].pending == 0 == states'[|events'|].failed
    requires states[|events|].ever == states'[|events'|].ever
    requires var ever := states[|events|].ever; forall k, l :: k in ever && l in ever && ever[k] == ever[l] ==> k == l
    ensures LinksOf(states[|events|].t, a) == LinksOf(states'[|events'|].t, a)
  {
    MailboxAtRestHoldsTheNewest(states, events, a, n);
    MailboxAtRestHoldsTheNewest(states', events', a, n);
    NewestIsUnique(LinksOf(states[|events|].t, a), LinksOf(states'[|events'|].t, a), states[|events|].ever, n);
  }

  // --------------------------------------------------------- the bound is sharp

  const MAILBOX: Id := 0
  const OWNER: Address := Address("a@b", "token", Permanent, None)

  function NextMessage(n: nat): Message { Message(n, n, Email("a@b", n, 0), []) }

  /** One permanent mailbox with n messages, all of whose ids are below n, and nothing lost so far. */
  ghost predicate IsFilled(w: Watch, n: nat, pending: nat) {
    && w.pending == pending && w.failed == 0
    && w.t.addresses == map[MAILBOX := OWNER]
    && w.t.emails.Keys == w.t.links.Keys && |w.t.links| == n
    && (forall l :: l in w.t.links ==> l < n && w.t.links[l].addressId == MAILBOX)
    && (forall l :: l in w.ever ==> l < n)
  }

  lemma FilledLinks(w: Watch, n: nat, pending: nat)
    requires IsFilled(w, n, pending)
    ensures LinksOf(w.t, MAILBOX) == w.t.links.Keys && |LinksOf(w.t, MAILBOX)| == n
  {
  }

  lemma OwnerIsFound(t: Tables)
    requires t.addresses == map[MAILBOX := OWNER]
    ensures FindByEmail(t, "a@b") == Some(MAILBOX) && ToLower("a@b") == "a@b"
  {
    assert MAILBOX in t.addresses && t.addresses[MAILBOX].email == "a@b";
  }

  lemma NextDelivery(w: Watch, n: nat, pending: nat, cap: nat) returns (e: Event)
    requires IsFilled(w, n, pending)
    ensures CanHappen(w, e, MAILBOX, cap, cap) && IsFilled(After(w, e, MAILBOX), n + 1, pending + 1)
  {
    e := Delivered(NextMessage(n), 0);
    var m := NextMessage(n);
    assert Store(w.t, m, 0, None) == (Stored(w.t, m, MAILBOX), Some(MAILBOX)) by {
      OwnerIsFound(w.t);
      assert Recipient(w.t, m, 0) == Some(MAILBOX);
    }
    OneMoreMessage(w, n, pending);
  }

  lemma OneMoreMessage(w: Watch, n: nat, pending: nat)
    requires IsFilled(w, n, pending)
    ensures IsFilled(After(w, Delivered(NextMessage(n), 0), MAILBOX), n + 1, pending + 1)
  {
  }

  lemma IdleCapJob(w: Watch, n: nat, pending: nat, cap: nat) returns (e: Event)
    requires IsFilled(w, n, pending) && n <= cap && pending > 0
    ensures CanHappen(w, e, MAILBOX, cap, cap) && IsFilled(After(w, e, MAILBOX), n, pending - 1)
  {
    e := CapRan(cap, {});
    FilledLinks(w, n, pending);
    assert LinksOf(w.t, MAILBOX) - {} == LinksOf(w.t, MAILBOX);
    UnlinkNothing(w.t);
  }

  lemma OneMoreStep(states: seq<Watch>, events: seq<Event>, e: Event, a: Id, lo: nat, hi: nat)
    requires IsRun(states, events, a, lo, hi) && CanHappen(states[|events|], e, a, lo, hi)
    ensures IsRun(states + [After(states[|events|], e, a)], events + [e], a, lo, hi)
  {
  }

  /** A run from an empty mailbox to one of n messages with the given number of pending jobs. */
  ghost predicate Reached(states: seq<Watch>, events: seq<Event>, cap: nat, n: nat, pending: nat) {
    && IsRun(states, events, MAILBOX, cap, cap) && IsStart(states[0], MAILBOX, cap)
    && IsFilled(states[|events|], n, pending)
  }

  lemma ReachedNext(states: seq<Watch>, events: seq<Event>, e: Event, cap: nat, n: nat, pending: nat, n': nat, pending': nat)
    requires Reached(states, events, cap, n, pending) && CanHappen(states[|events|], e, MAILBOX, cap, cap)
    requires IsFilled(After(states[|events|], e, MAILBOX), n', pending')
    ensures Reached(states + [After(states[|events|], e, MAILBOX)], events + [e], cap, n', pending')
  {
    OneMoreStep(states, events, e, MAILBOX, cap, cap);
  }

  lemma {:induction false} Deliver(states: seq<Watch>, events: seq<Event>, cap: nat, n: nat, pending: nat, count: nat)
    returns (states': seq<Watch>, events': seq<Event>)
    requires Reached(states, events, cap, n, pending)
    ensures Reached(states', events', cap, n + count, pending + count)
    decreases count
  {
    states', events' := states, events;
    if count > 0 {
      var w := states[|events|];
      var e := NextDelivery(w, n, pending, cap);
      ReachedNext(states, events, e, cap, n, pending, n + 1, pending + 1);
      states', events' := Deliver(states + [After(w, e, MAILBOX)], events + [e], cap, n + 1, pending + 1, count - 1);
    }
  }

  lemma DrainOne(states: seq<Watch>, events: seq<Event>, cap: nat, n: nat, pending: nat)
    returns (states': seq<Watch>, events': seq<Event>)
    requires Reached(states, events, cap, n, pending) && n <= cap && pending > 0
    ensures Reached(states', events', cap, n, pending - 1)
  {
    var w := states[|events|];
    var e := IdleCapJob(w, n, pending, cap);
    ReachedNext(states, events, e, cap, n, pending, n, pending - 1);
    states', events' := states + [After(w, e, MAILBOX)], events + [e];
  }

  lemma {:induction false} Drain(states: seq<Watch>, events: seq<Event>, cap: nat, n: nat, pending: nat)
    returns (states': seq<Watch>, events': seq<Event>)
    requires Reached(states, events, cap, n, pending) && n <= cap
    ensures Reached(states', events', cap, n, 0)
    decreases pending
  {
    states', events' := states, events;
    if pending > 0 {
      states', events' := DrainOne(states, events, cap, n, pending);
      states', events' := Drain(states', events', cap, n, pending - 1);
    }
  }

  lemma EmptyStart(cap: nat) returns (w: Watch)
    ensures IsStart(w, MAILBOX, cap) && IsFilled(w, 0, 0)
  {
    w := Watch(EMPTY.(addresses := map[MAILBOX := OWNER]), map[], 0, 0);
    assert LinksOf(w.t, MAILBOX) == {};
  }

  /** The bound is sharp: for every cap and every k, some run ends with cap + k messages and k pending jobs. */
  lemma BoundIsReached(cap: nat, k: nat) returns (states: seq<Watch>, events: seq<Event>)
    ensures IsRun(states, events, MAILBOX, cap, cap) && IsStart(states[0], MAILBOX, cap)
    ensures var w := states[|events|]; w.pending == k && w.failed == 0 && |LinksOf(w.t, MAILBOX)| == cap + k
  {
    var w := EmptyStart(cap);
    states, events := Deliver([w], [], cap, 0, 0, cap);
    states, events := Drain(states, events, cap, cap, cap);
    states, events := Deliver(states, events, cap, cap, 0, k);
    FilledLinks(states[|events|], cap + k, k);
  }
}
