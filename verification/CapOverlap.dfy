/**
 The per-address cap when its statements overlap (mx/database.go). EnforceEmailLimit first
 chooses its victims, on the rows it sees when it starts, and deletes them later; between
 the two, deliveries and other cap jobs of the same mailbox go on. Links that another job
 has deleted meanwhile are skipped.

 A job that fails leaves no trace, so it counts as waiting until it fails.
 */
module CapOverlap {
  import opened Wrappers
  import opened MailTables
  import opened MailOps
  import MailboxCap

  /**
   The tables, every link this mailbox ever got with its message's time of receipt, the
   cap jobs that have not chosen yet, the choices not yet carried out, in the order they
   were made, and the jobs that failed since the start.
   */
  datatype Watch = Watch(t: Tables, ever: map<Id, Time>, waiting: nat, inFlight: seq<set<Id>>, failed: nat)

  datatype Event =
    | Delivered(m: Message, now: Time)
    | Chose(n: nat, victims: set<Id>)
    | Deleted(i: nat)
    | Failed
    | Elsewhere(t': Tables)

  /** `lo` and `hi` bound the cap in force at each choice; a fixed cap is lo == hi. */
  ghost predicate CanHappen(w: Watch, e: Event, a: Id, lo: nat, hi: nat) {
    match e
    case Delivered(m, now) => m.linkId !in w.ever && Store(w.t, m, now, None) == (Stored(w.t, m, a), Some(a))
    case Chose(n, victims) => w.waiting > 0 && lo <= n <= hi && IsCapChoice(w.t, a, n, victims)
    case Deleted(i) => i < |w.inFlight|
    case Failed => w.waiting > 0
    case Elsewhere(t') => Consistent(t') && MailboxCap.SameMailbox(w.t, t', a)
  }

  function Drop<T>(s: seq<T>, i: nat): seq<T>
    requires i < |s|
  {
    s[..i] + s[i + 1..]
  }

  function After(w: Watch, e: Event, a: Id): Watch {
    match e
    case Delivered(m, now) =>
      w.(t := Stored(w.t, m, a), ever := w.ever[m.linkId := m.email.receivedAt], waiting := w.waiting + 1)
    case Chose(n, victims) => w.(waiting := if w.waiting > 0 then w.waiting - 1 else 0, inFlight := w.inFlight + [victims])
    case Deleted(i) =>
      if i < |w.inFlight| then w.(t := DeleteLinks(w.t, w.inFlight[i]), inFlight := Drop(w.inFlight, i)) else w
    case Failed => w.(waiting := if w.waiting > 0 then w.waiting - 1 else 0, failed := w.failed + 1)
    case Elsewhere(t') => w.(t := t')
  }

  /** A run: states and the events between them. */
  ghost predicate IsRun(states: seq<Watch>, events: seq<Event>, a: Id, lo: nat, hi: nat) {
    && |states| == |events| + 1
    && forall i :: 0 <= i < |events| ==>
         && CanHappen(states[i], events[i], a, lo, hi)
         && states[i + 1] == After(states[i], events[i], a)
  }

  ghost predicate IsAtRest(w: Watch) { w.waiting == 0 && w.inFlight == [] && w.failed == 0 }

  /** Start: any consistent tables in which the mailbox is within the cap. */
  ghost predicate IsStart(w: Watch, a: Id, hi: nat) {
    && Consistent(w.t) && IsAtRest(w)
    && w.ever.Keys == LinksOf(w.t, a) && |LinksOf(w.t, a)| <= hi
    && forall l :: l in w.ever ==> w.ever[l] == ReceivedAt(w.t, l)
  }

  // ------------------------------------------------------------- how many links

  /**
   The mailbox holds at most the cap and one link for each unfinished or failed job; and
   without the victims of choice `i`, one for each job that has yet to choose, chose after
   it or failed.
   */
  ghost predicate IsBounded(links: set<Id>, waiting: nat, inFlight: seq<set<Id>>, failed: nat, hi: nat) {
    && |links| <= hi + waiting + |inFlight| + failed
    && forall i :: 0 <= i < |inFlight| ==> |links - inFlight[i]| <= hi + waiting + (|inFlight| - 1 - i) + failed
  }

  lemma DeliveryBounded(links: set<Id>, waiting: nat, inFlight: seq<set<Id>>, failed: nat, hi: nat, l: Id)
    requires IsBounded(links, waiting, inFlight, failed, hi)
    ensures IsBounded(links + {l}, waiting + 1, inFlight, failed, hi)
  {
    forall i | 0 <= i < |inFlight|
      ensures |links + {l} - inFlight[i]| <= hi + waiting + 1 + (|inFlight| - 1 - i) + failed
    {
      SubsetSize(links + {l} - inFlight[i], (links - inFlight[i]) + {l});
    }
  }

  lemma ChoiceBounded(links: set<Id>, waiting: nat, inFlight: seq<set<Id>>, failed: nat, hi: nat, victims: set<Id>)
    requires IsBounded(links, waiting, inFlight, failed, hi) && waiting > 0 && |links - victims| <= hi
    ensures IsBounded(links, waiting - 1, inFlight + [victims], failed, hi)
  {
  }

  lemma DeletionBounded(links: set<Id>, waiting: nat, inFlight: seq<set<Id>>, failed: nat, hi: nat, k: nat)
    requires IsBounded(links, waiting, inFlight, failed, hi) && k < |inFlight|
    ensures IsBounded(links - inFlight[k], waiting, Drop(inFlight, k), failed, hi)
  {
    var rest, left := Drop(inFlight, k), links - inFlight[k];
    forall i | 0 <= i < |rest| ensures |left - rest[i]| <= hi + waiting + (|rest| - 1 - i) + failed {
      if i < k {
        SubsetSize(left - rest[i], left);
      } else {
        SubsetSize(left - rest[i], links - inFlight[i + 1]);
      }
    }
  }

  // ---------------------------------------------------------- which links are lost

  function OthersAsNew(ever: map<Id, Time>, d: Id): set<Id>
    requires d in ever
  {
    set k | k in ever && k != d && ever[k] >= ever[d]
  }

  /** At least `lo` other messages that the mailbox ever got are as new as `d`. */
  ghost predicate IsOutnumbered(ever: map<Id, Time>, d: Id, lo: nat) {
    d in ever && |OthersAsNew(ever, d)| >= lo
  }

  /** Everything lost, or chosen to be deleted, is outnumbered. */
  ghost predicate LosesOnlyOutnumbered(links: set<Id>, inFlight: seq<set<Id>>, ever: map<Id, Time>, lo: nat) {
    && (forall d :: d in ever.Keys - links ==> IsOutnumbered(ever, d, lo))
    && forall i, d :: 0 <= i < |inFlight| && d in inFlight[i] ==> IsOutnumbered(ever, d, lo)
  }

  lemma StillOutnumbered(ever: map<Id, Time>, d: Id, lo: nat, l: Id, time: Time)
    requires IsOutnumbered(ever, d, lo) && l !in ever
    ensures IsOutnumbered(ever[l := time], d, lo)
  {
    SubsetSize(OthersAsNew(ever, d), OthersAsNew(ever[l := time], d));
  }

  lemma DeliveryLosesNothing(links: set<Id>, inFlight: seq<set<Id>>, ever: map<Id, Time>, lo: nat, l: Id, time: Time)
    requires LosesOnlyOutnumbered(links, inFlight, ever, lo) && l !in ever
    ensures LosesOnlyOutnumbered(links + {l}, inFlight, ever[l := time], lo)
  {
    forall d | d in ever && d !in links ensures IsOutnumbered(ever[l := time], d, lo) {
      StillOutnumbered(ever, d, lo, l, time);
    }
    forall i, d | 0 <= i < |inFlight| && d in inFlight[i] ensures IsOutnumbered(ever[l := time], d, lo) {
      StillOutnumbered(ever, d, lo, l, time);
    }
  }

  lemma ChoiceLosesOutnumbered(links: set<Id>, inFlight: seq<set<Id>>, ever: map<Id, Time>, lo: nat, victims: set<Id>)
    requires LosesOnlyOutnumbered(links, inFlight, ever, lo) && forall v :: v in victims ==> IsOutnumbered(ever, v, lo)
    ensures LosesOnlyOutnumbered(links, inFlight + [victims], ever, lo)
  {
  }

  lemma DeletionLosesOutnumbered(links: set<Id>, inFlight: seq<set<Id>>, ever: map<Id, Time>, lo: nat, k: nat)
    requires LosesOnlyOutnumbered(links, inFlight, ever, lo) && k < |inFlight|
    ensures LosesOnlyOutnumbered(links - inFlight[k], Drop(inFlight, k), ever, lo)
  {
    forall d | d in ever.Keys - (links - inFlight[k]) ensures IsOutnumbered(ever, d, lo) {
      assert d in inFlight[k] || d in ever.Keys - links;
    }
  }

  lemma VictimIsOutnumbered(links: set<Id>, victims: set<Id>, ever: map<Id, Time>, lo: nat, v: Id)
    requires links <= ever.Keys && v in victims && victims <= links && |links - victims| >= lo
    requires forall k :: k in links - victims ==> ever[k] >= ever[v]
    ensures IsOutnumbered(ever, v, lo)
  {
    SubsetSize(links - victims, OthersAsNew(ever, v));
  }

  // ------------------------------------------------------------------ invariant

  ghost predicate Remembers(w: Watch, a: Id) {
    && Consistent(w.t) && LinksOf(w.t, a) <= w.ever.Keys
    && forall l :: l in LinksOf(w.t, a) ==> w.ever[l] == ReceivedAt(w.t, l)
  }

  ghost predicate Invariant(w: Watch, a: Id, lo: nat, hi: nat) {
    && Remembers(w, a)
    && IsBounded(LinksOf(w.t, a), w.waiting, w.inFlight, w.failed, hi)
    && LosesOnlyOutnumbered(LinksOf(w.t, a), w.inFlight, w.ever, lo)
  }

  lemma DeliveryKeeps(w: Watch, m: Message, now: Time, a: Id, lo: nat, hi: nat)
    requires Invariant(w, a, lo, hi) && CanHappen(w, Delivered(m, now), a, lo, hi)
    ensures Invariant(After(w, Delivered(m, now), a), a, lo, hi)
  {
    var w' := After(w, Delivered(m, now), a);
    assert Remembers(w', a) && LinksOf(w'.t, a) == LinksOf(w.t, a) + {m.linkId} by {
      MailboxCap.DeliveryLinks(w.t, m, now, a);
      StoreKeepsConsistency(w.t, m, now, None);
    }
    DeliveryBounded(LinksOf(w.t, a), w.waiting, w.inFlight, w.failed, hi, m.linkId);
    DeliveryLosesNothing(LinksOf(w.t, a), w.inFlight, w.ever, lo, m.linkId, m.email.receivedAt);
  }

  lemma ChoiceOutnumbered(w: Watch, n: nat, victims: set<Id>, a: Id, lo: nat, v: Id)
    requires Remembers(w, a) && IsCapChoice(w.t, a, n, victims) && lo <= n && v in victims
    ensures IsOutnumbered(w.ever, v, lo)
  {
    var links := LinksOf(w.t, a);
    SubsetSize(links - victims, links);
    VictimIsOutnumbered(links, victims, w.ever, lo, v);
  }

  lemma ChoiceKeeps(w: Watch, n: nat, victims: set<Id>, a: Id, lo: nat, hi: nat)
    requires Invariant(w, a, lo, hi) && CanHappen(w, Chose(n, victims), a, lo, hi)
    ensures Invariant(After(w, Chose(n, victims), a), a, lo, hi)
  {
    ChoiceBounded(LinksOf(w.t, a), w.waiting, w.inFlight, w.failed, hi, victims);
    forall v | v in victims ensures IsOutnumbered(w.ever, v, lo) {
      ChoiceOutnumbered(w, n, victims, a, lo, v);
    }
    ChoiceLosesOutnumbered(LinksOf(w.t, a), w.inFlight, w.ever, lo, victims);
  }

  lemma DeletionKeeps(w: Watch, k: nat, a: Id, lo: nat, hi: nat)
    requires Invariant(w, a, lo, hi) && k < |w.inFlight|
    ensures Invariant(After(w, Deleted(k), a), a, lo, hi)
  {
    var w' := After(w, Deleted(k), a);
    assert Remembers(w', a) && LinksOf(w'.t, a) == LinksOf(w.t, a) - w.inFlight[k] by {
      DeleteLinksKeepsConsistency(w.t, w.inFlight[k]);
      MailboxAfterUnlinking(w.t, w.inFlight[k], a);
    }
    DeletionBounded(LinksOf(w.t, a), w.waiting, w.inFlight, w.failed, hi, k);
    DeletionLosesOutnumbered(LinksOf(w.t, a), w.inFlight, w.ever, lo, k);
  }

  lemma ElsewhereKeeps(w: Watch, t': Tables, a: Id, lo: nat, hi: nat)
    requires Invariant(w, a, lo, hi) && CanHappen(w, Elsewhere(t'), a, lo, hi)
    ensures Invariant(After(w, Elsewhere(t'), a), a, lo, hi)
  {
    forall l | l in LinksOf(w.t, a) ensures ReceivedAt(t', l) == ReceivedAt(w.t, l) {
      assert LinkUntouched(w.t, t', l);
    }
  }

  lemma StepKeeps(w: Watch, e: Event, a: Id, lo: nat, hi: nat)
    requires Invariant(w, a, lo, hi) && CanHappen(w, e, a, lo, hi)
    ensures Invariant(After(w, e, a), a, lo, hi)
  {
    match e
    case Delivered(m, now) => DeliveryKeeps(w, m, now, a, lo, hi);
    case Chose(n, victims) => ChoiceKeeps(w, n, victims, a, lo, hi);
    case Deleted(k) => DeletionKeeps(w, k, a, lo, hi);
    case Failed =>
    case Elsewhere(t') => ElsewhereKeeps(w, t', a, lo, hi);
  }

  lemma StartHolds(w: Watch, a: Id, lo: nat, hi: nat)
    requires IsStart(w, a, hi)
    ensures Invariant(w, a, lo, hi)
  {
  }

  lemma {:induction false} RunKeeps(states: seq<Watch>, events: seq<Event>, a: Id, lo: nat, hi: nat, i: nat)
    requires IsRun(states, events, a, lo, hi) && IsStart(states[0], a, hi) && i <= |events|
    ensures Invariant(states[i], a, lo, hi)
    decreases i
  {
    if i == 0 {
      StartHolds(states[0], a, lo, hi);
    } else {
      RunKeeps(states, events, a, lo, hi, i - 1);
      StepKeeps(states[i - 1], events[i - 1], a, lo, hi);
    }
  }

  // ------------------------------------------------------------- what is held at rest

  function Newer(ever: map<Id, Time>, time: Time): set<Id> {
    set k | k in ever && ever[k] > time
  }

  function AsNew(ever: map<Id, Time>, time: Time): set<Id> {
    set k | k in ever && ever[k] >= time
  }

  /** No two messages received at the same instant lie on both sides of the n-th newest place. */
  ghost predicate IsClean(ever: map<Id, Time>, n: nat) {
    forall d :: d in ever ==> |AsNew(ever, ever[d])| <= n || |Newer(ever, ever[d])| >= n
  }

  lemma OutnumberedByNewer(ever: map<Id, Time>, d: Id, n: nat)
    requires IsClean(ever, n) && IsOutnumbered(ever, d, n)
    ensures |Newer(ever, ever[d])| >= n
  {
    assert AsNew(ever, ever[d]) == OthersAsNew(ever, d) + {d};
  }

  lemma {:induction false} NewestOf(ever: map<Id, Time>, ids: set<Id>) returns (m: Id)
    requires ids != {} && ids <= ever.Keys
    ensures m in ids && forall k: Id :: k in ids ==> ever[k] <= ever[m]
    decreases ids
  {
    m :| m in ids;
    var rest := ids - {m};
    if rest != {} {
      var z: Id := NewestOf(ever, rest);
      assert forall k :: k in ids ==> k == m || k in rest;
      m := if ever[z] >= ever[m] then z else m;
    } else {
      assert ids == {m};
    }
  }

  /** All that is newer than anything lost is still there, and there is enough of it. */
  lemma HoldsTheNewer(links: set<Id>, ever: map<Id, Time>, n: nat) returns (m: Id)
    requires links <= ever.Keys && links != ever.Keys && IsClean(ever, n)
    requires forall d :: d in ever.Keys - links ==> IsOutnumbered(ever, d, n)
    ensures m in ever.Keys - links && forall d: Id :: d in ever.Keys - links ==> ever[d] <= ever[m]
    ensures Newer(ever, ever[m]) <= links && |Newer(ever, ever[m])| >= n
  {
    assert ever.Keys - links != {} by {
      assert ever.Keys == links + (ever.Keys - links);
    }
    m := NewestOf(ever, ever.Keys - links);
    OutnumberedByNewer(ever, m, n);
  }

  lemma RestIsNewest(links: set<Id>, ever: map<Id, Time>, n: nat)
    requires links <= ever.Keys && |links| <= n && IsClean(ever, n)
    requires forall d :: d in ever.Keys - links ==> IsOutnumbered(ever, d, n)
    ensures MailboxCap.IsNewest(links, ever, n)
  {
    if links != ever.Keys {
      var m := HoldsTheNewer(links, ever, n);
      SubsetSize(Newer(ever, ever[m]), links);
      SubsetSize(links + {m}, ever.Keys);
    }
  }

  /**
   At every point of every run, with statements overlapping in any way and a cap that may
   vary between lo and hi, the mailbox exceeds the upper cap by at most its unfinished and
   failed jobs, and every message it lost is outnumbered by lo others as new that it ever
   got; unless a tie lies across the lower cap, by lo newer ones that it still holds.
   */
  lemma MailboxStaysBounded(states: seq<Watch>, events: seq<Event>, a: Id, lo: nat, hi: nat, i: nat)
    requires IsRun(states, events, a, lo, hi) && IsStart(states[0], a, hi) && i <= |events|
    ensures Consistent(states[i].t) && LinksOf(states[i].t, a) <= states[i].ever.Keys
    ensures |LinksOf(states[i].t, a)| <= hi + states[i].waiting + |states[i].inFlight| + states[i].failed
    ensures forall d :: d in states[i].ever.Keys - LinksOf(states[i].t, a) ==> IsOutnumbered(states[i].ever, d, lo)
    ensures IsClean(states[i].ever, lo) ==> forall d :: d in states[i].ever.Keys - LinksOf(states[i].t, a) ==>
      |Newer(states[i].ever, states[i].ever[d]) * LinksOf(states[i].t, a)| >= lo
  {
    RunKeeps(states, events, a, lo, hi, i);
    var ever, links := states[i].ever, LinksOf(states[i].t, a);
    if IsClean(ever, lo) && links != ever.Keys {
      var m := HoldsTheNewer(links, ever, lo);
      forall d | d in ever.Keys - links ensures |Newer(ever, ever[d]) * links| >= lo {
        SubsetSize(Newer(ever, ever[m]), Newer(ever, ever[d]) * links);
      }
    }
  }

  /** With a fixed cap and no tie across it, a mailbox at rest holds exactly the n newest messages it ever got. */
  lemma MailboxAtRestHoldsTheNewest(states: seq<Watch>, events: seq<Event>, a: Id, n: nat)
    requires IsRun(states, events, a, n, n) && IsStart(states[0], a, n)
    requires IsAtRest(states[|events|]) && IsClean(states[|events|].ever, n)
    ensures MailboxCap.IsNewest(LinksOf(states[|events|].t, a), states[|events|].ever, n)
  {
    RunKeeps(states, events, a, n, n, |events|);
    RestIsNewest(LinksOf(states[|events|].t, a), states[|events|].ever, n);
  }

  lemma TieAcrossTheCap(kept: set<Id>, other: set<Id>, ever: map<Id, Time>, n: nat, x: Id)
    requires MailboxCap.IsNewest(kept, ever, n) && MailboxCap.IsNewest(other, ever, n) && x in kept && x !in other
    ensures !IsClean(ever, n)
  {
    var y := MailboxCap.DifferentChoicesTie(kept, other, ever, n, x);
    SubsetSize(kept + {y}, ever.Keys);
    SubsetSize(kept + {y}, AsNew(ever, ever[x]));
    SubsetSize(Newer(ever, ever[x]) + {x}, kept);
  }

  /** Then there is only one such choice. */
  lemma NewestIsUnique(kept: set<Id>, other: set<Id>, ever: map<Id, Time>, n: nat)
    requires MailboxCap.IsNewest(kept, ever, n) && MailboxCap.IsNewest(other, ever, n) && IsClean(ever, n)
    ensures kept == other
  {
    if x :| x in kept && x !in other {
      TieAcrossTheCap(kept, other, ever, n, x);
    }
    if x :| x in other && x !in kept {
      TieAcrossTheCap(other, kept, ever, n, x);
    }
  }

  /**
   Confluence: two servers that received the same messages for a mailbox, with no tie
   across the cap, hold the same mail once at rest, however their deliveries, choices and
   deletions interleaved.
   */
  lemma InterleavingDoesNotMatter(states: seq<Watch>, events: seq<Event>, states': seq<Watch>, events': seq<Event>, a: Id, n: nat)
    requires IsRun(states, events, a, n, n) && IsStart(states[0], a, n) && IsAtRest(states[|events|])
    requires IsRun(states', events', a, n, n) && IsStart(states'[0], a, n) && IsAtRest(states'[|events'|])
    requires states[|events|].ever == states'[|events'|].ever && IsClean(states[|events|].ever, n)
    ensures LinksOf(states[|events|].t, a) == LinksOf(states'[|events'|].t, a)
  {
    MailboxAtRestHoldsTheNewest(states, events, a, n);
    MailboxAtRestHoldsTheNewest(states', events', a, n);
    NewestIsUnique(LinksOf(states[|events|].t, a), LinksOf(states'[|events'|].t, a), states[|events|].ever, n);
  }

  // ------------------------------------------------------- what a tie can destroy

  const MAILBOX: Id := 0
  const OWNER: Address := Address("a@b", "token", Permanent, None)

  /** The tables hold one mailbox, with the messages `links` of all those it ever got. */
  ghost predicate Contains(t: Tables, ever: map<Id, Time>, links: set<Id>) {
    && t.addresses == map[MAILBOX := OWNER]
    && t.links.Keys == links && t.emails.Keys == links && links <= ever.Keys
    && forall l :: l in links ==> t.links[l] == Link(l, MAILBOX) && t.emails[l].receivedAt == ever[l]
  }

  ghost predicate Holds(w: Watch, ever: map<Id, Time>, links: set<Id>, waiting: nat, inFlight: seq<set<Id>>) {
    w.ever == ever && w.waiting == waiting && w.inFlight == inFlight && w.failed == 0 && Contains(w.t, ever, links)
  }

  /** A run from the empty mailbox to that state, with a fixed cap. */
  ghost predicate Reaches(states: seq<Watch>, events: seq<Event>, n: nat, ever: map<Id, Time>, links: set<Id>,
                          waiting: nat, inFlight: seq<set<Id>>) {
    && IsRun(states, events, MAILBOX, n, n) && IsStart(states[0], MAILBOX, n) && states[0].ever == map[]
    && Holds(states[|events|], ever, links, waiting, inFlight)
  }

  lemma HeldLinks(t: Tables, ever: map<Id, Time>, links: set<Id>)
    requires Contains(t, ever, links)
    ensures LinksOf(t, MAILBOX) == links && forall l :: l in links ==> ReceivedAt(t, l) == ever[l]
  {
  }

  lemma OneMoreStep(states: seq<Watch>, events: seq<Event>, e: Event, a: Id, lo: nat, hi: nat)
    requires IsRun(states, events, a, lo, hi) && CanHappen(states[|events|], e, a, lo, hi)
    ensures IsRun(states + [After(states[|events|], e, a)], events + [e], a, lo, hi)
  {
  }

  /** `e` leads on from the end of such a run to another such state. */
  lemma ReachesNext(states: seq<Watch>, events: seq<Event>, n: nat, ever: map<Id, Time>, links: set<Id>, waiting: nat,
                    inFlight: seq<set<Id>>, e: Event, ever': map<Id, Time>, links': set<Id>, waiting': nat, inFlight': seq<set<Id>>)
    requires Reaches(states, events, n, ever, links, waiting, inFlight) && CanHappen(states[|events|], e, MAILBOX, n, n)
    requires Holds(After(states[|events|], e, MAILBOX), ever', links', waiting', inFlight')
    ensures Reaches(states + [After(states[|events|], e, MAILBOX)], events + [e], n, ever', links', waiting', inFlight')
  {
    OneMoreStep(states, events, e, MAILBOX, n, n);
  }

  function MessageOf(l: Id, time: Time): Message { Message(l, l, Email("a@b", time, 0), []) }

  lemma StoredContains(t: Tables, ever: map<Id, Time>, l: Id, time: Time)
    requires Contains(t, ever, ever.Keys) && l !in ever
    ensures Contains(Stored(t, MessageOf(l, time), MAILBOX), ever[l := time], ever[l := time].Keys)
  {
  }

  lemma StoresMessage(t: Tables, ever: map<Id, Time>, l: Id, time: Time)
    requires Contains(t, ever, ever.Keys) && l !in ever
    ensures Store(t, MessageOf(l, time), 0, None) == (Stored(t, MessageOf(l, time), MAILBOX), Some(MAILBOX))
  {
    MailboxCap.OwnerIsFound(t);
    assert Recipient(t, MessageOf(l, time), 0) == Some(MAILBOX);
  }

  lemma DeliverOne(w: Watch, ever: map<Id, Time>, waiting: nat, n: nat, l: Id, time: Time) returns (e: Event)
    requires Holds(w, ever, ever.Keys, waiting, []) && l !in ever
    ensures CanHappen(w, e, MAILBOX, n, n)
    ensures Holds(After(w, e, MAILBOX), ever[l := time], ever[l := time].Keys, waiting + 1, [])
  {
    e := Delivered(MessageOf(l, time), 0);
    StoresMessage(w.t, ever, l, time);
    StoredContains(w.t, ever, l, time);
  }

  /** `victims` are all but n newest of `links`. */
  ghost predicate IsChoice(ever: map<Id, Time>, links: set<Id>, victims: set<Id>, n: nat) {
    && victims <= links <= ever.Keys && |links - victims| == (if |links| <= n then |links| else n)
    && forall k, v :: k in links - victims && v in victims ==> ever[k] >= ever[v]
  }

  lemma ChooseOne(w: Watch, ever: map<Id, Time>, links: set<Id>, waiting: nat, inFlight: seq<set<Id>>, n: nat, victims: set<Id>)
    returns (e: Event)
    requires Holds(w, ever, links, waiting, inFlight) && waiting > 0 && IsChoice(ever, links, victims, n)
    ensures CanHappen(w, e, MAILBOX, n, n)
    ensures Holds(After(w, e, MAILBOX), ever, links, waiting - 1, inFlight + [victims])
  {
    HeldLinks(w.t, ever, links);
    e := Chose(n, victims);
  }

  lemma OwnOrphans(t: Tables, ever: map<Id, Time>, links: set<Id>, dead: set<Id>)
    requires Contains(t, ever, links)
    ensures OrphansOf(t, dead) == dead * links
  {
    forall l | l in links ensures LinksTo(t, l) == {l} {
    }
    forall l | l in dead * links ensures l in OrphansOf(t, dead) {
      assert t.links[l].emailId == l && LinksTo(t, l) <= dead;
    }
  }

  lemma UnlinkedContains(t: Tables, ever: map<Id, Time>, links: set<Id>, dead: set<Id>)
    requires Contains(t, ever, links)
    ensures Contains(DeleteLinks(t, dead), ever, links - dead)
  {
    OwnOrphans(t, ever, links, dead);
    SurvivingLinks(t, dead);
  }

  lemma DeleteOne(w: Watch, ever: map<Id, Time>, links: set<Id>, waiting: nat, first: set<Id>, rest: seq<set<Id>>, n: nat)
    returns (e: Event)
    requires Holds(w, ever, links, waiting, [first] + rest)
    ensures CanHappen(w, e, MAILBOX, n, n)
    ensures Holds(After(w, e, MAILBOX), ever, links - first, waiting, rest)
  {
    e := Deleted(0);
    assert Drop([first] + rest, 0) == rest;
    UnlinkedContains(w.t, ever, links, first);
  }

  lemma Deliver(states: seq<Watch>, events: seq<Event>, n: nat, ever: map<Id, Time>, l: Id, time: Time, more: map<Id, Time>)
    returns (states': seq<Watch>, events': seq<Event>)
    requires Reaches(states, events, n, ever, ever.Keys, |ever|, []) && l !in ever && more == ever[l := time]
    ensures Reaches(states', events', n, more, more.Keys, |more|, [])
  {
    var e := DeliverOne(states[|events|], ever, |ever|, n, l, time);
    assert |more| == |ever| + 1;
    ReachesNext(states, events, n, ever, ever.Keys, |ever|, [], e, more, more.Keys, |more|, []);
    states', events' := states + [After(states[|events|], e, MAILBOX)], events + [e];
  }

  ghost predicate IsPart(some: map<Id, Time>, all: map<Id, Time>) {
    some.Keys <= all.Keys && forall l :: l in some ==> some[l] == all[l]
  }

  lemma OneMoreOf(some: map<Id, Time>, all: map<Id, Time>, l: Id) returns (more: map<Id, Time>)
    requires IsPart(some, all) && l in all && l !in some
    ensures more == some[l := all[l]] && IsPart(more, all) && all.Keys - more.Keys < all.Keys - some.Keys
  {
    more := some[l := all[l]];
    assert l in all.Keys - some.Keys && l !in all.Keys - more.Keys;
  }

  lemma {:induction false} DeliverAll(states: seq<Watch>, events: seq<Event>, n: nat, some: map<Id, Time>, all: map<Id, Time>)
    returns (states': seq<Watch>, events': seq<Event>)
    requires Reaches(states, events, n, some, some.Keys, |some|, []) && IsPart(some, all)
    ensures Reaches(states', events', n, all, all.Keys, |all|, [])
    decreases all.Keys - some.Keys
  {
    if l :| l in all && l !in some {
      var more := OneMoreOf(some, all, l);
      states', events' := Deliver(states, events, n, some, l, all[l], more);
      states', events' := DeliverAll(states', events', n, more, all);
    } else {
      assert some.Keys == all.Keys && some == all;
      states', events' := states, events;
    }
  }

  /** One statement after another, each finding nothing to delete. */
  lemma {:induction false} Idle(states: seq<Watch>, events: seq<Event>, n: nat, ever: map<Id, Time>, links: set<Id>, waiting: nat)
    returns (states': seq<Watch>, events': seq<Event>)
    requires Reaches(states, events, n, ever, links, waiting, []) && |links| <= n && links <= ever.Keys
    ensures Reaches(states', events', n, ever, links, 0, [])
    decreases waiting
  {
    states', events' := states, events;
    if waiting > 0 {
      assert links - {} == links;
      states', events' := Choose(states, events, n, ever, links, waiting, [], {});
      states', events' := Delete(states', events', n, ever, links, waiting - 1, [] + [{}], {}, [], links);
      states', events' := Idle(states', events', n, ever, links, waiting - 1);
    }
  }

  lemma Choose(states: seq<Watch>, events: seq<Event>, n: nat, ever: map<Id, Time>, links: set<Id>, waiting: nat,
               inFlight: seq<set<Id>>, victims: set<Id>)
    returns (states': seq<Watch>, events': seq<Event>)
    requires Reaches(states, events, n, ever, links, waiting, inFlight) && waiting > 0 && IsChoice(ever, links, victims, n)
    ensures Reaches(states', events', n, ever, links, waiting - 1, inFlight + [victims])
  {
    var w := states[|events|];
    var e := ChooseOne(w, ever, links, waiting, inFlight, n, victims);
    ReachesNext(states, events, n, ever, links, waiting, inFlight, e, ever, links, waiting - 1, inFlight + [victims]);
    states', events' := states + [After(w, e, MAILBOX)], events + [e];
  }

  lemma Delete(states: seq<Watch>, events: seq<Event>, n: nat, ever: map<Id, Time>, links: set<Id>, waiting: nat,
               inFlight: seq<set<Id>>, first: set<Id>, rest: seq<set<Id>>, left: set<Id>)
    returns (states': seq<Watch>, events': seq<Event>)
    requires Reaches(states, events, n, ever, links, waiting, inFlight) && inFlight == [first] + rest && left == links - first
    ensures Reaches(states', events', n, ever, left, waiting, rest)
  {
    var w := states[|events|];
    var e := DeleteOne(w, ever, links, waiting, first, rest, n);
    ReachesNext(states, events, n, ever, links, waiting, inFlight, e, ever, left, waiting, rest);
    states', events' := states + [After(w, e, MAILBOX)], events + [e];
  }

  lemma EmptyStart(n: nat) returns (w: Watch)
    ensures Reaches([w], [], n, map[], {}, 0, [])
  {
    w := Watch(EMPTY.(addresses := map[MAILBOX := OWNER]), map[], 0, [], 0);
    assert LinksOf(w.t, MAILBOX) == {};
  }

  lemma {:induction false} PartOf(ids: set<Id>, n: nat) returns (part: set<Id>)
    requires n <= |ids|
    ensures part <= ids && |part| == n
    decreases n
  {
    part := {};
    if n > 0 {
      part := PartOf(ids, n - 1);
      if ids <= part {
        SubsetSize(ids, part);
      }
      var x :| x in ids && x !in part;
      part := part + {x};
    }
  }

  lemma TwoParts(ids: set<Id>, n: nat) returns (one: set<Id>, two: set<Id>, x: Id)
    requires 0 < n < |ids|
    ensures one <= ids && two <= ids && |one| == n == |two| && x in one && x !in two
  {
    one := PartOf(ids, n);
    x :| x in one;
    if ids <= one {
      SubsetSize(ids, one);
    }
    var y :| y in ids && y !in one;
    two := one - {x} + {y};
  }

  lemma DisjointSizes(a: set<Id>, b: set<Id>)
    requires a !! b
    ensures |a + b| == |a| + |b|
  {
  }

  /** `kept` is a choice of n to keep among `ever`. */
  ghost predicate IsKept(ever: map<Id, Time>, kept: set<Id>, n: nat) {
    kept <= ever.Keys && |kept| == n && forall k, v :: k in kept && v in ever.Keys - kept ==> ever[k] >= ever[v]
  }

  lemma KeptFromTie(ever: map<Id, Time>, n: nat, d: Id, part: set<Id>)
    requires d in ever && |AsNew(ever, ever[d])| > n > |Newer(ever, ever[d])|
    requires part <= AsNew(ever, ever[d]) - Newer(ever, ever[d]) && |part| == n - |Newer(ever, ever[d])|
    ensures IsKept(ever, Newer(ever, ever[d]) + part, n)
  {
    DisjointSizes(Newer(ever, ever[d]), part);
  }

  /** A tie across the n-th place leaves two different choices of what to keep. */
  lemma TwoChoices(ever: map<Id, Time>, n: nat) returns (one: set<Id>, two: set<Id>)
    requires !IsClean(ever, n)
    ensures IsKept(ever, one, n) && IsKept(ever, two, n) && |one * two| < n < |ever|
  {
    var d :| d in ever && |AsNew(ever, ever[d])| > n && |Newer(ever, ever[d])| < n;
    var newer, all := Newer(ever, ever[d]), AsNew(ever, ever[d]);
    assert all == newer + (all - newer);
    DisjointSizes(newer, all - newer);
    SubsetSize(all, ever.Keys);
    var first, second, x := TwoParts(all - newer, n - |newer|);
    KeptFromTie(ever, n, d, first);
    KeptFromTie(ever, n, d, second);
    one, two := newer + first, newer + second;
    SubsetSize(one * two, one - {x});
  }

  lemma KeptIsChoice(ever: map<Id, Time>, kept: set<Id>, n: nat)
    requires IsKept(ever, kept, n) && n < |ever|
    ensures IsChoice(ever, ever.Keys, ever.Keys - kept, n)
  {
    assert ever.Keys - (ever.Keys - kept) == kept && |ever.Keys| == |ever|;
  }

  lemma ChooseKeeping(states: seq<Watch>, events: seq<Event>, n: nat, ever: map<Id, Time>, kept: set<Id>, waiting: nat,
                      inFlight: seq<set<Id>>, inFlight': seq<set<Id>>)
    returns (states': seq<Watch>, events': seq<Event>)
    requires Reaches(states, events, n, ever, ever.Keys, waiting, inFlight) && waiting > 0
    requires IsKept(ever, kept, n) && n < |ever| && inFlight' == inFlight + [ever.Keys - kept]
    ensures Reaches(states', events', n, ever, ever.Keys, waiting - 1, inFlight')
  {
    KeptIsChoice(ever, kept, n);
    states', events' := Choose(states, events, n, ever, ever.Keys, waiting, inFlight, ever.Keys - kept);
  }

  lemma DeleteTwice(states: seq<Watch>, events: seq<Event>, n: nat, ever: map<Id, Time>, waiting: nat,
                    first: set<Id>, second: set<Id>, left: set<Id>, last: set<Id>)
    returns (states': seq<Watch>, events': seq<Event>)
    requires Reaches(states, events, n, ever, ever.Keys, waiting, [first] + [second])
    requires left == ever.Keys - first && last == left - second
    ensures Reaches(states', events', n, ever, last, waiting, [])
  {
    states', events' := Delete(states, events, n, ever, ever.Keys, waiting, [first] + [second], first, [second], left);
    states', events' := Delete(states', events', n, ever, left, waiting, [second], second, [], last);
  }

  /** Both choices are carried out, and the jobs left over find nothing to delete. */
  lemma CarryOut(states: seq<Watch>, events: seq<Event>, n: nat, ever: map<Id, Time>, waiting: nat,
                 first: set<Id>, second: set<Id>, left: set<Id>, last: set<Id>)
    returns (states': seq<Watch>, events': seq<Event>)
    requires Reaches(states, events, n, ever, ever.Keys, waiting, [first] + [second])
    requires left == ever.Keys - first && last == left - second && |last| <= n
    ensures Reaches(states', events', n, ever, last, 0, [])
  {
    states', events' := DeleteTwice(states, events, n, ever, waiting, first, second, left, last);
    states', events' := Idle(states', events', n, ever, last, waiting);
  }

  lemma WholeMailbox(ever: map<Id, Time>, n: nat) returns (states: seq<Watch>, events: seq<Event>)
    ensures Reaches(states, events, n, ever, ever.Keys, |ever|, [])
  {
    var w := EmptyStart(n);
    states, events := DeliverAll([w], [], n, map[], ever);
  }

  lemma ChooseTwice(states: seq<Watch>, events: seq<Event>, n: nat, ever: map<Id, Time>, one: set<Id>, two: set<Id>,
                    first: set<Id>, second: set<Id>)
    returns (states': seq<Watch>, events': seq<Event>)
    requires Reaches(states, events, n, ever, ever.Keys, |ever|, []) && 0 < n < |ever|
    requires IsKept(ever, one, n) && IsKept(ever, two, n) && first == ever.Keys - one && second == ever.Keys - two
    ensures Reaches(states', events', n, ever, ever.Keys, |ever| - 2, [first] + [second])
  {
    states', events' := ChooseKeeping(states, events, n, ever, one, |ever|, [], [first]);
    states', events' := ChooseKeeping(states', events', n, ever, two, |ever| - 1, [first], [first] + [second]);
  }

  lemma TwoStatements(ever: map<Id, Time>, n: nat, one: set<Id>, two: set<Id>, both: set<Id>)
    returns (states: seq<Watch>, events: seq<Event>)
    requires IsKept(ever, one, n) && IsKept(ever, two, n) && both == one * two && |both| < n < |ever|
    ensures Reaches(states, events, n, ever, both, 0, [])
  {
    var first, second := ever.Keys - one, ever.Keys - two;
    assert ever.Keys - first == one && one - second == both;
    states, events := WholeMailbox(ever, n);
    states, events := ChooseTwice(states, events, n, ever, one, two, first, second);
    states, events := CarryOut(states, events, n, ever, |ever| - 2, first, second, one, both);
  }

  /** Two statements that start together can then delete more than the cap asks for. */
  lemma TieLosesMail(ever: map<Id, Time>, n: nat) returns (states: seq<Watch>, events: seq<Event>)
    requires !IsClean(ever, n)
    ensures IsRun(states, events, MAILBOX, n, n) && IsStart(states[0], MAILBOX, n) && IsAtRest(states[|events|])
    ensures states[|events|].ever == ever && |LinksOf(states[|events|].t, MAILBOX)| < n < |ever|
  {
    var one, two := TwoChoices(ever, n);
    states, events := TwoStatements(ever, n, one, two, one * two);
    HeldLinks(states[|events|].t, ever, one * two);
  }

  /** The run ends at rest, and the mailbox got exactly the messages of `ever`. */
  ghost predicate EndsWith(states: seq<Watch>, events: seq<Event>, a: Id, n: nat, ever: map<Id, Time>) {
    && IsRun(states, events, a, n, n) && IsStart(states[0], a, n)
    && IsAtRest(states[|events|]) && states[|events|].ever == ever
  }

  /** The exact condition: every run leaves the n newest iff no two messages tie across the cap. */
  lemma HoldsTheNewestIffNoTieAcrossTheCap(ever: map<Id, Time>, n: nat)
    ensures IsClean(ever, n) <==>
            forall states: seq<Watch>, events: seq<Event>, a: Id :: EndsWith(states, events, a, n, ever) ==>
              MailboxCap.IsNewest(LinksOf(states[|events|].t, a), ever, n)
  {
    if IsClean(ever, n) {
      forall states: seq<Watch>, events: seq<Event>, a: Id | EndsWith(states, events, a, n, ever)
        ensures MailboxCap.IsNewest(LinksOf(states[|events|].t, a), ever, n)
      {
        MailboxAtRestHoldsTheNewest(states, events, a, n);
      }
    } else {
      var states, events := TieLosesMail(ever, n);
      assert EndsWith(states, events, MAILBOX, n, ever);
    }
  }

  // --------------------------------------------- statements that nothing overlaps

  /** The same mailbox in both protocols. MailboxCap forgets failures at the next success. */
  ghost predicate Matches(w: Watch, v: MailboxCap.Watch) {
    w.t == v.t && w.ever == v.ever && w.waiting == v.pending && w.inFlight == [] && w.failed >= v.failed
  }

  lemma OneStepMatches(w: Watch, v: MailboxCap.Watch, e: MailboxCap.Event, a: Id, lo: nat, hi: nat) returns (e': Event)
    requires Matches(w, v) && MailboxCap.CanHappen(v, e, a, lo, hi) && !e.CapRan?
    ensures CanHappen(w, e', a, lo, hi) && Matches(After(w, e', a), MailboxCap.After(v, e, a))
  {
    e' := match e
      case Delivered(m, now) => Delivered(m, now)
      case CapFailed => Failed
      case Elsewhere(t') => Elsewhere(t');
  }

  /** A choice that is carried out at once is the cap job of MailboxCap. */
  lemma StatementMatches(w: Watch, v: MailboxCap.Watch, n: nat, victims: set<Id>, a: Id, lo: nat, hi: nat)
    requires Matches(w, v) && MailboxCap.CanHappen(v, MailboxCap.CapRan(n, victims), a, lo, hi)
    ensures CanHappen(w, Chose(n, victims), a, lo, hi)
    ensures var w' := After(w, Chose(n, victims), a);
      CanHappen(w', Deleted(0), a, lo, hi) && Matches(After(w', Deleted(0), a), MailboxCap.After(v, MailboxCap.CapRan(n, victims), a))
  {
    assert ([] + [victims])[0] == victims && Drop([] + [victims], 0) == [];
  }

  /** Every run of MailboxCap is a run of this protocol, in which each choice is carried out at once. */
  lemma {:induction false} AtomicRunIsARun(states: seq<MailboxCap.Watch>, events: seq<MailboxCap.Event>, a: Id, lo: nat, hi: nat)
    returns (states': seq<Watch>, events': seq<Event>)
    requires MailboxCap.IsRun(states, events, a, lo, hi) && MailboxCap.IsStart(states[0], a, hi)
    ensures IsRun(states', events', a, lo, hi) && IsStart(states'[0], a, hi)
    ensures Matches(states'[|events'|], states[|events|])
    decreases |events|
  {
    if events == [] {
      states', events' := [Watch(states[0].t, states[0].ever, 0, [], 0)], [];
    } else {
      var n := |events| - 1;
      MailboxCap.RunPrefix(states, events, a, lo, hi, n);
      states', events' := AtomicRunIsARun(states[..n + 1], events[..n], a, lo, hi);
      states', events' := MatchingSteps(states', events', states[n], events[n], a, lo, hi);
    }
  }

  lemma MatchingSteps(states: seq<Watch>, events: seq<Event>, v: MailboxCap.Watch, e: MailboxCap.Event, a: Id, lo: nat, hi: nat)
    returns (states': seq<Watch>, events': seq<Event>)
    requires IsRun(states, events, a, lo, hi) && Matches(states[|events|], v) && MailboxCap.CanHappen(v, e, a, lo, hi)
    ensures IsRun(states', events', a, lo, hi) && states'[0] == states[0]
    ensures Matches(states'[|events'|], MailboxCap.After(v, e, a))
  {
    var w := states[|events|];
    if e.CapRan? {
      var chose := Chose(e.n, e.victims);
      StatementMatches(w, v, e.n, e.victims, a, lo, hi);
      OneMoreStep(states, events, chose, a, lo, hi);
      states', events' := states + [After(w, chose, a)], events + [chose];
      OneMoreStep(states', events', Deleted(0), a, lo, hi);
      states', events' := states' + [After(After(w, chose, a), Deleted(0), a)], events' + [Deleted(0)];
    } else {
      var e' := OneStepMatches(w, v, e, a, lo, hi);
      OneMoreStep(states, events, e', a, lo, hi);
      states', events' := states + [After(w, e', a)], events + [e'];
    }
  }
}
