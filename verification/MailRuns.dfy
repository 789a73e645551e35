/**
 Whole runs of the mail store: every interleaving of deliveries, address creation and the
 six deleters, each step atomic as a database transaction is.
 */
module MailRuns {
  import opened Wrappers
  import opened Text
  import opened MailTables
  import opened MailOps
  import opened MailStore
  import opened Addresses
  import MailboxCap
  import StorageCap

  datatype Op =
    | Deliver(m: Message, now: Time, faultAt: Option<nat>)
    | CapJob(a: Id, n: nat, victims: set<Id>)
    | StorageJob(maxStorageMb: int)
    | RetentionJob(days: int, now: Time)
    | ExpiryJob(now: Time)
    | OwnerDeletes(token: string, e: Id, now: Time)
    | AdminPurges(a: Id)
    | AdminDeletesEmail(e: Id)
    | AdminDeletesAddress(a: Id)
    | NewTemp(s: Settings, r: TempRequest, random: seq<string>, id: Id, token: string, now: Time)
    | NewPermanent(s: Settings, username: string, domain: Option<string>, id: Id, token: string, now: Time)

  function Step(t: Tables, op: Op): Tables
  {
    match op
    case Deliver(m, now, faultAt) => Store(t, m, now, faultAt).0
    case CapJob(a, n, victims) => if IsCapChoice(t, a, n, victims) then DeleteLinks(t, victims) else t
    case StorageJob(maxStorageMb) => StorageCap.Enforce(t, maxStorageMb).0
    case RetentionJob(days, now) => Retain(t, days, now).0
    case ExpiryJob(now) => Expire(t, now).0
    case OwnerDeletes(token, e, now) => DeleteOwn(t, token, e, now).0
    case AdminPurges(a) => Purge(t, a).0
    case AdminDeletesEmail(e) => DeleteEmails(t, {e})
    case AdminDeletesAddress(a) => DeleteAddresses(t, {a})
    case NewTemp(s, r, random, id, token, now) => CreateTemp(t, s, r, random, id, token, now).0
    case NewPermanent(s, username, domain, id, token, now) => CreatePermanent(t, s, username, domain, id, token, now).0
  }

  /** Deleting an unknown message deletes nothing, */
  lemma UnknownMessage(t: Tables, e: Id)
    requires SchemaHolds(t)
    ensures DeleteEmails(t, {e}) == if e in t.emails then DeleteEmails(t, {e}) else t
  {
    if e !in t.emails {
      assert t.emails - {e} == t.emails;
    }
  }

  /** nor does deleting an unknown address. */
  lemma UnknownAddress(t: Tables, a: Id)
    requires SchemaHolds(t)
    ensures DeleteAddresses(t, {a}) == if a in t.addresses then DeleteAddresses(t, {a}) else t
  {
    if a !in t.addresses {
      assert LinksOfAny(t, {a}) == {} && t.addresses - {a} == t.addresses;
      UnlinkNothing(t);
    }
  }

  /** A step is what the service's own code does to the database; here deliveries and the jobs, */
  method PerformJob(db: Database, op: Op)
    requires op.Deliver? || op.StorageJob? || op.RetentionJob? || op.ExpiryJob?
    modifies db
    ensures db.tables == Step(old(db.tables), op)
  {
    match op {
      case Deliver(m, now, faultAt) => var _ := db.StoreEmail(m, now, faultAt);
      case StorageJob(maxStorageMb) => var _ := db.EnforceStorageLimit(maxStorageMb);
      case RetentionJob(days, now) => var _ := db.CleanupRetention(days, now);
      case ExpiryJob(now) => var _ := db.CleanupExpiredAddresses(now);
    }
  }

  /** the routes that unlink, */
  method PerformUnlink(db: Database, op: Op)
    requires op.OwnerDeletes? || op.AdminPurges?
    modifies db
    ensures db.tables == Step(old(db.tables), op)
  {
    match op {
      case OwnerDeletes(token, e, now) => var _ := db.DeleteEmail(token, e, now);
      case AdminPurges(a) => var _ := db.PurgePermanentEmails(a);
    }
  }

  /** those that delete rows, */
  method PerformDelete(db: Database, op: Op)
    requires SchemaHolds(db.tables) && (op.AdminDeletesEmail? || op.AdminDeletesAddress?)
    modifies db
    ensures db.tables == Step(old(db.tables), op)
  {
    ghost var t := db.tables;
    if op.AdminDeletesEmail? {
      UnknownMessage(t, op.e);
      var _ := db.AdminDeleteEmail(op.e);
    } else {
      UnknownAddress(t, op.a);
      var _ := db.AdminDeleteAddress(op.a);
    }
  }

  /** and those that create. */
  method PerformCreation(db: Database, op: Op)
    requires op.NewTemp? || op.NewPermanent?
    requires op.NewTemp? ==> |op.random| == MAX_ATTEMPTS
    modifies db
    ensures db.tables == Step(old(db.tables), op)
  {
    match op {
      case NewTemp(s, r, random, id, token, now) => var _ := CreateAddress(db, s, r, random, id, token, now);
      case NewPermanent(s, username, domain, id, token, now) =>
        var _ := CreatePermanentAddress(db, s, username, domain, id, token, now);
    }
  }

  /** The database settles which of the oldest links go. */
  method PerformCap(db: Database, a: Id, configured: Option<int>)
    modifies db
    ensures exists victims: set<Id> {:trigger CapJob(a, CapInForce(configured), victims)} ::
      db.tables == Step(old(db.tables), CapJob(a, CapInForce(configured), victims))
  {
    ghost var t := db.tables;
    db.EnforceEmailLimit(a, configured);
    ghost var victims :| IsCapChoice(t, a, CapInForce(configured), victims) && db.tables == DeleteLinks(t, victims);
    assert db.tables == Step(t, CapJob(a, CapInForce(configured), victims));
  }

  // ------------------------------------------------------ the trigger's absence

  /** Consistent tables have nothing for an orphan sweep to find. */
  lemma NoOrphansNothingUnlinked(t: Tables)
    requires NoOrphans(t)
    ensures Unlinked(t) == {} && forall cutoff :: OldUnlinked(t, cutoff) == {}
  {
    forall e | e in t.emails ensures LinksTo(t, e) != {} {
      assert IsLinked(t, e);
      var l :| l in t.links && t.links[l].emailId == e;
      assert l in LinksTo(t, e);
    }
  }

  /** On a database without the trigger: unlink, then sweep the messages in `sweep`. */
  function UnlinkThenSweep(t: Tables, dead: set<Id>, sweep: set<Id>): Tables {
    DeleteEmails(DeleteLinksBare(t, dead), sweep)
  }

  lemma BareLinked(t: Tables, dead: set<Id>, e: Id)
    ensures IsLinked(DeleteLinksBare(t, dead), e) <==> KeepsLink(t, dead, e)
  {
    var bare := DeleteLinksBare(t, dead);
    if l :| l in t.links && l !in dead && t.links[l].emailId == e {
      assert l in bare.links && bare.links[l].emailId == e;
    }
    if l :| l in bare.links && bare.links[l].emailId == e {
      assert l in t.links && l !in dead;
    }
  }

  lemma LinkedIffSomeLink(t: Tables, e: Id)
    ensures IsLinked(t, e) <==> LinksTo(t, e) != {}
  {
    if l :| l in t.links && t.links[l].emailId == e {
      assert l in LinksTo(t, e);
    }
  }

  lemma UnlinkedAfterBareDelete(t: Tables, dead: set<Id>)
    requires Consistent(t)
    ensures Unlinked(DeleteLinksBare(t, dead)) == OrphansOf(t, dead)
  {
    var bare := DeleteLinksBare(t, dead);
    forall e | e in t.emails ensures e in Unlinked(bare) <==> e in OrphansOf(t, dead) {
      assert IsLinked(t, e);
      OrphanIffLastLinkGone(t, dead, e);
      BareLinked(t, dead, e);
      LinkedIffSomeLink(bare, e);
    }
    assert OrphansOf(t, dead) <= t.emails.Keys;
  }

  /** What the second statements look for, on any tables: messages without a link; for retention, old ones only. */
  lemma SweptMessages(t: Tables, cutoff: Time, e: Id)
    ensures e in Unlinked(t) <==> e in t.emails && !IsLinked(t, e)
    ensures e in OldUnlinked(t, cutoff) <==> e in t.emails && !IsLinked(t, e) && t.emails[e].receivedAt < cutoff
  {
    LinkedIffSomeLink(t, e);
  }

  /**
   Purge and retention behave the same on both database backends: their own second
   statement removes exactly what the trigger would have removed.
   */
  lemma SweepReplacesTrigger(t: Tables, a: Id, cutoff: Time)
    requires Consistent(t)
    ensures UnlinkThenSweep(t, LinksOf(t, a), Unlinked(DeleteLinksBare(t, LinksOf(t, a)))) == DeleteLinks(t, LinksOf(t, a))
    ensures UnlinkThenSweep(t, RetentionLinks(t, cutoff), OldUnlinked(DeleteLinksBare(t, RetentionLinks(t, cutoff)), cutoff)) ==
            DeleteLinks(t, RetentionLinks(t, cutoff))
  {
    UnlinkedAfterBareDelete(t, LinksOf(t, a));
    var dead := RetentionLinks(t, cutoff);
    UnlinkedAfterBareDelete(t, dead);
    assert OldUnlinked(DeleteLinksBare(t, dead), cutoff) == OrphansOf(t, dead) by {
      forall e | e in OrphansOf(t, dead) ensures t.emails[e].receivedAt < cutoff {
      }
    }
  }

  lemma OnlyItsMessageIsOrphaned(t: Tables, l: Id)
    requires Consistent(t) && l in t.links
    ensures var e := t.links[l].emailId;
            OrphansOf(t, {l}) == if LinksTo(DeleteLinksBare(t, {l}), e) == {} then {e} else {}
  {
    var e := t.links[l].emailId;
    assert IsLinked(t, e);
    OrphanIffLastLinkGone(t, {l}, e);
    BareLinked(t, {l}, e);
    LinkedIffSomeLink(DeleteLinksBare(t, {l}), e);
  }

  /** So does the owner's delete, which sweeps its one message when nobody else has it. */
  lemma OwnerSweepReplacesTrigger(t: Tables, l: Id)
    requires Consistent(t) && l in t.links
    ensures var e := t.links[l].emailId; var sweep := if LinksTo(DeleteLinksBare(t, {l}), e) == {} then {e} else {};
            UnlinkThenSweep(t, {l}, sweep) == DeleteLinks(t, {l})
  {
    OnlyItsMessageIsOrphaned(t, l);
  }

  lemma BareNoOrphansIff(t: Tables, dead: set<Id>)
    ensures NoOrphans(DeleteLinksBare(t, dead)) <==> forall e :: e in t.emails ==> KeepsLink(t, dead, e)
  {
    forall e | e in t.emails ensures IsLinked(DeleteLinksBare(t, dead), e) <==> KeepsLink(t, dead, e) {
      BareLinked(t, dead, e);
    }
  }

  lemma BareSchema(t: Tables, dead: set<Id>)
    requires SchemaHolds(t) && LifetimesMatchTypes(t)
    ensures SchemaHolds(DeleteLinksBare(t, dead)) && LifetimesMatchTypes(DeleteLinksBare(t, dead))
  {
  }

  lemma BareUnlinkSoundIffNoLastLink(t: Tables, dead: set<Id>)
    requires Consistent(t)
    ensures Consistent(DeleteLinksBare(t, dead)) <==> forall e :: e in t.emails ==> KeepsLink(t, dead, e)
  {
    BareNoOrphansIff(t, dead);
    BareSchema(t, dead);
  }

  // ----------------------------------------------------------------- invariance

  lemma PurgeIsUnlink(t: Tables, a: Id)
    requires Consistent(t)
    ensures Purge(t, a).0 == if a in t.addresses && t.addresses[a].kind == Permanent then DeleteLinks(t, LinksOf(t, a)) else t
  {
    DeleteLinksKeepsConsistency(t, LinksOf(t, a));
    NoOrphansNothingUnlinked(DeleteLinks(t, LinksOf(t, a)));
    NothingDeleted(DeleteLinks(t, LinksOf(t, a)));
  }

  lemma RetainIsUnlink(t: Tables, days: int, now: Time)
    requires Consistent(t)
    ensures Retain(t, days, now).0 == DeleteLinks(t, RetentionVictims(t, days, now))
  {
    if days <= 0 {
      UnlinkNothing(t);
    } else {
      var t' := DeleteLinks(t, RetentionVictims(t, days, now));
      DeleteLinksKeepsConsistency(t, RetentionVictims(t, days, now));
      NoOrphansNothingUnlinked(t');
      NothingDeleted(t');
    }
  }

  // -------------------------------------------------- what the deleters leave behind

  /** The token opens a live mailbox, and `l` is its link to the message. */
  ghost predicate Owns(t: Tables, token: string, e: Id, now: Time, l: Id) {
    && l in t.links && t.links[l].emailId == e && t.links[l].addressId in t.addresses
    && var a := t.addresses[t.links[l].addressId]; a.token == token && !IsExpired(a, now)
  }

  lemma OwnedLinkIsFound(t: Tables, token: string, e: Id, now: Time, l: Id)
    requires SchemaHolds(t) && Owns(t, token, e, now, l)
    ensures OwnLink(t, token, e, now) == Some(l)
  {
    var a := t.links[l].addressId;
    assert FindByToken(t, token) == Some(a);
    var ids := set k | k in t.links && t.links[k] == Link(e, a);
    assert l in ids && First(ids).Some?;
    assert t.links[First(ids).value] == t.links[l];
  }

  /**
   The owner's delete succeeds iff the token opens a live mailbox that holds the message,
   and then removes the one link between the two, and the message iff nobody else has it.
   Otherwise it changes nothing.
   */
  lemma OwnerDeletesTheirLink(t: Tables, token: string, e: Id, now: Time)
    requires Consistent(t)
    ensures DeleteOwn(t, token, e, now).1 <==> exists l: Id :: Owns(t, token, e, now, l)
    ensures forall l: Id :: Owns(t, token, e, now, l) ==> DeleteOwn(t, token, e, now).0.links == t.links - {l}
    ensures var (t', found) := DeleteOwn(t, token, e, now);
      t'.addresses == t.addresses && LeavesTheLinked(t, t') && (!found ==> t' == t)
  {
    var own := OwnLink(t, token, e, now);
    if own.Some? {
      assert Owns(t, token, e, now, own.value);
      SurvivingLinks(t, {own.value});
      UnlinkingLeavesTheLinked(t, {own.value});
    }
    forall l: Id | Owns(t, token, e, now, l) ensures own == Some(l) {
      OwnedLinkIsFound(t, token, e, now, l);
    }
  }

  lemma KeysGone<T>(rows: map<Id, T>, dead: set<Id>)
    requires dead <= rows.Keys
    ensures rows.Keys - (rows - dead).Keys == dead
  {
  }

  /** The message behind the link is of the last `days` days, or its mailbox is temporary. */
  ghost predicate IsRetained(t: Tables, l: Id, days: int, now: Time)
    requires SchemaHolds(t) && l in t.links
  {
    || t.addresses[t.links[l].addressId].kind == Temp
    || t.emails[t.links[l].emailId].receivedAt >= now - days * 24 * 3_600_000_000
  }

  lemma RetentionVictimsAre(t: Tables, days: int, now: Time)
    requires SchemaHolds(t) && days > 0
    ensures forall l :: l in RetentionVictims(t, days, now) <==> l in t.links && !IsRetained(t, l, days, now)
    ensures Retain(t, days, now).1 == |RetentionVictims(t, days, now)|
  {
  }

  /**
   Retention leaves exactly the links of temporary mailboxes and those to messages of the
   last `days` days (in microseconds), and reports how many went; a period of zero days or
   fewer switches it off.
   */
  lemma RetentionLeavesTheRecent(t: Tables, days: int, now: Time)
    requires Consistent(t)
    ensures days <= 0 ==> Retain(t, days, now) == (t, 0)
    ensures days > 0 ==> var (t', n) := Retain(t, days, now);
      && t'.addresses == t.addresses && LeavesTheLinked(t, t') && n == |t.links.Keys - t'.links.Keys|
      && forall l :: l in t'.links <==> l in t.links && IsRetained(t, l, days, now)
  {
    if days > 0 {
      var dead, t' := RetentionVictims(t, days, now), Retain(t, days, now).0;
      RetainIsUnlink(t, days, now);
      RetentionVictimsAre(t, days, now);
      SurvivingLinks(t, dead);
      UnlinkingLeavesTheLinked(t, dead);
      KeysGone(t.links, dead);
      assert t'.links == t.links - dead;
    }
  }

  /**
   Expiry leaves exactly the addresses that have not run out, with all their links, and
   reports how many went; a second run deletes nothing.
   */
  lemma ExpiryLeavesTheLiving(t: Tables, now: Time)
    requires Consistent(t)
    ensures var (t', n) := Expire(t, now);
      && (forall a :: a in t'.addresses <==> a in t.addresses && !IsCleanedUp(t.addresses[a], now))
      && (forall l :: l in t'.links <==> l in t.links && !IsCleanedUp(t.addresses[t.links[l].addressId], now))
      && LeavesTheLinked(t, t') && n == |t.addresses.Keys - t'.addresses.Keys|
    ensures var t' := Expire(t, now).0; Expire(t', now) == (t', 0)
  {
    var t', dead := Expire(t, now).0, ExpiredAddresses(t, now);
    DeleteAddressesExactly(t, dead);
    RemovalLeavesTheLinked(t, dead);
    KeysGone(t.addresses, dead);
    assert ExpiredAddresses(t', now) == {};
    DeleteNoAddress(t');
  }

  lemma RemovalLeavesTheLinked(t: Tables, dead: set<Id>)
    requires Consistent(t)
    ensures LeavesTheLinked(t, DeleteAddresses(t, dead))
  {
    UnlinkingLeavesTheLinked(t, LinksOfAny(t, dead));
    var t', u := DeleteAddresses(t, dead), DeleteLinks(t, LinksOfAny(t, dead));
    forall e ensures IsLinked(t', e) <==> IsLinked(u, e) {
    }
  }

  /**
   Purge empties a permanent mailbox, keeps its address, changes nothing else in the address
   book and reports how many links went; it does not touch any other kind of address.
   */
  lemma PurgeEmptiesOneMailbox(t: Tables, a: Id)
    requires Consistent(t)
    ensures var (t', n) := Purge(t, a);
      if a in t.addresses && t.addresses[a].kind == Permanent then
        && t'.addresses == t.addresses && LinksOf(t', a) == {} && n == Some(|LinksOf(t, a)|)
        && (forall b :: b != a ==> LinksOf(t', b) == LinksOf(t, b)) && LeavesTheLinked(t, t')
      else t' == t && n == None
  {
    PurgeIsUnlink(t, a);
    SurvivingLinks(t, LinksOf(t, a));
    UnlinkingLeavesTheLinked(t, LinksOf(t, a));
  }

  /** Addresses whose rows a step deletes. */
  function RowsEvicted(t: Tables, op: Op): set<Id>
  {
    match op
    case ExpiryJob(now) => ExpiredAddresses(t, now)
    case AdminDeletesAddress(a) => {a}
    case NewTemp(s, r, random, id, token, now) =>
      (var name := TempName(t, s, r, random, now).0; if name.Some? then Evicted(t, name.value) else {})
    case NewPermanent(s, username, domain, id, token, now) =>
      (var name := PermanentName(t, s, username, domain, now).0; if name.Some? then Evicted(t, name.value) else {})
    case _ => {}
  }

  /** Links that a step removes by unlinking; the two steps that delete whole messages have none. */
  function UnlinkedBy(t: Tables, op: Op): set<Id>
  {
    match op
    case CapJob(a, n, victims) => if IsCapChoice(t, a, n, victims) then victims else {}
    case RetentionJob(days, now) => RetentionVictims(t, days, now)
    case OwnerDeletes(token, e, now) => (var l := OwnLink(t, token, e, now); if l.Some? then {l.value} else {})
    case AdminPurges(a) => if a in t.addresses && t.addresses[a].kind == Permanent then LinksOf(t, a) else {}
    case _ => LinksOfAny(t, RowsEvicted(t, op))
  }

  lemma UnlinkNobody(t: Tables)
    ensures DeleteLinks(t, LinksOfAny(t, {})) == t
  {
    assert LinksOfAny(t, {}) == {};
    UnlinkNothing(t);
  }

  lemma TempCreationIsUnlink(t: Tables, op: Op)
    requires Consistent(t) && op.NewTemp?
    ensures SameMail(Step(t, op), DeleteLinks(t, LinksOfAny(t, RowsEvicted(t, op))))
  {
    var name := TempName(t, op.s, op.r, op.random, op.now).0;
    if name.Some? {
      var a := Address(name.value, op.token, Temp, Some(ExpiryOf(op.s, op.now)));
      assert Step(t, op) == Replace(t, op.id, a).0;
      ReplaceIsUnlink(t, op.id, a);
    } else {
      UnlinkNobody(t);
    }
  }

  lemma PermanentCreationIsUnlink(t: Tables, op: Op)
    requires Consistent(t) && op.NewPermanent?
    ensures SameMail(Step(t, op), DeleteLinks(t, LinksOfAny(t, RowsEvicted(t, op))))
  {
    var name := PermanentName(t, op.s, op.username, op.domain, op.now).0;
    if name.Some? {
      ReplaceIsUnlink(t, op.id, Address(name.value, op.token, Permanent, None));
    } else {
      UnlinkNobody(t);
    }
  }

  lemma CapJobIsUnlink(t: Tables, op: Op)
    requires op.CapJob?
    ensures Step(t, op) == DeleteLinks(t, UnlinkedBy(t, op))
  {
    if !IsCapChoice(t, op.a, op.n, op.victims) {
      assert UnlinkedBy(t, op) == {};
      UnlinkNothing(t);
    } else {
      assert UnlinkedBy(t, op) == op.victims;
    }
  }

  lemma ExpiryJobIsUnlink(t: Tables, op: Op)
    requires Consistent(t) && op.ExpiryJob?
    ensures SameMail(Step(t, op), DeleteLinks(t, UnlinkedBy(t, op)))
  {
    assert UnlinkedBy(t, op) == LinksOfAny(t, ExpiredAddresses(t, op.now));
  }

  lemma RouteIsUnlink(t: Tables, op: Op)
    requires Consistent(t) && (op.OwnerDeletes? || op.AdminPurges? || op.AdminDeletesAddress?)
    ensures SameMail(Step(t, op), DeleteLinks(t, UnlinkedBy(t, op)))
  {
    if op.AdminPurges? {
      PurgeIsUnlink(t, op.a);
    }
    if UnlinkedBy(t, op) == {} {
      UnlinkNothing(t);
    }
  }

  /** Apart from address rows, each unlinking step is one DeleteLinks. */
  lemma StepIsUnlink(t: Tables, op: Op)
    requires Consistent(t) && !op.Deliver? && !op.StorageJob? && !op.AdminDeletesEmail?
    ensures SameMail(Step(t, op), DeleteLinks(t, UnlinkedBy(t, op)))
  {
    if op.NewTemp? {
      TempCreationIsUnlink(t, op);
    } else if op.NewPermanent? {
      PermanentCreationIsUnlink(t, op);
    } else if op.CapJob? {
      CapJobIsUnlink(t, op);
    } else if op.RetentionJob? {
      RetainIsUnlink(t, op.days, op.now);
    } else if op.ExpiryJob? {
      ExpiryJobIsUnlink(t, op);
    } else {
      RouteIsUnlink(t, op);
    }
  }

  lemma JobKeepsConsistency(t: Tables, op: Op)
    requires Consistent(t) && (op.Deliver? || op.CapJob? || op.StorageJob? || op.RetentionJob? || op.ExpiryJob?)
    ensures Consistent(Step(t, op))
  {
    match op
    case Deliver(m, now, faultAt) => StoreKeepsConsistency(t, m, now, faultAt);
    case CapJob(a, n, victims) => DeleteLinksKeepsConsistency(t, victims);
    case StorageJob(maxStorageMb) => StorageCap.EnforceKeepsConsistency(t, maxStorageMb);
    case RetentionJob(days, now) =>
      RetainIsUnlink(t, days, now);
      DeleteLinksKeepsConsistency(t, RetentionVictims(t, days, now));
    case ExpiryJob(now) => DeleteAddressesKeepsConsistency(t, ExpiredAddresses(t, now));
  }

  lemma OwnerKeepsConsistency(t: Tables, token: string, e: Id, now: Time)
    requires Consistent(t)
    ensures Consistent(DeleteOwn(t, token, e, now).0)
  {
    var l := OwnLink(t, token, e, now);
    if l.Some? {
      DeleteLinksKeepsConsistency(t, {l.value});
    }
  }

  lemma PurgeKeepsConsistency(t: Tables, a: Id)
    requires Consistent(t)
    ensures Consistent(Purge(t, a).0)
  {
    PurgeIsUnlink(t, a);
    DeleteLinksKeepsConsistency(t, LinksOf(t, a));
  }

  lemma RouteKeepsConsistency(t: Tables, op: Op)
    requires Consistent(t) && (op.OwnerDeletes? || op.AdminPurges? || op.AdminDeletesEmail? || op.AdminDeletesAddress?)
    ensures Consistent(Step(t, op))
  {
    match op
    case OwnerDeletes(token, e, now) => OwnerKeepsConsistency(t, token, e, now);
    case AdminPurges(a) => PurgeKeepsConsistency(t, a);
    case AdminDeletesEmail(e) => DeleteEmailsKeepsConsistency(t, {e});
    case AdminDeletesAddress(a) => DeleteAddressesKeepsConsistency(t, {a});
  }

  lemma StepKeepsConsistency(t: Tables, op: Op)
    requires Consistent(t)
    ensures Consistent(Step(t, op))
  {
    match op
    case NewTemp(s, r, random, id, token, now) => TempEvictsOnlyExpired(t, s, r, random, id, token, now);
    case NewPermanent(s, username, domain, id, token, now) => PermanentEvictsOnlyExpired(t, s, username, domain, id, token, now);
    case _ =>
      if op.OwnerDeletes? || op.AdminPurges? || op.AdminDeletesEmail? || op.AdminDeletesAddress? {
        RouteKeepsConsistency(t, op);
      } else {
        JobKeepsConsistency(t, op);
      }
  }

  /** The tables after a history that starts from `t`; consistent tables stay so. */
  function RunFrom(t: Tables, ops: seq<Op>): (t': Tables)
    requires Consistent(t)
    ensures Consistent(t')
  {
    if ops == [] then t
    else
      var last, op := RunFrom(t, ops[..|ops| - 1]), ops[|ops| - 1];
      StepKeepsConsistency(last, op);
      Step(last, op)
  }

  /** The tables after a history of the service; every reachable state is consistent. */
  function Run(ops: seq<Op>): (t: Tables)
    ensures Consistent(t)
  {
    RunFrom(EMPTY, ops)
  }

  // -------------------------------------------------------- one link to a message

  /** No message sits in two mailboxes. */
  ghost predicate OneLinkEach(t: Tables) {
    forall k, l :: k in t.links && l in t.links && t.links[k].emailId == t.links[l].emailId ==> k == l
  }

  lemma FewerLinksOneEach(t: Tables, t': Tables)
    requires OneLinkEach(t) && forall l :: l in t'.links ==> l in t.links && t'.links[l] == t.links[l]
    ensures OneLinkEach(t')
  {
  }

  lemma StepKeepsOneLinkEach(t: Tables, op: Op)
    requires Consistent(t) && OneLinkEach(t)
    ensures OneLinkEach(Step(t, op))
  {
    if op.Deliver? {
    } else if op.StorageJob? || op.AdminDeletesEmail? {
      FewerLinksOneEach(t, Step(t, op));
    } else {
      StepIsUnlink(t, op);
      SurvivingLinks(t, UnlinkedBy(t, op));
      FewerLinksOneEach(t, Step(t, op));
    }
  }

  lemma {:induction false} RunKeepsOneLinkEach(ops: seq<Op>)
    ensures OneLinkEach(Run(ops))
  {
    if ops != [] {
      RunKeepsOneLinkEach(ops[..|ops| - 1]);
      StepKeepsOneLinkEach(Run(ops[..|ops| - 1]), ops[|ops| - 1]);
    }
  }

  /**
   StoreEmail writes a message anew for every recipient, so although the schema allows
   sharing, in every reachable state each message has exactly one link.
   */
  lemma EveryMessageHasOneLink(ops: seq<Op>)
    ensures forall e :: e in Run(ops).emails ==> |LinksTo(Run(ops), e)| == 1
  {
    var t := Run(ops);
    RunKeepsOneLinkEach(ops);
    forall e | e in t.emails ensures |LinksTo(t, e)| == 1 {
      assert IsLinked(t, e);
      var l :| l in t.links && t.links[l].emailId == e;
      assert LinksTo(t, e) == {l};
    }
  }

  lemma LosesItsOnlyLink(t: Tables, dead: set<Id>, l: Id)
    requires OneLinkEach(t) && l in t.links && l in dead
    ensures !KeepsLink(t, dead, t.links[l].emailId)
  {
  }

  /** Without the trigger, plain unlinking leaves such tables sound iff it removes no link at all. */
  lemma BareUnlinkSoundIffNothingGoes(t: Tables, dead: set<Id>)
    requires Consistent(t) && OneLinkEach(t)
    ensures Consistent(DeleteLinksBare(t, dead)) <==> dead !! t.links.Keys
  {
    BareUnlinkSoundIffNoLastLink(t, dead);
    if l :| l in dead && l in t.links {
      LosesItsOnlyLink(t, dead, l);
    } else {
      assert t.links - dead == t.links;
    }
  }

  /** So the cap statement needs the trigger exactly when the mailbox is over its cap. */
  lemma BareCapSoundIffWithinCap(t: Tables, a: Id, n: nat, victims: set<Id>)
    requires Consistent(t) && OneLinkEach(t) && IsCapChoice(t, a, n, victims)
    ensures Consistent(DeleteLinksBare(t, victims)) <==> |LinksOf(t, a)| <= n
  {
    BareUnlinkSoundIffNothingGoes(t, victims);
    if victims == {} {
      assert LinksOf(t, a) - victims == LinksOf(t, a);
    } else {
      SubsetSize(LinksOf(t, a) - victims, LinksOf(t, a));
      var v :| v in victims;
      assert v in LinksOf(t, a) && v !in LinksOf(t, a) - victims;
    }
  }

  /** DELETE FROM addresses on a database without the trigger. */
  function DeleteAddressesBare(t: Tables, dead: set<Id>): Tables {
    var t' := DeleteLinksBare(t, LinksOfAny(t, dead));
    t'.(addresses := t'.addresses - dead)
  }

  lemma BareRemovalSchema(t: Tables, dead: set<Id>)
    requires SchemaHolds(t) && LifetimesMatchTypes(t)
    ensures SchemaHolds(DeleteAddressesBare(t, dead)) && LifetimesMatchTypes(DeleteAddressesBare(t, dead))
  {
  }

  lemma BareRemovalIsBareUnlink(t: Tables, dead: set<Id>)
    requires Consistent(t)
    ensures Consistent(DeleteAddressesBare(t, dead)) <==> Consistent(DeleteLinksBare(t, LinksOfAny(t, dead)))
  {
    var t', u := DeleteAddressesBare(t, dead), DeleteLinksBare(t, LinksOfAny(t, dead));
    BareRemovalSchema(t, dead);
    BareSchema(t, LinksOfAny(t, dead));
    if NoOrphans(t') {
      NoOrphansFromSameMail(t', u);
    }
    if NoOrphans(u) {
      NoOrphansFromSameMail(u, t');
    }
  }

  /** And the removal of addresses, by the admin or by expiry, exactly when one of them has mail. */
  lemma BareRemovalSoundIffEmpty(t: Tables, dead: set<Id>)
    requires Consistent(t) && OneLinkEach(t)
    ensures Consistent(DeleteAddressesBare(t, dead)) <==> forall a :: a in dead ==> LinksOf(t, a) == {}
  {
    BareRemovalIsBareUnlink(t, dead);
    BareUnlinkSoundIffNothingGoes(t, LinksOfAny(t, dead));
    if l :| l in LinksOfAny(t, dead) {
      assert l in LinksOf(t, t.links[l].addressId);
    }
    forall a, l | a in dead && l in LinksOf(t, a) ensures l in LinksOfAny(t, dead) {
    }
  }

  // ------------------------------------------------------------------ isolation

  /** The mailboxes a step is about. The storage cap and the admin's delete concern all. */
  ghost predicate Targets(t: Tables, op: Op, a: Id)
    requires a in t.addresses
  {
    match op
    case Deliver(_, _, _) => false
    case CapJob(b, _, _) => a == b
    case RetentionJob(_, _) => t.addresses[a].kind == Permanent
    case ExpiryJob(now) => IsCleanedUp(t.addresses[a], now)
    case OwnerDeletes(token, _, _) => t.addresses[a].token == token
    case AdminPurges(b) => a == b
    case AdminDeletesAddress(b) => a == b
    case NewTemp(s, r, random, _, _, now) =>
      TempName(t, s, r, random, now).0 == Some(t.addresses[a].email) && IsExpired(t.addresses[a], now)
    case NewPermanent(s, username, domain, _, _, now) =>
      PermanentName(t, s, username, domain, now).0 == Some(t.addresses[a].email) && IsExpired(t.addresses[a], now)
    case _ => true
  }

  lemma EvictedAreTargets(t: Tables, op: Op, a: Id)
    requires Consistent(t) && a in RowsEvicted(t, op) && a in t.addresses
    ensures Targets(t, op, a)
  {
    match op
    case NewTemp(s, r, random, id, token, now) => GrantedTempNameIsFree(t, s, r, random, now);
    case _ =>
  }

  lemma UnlinkedAreTargets(t: Tables, op: Op, l: Id)
    requires Consistent(t) && l in UnlinkedBy(t, op)
    ensures l in t.links && Targets(t, op, t.links[l].addressId)
  {
    match op
    case ExpiryJob(now) => EvictedAreTargets(t, op, t.links[l].addressId);
    case AdminDeletesAddress(a) => EvictedAreTargets(t, op, t.links[l].addressId);
    case NewTemp(s, r, random, id, token, now) => EvictedAreTargets(t, op, t.links[l].addressId);
    case NewPermanent(s, username, domain, id, token, now) => EvictedAreTargets(t, op, t.links[l].addressId);
    case _ =>
  }

  lemma LinkUntouchedBySameMail(t: Tables, u: Tables, u': Tables, l: Id)
    requires l in t.links && LinkUntouched(t, u, l) && SameMail(u', u)
    ensures LinkUntouched(t, u', l)
  {
  }

  lemma NewAttachmentsAreFresh(t: Tables, m: Message)
    requires AttachmentIdsFree(t, m.attachments)
    ensures AttachmentRows(m.emailId, m.attachments).Keys !! t.attachments.Keys
  {
    forall x | x in AttachmentRows(m.emailId, m.attachments) ensures x !in t.attachments {
      AttachmentKeys(m.emailId, m.attachments, x);
    }
  }

  lemma StoredTouchesNoLink(t: Tables, m: Message, a: Id, l: Id)
    requires l in t.links && m.emailId !in t.emails && m.linkId !in t.links && AttachmentIdsFree(t, m.attachments)
    ensures LinkUntouched(t, Stored(t, m, a), l)
  {
    NewAttachmentsAreFresh(t, m);
  }

  lemma DeliveryTouchesNoLink(t: Tables, m: Message, now: Time, faultAt: Option<nat>, l: Id)
    requires Consistent(t) && l in t.links
    ensures LinkUntouched(t, Store(t, m, now, faultAt).0, l)
  {
    var a := Store(t, m, now, faultAt).1;
    if a.Some? {
      StoredTouchesNoLink(t, m, a.value, l);
    }
  }

  /**
   Mailbox isolation: a step never removes or alters a link of a mailbox it does not
   target, nor the message behind it, nor that message's attachments.
   */
  lemma OtherMailboxesAreUntouched(t: Tables, op: Op, l: Id)
    requires Consistent(t) && l in t.links && !Targets(t, op, t.links[l].addressId)
    ensures LinkUntouched(t, Step(t, op), l)
  {
    if op.Deliver? {
      DeliveryTouchesNoLink(t, op.m, op.now, op.faultAt, l);
    } else {
      StepIsUnlink(t, op);
      if l in UnlinkedBy(t, op) {
        UnlinkedAreTargets(t, op, l);
      }
      DeleteLinksSparesLink(t, UnlinkedBy(t, op), l);
      LinkUntouchedBySameMail(t, DeleteLinks(t, UnlinkedBy(t, op)), Step(t, op), l);
    }
  }

  // ------------------------------------------- histories as runs of the cap protocol

  predicate DeliversTo(t: Tables, op: Op, a: Id) {
    op.Deliver? && Store(t, op.m, op.now, op.faultAt).1 == Some(a)
  }

  predicate IsCapJobOf(op: Op, a: Id) { op.CapJob? && op.a == a }

  /**
   What a step shows to somebody who watches mailbox `a`. A cap job whose victims are no
   choice it could make is a job that failed.
   */
  ghost function Track(w: MailboxCap.Watch, op: Op, a: Id): MailboxCap.Watch {
    var t' := Step(w.t, op);
    if DeliversTo(w.t, op, a) then MailboxCap.Watch(t', w.ever[op.m.linkId := op.m.email.receivedAt], w.pending + 1, w.failed)
    else if IsCapJobOf(op, a) then
      MailboxCap.Watch(t', w.ever, if w.pending > 0 then w.pending - 1 else 0,
                       if IsCapChoice(w.t, a, op.n, op.victims) then 0 else w.failed + 1)
    else w.(t := t')
  }

  /**
   Steps that the cap speaks about: deliveries under a new link id, cap jobs that a
   delivery started, and whatever does not target the mailbox.
   */
  ghost predicate IsAllowed(w: MailboxCap.Watch, op: Op, a: Id, lo: nat, hi: nat) {
    && a in w.t.addresses
    && (DeliversTo(w.t, op, a) ==> op.m.linkId !in w.ever)
    && if IsCapJobOf(op, a) then w.pending > 0 && lo <= op.n <= hi else !Targets(w.t, op, a)
  }

  ghost predicate IsHistory(states: seq<MailboxCap.Watch>, ops: seq<Op>, a: Id, lo: nat, hi: nat) {
    && |states| == |ops| + 1
    && forall i :: 0 <= i < |ops| ==> IsAllowed(states[i], ops[i], a, lo, hi) && states[i + 1] == Track(states[i], ops[i], a)
  }

  lemma UntargetedKeepsLinks(t: Tables, op: Op, a: Id)
    requires Consistent(t) && a in t.addresses && !Targets(t, op, a)
    ensures LinksOf(t, a) !! UnlinkedBy(t, op)
  {
    forall l | l in UnlinkedBy(t, op) ensures l !in LinksOf(t, a) {
      UnlinkedAreTargets(t, op, l);
    }
  }

  lemma UntargetedLinks(t: Tables, op: Op, a: Id)
    requires Consistent(t) && a in t.addresses && !Targets(t, op, a) && !DeliversTo(t, op, a)
    ensures LinksOf(Step(t, op), a) == LinksOf(t, a)
  {
    if !op.Deliver? {
      UntargetedKeepsLinks(t, op, a);
      StepIsUnlink(t, op);
      SurvivingLinks(t, UnlinkedBy(t, op));
    }
  }

  /** Whatever does not target a mailbox, or deliver to it, is an Elsewhere step of its cap protocol. */
  lemma UntargetedStepIsElsewhere(w: MailboxCap.Watch, op: Op, a: Id, lo: nat, hi: nat)
    requires Consistent(w.t) && a in w.t.addresses && !Targets(w.t, op, a) && !DeliversTo(w.t, op, a)
    ensures MailboxCap.CanHappen(w, MailboxCap.Elsewhere(Step(w.t, op)), a, lo, hi)
  {
    StepKeepsConsistency(w.t, op);
    UntargetedLinks(w.t, op, a);
    forall l | l in LinksOf(w.t, a) ensures LinkUntouched(w.t, Step(w.t, op), l) {
      OtherMailboxesAreUntouched(w.t, op, l);
    }
  }

  /** Every allowed step is an event of the protocol, with the watch it leads to. */
  lemma StepIsEvent(w: MailboxCap.Watch, op: Op, a: Id, lo: nat, hi: nat) returns (e: MailboxCap.Event)
    requires Consistent(w.t) && IsAllowed(w, op, a, lo, hi)
    ensures MailboxCap.CanHappen(w, e, a, lo, hi) && MailboxCap.After(w, e, a) == Track(w, op, a)
  {
    if DeliversTo(w.t, op, a) {
      e := MailboxCap.Delivered(op.m, op.now);
    } else if IsCapJobOf(op, a) {
      e := if IsCapChoice(w.t, a, op.n, op.victims) then MailboxCap.CapRan(op.n, op.victims) else MailboxCap.CapFailed;
    } else {
      e := MailboxCap.Elsewhere(Step(w.t, op));
      UntargetedStepIsElsewhere(w, op, a, lo, hi);
    }
  }

  lemma HistoryPrefix(states: seq<MailboxCap.Watch>, ops: seq<Op>, a: Id, lo: nat, hi: nat, n: nat)
    requires IsHistory(states, ops, a, lo, hi) && n <= |ops|
    ensures IsHistory(states[..n + 1], ops[..n], a, lo, hi)
  {
  }

  /** The watched tables are those of the history. */
  lemma {:induction false} WatchShowsTheTables(states: seq<MailboxCap.Watch>, ops: seq<Op>, a: Id, lo: nat, hi: nat)
    requires IsHistory(states, ops, a, lo, hi) && Consistent(states[0].t)
    ensures states[|ops|].t == RunFrom(states[0].t, ops)
    decreases |ops|
  {
    if ops != [] {
      var n := |ops| - 1;
      HistoryPrefix(states, ops, a, lo, hi, n);
      WatchShowsTheTables(states[..n + 1], ops[..n], a, lo, hi);
    }
  }

  /** Refinement: a history that leaves a mailbox to its cap is a run of the cap protocol. */
  lemma {:induction false} HistoryIsRun(states: seq<MailboxCap.Watch>, ops: seq<Op>, a: Id, lo: nat, hi: nat)
    returns (events: seq<MailboxCap.Event>)
    requires IsHistory(states, ops, a, lo, hi) && Consistent(states[0].t)
    ensures |events| == |ops| && MailboxCap.IsRun(states, events, a, lo, hi)
    decreases |ops|
  {
    events := [];
    if ops != [] {
      var n := |ops| - 1;
      HistoryPrefix(states, ops, a, lo, hi, n);
      events := HistoryIsRun(states[..n + 1], ops[..n], a, lo, hi);
      WatchShowsTheTables(states[..n + 1], ops[..n], a, lo, hi);
      var e := StepIsEvent(states[n], ops[n], a, lo, hi);
      MailboxCap.OneMoreStep(states[..n + 1], events, e, a, lo, hi);
      assert states == states[..n + 1] + [Track(states[n], ops[n], a)];
      events := events + [e];
    }
  }

  /**
   Over every history that leaves the mailbox to its cap, it exceeds the cap by at most its
   unfinished and failed jobs, and all it lost is outnumbered by newer mail it still holds.
   */
  lemma HistoryStaysBounded(states: seq<MailboxCap.Watch>, ops: seq<Op>, a: Id, lo: nat, hi: nat)
    requires IsHistory(states, ops, a, lo, hi) && MailboxCap.IsStart(states[0], a, hi)
    ensures var links, w := LinksOf(RunFrom(states[0].t, ops), a), states[|ops|];
      && |links| <= hi + w.pending + w.failed && links <= w.ever.Keys
      && forall d :: d in w.ever.Keys - links ==> |MailboxCap.AsNewAs(links, w.ever, w.ever[d])| >= lo
  {
    var events := HistoryIsRun(states, ops, a, lo, hi);
    WatchShowsTheTables(states, ops, a, lo, hi);
    MailboxCap.MailboxStaysBounded(states, events, a, lo, hi, |ops|);
  }

  /** Once no job is left, the history has left it exactly the n newest messages it ever got. */
  lemma HistoryHoldsTheNewest(states: seq<MailboxCap.Watch>, ops: seq<Op>, a: Id, n: nat)
    requires IsHistory(states, ops, a, n, n) && MailboxCap.IsStart(states[0], a, n)
    requires states[|ops|].pending == 0 == states[|ops|].failed
    ensures MailboxCap.IsNewest(LinksOf(RunFrom(states[0].t, ops), a), states[|ops|].ever, n)
  {
    var events := HistoryIsRun(states, ops, a, n, n);
    WatchShowsTheTables(states, ops, a, n, n);
    MailboxCap.MailboxAtRestHoldsTheNewest(states, events, a, n);
  }

  lemma EmptyMailboxStarts(t: Tables, a: Id, hi: nat)
    requires Consistent(t) && LinksOf(t, a) == {}
    ensures MailboxCap.IsStart(MailboxCap.Watch(t, map[], 0, 0), a, hi)
  {
  }

  lemma NewMailboxIsEmpty(t: Tables, op: Op)
    requires Consistent(t) && (op.NewTemp? || op.NewPermanent?) && op.id !in t.addresses
    ensures LinksOf(Step(t, op), op.id) == {}
  {
    StepIsUnlink(t, op);
    SurvivingLinks(t, UnlinkedBy(t, op));
  }

  /** Every granted address opens such a history: its mailbox is empty and has no jobs. */
  lemma NewMailboxStarts(t: Tables, op: Op, hi: nat)
    requires Consistent(t) && (op.NewTemp? || op.NewPermanent?) && op.id !in t.addresses
    ensures MailboxCap.IsStart(MailboxCap.Watch(Step(t, op), map[], 0, 0), op.id, hi)
  {
    StepKeepsConsistency(t, op);
    NewMailboxIsEmpty(t, op);
    EmptyMailboxStarts(Step(t, op), op.id, hi);
  }

  // ------------------------------------------------- permanent mailboxes stay for ever

  /** Creation replaces expired rows only, and never under an id in use. */
  lemma ReplaceKeepsRow(t: Tables, id: Id, row: Address, now: Time, a: Id)
    requires Consistent(t) && NameIsFree(t, row.email, now) && a in t.addresses && !IsExpired(t.addresses[a], now)
    ensures var t' := Replace(t, id, row).0; a in t'.addresses && t'.addresses[a] == t.addresses[a]
  {
  }

  lemma NewTempKeepsRow(t: Tables, op: Op, a: Id)
    requires Consistent(t) && op.NewTemp? && a in t.addresses && !IsExpired(t.addresses[a], op.now)
    ensures var t' := Step(t, op); a in t'.addresses && t'.addresses[a] == t.addresses[a]
  {
    var name := TempName(t, op.s, op.r, op.random, op.now).0;
    if name.Some? {
      GrantedTempNameIsFree(t, op.s, op.r, op.random, op.now);
      ReplaceKeepsRow(t, op.id, Address(name.value, op.token, Temp, Some(ExpiryOf(op.s, op.now))), op.now, a);
    }
  }

  lemma NewPermanentKeepsRow(t: Tables, op: Op, a: Id)
    requires Consistent(t) && op.NewPermanent? && a in t.addresses && !IsExpired(t.addresses[a], op.now)
    ensures var t' := Step(t, op); a in t'.addresses && t'.addresses[a] == t.addresses[a]
  {
    var name := PermanentName(t, op.s, op.username, op.domain, op.now).0;
    if name.Some? {
      ReplaceKeepsRow(t, op.id, Address(name.value, op.token, Permanent, None), op.now, a);
    }
  }

  lemma StepKeepsPermanent(t: Tables, op: Op, a: Id)
    requires Consistent(t) && a in t.addresses && t.addresses[a].kind == Permanent && op != AdminDeletesAddress(a)
    ensures var t' := Step(t, op); a in t'.addresses && t'.addresses[a] == t.addresses[a]
  {
    if op.NewTemp? {
      NewTempKeepsRow(t, op, a);
    } else if op.NewPermanent? {
      NewPermanentKeepsRow(t, op, a);
    }
  }

  /** The row of a permanent mailbox survives, unaltered, everything but the admin's delete of it. */
  lemma {:induction false} PermanentSurvives(t: Tables, ops: seq<Op>, a: Id)
    requires Consistent(t) && a in t.addresses && t.addresses[a].kind == Permanent && AdminDeletesAddress(a) !in ops
    ensures var t' := RunFrom(t, ops); a in t'.addresses && t'.addresses[a] == t.addresses[a]
  {
    if ops != [] {
      var front := ops[..|ops| - 1];
      PermanentSurvives(t, front, a);
      StepKeepsPermanent(RunFrom(t, front), ops[|ops| - 1], a);
    }
  }

  /**
   A permanent mailbox is for ever: whatever happens after its creation, at any time, until
   the admin deletes it, its token opens it, and it can receive mail iff its domain is
   configured in lower case.
   */
  lemma PermanentMailboxIsForEver(t: Tables, op: Op, ops: seq<Op>, later: Time)
    requires Consistent(t) && op.NewPermanent? && op.id !in t.addresses && op.id in Step(t, op).addresses
    requires AdminDeletesAddress(op.id) !in ops
    ensures Consistent(Step(t, op))
    ensures var t' := RunFrom(Step(t, op), ops);
      && FindByToken(t', op.token) == Some(op.id) && op.id in t'.addresses && !IsExpired(t'.addresses[op.id], later)
      && ((exists m: Message :: Recipient(t', m, later) == Some(op.id)) <==> IsLower(ChooseDomain(op.s, op.domain).value))
  {
    StepKeepsConsistency(t, op);
    PermanentMailboxReceivesIff(t, op.s, op.username, op.domain, op.id, op.token, op.now, later);
    PermanentSurvives(Step(t, op), ops, op.id);
    ReachableIffLowerCase(Step(t, op), op.id, later);
    ReachableIffLowerCase(RunFrom(Step(t, op), ops), op.id, later);
  }

  // ----------------------------------------------------------- the permanent cap

  /** In every history with one fixed positive cap, the permanent mailboxes stay within it. */
  lemma {:induction false} PermanentCountStaysCapped(ops: seq<Op>, cap: int)
    requires cap > 0
    requires forall i :: 0 <= i < |ops| && ops[i].NewPermanent? ==> ops[i].s.maxPermanentAddresses == cap
    ensures |PermanentAddresses(Run(ops))| <= cap
  {
    if ops != [] {
      var front, op := ops[..|ops| - 1], ops[|ops| - 1];
      PermanentCountStaysCapped(front, cap);
      StepCountsPermanent(Run(front), op, cap);
    }
  }

  lemma StepCountsPermanent(t: Tables, op: Op, cap: int)
    requires Consistent(t) && cap > 0 && |PermanentAddresses(t)| <= cap
    requires op.NewPermanent? ==> op.s.maxPermanentAddresses == cap
    ensures |PermanentAddresses(Step(t, op))| <= cap
  {
    match op
    case NewTemp(s, r, random, id, token, now) => TempCreationAddsNoPermanent(t, s, r, random, id, token, now);
    case NewPermanent(s, username, domain, id, token, now) =>
      PermanentCreationRespectsCap(t, s, username, domain, id, token, now);
    case _ => OtherStepsAddNoAddress(t, op); FewerPermanent(t, Step(t, op), {});
  }

  lemma OtherStepsAddNoAddress(t: Tables, op: Op)
    requires !op.NewTemp? && !op.NewPermanent?
    ensures forall a :: a in Step(t, op).addresses ==> a in t.addresses && Step(t, op).addresses[a] == t.addresses[a]
  {
  }
}
