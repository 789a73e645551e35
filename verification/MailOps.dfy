/**
 What each route and job does to the tables, as functions: delivery (mx/database.go),
 the clean-up jobs (api/app/cleanup.py) and the delete and purge routes. The class in
 MailStore carries the same operations out statement by statement.
 */
module MailOps {
  import opened Wrappers
  import opened Text
  import opened MailTables

  // ------------------------------------------------------------------ lifetimes

  /** Address.is_expired: what the API refuses to open. */
  predicate IsExpired(a: Address, now: Time) {
    a.kind == Temp && a.expiresAt.Some? && now > a.expiresAt.value
  }

  /** getAddress and AddressExists: where the MX delivers. */
  predicate AcceptsMail(a: Address, now: Time) {
    a.expiresAt.None? || a.expiresAt.value > now
  }

  /** The WHERE clause of cleanup_expired_addresses(). */
  predicate IsCleanedUp(a: Address, now: Time) {
    a.expiresAt.Some? && a.expiresAt.value < now
  }

  /**
   The three expiry rules agree except at the very instant of expiry, when the MX already
   refuses an address that the API still opens and the clean-up still spares.
   */
  lemma ExpiryRulesDifferOnlyAtTheInstant(t: Tables, a: Id, now: Time)
    requires Consistent(t) && a in t.addresses
    ensures var row := t.addresses[a];
      && (AcceptsMail(row, now) ==> !IsExpired(row, now))
      && (IsExpired(row, now) <==> IsCleanedUp(row, now))
      && (AcceptsMail(row, now) != !IsExpired(row, now) <==> row.expiresAt == Some(now))
  {
  }

  // ------------------------------------------------------------------- delivery

  datatype NewAttachment = NewAttachment(id: Id, filename: string, size: nat)

  /** A message to store, with the row ids the database is going to generate for it. */
  datatype Message = Message(emailId: Id, linkId: Id, email: Email, attachments: seq<NewAttachment>)

  function AttachmentRows(e: Id, atts: seq<NewAttachment>): map<Id, Attachment> {
    if atts == [] then map[]
    else
      var a := atts[|atts| - 1];
      AttachmentRows(e, atts[..|atts| - 1])[a.id := Attachment(e, a.filename, a.size)]
  }

  predicate AttachmentIdsFree(t: Tables, atts: seq<NewAttachment>) {
    && (forall i :: 0 <= i < |atts| ==> atts[i].id !in t.attachments)
    && forall i, j :: 0 <= i < j < |atts| ==> atts[i].id != atts[j].id
  }

  function Stored(t: Tables, m: Message, a: Id): Tables {
    Tables(
      t.addresses,
      t.emails[m.emailId := m.email],
      t.links[m.linkId := Link(m.emailId, a)],
      t.attachments + AttachmentRows(m.emailId, m.attachments))
  }

  /** Statements of StoreEmail's transaction: BEGIN, three rows, the attachments, COMMIT. */
  function StatementCount(m: Message): nat { 5 + |m.attachments| }

  /** The mailbox a delivery goes to, when no statement fails. */
  function Recipient(t: Tables, m: Message, now: Time): Option<Id>
  {
    var a := FindByEmail(t, ToLower(m.email.toAddress));
    if a.Some? && AcceptsMail(t.addresses[a.value], now) then a else None
  }

  /**
   StoreEmail. `faultAt` is the statement at which the database fails, if any. The
   result names the mailbox for which a cap job is started.
   */
  function Store(t: Tables, m: Message, now: Time, faultAt: Option<nat>): (Tables, Option<Id>)
  {
    var a := Recipient(t, m, now);
    if || (faultAt.Some? && faultAt.value < StatementCount(m))
       || m.emailId in t.emails || a.None? || m.linkId in t.links || !AttachmentIdsFree(t, m.attachments)
    then (t, None)
    else (Stored(t, m, a.value), a)
  }

  lemma {:induction false} AttachmentRowsOf(e: Id, atts: seq<NewAttachment>)
    ensures forall x :: x in AttachmentRows(e, atts) ==> AttachmentRows(e, atts)[x].emailId == e
  {
    if atts != [] {
      AttachmentRowsOf(e, atts[..|atts| - 1]);
    }
  }

  lemma StoreKeepsSchema(t: Tables, m: Message, now: Time, faultAt: Option<nat>)
    requires SchemaHolds(t)
    ensures SchemaHolds(Store(t, m, now, faultAt).0)
  {
    AttachmentRowsOf(m.emailId, m.attachments);
  }

  lemma StoredHasNoOrphans(t: Tables, m: Message, a: Id)
    requires NoOrphans(t) && m.linkId !in t.links
    ensures NoOrphans(Stored(t, m, a))
  {
    var t' := Stored(t, m, a);
    forall e | e in t'.emails ensures IsLinked(t', e) {
      if e in t.emails {
        assert IsLinked(t, e);
        var l :| l in t.links && t.links[l].emailId == e;
        assert l in t'.links;
      } else {
        assert m.linkId in t'.links;
      }
    }
  }

  lemma StoreKeepsConsistency(t: Tables, m: Message, now: Time, faultAt: Option<nat>)
    requires Consistent(t)
    ensures Consistent(Store(t, m, now, faultAt).0)
  {
    StoreKeepsSchema(t, m, now, faultAt);
    var a := Store(t, m, now, faultAt).1;
    if a.Some? {
      StoredHasNoOrphans(t, m, a.value);
    }
  }

  /** The ids the database is to generate for the rows of a message are not in use. */
  ghost predicate RowIdsAreFree(t: Tables, m: Message) {
    && m.emailId !in t.emails && m.linkId !in t.links
    && (forall i :: 0 <= i < |m.attachments| ==> m.attachments[i].id !in t.attachments)
    && forall i, j :: 0 <= i < j < |m.attachments| ==> m.attachments[i].id != m.attachments[j].id
  }

  /** Address `a` bears the name in lower case, and has no expiry or a later one. */
  ghost predicate IsMailboxFor(t: Tables, a: Id, name: string, now: Time) {
    && a in t.addresses && t.addresses[a].email == ToLower(name)
    && match t.addresses[a].expiresAt case None => true case Some(end) => end > now
  }

  /**
   A message is stored, in mailbox `a`, iff no statement fails, its row ids are new and `a`
   is the live mailbox of that name. The attachments make no difference.
   */
  lemma StoreSucceedsIff(t: Tables, m: Message, now: Time, faultAt: Option<nat>, a: Id)
    requires Consistent(t)
    ensures Store(t, m, now, faultAt).1 == Some(a) <==>
            && (faultAt.Some? ==> faultAt.value >= 5 + |m.attachments|)
            && RowIdsAreFree(t, m) && IsMailboxFor(t, a, m.email.toAddress, now)
  {
  }

  lemma StoreReachesExactly(t: Tables, m: Message, now: Time, faultAt: Option<nat>)
    requires Consistent(t)
    ensures forall a: Id :: Store(t, m, now, faultAt).1 == Some(a) <==>
            (faultAt.Some? ==> faultAt.value >= 5 + |m.attachments|) && RowIdsAreFree(t, m) &&
            IsMailboxFor(t, a, m.email.toAddress, now)
  {
    forall a: Id ensures Store(t, m, now, faultAt).1 == Some(a) <==>
      (faultAt.Some? ==> faultAt.value >= 5 + |m.attachments|) && RowIdsAreFree(t, m) &&
      IsMailboxFor(t, a, m.email.toAddress, now)
    {
      StoreSucceedsIff(t, m, now, faultAt, a);
    }
  }

  lemma {:induction false} AttachmentRowsExactly(e: Id, atts: seq<NewAttachment>)
    requires forall i, j :: 0 <= i < j < |atts| ==> atts[i].id != atts[j].id
    ensures forall x :: x in AttachmentRows(e, atts) ==> exists i :: 0 <= i < |atts| && atts[i].id == x
    ensures forall i :: 0 <= i < |atts| ==>
      atts[i].id in AttachmentRows(e, atts) && AttachmentRows(e, atts)[atts[i].id] == Attachment(e, atts[i].filename, atts[i].size)
  {
    if atts != [] {
      var n := |atts| - 1;
      AttachmentRowsExactly(e, atts[..n]);
      forall x | x in AttachmentRows(e, atts) ensures exists i :: 0 <= i < |atts| && atts[i].id == x {
        if x in AttachmentRows(e, atts[..n]) {
          var i :| 0 <= i < n && atts[..n][i].id == x;
          assert atts[i].id == x;
        } else {
          assert atts[n].id == x;
        }
      }
    }
  }

  /** The attachment rows that a stored message adds. */
  ghost predicate AddsAttachments(old_: map<Id, Attachment>, new_: map<Id, Attachment>, m: Message) {
    && (forall x :: x in old_ ==> x in new_ && new_[x] == old_[x])
    && (forall x :: x in new_ ==> x in old_ || exists i :: 0 <= i < |m.attachments| && m.attachments[i].id == x)
    && forall i :: 0 <= i < |m.attachments| ==> var x := m.attachments[i];
         x.id in new_ && new_[x.id] == Attachment(m.emailId, x.filename, x.size)
  }

  lemma AttachmentsAdded(t: Tables, m: Message)
    requires RowIdsAreFree(t, m)
    ensures AddsAttachments(t.attachments, t.attachments + AttachmentRows(m.emailId, m.attachments), m)
  {
    AttachmentRowsExactly(m.emailId, m.attachments);
  }

  /** The rows a stored message adds: itself, one link, and one row per attachment; all others stay as they are. */
  ghost predicate AddsMessage(t: Tables, t': Tables, m: Message, a: Id) {
    && t'.addresses == t.addresses
    && t'.emails.Keys == t.emails.Keys + {m.emailId} && t'.emails[m.emailId] == m.email
    && (forall e :: e in t.emails ==> t'.emails[e] == t.emails[e])
    && t'.links.Keys == t.links.Keys + {m.linkId} && t'.links[m.linkId] == Link(m.emailId, a)
    && (forall l :: l in t.links ==> t'.links[l] == t.links[l])
    && AddsAttachments(t.attachments, t'.attachments, m)
  }

  lemma StoredAddsMessage(t: Tables, m: Message, a: Id)
    requires RowIdsAreFree(t, m)
    ensures AddsMessage(t, Stored(t, m, a), m, a)
  {
    AttachmentsAdded(t, m);
  }

  /** A delivery adds exactly the rows of its message, or, if it fails, nothing. */
  lemma StoreAddsExactly(t: Tables, m: Message, now: Time, faultAt: Option<nat>)
    ensures var (t', a) := Store(t, m, now, faultAt); if a.None? then t' == t else AddsMessage(t, t', m, a.value)
  {
    var a := Store(t, m, now, faultAt).1;
    if a.Some? {
      StoredAddsMessage(t, m, a.value);
    }
  }

  // ------------------------------------------------------------ the small deleters

  function LinkBetween(t: Tables, e: Id, a: Id): Option<Id> {
    First(set l | l in t.links && t.links[l] == Link(e, a))
  }

  /** The link that DELETE /{token}/emails/{id} removes, if the request is honoured. */
  function OwnLink(t: Tables, token: string, e: Id, now: Time): Option<Id>
  {
    var a := FindByToken(t, token);
    if a.None? || IsExpired(t.addresses[a.value], now) then None else LinkBetween(t, e, a.value)
  }

  /** A mailbox owner deletes one message. False means a 404 reply. */
  function DeleteOwn(t: Tables, token: string, e: Id, now: Time): (Tables, bool)
  {
    var l := OwnLink(t, token, e, now);
    if l.None? then (t, false) else (DeleteLinks(t, {l.value}), true)
  }

  /** Messages without any link: the second statement of purge and retention. */
  function Unlinked(t: Tables): set<Id> {
    set e | e in t.emails && LinksTo(t, e) == {}
  }

  /** Admin purge of one permanent mailbox; None is the 404 reply. */
  function Purge(t: Tables, a: Id): (Tables, Option<nat>) {
    if a !in t.addresses || t.addresses[a].kind != Permanent then (t, None)
    else
      var t' := DeleteLinks(t, LinksOf(t, a));
      (DeleteEmails(t', Unlinked(t')), Some(|LinksOf(t, a)|))
  }

  /** datetime.utcnow() - timedelta(days=days), in microseconds. */
  function Cutoff(now: Time, days: int): Time { now - days * 86_400_000_000 }

  function RetentionLinks(t: Tables, cutoff: Time): set<Id> {
    set l | && l in t.links && t.links[l].emailId in t.emails && t.links[l].addressId in t.addresses
            && t.emails[t.links[l].emailId].receivedAt < cutoff && t.addresses[t.links[l].addressId].kind == Permanent
  }

  function OldUnlinked(t: Tables, cutoff: Time): set<Id> {
    set e | e in t.emails && t.emails[e].receivedAt < cutoff && LinksTo(t, e) == {}
  }

  /** Links of permanent mailboxes that the retention job drops; no positive number of days, no job. */
  function RetentionVictims(t: Tables, days: int, now: Time): set<Id> {
    if days <= 0 then {} else RetentionLinks(t, Cutoff(now, days))
  }

  /** Retention of permanent mailboxes. */
  function Retain(t: Tables, days: int, now: Time): (Tables, nat) {
    if days <= 0 then (t, 0)
    else
      var dead := RetentionVictims(t, days, now);
      var t' := DeleteLinks(t, dead);
      (DeleteEmails(t', OldUnlinked(t', Cutoff(now, days))), |dead|)
  }

  function ExpiredAddresses(t: Tables, now: Time): set<Id> {
    set a | a in t.addresses && IsCleanedUp(t.addresses[a], now)
  }

  function Expire(t: Tables, now: Time): (Tables, nat) {
    (DeleteAddresses(t, ExpiredAddresses(t, now)), |ExpiredAddresses(t, now)|)
  }

  // ------------------------------------------------------------ the per-address cap

  /** maxEmails in EnforceEmailLimit: the configured value when positive, else 100. */
  function CapInForce(configured: Option<int>): nat {
    if configured.Some? && configured.value > 0 then configured.value else 100
  }

  /**
   The rows that ORDER BY received_at DESC OFFSET n may name: all but n links of the
   mailbox, none of them newer than a link that stays. Ties leave the database a choice.
   */
  predicate IsCapChoice(t: Tables, a: Id, n: nat, victims: set<Id>)
  {
    && victims <= LinksOf(t, a)
    && |LinksOf(t, a) - victims| == (if |LinksOf(t, a)| <= n then |LinksOf(t, a)| else n)
    && forall k, v :: k in LinksOf(t, a) - victims && v in victims ==> ReceivedAt(t, k) >= ReceivedAt(t, v)
  }

  /** `cap` is the number of links that the cap statement lets a mailbox keep. */
  ghost predicate IsCap(configured: Option<int>, cap: nat) {
    match configured
    case None => cap == 100
    case Some(n) => if n > 0 then cap == n else cap == 100
  }

  lemma LinksAfterCap(t: Tables, a: Id, n: nat, victims: set<Id>, b: Id)
    requires SchemaHolds(t) && IsCapChoice(t, a, n, victims)
    ensures LinksOf(DeleteLinks(t, victims), b) == if b == a then LinksOf(t, a) - victims else LinksOf(t, b)
  {
    MailboxAfterUnlinking(t, victims, b);
  }

  /** `links` is a mailbox of links `all` after the cap statement: cut to the cap, the newest kept. */
  ghost predicate IsCutTo(t: Tables, all: set<Id>, links: set<Id>, cap: nat) {
    && links <= all && |links| == (if |all| <= cap then |all| else cap)
    && forall k, v :: k in links && v in all - links ==> ReceivedAt(t, k) >= ReceivedAt(t, v)
  }

  /**
   What the cap statement leaves: of the mailbox as many links as the configured cap says,
   100 when none is configured, received no earlier than those that go; and every other
   mailbox whole.
   */
  lemma CapLeaves(t: Tables, a: Id, configured: Option<int>, victims: set<Id>, cap: nat)
    requires SchemaHolds(t) && IsCapChoice(t, a, CapInForce(configured), victims) && IsCap(configured, cap)
    ensures IsCutTo(t, LinksOf(t, a), LinksOf(DeleteLinks(t, victims), a), cap)
    ensures forall b :: b != a ==> LinksOf(DeleteLinks(t, victims), b) == LinksOf(t, b)
  {
    LinksAfterCap(t, a, CapInForce(configured), victims, a);
    assert LinksOf(t, a) - (LinksOf(t, a) - victims) == victims;
    forall b | b != a ensures LinksOf(DeleteLinks(t, victims), b) == LinksOf(t, b) {
      LinksAfterCap(t, a, CapInForce(configured), victims, b);
    }
  }

  lemma {:induction false} CapChoiceExists(t: Tables, a: Id, n: nat)
    ensures exists victims :: IsCapChoice(t, a, n, victims)
  {
    var victims := PickOldest(t, a, n, if |LinksOf(t, a)| <= n then 0 else |LinksOf(t, a)| - n);
    assert IsCapChoice(t, a, n, victims);
  }

  lemma {:induction false} PickOldest(t: Tables, a: Id, n: nat, count: nat) returns (victims: set<Id>)
    requires count <= |LinksOf(t, a)|
    ensures victims <= LinksOf(t, a) && |LinksOf(t, a) - victims| == |LinksOf(t, a)| - count
    ensures forall k, v :: k in LinksOf(t, a) - victims && v in victims ==> ReceivedAt(t, k) >= ReceivedAt(t, v)
    decreases count
  {
    victims := {};
    if count > 0 {
      victims := PickOldest(t, a, n, count - 1);
      var m := Oldest(t, LinksOf(t, a) - victims);
      assert LinksOf(t, a) - (victims + {m}) == (LinksOf(t, a) - victims) - {m};
      victims := victims + {m};
    } else {
      assert LinksOf(t, a) - {} == LinksOf(t, a);
    }
  }

  lemma {:induction false} Oldest(t: Tables, ids: set<Id>) returns (m: Id)
    requires ids != {}
    ensures m in ids && forall k :: k in ids ==> ReceivedAt(t, k) >= ReceivedAt(t, m)
    decreases ids
  {
    var x :| x in ids;
    var rest := ids - {x};
    m := x;
    if rest != {} {
      m := Oldest(t, rest);
      m := if ReceivedAt(t, x) >= ReceivedAt(t, m) then m else x;
    }
    assert forall k :: k in ids ==> k == x || k in rest;
  }
}
