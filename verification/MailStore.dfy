/**
 The mail database as the services drive it: every method issues the statements of one
 route or job, in order, on the current rows, and is proved against MailOps.
 */
module MailStore {
  import opened Wrappers
  import opened Text
  import opened MailTables
  import opened MailOps
  import StorageCap

  class Database {
    var tables: Tables

    constructor ()
      ensures tables == EMPTY
    {
      tables := EMPTY;
    }

    // --------------------------------------------------------------- statements

    /** ON DELETE CASCADE for one deleted message row. */
    method DeleteEmailRow(e: Id)
      modifies this
      ensures tables == DeleteEmails(old(tables), {e})
    {
      var t := tables;
      t := t.(emails := t.emails - {e});
      t := t.(links := map l | l in t.links && t.links[l].emailId != e :: t.links[l]);
      t := t.(attachments := map x | x in t.attachments && t.attachments[x].emailId != e :: t.attachments[x]);
      tables := t;
    }

    /** DELETE FROM email_recipients, then the row trigger once for every deleted row. */
    method DeleteRecipients(dead: set<Id>)
      modifies this
      ensures tables == DeleteLinks(old(tables), dead)
    {
      ghost var t := tables;
      var rows := map l | l in dead && l in tables.links :: tables.links[l];
      tables := tables.(links := tables.links - dead);
      ghost var bare := DeleteLinksBare(t, dead);
      var todo := rows.Keys;
      ghost var gone: set<Id> := {};
      NothingDeleted(bare);
      while todo != {}
        invariant todo <= rows.Keys
        invariant gone == OrphansAmong(t, dead, rows.Keys - todo)
        invariant tables == DeleteEmails(bare, gone)
        decreases todo
      {
        var l :| l in todo;
        var e := rows[l].emailId;
        TriggerFires(t, dead, rows.Keys - todo, l);
        if forall k :: k in tables.links ==> tables.links[k].emailId != e {
          DeleteEmailRow(e);
          gone := gone + {e};
        }
        assert rows.Keys - (todo - {l}) == rows.Keys - todo + {l};
        todo := todo - {l};
      }
      assert rows.Keys - todo == rows.Keys && OrphansAmong(t, dead, rows.Keys) == OrphansOf(t, dead);
    }

    // ---------------------------------------------------------- delivery and cap

    /**
     The statements of StoreEmail's transaction, on the transaction's own copy of the
     rows. None is a rollback; otherwise the rows to commit and the mailbox they reach.
     */
    static method RunDelivery(committed: Tables, m: Message, now: Time, faultAt: Option<nat>)
      returns (r: Option<(Tables, Id)>)
      ensures Store(committed, m, now, faultAt) ==
              if r.Some? then (r.value.0, Some(r.value.1)) else (committed, None)
    {
      var tx := committed;
      if faultAt == Some(0) {
        return None;
      }
      if faultAt == Some(1) || m.emailId in tx.emails {
        return None;
      }
      tx := tx.(emails := tx.emails[m.emailId := m.email]);
      var addressId := FindByEmail(committed, ToLower(m.email.toAddress));
      if faultAt == Some(2) || addressId.None? || !AcceptsMail(tx.addresses[addressId.value], now) {
        return None;
      }
      if faultAt == Some(3) || m.linkId in tx.links {
        return None;
      }
      tx := tx.(links := tx.links[m.linkId := Link(m.emailId, addressId.value)]);
      var withAttachments := InsertAttachments(tx, m, faultAt);
      if withAttachments.None? || faultAt == Some(4 + |m.attachments|) {
        return None;
      }
      return Some((withAttachments.value, addressId.value));
    }

    /** StoreEmail: the committed rows change at COMMIT only, then the cap job is started. */
    method StoreEmail(m: Message, now: Time, faultAt: Option<nat>) returns (capJob: Option<Id>)
      modifies this
      ensures (tables, capJob) == Store(old(tables), m, now, faultAt)
      ensures Consistent(old(tables)) ==> forall a: Id :: capJob == Some(a) <==>
        (faultAt.Some? ==> faultAt.value >= 5 + |m.attachments|) && RowIdsAreFree(old(tables), m) &&
        IsMailboxFor(old(tables), a, m.email.toAddress, now)
      ensures if capJob.None? then tables == old(tables) else AddsMessage(old(tables), tables, m, capJob.value)
    {
      StoreAddsExactly(tables, m, now, faultAt);
      if Consistent(tables) {
        StoreReachesExactly(tables, m, now, faultAt);
      }
      var r := RunDelivery(tables, m, now, faultAt);
      if r.None? {
        return None;
      }
      tables := r.value.0;
      return Some(r.value.1);
    }

    /** The attachment loop of StoreEmail; None when an INSERT fails. */
    static method InsertAttachments(before: Tables, m: Message, faultAt: Option<nat>) returns (after: Option<Tables>)
      requires faultAt.Some? ==> faultAt.value >= 4
      ensures after.Some? <==> AttachmentIdsFree(before, m.attachments) &&
                               (faultAt.Some? ==> faultAt.value >= 4 + |m.attachments|)
      ensures after.Some? ==> after.value == before.(attachments := before.attachments + AttachmentRows(m.emailId, m.attachments))
    {
      var rows := before.attachments;
      var i := 0;
      while i < |m.attachments|
        invariant 0 <= i <= |m.attachments|
        invariant faultAt.Some? ==> faultAt.value >= 4 + i
        invariant AttachmentIdsFree(before, m.attachments[..i])
        invariant rows == before.attachments + AttachmentRows(m.emailId, m.attachments[..i])
      {
        var att := m.attachments[i];
        OneMoreAttachment(before, m.emailId, m.attachments, i);
        if faultAt == Some(4 + i) || att.id in rows {
          return None;
        }
        rows := rows[att.id := Attachment(m.emailId, att.filename, att.size)];
        i := i + 1;
      }
      assert m.attachments[..i] == m.attachments;
      return Some(before.(attachments := rows));
    }

    /** SELECT ... ORDER BY received_at DESC OFFSET n; the database settles ties as it likes. */
    method SelectBeyondCap(a: Id, n: nat) returns (chosen: set<Id>)
      ensures IsCapChoice(tables, a, n, chosen)
    {
      CapChoiceExists(tables, a, n);
      chosen :| chosen <= LinksOf(tables, a) && IsCapChoice(tables, a, n, chosen);
    }

    /**
     EnforceEmailLimit. The statement's own DELETE FROM emails looks at the snapshot taken
     before the links went, so it finds nothing to delete: the trigger does that work.
     */
    method EnforceEmailLimit(addressId: Id, configured: Option<int>)
      modifies this
      ensures exists victims: set<Id> {:trigger IsCapChoice(old(tables), addressId, CapInForce(configured), victims)} ::
        IsCapChoice(old(tables), addressId, CapInForce(configured), victims) && tables == DeleteLinks(old(tables), victims)
      ensures SchemaHolds(old(tables)) ==> forall cap: nat :: IsCap(configured, cap) ==>
        IsCutTo(old(tables), LinksOf(old(tables), addressId), LinksOf(tables, addressId), cap)
    {
      var maxEmails := CapInForce(configured);
      var chosen := SelectBeyondCap(addressId, maxEmails);
      ghost var t := tables;
      var snapshotOrphans := set l | l in chosen && LinksTo(tables, tables.links[l].emailId) == {} :: tables.links[l].emailId;
      SnapshotSeesNoOrphan(t, chosen);
      assert snapshotOrphans == {};
      DeleteRecipients(chosen);
      DeleteEmailRows(snapshotOrphans);
      NothingDeleted(DeleteLinks(t, chosen));
      forall cap: nat | SchemaHolds(t) && IsCap(configured, cap)
        ensures IsCutTo(t, LinksOf(t, addressId), LinksOf(DeleteLinks(t, chosen), addressId), cap)
      {
        CapLeaves(t, addressId, configured, chosen, cap);
      }
    }

    // ------------------------------------------------------------ clean-up jobs

    method EnforceStorageLimit(maxStorageMb: int) returns (deleted: nat)
      modifies this
      ensures (tables, deleted) == StorageCap.Enforce(old(tables), maxStorageMb)
      ensures maxStorageMb <= 0 ==> tables == old(tables) && deleted == 0
    {
      if maxStorageMb <= 0 {
        return 0;
      }
      var limitBytes := maxStorageMb * 1024 * 1024;
      var usage := StorageCap.TotalSize(tables.emails, tables.emails.Keys);
      if usage <= limitBytes {
        return 0;
      }
      var dead := StorageCap.Overflow(tables.emails, limitBytes);
      DeleteEmailRows(dead);
      return |dead|;
    }

    method CleanupRetention(days: int, now: Time) returns (deleted: nat)
      modifies this
      ensures (tables, deleted) == Retain(old(tables), days, now)
    {
      if days <= 0 {
        return 0;
      }
      var cutoff := Cutoff(now, days);
      var dead := RetentionLinks(tables, cutoff);
      ghost var t := tables;
      DeleteRecipients(dead);
      var unlinked := OldUnlinked(tables, cutoff);
      DeleteEmailRows(unlinked);
      assert tables == DeleteEmails(DeleteLinks(t, dead), unlinked);
      return |dead|;
    }

    /** DELETE FROM emails WHERE id IN dead. */
    method DeleteEmailRows(dead: set<Id>)
      modifies this
      ensures tables == DeleteEmails(old(tables), dead)
    {
      var t := tables;
      t := t.(links := map l | l in t.links && t.links[l].emailId !in dead :: t.links[l]);
      t := t.(attachments := map x | x in t.attachments && t.attachments[x].emailId !in dead :: t.attachments[x]);
      tables := t.(emails := t.emails - dead);
    }

    method DeleteAddressRows(dead: set<Id>)
      modifies this
      ensures tables == DeleteAddresses(old(tables), dead)
    {
      ghost var t := tables;
      var cascade := LinksOfAny(tables, dead);
      DeleteRecipients(cascade);
      SurvivingLinks(t, cascade);
      tables := tables.(addresses := tables.addresses - dead);
    }

    method CleanupExpiredAddresses(now: Time) returns (deleted: nat)
      modifies this
      ensures (tables, deleted) == Expire(old(tables), now)
    {
      var dead := ExpiredAddresses(tables, now);
      DeleteAddressRows(dead);
      return |dead|;
    }

    // ------------------------------------------------------------------- routes

    /** DELETE /{token}/emails/{id}: unlink, then collect the message if nobody has it. */
    method DeleteEmail(token: string, e: Id, now: Time) returns (found: bool)
      modifies this
      ensures (tables, found) == DeleteOwn(old(tables), token, e, now)
    {
      var address := FindByToken(tables, token);
      if address.None? || IsExpired(tables.addresses[address.value], now) {
        return false;
      }
      var recipient := LinkBetween(tables, e, address.value);
      if recipient.None? {
        return false;
      }
      UnlinkAndCollect(e, recipient.value);
      return true;
    }

    method UnlinkAndCollect(e: Id, recipient: Id)
      requires recipient in tables.links && tables.links[recipient].emailId == e
      modifies this
      ensures tables == DeleteLinks(old(tables), {recipient})
    {
      ghost var t := tables;
      DeleteRecipients({recipient});
      if forall l :: l in tables.links ==> tables.links[l].emailId != e {
        AlreadyCollected(t, recipient);
        var gone := map x | x in tables.attachments && tables.attachments[x].emailId != e :: tables.attachments[x];
        tables := tables.(attachments := gone, emails := tables.emails - {e});
      }
    }

    /** DELETE /admin/emails/{id}; false is the 404 reply. */
    method AdminDeleteEmail(e: Id) returns (found: bool)
      modifies this
      ensures found <==> e in old(tables).emails
      ensures tables == if found then DeleteEmails(old(tables), {e}) else old(tables)
    {
      found := e in tables.emails;
      if found {
        DeleteEmailRows({e});
      }
    }

    /** DELETE /admin/addresses/{id}; false is the 404 reply. */
    method AdminDeleteAddress(a: Id) returns (found: bool)
      modifies this
      ensures found <==> a in old(tables).addresses
      ensures tables == if found then DeleteAddresses(old(tables), {a}) else old(tables)
    {
      found := a in tables.addresses;
      if found {
        DeleteAddressRows({a});
      }
    }

    method PurgePermanentEmails(a: Id) returns (deleted: Option<nat>)
      modifies this
      ensures (tables, deleted) == Purge(old(tables), a)
    {
      if a !in tables.addresses || tables.addresses[a].kind != Permanent {
        return None;
      }
      ghost var t := tables;
      var dead := LinksOf(tables, a);
      DeleteRecipients(dead);
      var unlinked := Unlinked(tables);
      DeleteEmailRows(unlinked);
      return Some(|dead|);
    }
  }

  // ------------------------------------------------------------- proof details

  /** The trigger's NOT EXISTS test, in terms of the rows before the statement. */
  lemma OrphanTest(t: Tables, dead: set<Id>, e: Id)
    ensures (forall k :: k in t.links - dead ==> t.links[k].emailId != e) <==> LinksTo(t, e) <= dead
  {
    if k :| k in t.links - dead && t.links[k].emailId == e {
      assert k in LinksTo(t, e);
    }
  }

  lemma DeleteEmailsInTurn(t: Tables, first: set<Id>, then_: set<Id>)
    ensures DeleteEmails(DeleteEmails(t, first), then_) == DeleteEmails(t, first + then_)
  {
  }

  lemma OrphansAmongOneMore(t: Tables, dead: set<Id>, fired: set<Id>, l: Id)
    requires l in t.links
    ensures var e := t.links[l].emailId;
            OrphansAmong(t, dead, fired + {l}) ==
            OrphansAmong(t, dead, fired) + if LinksTo(t, e) <= dead then {e} else {}
  {
    var e, more := t.links[l].emailId, OrphansAmong(t, dead, fired + {l});
    forall x | x in more ensures x in OrphansAmong(t, dead, fired) || (x == e && LinksTo(t, e) <= dead) {
    }
    assert LinksTo(t, e) <= dead ==> l in fired + {l} && e in more;
  }

  /** One firing of the row trigger for the deleted link `l`, after it fired for `fired`. */
  lemma TriggerFires(t: Tables, dead: set<Id>, fired: set<Id>, l: Id)
    requires l in t.links && l in dead
    ensures var e, gone, bare := t.links[l].emailId, OrphansAmong(t, dead, fired), DeleteLinksBare(t, dead);
      var now := DeleteEmails(bare, gone);
      if forall k :: k in now.links ==> now.links[k].emailId != e then
        && OrphansAmong(t, dead, fired + {l}) == gone + {e}
        && DeleteEmails(now, {e}) == DeleteEmails(bare, gone + {e})
      else OrphansAmong(t, dead, fired + {l}) == gone
  {
    var e, gone, bare := t.links[l].emailId, OrphansAmong(t, dead, fired), DeleteLinksBare(t, dead);
    OrphansAmongOneMore(t, dead, fired, l);
    OrphanTest(t, dead, e);
    DeleteEmailsInTurn(bare, gone, {e});
    var now := DeleteEmails(bare, gone);
    forall k | k in bare.links ensures k in now.links && now.links[k] == bare.links[k] {
      assert k in LinksTo(t, t.links[k].emailId);
    }
  }

  /** Before its links go, every message the cap statement touches still has one. */
  lemma SnapshotSeesNoOrphan(t: Tables, victims: set<Id>)
    requires victims <= t.links.Keys
    ensures forall l :: l in victims ==> LinksTo(t, t.links[l].emailId) != {}
  {
    forall l | l in victims ensures LinksTo(t, t.links[l].emailId) != {} {
      assert l in LinksTo(t, t.links[l].emailId);
    }
  }

  /** When the last link of a message goes, the trigger has removed it with its attachments. */
  lemma AlreadyCollected(t: Tables, l: Id)
    requires l in t.links
    requires var e := t.links[l].emailId; forall k :: k in DeleteLinks(t, {l}).links ==> DeleteLinks(t, {l}).links[k].emailId != e
    ensures var e, t' := t.links[l].emailId, DeleteLinks(t, {l});
            t' == t'.(attachments := map x | x in t'.attachments && t'.attachments[x].emailId != e :: t'.attachments[x],
                      emails := t'.emails - {e})
  {
    SurvivingLinks(t, {l});
    OrphanTest(t, {l}, t.links[l].emailId);
    assert t.links[l].emailId in OrphansOf(t, {l});
  }

  lemma DeleteLinksKeepsSchema(t: Tables, dead: set<Id>)
    requires SchemaHolds(t)
    ensures SchemaHolds(DeleteLinks(t, dead))
  {
  }

  lemma {:induction false} AttachmentKeys(e: Id, atts: seq<NewAttachment>, x: Id)
    ensures x in AttachmentRows(e, atts) <==> exists j :: 0 <= j < |atts| && atts[j].id == x
  {
    if atts != [] {
      AttachmentKeys(e, atts[..|atts| - 1], x);
      if atts[|atts| - 1].id == x {
        assert exists j :: 0 <= j < |atts| && atts[j].id == x;
      }
    }
  }

  /** The duplicate-key test of one INSERT decides whether the ids seen so far are usable. */
  lemma OneMoreAttachment(t: Tables, e: Id, atts: seq<NewAttachment>, i: nat)
    requires i < |atts| && AttachmentIdsFree(t, atts[..i])
    ensures var rows := t.attachments + AttachmentRows(e, atts[..i]);
      && (atts[i].id in rows ==> !AttachmentIdsFree(t, atts))
      && (atts[i].id !in rows ==> AttachmentIdsFree(t, atts[..i + 1]))
      && t.attachments + AttachmentRows(e, atts[..i + 1]) ==
         rows[atts[i].id := Attachment(e, atts[i].filename, atts[i].size)]
  {
    assert atts[..i + 1][..i] == atts[..i];
    AttachmentKeys(e, atts[..i], atts[i].id);
    if j :| 0 <= j < i && atts[..i][j].id == atts[i].id {
      assert atts[j].id == atts[i].id;
    }
  }
}
