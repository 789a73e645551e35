/**
 The tables of db/init/schema.sql and the statements the services run on them.
 Row ids are abstract numbers (UUIDs in the schema, compared with the same order).
 */
module MailTables {
  import opened Wrappers

  type Id = nat
  type Time = int

  datatype AddressType = Temp | Permanent

  datatype Address = Address(email: string, token: string, kind: AddressType, expiresAt: Option<Time>)
  datatype Email = Email(toAddress: string, receivedAt: Time, size: nat)
  datatype Link = Link(emailId: Id, addressId: Id)
  datatype Attachment = Attachment(emailId: Id, filename: string, size: nat)

  datatype Tables = Tables(
    addresses: map<Id, Address>,
    emails: map<Id, Email>,
    links: map<Id, Link>,
    attachments: map<Id, Attachment>)

  const EMPTY := Tables(map[], map[], map[], map[])

  // ---------------------------------------------------------------- the schema

  /** The constraints the database itself enforces: foreign keys and UNIQUE columns. */
  ghost predicate SchemaHolds(t: Tables) {
    && (forall l :: l in t.links ==> t.links[l].emailId in t.emails && t.links[l].addressId in t.addresses)
    && (forall k, l :: k in t.links && l in t.links && t.links[k] == t.links[l] ==> k == l)
    && (forall x :: x in t.attachments ==> t.attachments[x].emailId in t.emails)
    && (forall a, b :: a in t.addresses && b in t.addresses && t.addresses[a].email == t.addresses[b].email ==> a == b)
    && (forall a, b :: a in t.addresses && b in t.addresses && t.addresses[a].token == t.addresses[b].token ==> a == b)
  }

  ghost predicate IsLinked(t: Tables, e: Id) {
    exists l :: l in t.links && t.links[l].emailId == e
  }

  /** Nobody's mail lingers: every stored message sits in at least one mailbox. */
  ghost predicate NoOrphans(t: Tables) {
    forall e :: e in t.emails ==> IsLinked(t, e)
  }

  /** Permanent mailboxes are exactly the addresses without an expiry time. */
  ghost predicate LifetimesMatchTypes(t: Tables) {
    forall a :: a in t.addresses ==> (t.addresses[a].kind == Permanent <==> t.addresses[a].expiresAt.None?)
  }

  ghost predicate Consistent(t: Tables) {
    SchemaHolds(t) && NoOrphans(t) && LifetimesMatchTypes(t)
  }

  // ------------------------------------------------------------------- queries

  function LinksOf(t: Tables, a: Id): set<Id> {
    set l | l in t.links && t.links[l].addressId == a
  }

  function LinksTo(t: Tables, e: Id): set<Id> {
    set l | l in t.links && t.links[l].emailId == e
  }

  /** When the message behind a link was received. */
  function ReceivedAt(t: Tables, l: Id): Time {
    if l in t.links && t.links[l].emailId in t.emails then t.emails[t.links[l].emailId].receivedAt else 0
  }

  lemma SubsetSize(small: set<Id>, large: set<Id>)
    requires small <= large
    ensures |small| <= |large|
    ensures |small| == |large| ==> small == large
  {
    assert large == small + (large - small);
  }

  lemma {:induction false} Smallest(ids: set<Id>) returns (m: Id)
    requires ids != {}
    ensures m in ids && forall y :: y in ids ==> m <= y
    decreases ids
  {
    m :| m in ids;
    var rest := ids - {m};
    if rest != {} {
      var z := Smallest(rest);
      assert forall y :: y in ids ==> y == m || y in rest;
      m := if m < z then m else z;
    } else {
      assert ids == {m};
    }
  }

  lemma SmallestExists(ids: set<Id>)
    requires ids != {}
    ensures exists x :: x in ids && forall y :: y in ids ==> x <= y
  {
    var m := Smallest(ids);
  }

  function Least(ids: set<Id>): (m: Id)
    requires ids != {}
    ensures m in ids && forall y :: y in ids ==> m <= y
  {
    SmallestExists(ids);
    var x :| x in ids && forall y :: y in ids ==> x <= y;
    x
  }

  /** The .first() of a query whose matches are `ids`. */
  function First(ids: set<Id>): (r: Option<Id>)
    ensures r.Some? ==> r.value in ids
    ensures r.None? ==> ids == {}
  {
    if ids == {} then None else Some(Least(ids))
  }

  function FindByEmail(t: Tables, email: string): (r: Option<Id>)
    ensures r.Some? ==> r.value in t.addresses && t.addresses[r.value].email == email
    ensures r.None? ==> forall a :: a in t.addresses ==> t.addresses[a].email != email
  {
    var ids := set a | a in t.addresses && t.addresses[a].email == email;
    assert forall a :: a in t.addresses && t.addresses[a].email == email ==> a in ids;
    First(ids)
  }

  function FindByToken(t: Tables, token: string): (r: Option<Id>)
    ensures r.Some? ==> r.value in t.addresses && t.addresses[r.value].token == token
    ensures r.None? ==> forall a :: a in t.addresses ==> t.addresses[a].token != token
  {
    var ids := set a | a in t.addresses && t.addresses[a].token == token;
    assert forall a :: a in t.addresses && t.addresses[a].token == token ==> a in ids;
    First(ids)
  }

  // ---------------------------------------------------------- DELETE statements

  /** DELETE FROM emails, with the ON DELETE CASCADE of links and attachments. */
  function DeleteEmails(t: Tables, dead: set<Id>): Tables {
    Tables(
      t.addresses,
      t.emails - dead,
      map l | l in t.links && t.links[l].emailId !in dead :: t.links[l],
      map x | x in t.attachments && t.attachments[x].emailId !in dead :: t.attachments[x])
  }

  /** DELETE FROM email_recipients on a database without the orphan trigger. */
  function DeleteLinksBare(t: Tables, dead: set<Id>): Tables {
    t.(links := t.links - dead)
  }

  /** Messages with a link in `fired` and all their links in `dead`. */
  function OrphansAmong(t: Tables, dead: set<Id>, fired: set<Id>): set<Id> {
    set l | l in fired && l in t.links && LinksTo(t, t.links[l].emailId) <= dead :: t.links[l].emailId
  }

  /** Messages that lost a link in `dead` and have none left. */
  function OrphansOf(t: Tables, dead: set<Id>): set<Id> {
    OrphansAmong(t, dead, dead)
  }

  /** DELETE FROM email_recipients; the trigger deletes every message left without a link. */
  function DeleteLinks(t: Tables, dead: set<Id>): Tables {
    DeleteEmails(DeleteLinksBare(t, dead), OrphansOf(t, dead))
  }

  function LinksOfAny(t: Tables, addresses: set<Id>): set<Id> {
    set l | l in t.links && t.links[l].addressId in addresses
  }

  /** DELETE FROM addresses: links go by cascade, which fires the orphan trigger. */
  function DeleteAddresses(t: Tables, dead: set<Id>): Tables {
    var t' := DeleteLinks(t, LinksOfAny(t, dead));
    t'.(addresses := t'.addresses - dead)
  }

  lemma NothingDeleted(t: Tables)
    ensures DeleteEmails(t, {}) == t
  {
  }

  lemma UnlinkNothing(t: Tables)
    ensures DeleteLinks(t, {}) == t
  {
    assert OrphansOf(t, {}) == {};
    assert t.links - {} == t.links;
    NothingDeleted(t);
  }

  // ------------------------------------------------- what a deletion leaves alone

  ghost predicate SameMail(t: Tables, u: Tables) {
    t.links == u.links && t.emails == u.emails && t.attachments == u.attachments
  }

  /** The link row, its message and the message's attachments are the same before and after. */
  ghost predicate LinkUntouched(t: Tables, t': Tables, l: Id)
    requires l in t.links
  {
    var e := t.links[l].emailId;
    && l in t'.links && t'.links[l] == t.links[l]
    && (e in t.emails ==> e in t'.emails && t'.emails[e] == t.emails[e])
    && forall x :: x in t.attachments && t.attachments[x].emailId == e ==> x in t'.attachments && t'.attachments[x] == t.attachments[x]
  }

  /** A link to `e` that survives the removal of `dead`. */
  ghost predicate KeepsLink(t: Tables, dead: set<Id>, e: Id) {
    exists l :: l in t.links && l !in dead && t.links[l].emailId == e
  }

  lemma OrphanIffLastLinkGone(t: Tables, dead: set<Id>, e: Id)
    requires IsLinked(t, e)
    ensures e in OrphansOf(t, dead) <==> !KeepsLink(t, dead, e)
  {
    var l :| l in t.links && t.links[l].emailId == e;
    if KeepsLink(t, dead, e) {
      var k :| k in t.links && k !in dead && t.links[k].emailId == e;
      assert k in LinksTo(t, e);
    } else {
      assert LinksTo(t, e) <= dead && l in dead;
    }
  }

  lemma SurvivingLinks(t: Tables, dead: set<Id>)
    ensures DeleteLinks(t, dead).links == t.links - dead
  {
    forall l | l in t.links && l !in dead ensures t.links[l].emailId !in OrphansOf(t, dead) {
      assert l in LinksTo(t, t.links[l].emailId);
    }
  }

  /**
   Exact effect of unlinking: the links in `dead` go and no others, a message goes iff
   its last link went, an attachment goes iff its message went, and nothing is altered.
   */
  lemma DeleteLinksExactly(t: Tables, dead: set<Id>)
    requires Consistent(t)
    ensures var t' := DeleteLinks(t, dead);
      && t'.addresses == t.addresses
      && t'.links == t.links - dead
      && (forall e :: e in t'.emails <==> e in t.emails && KeepsLink(t, dead, e))
      && (forall e :: e in t'.emails ==> t'.emails[e] == t.emails[e])
      && (forall x :: x in t'.attachments <==> x in t.attachments && KeepsLink(t, dead, t.attachments[x].emailId))
      && (forall x :: x in t'.attachments ==> t'.attachments[x] == t.attachments[x])
  {
    SurvivingLinks(t, dead);
    forall e | e in t.emails
      ensures e in OrphansOf(t, dead) <==> !KeepsLink(t, dead, e)
    {
      assert IsLinked(t, e);
      OrphanIffLastLinkGone(t, dead, e);
    }
  }

  /** Removing messages takes their links and attachments along, and alters nothing else. */
  lemma DeleteEmailsExactly(t: Tables, dead: set<Id>)
    ensures var t' := DeleteEmails(t, dead);
      && t'.addresses == t.addresses
      && (forall e :: e in t'.emails <==> e in t.emails && e !in dead)
      && (forall l :: l in t'.links <==> l in t.links && t.links[l].emailId !in dead)
      && (forall x :: x in t'.attachments <==> x in t.attachments && t.attachments[x].emailId !in dead)
      && IsPartOf(t', t)
  {
  }

  /** No row of `t'` is new or altered. */
  ghost predicate IsPartOf(t': Tables, t: Tables) {
    && (forall a :: a in t'.addresses ==> a in t.addresses && t'.addresses[a] == t.addresses[a])
    && (forall e :: e in t'.emails ==> e in t.emails && t'.emails[e] == t.emails[e])
    && (forall l :: l in t'.links ==> l in t.links && t'.links[l] == t.links[l])
    && (forall x :: x in t'.attachments ==> x in t.attachments && t'.attachments[x] == t.attachments[x])
  }

  /** The messages of `t` that still have a link in `t'` are there, with all their attachments; nothing is altered. */
  ghost predicate LeavesTheLinked(t: Tables, t': Tables) {
    && IsPartOf(t', t)
    && (forall e :: e in t'.emails <==> e in t.emails && IsLinked(t', e))
    && forall x :: x in t'.attachments <==> x in t.attachments && t.attachments[x].emailId in t'.emails
  }

  lemma UnlinkingLeavesTheLinked(t: Tables, dead: set<Id>)
    requires Consistent(t)
    ensures LeavesTheLinked(t, DeleteLinks(t, dead))
  {
    DeleteLinksExactly(t, dead);
    var t' := DeleteLinks(t, dead);
    forall e ensures KeepsLink(t, dead, e) <==> IsLinked(t', e) {
      if KeepsLink(t, dead, e) {
        var l :| l in t.links && l !in dead && t.links[l].emailId == e;
        assert l in t'.links;
      }
    }
  }

  /** A link to `e` from a mailbox outside `dead`. */
  ghost predicate IsElsewhere(t: Tables, dead: set<Id>, e: Id) {
    exists l :: l in t.links && t.links[l].addressId !in dead && t.links[l].emailId == e
  }

  lemma KeepsLinkElsewhere(t: Tables, dead: set<Id>, e: Id)
    ensures KeepsLink(t, LinksOfAny(t, dead), e) <==> IsElsewhere(t, dead, e)
  {
    if KeepsLink(t, LinksOfAny(t, dead), e) {
      var l :| l in t.links && l !in LinksOfAny(t, dead) && t.links[l].emailId == e;
      assert t.links[l].addressId !in dead;
    }
    if IsElsewhere(t, dead, e) {
      var l :| l in t.links && t.links[l].addressId !in dead && t.links[l].emailId == e;
      assert l !in LinksOfAny(t, dead);
    }
  }

  /** Removing addresses takes their links along, and the messages and attachments that only they had. */
  lemma DeleteAddressesExactly(t: Tables, dead: set<Id>)
    requires Consistent(t)
    ensures var t' := DeleteAddresses(t, dead);
      && (forall a :: a in t'.addresses <==> a in t.addresses && a !in dead)
      && (forall l :: l in t'.links <==> l in t.links && t.links[l].addressId !in dead)
      && (forall e :: e in t'.emails <==> e in t.emails && IsElsewhere(t, dead, e))
      && (forall x :: x in t'.attachments <==> x in t.attachments && IsElsewhere(t, dead, t.attachments[x].emailId))
      && IsPartOf(t', t)
  {
    DeleteLinksExactly(t, LinksOfAny(t, dead));
    forall e ensures KeepsLink(t, LinksOfAny(t, dead), e) <==> IsElsewhere(t, dead, e) {
      KeepsLinkElsewhere(t, dead, e);
    }
  }

  lemma DeleteLinksKeepsConsistency(t: Tables, dead: set<Id>)
    requires Consistent(t)
    ensures Consistent(DeleteLinks(t, dead))
  {
    DeleteLinksExactly(t, dead);
    var t' := DeleteLinks(t, dead);
    forall e | e in t'.emails ensures IsLinked(t', e) {
      var l :| l in t.links && l !in dead && t.links[l].emailId == e;
      assert l in t'.links;
    }
    forall l | l in t'.links ensures t'.links[l].emailId in t'.emails {
      assert KeepsLink(t, dead, t.links[l].emailId);
    }
  }

  lemma DeleteLinksSparesLink(t: Tables, dead: set<Id>, l: Id)
    requires l in t.links && l !in dead
    ensures LinkUntouched(t, DeleteLinks(t, dead), l)
  {
    assert l in LinksTo(t, t.links[l].emailId);
  }

  /** Unlinking leaves a mailbox its other links, with the same times of receipt. */
  lemma MailboxAfterUnlinking(t: Tables, dead: set<Id>, a: Id)
    requires SchemaHolds(t)
    ensures var t' := DeleteLinks(t, dead);
      LinksOf(t', a) == LinksOf(t, a) - dead && forall l :: l in LinksOf(t', a) ==> ReceivedAt(t', l) == ReceivedAt(t, l)
  {
    var t' := DeleteLinks(t, dead);
    SurvivingLinks(t, dead);
    forall l | l in LinksOf(t', a) ensures ReceivedAt(t', l) == ReceivedAt(t, l) {
      DeleteLinksSparesLink(t, dead, l);
    }
  }

  lemma DeleteEmailsKeepsConsistency(t: Tables, dead: set<Id>)
    requires Consistent(t)
    ensures Consistent(DeleteEmails(t, dead))
  {
    var t' := DeleteEmails(t, dead);
    forall e | e in t'.emails ensures IsLinked(t', e) {
      var l :| l in t.links && t.links[l].emailId == e;
      assert l in t'.links;
    }
  }

  lemma DeleteAddressesKeepsConsistency(t: Tables, dead: set<Id>)
    requires Consistent(t)
    ensures Consistent(DeleteAddresses(t, dead))
    ensures DeleteAddresses(t, dead).links == t.links - LinksOfAny(t, dead)
  {
    DeleteLinksKeepsConsistency(t, LinksOfAny(t, dead));
    SurvivingLinks(t, LinksOfAny(t, dead));
    var t', u := DeleteAddresses(t, dead), DeleteLinks(t, LinksOfAny(t, dead));
    forall e | e in t'.emails ensures IsLinked(t', e) {
      assert IsLinked(u, e);
    }
  }
}
