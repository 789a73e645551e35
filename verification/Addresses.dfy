/**
 Creating temporary addresses (api/app/routers/addresses.py) and permanent mailboxes
 (api/app/routers/permanent.py). Requests arrive one at a time.
 */
module Addresses {
  import opened Wrappers
  import opened Text
  import opened MailTables
  import opened MailOps
  import opened MailStore

  datatype Settings = Settings(
    domains: seq<string>, allowCustomUsernames: bool, reservedUsernames: seq<string>,
    minUsernameLength: int, maxUsernameLength: int, addressLifetimeHours: int, maxPermanentAddresses: int)

  /** A created row, or the HTTP status of the refusal. */
  datatype Reply = Created(id: Id) | HttpError(status: int)

  const MAX_ATTEMPTS := 10

  // ------------------------------------------------------------------ both routes

  /** now + timedelta(hours=ADDRESS_LIFETIME_HOURS), in microseconds. */
  function ExpiryOf(s: Settings, now: Time): Time { now + s.addressLifetimeHours * 3_600_000_000 }

  function ChooseDomain(s: Settings, domain: Option<string>): Option<string> {
    if s.domains == [] then None
    else match domain
      case None => Some(s.domains[0])
      case Some(d) => if d in s.domains then domain else None
  }

  predicate IsReserved(s: Settings, username: string) {
    exists i :: 0 <= i < |s.reservedUsernames| && ToLower(s.reservedUsernames[i]) == ToLower(username)
  }

  /** Whether a new address may take this name: it is free, or held by an expired address. */
  predicate NameIsFree(t: Tables, email: string, now: Time)
  {
    var a := FindByEmail(t, email);
    a.None? || IsExpired(t.addresses[a.value], now)
  }

  /** The expired holder of the name, if any. */
  function Evicted(t: Tables, email: string): set<Id>
  {
    var a := FindByEmail(t, email);
    if a.Some? then {a.value} else {}
  }

  /** INSERT INTO addresses; a duplicate id, name or token is an error. */
  function Insert(t: Tables, id: Id, a: Address): (Tables, Reply)
  {
    if id in t.addresses || FindByEmail(t, a.email).Some? || FindByToken(t, a.token).Some? then (t, HttpError(500))
    else (t.(addresses := t.addresses[id := a]), Created(id))
  }

  /** Frees the name (a commit of its own) and inserts the new row. */
  function Replace(t: Tables, id: Id, a: Address): (Tables, Reply)
  {
    Insert(DeleteAddresses(t, Evicted(t, a.email)), id, a)
  }

  // --------------------------------------------------------- temporary addresses

  /** First of the random local parts whose name is not in the table. */
  function FirstUnused(t: Tables, domain: string, locals: seq<string>): Option<string>
  {
    if locals == [] then None
    else if FindByEmail(t, locals[0] + "@" + domain).None? then Some(locals[0] + "@" + domain)
    else FirstUnused(t, domain, locals[1..])
  }

  datatype TempRequest = TempRequest(username: Option<string>, domain: Option<string>)

  /** The name a request settles on, or its refusal. `random` supplies the ten local parts. */
  function TempName(t: Tables, s: Settings, r: TempRequest, random: seq<string>, now: Time): (Option<string>, int)
  {
    var domain := ChooseDomain(s, r.domain);
    if domain.None? then (None, if s.domains == [] then 500 else 400)
    else if r.username.Some? && r.username.value != "" then
      var email := r.username.value + "@" + domain.value;
      if !s.allowCustomUsernames then (None, 403)
      else if IsReserved(s, r.username.value) then (None, 400)
      else if !NameIsFree(t, email, now) then (None, 409)
      else (Some(email), 0)
    else
      var email := FirstUnused(t, domain.value, random);
      (email, if email.None? then 500 else 0)
  }

  function CreateTemp(t: Tables, s: Settings, r: TempRequest, random: seq<string>, id: Id, token: string, now: Time): (Tables, Reply)
  {
    var (email, status) := TempName(t, s, r, random, now);
    if email.None? then (t, HttpError(status))
    else Replace(t, id, Address(email.value, token, Temp, Some(ExpiryOf(s, now))))
  }

  method CreateAddress(db: Database, s: Settings, r: TempRequest, random: seq<string>, id: Id, token: string, now: Time)
    returns (reply: Reply)
    requires |random| == MAX_ATTEMPTS
    modifies db
    ensures (db.tables, reply) == CreateTemp(old(db.tables), s, r, random, id, token, now)
  {
    var domain := ChooseDomain(s, r.domain);
    if domain.None? {
      return HttpError(if s.domains == [] then 500 else 400);
    }
    var email: string;
    if r.username.Some? && r.username.value != "" {
      if !s.allowCustomUsernames {
        return HttpError(403);
      }
      if IsReserved(s, r.username.value) {
        return HttpError(400);
      }
      email := r.username.value + "@" + domain.value;
      if !NameIsFree(db.tables, email, now) {
        return HttpError(409);
      }
    } else {
      var found := PickRandomName(db, domain.value, random);
      if found.None? {
        return HttpError(500);
      }
      email := found.value;
    }
    reply := EvictAndInsert(db, id, Address(email, token, Temp, Some(ExpiryOf(s, now))));
  }

  /** The bounded retry loop over random local parts. */
  method PickRandomName(db: Database, domain: string, random: seq<string>) returns (email: Option<string>)
    requires |random| == MAX_ATTEMPTS
    ensures email == FirstUnused(db.tables, domain, random)
  {
    for attempt := 0 to MAX_ATTEMPTS
      invariant FirstUnused(db.tables, domain, random) == FirstUnused(db.tables, domain, random[attempt..])
    {
      var candidate := random[attempt] + "@" + domain;
      if FindByEmail(db.tables, candidate).None? {
        return Some(candidate);
      }
    }
    return None;
  }

  method EvictAndInsert(db: Database, id: Id, a: Address) returns (reply: Reply)
    modifies db
    ensures (db.tables, reply) == Replace(old(db.tables), id, a)
  {
    DeleteNoAddress(db.tables);
    var holder := FindByEmail(db.tables, a.email);
    if holder.Some? {
      db.DeleteAddressRows({holder.value});
    }
    reply := InsertRow(db, id, a);
  }

  method InsertRow(db: Database, id: Id, a: Address) returns (reply: Reply)
    modifies db
    ensures (db.tables, reply) == Insert(old(db.tables), id, a)
  {
    if id in db.tables.addresses || FindByEmail(db.tables, a.email).Some? || FindByToken(db.tables, a.token).Some? {
      return HttpError(500);
    }
    db.tables := db.tables.(addresses := db.tables.addresses[id := a]);
    return Created(id);
  }

  // --------------------------------------------------------- permanent mailboxes

  function PermanentAddresses(t: Tables): set<Id> {
    set a | a in t.addresses && t.addresses[a].kind == Permanent
  }

  /** The name a request settles on, or its refusal, in the order of the checks. */
  function PermanentName(t: Tables, s: Settings, username: string, domain: Option<string>, now: Time): (Option<string>, int)
  {
    var d := ChooseDomain(s, domain);
    var name := ToLower(Strip(username));
    if d.None? then (None, if domain.None? then 500 else 400)
    else if s.maxPermanentAddresses > 0 && |PermanentAddresses(t)| >= s.maxPermanentAddresses then (None, 403)
    else if !s.allowCustomUsernames then (None, 403)
    else if |name| < s.minUsernameLength || |name| > s.maxUsernameLength then (None, 400)
    else if IsReserved(s, name) then (None, 400)
    else if !NameIsFree(t, name + "@" + d.value, now) then (None, 409)
    else (Some(name + "@" + d.value), 0)
  }

  function CreatePermanent(t: Tables, s: Settings, username: string, domain: Option<string>, id: Id, token: string, now: Time): (Tables, Reply)
  {
    var (email, status) := PermanentName(t, s, username, domain, now);
    if email.None? then (t, HttpError(status)) else Replace(t, id, Address(email.value, token, Permanent, None))
  }

  method CreatePermanentAddress(db: Database, s: Settings, username: string, domain: Option<string>, id: Id, token: string, now: Time)
    returns (reply: Reply)
    modifies db
    ensures (db.tables, reply) == CreatePermanent(old(db.tables), s, username, domain, id, token, now)
  {
    var d := ChooseDomain(s, domain);
    if d.None? {
      return HttpError(if domain.None? then 500 else 400);
    }
    if s.maxPermanentAddresses > 0 {
      var current := |PermanentAddresses(db.tables)|;
      if current >= s.maxPermanentAddresses {
        return HttpError(403);
      }
    }
    if !s.allowCustomUsernames {
      return HttpError(403);
    }
    var name := ToLower(Strip(username));
    if |name| < s.minUsernameLength || |name| > s.maxUsernameLength {
      return HttpError(400);
    }
    if IsReserved(s, name) {
      return HttpError(400);
    }
    var email := name + "@" + d.value;
    if !NameIsFree(db.tables, email, now) {
      return HttpError(409);
    }
    reply := EvictAndInsert(db, id, Address(email, token, Permanent, None));
  }

  // ------------------------------------------------------------------- theorems

  lemma EvictionKeepsSchema(t: Tables, dead: set<Id>)
    requires SchemaHolds(t)
    ensures SchemaHolds(DeleteAddresses(t, dead))
  {
    SurvivingLinks(t, LinksOfAny(t, dead));
    DeleteLinksKeepsSchema(t, LinksOfAny(t, dead));
  }

  lemma DeleteNoAddress(t: Tables)
    ensures DeleteAddresses(t, {}) == t
  {
    assert LinksOfAny(t, {}) == {} && OrphansOf(t, {}) == {};
    NothingDeleted(t);
    assert t.links - {} == t.links && t.addresses - {} == t.addresses;
  }

  lemma InsertTouchesNoMail(t: Tables, id: Id, a: Address)
    requires SchemaHolds(t)
    ensures SameMail(Insert(t, id, a).0, t)
  {
  }

  lemma NoOrphansFromSameMail(t: Tables, t': Tables)
    requires NoOrphans(t) && SameMail(t', t)
    ensures NoOrphans(t')
  {
    forall e | e in t'.emails ensures IsLinked(t', e) {
      assert IsLinked(t, e);
    }
  }

  lemma InsertKeepsSchema(t: Tables, id: Id, a: Address)
    requires SchemaHolds(t)
    ensures SchemaHolds(Insert(t, id, a).0)
  {
    var t' := Insert(t, id, a).0;
    forall x, y | x in t'.addresses && y in t'.addresses && t'.addresses[x].email == t'.addresses[y].email ensures x == y {
    }
    forall x, y | x in t'.addresses && y in t'.addresses && t'.addresses[x].token == t'.addresses[y].token ensures x == y {
    }
  }

  lemma InsertKeepsConsistency(t: Tables, id: Id, a: Address)
    requires Consistent(t) && (a.kind == Permanent <==> a.expiresAt.None?)
    ensures Consistent(Insert(t, id, a).0)
  {
    InsertKeepsSchema(t, id, a);
    InsertTouchesNoMail(t, id, a);
    NoOrphansFromSameMail(t, Insert(t, id, a).0);
  }

  /** Exact effect of a granted name: its holder's row and mail go, one empty mailbox appears. */
  lemma ReplaceExactly(t: Tables, id: Id, a: Address)
    requires Consistent(t) && (a.kind == Permanent <==> a.expiresAt.None?)
    ensures var (t', reply) := Replace(t, id, a);
      && Consistent(t')
      && t'.links == t.links - LinksOfAny(t, Evicted(t, a.email))
      && t'.addresses == (var rest := t.addresses - Evicted(t, a.email); if reply.Created? then rest[id := a] else rest)
      && (reply.Created? ==> reply.id == id && LinksOf(t', id) == {})
  {
    DeleteAddressesKeepsConsistency(t, Evicted(t, a.email));
    InsertKeepsConsistency(DeleteAddresses(t, Evicted(t, a.email)), id, a);
    assert id !in DeleteAddresses(t, Evicted(t, a.email)).addresses ==> LinksOf(DeleteAddresses(t, Evicted(t, a.email)), id) == {};
  }

  /** A name is granted only when it is free or held by an expired temporary address. */
  lemma GrantedTempNameIsFree(t: Tables, s: Settings, r: TempRequest, random: seq<string>, now: Time)
    requires Consistent(t)
    ensures var n := TempName(t, s, r, random, now).0; n.Some? ==> NameIsFree(t, n.value, now)
  {
    var d := ChooseDomain(s, r.domain);
    if d.Some? {
      FirstUnusedIsUnused(t, d.value, random);
    }
  }

  /** Nobody lost the address but an expired temporary holder of `name`; a new mailbox is empty. */
  ghost predicate EvictsOnlyExpired(t: Tables, t': Tables, reply: Reply, name: string, now: Time) {
    && Consistent(t') && (reply.Created? ==> LinksOf(t', reply.id) == {})
    && forall a :: a in t.addresses && a !in t'.addresses ==>
         IsExpired(t.addresses[a], now) && t.addresses[a].kind == Temp && t.addresses[a].email == name
  }

  lemma ReplaceEvictsOnlyExpired(t: Tables, id: Id, a: Address, now: Time)
    requires Consistent(t) && NameIsFree(t, a.email, now) && (a.kind == Permanent <==> a.expiresAt.None?)
    ensures var (t', reply) := Replace(t, id, a); EvictsOnlyExpired(t, t', reply, a.email, now)
  {
    ReplaceExactly(t, id, a);
  }

  /**
   Granting a name evicts nobody but an expired temporary address of that very name, and
   the new mailbox never shows its predecessor's mail; a refusal changes nothing.
   */
  lemma TempEvictsOnlyExpired(t: Tables, s: Settings, r: TempRequest, random: seq<string>, id: Id, token: string, now: Time)
    requires Consistent(t)
    ensures var name := TempName(t, s, r, random, now).0;
      var (t', reply) := CreateTemp(t, s, r, random, id, token, now);
      if name.None? then t' == t && reply.HttpError? else EvictsOnlyExpired(t, t', reply, name.value, now)
  {
    GrantedTempNameIsFree(t, s, r, random, now);
    var name := TempName(t, s, r, random, now).0;
    if name.Some? {
      var a := Address(name.value, token, Temp, Some(ExpiryOf(s, now)));
      assert CreateTemp(t, s, r, random, id, token, now) == Replace(t, id, a);
      ReplaceEvictsOnlyExpired(t, id, a, now);
    }
  }

  lemma PermanentEvictsOnlyExpired(t: Tables, s: Settings, username: string, domain: Option<string>, id: Id, token: string, now: Time)
    requires Consistent(t)
    ensures var name := PermanentName(t, s, username, domain, now).0;
      var (t', reply) := CreatePermanent(t, s, username, domain, id, token, now);
      if name.None? then t' == t && reply.HttpError? else EvictsOnlyExpired(t, t', reply, name.value, now)
  {
    var name := PermanentName(t, s, username, domain, now).0;
    if name.Some? {
      ReplaceEvictsOnlyExpired(t, id, Address(name.value, token, Permanent, None), now);
    }
  }

  lemma {:induction false} FirstUnusedIsUnused(t: Tables, domain: string, locals: seq<string>)
    requires SchemaHolds(t)
    ensures var r := FirstUnused(t, domain, locals);
      && (r.Some? ==> FindByEmail(t, r.value).None? && exists i :: 0 <= i < |locals| && r.value == locals[i] + "@" + domain)
      && (r.None? ==> forall i :: 0 <= i < |locals| ==> FindByEmail(t, locals[i] + "@" + domain).Some?)
  {
    if locals != [] && FindByEmail(t, locals[0] + "@" + domain).Some? {
      FirstUnusedIsUnused(t, domain, locals[1..]);
      var r := FirstUnused(t, domain, locals);
      if r.Some? {
        var i :| 0 <= i < |locals[1..]| && r.value == locals[1..][i] + "@" + domain;
        assert locals[i + 1] == locals[1..][i];
      }
    }
  }

  // ------------------------------------------------ what is refused, and what is granted

  /** Some address bears the name. */
  ghost predicate IsInUse(t: Tables, email: string) {
    exists a :: a in t.addresses && t.addresses[a].email == email
  }

  /** Some address bears the name and is not a temporary one past its time. */
  ghost predicate IsTaken(t: Tables, email: string, now: Time) {
    exists a :: a in t.addresses && t.addresses[a].email == email &&
                !(t.addresses[a].kind == Temp && t.addresses[a].expiresAt.Some? && t.addresses[a].expiresAt.value < now)
  }

  ghost predicate IsReservedName(s: Settings, username: string) {
    exists r :: r in s.reservedUsernames && ToLower(r) == ToLower(username)
  }

  /** The configured domain a request is about: the one it names, or the first. */
  ghost predicate IsDomainFor(s: Settings, asked: Option<string>, d: string) {
    d in s.domains && match asked case None => d == s.domains[0] case Some(name) => d == name
  }

  /** Another address has the new row's id or token. */
  ghost predicate IdsClash(t: Tables, id: Id, row: Address) {
    exists b :: b in t.addresses && t.addresses[b].email != row.email && (b == id || t.addresses[b].token == row.token)
  }

  /**
   The name of `row` is granted: its old holder goes with the links to its mail, and the row
   is inserted under `id`, unless another address has its id or token.
   */
  ghost predicate Grants(t: Tables, t': Tables, reply: Reply, id: Id, row: Address) {
    && reply == (if IdsClash(t, id, row) then HttpError(500) else Created(id))
    && (forall b :: b in t'.addresses <==> (b in t.addresses && t.addresses[b].email != row.email) || (b == id && reply.Created?))
    && (forall b :: b in t'.addresses && !(b == id && reply.Created?) ==> t'.addresses[b] == t.addresses[b])
    && (reply.Created? ==> t'.addresses[id] == row)
    && forall l :: l in t'.links <==> l in t.links && t.links[l].addressId in t.addresses &&
                                      t.addresses[t.links[l].addressId].email != row.email
  }

  lemma EvictedAreHolders(t: Tables, email: string)
    requires SchemaHolds(t)
    ensures forall b :: b in Evicted(t, email) <==> b in t.addresses && t.addresses[b].email == email
  {
  }

  lemma InsertSucceedsIff(t: Tables, rest: Tables, id: Id, row: Address)
    requires SchemaHolds(t) && rest.addresses == t.addresses - Evicted(t, row.email)
    ensures Insert(rest, id, row).1 == if IdsClash(t, id, row) then HttpError(500) else Created(id)
  {
    EvictedAreHolders(t, row.email);
    assert forall b :: b in rest.addresses <==> b in t.addresses && t.addresses[b].email != row.email;
    if IdsClash(t, id, row) {
      var b :| b in t.addresses && t.addresses[b].email != row.email && (b == id || t.addresses[b].token == row.token);
      assert b in rest.addresses;
    }
  }

  lemma ReplaceGrants(t: Tables, id: Id, row: Address)
    requires Consistent(t) && (row.kind == Permanent <==> row.expiresAt.None?)
    ensures Grants(t, Replace(t, id, row).0, Replace(t, id, row).1, id, row)
  {
    EvictedAreHolders(t, row.email);
    InsertSucceedsIff(t, DeleteAddresses(t, Evicted(t, row.email)), id, row);
    ReplaceExactly(t, id, row);
  }

  lemma TakenIffNotFree(t: Tables, email: string, now: Time)
    requires SchemaHolds(t)
    ensures IsTaken(t, email, now) <==> !NameIsFree(t, email, now)
    ensures IsInUse(t, email) <==> FindByEmail(t, email).Some?
  {
  }

  lemma ReservedIff(s: Settings, username: string)
    ensures IsReservedName(s, username) <==> IsReserved(s, username)
  {
    if IsReserved(s, username) {
      var i :| 0 <= i < |s.reservedUsernames| && ToLower(s.reservedUsernames[i]) == ToLower(username);
      assert s.reservedUsernames[i] in s.reservedUsernames;
    }
  }

  /** A temporary address under a name of the user's choice: 403, 400, 409 or the row. */
  ghost predicate CustomOutcome(t: Tables, t': Tables, reply: Reply, s: Settings, username: string, d: string, id: Id,
                                token: string, now: Time) {
    var name := username + "@" + d;
    if !s.allowCustomUsernames then t' == t && reply == HttpError(403)
    else if IsReservedName(s, username) then t' == t && reply == HttpError(400)
    else if IsTaken(t, name, now) then t' == t && reply == HttpError(409)
    else Grants(t, t', reply, id, Address(name, token, Temp, Some(now + s.addressLifetimeHours * 3600 * 1_000_000)))
  }

  /** `i` is the first of the random names that nobody bears. */
  ghost predicate IsFirstUnused(t: Tables, random: seq<string>, d: string, i: nat) {
    && i < |random| && !IsInUse(t, random[i] + "@" + d)
    && forall j :: 0 <= j < i ==> IsInUse(t, random[j] + "@" + d)
  }

  ghost predicate RandomGrant(t: Tables, t': Tables, reply: Reply, s: Settings, random: seq<string>, d: string, id: Id,
                              token: string, now: Time, i: nat) {
    && IsFirstUnused(t, random, d, i)
    && Grants(t, t', reply, id, Address(random[i] + "@" + d, token, Temp, Some(now + s.addressLifetimeHours * 3600 * 1_000_000)))
  }

  /** And under a random name: the first that nobody bears, or 500. */
  ghost predicate RandomOutcome(t: Tables, t': Tables, reply: Reply, s: Settings, random: seq<string>, d: string, id: Id,
                                token: string, now: Time) {
    if forall i :: 0 <= i < |random| ==> IsInUse(t, random[i] + "@" + d) then t' == t && reply == HttpError(500)
    else exists i: nat :: RandomGrant(t, t', reply, s, random, d, id, token, now, i)
  }

  lemma {:induction false} FirstUnusedIsFirst(t: Tables, d: string, random: seq<string>) returns (i: nat)
    requires SchemaHolds(t)
    ensures match FirstUnused(t, d, random)
      case None => forall j :: 0 <= j < |random| ==> IsInUse(t, random[j] + "@" + d)
      case Some(name) => IsFirstUnused(t, random, d, i) && name == random[i] + "@" + d
  {
    i := 0;
    if random != [] {
      TakenIffNotFree(t, random[0] + "@" + d, 0);
      if FindByEmail(t, random[0] + "@" + d).Some? {
        i := FirstUnusedIsFirst(t, d, random[1..]);
        assert forall j :: 0 < j < |random| ==> random[j] == random[1..][j - 1];
        i := i + 1;
      }
    }
  }

  lemma CustomTempOutcome(t: Tables, s: Settings, r: TempRequest, random: seq<string>, id: Id, token: string, now: Time, d: string)
    requires Consistent(t) && IsDomainFor(s, r.domain, d) && r.username.Some? && r.username.value != ""
    ensures var (t', reply) := CreateTemp(t, s, r, random, id, token, now);
            CustomOutcome(t, t', reply, s, r.username.value, d, id, token, now)
  {
    var name := r.username.value + "@" + d;
    ReservedIff(s, r.username.value);
    TakenIffNotFree(t, name, now);
    ReplaceGrants(t, id, Address(name, token, Temp, Some(ExpiryOf(s, now))));
  }

  lemma RandomNameIsSettled(t: Tables, s: Settings, r: TempRequest, random: seq<string>, now: Time, d: string)
    requires IsDomainFor(s, r.domain, d) && (r.username.Some? ==> r.username.value == "")
    ensures var name := FirstUnused(t, d, random); TempName(t, s, r, random, now) == (name, if name.None? then 500 else 0)
  {
  }

  lemma RandomTempOutcome(t: Tables, s: Settings, r: TempRequest, random: seq<string>, id: Id, token: string, now: Time, d: string,
                          t': Tables, reply: Reply)
    requires Consistent(t) && IsDomainFor(s, r.domain, d) && (r.username.Some? ==> r.username.value == "")
    requires (t', reply) == CreateTemp(t, s, r, random, id, token, now)
    ensures RandomOutcome(t, t', reply, s, random, d, id, token, now)
  {
    var i := FirstUnusedIsFirst(t, d, random);
    var name := FirstUnused(t, d, random);
    RandomNameIsSettled(t, s, r, random, now, d);
    if name.Some? {
      ReplaceGrants(t, id, Address(name.value, token, Temp, Some(ExpiryOf(s, now))));
      assert RandomGrant(t, t', reply, s, random, d, id, token, now, i);
    }
  }

  ghost predicate TempOutcome(t: Tables, t': Tables, reply: Reply, s: Settings, r: TempRequest, random: seq<string>, d: string,
                              id: Id, token: string, now: Time) {
    if r.username.Some? && r.username.value != "" then CustomOutcome(t, t', reply, s, r.username.value, d, id, token, now)
    else RandomOutcome(t, t', reply, s, random, d, id, token, now)
  }

  lemma TempOutcomeOnDomain(t: Tables, s: Settings, r: TempRequest, random: seq<string>, id: Id, token: string, now: Time, d: string,
                            t': Tables, reply: Reply)
    requires Consistent(t) && IsDomainFor(s, r.domain, d) && (t', reply) == CreateTemp(t, s, r, random, id, token, now)
    ensures TempOutcome(t, t', reply, s, r, random, d, id, token, now)
  {
    if r.username.Some? && r.username.value != "" {
      CustomTempOutcome(t, s, r, random, id, token, now, d);
    } else {
      RandomTempOutcome(t, s, r, random, id, token, now, d, t', reply);
    }
  }

  lemma NoDomainNoTemp(t: Tables, s: Settings, r: TempRequest, random: seq<string>, id: Id, token: string, now: Time)
    requires forall d :: !IsDomainFor(s, r.domain, d)
    ensures CreateTemp(t, s, r, random, id, token, now) == (t, HttpError(if s.domains == [] then 500 else 400))
  {
    DomainChosenIff(s, r.domain);
  }

  /** When a temporary address is refused, with which status, and which row is granted otherwise. */
  lemma TempRequestOutcome(t: Tables, s: Settings, r: TempRequest, random: seq<string>, id: Id, token: string, now: Time,
                           t': Tables, reply: Reply)
    requires Consistent(t) && (t', reply) == CreateTemp(t, s, r, random, id, token, now)
    ensures (forall d :: !IsDomainFor(s, r.domain, d)) ==> t' == t && reply == HttpError(if s.domains == [] then 500 else 400)
    ensures forall d :: IsDomainFor(s, r.domain, d) ==> TempOutcome(t, t', reply, s, r, random, d, id, token, now)
  {
    if d :| IsDomainFor(s, r.domain, d) {
      TempOutcomeOnDomain(t, s, r, random, id, token, now, d, t', reply);
    } else {
      NoDomainNoTemp(t, s, r, random, id, token, now);
    }
  }

  lemma DomainChosenIff(s: Settings, asked: Option<string>)
    ensures forall d :: ChooseDomain(s, asked) == Some(d) <==> IsDomainFor(s, asked, d)
  {
  }

  /** A permanent mailbox: 403, 400, 409 or the row. Names are trimmed and lower-cased. */
  ghost predicate PermanentOutcome(t: Tables, t': Tables, reply: Reply, s: Settings, permanent: set<Id>, username: string,
                                   d: string, id: Id, token: string, now: Time) {
    var local := ToLower(Strip(username));
    if (s.maxPermanentAddresses > 0 && |permanent| >= s.maxPermanentAddresses) || !s.allowCustomUsernames
    then t' == t && reply == HttpError(403)
    else if !(s.minUsernameLength <= |local| <= s.maxUsernameLength) || IsReservedName(s, local)
    then t' == t && reply == HttpError(400)
    else if IsTaken(t, local + "@" + d, now) then t' == t && reply == HttpError(409)
    else Grants(t, t', reply, id, Address(local + "@" + d, token, Permanent, None))
  }

  ghost predicate ArePermanent(t: Tables, ids: set<Id>) {
    forall a :: a in ids <==> a in t.addresses && t.addresses[a].kind == Permanent
  }

  lemma PermanentRequestOnDomain(t: Tables, s: Settings, permanent: set<Id>, username: string, domain: Option<string>, id: Id,
                                 token: string, now: Time, d: string, t': Tables, reply: Reply)
    requires Consistent(t) && ArePermanent(t, permanent) && IsDomainFor(s, domain, d)
    requires (t', reply) == CreatePermanent(t, s, username, domain, id, token, now)
    ensures PermanentOutcome(t, t', reply, s, permanent, username, d, id, token, now)
  {
    var local := ToLower(Strip(username));
    assert permanent == PermanentAddresses(t);
    ReservedIff(s, local);
    TakenIffNotFree(t, local + "@" + d, now);
    ReplaceGrants(t, id, Address(local + "@" + d, token, Permanent, None));
  }

  /** When a permanent mailbox is refused, with which status, and which row is granted otherwise. */
  lemma PermanentRequestOutcome(t: Tables, s: Settings, permanent: set<Id>, username: string, domain: Option<string>, id: Id,
                                token: string, now: Time, t': Tables, reply: Reply)
    requires Consistent(t) && ArePermanent(t, permanent)
    requires (t', reply) == CreatePermanent(t, s, username, domain, id, token, now)
    ensures (forall d :: !IsDomainFor(s, domain, d)) ==> t' == t && reply == HttpError(if domain.None? then 500 else 400)
    ensures forall d :: IsDomainFor(s, domain, d) ==> PermanentOutcome(t, t', reply, s, permanent, username, d, id, token, now)
  {
    DomainChosenIff(s, domain);
    forall d | IsDomainFor(s, domain, d) ensures PermanentOutcome(t, t', reply, s, permanent, username, d, id, token, now) {
      PermanentRequestOnDomain(t, s, permanent, username, domain, id, token, now, d, t', reply);
    }
  }

  lemma TempCreationAddsNoPermanent(t: Tables, s: Settings, r: TempRequest, random: seq<string>, id: Id, token: string, now: Time)
    requires Consistent(t)
    ensures |PermanentAddresses(CreateTemp(t, s, r, random, id, token, now).0)| <= |PermanentAddresses(t)|
  {
    var name := TempName(t, s, r, random, now).0;
    if name.Some? {
      var a := Address(name.value, token, Temp, Some(ExpiryOf(s, now)));
      assert CreateTemp(t, s, r, random, id, token, now) == Replace(t, id, a);
      ReplaceCountsPermanent(t, id, a);
    }
  }

  /** Checked one request at a time, creation never takes the permanent count past the cap. */
  lemma PermanentCreationRespectsCap(t: Tables, s: Settings, username: string, domain: Option<string>, id: Id, token: string, now: Time)
    requires Consistent(t) && s.maxPermanentAddresses > 0
    requires |PermanentAddresses(t)| <= s.maxPermanentAddresses
    ensures |PermanentAddresses(CreatePermanent(t, s, username, domain, id, token, now).0)| <= s.maxPermanentAddresses
  {
    var name := PermanentName(t, s, username, domain, now).0;
    if name.Some? {
      ReplaceCountsPermanent(t, id, Address(name.value, token, Permanent, None));
    }
  }

  /** Creation touches mail only by unlinking the evicted holder's. */
  lemma ReplaceIsUnlink(t: Tables, id: Id, a: Address)
    requires Consistent(t)
    ensures SameMail(Replace(t, id, a).0, DeleteLinks(t, LinksOfAny(t, Evicted(t, a.email))))
  {
    EvictionKeepsSchema(t, Evicted(t, a.email));
    InsertTouchesNoMail(DeleteAddresses(t, Evicted(t, a.email)), id, a);
  }

  lemma ReplaceCountsPermanent(t: Tables, id: Id, a: Address)
    requires Consistent(t) && (a.kind == Permanent <==> a.expiresAt.None?)
    ensures |PermanentAddresses(Replace(t, id, a).0)| <= |PermanentAddresses(t)| + if a.kind == Permanent then 1 else 0
  {
    ReplaceExactly(t, id, a);
    FewerPermanent(t, Replace(t, id, a).0, if a.kind == Permanent then {id} else {});
  }

  /** Counting: permanent rows come from nowhere but the old permanent rows and `added`. */
  lemma FewerPermanent(t: Tables, t': Tables, added: set<Id>)
    requires PermanentAddresses(t') <= PermanentAddresses(t) + added
    ensures |PermanentAddresses(t')| <= |PermanentAddresses(t)| + |added|
  {
    SubsetSize(PermanentAddresses(t'), PermanentAddresses(t) + added);
  }

  /**
   The MX looks names up in lower case, so an address stored under a domain that is
   configured with capitals exists, can be opened, and can never receive mail.
   */
  lemma ReachableIffLowerCase(t: Tables, a: Id, now: Time)
    requires Consistent(t) && a in t.addresses
    ensures (exists m: Message :: Recipient(t, m, now) == Some(a)) <==>
            IsLower(t.addresses[a].email) && AcceptsMail(t.addresses[a], now)
  {
    var email := t.addresses[a].email;
    if IsLower(email) && AcceptsMail(t.addresses[a], now) {
      assert Recipient(t, Message(0, 0, Email(email, 0, 0), []), now) == Some(a);
    }
    if m: Message :| Recipient(t, m, now) == Some(a) {
      ToLowerIsLower(m.email.toAddress);
    }
  }

  /**
   A permanent mailbox that was just created can receive mail, at any later time, iff the
   domain it was given is configured in lower case.
   */
  lemma PermanentMailboxReceivesIff(t: Tables, s: Settings, username: string, domain: Option<string>, id: Id, token: string,
                                    now: Time, later: Time)
    requires Consistent(t) && CreatePermanent(t, s, username, domain, id, token, now).1.Created?
    ensures var t' := CreatePermanent(t, s, username, domain, id, token, now).0;
            (exists m: Message :: Recipient(t', m, later) == Some(id)) <==> IsLower(ChooseDomain(s, domain).value)
  {
    var name := ToLower(Strip(username));
    var a := Address(name + "@" + ChooseDomain(s, domain).value, token, Permanent, None);
    assert CreatePermanent(t, s, username, domain, id, token, now) == Replace(t, id, a);
    ReplaceExactly(t, id, a);
    ReachableIffLowerCase(Replace(t, id, a).0, id, later);
    ToLowerIsLower(Strip(username));
    LowerAround(name, ChooseDomain(s, domain).value);
  }

  lemma LowerAround(local: string, domain: string)
    ensures IsLower(local + "@" + domain) <==> IsLower(local) && IsLower(domain)
  {
    var n := |local|;
    assert local == (local + "@" + domain)[..n] && domain == (local + "@" + domain)[n + 1..];
  }

  /** A temporary address can receive mail exactly until it expires, and its owner can open it until then. */
  lemma TempAddressReceivesIff(t: Tables, s: Settings, r: TempRequest, random: seq<string>, id: Id, token: string,
                               now: Time, later: Time)
    requires Consistent(t) && CreateTemp(t, s, r, random, id, token, now).1.Created?
    ensures var t' := CreateTemp(t, s, r, random, id, token, now).0;
      && id in t'.addresses && FindByToken(t', token) == Some(id)
      && ((exists m: Message :: Recipient(t', m, later) == Some(id)) <==>
          IsLower(t'.addresses[id].email) && later < now + s.addressLifetimeHours * 3_600_000_000)
      && (!IsExpired(t'.addresses[id], later) <==> later <= now + s.addressLifetimeHours * 3_600_000_000)
  {
    var name := TempName(t, s, r, random, now).0;
    var a := Address(name.value, token, Temp, Some(ExpiryOf(s, now)));
    assert CreateTemp(t, s, r, random, id, token, now) == Replace(t, id, a);
    ReplaceExactly(t, id, a);
    ReachableIffLowerCase(Replace(t, id, a).0, id, later);
  }
}
