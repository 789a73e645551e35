/**
 One SMTP session of the MX server (mx/session.go): MAIL, RCPT, DATA and RSET, with hot
 reload inside RCPT and the hourly limiter and the mail store behind DATA.
 */
module SmtpSession {
  import opened Wrappers
  import opened Text
  import opened MailTables
  import opened MailOps
  import opened MailStore
  import opened Reload
  import HourlyWindow
  import opened Utf8Text

  /** 250, or the code and enhanced code of section 4.2 of RFC 5321 and RFC 3463. */
  datatype Reply = Ok | Refused(code: int, enhanced: (int, int, int))

  datatype State = State(sender: string, to: seq<string>, cfg: Config, domains: set<string>)

  // ------------------------------------------------------------------------ RCPT

  /** The result of mail.ParseAddress, split at its @; None when either step refuses. */
  function Parts(parsed: Option<string>): Option<seq<string>> {
    if parsed.None? then None
    else
      var parts := Split(parsed.value, '@');
      if |parts| != 2 then None else Some(parts)
  }

  function DomainOf(parts: seq<string>): string
    requires |parts| == 2
  {
    ToLower(parts[1])
  }

  /** The session's settings when RCPT looks at them: an unknown domain asks for a reload first. */
  function Refreshed(env: Env, s: State, cell: Cell, file: Option<string>, domain: string): (State, Cell) {
    if domain in s.domains then (s, cell)
    else
      var (cell', cfg) := AfterReload(env, cell, file, file);
      (if cfg.Some? then s.(cfg := cfg.value, domains := DomainSet(cfg.value.domains)) else s, cell')
  }

  /** `lookup` answers AddressExists; None is a database error. */
  function AfterRcpt(env: Env, s: State, cell: Cell, file: Option<string>, parsed: Option<string>, lookup: string -> Option<bool>)
    : (State, Cell, Reply)
  {
    var parts := Parts(parsed);
    if parts.None? then (s, cell, Refused(550, (5, 1, 3)))
    else
      var domain := DomainOf(parts.value);
      var (s1, cell1) := Refreshed(env, s, cell, file, domain);
      var address := ToLower(parsed.value);
      if domain !in s1.domains then (s1, cell1, Refused(550, (5, 7, 1)))
      else match lookup(address)
        case None => (s1, cell1, Refused(451, (4, 3, 0)))
        case Some(false) => (s1, cell1, Refused(550, (5, 1, 1)))
        case Some(true) => (if address in s1.to then s1 else s1.(to := s1.to + [address]), cell1, Ok)
  }

  // ------------------------------------------------------------------------ DATA

  const NEWLINE: Byte := 0x0A
  const DASH: Byte := 0x2D
  const PART_CEILING := 100_000

  predicate IsMarker(line: seq<Byte>) { |line| > 2 && line[0] == DASH && line[1] == DASH }

  function Markers(lines: seq<seq<Byte>>): nat {
    if lines == [] then 0 else Markers(lines[..|lines| - 1]) + if IsMarker(lines[|lines| - 1]) then 1 else 0
  }

  /** Lines that look like MIME boundaries; counting stops just above the ceiling. */
  function CountParts(raw: seq<Byte>): nat {
    var n := Markers(Split(raw, NEWLINE));
    if n > PART_CEILING then PART_CEILING + 1 else n
  }

  lemma {:induction false} MarkersGrow(lines: seq<seq<Byte>>, i: nat)
    requires i <= |lines|
    ensures Markers(lines[..i]) <= Markers(lines)
    decreases |lines|
  {
    if i < |lines| {
      MarkersGrow(lines[..|lines| - 1], i);
      assert lines[..|lines| - 1][..i] == lines[..i];
    } else {
      assert lines[..i] == lines;
    }
  }

  method CountMimeParts(raw: seq<Byte>) returns (parts: nat)
    ensures parts == CountParts(raw)
  {
    var lines := Split(raw, NEWLINE);
    parts := 0;
    for i := 0 to |lines|
      invariant parts == Markers(lines[..i]) && parts <= PART_CEILING
    {
      assert lines[..i + 1][..i] == lines[..i];
      MarkersGrow(lines, i + 1);
      if IsMarker(lines[i]) {
        parts := parts + 1;
        if parts > PART_CEILING {
          return;
        }
      }
    }
    assert lines[..|lines|] == lines;
  }

  /** One copy per recipient: the rows to insert and the statement that fails, if any. */
  datatype Copy = Copy(m: Message, faultAt: Option<nat>)

  function AddressedTo(m: Message, recipient: string): Message {
    m.(email := m.email.(toAddress := recipient))
  }

  /** The mailbox that copy `i` reaches, if it is stored. */
  function Reaches(t: Tables, to: seq<string>, copies: seq<Copy>, i: nat, now: Time): Option<Id>
    requires i < |to| == |copies|
  {
    Store(t, AddressedTo(copies[i].m, to[i]), now, copies[i].faultAt).1
  }

  /** The store loop of Data from recipient `i` on: the tables, the copies stored, and success. */
  function StoreFrom(t: Tables, to: seq<string>, copies: seq<Copy>, i: nat, now: Time): (Tables, nat, bool)
    requires i <= |to| == |copies|
    decreases |to| - i
  {
    if i == |to| then (t, 0, true)
    else
      var mailbox := Reaches(t, to, copies, i, now);
      if mailbox.None? then (t, 0, false)
      else
        var r := StoreFrom(Stored(t, AddressedTo(copies[i].m, to[i]), mailbox.value), to, copies, i + 1, now);
        (r.0, r.1 + 1, r.2)
  }

  /** What reaches Data from outside: the bytes, the clock, the peer and the MIME parser's verdict. */
  datatype Input = Input(raw: seq<Byte>, readFails: bool, ip: string, clock: int, parses: bool, now: Time)

  /** Bytes that io.LimitReader lets through. */
  function SizeRead(raw: seq<Byte>, limit: int): int {
    if limit <= 0 then 0 else if |raw| < limit then |raw| else limit
  }

  /** The checks before the store loop, in order, and the limiter's table after them. */
  function Admit(s: State, windows: HourlyWindow.Table, i: Input): (HourlyWindow.Table, Reply) {
    var limit := MaxMessageSize(s.cfg);
    if i.readFails then (windows, Refused(451, (4, 3, 0)))
    else if SizeRead(i.raw, limit) >= limit then (windows, Refused(552, (5, 3, 4)))
    else
      var (windows', allowed) := HourlyWindow.Allow(windows, HourlyWindow.Call(i.ip, MaxMessagesPerHourIp(s.cfg), i.clock));
      if !allowed then (windows', Refused(451, (4, 7, 0)))
      else if CountParts(i.raw) > MaxMimeParts(s.cfg) then (windows', Refused(552, (5, 3, 4)))
      else if !i.parses then (windows', Refused(554, (5, 6, 0)))
      else (windows', Ok)
  }

  /** The hourly limiter lets the message in. */
  predicate IsInBudget(cfg: Config, windows: HourlyWindow.Table, i: Input) {
    HourlyWindow.Allow(windows, HourlyWindow.Call(i.ip, MaxMessagesPerHourIp(cfg), i.clock)).1
  }

  /** Replies that tell the sender to try again later (section 4.2.1 of RFC 5321). */
  predicate IsTransient(reply: Reply) { reply.Refused? && 400 <= reply.code < 500 }

  /** Positions of the lines that begin with two dashes and are longer than that. */
  ghost predicate AreBoundaries(lines: seq<seq<Byte>>, at: set<nat>) {
    forall i: nat :: i in at <==> i < |lines| && |lines[i]| > 2 && lines[i][0] == 0x2D && lines[i][1] == 0x2D
  }

  lemma {:induction false} MarkersAreCounted(lines: seq<seq<Byte>>) returns (at: set<nat>)
    ensures AreBoundaries(lines, at) && Markers(lines) == |at|
  {
    at := {};
    if lines != [] {
      var n := |lines| - 1;
      at := MarkersAreCounted(lines[..n]);
      assert n !in at;
      if IsMarker(lines[n]) {
        at := at + {n};
      }
    }
  }

  /** The count is that of the boundary lines, up to 100 000; one more stands for any larger number. */
  lemma PartsAreBoundaries(raw: seq<Byte>) returns (at: set<nat>)
    ensures AreBoundaries(Split(raw, 0x0A), at)
    ensures CountParts(raw) == if |at| <= 100_000 then |at| else 100_001
  {
    at := MarkersAreCounted(Split(raw, NEWLINE));
  }

  /**
   The answer to DATA before the store loop: the first of these that applies. Reading
   fails; the message is not smaller than the limit; the address is over its hourly budget;
   there are too many parts; the parser refuses. Only a message that is read and small
   enough is counted against the budget.
   */
  lemma AdmitAnswers(s: State, windows: HourlyWindow.Table, i: Input)
    ensures var (windows', reply) := Admit(s, windows, i);
      var tooLarge := |i.raw| >= MaxMessageSize(s.cfg);
      && reply == (if i.readFails then Refused(451, (4, 3, 0))
                   else if tooLarge then Refused(552, (5, 3, 4))
                   else if !IsInBudget(s.cfg, windows, i) then Refused(451, (4, 7, 0))
                   else if CountParts(i.raw) > MaxMimeParts(s.cfg) then Refused(552, (5, 3, 4))
                   else if !i.parses then Refused(554, (5, 6, 0))
                   else Ok)
      && windows' == (if i.readFails || tooLarge then windows
                      else HourlyWindow.Allow(windows, HourlyWindow.Call(i.ip, MaxMessagesPerHourIp(s.cfg), i.clock)).0)
  {
  }

  class Session {
    var sender: string
    var to: seq<string>
    var cfg: Config
    var domains: set<string>

    constructor (c: Config)
      ensures View() == State("", [], c, DomainSet(c.domains))
    {
      sender, to, cfg, domains := "", [], c, DomainSet(c.domains);
    }

    function View(): State
      reads this
    {
      State(sender, to, cfg, domains)
    }

    method Mail(from: string)
      modifies this
      ensures View() == old(View()).(sender := from, to := [])
    {
      sender, to := from, [];
    }

    method Reset()
      modifies this
      ensures View() == old(View()).(sender := "", to := [])
    {
      sender, to := "", [];
    }

    method Rcpt(cell: ConfigCell, env: Env, file: Option<string>, parsed: Option<string>, lookup: string -> Option<bool>)
      returns (reply: Reply)
      modifies this, cell
      ensures (View(), cell.State(), reply) == AfterRcpt(env, old(View()), old(cell.State()), file, parsed, lookup)
    {
      var parts := Parts(parsed);
      if parts.None? {
        return Refused(550, (5, 1, 3));
      }
      var domain := ToLower(parts.value[1]);
      if domain !in domains {
        var c := cell.ReloadIfChanged(env, file, file);
        if c.Some? {
          cfg := c.value;
          domains := GetDomainMap(c.value);
        }
      }
      if domain !in domains {
        return Refused(550, (5, 7, 1));
      }
      var address := ToLower(parsed.value);
      var exists_ := lookup(address);
      if exists_.None? {
        return Refused(451, (4, 3, 0));
      }
      if !exists_.value {
        return Refused(550, (5, 1, 1));
      }
      for i := 0 to |to|
        invariant address !in to[..i]
      {
        if to[i] == address {
          return Ok;
        }
      }
      assert to[..|to|] == to;
      to := to + [address];
      return Ok;
    }

    /**
     DATA: the limits in order, then one store per recipient. A message that is too large
     costs no hourly budget, and a refusal is final exactly when the message itself is at
     fault: too large or, once in budget, with too many parts or unparsable.
     */
    method Data(db: Database, limiter: HourlyWindow.MessageLimiter, i: Input, copies: seq<Copy>) returns (reply: Reply, ghost stored: nat)
      requires |copies| == |to|
      modifies db, limiter
      ensures limiter.ipWindows == Admit(View(), old(limiter.ipWindows), i).0
      ensures Admit(View(), old(limiter.ipWindows), i).1 != Ok ==>
        reply == Admit(View(), old(limiter.ipWindows), i).1 && stored == 0 && db.tables == old(db.tables)
      ensures i.readFails || |i.raw| >= MaxMessageSize(cfg) ==> limiter.ipWindows == old(limiter.ipWindows)
      ensures reply.Refused? && !IsTransient(reply) <==>
        !i.readFails && (|i.raw| >= MaxMessageSize(cfg) || (IsInBudget(cfg, old(limiter.ipWindows), i) &&
                                                            (CountParts(i.raw) > MaxMimeParts(cfg) || !i.parses)))
      ensures Admit(View(), old(limiter.ipWindows), i).1 == Ok ==>
        && (db.tables, stored, reply == Ok) == StoreFrom(old(db.tables), to, copies, 0, i.now)
        && (reply != Ok ==> reply == Refused(451, (4, 3, 0)))
    {
      stored := 0;
      var limit := MaxMessageSize(cfg);
      if i.readFails {
        return Refused(451, (4, 3, 0)), 0;
      }
      if SizeRead(i.raw, limit) >= limit {
        return Refused(552, (5, 3, 4)), 0;
      }
      var allowed := limiter.AllowMessageFrom(i.ip, MaxMessagesPerHourIp(cfg), i.clock);
      if !allowed {
        return Refused(451, (4, 7, 0)), 0;
      }
      var parts := CountMimeParts(i.raw);
      if parts > MaxMimeParts(cfg) {
        return Refused(552, (5, 3, 4)), 0;
      }
      if !i.parses {
        return Refused(554, (5, 6, 0)), 0;
      }
      reply, stored := StoreCopies(db, copies, i.now);
    }

    /** One turn of that loop. */
    method StoreCopy(db: Database, copies: seq<Copy>, i: nat, now: Time) returns (ok: bool)
      requires i < |to| == |copies|
      modifies db
      ensures if ok then Completes(StoreFrom(db.tables, to, copies, i + 1, now), StoreFrom(old(db.tables), to, copies, i, now), 1)
              else StoreFrom(old(db.tables), to, copies, i, now) == (db.tables, 0, false)
    {
      var capJob := db.StoreEmail(AddressedTo(copies[i].m, to[i]), now, copies[i].faultAt);
      ok := capJob.Some?;
    }

    /** The loop of Data over the queued recipients. */
    method StoreCopies(db: Database, copies: seq<Copy>, now: Time) returns (reply: Reply, ghost stored: nat)
      requires |copies| == |to|
      modifies db
      ensures (db.tables, stored, reply == Ok) == StoreFrom(old(db.tables), to, copies, 0, now)
      ensures reply != Ok ==> reply == Refused(451, (4, 3, 0))
    {
      stored := 0;
      ghost var whole := StoreFrom(db.tables, to, copies, 0, now);
      var i := 0;
      while i < |to|
        invariant 0 <= i <= |to| && stored == i
        invariant Completes(StoreFrom(db.tables, to, copies, i, now), whole, i)
      {
        var ok := StoreCopy(db, copies, i, now);
        if !ok {
          return Refused(451, (4, 3, 0)), stored;
        }
        stored := stored + 1;
        i := i + 1;
      }
      return Ok, stored;
    }
  }

  /** `rest` is how the run `whole` goes on after its first `done` copies. */
  ghost predicate Completes(rest: (Tables, nat, bool), whole: (Tables, nat, bool), done: nat) {
    rest.0 == whole.0 && rest.1 + done == whole.1 && rest.2 == whole.2
  }

  // ------------------------------------------------- what DATA leaves in the store

  lemma ReachesFreshRows(t: Tables, to: seq<string>, copies: seq<Copy>, i: nat, now: Time)
    requires i < |to| == |copies| && Reaches(t, to, copies, i, now).Some?
    ensures var (m, a) := (copies[i].m, Reaches(t, to, copies, i, now).value);
      m.emailId !in t.emails && m.linkId !in t.links && a in t.addresses && t.addresses[a].email == ToLower(to[i])
  {
  }

  /** No row of the store was lost or altered. */
  ghost predicate RowsKept(t: Tables, t': Tables) {
    && t'.addresses == t.addresses && t.emails.Keys <= t'.emails.Keys && t.links.Keys <= t'.links.Keys
    && (forall l :: l in t.links ==> t'.links[l] == t.links[l])
    && (forall e :: e in t.emails ==> t'.emails[e] == t.emails[e])
  }

  lemma RowsKeptTransitive(t: Tables, t1: Tables, t2: Tables)
    requires RowsKept(t, t1) && RowsKept(t1, t2)
    ensures RowsKept(t, t2)
  {
  }

  lemma StoredKeepsRows(t: Tables, m: Message, mailbox: Id)
    requires m.emailId !in t.emails && m.linkId !in t.links
    ensures RowsKept(t, Stored(t, m, mailbox))
  {
  }

  lemma StoredAddsOne(t: Tables, m: Message, mailbox: Id)
    requires m.emailId !in t.emails && m.linkId !in t.links
    ensures |Stored(t, m, mailbox).emails| == |t.emails| + 1 && |Stored(t, m, mailbox).links| == |t.links| + 1
  {
  }

  ghost predicate UniqueEmails(t: Tables) {
    forall b, c :: b in t.addresses && c in t.addresses && t.addresses[b].email == t.addresses[c].email ==> b == c
  }

  lemma OneCopyGained(t: Tables, m: Message, mailbox: Id, a: Id)
    requires UniqueEmails(t) && a in t.addresses && mailbox in t.addresses && m.linkId !in t.links
    ensures LinksOf(Stored(t, m, mailbox), a) ==
            LinksOf(t, a) + if t.addresses[mailbox].email == t.addresses[a].email then {m.linkId} else {}
  {
  }

  /** Copy `i` was stored on top of `t`. */
  ghost predicate StoresCopy(t: Tables, t': Tables, to: seq<string>, copies: seq<Copy>, i: nat, now: Time)
    requires i < |to| == |copies|
  {
    var a := Reaches(t, to, copies, i, now);
    a.Some? && t' == Stored(t, AddressedTo(copies[i].m, to[i]), a.value)
  }

  lemma CopyAdds(t: Tables, t': Tables, to: seq<string>, copies: seq<Copy>, i: nat, now: Time)
    requires i < |to| == |copies| && StoresCopy(t, t', to, copies, i, now)
    ensures RowsKept(t, t') && |t'.emails| == |t.emails| + 1 && |t'.links| == |t.links| + 1
  {
    ReachesFreshRows(t, to, copies, i, now);
    var m, a := AddressedTo(copies[i].m, to[i]), Reaches(t, to, copies, i, now).value;
    StoredKeepsRows(t, m, a);
    StoredAddsOne(t, m, a);
  }

  lemma CopyReaches(t: Tables, t': Tables, to: seq<string>, copies: seq<Copy>, i: nat, now: Time, a: Id)
    requires i < |to| == |copies| && StoresCopy(t, t', to, copies, i, now) && UniqueEmails(t) && a in t.addresses
    ensures LinksOf(t', a) == LinksOf(t, a) + if ToLower(to[i]) == t.addresses[a].email then {copies[i].m.linkId} else {}
  {
    ReachesFreshRows(t, to, copies, i, now);
    OneCopyGained(t, AddressedTo(copies[i].m, to[i]), Reaches(t, to, copies, i, now).value, a);
  }

  /** The tables between the turns of the store loop, from recipient `i` on. */
  ghost predicate IsStoreRun(states: seq<Tables>, to: seq<string>, copies: seq<Copy>, i: nat, now: Time)
    requires i <= |to| == |copies|
  {
    && 0 < |states| <= |to| - i + 1
    && forall k :: 0 <= k < |states| - 1 ==> StoresCopy(states[k], states[k + 1], to, copies, i + k, now)
  }

  lemma StoreRunPrepend(t: Tables, rest: seq<Tables>, to: seq<string>, copies: seq<Copy>, i: nat, now: Time)
    requires i < |to| == |copies| && IsStoreRun(rest, to, copies, i + 1, now) && StoresCopy(t, rest[0], to, copies, i, now)
    ensures IsStoreRun([t] + rest, to, copies, i, now)
  {
    var states := [t] + rest;
    forall k | 0 <= k < |states| - 1 ensures StoresCopy(states[k], states[k + 1], to, copies, i + k, now) {
      assert k > 0 ==> StoresCopy(rest[k - 1], rest[k], to, copies, i + 1 + (k - 1), now);
    }
  }

  lemma StoreFromNext(t: Tables, t1: Tables, to: seq<string>, copies: seq<Copy>, i: nat, now: Time)
    requires i < |to| == |copies| && StoresCopy(t, t1, to, copies, i, now)
    ensures Completes(StoreFrom(t1, to, copies, i + 1, now), StoreFrom(t, to, copies, i, now), 1)
  {
  }

  lemma StoreFromEnds(t: Tables, to: seq<string>, copies: seq<Copy>, i: nat, now: Time)
    requires i <= |to| == |copies| && (i < |to| ==> Reaches(t, to, copies, i, now).None?)
    ensures StoreFrom(t, to, copies, i, now) == (t, 0, i == |to|)
  {
  }

  /** The loop stores copies until all are stored or one fails; `r` is what it reports. */
  lemma {:induction false} StoreRunOf(t: Tables, to: seq<string>, copies: seq<Copy>, i: nat, now: Time, r: (Tables, nat, bool))
    returns (states: seq<Tables>)
    requires i <= |to| == |copies| && r == StoreFrom(t, to, copies, i, now)
    ensures IsStoreRun(states, to, copies, i, now) && states[0] == t
    ensures r.0 == states[|states| - 1] && r.1 == |states| - 1 && (r.2 <==> r.1 == |to| - i)
    decreases |to| - i
  {
    if i == |to| || Reaches(t, to, copies, i, now).None? {
      StoreFromEnds(t, to, copies, i, now);
      states := [t];
    } else {
      var t1 := Stored(t, AddressedTo(copies[i].m, to[i]), Reaches(t, to, copies, i, now).value);
      StoreFromNext(t, t1, to, copies, i, now);
      var rest := StoreRunOf(t1, to, copies, i + 1, now, StoreFrom(t1, to, copies, i + 1, now));
      StoreRunPrepend(t, rest, to, copies, i, now);
      states := [t] + rest;
    }
  }

  /** It loses and alters nothing, and adds one message and one link a turn. */
  lemma {:induction false} StoreRunAdds(states: seq<Tables>, to: seq<string>, copies: seq<Copy>, now: Time)
    requires |to| == |copies| && IsStoreRun(states, to, copies, 0, now)
    ensures var t', n := states[|states| - 1], |states| - 1;
      RowsKept(states[0], t') && |t'.emails| == |states[0].emails| + n && |t'.links| == |states[0].links| + n
    decreases |states|
  {
    var n := |states| - 1;
    if n > 0 {
      StoreRunAdds(states[..n], to, copies, now);
      assert StoresCopy(states[n - 1], states[n], to, copies, 0 + (n - 1), now);
      CopyAdds(states[n - 1], states[n], to, copies, n - 1, now);
      RowsKeptTransitive(states[0], states[n - 1], states[n]);
    }
  }

  /** Link ids of the first `n` copies that are addressed to the mailbox named `email`. */
  function LinkIdsFor(to: seq<string>, copies: seq<Copy>, n: nat, email: string): set<Id>
    requires n <= |to| == |copies|
  {
    set k | 0 <= k < n && ToLower(to[k]) == email :: copies[k].m.linkId
  }

  lemma LinkIdsForOneMore(to: seq<string>, copies: seq<Copy>, n: nat, email: string)
    requires n < |to| == |copies|
    ensures LinkIdsFor(to, copies, n + 1, email) ==
            LinkIdsFor(to, copies, n, email) + if ToLower(to[n]) == email then {copies[n].m.linkId} else {}
  {
  }

  /** Every mailbox gains exactly the links of the stored copies that are addressed to it. */
  lemma {:induction false} StoreRunDelivers(states: seq<Tables>, to: seq<string>, copies: seq<Copy>, now: Time, a: Id)
    requires |to| == |copies| && IsStoreRun(states, to, copies, 0, now)
    requires UniqueEmails(states[0]) && a in states[0].addresses
    ensures var n := |states| - 1;
      LinksOf(states[n], a) == LinksOf(states[0], a) + LinkIdsFor(to, copies, n, states[0].addresses[a].email)
    decreases |states|
  {
    var n, email := |states| - 1, states[0].addresses[a].email;
    if n > 0 {
      var last, new_ := states[n - 1], if ToLower(to[n - 1]) == email then {copies[n - 1].m.linkId} else {};
      assert LinksOf(last, a) == LinksOf(states[0], a) + LinkIdsFor(to, copies, n - 1, email) by {
        StoreRunDelivers(states[..n], to, copies, now, a);
      }
      assert LinksOf(states[n], a) == LinksOf(last, a) + new_ by {
        assert last.addresses == states[0].addresses by {
          StoreRunAdds(states[..n], to, copies, now);
        }
        assert StoresCopy(last, states[n], to, copies, 0 + (n - 1), now);
        CopyReaches(last, states[n], to, copies, n - 1, now, a);
      }
      LinkIdsForOneMore(to, copies, n - 1, email);
    }
  }

  /**
   One turn of the loop on whatever tables the earlier turns and everything else that runs
   meanwhile, cap jobs included, have left: the i-th recipient's mailbox, and no other,
   gains exactly the link of the i-th copy, and no row is lost or altered.
   */
  lemma TurnReachesItsMailbox(t: Tables, t': Tables, to: seq<string>, copies: seq<Copy>, i: nat, now: Time, a: Id)
    requires Consistent(t) && i < |to| == |copies| && IsQueue(to) && StoresCopy(t, t', to, copies, i, now) && a in t.addresses
    ensures LinksOf(t', a) == LinksOf(t, a) + (if t.addresses[a].email == to[i] then {copies[i].m.linkId} else {})
    ensures RowsKept(t, t') && copies[i].m.linkId !in t.links
  {
    CopyAdds(t, t', to, copies, i, now);
    CopyReaches(t, t', to, copies, i, now, a);
    ReachesFreshRows(t, to, copies, i, now);
    assert ToLower(to[i]) == to[i];
  }

  /** The rows of a stored copy: the message under the recipient's name, with its own time, size and attachments. */
  lemma TurnStoresTheMessage(t: Tables, t': Tables, to: seq<string>, copies: seq<Copy>, i: nat, now: Time)
    requires i < |to| == |copies| && StoresCopy(t, t', to, copies, i, now)
    ensures var m := copies[i].m;
      && m.emailId in t'.emails && t'.emails[m.emailId] == Email(to[i], m.email.receivedAt, m.email.size)
      && (forall j :: 0 <= j < |m.attachments| ==> var x := m.attachments[j];
            x.id in t'.attachments && t'.attachments[x.id] == Attachment(m.emailId, x.filename, x.size))
      && m.linkId in t'.links && t'.links[m.linkId].emailId == m.emailId
  {
    StoreAddsExactly(t, AddressedTo(copies[i].m, to[i]), now, copies[i].faultAt);
  }

  lemma OnlyOwnCopy(to: seq<string>, copies: seq<Copy>, n: nat, k: nat)
    requires IsQueue(to) && |to| == |copies| && k < |to| && n <= |to|
    ensures LinkIdsFor(to, copies, n, to[k]) == if k < n then {copies[k].m.linkId} else {}
  {
    assert forall j :: 0 <= j < n && ToLower(to[j]) == to[k] ==> j == k;
    assert ToLower(to[k]) == to[k];
  }

  /** The loop goes on as long as copies are stored. */
  lemma {:induction false} StoppedByAFailure(t: Tables, to: seq<string>, copies: seq<Copy>, i: nat, now: Time, r: (Tables, nat, bool))
    requires i <= |to| == |copies| && r == StoreFrom(t, to, copies, i, now)
    ensures i + r.1 <= |to| && (i + r.1 < |to| ==> Reaches(r.0, to, copies, i + r.1, now).None?)
    decreases |to| - i
  {
    if i < |to| && Reaches(t, to, copies, i, now).Some? {
      var t1 := Stored(t, AddressedTo(copies[i].m, to[i]), Reaches(t, to, copies, i, now).value);
      StoppedByAFailure(t1, to, copies, i + 1, now, StoreFrom(t1, to, copies, i + 1, now));
    }
  }

  lemma OneCopyInReport(t: Tables, to: seq<string>, copies: seq<Copy>, now: Time, k: nat, a: Id, r: (Tables, nat, bool))
    requires Consistent(t) && k < |to| == |copies| && IsQueue(to) && r == StoreFrom(t, to, copies, 0, now)
    requires a in t.addresses && t.addresses[a].email == to[k]
    ensures r.2 <==> r.1 == |to|
    ensures LinksOf(r.0, a) == LinksOf(t, a) + (if k < r.1 then {copies[k].m.linkId} else {})
    ensures RowsKept(t, r.0) && |r.0.emails| == |t.emails| + r.1 && |r.0.links| == |t.links| + r.1
    ensures r.1 < |to| ==> Reaches(r.0, to, copies, r.1, now).None?
  {
    StoppedByAFailure(t, to, copies, 0, now, r);
    var states := StoreRunOf(t, to, copies, 0, now, r);
    StoreRunAdds(states, to, copies, now);
    StoreRunDelivers(states, to, copies, now, a);
    OnlyOwnCopy(to, copies, r.1, k);
  }

  /**
   DATA over distinct lower-case recipients: success means that every recipient's mailbox
   gained exactly one link, and failure after n copies that exactly the first n did and
   that the next one cannot be stored.
   */
  lemma OneCopyPerRecipient(t: Tables, to: seq<string>, copies: seq<Copy>, now: Time, k: nat, a: Id)
    requires Consistent(t) && k < |to| == |copies| && IsQueue(to)
    requires a in t.addresses && t.addresses[a].email == to[k]
    ensures var (t', n, ok) := StoreFrom(t, to, copies, 0, now);
      && (ok <==> n == |to|)
      && LinksOf(t', a) == LinksOf(t, a) + (if k < n then {copies[k].m.linkId} else {})
      && RowsKept(t, t') && |t'.emails| == |t.emails| + n && |t'.links| == |t.links| + n
      && (n < |to| ==> Reaches(t', to, copies, n, now).None?)
  {
    OneCopyInReport(t, to, copies, now, k, a, StoreFrom(t, to, copies, 0, now));
  }

  // --------------------------------------------------------------- session queues

  /** Queued recipients are distinct, in lower case and have one @. */
  ghost predicate IsQueue(to: seq<string>) {
    && (forall i, j :: 0 <= i < j < |to| ==> to[i] != to[j])
    && forall i :: 0 <= i < |to| ==> IsLower(to[i])
  }

  /**
   A command of the session, with what the world answers to it, or a change of the shared
   cell by the watcher or another session.
   */
  datatype Command =
    | MailFrom(sender: string)
    | RcptTo(file: Option<string>, parsed: Option<string>, lookup: string -> Option<bool>)
    | DataCommand
    | Rset
    | CellChanges(cell: Cell)

  datatype Run = Run(s: State, cell: Cell)

  function Do(env: Env, r: Run, c: Command): Run {
    match c
    case MailFrom(from) => r.(s := r.s.(sender := from, to := []))
    case RcptTo(file, parsed, lookup) => (var (s, cell, _) := AfterRcpt(env, r.s, r.cell, file, parsed, lookup); Run(s, cell))
    case DataCommand => r
    case Rset => r.(s := r.s.(sender := "", to := []))
    case CellChanges(cell) => r.(cell := cell)
  }

  function After(env: Env, start: Run, commands: seq<Command>): Run {
    if commands == [] then start
    else Do(env, After(env, start, commands[..|commands| - 1]), commands[|commands| - 1])
  }

  /** Command `i` of the session was a RCPT that accepted `r`: known to the store, in a domain then served. */
  ghost predicate AcceptedAt(env: Env, start: Run, commands: seq<Command>, i: nat, r: string)
    requires i < |commands|
  {
    && commands[i].RcptTo? && commands[i].parsed.Some? && ToLower(commands[i].parsed.value) == r
    && commands[i].lookup(r) == Some(true)
    && var parts := Parts(commands[i].parsed);
       parts.Some? && DomainOf(parts.value) in After(env, start, commands[..i + 1]).s.domains
  }

  ghost predicate StartsTransaction(c: Command) { c.MailFrom? || c.Rset? }

  /** A RCPT of the transaction in progress accepted `r`. */
  ghost predicate AcceptedBefore(env: Env, start: Run, commands: seq<Command>, r: string) {
    exists i :: 0 <= i < |commands| && AcceptedAt(env, start, commands, i, r) &&
                forall j :: i < j < |commands| ==> !StartsTransaction(commands[j])
  }

  lemma AcceptanceLasts(env: Env, start: Run, commands: seq<Command>, r: string)
    requires commands != [] && !StartsTransaction(commands[|commands| - 1])
    requires AcceptedBefore(env, start, commands[..|commands| - 1], r)
    ensures AcceptedBefore(env, start, commands, r)
  {
    var front := commands[..|commands| - 1];
    var i :| 0 <= i < |front| && AcceptedAt(env, start, front, i, r) && forall j :: i < j < |front| ==> !StartsTransaction(front[j]);
    assert commands[..i + 1] == front[..i + 1];
    assert AcceptedAt(env, start, commands, i, r);
  }

  /**
   RCPT accepts exactly the known addresses of served domains, after a reload if need be,
   and asks the sender to come back iff only the database stood in the way.
   */
  lemma RcptAcceptsIff(env: Env, s: State, cell: Cell, file: Option<string>, parsed: Option<string>, lookup: string -> Option<bool>)
    ensures var (s', cell', reply) := AfterRcpt(env, s, cell, file, parsed, lookup);
      && (reply == Ok <==> parsed.Some? && lookup(ToLower(parsed.value)) == Some(true) &&
                           Parts(parsed).Some? && DomainOf(Parts(parsed).value) in s'.domains)
      && (reply == Ok ==> ToLower(parsed.value) in s'.to && forall r :: r in s'.to ==> r in s.to || r == ToLower(parsed.value))
      && (reply != Ok ==> s'.to == s.to)
      && (IsTransient(reply) <==> Parts(parsed).Some? && DomainOf(Parts(parsed).value) in s'.domains &&
                                  lookup(ToLower(parsed.value)).None?)
      && s.to <= s'.to && (IsQueue(s.to) ==> IsQueue(s'.to))
  {
    if parsed.Some? {
      ToLowerIsLower(parsed.value);
    }
  }

  /** The session after a reload that found a changed, loadable file. */
  ghost predicate IsRefreshed(env: Env, s: State, s': State, cell: Cell, cell': Cell, file: Option<string>) {
    if HashFile(env, file) != "" && HashFile(env, file) != cell.hash && LoadFile(env, file).Some?
    then cell' == Cell(LoadFile(env, file).value, HashFile(env, file)) &&
         s'.cfg == cell'.current && forall d :: d in s'.domains <==>
           d != "" && exists i :: 0 <= i < |s'.cfg.domains| && ToLower(Strip(s'.cfg.domains[i])) == d
    else cell' == cell && s'.cfg == s.cfg && s'.domains == s.domains
  }

  /**
   Everything RCPT does besides queueing: malformed addresses and known domains leave the
   settings alone, an unknown domain makes the session reload once, and each refusal has
   its code.
   */
  lemma RcptAnswers(env: Env, s: State, cell: Cell, file: Option<string>, parsed: Option<string>, lookup: string -> Option<bool>)
    ensures var (s', cell', reply) := AfterRcpt(env, s, cell, file, parsed, lookup);
      && s'.sender == s.sender
      && (if Parts(parsed).None? || DomainOf(Parts(parsed).value) in s.domains
          then cell' == cell && s'.cfg == s.cfg && s'.domains == s.domains
          else IsRefreshed(env, s, s', cell, cell', file))
      && (reply == Refused(550, (5, 1, 3)) <==> Parts(parsed).None?)
      && (Parts(parsed).Some? ==>
            && (reply == Refused(550, (5, 7, 1)) <==> DomainOf(Parts(parsed).value) !in s'.domains)
            && (DomainOf(Parts(parsed).value) in s'.domains ==>
                  && (reply == Refused(451, (4, 3, 0)) <==> lookup(ToLower(parsed.value)).None?)
                  && (reply == Refused(550, (5, 1, 1)) <==> lookup(ToLower(parsed.value)) == Some(false))))
  {
  }

  /** An address is well formed iff it has exactly one @; its domain is what follows, in lower case. */
  lemma PartsIff(address: string, local: string, domain: string)
    ensures Parts(Some(address)) == Some([local, domain]) <==> address == local + "@" + domain && '@' !in local && '@' !in domain
  {
    if address == local + "@" + domain && '@' !in local && '@' !in domain {
      assert [local, domain][1..] == [domain];
      JoinThenSplit([local, domain], '@');
    }
    if Parts(Some(address)) == Some([local, domain]) {
      SplitThenJoin(address, '@');
      assert [local, domain][1..] == [domain];
    }
  }

  /**
   So the address local@domain is accepted iff the store knows it in lower case and the
   session, after a reload if need be, serves its domain in lower case; it is then queued in
   lower case.
   */
  lemma AddressIsAcceptedIff(env: Env, s: State, cell: Cell, file: Option<string>, local: string, domain: string,
                             lookup: string -> Option<bool>)
    requires '@' !in local && '@' !in domain
    ensures var address := local + "@" + domain;
      var (s', _, reply) := AfterRcpt(env, s, cell, file, Some(address), lookup);
      && (reply == Ok <==> lookup(ToLower(address)) == Some(true) && ToLower(domain) in s'.domains)
      && (reply == Ok ==> s'.to == if ToLower(address) in s.to then s.to else s.to + [ToLower(address)])
      && (ToLower(domain) in s.domains ==> s'.domains == s.domains)
  {
    PartsIff(local + "@" + domain, local, domain);
  }

  /**
   Main result. In every session, whatever the order of its commands and of reloads by
   anybody, the queue is free of duplicates and in lower case, and each queued recipient
   was accepted by a RCPT of the same transaction when it was known and its domain was
   served.
   */
  lemma {:induction false} QueueIsSound(env: Env, start: Run, commands: seq<Command>)
    requires start.s.to == []
    ensures IsQueue(After(env, start, commands).s.to)
    ensures forall r :: r in After(env, start, commands).s.to ==> AcceptedBefore(env, start, commands, r)
  {
    if commands != [] {
      var n := |commands| - 1;
      var front, c := commands[..n], commands[n];
      QueueIsSound(env, start, front);
      var before, after := After(env, start, front), After(env, start, commands);
      if c.RcptTo? {
        RcptAcceptsIff(env, before.s, before.cell, c.file, c.parsed, c.lookup);
      }
      forall r | r in after.s.to ensures AcceptedBefore(env, start, commands, r) {
        if r in before.s.to && !StartsTransaction(c) {
          AcceptanceLasts(env, start, commands, r);
        } else {
          assert commands[..n + 1] == commands;
          assert AcceptedAt(env, start, commands, n, r);
        }
      }
    }
  }

  // --------------------------------------------- where the code falls short of its comments

  /**
   A domain that the file lists is refused with a permanent 550 exactly when the session's
   snapshot lacks it and somebody else has already consumed the change.
   */
  lemma ListedDomainRefusedIff(env: Env, s: State, cell: Cell, file: string, parsed: Option<string>, lookup: string -> Option<bool>)
    requires Parts(parsed).Some? && Load(env, file).Some? && env.sum(file) != ""
    requires DomainOf(Parts(parsed).value) in DomainSet(Load(env, file).value.domains)
    ensures AfterRcpt(env, s, cell, Some(file), parsed, lookup).2 == Refused(550, (5, 7, 1)) <==>
            DomainOf(Parts(parsed).value) !in s.domains && env.sum(file) == cell.hash
  {
  }

  /** The failing run: a session opens, a domain is added, the watcher ticks, mail for it arrives. */
  lemma AddedDomainCanBounce(env: Env, cell: Cell, file: string, address: string, lookup: string -> Option<bool>)
    requires Parts(Some(address)).Some? && Load(env, file).Some? && env.sum(file) != "" && env.sum(file) != cell.hash
    requires DomainOf(Parts(Some(address)).value) in DomainSet(Load(env, file).value.domains)
    requires DomainOf(Parts(Some(address)).value) !in DomainSet(cell.current.domains)
    ensures var s := State("", [], cell.current, DomainSet(cell.current.domains));
      var ticked := AfterReload(env, cell, Some(file), Some(file)).0;
      && AfterRcpt(env, s, cell, Some(file), Some(address), lookup).2 != Refused(550, (5, 7, 1))
      && AfterRcpt(env, s, ticked, Some(file), Some(address), lookup).2 == Refused(550, (5, 7, 1))
  {
    var s := State("", [], cell.current, DomainSet(cell.current.domains));
    var ticked := AfterReload(env, cell, Some(file), Some(file)).0;
    ListedDomainRefusedIff(env, s, cell, file, Some(address), lookup);
    ListedDomainRefusedIff(env, s, ticked, file, Some(address), lookup);
  }

  /** The domain of an address that has one @. */
  function AddressDomain(address: string): (d: string)
    requires Parts(Some(address)).Some?
  {
    DomainOf(Parts(Some(address)).value)
  }

  /**
   A RCPT drops the domain of a recipient accepted before it, who stays queued, exactly
   when it is well formed, names a domain outside the snapshot, and finds a changed,
   loadable file without that recipient's domain.
   */
  lemma AcceptedDomainDroppedIff(env: Env, s: State, cell: Cell, file: Option<string>, parsed: Option<string>,
                                 lookup: string -> Option<bool>, r: string)
    requires r in s.to && Parts(Some(r)).Some? && AddressDomain(r) in s.domains
    ensures var s' := AfterRcpt(env, s, cell, file, parsed, lookup).0;
      && r in s'.to
      && (AddressDomain(r) !in s'.domains <==>
          && Parts(parsed).Some? && DomainOf(Parts(parsed).value) !in s.domains
          && LoadFile(env, file).Some? && HashFile(env, file) != "" && HashFile(env, file) != cell.hash
          && AddressDomain(r) !in DomainSet(LoadFile(env, file).value.domains))
  {
    RcptAcceptsIff(env, s, cell, file, parsed, lookup);
  }

  /** MAIL, an accepted RCPT for `r`, an edit of the file, and a RCPT for `q`. */
  function DroppingSession(sender: string, r: string, old_: Option<string>, new_: Option<string>, q: string,
                           lookup: string -> Option<bool>): seq<Command> {
    [MailFrom(sender), RcptTo(old_, Some(r), lookup), RcptTo(new_, Some(q), lookup)]
  }

  lemma SessionOfThree(env: Env, start: Run, a: Command, b: Command, c: Command)
    ensures After(env, start, [a, b]) == Do(env, Do(env, start, a), b)
    ensures After(env, start, [a, b, c]) == Do(env, After(env, start, [a, b]), c)
  {
    assert [a, b, c][..2] == [a, b] && [a, b][..1] == [a] && [a][..0] == [];
    assert After(env, start, [a]) == Do(env, start, a);
  }

  /** That session queues a recipient whose domain it served then and does not serve any more. */
  lemma AcceptedDomainCanBeDropped(env: Env, start: Run, sender: string, r: string, old_: Option<string>, file: string,
                                   q: string, lookup: string -> Option<bool>)
    requires Parts(Some(r)).Some? && IsLower(r) && lookup(r) == Some(true) && AddressDomain(r) in start.s.domains
    requires Parts(Some(q)).Some? && AddressDomain(q) !in start.s.domains
    requires Load(env, file).Some? && env.sum(file) != "" && env.sum(file) != start.cell.hash
    requires AddressDomain(r) !in DomainSet(Load(env, file).value.domains)
    ensures var commands := DroppingSession(sender, r, old_, Some(file), q, lookup);
      var (accepted, dropped) := (After(env, start, commands[..2]).s, After(env, start, commands).s);
      && accepted.to == [r] && AddressDomain(r) in accepted.domains
      && r in dropped.to && AddressDomain(r) !in dropped.domains
  {
    var commands := DroppingSession(sender, r, old_, Some(file), q, lookup);
    SessionOfThree(env, start, commands[0], commands[1], commands[2]);
    assert commands[..2] == [commands[0], commands[1]];
    var accepted := After(env, start, commands[..2]);
    assert accepted == Run(start.s.(sender := sender, to := [r]), start.cell);
    AcceptedDomainDroppedIff(env, accepted.s, accepted.cell, Some(file), Some(q), lookup, r);
  }

  /** max_mime_parts: 0 is documented as unlimited, but refuses every message with a boundary line. */
  lemma ZeroMimePartsRefusesMultipart(s: State, windows: HourlyWindow.Table, i: Input)
    requires s.cfg.maxMimeParts == Some(0)
    ensures Admit(s, windows, i).1 == Ok <==>
            Admit(s.(cfg := s.cfg.(maxMimeParts := Some(PART_CEILING + 1))), windows, i).1 == Ok &&
            Markers(Split(i.raw, NEWLINE)) == 0
  {
  }
}
