/**
 DATA in the middle of everything else: the turns of its store loop (mx/session.go) as
 steps of a history in which cap jobs, clean-up, deletes and other deliveries may run
 before, between and after them.
 */
module DataAmongOthers {
  import opened Wrappers
  import opened Text
  import opened MailTables
  import opened MailOps
  import MailRuns
  import SmtpSession

  function Turn(to: seq<string>, copies: seq<SmtpSession.Copy>, i: nat, now: Time): MailRuns.Op
    requires i < |to| == |copies|
  {
    MailRuns.Deliver(SmtpSession.AddressedTo(copies[i].m, to[i]), now, copies[i].faultAt)
  }

  /** The tables before step `i` of a history. */
  function Before(t: Tables, ops: seq<MailRuns.Op>, i: nat): (t': Tables)
    requires Consistent(t) && i <= |ops|
    ensures Consistent(t')
  {
    MailRuns.RunFrom(t, ops[..i])
  }

  /** Step `p` of the history is turn `i` of the loop, and stored its copy. */
  ghost predicate IsStoredTurn(t: Tables, ops: seq<MailRuns.Op>, p: nat, to: seq<string>, copies: seq<SmtpSession.Copy>, i: nat,
                               now: Time)
    requires Consistent(t) && i < |to| == |copies|
  {
    p < |ops| && ops[p] == Turn(to, copies, i, now) && SmtpSession.Reaches(Before(t, ops, p), to, copies, i, now).Some?
  }

  ghost predicate InOrder(at: seq<nat>) { forall i, j :: 0 <= i < j < |at| ==> at[i] < at[j] }

  /** Turn `i` of the loop is step at[i] of the history, at time nows[i]. */
  ghost predicate TurnsAreStored(t: Tables, ops: seq<MailRuns.Op>, at: seq<nat>, to: seq<string>, copies: seq<SmtpSession.Copy>,
                                 nows: seq<Time>)
    requires Consistent(t)
  {
    && |at| == |nows| <= |to| == |copies| && InOrder(at)
    && forall i :: 0 <= i < |at| ==> IsStoredTurn(t, ops, at[i], to, copies, i, nows[i])
  }

  lemma NextTables(t: Tables, ops: seq<MailRuns.Op>, i: nat)
    requires Consistent(t) && i < |ops|
    ensures Before(t, ops, i + 1) == MailRuns.Step(Before(t, ops, i), ops[i])
  {
    assert ops[..i + 1][..i] == ops[..i];
  }

  /** Step `p` of the history adds exactly these links to the mailbox. */
  ghost predicate Gains(t: Tables, ops: seq<MailRuns.Op>, p: nat, a: Id, links: set<Id>)
    requires Consistent(t)
  {
    p < |ops| && LinksOf(Before(t, ops, p + 1), a) == LinksOf(Before(t, ops, p), a) + links
  }

  lemma TurnGains(t: Tables, ops: seq<MailRuns.Op>, p: nat, to: seq<string>, copies: seq<SmtpSession.Copy>, i: nat, now: Time,
                  k: nat, a: Id)
    requires Consistent(t) && i < |to| == |copies| && SmtpSession.IsQueue(to) && IsStoredTurn(t, ops, p, to, copies, i, now)
    requires k < |to| && a in Before(t, ops, p).addresses && Before(t, ops, p).addresses[a].email == to[k]
    ensures Gains(t, ops, p, a, if i == k then {copies[k].m.linkId} else {})
    ensures copies[i].m.linkId !in Before(t, ops, p).links
  {
    NextTables(t, ops, p);
    assert SmtpSession.StoresCopy(Before(t, ops, p), Before(t, ops, p + 1), to, copies, i, now);
    SmtpSession.TurnReachesItsMailbox(Before(t, ops, p), Before(t, ops, p + 1), to, copies, i, now, a);
  }

  /**
   Whatever runs between the turns, a mailbox that bears the k-th recipient's name whenever
   a turn comes gains the k-th copy at its turn, under a link it never had, and nothing at
   any other turn.
   */
  lemma OneCopyAmongOthers(t: Tables, ops: seq<MailRuns.Op>, at: seq<nat>, to: seq<string>, copies: seq<SmtpSession.Copy>,
                           nows: seq<Time>, k: nat, a: Id, i: nat)
    requires Consistent(t) && TurnsAreStored(t, ops, at, to, copies, nows) && SmtpSession.IsQueue(to) && k < |to| && i < |at|
    requires a in Before(t, ops, at[i]).addresses && Before(t, ops, at[i]).addresses[a].email == to[k]
    ensures Gains(t, ops, at[i], a, if i == k then {copies[k].m.linkId} else {})
    ensures copies[i].m.linkId !in Before(t, ops, at[i]).links
  {
    TurnGains(t, ops, at[i], to, copies, i, nows[i], k, a);
  }

  /** For a permanent mailbox it is enough that the admin does not delete it meanwhile. */
  lemma PermanentGetsOneCopy(t: Tables, ops: seq<MailRuns.Op>, at: seq<nat>, to: seq<string>, copies: seq<SmtpSession.Copy>,
                             nows: seq<Time>, k: nat, a: Id)
    requires Consistent(t) && TurnsAreStored(t, ops, at, to, copies, nows) && SmtpSession.IsQueue(to) && k < |to|
    requires a in t.addresses && t.addresses[a].kind == Permanent && t.addresses[a].email == to[k]
    requires MailRuns.AdminDeletesAddress(a) !in ops
    ensures forall i :: 0 <= i < |at| ==> Gains(t, ops, at[i], a, if i == k then {copies[k].m.linkId} else {})
  {
    forall i | 0 <= i < |at| ensures Gains(t, ops, at[i], a, if i == k then {copies[k].m.linkId} else {}) {
      MailRuns.PermanentSurvives(t, ops[..at[i]], a);
      OneCopyAmongOthers(t, ops, at, to, copies, nows, k, a, i);
    }
  }
}
