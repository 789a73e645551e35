/**
 The global storage cap (enforce_storage_limit in api/app/cleanup.py): one DELETE
 driven by a window sum over all messages, newest first.
 */
module StorageCap {
  import opened MailTables

  type Emails = map<Id, Email>

  /** `j` is not after `i` in ORDER BY received_at DESC, id DESC. */
  predicate NotOlder(emails: Emails, j: Id, i: Id)
    requires j in emails && i in emails
  {
    emails[j].receivedAt > emails[i].receivedAt || (emails[j].receivedAt == emails[i].receivedAt && j >= i)
  }

  /** SUM(size_bytes) over the given rows. */
  function TotalSize(emails: Emails, ids: set<Id>): nat
    requires ids <= emails.Keys
    decreases ids
  {
    if ids == {} then 0
    else emails[Least(ids)].size + TotalSize(emails, ids - {Least(ids)})
  }

  function UpTo(emails: Emails, i: Id): set<Id>
    requires i in emails
  {
    set j | j in emails && NotOlder(emails, j, i)
  }

  /** Rows whose running sum exceeds the limit. */
  function Overflow(emails: Emails, limit: nat): set<Id> {
    set i | i in emails && TotalSize(emails, UpTo(emails, i)) > limit
  }

  function LimitBytes(maxStorageMb: int): int { maxStorageMb * 1024 * 1024 }

  /** The tables after a run of the job, and the number of messages it reports. */
  function Enforce(t: Tables, maxStorageMb: int): (Tables, nat) {
    if maxStorageMb <= 0 then (t, 0)
    else if TotalSize(t.emails, t.emails.Keys) <= LimitBytes(maxStorageMb) then (t, 0)
    else
      var dead := Overflow(t.emails, LimitBytes(maxStorageMb));
      (DeleteEmails(t, dead), |dead|)
  }

  // ---------------------------------------------------------- sums over row sets

  lemma {:induction false} TotalSizeRemove(emails: Emails, ids: set<Id>, x: Id)
    requires ids <= emails.Keys && x in ids
    ensures TotalSize(emails, ids) == emails[x].size + TotalSize(emails, ids - {x})
    decreases ids
  {
    var m := Least(ids);
    if m != x {
      TotalSizeRemove(emails, ids - {m}, x);
      assert m in ids - {x};
      assert Least(ids - {x}) == m;
      assert ids - {m} - {x} == ids - {x} - {m};
    }
  }

  lemma {:induction false} TotalSizeMonotone(emails: Emails, small: set<Id>, large: set<Id>)
    requires small <= large <= emails.Keys
    ensures TotalSize(emails, small) <= TotalSize(emails, large)
    decreases large
  {
    if x :| x in large && x !in small {
      TotalSizeRemove(emails, large, x);
      TotalSizeMonotone(emails, small, large - {x});
    } else {
      assert small == large;
    }
  }

  lemma {:induction false} TotalSizeOfPart(emails: Emails, part: Emails, ids: set<Id>)
    requires ids <= part.Keys <= emails.Keys && forall i :: i in part ==> part[i] == emails[i]
    ensures TotalSize(part, ids) == TotalSize(emails, ids)
    decreases ids
  {
    if x :| x in ids {
      TotalSizeRemove(emails, ids, x);
      TotalSizeRemove(part, ids, x);
      TotalSizeOfPart(emails, part, ids - {x});
    }
  }

  lemma {:induction false} OldestOf(emails: Emails, ids: set<Id>) returns (m: Id)
    requires ids != {} && ids <= emails.Keys
    ensures m in ids && forall j :: j in ids ==> NotOlder(emails, j, m)
    decreases ids
  {
    m :| m in ids;
    var rest := ids - {m};
    if rest != {} {
      var z := OldestOf(emails, rest);
      assert forall j :: j in ids ==> j == m || j in rest;
      m := if NotOlder(emails, m, z) then z else m;
    } else {
      assert ids == {m};
    }
  }

  // ------------------------------------------------------------------- theorems

  /** `ids` is a beginning of the newest-first order. */
  ghost predicate NewestFirstPrefix(emails: Emails, ids: set<Id>) {
    ids <= emails.Keys && forall i, j :: i in ids && j in emails && NotOlder(emails, j, i) ==> j in ids
  }

  lemma KeptIsPrefixThatFits(emails: Emails, limit: nat)
    ensures NewestFirstPrefix(emails, emails.Keys - Overflow(emails, limit))
    ensures TotalSize(emails, emails.Keys - Overflow(emails, limit)) <= limit
  {
    var kept := emails.Keys - Overflow(emails, limit);
    forall i, j | i in kept && j in emails && NotOlder(emails, j, i) ensures j in kept {
      TotalSizeMonotone(emails, UpTo(emails, j), UpTo(emails, i));
    }
    if kept != {} {
      var m := OldestOf(emails, kept);
      assert kept == UpTo(emails, m);
    }
  }

  lemma KeptIsLongest(emails: Emails, limit: nat, ids: set<Id>)
    requires NewestFirstPrefix(emails, ids) && TotalSize(emails, ids) <= limit
    ensures ids <= emails.Keys - Overflow(emails, limit)
  {
    forall i | i in ids ensures i !in Overflow(emails, limit) {
      TotalSizeMonotone(emails, UpTo(emails, i), ids);
    }
  }

  /** The early return is taken exactly when the window query would delete nothing. */
  lemma EarlyReturnIffNothingOverflows(emails: Emails, limit: nat)
    ensures TotalSize(emails, emails.Keys) <= limit <==> Overflow(emails, limit) == {}
  {
    if TotalSize(emails, emails.Keys) <= limit {
      KeptIsLongest(emails, limit, emails.Keys);
    } else {
      KeptIsPrefixThatFits(emails, limit);
      assert Overflow(emails, limit) == {} ==> emails.Keys - Overflow(emails, limit) == emails.Keys;
    }
  }

  /** What a run keeps, whether or not it returns early. */
  lemma EnforceKeepsAllButOverflow(t: Tables, maxStorageMb: int)
    requires maxStorageMb > 0
    ensures var (t', n) := Enforce(t, maxStorageMb); var dead := Overflow(t.emails, LimitBytes(maxStorageMb));
            t'.emails == t.emails - dead && n == |dead| && dead <= t.emails.Keys
  {
    EarlyReturnIffNothingOverflows(t.emails, LimitBytes(maxStorageMb));
    assert t.emails - {} == t.emails;
  }

  lemma PrefixFitsIffKept(emails: Emails, limit: nat, ids: set<Id>)
    requires NewestFirstPrefix(emails, ids)
    ensures TotalSize(emails, ids) <= limit <==> ids <= emails.Keys - Overflow(emails, limit)
  {
    KeptIsPrefixThatFits(emails, limit);
    if TotalSize(emails, ids) <= limit {
      KeptIsLongest(emails, limit, ids);
    } else if ids <= emails.Keys - Overflow(emails, limit) {
      TotalSizeMonotone(emails, ids, emails.Keys - Overflow(emails, limit));
    }
  }

  /** `j` was received before `i`, ties broken by the smaller id. */
  ghost predicate IsOlder(emails: Emails, j: Id, i: Id)
    requires j in emails && i in emails
  {
    emails[j].receivedAt < emails[i].receivedAt || (emails[j].receivedAt == emails[i].receivedAt && j < i)
  }

  lemma OverflowIsOlder(emails: Emails, limit: nat, k: Id, d: Id)
    requires k in emails && d in emails && k !in Overflow(emails, limit) && d in Overflow(emails, limit)
    ensures IsOlder(emails, d, k)
  {
    if NotOlder(emails, d, k) {
      TotalSizeMonotone(emails, UpTo(emails, d), UpTo(emails, k));
    }
  }

  lemma EnforceIsDeletion(t: Tables, maxStorageMb: int)
    requires maxStorageMb > 0
    ensures Enforce(t, maxStorageMb).0 == DeleteEmails(t, Overflow(t.emails, LimitBytes(maxStorageMb)))
  {
    EarlyReturnIffNothingOverflows(t.emails, LimitBytes(maxStorageMb));
    NothingDeleted(t);
  }

  /**
   A run under a positive cap leaves the total within the cap and keeps exactly the
   longest newest-first prefix that fits: what goes is older than all that stays, and a
   prefix fits iff it is part of what is kept. Links and attachments go with their
   messages and no others. Without a positive cap nothing changes.
   */
  lemma EnforceKeepsLongestFittingPrefix(t: Tables, maxStorageMb: int)
    ensures maxStorageMb <= 0 ==> Enforce(t, maxStorageMb) == (t, 0)
    ensures maxStorageMb > 0 ==> var (t', n) := Enforce(t, maxStorageMb); var limit := maxStorageMb * 1_048_576;
      && IsPartOf(t', t)
      && TotalSize(t'.emails, t'.emails.Keys) <= limit
      && (forall ids: set<Id> :: NewestFirstPrefix(t.emails, ids) ==>
            (TotalSize(t.emails, ids) <= limit <==> ids <= t'.emails.Keys))
      && NewestFirstPrefix(t.emails, t'.emails.Keys)
      && (forall k, d :: k in t'.emails && d in t.emails && d !in t'.emails ==> IsOlder(t.emails, d, k))
      && n == |t.emails.Keys - t'.emails.Keys|
    ensures var t' := Enforce(t, maxStorageMb).0;
      && t'.addresses == t.addresses
      && (forall l :: l in t.links && t.links[l].emailId !in t.emails.Keys - t'.emails.Keys ==> l in t'.links)
      && (forall x :: x in t.attachments && t.attachments[x].emailId !in t.emails.Keys - t'.emails.Keys ==> x in t'.attachments)
  {
    if maxStorageMb > 0 {
      var t', limit := Enforce(t, maxStorageMb).0, LimitBytes(maxStorageMb);
      var dead := Overflow(t.emails, limit);
      EnforceKeepsAllButOverflow(t, maxStorageMb);
      EnforceIsDeletion(t, maxStorageMb);
      assert t'.emails.Keys == t.emails.Keys - dead && t.emails.Keys - t'.emails.Keys == dead;
      KeptIsPrefixThatFits(t.emails, limit);
      TotalSizeOfPart(t.emails, t'.emails, t'.emails.Keys);
      forall ids: set<Id> | NewestFirstPrefix(t.emails, ids)
        ensures TotalSize(t.emails, ids) <= limit <==> ids <= t'.emails.Keys
      {
        PrefixFitsIffKept(t.emails, limit, ids);
      }
      forall k, d | k in t'.emails && d in t.emails && d !in t'.emails ensures IsOlder(t.emails, d, k) {
        OverflowIsOlder(t.emails, limit, k, d);
      }
    }
  }

  /** A second run right after the first deletes nothing. */
  lemma EnforceIsIdempotent(t: Tables, maxStorageMb: int)
    ensures var t' := Enforce(t, maxStorageMb).0; Enforce(t', maxStorageMb) == (t', 0)
  {
    if maxStorageMb > 0 {
      EnforceKeepsLongestFittingPrefix(t, maxStorageMb);
    }
  }

  lemma EnforceKeepsConsistency(t: Tables, maxStorageMb: int)
    requires Consistent(t)
    ensures Consistent(Enforce(t, maxStorageMb).0)
  {
    if maxStorageMb > 0 {
      DeleteEmailsKeepsConsistency(t, Overflow(t.emails, LimitBytes(maxStorageMb)));
    }
  }
}
