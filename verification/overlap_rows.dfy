/** What happened to one host in a run whose transactions overlap: its owner and its expiry, in terms of the
    last event that wrote them. */
module OverlapRows {
  import opened Types
  import opened Tables
  import opened Overlap

  // ---------- the events that write a row ----------

  /** This commit leases host `h`. */
  ghost predicate Leases(s: State, e: Overlap.Stamped, h: HostId) {
    && e.event.Commit? && e.event.index < |s.pending| && h in s.db.hosts
    && var p := s.pending[e.event.index]; p.Leasing? && h in p.wanted && p.user in s.db.users
  }

  /** This commit adds hours to the expiry of host `h`. */
  ghost predicate Extends(s: State, e: Overlap.Stamped, h: HostId) {
    && e.event.Commit? && e.event.index < |s.pending|
    && var p := s.pending[e.event.index]; p.Extending? && h in p.ids && Expiry(s, h).Some?
  }

  /** This event returns host `h` to the pool. */
  ghost predicate Frees(s: State, e: Overlap.Stamped, h: HostId) {
    && Owner(s, h).Some?
    && match e.event
       case Commit(i) => i < |s.pending| && s.pending[i].Releasing? && h in s.pending[i].found
       case Free(u, ids) => Owner(s, h) == Some(u) && h in ids
       case FreeAll(u) => Owner(s, h) == Some(u)
       case _ => false
  }

  ghost predicate Touches(s: State, e: Overlap.Stamped, h: HostId) {
    Leases(s, e, h) || Extends(s, e, h) || Frees(s, e, h)
  }

  /** This commit gives host `h` a new expiry. */
  ghost predicate Renews(s: State, e: Overlap.Stamped, h: HostId) {
    Leases(s, e, h) || Extends(s, e, h)
  }

  function Owner(s: State, h: HostId): Option<UserId> {
    if h in s.db.hosts then s.db.hosts[h].userId else None
  }

  function Expiry(s: State, h: HostId): Option<Time> {
    if h in s.db.hosts then s.db.hosts[h].leasedUntil else None
  }

  /** What each kind of event makes of owner and expiry; an event of no kind leaves both alone. */
  ghost predicate RowEffect(s: State, e: Overlap.Stamped, h: HostId, next: State) {
    && (Leases(s, e, h) ==>
          && Owner(next, h) == Some(s.pending[e.event.index].user)
          && Expiry(next, h) == Some(e.time + s.pending[e.event.index].lasting))
    && (Extends(s, e, h) ==>
          && Owner(next, h) == Owner(s, h)
          && Expiry(next, h) == Some(Expiry(s, h).value + Hours(s.pending[e.event.index].plus)))
    && (Frees(s, e, h) ==> Owner(next, h) == None && Expiry(next, h) == None)
    && (!Touches(s, e, h) ==> Owner(next, h) == Owner(s, h) && Expiry(next, h) == Expiry(s, h))
  }

  lemma CommitRow(db: Db, p: Pending, now: Time, h: HostId)
    requires Consistent(db) && h in db.hosts
    ensures h in Written(db, p, now).hosts
    ensures Written(db, p, now).hosts[h] ==
            match p
            case Leasing(u, wanted, lasting) =>
              if h in wanted && u in db.users then db.hosts[h].(userId := Some(u), leasedUntil := Some(now + lasting)) else db.hosts[h]
            case Extending(ids, plus) =>
              if h in ids && db.hosts[h].leasedUntil.Some?
              then db.hosts[h].(leasedUntil := Some(db.hosts[h].leasedUntil.value + Hours(plus))) else db.hosts[h]
            case Releasing(found) =>
              if h in found then db.hosts[h].(userId := None, leasedUntil := None) else db.hosts[h]
  {
    if p.Leasing? {
      DisjointMeaning(p.wanted, db.hosts.Keys);
    }
  }

  lemma StepRow(default: nat, s: State, e: Overlap.Stamped, h: HostId)
    requires Enabled(s, e) && Consistent(s.db) && h in s.db.hosts
    ensures RowEffect(s, e, h, Next(default, s, e))
  {
    match e.event
    case Commit(i) => CommitRow(s.db, s.pending[i], e.time, h);
    case _ =>
  }

  lemma RunRow(default: nat, ss: seq<State>, es: seq<Overlap.Stamped>, k: nat, h: HostId)
    requires IsRun(default, ss, es) && Consistent(ss[0].db) && k < |es| && h in ss[0].db.hosts
    ensures Consistent(ss[k].db) && h in ss[k].db.hosts && h in ss[k + 1].db.hosts
    ensures Owner(ss[k], h).Some? <==> Expiry(ss[k], h).Some?
    ensures RowEffect(ss[k], es[k], h, ss[k + 1])
  {
    OverlapKeepsTablesConsistent(default, ss, es, k);
    OverlapKeepsTablesConsistent(default, ss, es, k + 1);
    StepRow(default, ss[k], es[k], h);
  }

  /** Every step of the run has such an effect on the row of `h`, and keeps owner and expiry together. */
  ghost predicate RowRun(ss: seq<State>, es: seq<Overlap.Stamped>, h: HostId) {
    && |ss| == |es| + 1
    && (forall k :: 0 <= k < |es| ==> RowEffect(ss[k], es[k], h, ss[k + 1]))
    && (forall k :: 0 <= k < |ss| ==> (Owner(ss[k], h).Some? <==> Expiry(ss[k], h).Some?))
  }

  lemma RunIsRowRun(default: nat, ss: seq<State>, es: seq<Overlap.Stamped>, h: HostId)
    requires IsRun(default, ss, es) && Consistent(ss[0].db) && h in ss[0].db.hosts
    ensures RowRun(ss, es, h)
  {
    forall k | 0 <= k < |es| ensures RowEffect(ss[k], es[k], h, ss[k + 1]) {
      RunRow(default, ss, es, k, h);
    }
    forall k | 0 <= k < |ss| ensures Owner(ss[k], h).Some? <==> Expiry(ss[k], h).Some? {
      OverlapKeepsTablesConsistent(default, ss, es, k);
    }
  }

  // ---------- the owner ----------

  /** `u` got `h` at step `j`, and up to `n` it was neither leased again nor freed. */
  ghost predicate TakenSince(ss: seq<State>, es: seq<Overlap.Stamped>, j: nat, n: nat, u: UserId, h: HostId)
    requires j < n <= |es| < |ss|
  {
    && Leases(ss[j], es[j], h) && ss[j].pending[es[j].event.index].user == u
    && forall m :: j < m < n ==> !Leases(ss[m], es[m], h) && !Frees(ss[m], es[m], h)
  }

  ghost predicate Undisturbed(ss: seq<State>, es: seq<Overlap.Stamped>, i: nat, n: nat, h: HostId)
    requires i <= n <= |es| < |ss|
  {
    forall m :: i <= m < n ==> !Leases(ss[m], es[m], h) && !Frees(ss[m], es[m], h)
  }

  ghost predicate Taken(ss: seq<State>, es: seq<Overlap.Stamped>, i: nat, n: nat, u: UserId, h: HostId)
    requires i <= n <= |es| < |ss|
  {
    exists j: nat :: i <= j < n && TakenSince(ss, es, j, n, u, h)
  }

  lemma TakenStep(ss: seq<State>, es: seq<Overlap.Stamped>, i: nat, n: nat, u: UserId, h: HostId)
    requires i < n <= |es| < |ss|
    ensures Taken(ss, es, i, n, u, h) <==>
            || (Leases(ss[n - 1], es[n - 1], h) && ss[n - 1].pending[es[n - 1].event.index].user == u)
            || (Taken(ss, es, i, n - 1, u, h) && !Leases(ss[n - 1], es[n - 1], h) && !Frees(ss[n - 1], es[n - 1], h))
  {
    if Leases(ss[n - 1], es[n - 1], h) && ss[n - 1].pending[es[n - 1].event.index].user == u {
      assert TakenSince(ss, es, n - 1, n, u, h);
    }
    if Taken(ss, es, i, n - 1, u, h) && !Leases(ss[n - 1], es[n - 1], h) && !Frees(ss[n - 1], es[n - 1], h) {
      var j: nat :| i <= j < n - 1 && TakenSince(ss, es, j, n - 1, u, h);
      assert TakenSince(ss, es, j, n, u, h);
    }
    if Taken(ss, es, i, n, u, h) {
      var j: nat :| i <= j < n && TakenSince(ss, es, j, n, u, h);
      if j < n - 1 {
        assert TakenSince(ss, es, j, n - 1, u, h);
      }
    }
  }

  lemma OwnerStep(s: State, e: Overlap.Stamped, next: State, u: UserId, h: HostId)
    requires RowEffect(s, e, h, next)
    ensures Owner(next, h) == Some(u) <==>
            || (Leases(s, e, h) && s.pending[e.event.index].user == u)
            || (Owner(s, h) == Some(u) && !Leases(s, e, h) && !Frees(s, e, h))
  {
  }

  lemma {:induction false} HeldInRows(ss: seq<State>, es: seq<Overlap.Stamped>, i: nat, n: nat, u: UserId, h: HostId)
    requires RowRun(ss, es, h) && i <= n <= |es|
    ensures Owner(ss[n], h) == Some(u)
            <==> (Owner(ss[i], h) == Some(u) && Undisturbed(ss, es, i, n, h)) || Taken(ss, es, i, n, u, h)
    decreases n
  {
    if i < n {
      HeldInRows(ss, es, i, n - 1, u, h);
      OwnerStep(ss[n - 1], es[n - 1], ss[n], u, h);
      TakenStep(ss, es, i, n, u, h);
      assert Undisturbed(ss, es, i, n, h)
             <==> && Undisturbed(ss, es, i, n - 1, h)
                  && !Leases(ss[n - 1], es[n - 1], h) && !Frees(ss[n - 1], es[n - 1], h);
    }
  }

  /** `u` holds `h` at `n` exactly when `u` held it at `i` and nobody leased or freed it since, or the last such
      event since was a lease of `u`. */
  lemma HeldIff(default: nat, ss: seq<State>, es: seq<Overlap.Stamped>, i: nat, n: nat, u: UserId, h: HostId)
    requires IsRun(default, ss, es) && Consistent(ss[0].db) && i <= n <= |es| && h in ss[0].db.hosts
    ensures Owner(ss[n], h) == Some(u)
            <==> (Owner(ss[i], h) == Some(u) && Undisturbed(ss, es, i, n, h)) || Taken(ss, es, i, n, u, h)
  {
    RunIsRowRun(default, ss, es, h);
    HeldInRows(ss, es, i, n, u, h);
  }

  // ---------- the pool ----------

  /** `h` went back to the pool at step `j` and has not been leased up to `n`. */
  ghost predicate FreedSince(ss: seq<State>, es: seq<Overlap.Stamped>, j: nat, n: nat, h: HostId)
    requires j < n <= |es| < |ss|
  {
    && Frees(ss[j], es[j], h)
    && forall m :: j < m < n ==> !Leases(ss[m], es[m], h)
  }

  ghost predicate FreedWithin(ss: seq<State>, es: seq<Overlap.Stamped>, i: nat, n: nat, h: HostId)
    requires i <= n <= |es| < |ss|
  {
    exists j: nat :: i <= j < n && FreedSince(ss, es, j, n, h)
  }

  lemma FreedStep(ss: seq<State>, es: seq<Overlap.Stamped>, i: nat, n: nat, h: HostId)
    requires i < n <= |es| < |ss|
    ensures FreedWithin(ss, es, i, n, h) <==>
            Frees(ss[n - 1], es[n - 1], h) || (FreedWithin(ss, es, i, n - 1, h) && !Leases(ss[n - 1], es[n - 1], h))
  {
    if Frees(ss[n - 1], es[n - 1], h) {
      assert FreedSince(ss, es, n - 1, n, h);
    }
    if FreedWithin(ss, es, i, n - 1, h) && !Leases(ss[n - 1], es[n - 1], h) {
      var j: nat :| i <= j < n - 1 && FreedSince(ss, es, j, n - 1, h);
      assert FreedSince(ss, es, j, n, h);
    }
    if FreedWithin(ss, es, i, n, h) {
      var j: nat :| i <= j < n && FreedSince(ss, es, j, n, h);
      if j < n - 1 {
        assert FreedSince(ss, es, j, n - 1, h);
      }
    }
  }

  lemma PoolStep(s: State, e: Overlap.Stamped, next: State, h: HostId)
    requires RowEffect(s, e, h, next)
    ensures Owner(next, h).None? <==> Frees(s, e, h) || (Owner(s, h).None? && !Leases(s, e, h))
  {
  }

  lemma {:induction false} PooledInRows(ss: seq<State>, es: seq<Overlap.Stamped>, i: nat, n: nat, h: HostId)
    requires RowRun(ss, es, h) && i <= n <= |es| && Owner(ss[i], h).Some?
    ensures Owner(ss[n], h).None? <==> FreedWithin(ss, es, i, n, h)
    decreases n
  {
    if i < n {
      PooledInRows(ss, es, i, n - 1, h);
      PoolStep(ss[n - 1], es[n - 1], ss[n], h);
      FreedStep(ss, es, i, n, h);
    }
  }

  /** A host held at `i` is in the pool at `n` exactly when it was freed in between and not leased since. */
  lemma InPoolIff(default: nat, ss: seq<State>, es: seq<Overlap.Stamped>, i: nat, n: nat, h: HostId)
    requires IsRun(default, ss, es) && Consistent(ss[0].db) && i <= n <= |es| && h in ss[0].db.hosts
    requires h !in Available(ss[i].db.hosts)
    ensures h in Available(ss[n].db.hosts) <==> FreedWithin(ss, es, i, n, h)
  {
    RunIsRowRun(default, ss, es, h);
    OverlapKeepsTablesConsistent(default, ss, es, i);
    OverlapKeepsTablesConsistent(default, ss, es, n);
    PooledInRows(ss, es, i, n, h);
  }

  // ---------- the expiry ----------

  /** The expiry of `h` was written at step `j`, and its row has not been touched up to `n`. */
  ghost predicate RenewedSince(ss: seq<State>, es: seq<Overlap.Stamped>, j: nat, n: nat, h: HostId)
    requires j < n <= |es| < |ss|
  {
    && Renews(ss[j], es[j], h)
    && forall m :: j < m < n ==> !Touches(ss[m], es[m], h)
  }

  ghost predicate Untouched(ss: seq<State>, es: seq<Overlap.Stamped>, i: nat, n: nat, h: HostId)
    requires i <= n <= |es| < |ss|
  {
    forall m :: i <= m < n ==> !Touches(ss[m], es[m], h)
  }

  lemma {:induction false} UntouchedInRows(ss: seq<State>, es: seq<Overlap.Stamped>, i: nat, n: nat, h: HostId)
    requires RowRun(ss, es, h) && i <= n <= |es| && Untouched(ss, es, i, n, h)
    ensures Owner(ss[n], h) == Owner(ss[i], h) && Expiry(ss[n], h) == Expiry(ss[i], h)
    decreases n
  {
    if i < n {
      UntouchedInRows(ss, es, i, n - 1, h);
      assert RowEffect(ss[n - 1], es[n - 1], h, ss[n]);
    }
  }

  lemma UntouchedRow(default: nat, ss: seq<State>, es: seq<Overlap.Stamped>, i: nat, n: nat, h: HostId)
    requires IsRun(default, ss, es) && Consistent(ss[0].db) && i <= n <= |es| && h in ss[0].db.hosts
    requires Untouched(ss, es, i, n, h)
    ensures Owner(ss[n], h) == Owner(ss[i], h) && Expiry(ss[n], h) == Expiry(ss[i], h)
  {
    RunIsRowRun(default, ss, es, h);
    UntouchedInRows(ss, es, i, n, h);
  }

  lemma {:induction false} LastRenewalInRows(ss: seq<State>, es: seq<Overlap.Stamped>, i: nat, n: nat, h: HostId)
    returns (j: nat)
    requires RowRun(ss, es, h) && i <= n <= |es|
    requires Expiry(ss[n], h).Some? && !Untouched(ss, es, i, n, h)
    ensures i <= j < n && RenewedSince(ss, es, j, n, h) && Expiry(ss[j + 1], h) == Expiry(ss[n], h)
    decreases n
  {
    assert RowEffect(ss[n - 1], es[n - 1], h, ss[n]);
    if Renews(ss[n - 1], es[n - 1], h) {
      return n - 1;
    }
    j := LastRenewalInRows(ss, es, i, n - 1, h);
  }

  /** A leased host whose row was touched since `i` has a last renewal, and has the expiry that one wrote. */
  lemma LastRenewal(default: nat, ss: seq<State>, es: seq<Overlap.Stamped>, i: nat, n: nat, h: HostId) returns (j: nat)
    requires IsRun(default, ss, es) && Consistent(ss[0].db) && i <= n <= |es| && h in ss[0].db.hosts
    requires Expiry(ss[n], h).Some? && !Untouched(ss, es, i, n, h)
    ensures i <= j < n && RenewedSince(ss, es, j, n, h) && Expiry(ss[j + 1], h) == Expiry(ss[n], h)
  {
    RunIsRowRun(default, ss, es, h);
    j := LastRenewalInRows(ss, es, i, n, h);
  }

  /** A leased host has the expiry `t` exactly when it had it at `i` and its row was not touched since, or the
      last renewal since wrote it and nothing touched the row after that. */
  lemma ExpiryIff(default: nat, ss: seq<State>, es: seq<Overlap.Stamped>, i: nat, n: nat, h: HostId, t: Time)
    requires IsRun(default, ss, es) && Consistent(ss[0].db) && i <= n <= |es| && h in ss[0].db.hosts
    ensures Expiry(ss[n], h) == Some(t) <==>
            || (Expiry(ss[i], h) == Some(t) && Untouched(ss, es, i, n, h))
            || exists j: nat :: i <= j < n && RenewedSince(ss, es, j, n, h) && Expiry(ss[j + 1], h) == Some(t)
  {
    RunIsRowRun(default, ss, es, h);
    if Untouched(ss, es, i, n, h) {
      UntouchedInRows(ss, es, i, n, h);
    } else if Expiry(ss[n], h) == Some(t) {
      var j := LastRenewalInRows(ss, es, i, n, h);
    }
    if j: nat :| i <= j < n && RenewedSince(ss, es, j, n, h) && Expiry(ss[j + 1], h) == Some(t) {
      UntouchedInRows(ss, es, j + 1, n, h);
    }
  }
}
