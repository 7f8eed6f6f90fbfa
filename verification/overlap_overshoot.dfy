/** Exactly when a user exceeds the lease limit in a run whose transactions overlap. */
module OverlapOvershoot {
  import opened Types
  import opened Tables
  import opened Overlap
  import opened OverlapBounds
  import opened OverlapRows
  import opened OverlapCauses

  /** The hosts `u` held at step `i` and kept up to `k`, and those a lease of `u` got in between that still stands. */
  ghost function KeptOrTaken(ss: seq<State>, es: seq<Overlap.Stamped>, i: nat, k: nat, u: UserId): set<HostId>
    requires i <= k <= |es| < |ss|
  {
    set h | h in ss[0].db.hosts &&
      ((Owner(ss[i], h) == Some(u) && Undisturbed(ss, es, i, k, h)) || Taken(ss, es, i, k, u, h))
  }

  lemma HeldAre(default: nat, ss: seq<State>, es: seq<Overlap.Stamped>, i: nat, k: nat, u: UserId)
    requires IsRun(default, ss, es) && Consistent(ss[0].db) && i <= k <= |es|
    ensures OwnedBy(ss[k].db.hosts, u) == KeptOrTaken(ss, es, i, k, u)
  {
    OverlapKeepsTablesConsistent(default, ss, es, k);
    forall h | h in ss[0].db.hosts
      ensures Owner(ss[k], h) == Some(u)
              <==> (Owner(ss[i], h) == Some(u) && Undisturbed(ss, es, i, k, h)) || Taken(ss, es, i, k, u, h)
    {
      HeldIff(default, ss, es, i, k, u, h);
    }
  }

  /** A lease committed at `k` leaves its user above the limit: what the user kept since the check and what else the
      user got since, together with the existing hosts it asks for, is more than the limit. */
  ghost predicate Overshoots(default: nat, ss: seq<State>, es: seq<Overlap.Stamped>, i: nat, k: nat, p: Pending, limit: nat)
    requires i <= k < |es| < |ss| && p.Leasing?
  {
    && p.user in ss[k].db.users
    && |KeptOrTaken(ss, es, i, k, p.user) + p.wanted * ss[0].db.hosts.Keys| > limit
  }

  lemma CommitHolds(db: Db, p: Pending, now: Time)
    requires p.Leasing? && p.user in db.users
    ensures OwnedBy(Written(db, p, now).hosts, p.user) == OwnedBy(db.hosts, p.user) + p.wanted * db.hosts.Keys
  {
    LeaseMoves(db.hosts, p.wanted, p.user, now + p.lasting, p.user);
  }

  lemma UnknownHoldsNothing(db: Db, p: Pending, now: Time)
    requires Consistent(db) && p.Leasing? && p.user !in db.users
    ensures OwnedBy(Written(db, p, now).hosts, p.user) == {}
  {
    WrittenConsistent(db, p, now);
    assert forall h :: h in Written(db, p, now).hosts ==> Written(db, p, now).hosts[h].userId != Some(p.user);
  }

  /** The commit of a lease that was checked at `i` leaves its user above `limit` exactly when it overshoots. */
  lemma CommitOvershootsIff(default: nat, ss: seq<State>, es: seq<Overlap.Stamped>, i: nat, k: nat, p: Pending, limit: nat)
    requires IsRun(default, ss, es) && Consistent(ss[0].db) && i <= k < |es|
    requires p.Leasing? && Commits(ss[k], es[k], p)
    ensures |OwnedBy(ss[k + 1].db.hosts, p.user)| > limit <==> Overshoots(default, ss, es, i, k, p, limit)
  {
    OverlapKeepsTablesConsistent(default, ss, es, k);
    HeldAre(default, ss, es, i, k, p.user);
    assert ss[k + 1] == Next(default, ss[k], es[k]);
    if p.user in ss[k].db.users {
      CommitHolds(ss[k].db, p, es[k].time);
    } else {
      UnknownHoldsNothing(ss[k].db, p, es[k].time);
    }
  }

  lemma Fits(kept: set<HostId>, wanted: set<HostId>, owned: set<HostId>, known: set<HostId>)
    requires kept <= owned + wanted
    ensures |kept + wanted * known| <= |owned| + |wanted|
  {
    assert |owned + wanted| + |owned * wanted| == |owned| + |wanted|;
    assert kept + wanted * known <= owned + wanted;
    assert owned + wanted == (kept + wanted * known) + ((owned + wanted) - (kept + wanted * known));
  }

  /** That has one cause: after the check another lease of the same user got a host that this one does not ask
      for, and the host is still held. */
  lemma OvershootHasACause(default: nat, ss: seq<State>, es: seq<Overlap.Stamped>, i: nat, k: nat, p: Pending, limit: nat)
    requires IsRun(default, ss, es) && Consistent(ss[0].db) && i < k < |es| && p.Leasing?
    requires Reads(default, ss[i], es[i], p) && Overshoots(default, ss, es, i, k, p, limit)
    requires LimitedTo(default, ss[0].db.limits, es[i], p.user, limit)
    ensures exists h :: h in ss[0].db.hosts && h !in p.wanted && Taken(ss, es, i, k, p.user, h)
  {
    OverlapKeepsTablesConsistent(default, ss, es, i);
    var owned, kept := OwnedBy(ss[i].db.hosts, p.user), KeptOrTaken(ss, es, i, k, p.user);
    BeginsWithinLimit(default, ss[i], es[i], p.user, limit);
    if forall h :: h in ss[0].db.hosts && Taken(ss, es, i, k, p.user, h) ==> h in p.wanted {
      assert kept <= owned + p.wanted;
      Fits(kept, p.wanted, owned, ss[0].db.hosts.Keys);
    }
  }

  /** Some lease of `u` committed before `n` overshot. */
  ghost predicate SomeOvershoot(default: nat, ss: seq<State>, es: seq<Overlap.Stamped>, n: nat, u: UserId, limit: nat)
    requires n <= |es| < |ss|
  {
    exists i: nat, k: nat, p: Pending :: i < k < n && p.Leasing? && p.user == u && Reads(default, ss[i], es[i], p)
      && Commits(ss[k], es[k], p) && Overshoots(default, ss, es, i, k, p, limit)
  }

  lemma CountStep(default: nat, s: State, e: Overlap.Stamped, u: UserId)
    requires Enabled(s, e)
    requires |OwnedBy(Next(default, s, e).db.hosts, u)| > |OwnedBy(s.db.hosts, u)|
    ensures e.event.Commit? && s.pending[e.event.index].Leasing? && s.pending[e.event.index].user == u
  {
    match e.event
    case Commit(i) => CommitAddsAtMost(s.db, s.pending[i], e.time, u);
    case Free(v, ids) => FreeMovesExactly(s.db.hosts, SetOf(ids), v, u);
    case FreeAll(v) => FreeMovesExactly(s.db.hosts, {}, v, u);
    case _ =>
  }

  lemma LimitStep(default: nat, ss: seq<State>, es: seq<Overlap.Stamped>, k: nat, u: UserId, limit: nat)
    requires IsRun(default, ss, es) && Consistent(ss[0].db) && ss[0].pending == [] && k < |es|
    requires |OwnedBy(ss[k].db.hosts, u)| <= limit < |OwnedBy(ss[k + 1].db.hosts, u)|
    ensures SomeOvershoot(default, ss, es, k + 1, u, limit)
  {
    assert Enabled(ss[k], es[k]) && ss[k + 1] == Next(default, ss[k], es[k]);
    CountStep(default, ss[k], es[k], u);
    var p := ss[k].pending[es[k].event.index];
    var i := CommitWasRead(default, ss, es, k, p);
    CommitOvershootsIff(default, ss, es, i, k, p, limit);
  }

  /** A user who starts within the limit stays within it, up to any state of a run whose transactions overlap, exactly
      when no lease of the user overshoots before. */
  lemma {:induction false} LimitHoldsIff(default: nat, ss: seq<State>, es: seq<Overlap.Stamped>, n: nat, u: UserId, limit: nat)
    requires IsRun(default, ss, es) && Consistent(ss[0].db) && ss[0].pending == [] && n <= |es|
    requires |OwnedBy(ss[0].db.hosts, u)| <= limit
    ensures (forall m :: 0 <= m <= n ==> |OwnedBy(ss[m].db.hosts, u)| <= limit)
            <==> !SomeOvershoot(default, ss, es, n, u, limit)
  {
    if n > 0 {
      LimitHoldsIff(default, ss, es, n - 1, u, limit);
      if SomeOvershoot(default, ss, es, n, u, limit) {
        var i: nat, k: nat, p: Pending :| i < k < n && p.Leasing? && p.user == u && Reads(default, ss[i], es[i], p)
          && Commits(ss[k], es[k], p) && Overshoots(default, ss, es, i, k, p, limit);
        CommitOvershootsIff(default, ss, es, i, k, p, limit);
      } else {
        if |OwnedBy(ss[n].db.hosts, u)| > limit && |OwnedBy(ss[n - 1].db.hosts, u)| <= limit {
          LimitStep(default, ss, es, n - 1, u, limit);
        }
      }
    }
  }
}
