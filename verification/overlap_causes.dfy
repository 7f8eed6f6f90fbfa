/** Expiry and ownership when transactions overlap: the guarantees of the atomic runs that survive, and exactly when
    the others fail. */
module OverlapCauses {
  import opened Types
  import opened Tables
  import opened Transactions
  import opened Overlap
  import opened OverlapBounds
  import opened OverlapRows
  import Runs

  // ---------- where the transactions in flight come from ----------

  /** This event read what the transaction `p` will write. */
  ghost predicate Reads(default: nat, s: State, e: Overlap.Stamped, p: Pending) {
    Begun(default, s.db, e) == Some(p)
  }

  lemma {:induction false} PendingWasRead(default: nat, ss: seq<State>, es: seq<Overlap.Stamped>, n: nat, p: Pending)
    requires IsRun(default, ss, es) && ss[0].pending == [] && n <= |es|
    requires p in ss[n].pending
    ensures exists i: nat :: i < n && Enabled(ss[i], es[i]) && Reads(default, ss[i], es[i], p)
  {
    if n > 0 {
      var s, e := ss[n - 1], es[n - 1];
      assert ss[n] == Next(default, s, e);
      if p in s.pending {
        PendingWasRead(default, ss, es, n - 1, p);
      } else {
        assert Reads(default, s, e, p);
      }
    }
  }

  lemma {:induction false} ClockNeverGoesBack(default: nat, ss: seq<State>, es: seq<Overlap.Stamped>, i: nat, k: nat)
    requires IsRun(default, ss, es) && i <= k < |es|
    ensures es[i].time <= es[k].time
    decreases k
  {
    if i < k {
      ClockNeverGoesBack(default, ss, es, i, k - 1);
      assert ss[k] == Next(default, ss[k - 1], es[k - 1]);
    }
  }

  /** Step `k` commits `p`. */
  ghost predicate Commits(s: State, e: Overlap.Stamped, p: Pending) {
    e.event.Commit? && e.event.index < |s.pending| && s.pending[e.event.index] == p
  }

  lemma CommitWasRead(default: nat, ss: seq<State>, es: seq<Overlap.Stamped>, k: nat, p: Pending) returns (i: nat)
    requires IsRun(default, ss, es) && ss[0].pending == [] && k < |es| && Commits(ss[k], es[k], p)
    ensures i < k && Enabled(ss[i], es[i]) && Reads(default, ss[i], es[i], p) && es[i].time <= es[k].time
  {
    assert p in ss[k].pending;
    PendingWasRead(default, ss, es, k, p);
    i :| i < k && Enabled(ss[i], es[i]) && Reads(default, ss[i], es[i], p);
    ClockNeverGoesBack(default, ss, es, i, k);
  }

  // ---------- a random lease that takes a host from somebody ----------

  /** A random lease picks a host from the pool, and its update does not look at the owner again. When it
      commits, it takes the host away from `v` exactly when a lease of `v` got the host in between, and
      nobody leased or freed it after that. */
  lemma RandomLeaseTakesIff(default: nat, ss: seq<State>, es: seq<Overlap.Stamped>, i: nat, k: nat, p: Pending, h: HostId, v: UserId)
    requires IsRun(default, ss, es) && Consistent(ss[0].db) && i < k < |es|
    requires es[i].event.CheckRandom? && Reads(default, ss[i], es[i], p) && es[i].event.pick == Some(h)
    requires Commits(ss[k], es[k], p) && p.user in ss[k].db.users
    ensures h in OwnedBy(ss[k].db.hosts, v) <==> exists j: nat :: i < j < k && TakenSince(ss, es, j, k, v, h)
    ensures OwnedBy(ss[k + 1].db.hosts, p.user) == OwnedBy(ss[k].db.hosts, p.user) + {h}
    ensures v != p.user ==> OwnedBy(ss[k + 1].db.hosts, v) == OwnedBy(ss[k].db.hosts, v) - {h}
  {
    OverlapKeepsTablesConsistent(default, ss, es, i);
    OverlapKeepsTablesConsistent(default, ss, es, k);
    assert Owner(ss[i], h) == None && h in ss[0].db.hosts;
    HeldIff(default, ss, es, i, k, v, h);
    if Taken(ss, es, i, k, v, h) {
      var j: nat :| i <= j < k && TakenSince(ss, es, j, k, v, h);
      assert j != i;
    }
    assert p.wanted == {h};
    LeaseMoves(ss[k].db.hosts, {h}, p.user, es[k].time + p.lasting, v);
    assert {h} * ss[k].db.hosts.Keys == {h};
    assert ss[k + 1] == Next(default, ss[k], es[k]);
  }

  // ---------- a release pass that frees too early ----------

  /** A release pass frees a host that is not expired when it commits, exactly when after its read a lease or an
      extension gave the host an expiry that late, and nothing touched the row after that. */
  lemma EarlyReleaseIff(default: nat, ss: seq<State>, es: seq<Overlap.Stamped>, k: nat, p: Pending, h: HostId)
    requires IsRun(default, ss, es) && Consistent(ss[0].db) && ss[0].pending == [] && k < |es|
    requires p.Releasing? && Commits(ss[k], es[k], p) && h in p.found
    ensures Expiry(ss[k], h).Some? && Expiry(ss[k], h).value >= es[k].time
            <==> exists i: nat, j: nat :: i < j < k && Reads(default, ss[i], es[i], p) && RenewedSince(ss, es, j, k, h)
                   && Expiry(ss[j + 1], h).Some? && Expiry(ss[j + 1], h).value >= es[k].time
  {
    var i := CommitWasRead(default, ss, es, k, p);
    OverlapKeepsTablesConsistent(default, ss, es, i);
    assert h in ss[0].db.hosts;
    if Expiry(ss[k], h).Some? && Expiry(ss[k], h).value >= es[k].time {
      if Untouched(ss, es, i, k, h) {
        UntouchedRow(default, ss, es, i, k, h);
      } else {
        var j := LastRenewal(default, ss, es, i, k, h);
        assert j != i;
      }
    }
    if j: nat :| j < k && RenewedSince(ss, es, j, k, h) && Expiry(ss[j + 1], h).Some? && Expiry(ss[j + 1], h).value >= es[k].time {
      UntouchedRow(default, ss, es, j + 1, k, h);
    }
  }

  // ---------- an extension that passes the horizon ----------

  /** The extension committed at `k` was overtaken: after it read, a renewal gave `h` an expiry that, with the
      hours on top, lies further ahead than `bound`. */
  ghost predicate Overtaken(default: nat, ss: seq<State>, es: seq<Overlap.Stamped>, k: nat, p: Pending, h: HostId, bound: Time)
    requires k < |es| < |ss| && p.Extending?
  {
    exists i: nat, j: nat :: i < j < k && Reads(default, ss[i], es[i], p) && RenewedSince(ss, es, j, k, h)
      && Expiry(ss[j + 1], h).Some? && Expiry(ss[j + 1], h).value + Hours(p.plus) > es[k].time + bound
  }

  /** The extension does not read the expiry again when it adds its hours. It takes a host past a bound that no
      extension of a host in the window reaches, exactly when it was overtaken. */
  lemma ExtensionPassesIff(default: nat, ss: seq<State>, es: seq<Overlap.Stamped>, k: nat, p: Pending, h: HostId, bound: Time)
    requires IsRun(default, ss, es) && Consistent(ss[0].db) && ss[0].pending == [] && k < |es|
    requires p.Extending? && Commits(ss[k], es[k], p) && h in p.ids
    requires bound >= EXPIRATION_NOTIFY_WINDOW + Hours(p.plus)
    ensures Expiry(ss[k + 1], h).Some? && Expiry(ss[k + 1], h).value > es[k].time + bound
            <==> Overtaken(default, ss, es, k, p, h, bound)
  {
    var i := CommitWasRead(default, ss, es, k, p);
    OverlapKeepsTablesConsistent(default, ss, es, i);
    assert h in ss[0].db.hosts;
    RunRow(default, ss, es, k, h);
    if Expiry(ss[k + 1], h).Some? && Expiry(ss[k + 1], h).value > es[k].time + bound {
      if Untouched(ss, es, i, k, h) {
        UntouchedRow(default, ss, es, i, k, h);
      } else {
        var j := LastRenewal(default, ss, es, i, k, h);
        assert j != i;
      }
    }
    if Overtaken(default, ss, es, k, p, h, bound) {
      var i0: nat, j: nat :| i0 < j < k && Reads(default, ss[i0], es[i0], p) && RenewedSince(ss, es, j, k, h)
        && Expiry(ss[j + 1], h).Some? && Expiry(ss[j + 1], h).value + Hours(p.plus) > es[k].time + bound;
      UntouchedRow(default, ss, es, j + 1, k, h);
    }
  }

  ghost predicate Within(s: State, bound: Time) {
    forall h :: h in s.db.hosts && Expiry(s, h).Some? ==> Expiry(s, h).value <= s.now + bound
  }

  /** Some extension committed before `n` was overtaken. */
  ghost predicate SomeOvertaken(default: nat, ss: seq<State>, es: seq<Overlap.Stamped>, n: nat, bound: Time)
    requires n <= |es| < |ss|
  {
    exists k: nat, p: Pending, h :: k < n && p.Extending? && Commits(ss[k], es[k], p) && h in p.ids
      && Overtaken(default, ss, es, k, p, h, bound)
  }

  lemma WithinStep(default: nat, ss: seq<State>, es: seq<Overlap.Stamped>, k: nat, maxPlus: nat)
    requires IsRun(default, ss, es) && Consistent(ss[0].db) && ss[0].pending == [] && k < |es|
    requires forall i :: 0 <= i < |es| && es[i].event.ReadExpiring? ==> es[i].event.plus <= maxPlus
    requires Within(ss[k], Runs.Horizon(maxPlus)) && !Within(ss[k + 1], Runs.Horizon(maxPlus))
    ensures SomeOvertaken(default, ss, es, k + 1, Runs.Horizon(maxPlus))
  {
    var bound := Runs.Horizon(maxPlus);
    ModerateHolds(default, ss, es, k, maxPlus);
    OverlapKeepsTablesConsistent(default, ss, es, k + 1);
    assert ss[k + 1] == Next(default, ss[k], es[k]);
    var h :| h in ss[k + 1].db.hosts && Expiry(ss[k + 1], h).Some? && Expiry(ss[k + 1], h).value > ss[k + 1].now + bound;
    RunRow(default, ss, es, k, h);
    assert Extends(ss[k], es[k], h);
    var p := ss[k].pending[es[k].event.index];
    assert p in ss[k].pending;
    ExtensionPassesIff(default, ss, es, k, p, h, bound);
  }

  /** A run whose transactions overlap keeps the horizon of the atomic runs, up to any of its states, exactly when
      no extension before was overtaken. */
  lemma {:induction false} HorizonHoldsIff(default: nat, ss: seq<State>, es: seq<Overlap.Stamped>, n: nat, maxPlus: nat)
    requires IsRun(default, ss, es) && Consistent(ss[0].db) && ss[0].pending == [] && n <= |es|
    requires Within(ss[0], Runs.Horizon(maxPlus))
    requires forall i :: 0 <= i < |es| && es[i].event.ReadExpiring? ==> es[i].event.plus <= maxPlus
    ensures (forall m :: 0 <= m <= n ==> Within(ss[m], Runs.Horizon(maxPlus)))
            <==> !SomeOvertaken(default, ss, es, n, Runs.Horizon(maxPlus))
  {
    var bound := Runs.Horizon(maxPlus);
    if n > 0 {
      HorizonHoldsIff(default, ss, es, n - 1, maxPlus);
      if SomeOvertaken(default, ss, es, n, bound) {
        var k: nat, p: Pending, h :| k < n && p.Extending? && Commits(ss[k], es[k], p) && h in p.ids
          && Overtaken(default, ss, es, k, p, h, bound);
        OvertakenLeaves(default, ss, es, k, p, h, maxPlus);
      } else {
        if !Within(ss[n], bound) {
          WithinStep(default, ss, es, n - 1, maxPlus);
        }
      }
    }
  }

  lemma OvertakenLeaves(default: nat, ss: seq<State>, es: seq<Overlap.Stamped>, k: nat, p: Pending, h: HostId, maxPlus: nat)
    requires IsRun(default, ss, es) && Consistent(ss[0].db) && ss[0].pending == [] && k < |es|
    requires forall i :: 0 <= i < |es| && es[i].event.ReadExpiring? ==> es[i].event.plus <= maxPlus
    requires p.Extending? && Commits(ss[k], es[k], p) && h in p.ids
    requires Overtaken(default, ss, es, k, p, h, Runs.Horizon(maxPlus))
    ensures !Within(ss[k + 1], Runs.Horizon(maxPlus))
  {
    ModerateHolds(default, ss, es, k, maxPlus);
    assert p in ss[k].pending;
    ExtensionPassesIff(default, ss, es, k, p, h, Runs.Horizon(maxPlus));
    assert ss[k + 1] == Next(default, ss[k], es[k]);
  }

  // ---------- the expiry floor survives ----------

  lemma ExpiresAnewStep(default: nat, ss: seq<State>, es: seq<Overlap.Stamped>, k: nat, t: Time, h: HostId)
    requires IsRun(default, ss, es) && Consistent(ss[0].db) && ss[0].pending == [] && k < |es| && h in ss[0].db.hosts
    requires t <= ss[k].now && Expiry(ss[k + 1], h).Some? && Expiry(ss[k + 1], h).value < t
    ensures Expiry(ss[k], h).Some? && Expiry(ss[k], h).value < t
  {
    RunRow(default, ss, es, k, h);
    if Leases(ss[k], es[k], h) {
      var _ := CommitWasRead(default, ss, es, k, ss[k].pending[es[k].event.index]);
    }
  }

  lemma {:induction false} NowNeverGoesBack(default: nat, ss: seq<State>, es: seq<Overlap.Stamped>, i: nat, n: nat)
    requires IsRun(default, ss, es) && i <= n <= |es|
    ensures ss[i].now <= ss[n].now
    decreases n
  {
    if i < n {
      NowNeverGoesBack(default, ss, es, i, n - 1);
      assert ss[n] == Next(default, ss[n - 1], es[n - 1]);
    }
  }

  ghost predicate ExpiresBefore(s: State, t: Time, h: HostId) {
    Expiry(s, h).Some? && Expiry(s, h).value < t
  }

  lemma {:induction false} Backwards(ss: seq<State>, i: nat, n: nat, t: Time, h: HostId)
    requires i <= n < |ss| && ExpiresBefore(ss[n], t, h)
    requires forall k :: i <= k < n && ExpiresBefore(ss[k + 1], t, h) ==> ExpiresBefore(ss[k], t, h)
    ensures ExpiresBefore(ss[i], t, h)
    decreases n
  {
    if i < n {
      assert ExpiresBefore(ss[n - 1 + 1], t, h);
      Backwards(ss, i, n - 1, t, h);
    }
  }

  /** A host that expires before a time already past did so all along. */
  lemma ExpiredAllAlong(default: nat, ss: seq<State>, es: seq<Overlap.Stamped>, i: nat, n: nat, t: Time, h: HostId)
    requires IsRun(default, ss, es) && Consistent(ss[0].db) && ss[0].pending == [] && i <= n <= |es| && h in ss[0].db.hosts
    requires t <= ss[i].now && ExpiresBefore(ss[n], t, h)
    ensures ExpiresBefore(ss[i], t, h)
  {
    forall k | i <= k < n && ExpiresBefore(ss[k + 1], t, h) ensures ExpiresBefore(ss[k], t, h) {
      NowNeverGoesBack(default, ss, es, i, k);
      ExpiresAnewStep(default, ss, es, k, t, h);
    }
    Backwards(ss, i, n, t, h);
  }

  /** Once a pass that read at time t has committed, no owned host ever again has an expiry before t,
      whatever overlapped the pass and whatever follows. */
  lemma OverlapFloor(default: nat, ss: seq<State>, es: seq<Overlap.Stamped>, i: nat, k: nat, n: nat, p: Pending, h: HostId)
    requires IsRun(default, ss, es) && Consistent(ss[0].db) && ss[0].pending == [] && i < k < n <= |es|
    requires es[i].event.ReadExpired? && Reads(default, ss[i], es[i], p) && Commits(ss[k], es[k], p)
    requires Owner(ss[n], h).Some?
    ensures Expiry(ss[n], h).Some? && Expiry(ss[n], h).value >= es[i].time
  {
    var t := es[i].time;
    OverlapKeepsTablesConsistent(default, ss, es, n);
    OverlapKeepsTablesConsistent(default, ss, es, i);
    RunRow(default, ss, es, k, h);
    assert ss[i + 1] == Next(default, ss[i], es[i]);
    assert Expiry(ss[i], h).Some? && Expiry(ss[i], h).value < t ==> h in p.found;
    if Expiry(ss[n], h).value < t {
      NowNeverGoesBack(default, ss, es, i + 1, k + 1);
      ExpiredAllAlong(default, ss, es, k + 1, n, t, h);
      ExpiredAllAlong(default, ss, es, i + 1, k + 1, t, h);
    }
  }

  // ---------- lease time that goes down ----------

  lemma NotHeldWhenChecked(default: nat, s: State, e: Overlap.Stamped, p: Pending, h: HostId)
    requires Enabled(s, e) && Consistent(s.db) && Reads(default, s, e, p)
    requires p.Leasing? && h in p.wanted
    ensures Owner(s, h) != Some(p.user)
  {
    if e.event.CheckLease? {
      LeaseCheckPassesIff(s.db, default, e.event.user, e.event.groups, e.event.ids);
    }
  }

  /** A host that keeps its owner can still lose lease time under overlap, exactly when its owner has leased it
      twice at once: a lease of `u` commits that was checked before another lease of `u` got the host, and ends
      earlier than what the host had. */
  lemma LeaseTimeFallsIff(default: nat, ss: seq<State>, es: seq<Overlap.Stamped>, k: nat, u: UserId, h: HostId)
    requires IsRun(default, ss, es) && Consistent(ss[0].db) && ss[0].pending == [] && k < |es|
    requires Owner(ss[k], h) == Some(u) && Owner(ss[k + 1], h) == Some(u)
    ensures Expiry(ss[k], h).Some? && Expiry(ss[k + 1], h).Some?
    ensures Expiry(ss[k + 1], h).value < Expiry(ss[k], h).value <==>
              exists p: Pending, i: nat, j: nat :: i < j < k
                && Reads(default, ss[i], es[i], p) && TakenSince(ss, es, j, k, u, h)
                && Commits(ss[k], es[k], p) && p.Leasing? && p.user == u && h in p.wanted
                && es[k].time + p.lasting < Expiry(ss[k], h).value
  {
    OverlapKeepsTablesConsistent(default, ss, es, k);
    RunRow(default, ss, es, k, h);
    OverlapKeepsTablesConsistent(default, ss, es, k + 1);
    if Expiry(ss[k + 1], h).value < Expiry(ss[k], h).value {
      assert Leases(ss[k], es[k], h);
      var p := ss[k].pending[es[k].event.index];
      var i := CommitWasRead(default, ss, es, k, p);
      OverlapKeepsTablesConsistent(default, ss, es, i);
      NotHeldWhenChecked(default, ss[i], es[i], p, h);
      HeldIff(default, ss, es, i, k, u, h);
      var j: nat :| i <= j < k && TakenSince(ss, es, j, k, u, h);
      assert j != i;
    }
    if p: Pending :| Commits(ss[k], es[k], p) && p.Leasing? && h in p.wanted && es[k].time + p.lasting < Expiry(ss[k], h).value {
      assert Owner(ss[k + 1], h) == Some(u);
    }
  }

  lemma {:induction false} KeptInRows(ss: seq<State>, es: seq<Overlap.Stamped>, i: nat, n: nat, u: UserId, h: HostId)
    requires RowRun(ss, es, h) && i <= n <= |es|
    requires forall m :: i <= m <= n ==> Owner(ss[m], h) == Some(u)
    requires forall m :: i <= m < n ==> !Leases(ss[m], es[m], h)
    ensures Expiry(ss[i], h).Some? && Expiry(ss[n], h).Some? && Expiry(ss[i], h).value <= Expiry(ss[n], h).value
    decreases n
  {
    if i < n {
      KeptInRows(ss, es, i, n - 1, u, h);
      assert RowEffect(ss[n - 1], es[n - 1], h, ss[n]);
    }
  }

  /** Between leases of its own owner a kept host never loses lease time, whatever overlaps. */
  lemma KeptLeaseTime(default: nat, ss: seq<State>, es: seq<Overlap.Stamped>, i: nat, n: nat, u: UserId, h: HostId)
    requires IsRun(default, ss, es) && Consistent(ss[0].db) && i <= n <= |es|
    requires forall m :: i <= m <= n ==> Owner(ss[m], h) == Some(u)
    requires forall m :: i <= m < n ==> !Leases(ss[m], es[m], h)
    ensures Expiry(ss[i], h).Some? && Expiry(ss[n], h).Some? && Expiry(ss[i], h).value <= Expiry(ss[n], h).value
  {
    OverlapKeepsTablesConsistent(default, ss, es, i);
    RunIsRowRun(default, ss, es, h);
    KeptInRows(ss, es, i, n, u, h);
  }
}
