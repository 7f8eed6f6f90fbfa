/** The horizon of overlapping runs is exact: `k` stale extensions of one host, by `k` users, reach it. */
module OverlapHorizons {
  import opened Types
  import opened Durations
  import opened Tables
  import opened Overlap
  import opened OverlapBounds
  import opened OverlapLimits

  function Copies(p: Pending, n: nat): seq<Pending> {
    seq(n, _ => p)
  }

  lemma {:induction false} CopiesCount(p: Pending, n: nat)
    requires p.Extending?
    ensures Total(Extensions(), Copies(p, n)) == n
  {
    if n > 0 {
      CopiesCount(p, n - 1);
      assert Copies(p, n)[1..] == Copies(p, n - 1);
    }
  }

  lemma CopiesAndLease(p: Pending, n: nat, q: Pending)
    requires p.Extending? && q.Leasing?
    ensures Total(Extensions(), Copies(p, n) + [q]) == n
    ensures Without(Copies(p, n) + [q], n) == Copies(p, n)
  {
    CopiesCount(p, n);
    TotalBegins(Extensions(), Copies(p, n), q);
  }

  /** The table after the same extension has been written `n` times. */
  function Stretched(hosts: Hosts, ids: set<HostId>, plus: nat, n: nat): Hosts {
    if n == 0 then hosts else ExtendHosts(Stretched(hosts, ids, plus, n - 1), ids, plus)
  }

  lemma {:induction false} StretchedExpiry(hosts: Hosts, ids: set<HostId>, plus: nat, n: nat, h: HostId, t: Time)
    requires h in ids && h in hosts && hosts[h].leasedUntil == Some(t)
    ensures h in Stretched(hosts, ids, plus, n) && Stretched(hosts, ids, plus, n)[h].leasedUntil == Some(t + Hours(n * plus))
  {
    if n > 0 {
      StretchedExpiry(hosts, ids, plus, n - 1, h, t);
      OneMore(n - 1, plus);
    }
  }

  // ---------- a run under construction ----------

  /** The presses of the run are all of `plus` hours, at most one by each user, and only by users in `us`. */
  ghost predicate PressedOnce(es: seq<Overlap.Stamped>, us: set<UserId>, plus: nat) {
    && (forall i :: 0 <= i < |es| && es[i].event.ReadExpiring? ==> es[i].event.plus == plus && es[i].event.user in us)
    && (forall i, j :: 0 <= i < j < |es| && es[i].event.ReadExpiring? && es[j].event.ReadExpiring? ==>
          es[i].event.user != es[j].event.user)
  }

  ghost predicate Script(default: nat, db: Db, now: Time, ss: seq<State>, es: seq<Overlap.Stamped>, us: set<UserId>, plus: nat, k: nat) {
    && IsRun(default, ss, es) && ss[0] == State(db, now, [])
    && (forall i :: 0 <= i < |ss| ==> Total(Extensions(), ss[i].pending) <= k)
    && PressedOnce(es, us, plus)
  }

  lemma Continue(default: nat, db: Db, now: Time, ss: seq<State>, es: seq<Overlap.Stamped>, us: set<UserId>, plus: nat, k: nat,
                 e: Overlap.Stamped, t: State, vs: set<UserId>, m: nat)
    requires Script(default, db, now, ss, es, us, plus, k) && Step(default, ss[|es|], e, t)
    requires k <= m && Total(Extensions(), t.pending) <= m
    requires if e.event.ReadExpiring? then e.event.plus == plus && e.event.user !in us && vs == us + {e.event.user} else vs == us
    ensures Script(default, db, now, ss + [t], es + [e], vs, plus, m)
  {
    Append(default, ss, es, e, t);
  }

  // ---------- the host passes from user to user ----------

  /** A known user who holds nothing. */
  predicate Idle(db: Db, u: UserId) {
    u in db.users && OwnedBy(db.hosts, u) == {}
  }

  /** The tables with `h` leased to `u` until `until`. */
  function LeasedTo(db: Db, h: HostId, u: UserId, until: Time): Db {
    db.(hosts := LeaseHosts(db.hosts, {h}, u, until))
  }

  /** `h` is in the pool, or somebody else got it after that. */
  ghost predicate HadBefore(db: Db, d: Db, h: HostId, u: UserId, now: Time) {
    d == db || exists v :: v != u && d == LeasedTo(db, h, v, now)
  }

  lemma LeaseBeginsFor(default: nat, db: Db, d: Db, now: Time, h: HostId, u: UserId, days: nat, hours: nat)
    requires default >= 1 && h in db.hosts && Idle(db, u) && HadBefore(db, d, h, u, now)
    requires LeaseDuration(days, hours).Ok?
    ensures var lasting := LeaseDuration(days, hours).value;
            && Begun(default, d, Overlap.At(now, CheckLease(u, [], [h], days, hours))) == Some(Leasing(u, {h}, lasting))
            && Written(d, Leasing(u, {h}, lasting), now) == LeasedTo(db, h, u, now + lasting)
  {
    var lasting := LeaseDuration(days, hours).value;
    assert OwnedBy(d.hosts, u) == {} by {
      assert forall x :: x in d.hosts && x in db.hosts ==> x !in OwnedBy(db.hosts, u);
    }
    assert SetOf([h]) == {h} by { assert h in [h]; }
    assert LeaseHosts(d.hosts, {h}, u, now + lasting) == LeaseHosts(db.hosts, {h}, u, now + lasting);
  }

  lemma OnlyHostExpiring(db: Db, h: HostId, u: UserId, now: Time)
    requires h in db.hosts && Idle(db, u)
    ensures ExpiringOf(LeasedTo(db, h, u, now).hosts, u, now + EXPIRATION_NOTIFY_WINDOW) == {h}
  {
    var hosts := LeasedTo(db, h, u, now).hosts;
    assert h in ExpiringBefore(hosts, now + EXPIRATION_NOTIFY_WINDOW);
    assert forall x :: x in db.hosts ==> x !in OwnedBy(db.hosts, u);
  }

  lemma LeaseChecked(default: nat, db: Db, d: Db, now: Time, ss: seq<State>, es: seq<Overlap.Stamped>, us: set<UserId>, plus: nat, n: nat,
                     u: UserId, h: HostId, days: nat, hours: nat) returns (ts: seq<State>, fs: seq<Overlap.Stamped>)
    requires default >= 1 && h in db.hosts && Idle(db, u) && HadBefore(db, d, h, u, now) && LeaseDuration(days, hours).Ok?
    requires Script(default, db, now, ss, es, us, plus, n)
    requires ss[|es|] == State(d, now, Copies(Extending({h}, plus), n))
    ensures Script(default, db, now, ts, fs, us, plus, n)
    ensures ts[|fs|] == State(d, now, Copies(Extending({h}, plus), n) + [Leasing(u, {h}, LeaseDuration(days, hours).value)])
  {
    var p, q := Extending({h}, plus), Leasing(u, {h}, LeaseDuration(days, hours).value);
    var e, t := Overlap.At(now, CheckLease(u, [], [h], days, hours)), State(d, now, Copies(p, n) + [q]);
    LeaseBeginsFor(default, db, d, now, h, u, days, hours);
    CopiesAndLease(p, n, q);
    Continue(default, db, now, ss, es, us, plus, n, e, t, us, n);
    ts, fs := ss + [t], es + [e];
  }

  lemma CommitOfLast(default: nat, d: Db, now: Time, p: Pending, n: nat, q: Pending)
    requires p.Extending? && q.Leasing?
    ensures Step(default, State(d, now, Copies(p, n) + [q]), Overlap.At(now, Commit(n)), State(Written(d, q, now), now, Copies(p, n)))
  {
    CopiesAndLease(p, n, q);
  }

  lemma LeaseCommitted(default: nat, db: Db, d: Db, now: Time, ss: seq<State>, es: seq<Overlap.Stamped>, us: set<UserId>, plus: nat, n: nat,
                       u: UserId, h: HostId, days: nat, hours: nat) returns (ts: seq<State>, fs: seq<Overlap.Stamped>)
    requires default >= 1 && h in db.hosts && Idle(db, u) && HadBefore(db, d, h, u, now) && LeaseDuration(days, hours).Ok?
    requires Script(default, db, now, ss, es, us, plus, n)
    requires ss[|es|] == State(d, now, Copies(Extending({h}, plus), n) + [Leasing(u, {h}, LeaseDuration(days, hours).value)])
    ensures Script(default, db, now, ts, fs, us, plus, n)
    ensures ts[|fs|] == State(LeasedTo(db, h, u, now + LeaseDuration(days, hours).value), now, Copies(Extending({h}, plus), n))
  {
    var p, q := Extending({h}, plus), Leasing(u, {h}, LeaseDuration(days, hours).value);
    var e, t := Overlap.At(now, Commit(n)), State(LeasedTo(db, h, u, now + q.lasting), now, Copies(p, n));
    LeaseBeginsFor(default, db, d, now, h, u, days, hours);
    CommitOfLast(default, d, now, p, n, q);
    CopiesCount(p, n);
    Continue(default, db, now, ss, es, us, plus, n, e, t, us, n);
    ts, fs := ss + [t], es + [e];
  }

  /** One user leases the host and commits. */
  lemma Lease(default: nat, db: Db, d: Db, now: Time, ss: seq<State>, es: seq<Overlap.Stamped>, us: set<UserId>, plus: nat, n: nat,
              u: UserId, h: HostId, days: nat, hours: nat) returns (ts: seq<State>, fs: seq<Overlap.Stamped>)
    requires default >= 1 && h in db.hosts && Idle(db, u) && HadBefore(db, d, h, u, now) && LeaseDuration(days, hours).Ok?
    requires Script(default, db, now, ss, es, us, plus, n)
    requires ss[|es|] == State(d, now, Copies(Extending({h}, plus), n))
    ensures Script(default, db, now, ts, fs, us, plus, n)
    ensures ts[|fs|] == State(LeasedTo(db, h, u, now + LeaseDuration(days, hours).value), now, Copies(Extending({h}, plus), n))
  {
    ts, fs := LeaseChecked(default, db, d, now, ss, es, us, plus, n, u, h, days, hours);
    ts, fs := LeaseCommitted(default, db, d, now, ts, fs, us, plus, n, u, h, days, hours);
  }

  /** The user who has just leased the host presses the button. */
  lemma Press(default: nat, db: Db, now: Time, ss: seq<State>, es: seq<Overlap.Stamped>, us: set<UserId>, plus: nat, n: nat,
              u: UserId, h: HostId) returns (ts: seq<State>, fs: seq<Overlap.Stamped>)
    requires plus > 0 && h in db.hosts && Idle(db, u) && u !in us
    requires Script(default, db, now, ss, es, us, plus, n)
    requires ss[|es|] == State(LeasedTo(db, h, u, now), now, Copies(Extending({h}, plus), n))
    ensures Script(default, db, now, ts, fs, us + {u}, plus, n + 1)
    ensures ts[|fs|] == State(LeasedTo(db, h, u, now), now, Copies(Extending({h}, plus), n + 1))
  {
    var p := Extending({h}, plus);
    OnlyHostExpiring(db, h, u, now);
    assert Copies(p, n) + [p] == Copies(p, n + 1);
    CopiesCount(p, n + 1);
    var t := State(LeasedTo(db, h, u, now), now, Copies(p, n + 1));
    var e := Overlap.At(now, ReadExpiring(u, plus));
    Continue(default, db, now, ss, es, us, plus, n, e, t, us + {u}, n + 1);
    ts, fs := ss + [t], es + [e];
  }

  /** The users of `us`, one after the other, lease the host for no time and press the button. */
  lemma {:induction false} Presses(default: nat, db: Db, now: Time, us: seq<UserId>, plus: nat, h: HostId)
    returns (ss: seq<State>, es: seq<Overlap.Stamped>)
    requires default >= 1 && plus > 0 && h in db.hosts
    requires forall i :: 0 <= i < |us| ==> Idle(db, us[i])
    requires forall i, j :: 0 <= i < j < |us| ==> us[i] != us[j]
    ensures Script(default, db, now, ss, es, SetOf(us), plus, |us|)
    ensures ss[|es|] == State(if us == [] then db else LeasedTo(db, h, us[|us| - 1], now), now, Copies(Extending({h}, plus), |us|))
  {
    if us == [] {
      ss, es := [State(db, now, [])], [];
    } else {
      var init, u, n := us[..|us| - 1], us[|us| - 1], |us| - 1;
      ss, es := Presses(default, db, now, init, plus, h);
      ss, es := Lease(default, db, ss[|es|].db, now, ss, es, SetOf(init), plus, n, u, h, 0, 0);
      ss, es := Press(default, db, now, ss, es, SetOf(init), plus, n, u, h);
      assert us == init + [u];
      assert SetOf(us) == SetOf(init) + {u};
    }
  }

  /** The presses in flight are written. */
  lemma {:induction false} Writes(default: nat, db: Db, d: Db, now: Time, ss: seq<State>, es: seq<Overlap.Stamped>, us: set<UserId>,
                                  plus: nat, k: nat, n: nat, ids: set<HostId>)
    returns (ts: seq<State>, fs: seq<Overlap.Stamped>)
    requires Script(default, db, now, ss, es, us, plus, k) && n <= k
    requires ss[|es|] == State(d, now, Copies(Extending(ids, plus), k))
    ensures Script(default, db, now, ts, fs, us, plus, k)
    ensures ts[|fs|] == State(d.(hosts := Stretched(d.hosts, ids, plus, n)), now, Copies(Extending(ids, plus), k - n))
  {
    ts, fs := ss, es;
    if n > 0 {
      var p := Extending(ids, plus);
      ts, fs := Writes(default, db, d, now, ss, es, us, plus, k, n - 1, ids);
      assert Without(Copies(p, k - n + 1), 0) == Copies(p, k - n);
      CopiesCount(p, k - n);
      var t := State(d.(hosts := Stretched(d.hosts, ids, plus, n)), now, Copies(p, k - n));
      Continue(default, db, now, ts, fs, us, plus, k, Overlap.At(now, Commit(0)), t, us, k);
      ts, fs := ts + [t], fs + [Overlap.At(now, Commit(0))];
    }
  }

  /** The bound of `OverlapHorizon` is exact: with one press of `plus` hours by each of `k` users in flight when
      somebody leases the host for the longest time, it ends `k * plus` hours past the longest lease. */
  lemma OverlapHorizonReached(default: nat, db: Db, now: Time, us: seq<UserId>, plus: nat, v: UserId, h: HostId)
    returns (ss: seq<State>, es: seq<Overlap.Stamped>)
    requires default >= 1 && plus > 0 && h in db.hosts
    requires forall i :: 0 <= i < |us| ==> Idle(db, us[i]) && us[i] != v
    requires forall i, j :: 0 <= i < j < |us| ==> us[i] != us[j]
    requires Idle(db, v)
    ensures IsRun(default, ss, es) && ss[0] == State(db, now, []) && PressedOnce(es, SetOf(us), plus)
    ensures forall i :: 0 <= i < |ss| ==> Total(Extensions(), ss[i].pending) <= |us|
    ensures ss[|es|].pending == [] && ss[|es|].now == now && h in ss[|es|].db.hosts
    ensures ss[|es|].db.hosts[h].leasedUntil == Some(now + MAX_LEASE + Hours(|us| * plus))
  {
    ss, es := Presses(default, db, now, us, plus, h);
    ss, es := Lease(default, db, ss[|es|].db, now, ss, es, SetOf(us), plus, |us|, v, h, 63, 23);
    var d := LeasedTo(db, h, v, now + MAX_LEASE);
    ss, es := Writes(default, db, d, now, ss, es, SetOf(us), plus, |us|, |us|, {h});
    StretchedExpiry(d.hosts, {h}, plus, |us|, h, now + MAX_LEASE);
  }
}
