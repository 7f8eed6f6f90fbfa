/** How soon a host can be extended twice when transactions overlap. */
module OverlapSpacing {
  import opened Types
  import opened Tables
  import opened Durations
  import opened Announcements
  import opened Overlap
  import opened OverlapRows
  import opened OverlapCauses
  import opened OverlapLimits
  import opened OverlapHorizons

  /** A pass read at step `r0` and committed before step `i`. */
  ghost predicate Passed(default: nat, ss: seq<State>, es: seq<Overlap.Stamped>, r0: nat, i: nat)
    requires r0 < i <= |es| < |ss|
  {
    es[r0].event.ReadExpired?
    && exists c: nat, p: Pending :: r0 < c < i && Reads(default, ss[r0], es[r0], p) && Commits(ss[c], es[c], p)
  }

  /** `u` leased `h` for zero days and zero hours at step `j`, and nothing has touched the row since. */
  ghost predicate ZeroLeaseStands(ss: seq<State>, es: seq<Overlap.Stamped>, j: nat, n: nat, u: UserId, h: HostId)
    requires j < n <= |es| < |ss|
  {
    && Leases(ss[j], es[j], h) && RenewedSince(ss, es, j, n, h)
    && ss[j].pending[es[j].event.index].user == u && ss[j].pending[es[j].event.index].lasting == 0
  }

  lemma FloorAfter(default: nat, ss: seq<State>, es: seq<Overlap.Stamped>, r0: nat, i: nat, n: nat, h: HostId)
    requires IsRun(default, ss, es) && Consistent(ss[0].db) && ss[0].pending == [] && r0 < i <= n <= |es|
    requires Passed(default, ss, es, r0, i) && Expiry(ss[n], h).Some?
    ensures Expiry(ss[n], h).value >= es[r0].time
  {
    var c: nat, p: Pending :| r0 < c < i && Reads(default, ss[r0], es[r0], p) && Commits(ss[c], es[c], p);
    OverlapKeepsTablesConsistent(default, ss, es, n);
    OverlapFloor(default, ss, es, r0, c, n, p, h);
  }

  /** After a pass that read at `r0`, an extension leaves at least an hour from then. */
  lemma ExtendedBeyond(default: nat, ss: seq<State>, es: seq<Overlap.Stamped>, r0: nat, j: nat, h: HostId)
    requires IsRun(default, ss, es) && Consistent(ss[0].db) && ss[0].pending == [] && r0 < j < |es|
    requires Passed(default, ss, es, r0, j) && Extends(ss[j], es[j], h)
    ensures Expiry(ss[j + 1], h).Some? && Expiry(ss[j + 1], h).value >= es[r0].time + Hours(1)
  {
    FloorAfter(default, ss, es, r0, j, j, h);
    OverlapKeepsTablesConsistent(default, ss, es, j);
    StepRow(default, ss[j], es[j], h);
    assert ss[j + 1] == Next(default, ss[j], es[j]);
    var r := CommitWasRead(default, ss, es, j, ss[j].pending[es[j].event.index]);
  }

  /** A lease that ends within an hour of an earlier time is for zero hours. */
  lemma ShortLease(default: nat, ss: seq<State>, es: seq<Overlap.Stamped>, j: nat, h: HostId, t: Time)
    requires IsRun(default, ss, es) && Consistent(ss[0].db) && ss[0].pending == [] && j < |es|
    requires Leases(ss[j], es[j], h) && t <= es[j].time
    requires Expiry(ss[j + 1], h).Some? && Expiry(ss[j + 1], h).value < t + Hours(1)
    ensures ss[j].pending[es[j].event.index].lasting == 0 && Expiry(ss[j + 1], h).value == es[j].time
  {
    OverlapKeepsTablesConsistent(default, ss, es, j);
    StepRow(default, ss[j], es[j], h);
    assert ss[j + 1] == Next(default, ss[j], es[j]);
    var r := CommitWasRead(default, ss, es, j, ss[j].pending[es[j].event.index]);
    assert exists days: nat, hours: nat :: LeaseDuration(days, hours) == Ok(ss[j].pending[es[j].event.index].lasting) by {
      assert LeaseDuration(es[r].event.days, es[r].event.hours) == Ok(ss[j].pending[es[j].event.index].lasting);
    }
  }

  lemma ZeroLeaseOf(default: nat, ss: seq<State>, es: seq<Overlap.Stamped>, r0: nat, i: nat, n: nat, v: UserId, t: Time, h: HostId)
    returns (j: nat)
    requires IsRun(default, ss, es) && Consistent(ss[0].db) && ss[0].pending == [] && r0 < i < n <= |es|
    requires Passed(default, ss, es, r0, i) && Extends(ss[i], es[i], h) && t <= es[r0].time + Minutes(30)
    requires h in ExpiringOf(ss[n].db.hosts, v, t + EXPIRATION_NOTIFY_WINDOW)
    ensures i < j < n && ZeroLeaseStands(ss, es, j, n, v, h)
  {
    OverlapKeepsTablesConsistent(default, ss, es, i);
    OverlapKeepsTablesConsistent(default, ss, es, n);
    j := LastRenewal(default, ss, es, i, n, h);
    assert Passed(default, ss, es, r0, j);
    if Extends(ss[j], es[j], h) {
      ExtendedBeyond(default, ss, es, r0, j, h);
    } else {
      ClockNeverGoesBack(default, ss, es, r0, j);
      ShortLease(default, ss, es, j, h, es[r0].time);
      OwnerWritten(default, ss, es, j, n, h);
    }
  }

  /** A lease that stands decides owner and expiry. */
  lemma OwnerWritten(default: nat, ss: seq<State>, es: seq<Overlap.Stamped>, j: nat, n: nat, h: HostId)
    requires IsRun(default, ss, es) && Consistent(ss[0].db) && j < n <= |es|
    requires Leases(ss[j], es[j], h) && RenewedSince(ss, es, j, n, h)
    ensures var p := ss[j].pending[es[j].event.index];
            Owner(ss[n], h) == Some(p.user) && Expiry(ss[n], h) == Some(es[j].time + p.lasting)
  {
    OverlapKeepsTablesConsistent(default, ss, es, j);
    RunRow(default, ss, es, j, h);
    UntouchedRow(default, ss, es, j + 1, n, h);
  }

  /** A pass ran, then `h` was extended at step `i`. A press that reads within 30 minutes of the pass finds `h` in
      the window of `v` exactly when `v` has leased it since for zero hours and nothing touched it after that. */
  lemma ReadableTooEarlyIff(default: nat, ss: seq<State>, es: seq<Overlap.Stamped>, r0: nat, i: nat, n: nat,
                            v: UserId, t: Time, h: HostId)
    requires IsRun(default, ss, es) && Consistent(ss[0].db) && ss[0].pending == [] && r0 < i < n <= |es|
    requires Passed(default, ss, es, r0, i) && Extends(ss[i], es[i], h)
    requires ss[n].now <= t <= es[r0].time + Minutes(30)
    ensures h in ExpiringOf(ss[n].db.hosts, v, t + EXPIRATION_NOTIFY_WINDOW)
            <==> exists j: nat :: i < j < n && ZeroLeaseStands(ss, es, j, n, v, h)
  {
    if h in ExpiringOf(ss[n].db.hosts, v, t + EXPIRATION_NOTIFY_WINDOW) {
      var j := ZeroLeaseOf(default, ss, es, r0, i, n, v, t, h);
    }
    if j: nat :| i < j < n && ZeroLeaseStands(ss, es, j, n, v, h) {
      OwnerWritten(default, ss, es, j, n, h);
      NowNeverGoesBack(default, ss, es, j + 1, n);
      assert ss[j + 1] == Next(default, ss[j], es[j]);
    }
  }

  /** The press that step `r` read had `h` in the window of its user. */
  ghost predicate ReadInWindow(s: State, e: Overlap.Stamped, h: HostId) {
    e.event.ReadExpiring? && h in ExpiringOf(s.db.hosts, e.event.user, e.time + EXPIRATION_NOTIFY_WINDOW)
  }

  /** The press `q` read `h` at step `r`: before the first extension committed at `i`, or after it and off a lease
      for zero hours by the presser that stood then. */
  ghost predicate ReadTooEarly(default: nat, ss: seq<State>, es: seq<Overlap.Stamped>, i: nat, r: nat, q: Pending, h: HostId)
    requires i < |es| < |ss| && r < |es|
  {
    && Reads(default, ss[r], es[r], q) && es[r].event.ReadExpiring?
    && if r < i then ReadInWindow(ss[r], es[r], h)
       else exists j: nat :: i < j < r && ZeroLeaseStands(ss, es, j, r, es[r].event.user, h)
  }

  lemma ReadsInWindow(default: nat, s: State, e: Overlap.Stamped, q: Pending, h: HostId)
    requires Reads(default, s, e, q) && q.Extending?
    ensures e.event.ReadExpiring? && (h in q.ids <==> ReadInWindow(s, e, h))
  {
  }

  /** When does a press extend a host too early under overlap? A pass read at `r0` and committed, then `h` was
      extended at step `i`. A press that commits at `k`, no later than 30 minutes after the pass read, extends `h`
      again exactly when `h` is leased then, and the press had read it in its user's window before step `i`,
      or its user had leased it for zero hours in between. */
  lemma ExtendsTooEarlyIff(default: nat, ss: seq<State>, es: seq<Overlap.Stamped>, r0: nat, i: nat, k: nat, q: Pending, h: HostId)
    requires IsRun(default, ss, es) && Consistent(ss[0].db) && ss[0].pending == [] && r0 < i < k < |es|
    requires Passed(default, ss, es, r0, i) && Extends(ss[i], es[i], h)
    requires q.Extending? && Commits(ss[k], es[k], q) && es[k].time <= es[r0].time + Minutes(30)
    ensures Extends(ss[k], es[k], h) <==>
              Expiry(ss[k], h).Some? && exists r: nat :: r < k && ReadTooEarly(default, ss, es, i, r, q, h)
  {
    if Extends(ss[k], es[k], h) {
      var r := CommitWasRead(default, ss, es, k, q);
      ReadsInWindow(default, ss[r], es[r], q, h);
      assert r != i;
      if r > i {
        ReadableTooEarlyIff(default, ss, es, r0, i, r, es[r].event.user, es[r].time, h);
      }
      assert ReadTooEarly(default, ss, es, i, r, q, h);
    }
    if r: nat :| r < k && ReadTooEarly(default, ss, es, i, r, q, h) {
      ReadsInWindow(default, ss[r], es[r], q, h);
      if r >= i {
        ClockNeverGoesBack(default, ss, es, r, k);
        assert Enabled(ss[r], es[r]);
        ReadableTooEarlyIff(default, ss, es, r0, i, r, es[r].event.user, es[r].time, h);
      }
    }
  }

  /** Any two extensions of one host: the second comes more than 30 minutes after the read of a pass that was
      committed before the first, or its press had read the host before the first, or its user had leased it
      in between for zero hours. */
  lemma ExtensionsAreSpaced(default: nat, ss: seq<State>, es: seq<Overlap.Stamped>, r0: nat, i: nat, k: nat, h: HostId)
    requires IsRun(default, ss, es) && Consistent(ss[0].db) && ss[0].pending == [] && r0 < i < k < |es|
    requires Passed(default, ss, es, r0, i) && Extends(ss[i], es[i], h) && Extends(ss[k], es[k], h)
    ensures || es[k].time > es[r0].time + Minutes(30)
            || exists r: nat :: r < k && ReadTooEarly(default, ss, es, i, r, ss[k].pending[es[k].event.index], h)
  {
    if es[k].time <= es[r0].time + Minutes(30) {
      ExtendsTooEarlyIff(default, ss, es, r0, i, k, ss[k].pending[es[k].event.index], h);
    }
  }

  // ---------- two extensions at one instant ----------

  /** A pass that finds nothing runs, and leaves everything as it was. */
  lemma EmptyPass(default: nat, db: Db, now: Time) returns (ss: seq<State>, es: seq<Overlap.Stamped>)
    requires ExpiringBefore(db.hosts, now) == {}
    ensures es == [Overlap.At(now, ReadExpired), Overlap.At(now, Commit(0))] && IsRun(default, ss, es)
    ensures ss[0] == ss[2] == State(db, now, [])
    ensures Reads(default, ss[0], es[0], Releasing(map[])) && Commits(ss[1], es[1], Releasing(map[]))
  {
    var f := Releasing(Expired(db.hosts, now));
    assert f.found == map[] by { assert f.found.Keys == {}; }
    assert FreeHosts(db.hosts, {}) == db.hosts;
    BeginFirst(default, db, now, Overlap.At(now, ReadExpired), f);
    CommitLast(default, db, now, f);
    var idle, reading := State(db, now, []), State(db, now, [f]);
    Append(default, [idle], [], Overlap.At(now, ReadExpired), reading);
    Append(default, [idle] + [reading], [] + [Overlap.At(now, ReadExpired)], Overlap.At(now, Commit(0)), idle);
    ss, es := [idle] + [reading] + [idle], [] + [Overlap.At(now, ReadExpired)] + [Overlap.At(now, Commit(0))];
  }

  lemma PassedAtTwo(default: nat, ss: seq<State>, es: seq<Overlap.Stamped>, i: nat)
    requires 2 <= i <= |es| < |ss| && es[0].event.ReadExpired?
    requires Reads(default, ss[0], es[0], Releasing(map[])) && Commits(ss[1], es[1], Releasing(map[]))
    ensures Passed(default, ss, es, 0, i)
  {
  }

  lemma ExtendedRow(db: Db, p: Pending, now: Time, h: HostId)
    requires p.Extending? && h in p.ids && h in db.hosts && db.hosts[h].leasedUntil.Some?
    ensures h in Written(db, p, now).hosts && Written(db, p, now).hosts[h].leasedUntil.Some?
  {
  }

  lemma ThreeSteps(default: nat, s0: State, e0: Overlap.Stamped, s1: State, e1: Overlap.Stamped, s2: State,
                   e2: Overlap.Stamped, s3: State)
    requires Step(default, s0, e0, s1) && Step(default, s1, e1, s2) && Step(default, s2, e2, s3)
    ensures IsRun(default, [s0, s1, s2, s3], [e0, e1, e2])
  {
    Append(default, [s0], [], e0, s1);
    assert [s0] + [s1] == [s0, s1] && [] + [e0] == [e0];
    Append(default, [s0, s1], [e0], e1, s2);
    assert [s0, s1] + [s2] == [s0, s1, s2] && [e0] + [e1] == [e0, e1];
    Append(default, [s0, s1, s2], [e0, e1], e2, s3);
    assert [s0, s1, s2] + [s3] == [s0, s1, s2, s3] && [e0, e1] + [e2] == [e0, e1, e2];
  }

  /** Two presses that both read before either commits extend one host twice at once, with no lease at all. */
  lemma PressedTwice(default: nat, db: Db, now: Time, u: UserId, h: HostId) returns (ss: seq<State>, es: seq<Overlap.Stamped>)
    requires ExpiringBefore(db.hosts, now) == {} && h in ExpiringOf(db.hosts, u, now + EXPIRATION_NOTIFY_WINDOW)
    ensures es == [Overlap.At(now, ReadExpired), Overlap.At(now, Commit(0)), Overlap.At(now, ReadExpiring(u, 1)),
                   Overlap.At(now, ReadExpiring(u, 1)), Overlap.At(now, Commit(1)), Overlap.At(now, Commit(0))]
    ensures IsRun(default, ss, es) && ss[0] == State(db, now, []) && Passed(default, ss, es, 0, 4)
    ensures Extends(ss[4], es[4], h) && Extends(ss[5], es[5], h)
  {
    var p, press := Extending(ExpiringOf(db.hosts, u, now + EXPIRATION_NOTIFY_WINDOW), 1), Overlap.At(now, ReadExpiring(u, 1));
    var ps, pe := EmptyPass(default, db, now);
    TwoOverlap(default, db, now, press, p, press, p);
    var ts := TwoOverlapping(db, now, p, p);
    var fs := [press, press, Overlap.At(now, Commit(1)), Overlap.At(now, Commit(0))];
    Join(default, ps, pe, ts, fs);
    ss, es := ps[..|pe|] + ts, pe + fs;
    ExtendedRow(db, p, now, h);
    assert ss[4] == ts[2] && ss[5] == ts[3];
    PassedAtTwo(default, ss, es, 4);
  }

  /** `v` takes the host of `u` over for no time, while the press of `u` is in flight ... */
  lemma TakenOver(default: nat, db: Db, now: Time, u: UserId, v: UserId, h: HostId, p: Pending)
    requires default >= 1 && Idle(db, v) && h in db.hosts
    requires p == Extending(ExpiringOf(db.hosts, u, now + EXPIRATION_NOTIFY_WINDOW), 1)
    ensures IsRun(default, [State(db, now, []), State(db, now, [p]), State(db, now, [p, Leasing(v, {h}, 0)]),
                            State(LeasedTo(db, h, v, now), now, [p])],
                  [Overlap.At(now, ReadExpiring(u, 1)), Overlap.At(now, CheckLease(v, [], [h], 0, 0)), Overlap.At(now, Commit(1))])
  {
    var q, lease := Leasing(v, {h}, 0), Overlap.At(now, CheckLease(v, [], [h], 0, 0));
    LeaseBeginsFor(default, db, db, now, h, v, 0, 0);
    BeginFirst(default, db, now, Overlap.At(now, ReadExpiring(u, 1)), p);
    BeginSecond(default, db, now, p, lease, q);
    CommitSecond(default, db, now, p, q);
    ThreeSteps(default, State(db, now, []), Overlap.At(now, ReadExpiring(u, 1)), State(db, now, [p]), lease, State(db, now, [p, q]),
               Overlap.At(now, Commit(1)), State(LeasedTo(db, h, v, now), now, [p]));
  }

  /** ... and presses the button too; both presses then commit. */
  lemma BothWritten(default: nat, db: Db, now: Time, v: UserId, h: HostId, p: Pending) returns (ts: seq<State>)
    requires p.Extending? && h in p.ids && Idle(db, v) && h in db.hosts
    ensures IsRun(default, ts, [Overlap.At(now, ReadExpiring(v, 1)), Overlap.At(now, Commit(1)), Overlap.At(now, Commit(0))])
    ensures ts[0] == State(LeasedTo(db, h, v, now), now, [p])
    ensures Extends(ts[1], Overlap.At(now, Commit(1)), h) && Extends(ts[2], Overlap.At(now, Commit(0)), h)
  {
    var taken, q := LeasedTo(db, h, v, now), Extending({h}, 1);
    var once := Written(taken, q, now);
    OnlyHostExpiring(db, h, v, now);
    ExtendedRow(taken, q, now, h);
    BeginSecond(default, taken, now, p, Overlap.At(now, ReadExpiring(v, 1)), q);
    CommitSecond(default, taken, now, p, q);
    CommitLast(default, once, now, p);
    ts := [State(taken, now, [p]), State(taken, now, [p, q]), State(once, now, [p]), State(Written(once, p, now), now, [])];
    ThreeSteps(default, ts[0], Overlap.At(now, ReadExpiring(v, 1)), ts[1], Overlap.At(now, Commit(1)), ts[2],
               Overlap.At(now, Commit(0)), ts[3]);
  }

  /** The same with the presses of two users, one each. */
  lemma PressedByTwo(default: nat, db: Db, now: Time, u: UserId, v: UserId, h: HostId)
    returns (ss: seq<State>, es: seq<Overlap.Stamped>)
    requires default >= 1 && u != v && Idle(db, v)
    requires ExpiringBefore(db.hosts, now) == {} && h in ExpiringOf(db.hosts, u, now + EXPIRATION_NOTIFY_WINDOW)
    ensures es == [Overlap.At(now, ReadExpired), Overlap.At(now, Commit(0)), Overlap.At(now, ReadExpiring(u, 1)),
                   Overlap.At(now, CheckLease(v, [], [h], 0, 0)), Overlap.At(now, Commit(1)), Overlap.At(now, ReadExpiring(v, 1)),
                   Overlap.At(now, Commit(1)), Overlap.At(now, Commit(0))]
    ensures IsRun(default, ss, es) && ss[0] == State(db, now, []) && Passed(default, ss, es, 0, 6)
    ensures Extends(ss[6], es[6], h) && Extends(ss[7], es[7], h)
  {
    var p, q := Extending(ExpiringOf(db.hosts, u, now + EXPIRATION_NOTIFY_WINDOW), 1), Leasing(v, {h}, 0);
    var ps, pe := EmptyPass(default, db, now);
    TakenOver(default, db, now, u, v, h, p);
    var ts := [State(db, now, []), State(db, now, [p]), State(db, now, [p, q]), State(LeasedTo(db, h, v, now), now, [p])];
    var fs := [Overlap.At(now, ReadExpiring(u, 1)), Overlap.At(now, CheckLease(v, [], [h], 0, 0)), Overlap.At(now, Commit(1))];
    var ws := BothWritten(default, db, now, v, h, p);
    var we := [Overlap.At(now, ReadExpiring(v, 1)), Overlap.At(now, Commit(1)), Overlap.At(now, Commit(0))];
    Join(default, ps, pe, ts, fs);
    var ms, me := ps[..|pe|] + ts, pe + fs;
    assert ms[|me|] == ts[3];
    Join(default, ms, me, ws, we);
    ss, es := ms[..|me|] + ws, me + we;
    assert ss[6] == ws[1] && ss[7] == ws[2] && ss[0] == ps[0] && ss[1] == ps[1];
    PassedAtTwo(default, ss, es, 6);
  }
}
