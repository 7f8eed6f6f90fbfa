/** Who holds a host, and until when, over whole runs in which transactions do not overlap: which events
    gave, took or prolonged it. */
module Tenancies {
  import opened Types
  import opened Durations
  import opened Tables
  import opened Transactions
  import opened Announcements
  import opened Notifications
  import opened Runs

  /** This event is a successful lease that names host `h`. */
  ghost predicate Leases(default: nat, s: State, e: Stamped, h: HostId) {
    match e.event
    case Lease(u, groups, ids, days, hours) =>
      && h in ids && h in s.db.hosts && LeaseDuration(days, hours).Ok?
      && LeaseTx(s.db, default, u, groups, ids, e.time + LeaseDuration(days, hours).value).1.Ok?
    case LeaseRandom(u, groups, _, pick, days, hours) =>
      && LeaseDuration(days, hours).Ok?
      && LeaseRandomTx(s.db, default, u, groups, pick, e.time + LeaseDuration(days, hours).value).1 == Ok(h)
    case _ => false
  }

  /** This event returns host `h` to the pool. */
  ghost predicate Frees(s: State, e: Stamped, h: HostId) {
    match e.event
    case Free(u, ids) => Owns(s, u, h) && h in ids
    case FreeAll(u) => Owns(s, u, h)
    case Release => h in ExpiringBefore(s.db.hosts, e.time)
    case _ => false
  }

  ghost predicate Touches(default: nat, s: State, e: Stamped, h: HostId) {
    Leases(default, s, e, h) || Frees(s, e, h) || Extends(s, e, h)
  }

  ghost predicate LeaseEffectOn(default: nat, s: State, e: Stamped, h: HostId, row: Host, next: Host)
    requires e.event.Lease? || e.event.LeaseRandom?
  {
    if Leases(default, s, e, h)
    then && row.userId != Some(e.event.user)
         && next == row.(userId := Some(e.event.user),
                         leasedUntil := Some(e.time + LeaseDuration(e.event.days, e.event.hours).value))
    else next == row
  }

  lemma LeasedRow(default: nat, s: State, e: Stamped, h: HostId)
    requires Enabled(s, e) && Consistent(s.db) && h in s.db.hosts && e.event.Lease?
    ensures h in Next(default, s, e).db.hosts
    ensures LeaseEffectOn(default, s, e, h, s.db.hosts[h], Next(default, s, e).db.hosts[h])
  {
    var d := LeaseDuration(e.event.days, e.event.hours);
    if d.Ok? {
      var u, groups, ids, until := e.event.user, e.event.groups, e.event.ids, e.time + d.value;
      LeaseSucceedsIff(s.db, default, u, groups, ids, until);
      LeaseCheckPassesIff(s.db, default, u, groups, ids);
      if LeaseTx(s.db, default, u, groups, ids, until).1.Ok? {
        LeaseEffect(s.db, default, u, groups, ids, until);
      }
    }
  }

  lemma RandomlyLeasedRow(default: nat, s: State, e: Stamped, h: HostId)
    requires Enabled(s, e) && Consistent(s.db) && h in s.db.hosts && e.event.LeaseRandom?
    ensures h in Next(default, s, e).db.hosts
    ensures LeaseEffectOn(default, s, e, h, s.db.hosts[h], Next(default, s, e).db.hosts[h])
  {
    var d := LeaseDuration(e.event.days, e.event.hours);
    if d.Ok? {
      var u, groups, g, pick, until := e.event.user, e.event.groups, e.event.group, e.event.pick, e.time + d.value;
      LeaseRandomSucceedsIff(s.db, default, u, groups, g, pick, until);
      if LeaseRandomTx(s.db, default, u, groups, pick, until).1.Ok? {
        LeaseRandomEffect(s.db, default, u, groups, g, pick, until, u);
      }
    }
  }

  /** What each kind of event makes of the row of `h`; an event of no kind leaves it alone. */
  ghost predicate RowEffect(default: nat, s: State, e: Stamped, h: HostId, row: Host, next: Host) {
    && (Leases(default, s, e, h) ==>
          && row.userId != Some(e.event.user)
          && next == row.(userId := Some(e.event.user),
                          leasedUntil := Some(e.time + LeaseDuration(e.event.days, e.event.hours).value)))
    && (Frees(s, e, h) ==> row.userId.Some? && next == row.(userId := None, leasedUntil := None))
    && (Extends(s, e, h) ==>
          && row.leasedUntil.Some?
          && next == row.(leasedUntil := Some(row.leasedUntil.value + Hours(e.event.plus))))
    && (!Touches(default, s, e, h) ==> next == row)
  }

  lemma RunRow(default: nat, ss: seq<State>, es: seq<Stamped>, k: nat, h: HostId)
    requires IsRun(default, ss, es) && Consistent(ss[0].db) && k < |es| && h in ss[0].db.hosts
    ensures h in ss[k].db.hosts && h in ss[k + 1].db.hosts
    ensures RowEffect(default, ss[k], es[k], h, ss[k].db.hosts[h], ss[k + 1].db.hosts[h])
  {
    TablesStayConsistent(default, ss, es, k);
    var s, e := ss[k], es[k];
    if e.event.Lease? {
      LeasedRow(default, s, e, h);
    } else if e.event.LeaseRandom? {
      RandomlyLeasedRow(default, s, e, h);
    } else {
      StepOnHost(default, s, e, h);
    }
  }

  ghost predicate RowRun(default: nat, ss: seq<State>, es: seq<Stamped>, h: HostId) {
    && |ss| == |es| + 1
    && (forall k :: 0 <= k < |ss| ==> h in ss[k].db.hosts && Paired(ss[k].db.hosts))
    && (forall k :: 0 <= k < |es| ==> RowEffect(default, ss[k], es[k], h, ss[k].db.hosts[h], ss[k + 1].db.hosts[h]))
  }

  lemma RunIsRowRun(default: nat, ss: seq<State>, es: seq<Stamped>, h: HostId)
    requires IsRun(default, ss, es) && Consistent(ss[0].db) && h in ss[0].db.hosts
    ensures RowRun(default, ss, es, h)
  {
    forall k | 0 <= k < |ss| ensures h in ss[k].db.hosts && Paired(ss[k].db.hosts) {
      TablesStayConsistent(default, ss, es, k);
    }
    forall k | 0 <= k < |es| ensures RowEffect(default, ss[k], es[k], h, ss[k].db.hosts[h], ss[k + 1].db.hosts[h]) {
      RunRow(default, ss, es, k, h);
    }
  }

  lemma {:induction false} UntouchedRow(default: nat, ss: seq<State>, es: seq<Stamped>, i: nat, n: nat, h: HostId)
    requires RowRun(default, ss, es, h) && i <= n <= |es|
    requires forall m :: i <= m < n ==> !Touches(default, ss[m], es[m], h)
    ensures ss[n].db.hosts[h] == ss[i].db.hosts[h]
    decreases n
  {
    if i < n {
      UntouchedRow(default, ss, es, i, n - 1, h);
      assert RowEffect(default, ss[n - 1], es[n - 1], h, ss[n - 1].db.hosts[h], ss[n].db.hosts[h]);
    }
  }

  /** Whoever holds a host held it ever since it was last leased. */
  lemma {:induction false} HeldInRows(default: nat, ss: seq<State>, es: seq<Stamped>, i: nat, n: nat, u: UserId, h: HostId)
    requires RowRun(default, ss, es, h) && i <= n <= |es| && Owns(ss[n], u, h)
    requires forall m :: i <= m < n ==> !Leases(default, ss[m], es[m], h)
    ensures forall m :: i <= m <= n ==> Owns(ss[m], u, h)
    decreases n
  {
    if i < n {
      assert RowEffect(default, ss[n - 1], es[n - 1], h, ss[n - 1].db.hosts[h], ss[n].db.hosts[h]);
      HeldInRows(default, ss, es, i, n - 1, u, h);
    }
  }

  lemma HeldThroughout(default: nat, ss: seq<State>, es: seq<Stamped>, i: nat, n: nat, u: UserId, h: HostId)
    requires IsRun(default, ss, es) && Consistent(ss[0].db) && i <= n <= |es| && Owns(ss[n], u, h)
    requires forall m :: i <= m < n ==> !Leases(default, ss[m], es[m], h)
    ensures h in ss[0].db.hosts && forall m :: i <= m <= n ==> Owns(ss[m], u, h)
  {
    TablesStayConsistent(default, ss, es, n);
    RunIsRowRun(default, ss, es, h);
    HeldInRows(default, ss, es, i, n, u, h);
  }

  lemma {:induction false} LastIn(hits: set<int>, i: nat, n: nat) returns (j: nat)
    requires exists m :: i <= m < n && m in hits
    ensures i <= j < n && j in hits && forall m :: j < m < n ==> m !in hits
    decreases n
  {
    if n - 1 in hits {
      return n - 1;
    }
    j := LastIn(hits, i, n - 1);
  }

  lemma LastLease(default: nat, ss: seq<State>, es: seq<Stamped>, i: nat, n: nat, h: HostId) returns (j: nat)
    requires i <= n <= |es| < |ss|
    requires exists m :: i <= m < n && Leases(default, ss[m], es[m], h)
    ensures i <= j < n && Leases(default, ss[j], es[j], h)
    ensures forall m :: j < m < n ==> !Leases(default, ss[m], es[m], h)
  {
    var hits := set m | 0 <= m < n && Leases(default, ss[m], es[m], h);
    var m :| i <= m < n && Leases(default, ss[m], es[m], h);
    assert m in hits;
    j := LastIn(hits, i, n);
    forall m | j < m < n ensures !Leases(default, ss[m], es[m], h) {
      assert m !in hits;
    }
  }

  /** Users come and are linked by these two events only, and never go. */
  lemma UsersInRun(default: nat, ss: seq<State>, es: seq<Stamped>, k: nat, u: UserId)
    requires IsRun(default, ss, es) && k < |es|
    ensures var users, next, e := ss[k].db.users, ss[k + 1].db.users, es[k].event;
            && (u in next <==> u in users || e == AddUser(u))
            && (u in next ==>
                  next[u].tgHandle == if e.LinkUser? && e.user == u then Some(e.handle)
                                      else if e == AddUser(u) then None else users[u].tgHandle)
  {
    assert Enabled(ss[k], es[k]) && ss[k + 1] == Next(default, ss[k], es[k]);
  }

  // ---------- the message of a scan on the tables it finds ----------

  /** `h` went back to the pool at step `j` and has not been leased up to `n`. */
  ghost predicate FreedSince(default: nat, ss: seq<State>, es: seq<Stamped>, j: nat, n: nat, h: HostId)
    requires j < n <= |es| < |ss|
  {
    && Frees(ss[j], es[j], h)
    && forall m :: j < m < n ==> !Leases(default, ss[m], es[m], h)
  }

  ghost predicate FreedWithin(default: nat, ss: seq<State>, es: seq<Stamped>, i: nat, n: nat, h: HostId)
    requires i <= n <= |es| < |ss|
  {
    exists j: nat :: i <= j < n && FreedSince(default, ss, es, j, n, h)
  }

  lemma StaysFreed(default: nat, ss: seq<State>, es: seq<Stamped>, j: nat, n: nat, h: HostId)
    requires j < n - 1 && n <= |es| < |ss|
    requires FreedSince(default, ss, es, j, n - 1, h) && !Leases(default, ss[n - 1], es[n - 1], h)
    ensures FreedSince(default, ss, es, j, n, h)
  {
  }

  lemma FreedStep(default: nat, ss: seq<State>, es: seq<Stamped>, i: nat, n: nat, h: HostId)
    requires i < n <= |es| < |ss|
    ensures FreedWithin(default, ss, es, i, n, h)
            <==> || Frees(ss[n - 1], es[n - 1], h)
                 || (FreedWithin(default, ss, es, i, n - 1, h) && !Leases(default, ss[n - 1], es[n - 1], h))
  {
    if Frees(ss[n - 1], es[n - 1], h) {
      assert FreedSince(default, ss, es, n - 1, n, h);
    }
    if FreedWithin(default, ss, es, i, n - 1, h) && !Leases(default, ss[n - 1], es[n - 1], h) {
      var j: nat :| i <= j < n - 1 && FreedSince(default, ss, es, j, n - 1, h);
      StaysFreed(default, ss, es, j, n, h);
    }
    if FreedWithin(default, ss, es, i, n, h) {
      var j: nat :| i <= j < n && FreedSince(default, ss, es, j, n, h);
      if j < n - 1 {
        assert FreedSince(default, ss, es, j, n - 1, h);
      }
    }
  }

  lemma PoolStep(default: nat, ss: seq<State>, es: seq<Stamped>, k: nat, h: HostId)
    requires RowRun(default, ss, es, h) && k < |es|
    ensures h in Available(ss[k + 1].db.hosts)
            <==> Frees(ss[k], es[k], h) || (h in Available(ss[k].db.hosts) && !Leases(default, ss[k], es[k], h))
  {
    assert RowEffect(default, ss[k], es[k], h, ss[k].db.hosts[h], ss[k + 1].db.hosts[h]);
  }

  lemma {:induction false} PooledInRows(default: nat, ss: seq<State>, es: seq<Stamped>, i: nat, n: nat, h: HostId)
    requires RowRun(default, ss, es, h) && i <= n <= |es| && h !in Available(ss[i].db.hosts)
    ensures h in Available(ss[n].db.hosts) <==> FreedWithin(default, ss, es, i, n, h)
    decreases n
  {
    if i < n {
      PooledInRows(default, ss, es, i, n - 1, h);
      PoolStep(default, ss, es, n - 1, h);
      FreedStep(default, ss, es, i, n, h);
    }
  }

  /** A host held at `i` is in the pool at `n` exactly when it was freed in between and not leased since. */
  lemma InPoolIff(default: nat, ss: seq<State>, es: seq<Stamped>, i: nat, n: nat, h: HostId)
    requires IsRun(default, ss, es) && Consistent(ss[0].db) && i <= n <= |es| && h in ss[0].db.hosts
    requires h !in Available(ss[i].db.hosts)
    ensures h in Available(ss[n].db.hosts) <==> FreedWithin(default, ss, es, i, n, h)
  {
    RunIsRowRun(default, ss, es, h);
    PooledInRows(default, ss, es, i, n, h);
  }

  lemma {:induction false} UsersStay(default: nat, ss: seq<State>, es: seq<Stamped>, i: nat, n: nat)
    requires IsRun(default, ss, es) && i <= n <= |es|
    ensures ss[i].db.users.Keys <= ss[n].db.users.Keys
    decreases n
  {
    if i < n {
      UsersStay(default, ss, es, i, n - 1);
      assert ss[n] == Next(default, ss[n - 1], es[n - 1]);
    }
  }

  /** Any transactions may fall between the scan at step `i` and its message to `u`, which finds the tables of
      step `n`. It panics, and the loop of the timer dies with it, exactly when the user has a sender and
      some host it names has been freed since the scan and not leased again. */
  lemma MessagePanicsIff(default: nat, ss: seq<State>, es: seq<Stamped>, i: nat, n: nat, u: UserId, channel: Channel)
    requires IsRun(default, ss, es) && Consistent(ss[0].db) && i <= n <= |es| && i < |es|
    requires var messages := Messages(ss[i].sent, ss[i].db.hosts, es[i].time + EXPIRATION_NOTIFY_WINDOW); u in messages
    ensures var ids := Messages(ss[i].sent, ss[i].db.hosts, es[i].time + EXPIRATION_NOTIFY_WINDOW)[u];
            NotifyExpiring(ss[n].db, u, ids, channel) == Panic
            <==> && channel != NoSender
                 && exists h :: h in ids && FreedWithin(default, ss, es, i, n, h)
  {
    var until := es[i].time + EXPIRATION_NOTIFY_WINDOW;
    var ids := Messages(ss[i].sent, ss[i].db.hosts, until)[u];
    TablesStayConsistent(default, ss, es, i);
    TablesStayConsistent(default, ss, es, n);
    UsersStay(default, ss, es, i, n);
    PanicsIff(ss[n].db, u, ids, channel);
    OwnersHaveExpiring(ss[i].db.hosts, until, u);
    forall h | h in ids
      ensures h in Available(ss[n].db.hosts) <==> FreedWithin(default, ss, es, i, n, h)
    {
      assert h in ExpiringOf(ss[i].db.hosts, u, until);
      InPoolIff(default, ss, es, i, n, h);
    }
  }

  // ---------- extensions are spaced ----------

  /** `u` leased `h` for zero days and zero hours at step `j`, and nothing has touched the row since. */
  ghost predicate ZeroLeaseStands(default: nat, ss: seq<State>, es: seq<Stamped>, j: nat, n: nat, u: UserId, h: HostId)
    requires j < n <= |es| < |ss|
  {
    && Leases(default, ss[j], es[j], h) && es[j].event.user == u && es[j].event.days == es[j].event.hours == 0
    && forall m :: j < m < n ==> !Touches(default, ss[m], es[m], h)
  }

  /** With the floor of a pass below it, an extension keeps a host held by one user out of reach of the button
      until 30 minutes after the pass. */
  lemma KeptOutOfReach(default: nat, ss: seq<State>, es: seq<Stamped>, pass: nat, i: nat, n: nat, u: UserId, h: HostId)
    requires IsRun(default, ss, es) && Consistent(ss[0].db) && pass < i < n <= |es|
    requires es[pass].event.Release? && Extends(ss[i], es[i], h)
    requires forall m :: i <= m <= n ==> Owns(ss[m], u, h)
    ensures Owns(ss[n], u, h) && ss[n].db.hosts[h].leasedUntil.Some?
    ensures ss[n].db.hosts[h].leasedUntil.value >= es[pass].time + Hours(1)
  {
    TablesStayConsistent(default, ss, es, i);
    ExpiryFloor(default, ss, es, pass, i);
    assert Owns(ss[i], u, h) && Owns(ss[i + 1], u, h);
    KeptHostStep(default, ss[i], es[i], u, h);
    LeaseTimeMonotone(default, ss, es, i + 1, n, u, h);
  }

  /** A kept host that was leased and then extended ends at least the lease and one hour after the lease. */
  lemma ExtendedAfterLease(default: nat, ss: seq<State>, es: seq<Stamped>, j: nat, m: nat, n: nat, u: UserId, h: HostId)
    requires IsRun(default, ss, es) && Consistent(ss[0].db) && j <= m < n <= |es|
    requires forall k :: j <= k <= n ==> Owns(ss[k], u, h)
    requires Extends(ss[m], es[m], h)
    ensures Owns(ss[j], u, h) && Owns(ss[n], u, h)
    ensures ss[j].db.hosts[h].leasedUntil.Some? && ss[n].db.hosts[h].leasedUntil.Some?
    ensures ss[n].db.hosts[h].leasedUntil.value >= ss[j].db.hosts[h].leasedUntil.value + Hours(1)
  {
    LeaseTimeMonotone(default, ss, es, j, m, u, h);
    TablesStayConsistent(default, ss, es, m);
    assert Owns(ss[m], u, h) && Owns(ss[m + 1], u, h);
    KeptHostStep(default, ss[m], es[m], u, h);
    LeaseTimeMonotone(default, ss, es, m + 1, n, u, h);
  }

  lemma LeasedWithinReach(default: nat, ss: seq<State>, es: seq<Stamped>, pass: nat, i: nat, n: nat, v: UserId, t: Time, h: HostId)
    returns (j: nat)
    requires IsRun(default, ss, es) && Consistent(ss[0].db) && pass < i < n <= |es|
    requires es[pass].event.Release? && t <= es[pass].time + Minutes(30)
    requires h in ExpiringOf(ss[n].db.hosts, v, t + EXPIRATION_NOTIFY_WINDOW)
    requires exists m :: i <= m < n && Leases(default, ss[m], es[m], h)
    ensures i <= j < n && ZeroLeaseStands(default, ss, es, j, n, v, h)
  {
    j := LastLease(default, ss, es, i, n, h);
    HeldThroughout(default, ss, es, j + 1, n, v, h);
    assert Owns(ss[j + 1], v, h);
    RunRow(default, ss, es, j, h);
    TimeNeverGoesBack(default, ss, es, pass + 1, j);
    LeaseTimeMonotone(default, ss, es, j + 1, n, v, h);
    forall m | j < m < n ensures !Touches(default, ss[m], es[m], h) {
      assert Owns(ss[m], v, h) && Owns(ss[m + 1], v, h);
      RunRow(default, ss, es, m, h);
      if Extends(ss[m], es[m], h) {
        ExtendedAfterLease(default, ss, es, j + 1, m, n, v, h);
      }
    }
  }

  /** When can a host be extended too early? A release pass ran, then `h` was extended at step `i`. A button
      pressed within 30 minutes of the pass finds `h` in the window of `v` exactly when `v` has leased it
      since for zero hours and nothing has happened to it after that. */
  lemma ExtensibleTooEarlyIff(default: nat, ss: seq<State>, es: seq<Stamped>, pass: nat, i: nat, n: nat,
                              v: UserId, t: Time, h: HostId)
    requires IsRun(default, ss, es) && Consistent(ss[0].db) && pass < i < n <= |es|
    requires es[pass].event.Release? && Extends(ss[i], es[i], h)
    requires ss[n].now <= t <= es[pass].time + Minutes(30)
    ensures h in ExpiringOf(ss[n].db.hosts, v, t + EXPIRATION_NOTIFY_WINDOW)
            <==> exists j: nat :: i < j < n && ZeroLeaseStands(default, ss, es, j, n, v, h)
  {
    TablesStayConsistent(default, ss, es, i);
    if h in ExpiringOf(ss[n].db.hosts, v, t + EXPIRATION_NOTIFY_WINDOW) {
      if exists m :: i <= m < n && Leases(default, ss[m], es[m], h) {
        var j := LeasedWithinReach(default, ss, es, pass, i, n, v, t, h);
        assert j != i;
      } else {
        HeldThroughout(default, ss, es, i, n, v, h);
        KeptOutOfReach(default, ss, es, pass, i, n, v, h);
      }
    }
    if j: nat :| i < j < n && ZeroLeaseStands(default, ss, es, j, n, v, h) {
      RunRow(default, ss, es, j, h);
      RunIsRowRun(default, ss, es, h);
      UntouchedRow(default, ss, es, j + 1, n, h);
      TimeNeverGoesBack(default, ss, es, j + 1, n);
    }
  }

  /** Two extensions of one host, by anybody, the first when a release pass was D old: the second comes more
      than 30 min - D later, or whoever makes it has leased the host in between, for zero hours. And if D is
      less than 30 minutes the first one took the host out of every window. */
  lemma ExtensionsAreSpaced(default: nat, ss: seq<State>, es: seq<Stamped>, pass: nat, i: nat, k: nat, h: HostId)
    requires IsRun(default, ss, es) && Consistent(ss[0].db)
    requires pass < i < k < |es|
    requires es[pass].event.Release? && Extends(ss[i], es[i], h) && Extends(ss[k], es[k], h)
    ensures || es[k].time - es[i].time > Minutes(30) - (es[i].time - es[pass].time)
            || exists j: nat :: i < j < k && ZeroLeaseStands(default, ss, es, j, k, es[k].event.who.value, h)
    ensures es[i].time - es[pass].time < Minutes(30) ==>
              h !in ExpiringBefore(ss[i + 1].db.hosts, es[i].time + EXPIRATION_NOTIFY_WINDOW)
  {
    if es[k].time <= es[pass].time + Minutes(30) {
      ExtensibleTooEarlyIff(default, ss, es, pass, i, k, es[k].event.who.value, es[k].time, h);
    }
    TablesStayConsistent(default, ss, es, i);
    ExpiryFloor(default, ss, es, pass, i);
    RunRow(default, ss, es, i, h);
  }
}
