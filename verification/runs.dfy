/** Whole runs when transactions do not overlap: any interleaving of requests, button presses, release
    passes and scans, at times that never go back. A failed transaction is dropped, so it is no event. */
module Runs {
  import opened Types
  import opened Durations
  import opened Tables
  import opened LeaseLimits
  import opened Transactions
  import opened Announcements
  import opened Notifications

  datatype Event =
    | Lease(user: UserId, groups: seq<string>, ids: seq<HostId>, days: nat, hours: nat)
    | LeaseRandom(user: UserId, groups: seq<string>, group: GroupId, pick: Option<HostId>, days: nat, hours: nat)
    | Free(user: UserId, ids: seq<HostId>)
    | FreeAll(user: UserId)
    | Extend(handle: string, who: Option<UserId>, plus: int)
    | Release
    | Scan(delivered: set<UserId>)
    | AddUser(user: UserId)
    | LinkUser(user: UserId, handle: string)

  datatype Stamped = At(time: Time, event: Event)

  datatype State = State(db: Db, sent: Record, now: Time)

  /** The open choices of the event are ones the database may make. */
  predicate Enabled(s: State, e: Stamped) {
    && s.now <= e.time
    && match e.event
       case LeaseRandom(_, _, g, pick, _, _) => LegalPick(s.db, g, pick)
       case Extend(handle, who, _) => LegalUser(s.db, handle, who)
       case AddUser(u) => u !in s.db.users
       case LinkUser(u, _) => u in s.db.users
       case _ => true
  }

  function NextDb(default: nat, db: Db, e: Stamped): Db
    requires e.event.LeaseRandom? ==> LegalPick(db, e.event.group, e.event.pick)
    requires e.event.LinkUser? ==> e.event.user in db.users
  {
    match e.event
    case Lease(u, groups, ids, days, hours) =>
      (match LeaseDuration(days, hours)
       case Err(_) => db
       case Ok(d) => LeaseTx(db, default, u, groups, ids, e.time + d).0)
    case LeaseRandom(u, groups, _, pick, days, hours) =>
      (match LeaseDuration(days, hours)
       case Err(_) => db
       case Ok(d) => LeaseRandomTx(db, default, u, groups, pick, e.time + d).0)
    case Free(u, ids) => db.(hosts := FreeHostsForUser(db.hosts, SetOf(ids), u))
    case FreeAll(u) => db.(hosts := FreeAllHosts(db.hosts, u))
    case Extend(_, who, plus) => ExtendTx(db, who, plus, e.time).0
    case Release => ReleaseTx(db, e.time)
    case Scan(_) => db
    case AddUser(u) => db.(users := db.users[u := User(None)])
    case LinkUser(u, handle) => db.(users := db.users[u := User(Some(handle))])
  }

  function NextSent(s: State, e: Stamped): Record {
    match e.event
    case Release => AfterRelease(s.sent, s.db.hosts, e.time)
    case Scan(delivered) => AfterScan(s.sent, s.db.hosts, e.time + EXPIRATION_NOTIFY_WINDOW, delivered)
    case _ => s.sent
  }

  function Next(default: nat, s: State, e: Stamped): State
    requires Enabled(s, e)
  {
    State(NextDb(default, s.db, e), NextSent(s, e), e.time)
  }

  ghost predicate IsRun(default: nat, ss: seq<State>, es: seq<Stamped>) {
    && |ss| == |es| + 1
    && forall i :: 0 <= i < |es| ==> Enabled(ss[i], es[i]) && ss[i + 1] == Next(default, ss[i], es[i])
  }

  ghost predicate Step(default: nat, s: State, e: Stamped, t: State) {
    Enabled(s, e) && t == Next(default, s, e)
  }

  /** A run is built one step at a time. */
  lemma Append(default: nat, ss: seq<State>, es: seq<Stamped>, e: Stamped, t: State)
    requires IsRun(default, ss, es) && Step(default, ss[|es|], e, t)
    ensures IsRun(default, ss + [t], es + [e])
  {
    forall i | 0 <= i < |es| + 1 ensures Step(default, (ss + [t])[i], (es + [e])[i], (ss + [t])[i + 1]) {
      if i < |es| {
        assert Step(default, ss[i], es[i], ss[i + 1]);
      }
    }
  }

  // ---------- table consistency ----------

  ghost predicate SameHosts(db: Db, after: Db) {
    Consistent(after) && after.hosts.Keys == db.hosts.Keys && after.limits == db.limits && after.users == db.users
  }

  lemma LeaseConsistent(db: Db, default: nat, u: UserId, groups: seq<string>, ids: seq<HostId>, until: Time)
    requires Consistent(db)
    ensures SameHosts(db, LeaseTx(db, default, u, groups, ids, until).0)
  {
    LeaseSucceedsIff(db, default, u, groups, ids, until);
    if LeaseTx(db, default, u, groups, ids, until).1.Ok? {
      LeaseEffect(db, default, u, groups, ids, until);
    }
  }

  lemma LeaseRandomConsistent(db: Db, default: nat, u: UserId, groups: seq<string>, g: GroupId, pick: Option<HostId>, until: Time)
    requires Consistent(db) && LegalPick(db, g, pick)
    ensures SameHosts(db, LeaseRandomTx(db, default, u, groups, pick, until).0)
  {
    LeaseRandomSucceedsIff(db, default, u, groups, g, pick, until);
    if LeaseRandomTx(db, default, u, groups, pick, until).1.Ok? {
      LeaseRandomEffect(db, default, u, groups, g, pick, until, u);
    }
  }

  lemma ExtendConsistent(db: Db, who: Option<UserId>, plus: int, now: Time)
    requires Consistent(db)
    ensures SameHosts(db, ExtendTx(db, who, plus, now).0)
  {
  }

  lemma StepConsistent(default: nat, s: State, e: Stamped)
    requires Enabled(s, e) && Consistent(s.db)
    ensures var after := Next(default, s, e).db;
            Consistent(after) && after.hosts.Keys == s.db.hosts.Keys && after.limits == s.db.limits
  {
    match e.event
    case Lease(u, groups, ids, days, hours) =>
      if LeaseDuration(days, hours).Ok? {
        LeaseConsistent(s.db, default, u, groups, ids, e.time + LeaseDuration(days, hours).value);
      }
    case LeaseRandom(u, groups, g, pick, days, hours) =>
      if LeaseDuration(days, hours).Ok? {
        LeaseRandomConsistent(s.db, default, u, groups, g, pick, e.time + LeaseDuration(days, hours).value);
      }
    case Free(u, ids) => StatementsKeepPaired(s.db.hosts, SetOf(ids), u, 0, 0);
    case FreeAll(u) => StatementsKeepPaired(s.db.hosts, {}, u, 0, 0);
    case Extend(_, who, plus) => ExtendConsistent(s.db, who, plus, e.time);
    case Release => ReleaseMeaning(s.db, e.time);
    case _ =>
  }

  /** In every reachable state a host has an owner exactly when it has an expiry, and the owner is a
      known user; so no leased-host query ever meets a row it cannot decode. The set of hosts and the
      limits never change. */
  lemma {:induction false} TablesStayConsistent(default: nat, ss: seq<State>, es: seq<Stamped>, n: nat)
    requires IsRun(default, ss, es) && Consistent(ss[0].db) && n <= |es|
    ensures Consistent(ss[n].db)
    ensures forall u :: Decodable(ss[n].db.hosts, OwnedBy(ss[n].db.hosts, u))
    ensures ss[n].db.hosts.Keys == ss[0].db.hosts.Keys && ss[n].db.limits == ss[0].db.limits
  {
    if n > 0 {
      TablesStayConsistent(default, ss, es, n - 1);
      StepConsistent(default, ss[n - 1], es[n - 1]);
    }
  }

  /** No run creates or loses a host: the pool and the users' hosts always add up to the initial count. */
  lemma HostsConservedInRuns(default: nat, ss: seq<State>, es: seq<Stamped>, n: nat, us: seq<UserId>)
    requires IsRun(default, ss, es) && Consistent(ss[0].db) && n <= |es|
    requires Lists(us, ss[n].db.users.Keys)
    ensures |Available(ss[n].db.hosts)| + OwnedTotal(ss[n].db.hosts, us) == |ss[0].db.hosts|
  {
    TablesStayConsistent(default, ss, es, n);
    HostsConserved(ss[n].db, us);
    assert |ss[n].db.hosts| == |ss[n].db.hosts.Keys| && |ss[0].db.hosts| == |ss[0].db.hosts.Keys|;
  }

  // ---------- what one step may do to one host ----------

  ghost predicate LeasesTo(e: Stamped, row: Host, next: Host) {
    && (e.event.Lease? || e.event.LeaseRandom?) && LeaseDuration(e.event.days, e.event.hours).Ok?
    && row.userId != Some(e.event.user)
    && next == row.(userId := Some(e.event.user),
                    leasedUntil := Some(e.time + LeaseDuration(e.event.days, e.event.hours).value))
  }

  /** A row changes only in these ways: it is freed, leased by somebody who did not hold it, or extended. */
  ghost predicate RowStep(s: State, e: Stamped, h: HostId, row: Host, next: Host) {
    || next == row
    || next == row.(userId := None, leasedUntil := None)
    || LeasesTo(e, row, next)
    || (Extends(s, e, h) && row.leasedUntil.Some?
        && next == row.(leasedUntil := Some(row.leasedUntil.value + Hours(e.event.plus))))
  }

  lemma LeaseOnHost(default: nat, s: State, e: Stamped, h: HostId)
    requires Enabled(s, e) && Consistent(s.db) && h in s.db.hosts && e.event.Lease?
    ensures h in Next(default, s, e).db.hosts
    ensures RowStep(s, e, h, s.db.hosts[h], Next(default, s, e).db.hosts[h])
  {
    var d := LeaseDuration(e.event.days, e.event.hours);
    if d.Ok? {
      var until := e.time + d.value;
      LeaseSucceedsIff(s.db, default, e.event.user, e.event.groups, e.event.ids, until);
      LeaseCheckPassesIff(s.db, default, e.event.user, e.event.groups, e.event.ids);
      if LeaseTx(s.db, default, e.event.user, e.event.groups, e.event.ids, until).1.Ok? {
        LeaseEffect(s.db, default, e.event.user, e.event.groups, e.event.ids, until);
      }
    }
  }

  lemma LeaseRandomOnHost(default: nat, s: State, e: Stamped, h: HostId)
    requires Enabled(s, e) && Consistent(s.db) && h in s.db.hosts && e.event.LeaseRandom?
    ensures h in Next(default, s, e).db.hosts
    ensures RowStep(s, e, h, s.db.hosts[h], Next(default, s, e).db.hosts[h])
  {
  }

  lemma StepOnHost(default: nat, s: State, e: Stamped, h: HostId)
    requires Enabled(s, e) && Consistent(s.db) && h in s.db.hosts
    ensures h in Next(default, s, e).db.hosts
    ensures RowStep(s, e, h, s.db.hosts[h], Next(default, s, e).db.hosts[h])
    ensures Extends(s, e, h) ==>
              s.db.hosts[h].leasedUntil.Some? &&
              Next(default, s, e).db.hosts[h]
              == s.db.hosts[h].(leasedUntil := Some(s.db.hosts[h].leasedUntil.value + Hours(e.event.plus)))
  {
    match e.event
    case Lease(_, _, _, _, _) => LeaseOnHost(default, s, e, h);
    case LeaseRandom(_, _, _, _, _, _) => LeaseRandomOnHost(default, s, e, h);
    case _ =>
  }

  /** This event extends host `h`: its owner pressed a button while it was in the notify window. */
  ghost predicate Extends(s: State, e: Stamped, h: HostId) {
    && e.event.Extend? && e.event.plus > 0 && e.event.who.Some?
    && h in ExpiringOf(s.db.hosts, e.event.who.value, e.time + EXPIRATION_NOTIFY_WINDOW)
  }

  // ---------- the horizon ----------

  function Horizon(maxPlus: nat): Time {
    if EXPIRATION_NOTIFY_WINDOW + Hours(maxPlus) > MAX_LEASE then EXPIRATION_NOTIFY_WINDOW + Hours(maxPlus) else MAX_LEASE
  }

  ghost predicate WithinHorizon(s: State, maxPlus: nat) {
    forall h :: h in s.db.hosts && s.db.hosts[h].leasedUntil.Some? ==>
      s.db.hosts[h].leasedUntil.value <= s.now + Horizon(maxPlus)
  }

  /** If no press extends by more than `maxPlus` hours, no expiry ever lies further ahead than the longest
      lease, or the window plus `maxPlus` hours if that is longer. */
  lemma {:induction false} LeaseHorizon(default: nat, ss: seq<State>, es: seq<Stamped>, n: nat, maxPlus: nat)
    requires IsRun(default, ss, es) && Consistent(ss[0].db) && n <= |es|
    requires WithinHorizon(ss[0], maxPlus)
    requires forall i :: 0 <= i < |es| && es[i].event.Extend? ==> es[i].event.plus <= maxPlus
    ensures WithinHorizon(ss[n], maxPlus)
  {
    if n > 0 {
      LeaseHorizon(default, ss, es, n - 1, maxPlus);
      TablesStayConsistent(default, ss, es, n - 1);
      var s, e := ss[n - 1], es[n - 1];
      forall h | h in ss[n].db.hosts && ss[n].db.hosts[h].leasedUntil.Some?
        ensures ss[n].db.hosts[h].leasedUntil.value <= ss[n].now + Horizon(maxPlus)
      {
        StepConsistent(default, s, e);
        StepOnHost(default, s, e, h);
      }
    }
  }

  /** With the buttons the bot sends (+1h, +8h, +1d), the horizon is 1535 hours, the longest lease. */
  lemma ButtonsKeepTheHorizon(default: nat, ss: seq<State>, es: seq<Stamped>, n: nat, h: HostId)
    requires IsRun(default, ss, es) && Consistent(ss[0].db) && n <= |es|
    requires Available(ss[0].db.hosts) == ss[0].db.hosts.Keys
    requires forall i :: 0 <= i < |es| && es[i].event.Extend? ==> es[i].event.plus in {1, 8, 24}
    requires h in ss[n].db.hosts && ss[n].db.hosts[h].leasedUntil.Some?
    ensures ss[n].db.hosts[h].leasedUntil.value <= ss[n].now + Hours(1535)
  {
    forall x | x in ss[0].db.hosts ensures ss[0].db.hosts[x].leasedUntil.None? {
      assert x in Available(ss[0].db.hosts);
    }
    LeaseHorizon(default, ss, es, n, 24);
  }

  /** The longest lease stays the horizon exactly up to extensions of 1534 hours. */
  lemma HorizonIsTheLongestLease(plus: nat)
    ensures Horizon(plus) == MAX_LEASE == Hours(1535) <==> plus <= 1534
  {
  }

  // ---------- the expiry floor ----------

  ghost predicate NoneExpiredAt(s: State, t: Time) {
    forall h :: h in s.db.hosts && s.db.hosts[h].userId.Some? ==>
      s.db.hosts[h].leasedUntil.Some? && s.db.hosts[h].leasedUntil.value >= t
  }

  lemma FloorStep(default: nat, s: State, e: Stamped, t: Time)
    requires Enabled(s, e) && Consistent(s.db) && t <= s.now && NoneExpiredAt(s, t)
    ensures NoneExpiredAt(Next(default, s, e), t)
  {
    StepConsistent(default, s, e);
    var after := Next(default, s, e);
    forall h | h in after.db.hosts && after.db.hosts[h].userId.Some?
      ensures after.db.hosts[h].leasedUntil.value >= t
    {
      StepOnHost(default, s, e, h);
    }
  }

  /** After a release pass at time t no owned host ever again has an expiry before t. */
  lemma {:induction false} ExpiryFloor(default: nat, ss: seq<State>, es: seq<Stamped>, i: nat, n: nat)
    requires IsRun(default, ss, es) && Consistent(ss[0].db) && i < n <= |es|
    requires es[i].event.Release?
    ensures NoneExpiredAt(ss[n], es[i].time)
    ensures es[i].time <= ss[n].now
    decreases n
  {
    TablesStayConsistent(default, ss, es, n - 1);
    var s, e := ss[n - 1], es[n - 1];
    if n - 1 == i {
      ReleaseMeaning(s.db, e.time);
      assert forall h :: h in ss[n].db.hosts ==> h !in ExpiringBefore(ss[n].db.hosts, e.time);
    } else {
      ExpiryFloor(default, ss, es, i, n - 1);
      FloorStep(default, s, e, es[i].time);
    }
  }

  // ---------- lease time is monotone per ownership ----------

  ghost predicate Owns(s: State, u: UserId, h: HostId) {
    h in s.db.hosts && s.db.hosts[h].userId == Some(u)
  }

  /** While a host keeps one owner its expiry never decreases, and a step changes it only when the owner
      extends it by a positive number of hours at a time it lies within 30 minutes. */
  lemma KeptHostStep(default: nat, s: State, e: Stamped, u: UserId, h: HostId)
    requires Enabled(s, e) && Consistent(s.db)
    requires Owns(s, u, h) && Owns(Next(default, s, e), u, h)
    ensures var until, next := s.db.hosts[h].leasedUntil, Next(default, s, e).db.hosts[h].leasedUntil;
            && until.Some? && next.Some?
            && (next != until <==> Extends(s, e, h))
            && (next != until ==>
                  && e.event.who == Some(u) && e.event.plus >= 1
                  && until.value < e.time + Minutes(30)
                  && next.value == until.value + Hours(e.event.plus))
  {
    StepOnHost(default, s, e, h);
  }

  lemma {:induction false} LeaseTimeMonotone(default: nat, ss: seq<State>, es: seq<Stamped>, i: nat, n: nat, u: UserId, h: HostId)
    requires IsRun(default, ss, es) && Consistent(ss[0].db) && i <= n <= |es|
    requires forall k :: i <= k <= n ==> Owns(ss[k], u, h)
    ensures Owns(ss[i], u, h) && ss[i].db.hosts[h].leasedUntil.Some?
    ensures Owns(ss[n], u, h) && ss[n].db.hosts[h].leasedUntil.Some?
    ensures ss[i].db.hosts[h].leasedUntil.value <= ss[n].db.hosts[h].leasedUntil.value
    ensures ss[i].db.hosts[h].leasedUntil == ss[n].db.hosts[h].leasedUntil
            <==> forall k :: i <= k < n ==> !Extends(ss[k], es[k], h)
    decreases n
  {
    TablesStayConsistent(default, ss, es, i);
    if i < n {
      LeaseTimeMonotone(default, ss, es, i, n - 1, u, h);
      TablesStayConsistent(default, ss, es, n - 1);
      assert Owns(ss[n - 1], u, h) && Owns(ss[n], u, h);
      KeptHostStep(default, ss[n - 1], es[n - 1], u, h);
    }
  }

  lemma {:induction false} TimeNeverGoesBack(default: nat, ss: seq<State>, es: seq<Stamped>, i: nat, n: nat)
    requires IsRun(default, ss, es) && i <= n <= |es|
    ensures ss[i].now <= ss[n].now
    decreases n
  {
    if i < n { TimeNeverGoesBack(default, ss, es, i, n - 1); }
  }

  // ---------- the lease limit ----------

  /** No request of `u` carries groups that give `u` more than this limit. */
  ghost predicate LimitedTo(default: nat, limits: map<string, int>, es: seq<Stamped>, u: UserId, limit: nat) {
    forall i :: 0 <= i < |es| && (es[i].event.Lease? || es[i].event.LeaseRandom?) && es[i].event.user == u ==>
      var l := LeaseLimit(limits, es[i].event.groups, default);
      l.Ok? ==> l.value <= limit
  }

  /** The count does not grow, or it is the requester's and stays within the limit. */
  ghost predicate CountStep(default: nat, db: Db, after: Db, u: UserId, requester: UserId, groups: seq<string>) {
    || |OwnedBy(after.hosts, u)| <= |OwnedBy(db.hosts, u)|
    || (&& requester == u && LeaseLimit(db.limits, groups, default).Ok?
        && |OwnedBy(after.hosts, u)| <= LeaseLimit(db.limits, groups, default).value)
  }

  lemma LeaseCount(db: Db, default: nat, v: UserId, groups: seq<string>, ids: seq<HostId>, until: Time, u: UserId)
    requires Consistent(db)
    ensures CountStep(default, db, LeaseTx(db, default, v, groups, ids, until).0, u, v, groups)
  {
    LeaseSucceedsIff(db, default, v, groups, ids, until);
    if LeaseTx(db, default, v, groups, ids, until).1.Ok? {
      LeaseEffect(db, default, v, groups, ids, until);
      LeaseMovesExactly(db.hosts, SetOf(ids), v, until, u);
    }
  }

  lemma LeaseRandomCount(db: Db, default: nat, v: UserId, groups: seq<string>, g: GroupId, pick: Option<HostId>, until: Time, u: UserId)
    requires Consistent(db) && LegalPick(db, g, pick)
    ensures CountStep(default, db, LeaseRandomTx(db, default, v, groups, pick, until).0, u, v, groups)
  {
    LeaseRandomSucceedsIff(db, default, v, groups, g, pick, until);
    if LeaseRandomTx(db, default, v, groups, pick, until).1.Ok? {
      LeaseRandomEffect(db, default, v, groups, g, pick, until, u);
    }
  }

  /** A step makes a user's count grow only by a request of that user, which leaves it within the limit. */
  lemma StepCount(default: nat, s: State, e: Stamped, u: UserId)
    requires Enabled(s, e) && Consistent(s.db)
    ensures var after := Next(default, s, e).db;
            if e.event.Lease? || e.event.LeaseRandom?
            then CountStep(default, s.db, after, u, e.event.user, e.event.groups)
            else |OwnedBy(after.hosts, u)| <= |OwnedBy(s.db.hosts, u)|
  {
    match e.event
    case Lease(v, groups, ids, days, hours) =>
      if LeaseDuration(days, hours).Ok? {
        LeaseCount(s.db, default, v, groups, ids, e.time + LeaseDuration(days, hours).value, u);
      }
    case LeaseRandom(v, groups, g, pick, days, hours) =>
      if LeaseDuration(days, hours).Ok? {
        LeaseRandomCount(s.db, default, v, groups, g, pick, e.time + LeaseDuration(days, hours).value, u);
      }
    case Free(v, ids) => FreeMovesExactly(s.db.hosts, SetOf(ids), v, u);
    case FreeAll(v) => FreeMovesExactly(s.db.hosts, {}, v, u);
    case Extend(_, who, plus) =>
      if plus > 0 && who.Some? { ExtendMovesNothing(s.db.hosts, ExtendTx(s.db, who, plus, e.time).1, plus, u); }
    case Release => FreeMovesExactly(s.db.hosts, ExpiringBefore(s.db.hosts, e.time), u, u);
    case _ =>
  }

  lemma LimitStep(default: nat, s: State, e: Stamped, u: UserId, limit: nat)
    requires Enabled(s, e) && Consistent(s.db) && |OwnedBy(s.db.hosts, u)| <= limit
    requires LimitedTo(default, s.db.limits, [e], u, limit)
    ensures |OwnedBy(Next(default, s, e).db.hosts, u)| <= limit
  {
    StepCount(default, s, e, u);
    assert [e][0] == e;
  }

  /** A user who starts within the limit stays within it in every run, whatever ids are requested. */
  lemma {:induction false} LimitHolds(default: nat, ss: seq<State>, es: seq<Stamped>, n: nat, u: UserId, limit: nat)
    requires IsRun(default, ss, es) && Consistent(ss[0].db) && n <= |es|
    requires LimitedTo(default, ss[0].db.limits, es, u, limit)
    requires |OwnedBy(ss[0].db.hosts, u)| <= limit
    ensures |OwnedBy(ss[n].db.hosts, u)| <= limit
  {
    if n > 0 {
      LimitHolds(default, ss, es, n - 1, u, limit);
      TablesStayConsistent(default, ss, es, n - 1);
      LimitStep(default, ss[n - 1], es[n - 1], u, limit);
    }
  }
}
