/** What the limits and the expiry guarantees become when transactions overlap. */
module OverlapBounds {
  import opened Types
  import opened Durations
  import opened Tables
  import opened LeaseLimits
  import opened Transactions
  import opened Overlap

  // ---------- bounded overshoot of the lease limit ----------

  /** The hosts a transaction in flight may still give to `u`, and whether it is one of `u`'s leases. */
  function SizeFor(u: UserId): Pending -> nat {
    (p: Pending) => if p.Leasing? && p.user == u then |p.wanted| else 0
  }

  function LeasesOf(u: UserId): Pending -> nat {
    (p: Pending) => if p.Leasing? && p.user == u then 1 else 0
  }

  ghost predicate LimitedTo(default: nat, limits: map<string, int>, e: Overlap.Stamped, u: UserId, limit: nat) {
    (e.event.CheckLease? || e.event.CheckRandom?) && e.event.user == u ==>
      var l := LeaseLimit(limits, e.event.groups, default);
      l.Ok? ==> l.value <= limit
  }

  /** What the limit bounds under overlap: the hosts of `u` plus all that its requests in flight may add. */
  ghost predicate Bounded(s: State, u: UserId, m: nat, limit: nat) {
    && (forall p :: p in s.pending ==> SizeFor(u)(p) <= LeasesOf(u)(p) * limit)
    && |OwnedBy(s.db.hosts, u)| + Total(SizeFor(u), s.pending) <= m * limit
  }

  /** A check that passes leaves the requested hosts, with those already held, within the limit. */
  lemma BeginsWithinLimit(default: nat, s: State, e: Overlap.Stamped, u: UserId, limit: nat)
    requires Enabled(s, e) && Consistent(s.db)
    requires Begun(default, s.db, e).Some? && LimitedTo(default, s.db.limits, e, u, limit)
    ensures var p := Begun(default, s.db, e).value;
            p.Leasing? && p.user == u ==> |OwnedBy(s.db.hosts, u)| + |p.wanted| <= limit
  {
    if e.event.CheckLease? {
      LeaseCheckPassesIff(s.db, default, e.event.user, e.event.groups, e.event.ids);
    }
  }

  /** A commit adds to a user at most what its own lease in flight asked for. */
  lemma CommitAddsAtMost(db: Db, p: Pending, now: Time, u: UserId)
    ensures |OwnedBy(Written(db, p, now).hosts, u)| <= |OwnedBy(db.hosts, u)| + SizeFor(u)(p)
  {
    match p
    case Leasing(v, wanted, lasting) => LeaseAddsAtMost(db, v, wanted, lasting, now, u);
    case Extending(ids, plus) => ExtendMovesNothing(db.hosts, ids, plus, u);
    case Releasing(found) => FreeMovesExactly(db.hosts, found.Keys, u, u);
  }

  lemma LeaseAddsAtMost(db: Db, v: UserId, wanted: set<HostId>, lasting: Time, now: Time, u: UserId)
    ensures |OwnedBy(Written(db, Leasing(v, wanted, lasting), now).hosts, u)|
            <= |OwnedBy(db.hosts, u)| + (if v == u then |wanted| else 0)
  {
    LeaseMovesExactly(db.hosts, wanted, v, now + lasting, u);
    if v != u {
      Shrinks(OwnedBy(db.hosts, u), wanted);
    }
  }

  lemma Shrinks(a: set<HostId>, b: set<HostId>)
    ensures |a - b| <= |a|
  {
    assert |a| == |a - b| + |a * b|;
  }

  lemma BoundedBegin(s: State, p: Pending, u: UserId, m: nat, limit: nat)
    requires Bounded(s, u, m, limit)
    requires p.Leasing? && p.user == u ==> |OwnedBy(s.db.hosts, u)| + |p.wanted| <= limit
    requires Total(LeasesOf(u), s.pending + [p]) <= m
    ensures Bounded(s.(pending := s.pending + [p]), u, m, limit)
  {
    TotalBegins(SizeFor(u), s.pending, p);
    TotalBegins(LeasesOf(u), s.pending, p);
    if p.Leasing? && p.user == u {
      TotalBounded(SizeFor(u), LeasesOf(u), s.pending, limit);
      Scales(Total(LeasesOf(u), s.pending), m - 1, limit);
      assert m * limit == (m - 1) * limit + limit;
    }
  }

  lemma BoundedEnd(s: State, i: nat, db: Db, u: UserId, m: nat, limit: nat)
    requires i < |s.pending| && Bounded(s, u, m, limit)
    requires |OwnedBy(db.hosts, u)| <= |OwnedBy(s.db.hosts, u)| + SizeFor(u)(s.pending[i])
    ensures Bounded(State(db, s.now, Without(s.pending, i)), u, m, limit)
  {
    TotalEnds(SizeFor(u), s.pending, i);
  }

  lemma BoundedStep(default: nat, s: State, e: Overlap.Stamped, u: UserId, m: nat, limit: nat)
    requires Enabled(s, e) && Consistent(s.db) && Bounded(s, u, m, limit)
    requires LimitedTo(default, s.db.limits, e, u, limit)
    requires Total(LeasesOf(u), Next(default, s, e).pending) <= m
    ensures Bounded(Next(default, s, e), u, m, limit)
  {
    match e.event
    case Commit(i) =>
      CommitAddsAtMost(s.db, s.pending[i], e.time, u);
      BoundedEnd(s, i, Written(s.db, s.pending[i], e.time), u, m, limit);
    case Abort(i) =>
      BoundedEnd(s, i, s.db, u, m, limit);
    case Free(v, ids) => FreeMovesExactly(s.db.hosts, SetOf(ids), v, u);
    case FreeAll(v) => FreeMovesExactly(s.db.hosts, {}, v, u);
    case AddUser(_) =>
    case Scan(_) =>
    case _ =>
      var p := Begun(default, s.db, e);
      if p.Some? {
        BeginsWithinLimit(default, s, e, u, limit);
        BoundedBegin(s, p.value, u, m, limit);
      }
  }

  /** With at most `m` of a user's lease transactions in flight at any time, the user's hosts, together with
      everything still in flight, never exceed `m` times the limit, whatever releases, extensions and other
      users' leases overlap. With `m == 1` the limit itself holds. */
  lemma {:induction false} OvershootBounded(default: nat, ss: seq<State>, es: seq<Overlap.Stamped>, n: nat,
                                            u: UserId, m: nat, limit: nat)
    requires IsRun(default, ss, es) && Consistent(ss[0].db) && n <= |es|
    requires m >= 1 && ss[0].pending == [] && |OwnedBy(ss[0].db.hosts, u)| <= limit
    requires forall i :: 0 <= i < |es| ==> LimitedTo(default, ss[0].db.limits, es[i], u, limit)
    requires forall i :: 0 <= i < |ss| ==> Total(LeasesOf(u), ss[i].pending) <= m
    ensures Bounded(ss[n], u, m, limit)
    ensures |OwnedBy(ss[n].db.hosts, u)| <= m * limit
  {
    if n == 0 {
      Scales(1, m, limit);
    } else {
      OvershootBounded(default, ss, es, n - 1, u, m, limit);
      OverlapKeepsTablesConsistent(default, ss, es, n - 1);
      assert ss[n] == Next(default, ss[n - 1], es[n - 1]);
      BoundedStep(default, ss[n - 1], es[n - 1], u, m, limit);
    }
  }

  // ---------- the horizon under overlap ----------

  /** The hours that transactions in flight may still add to host `h`, and whether one is an extension. */
  function HoursFor(h: HostId): Pending -> nat {
    (p: Pending) => if p.Extending? && h in p.ids then p.plus else 0
  }

  function Extensions(): Pending -> nat {
    (p: Pending) => if p.Extending? then 1 else 0
  }

  ghost predicate WithinOverlapHorizon(s: State, slack: nat) {
    forall h :: h in s.db.hosts && s.db.hosts[h].leasedUntil.Some? ==>
      s.db.hosts[h].leasedUntil.value + Hours(Total(HoursFor(h), s.pending)) <= s.now + MAX_LEASE + Hours(slack)
  }

  ghost predicate Moderate(ps: seq<Pending>, maxPlus: nat) {
    forall p :: p in ps ==>
      && (p.Leasing? ==> 0 <= p.lasting <= MAX_LEASE)
      && (p.Extending? ==> p.plus <= maxPlus)
  }

  lemma HoursBounded(ps: seq<Pending>, h: HostId, maxPlus: nat, k: nat)
    requires Moderate(ps, maxPlus) && Total(Extensions(), ps) <= k
    ensures Total(HoursFor(h), ps) <= k * maxPlus
  {
    TotalBounded(HoursFor(h), Extensions(), ps, maxPlus);
    Scales(Total(Extensions(), ps), k, maxPlus);
  }

  lemma HorizonStep(default: nat, s: State, e: Overlap.Stamped, maxPlus: nat, k: nat)
    requires Enabled(s, e) && Consistent(s.db)
    requires e.event.ReadExpiring? ==> e.event.plus <= maxPlus
    requires Moderate(s.pending, maxPlus) && WithinOverlapHorizon(s, k * maxPlus)
    requires Total(Extensions(), s.pending) <= k && Total(Extensions(), Next(default, s, e).pending) <= k
    ensures Moderate(Next(default, s, e).pending, maxPlus)
    ensures WithinOverlapHorizon(Next(default, s, e), k * maxPlus)
  {
    ModerateStep(default, s, e, maxPlus);
    StepConsistent(default, s, e);
    var after := Next(default, s, e);
    forall h | h in after.db.hosts && after.db.hosts[h].leasedUntil.Some?
      ensures after.db.hosts[h].leasedUntil.value + Hours(Total(HoursFor(h), after.pending))
              <= after.now + MAX_LEASE + Hours(k * maxPlus)
    {
      HorizonHost(default, s, e, h, maxPlus, k);
    }
  }

  lemma ModerateStep(default: nat, s: State, e: Overlap.Stamped, maxPlus: nat)
    requires Enabled(s, e) && Moderate(s.pending, maxPlus)
    requires e.event.ReadExpiring? ==> e.event.plus <= maxPlus
    ensures Moderate(Next(default, s, e).pending, maxPlus)
  {
  }

  lemma HorizonHost(default: nat, s: State, e: Overlap.Stamped, h: HostId, maxPlus: nat, k: nat)
    requires Enabled(s, e) && h in s.db.hosts
    requires Moderate(s.pending, maxPlus) && WithinOverlapHorizon(s, k * maxPlus)
    requires Moderate(Next(default, s, e).pending, maxPlus)
    requires Total(Extensions(), s.pending) <= k && Total(Extensions(), Next(default, s, e).pending) <= k
    ensures var after := Next(default, s, e);
            h in after.db.hosts && after.db.hosts[h].leasedUntil.Some? ==>
              after.db.hosts[h].leasedUntil.value + Hours(Total(HoursFor(h), after.pending))
              <= after.now + MAX_LEASE + Hours(k * maxPlus)
  {
    HoursBounded(s.pending, h, maxPlus, k);
    HoursBounded(Next(default, s, e).pending, h, maxPlus, k);
    match e.event
    case Commit(i) => HorizonCommit(s, i, e.time, h, maxPlus, k * maxPlus);
    case Abort(i) => TotalEnds(HoursFor(h), s.pending, i);
    case Free(_, _) =>
    case FreeAll(_) =>
    case AddUser(_) =>
    case Scan(_) =>
    case _ => HorizonBegin(default, s, e, h, k * maxPlus);
  }

  lemma HorizonCommit(s: State, i: nat, now: Time, h: HostId, maxPlus: nat, slack: nat)
    requires i < |s.pending| && s.now <= now && h in s.db.hosts
    requires Moderate(s.pending, maxPlus) && WithinOverlapHorizon(s, slack)
    requires Total(HoursFor(h), s.pending) <= slack
    ensures var row := Written(s.db, s.pending[i], now).hosts;
            h in row && row[h].leasedUntil.Some? ==>
              row[h].leasedUntil.value + Hours(Total(HoursFor(h), Without(s.pending, i))) <= now + MAX_LEASE + Hours(slack)
  {
    TotalEnds(HoursFor(h), s.pending, i);
  }

  lemma HorizonBegin(default: nat, s: State, e: Overlap.Stamped, h: HostId, slack: nat)
    requires Enabled(s, e) && h in s.db.hosts
    requires e.event.CheckLease? || e.event.CheckRandom? || e.event.ReadExpiring? || e.event.ReadExpired?
    requires WithinOverlapHorizon(s, slack)
    requires Total(HoursFor(h), Next(default, s, e).pending) <= slack
    ensures s.db.hosts[h].leasedUntil.Some? ==>
              s.db.hosts[h].leasedUntil.value + Hours(Total(HoursFor(h), Next(default, s, e).pending))
              <= e.time + MAX_LEASE + Hours(slack)
  {
    var p := Begun(default, s.db, e);
    if p.Some? {
      TotalBegins(HoursFor(h), s.pending, p.value);
    }
  }

  /** What is in flight in a run: accepted leases, and extensions no longer than the presses. */
  lemma {:induction false} ModerateHolds(default: nat, ss: seq<State>, es: seq<Overlap.Stamped>, n: nat, maxPlus: nat)
    requires IsRun(default, ss, es) && n <= |es| && ss[0].pending == []
    requires forall i :: 0 <= i < |es| && es[i].event.ReadExpiring? ==> es[i].event.plus <= maxPlus
    ensures Moderate(ss[n].pending, maxPlus)
  {
    if n > 0 {
      ModerateHolds(default, ss, es, n - 1, maxPlus);
      assert ss[n] == Next(default, ss[n - 1], es[n - 1]);
      ModerateStep(default, ss[n - 1], es[n - 1], maxPlus);
    }
  }

  /** With at most `k` extensions of at most `maxPlus` hours in flight, no expiry lies further ahead than
      the longest lease plus `k * maxPlus` hours. */
  lemma {:induction false} OverlapHorizon(default: nat, ss: seq<State>, es: seq<Overlap.Stamped>, n: nat, maxPlus: nat, k: nat)
    requires IsRun(default, ss, es) && Consistent(ss[0].db) && n <= |es|
    requires ss[0].pending == [] && WithinOverlapHorizon(ss[0], 0)
    requires forall i :: 0 <= i < |es| && es[i].event.ReadExpiring? ==> es[i].event.plus <= maxPlus
    requires forall i :: 0 <= i < |ss| ==> Total(Extensions(), ss[i].pending) <= k
    ensures Moderate(ss[n].pending, maxPlus)
    ensures WithinOverlapHorizon(ss[n], k * maxPlus)
    ensures forall h :: h in ss[n].db.hosts && ss[n].db.hosts[h].leasedUntil.Some? ==>
              ss[n].db.hosts[h].leasedUntil.value <= ss[n].now + MAX_LEASE + Hours(k * maxPlus)
  {
    if n > 0 {
      OverlapHorizon(default, ss, es, n - 1, maxPlus, k);
      OverlapKeepsTablesConsistent(default, ss, es, n - 1);
      HorizonStep(default, ss[n - 1], es[n - 1], maxPlus, k);
    }
  }
}
