/** Runs in which transactions overlap. `begin` sets no isolation level, so what a transaction has read
    can be stale when it writes: each transaction is split into its reads and checks, and its write and commit. */
module Overlap {
  import opened Types
  import opened Durations
  import opened Tables
  import opened Transactions
  import opened Announcements

  /** A transaction that has read and checked, and has still to write. */
  datatype Pending =
    | Leasing(user: UserId, wanted: set<HostId>, lasting: Time)
    | Extending(ids: set<HostId>, plus: nat)
    | Releasing(found: map<HostId, UserId>)

  datatype Event =
    | CheckLease(user: UserId, groups: seq<string>, ids: seq<HostId>, days: nat, hours: nat)
    | CheckRandom(user: UserId, groups: seq<string>, group: GroupId, pick: Option<HostId>, days: nat, hours: nat)
    | ReadExpiring(user: UserId, plus: nat)
    | ReadExpired
    | Commit(index: nat)
    | Abort(index: nat)
    | Free(user: UserId, ids: seq<HostId>)
    | FreeAll(user: UserId)
    | AddUser(user: UserId)
    | Scan(delivered: set<UserId>)

  datatype Stamped = At(time: Time, event: Event)

  datatype State = State(db: Db, now: Time, pending: seq<Pending>)

  predicate Enabled(s: State, e: Stamped) {
    && s.now <= e.time
    && match e.event
       case CheckRandom(_, _, g, pick, _, _) => LegalPick(s.db, g, pick)
       case Commit(i) => i < |s.pending|
       case Abort(i) => i < |s.pending|
       case ReadExpiring(_, plus) => plus > 0
       case AddUser(u) => u !in s.db.users
       case _ => true
  }

  function Without(ps: seq<Pending>, i: nat): seq<Pending>
    requires i < |ps|
  {
    ps[..i] + ps[i + 1..]
  }

  /** The transaction that a read event leaves in flight, if its checks pass. */
  function Begun(default: nat, db: Db, e: Stamped): Option<Pending> {
    match e.event
    case CheckLease(u, groups, ids, days, hours) =>
      var d, wanted := LeaseDuration(days, hours), LeaseCheck(db, default, u, groups, ids);
      if d.Ok? && wanted.Ok? then Some(Leasing(u, wanted.value, d.value)) else None
    case CheckRandom(u, groups, _, pick, days, hours) =>
      var d, h := LeaseDuration(days, hours), RandomCheck(db, default, u, groups, pick);
      if d.Ok? && h.Ok? then Some(Leasing(u, {h.value}, d.value)) else None
    case ReadExpiring(u, plus) => Some(Extending(ExpiringOf(db.hosts, u, e.time + EXPIRATION_NOTIFY_WINDOW), plus))
    case ReadExpired => Some(Releasing(Expired(db.hosts, e.time)))
    case _ => None
  }

  function Written(db: Db, p: Pending, now: Time): Db {
    match p
    case Leasing(u, wanted, lasting) =>
      (match LeaseWrite(db, u, wanted, now + lasting)
       case Ok(after) => after
       case Err(_) => db)
    case Extending(ids, plus) => db.(hosts := ExtendHosts(db.hosts, ids, plus))
    case Releasing(found) => db.(hosts := FreeHosts(db.hosts, found.Keys))
  }

  function Next(default: nat, s: State, e: Stamped): State
    requires Enabled(s, e)
  {
    match e.event
    case Commit(i) => State(Written(s.db, s.pending[i], e.time), e.time, Without(s.pending, i))
    case Abort(i) => State(s.db, e.time, Without(s.pending, i))
    case Free(u, ids) => State(s.db.(hosts := FreeHostsForUser(s.db.hosts, SetOf(ids), u)), e.time, s.pending)
    case FreeAll(u) => State(s.db.(hosts := FreeAllHosts(s.db.hosts, u)), e.time, s.pending)
    case AddUser(u) => State(s.db.(users := s.db.users[u := User(None)]), e.time, s.pending)
    case _ =>
      match Begun(default, s.db, e)
      case None => State(s.db, e.time, s.pending)
      case Some(p) => State(s.db, e.time, s.pending + [p])
  }

  ghost predicate IsRun(default: nat, ss: seq<State>, es: seq<Stamped>) {
    && |ss| == |es| + 1
    && forall i :: 0 <= i < |es| ==> Enabled(ss[i], es[i]) && ss[i + 1] == Next(default, ss[i], es[i])
  }

  lemma WithoutCounts(ps: seq<Pending>, i: nat)
    requires i < |ps|
    ensures multiset(Without(ps, i)) == multiset(ps) - multiset{ps[i]}
  {
    assert ps == ps[..i] + [ps[i]] + ps[i + 1..];
  }

  /** Every transaction in flight began with a read that passed its checks, and leaves by its own commit or abort. */
  lemma PendingStep(default: nat, s: State, e: Stamped)
    requires Enabled(s, e)
    ensures e.event.Commit? || e.event.Abort? ==>
              multiset(Next(default, s, e).pending) == multiset(s.pending) - multiset{s.pending[e.event.index]}
    ensures !e.event.Commit? && !e.event.Abort? ==>
              Next(default, s, e).pending
              == s.pending + (if Begun(default, s.db, e).Some? then [Begun(default, s.db, e).value] else [])
  {
    if e.event.Commit? || e.event.Abort? {
      WithoutCounts(s.pending, e.event.index);
    }
  }

  /** Reads, aborts and scans change no table; users only come. */
  lemma TablesStep(default: nat, s: State, e: Stamped)
    requires Enabled(s, e)
    ensures !e.event.Commit? && !e.event.Free? && !e.event.FreeAll? && !e.event.AddUser? ==> Next(default, s, e).db == s.db
    ensures Next(default, s, e).db.users.Keys == s.db.users.Keys + (if e.event.AddUser? then {e.event.user} else {})
  {
  }

  ghost predicate Step(default: nat, s: State, e: Stamped, t: State) {
    Enabled(s, e) && t == Next(default, s, e)
  }

  /** A run is built one step at a time. */
  lemma Append(default: nat, ss: seq<State>, es: seq<Stamped>, e: Stamped, t: State)
    requires IsRun(default, ss, es) && Step(default, ss[|es|], e, t)
    ensures IsRun(default, ss + [t], es + [e])
  {
    forall i | 0 <= i < |es| + 1 ensures Step(default, (ss + [t])[i], (es + [e])[i], (ss + [t])[i + 1]) {
      if i < |es| {
        assert Step(default, ss[i], es[i], ss[i + 1]);
      }
    }
  }

  /** Two runs join where one ends and the other begins. */
  lemma Join(default: nat, ss: seq<State>, es: seq<Stamped>, ts: seq<State>, fs: seq<Stamped>)
    requires IsRun(default, ss, es) && IsRun(default, ts, fs) && ts[0] == ss[|es|]
    ensures var all := ss[..|es|] + ts;
            && IsRun(default, all, es + fs)
            && (forall i :: 0 <= i <= |es| ==> all[i] == ss[i])
            && (forall i :: 0 <= i <= |fs| ==> all[|es| + i] == ts[i])
  {
    var all := ss[..|es|] + ts;
    forall i | 0 <= i < |es| + |fs| ensures Step(default, all[i], (es + fs)[i], all[i + 1]) {
      if i < |es| {
        StepOf(default, ss, es, i);
      } else {
        StepOf(default, ts, fs, i - |es|);
      }
    }
    StepsAreRun(default, all, es + fs);
  }

  lemma StepOf(default: nat, ss: seq<State>, es: seq<Stamped>, i: nat)
    requires IsRun(default, ss, es) && i < |es|
    ensures Step(default, ss[i], es[i], ss[i + 1])
  {
  }

  lemma StepsAreRun(default: nat, ss: seq<State>, es: seq<Stamped>)
    requires |ss| == |es| + 1 && forall i :: 0 <= i < |es| ==> Step(default, ss[i], es[i], ss[i + 1])
    ensures IsRun(default, ss, es)
  {
    forall i | 0 <= i < |es| ensures Enabled(ss[i], es[i]) && ss[i + 1] == Next(default, ss[i], es[i]) {
      assert Step(default, ss[i], es[i], ss[i + 1]);
    }
  }

  // ---------- sums over the transactions in flight ----------

  function Total(weight: Pending -> nat, ps: seq<Pending>): nat {
    if ps == [] then 0 else weight(ps[0]) + Total(weight, ps[1..])
  }

  lemma {:induction false} TotalAppends(weight: Pending -> nat, ps: seq<Pending>, qs: seq<Pending>)
    ensures Total(weight, ps + qs) == Total(weight, ps) + Total(weight, qs)
  {
    if ps == [] {
      assert ps + qs == qs;
    } else {
      TotalAppends(weight, ps[1..], qs);
      assert (ps + qs)[1..] == ps[1..] + qs;
    }
  }

  lemma TotalBegins(weight: Pending -> nat, ps: seq<Pending>, p: Pending)
    ensures Total(weight, ps + [p]) == Total(weight, ps) + weight(p)
  {
    TotalAppends(weight, ps, [p]);
    assert [p][1..] == [];
  }

  lemma TotalEnds(weight: Pending -> nat, ps: seq<Pending>, i: nat)
    requires i < |ps|
    ensures Total(weight, ps) == Total(weight, Without(ps, i)) + weight(ps[i])
  {
    assert ps == ps[..i] + ps[i..];
    TotalAppends(weight, ps[..i], ps[i..]);
    TotalAppends(weight, ps[..i], ps[i + 1..]);
    assert ps[i..][1..] == ps[i + 1..];
  }

  lemma {:induction false} TotalBounded(weight: Pending -> nat, count: Pending -> nat, ps: seq<Pending>, bound: nat)
    requires forall p :: p in ps ==> weight(p) <= count(p) * bound
    ensures Total(weight, ps) <= Total(count, ps) * bound
  {
    if ps != [] {
      assert ps == [ps[0]] + ps[1..];
      assert ps[0] in ps;
      TotalBounded(weight, count, ps[1..], bound);
      assert (count(ps[0]) + Total(count, ps[1..])) * bound == count(ps[0]) * bound + Total(count, ps[1..]) * bound;
    }
  }

  lemma Scales(a: nat, b: nat, bound: nat)
    requires a <= b
    ensures a * bound <= b * bound
  {
  }

  // ---------- tables stay consistent ----------

  lemma StepConsistent(default: nat, s: State, e: Stamped)
    requires Enabled(s, e) && Consistent(s.db)
    ensures var after := Next(default, s, e).db;
            Consistent(after) && after.hosts.Keys == s.db.hosts.Keys && after.limits == s.db.limits
  {
    match e.event
    case Commit(i) => WrittenConsistent(s.db, s.pending[i], e.time);
    case Free(u, ids) => StatementsKeepPaired(s.db.hosts, SetOf(ids), u, 0, 0);
    case FreeAll(u) => StatementsKeepPaired(s.db.hosts, {}, u, 0, 0);
    case _ =>
  }

  lemma WrittenConsistent(db: Db, p: Pending, now: Time)
    requires Consistent(db)
    ensures Consistent(Written(db, p, now))
    ensures Written(db, p, now) == db.(hosts := Written(db, p, now).hosts)
    ensures Written(db, p, now).hosts.Keys == db.hosts.Keys
  {
    match p
    case Leasing(u, wanted, lasting) =>
      DisjointMeaning(wanted, db.hosts.Keys);
      StatementsKeepPaired(db.hosts, wanted, u, now + lasting, 0);
    case Extending(ids, plus) => StatementsKeepPaired(db.hosts, ids, 0, 0, plus);
    case Releasing(found) => StatementsKeepPaired(db.hosts, found.Keys, 0, 0, 0);
  }

  /** Table consistency survives every overlap: no stale write separates an owner from its expiry,
      or installs an unknown owner. */
  lemma {:induction false} OverlapKeepsTablesConsistent(default: nat, ss: seq<State>, es: seq<Stamped>, n: nat)
    requires IsRun(default, ss, es) && Consistent(ss[0].db) && n <= |es|
    ensures Consistent(ss[n].db)
    ensures ss[n].db.hosts.Keys == ss[0].db.hosts.Keys && ss[n].db.limits == ss[0].db.limits
  {
    if n > 0 {
      OverlapKeepsTablesConsistent(default, ss, es, n - 1);
      StepConsistent(default, ss[n - 1], es[n - 1]);
    }
  }

  // ---------- a transaction that nothing overlaps is atomic ----------

  lemma AloneCommits(default: nat, s: State, e: Stamped)
    requires Enabled(s, e) && Begun(default, s.db, e).Some?
    ensures var read, commit := Next(default, s, e), At(e.time, Commit(|s.pending|));
            Enabled(read, commit)
            && Next(default, read, commit) == State(Written(s.db, Begun(default, s.db, e).value, e.time), e.time, s.pending)
  {
    assert Without(s.pending + [Begun(default, s.db, e).value], |s.pending|) == s.pending;
  }

  /** A read followed at once by its commit, if its checks passed. */
  function Alone(default: nat, s: State, e: Stamped): State
    requires Enabled(s, e)
  {
    if Begun(default, s.db, e).Some? && Enabled(Next(default, s, e), At(e.time, Commit(|s.pending|)))
    then Next(default, Next(default, s, e), At(e.time, Commit(|s.pending|)))
    else Next(default, s, e)
  }

  /** Checking and committing with nothing in between, at one time, is the atomic transaction, refusals
      included: the two levels agree. */
  lemma AloneIsAtomic(default: nat, s: State, e: Stamped)
    requires Enabled(s, e)
    requires e.event.CheckLease? || e.event.CheckRandom? || e.event.ReadExpiring? || e.event.ReadExpired?
    ensures Alone(default, s, e).pending == s.pending && Alone(default, s, e).now == e.time
    ensures Alone(default, s, e).db ==
            match e.event
            case CheckLease(u, groups, ids, days, hours) =>
              if days > 63 || hours > 23 then s.db
              else LeaseTx(s.db, default, u, groups, ids, e.time + Hours(24 * days + hours)).0
            case CheckRandom(u, groups, _, pick, days, hours) =>
              if days > 63 || hours > 23 then s.db
              else LeaseRandomTx(s.db, default, u, groups, pick, e.time + Hours(24 * days + hours)).0
            case ReadExpiring(u, plus) => ExtendTx(s.db, Some(u), plus, e.time).0
            case _ => ReleaseTx(s.db, e.time)
  {
    if Begun(default, s.db, e).Some? {
      AloneCommits(default, s, e);
    }
  }
}
