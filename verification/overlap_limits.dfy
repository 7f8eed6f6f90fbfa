/** The overlap bounds are exact, and the atomic guarantees that overlap does break. */
module OverlapLimits {
  import opened Types
  import opened Durations
  import opened Tables
  import opened LeaseLimits
  import opened Transactions
  import opened Announcements
  import opened Overlap
  import opened OverlapBounds

  // ---------- the overshoot bound is reached ----------

  function Requests(u: UserId, blocks: seq<seq<HostId>>, lasting: Time): seq<Pending> {
    if blocks == [] then [] else [Leasing(u, SetOf(blocks[0]), lasting)] + Requests(u, blocks[1..], lasting)
  }

  lemma {:induction false} RequestsGrow(u: UserId, blocks: seq<seq<HostId>>, block: seq<HostId>, lasting: Time)
    ensures Requests(u, blocks + [block], lasting) == Requests(u, blocks, lasting) + [Leasing(u, SetOf(block), lasting)]
  {
    if blocks != [] {
      RequestsGrow(u, blocks[1..], block, lasting);
      assert (blocks + [block])[1..] == blocks[1..] + [block];
    } else {
      assert (blocks + [block])[1..] == [];
    }
  }

  lemma {:induction false} RequestsCount(u: UserId, blocks: seq<seq<HostId>>, lasting: Time)
    ensures |Requests(u, blocks, lasting)| == Total(LeasesOf(u), Requests(u, blocks, lasting)) == |blocks|
  {
    if blocks != [] {
      RequestsCount(u, blocks[1..], lasting);
      assert Requests(u, blocks, lasting)[1..] == Requests(u, blocks[1..], lasting);
    }
  }

  /** The tables after the first requests have committed. */
  function Committed(db: Db, now: Time, u: UserId, blocks: seq<seq<HostId>>, lasting: Time): Db {
    if blocks == [] then db
    else
      Written(Committed(db, now, u, blocks[..|blocks| - 1], lasting),
              Leasing(u, SetOf(blocks[|blocks| - 1]), lasting), now)
  }

  /** `m` disjoint requests, each for exactly as many existing hosts as the limit allows. */
  ghost predicate Disjoint(db: Db, blocks: seq<seq<HostId>>, limit: nat) {
    && (forall i :: 0 <= i < |blocks| ==> SetOf(blocks[i]) <= db.hosts.Keys && |SetOf(blocks[i])| == limit)
    && (forall i, j :: 0 <= i < j < |blocks| ==> SetOf(blocks[i]) !! SetOf(blocks[j]))
  }

  lemma CommitOne(db: Db, now: Time, u: UserId, wanted: set<HostId>, lasting: Time, other: set<HostId>)
    requires u in db.users && wanted <= db.hosts.Keys && OwnedBy(db.hosts, u) !! wanted
    ensures var after := Written(db, Leasing(u, wanted, lasting), now);
            && after == db.(hosts := after.hosts) && after.hosts.Keys == db.hosts.Keys
            && |OwnedBy(after.hosts, u)| == |OwnedBy(db.hosts, u)| + |wanted|
            && (OwnedBy(db.hosts, u) !! other && wanted !! other ==> OwnedBy(after.hosts, u) !! other)
  {
    LeaseMovesExactly(db.hosts, wanted, u, now + lasting, u);
    assert wanted * db.hosts.Keys == wanted;
  }

  lemma OneMore(j: nat, limit: nat)
    ensures (j + 1) * limit == j * limit + limit
  {
  }

  lemma {:induction false} CommittedCount(db: Db, now: Time, u: UserId, blocks: seq<seq<HostId>>, j: nat, lasting: Time, limit: nat)
    requires u in db.users && OwnedBy(db.hosts, u) == {} && Disjoint(db, blocks, limit) && j <= |blocks|
    ensures var after := Committed(db, now, u, blocks[..j], lasting);
            && after.users == db.users && after.hosts.Keys == db.hosts.Keys
            && |OwnedBy(after.hosts, u)| == j * limit
            && forall i :: j <= i < |blocks| ==> OwnedBy(after.hosts, u) !! SetOf(blocks[i])
  {
    if j > 0 {
      CommittedCount(db, now, u, blocks, j - 1, lasting, limit);
      assert blocks[..j][..j - 1] == blocks[..j - 1];
      var before := Committed(db, now, u, blocks[..j - 1], lasting);
      CommitOne(before, now, u, SetOf(blocks[j - 1]), lasting, {});
      forall i | j <= i < |blocks|
        ensures OwnedBy(Committed(db, now, u, blocks[..j], lasting).hosts, u) !! SetOf(blocks[i])
      {
        CommitOne(before, now, u, SetOf(blocks[j - 1]), lasting, SetOf(blocks[i]));
      }
      OneMore(j - 1, limit);
    }
  }

  function Script(u: UserId, groups: seq<string>, blocks: seq<seq<HostId>>, now: Time, k: nat): Overlap.Stamped {
    if k < |blocks| then Overlap.At(now, CheckLease(u, groups, blocks[k], 1, 0)) else Overlap.At(now, Commit(0))
  }

  function Scene(db: Db, now: Time, u: UserId, blocks: seq<seq<HostId>>, k: nat): State
    requires k <= 2 * |blocks|
  {
    var m := |blocks|;
    if k <= m then State(db, now, Requests(u, blocks[..k], Hours(24)))
    else State(Committed(db, now, u, blocks[..k - m], Hours(24)), now, Requests(u, blocks[k - m..], Hours(24)))
  }

  lemma SceneBegins(default: nat, db: Db, now: Time, u: UserId, groups: seq<string>, blocks: seq<seq<HostId>>, limit: nat, k: nat)
    requires Consistent(db) && OwnedBy(db.hosts, u) == {} && Disjoint(db, blocks, limit)
    requires LeaseLimit(db.limits, groups, default) == Ok(limit)
    requires k < |blocks|
    ensures Enabled(Scene(db, now, u, blocks, k), Script(u, groups, blocks, now, k))
    ensures Next(default, Scene(db, now, u, blocks, k), Script(u, groups, blocks, now, k)) == Scene(db, now, u, blocks, k + 1)
  {
    assert LeaseCheck(db, default, u, groups, blocks[k]) == Ok(SetOf(blocks[k])) by {
      LeaseCheckPassesIff(db, default, u, groups, blocks[k]);
      assert forall h :: h in db.hosts ==> h !in OwnedBy(db.hosts, u);
    }
    assert blocks[..k + 1] == blocks[..k] + [blocks[k]];
    RequestsGrow(u, blocks[..k], blocks[k], Hours(24));
  }

  lemma SceneCommits(default: nat, db: Db, now: Time, u: UserId, groups: seq<string>, blocks: seq<seq<HostId>>, k: nat)
    requires |blocks| <= k < 2 * |blocks|
    ensures Enabled(Scene(db, now, u, blocks, k), Script(u, groups, blocks, now, k))
    ensures Next(default, Scene(db, now, u, blocks, k), Script(u, groups, blocks, now, k)) == Scene(db, now, u, blocks, k + 1)
  {
    var j := k - |blocks|;
    var s := Scene(db, now, u, blocks, k);
    assert blocks[..|blocks|] == blocks == blocks[0..];
    assert s == State(Committed(db, now, u, blocks[..j], Hours(24)), now, Requests(u, blocks[j..], Hours(24)));
    assert blocks[j..][1..] == blocks[j + 1..];
    assert blocks[..j + 1][..j] == blocks[..j];
    assert Without(s.pending, 0) == Requests(u, blocks[j + 1..], Hours(24));
  }

  lemma SceneInFlight(db: Db, now: Time, u: UserId, blocks: seq<seq<HostId>>, k: nat)
    requires k <= 2 * |blocks|
    ensures Total(LeasesOf(u), Scene(db, now, u, blocks, k).pending) <= |blocks|
  {
    RequestsCount(u, if k <= |blocks| then blocks[..k] else blocks[k - |blocks|..], Hours(24));
  }

  lemma SceneFollows(default: nat, db: Db, now: Time, u: UserId, groups: seq<string>, blocks: seq<seq<HostId>>, limit: nat, k: nat)
    requires Consistent(db) && OwnedBy(db.hosts, u) == {} && Disjoint(db, blocks, limit)
    requires LeaseLimit(db.limits, groups, default) == Ok(limit)
    requires k < 2 * |blocks|
    ensures Enabled(Scene(db, now, u, blocks, k), Script(u, groups, blocks, now, k))
    ensures Next(default, Scene(db, now, u, blocks, k), Script(u, groups, blocks, now, k)) == Scene(db, now, u, blocks, k + 1)
  {
    if k < |blocks| {
      SceneBegins(default, db, now, u, groups, blocks, limit, k);
    } else {
      SceneCommits(default, db, now, u, groups, blocks, k);
    }
  }

  function Scenes(db: Db, now: Time, u: UserId, blocks: seq<seq<HostId>>): seq<State> {
    seq(2 * |blocks| + 1, k requires 0 <= k <= 2 * |blocks| => Scene(db, now, u, blocks, k))
  }

  function Scripts(u: UserId, groups: seq<string>, blocks: seq<seq<HostId>>, now: Time): seq<Overlap.Stamped> {
    seq(2 * |blocks|, k requires 0 <= k < 2 * |blocks| => Script(u, groups, blocks, now, k))
  }

  lemma ScenesRun(default: nat, db: Db, now: Time, u: UserId, groups: seq<string>, blocks: seq<seq<HostId>>, limit: nat)
    requires Consistent(db) && OwnedBy(db.hosts, u) == {} && Disjoint(db, blocks, limit)
    requires LeaseLimit(db.limits, groups, default) == Ok(limit)
    ensures IsRun(default, Scenes(db, now, u, blocks), Scripts(u, groups, blocks, now))
  {
    var ss, es := Scenes(db, now, u, blocks), Scripts(u, groups, blocks, now);
    forall k | 0 <= k < |es| ensures Enabled(ss[k], es[k]) && ss[k + 1] == Next(default, ss[k], es[k]) {
      SceneFollows(default, db, now, u, groups, blocks, limit, k);
    }
  }

  lemma ScenesInFlight(db: Db, now: Time, u: UserId, blocks: seq<seq<HostId>>, k: nat)
    requires k <= 2 * |blocks|
    ensures Total(LeasesOf(u), Scenes(db, now, u, blocks)[k].pending) <= |blocks|
  {
    SceneInFlight(db, now, u, blocks, k);
  }

  lemma LastScene(db: Db, now: Time, u: UserId, blocks: seq<seq<HostId>>, limit: nat)
    requires u in db.users && OwnedBy(db.hosts, u) == {} && Disjoint(db, blocks, limit)
    ensures var last := Scene(db, now, u, blocks, 2 * |blocks|);
            last.pending == [] && |OwnedBy(last.db.hosts, u)| == |blocks| * limit
  {
    CommittedCount(db, now, u, blocks, |blocks|, Hours(24), limit);
    assert blocks[..|blocks|] == blocks;
  }

  /** The bound is exact: `m` overlapping requests of a user who holds nothing, each for a full limit of
      different hosts, end with the user holding exactly `m` times the limit. */
  lemma OvershootReached(default: nat, db: Db, now: Time, u: UserId, groups: seq<string>,
                         blocks: seq<seq<HostId>>, limit: nat)
    returns (ss: seq<State>, es: seq<Overlap.Stamped>)
    requires Consistent(db) && u in db.users && OwnedBy(db.hosts, u) == {} && Disjoint(db, blocks, limit)
    requires LeaseLimit(db.limits, groups, default) == Ok(limit)
    ensures IsRun(default, ss, es) && ss[0] == State(db, now, [])
    ensures forall i :: 0 <= i < |ss| ==> Total(LeasesOf(u), ss[i].pending) <= |blocks|
    ensures ss[|es|].pending == [] && |OwnedBy(ss[|es|].db.hosts, u)| == |blocks| * limit
  {
    ss, es := Scenes(db, now, u, blocks), Scripts(u, groups, blocks, now);
    ScenesRun(default, db, now, u, groups, blocks, limit);
    forall k | 0 <= k < |ss| ensures Total(LeasesOf(u), ss[k].pending) <= |blocks| {
      ScenesInFlight(db, now, u, blocks, k);
    }
    LastScene(db, now, u, blocks, limit);
    assert blocks[..0] == [];
  }

  // ---------- what overlap breaks ----------

  /** The states of two transactions that read one after the other and then commit, the later one first. */
  function TwoOverlapping(db: Db, now: Time, p: Pending, q: Pending): seq<State> {
    [State(db, now, []), State(db, now, [p]), State(db, now, [p, q]), State(Written(db, q, now), now, [p]),
     State(Written(Written(db, q, now), p, now), now, [])]
  }

  lemma FourSteps(default: nat, s0: State, e0: Overlap.Stamped, s1: State, e1: Overlap.Stamped, s2: State,
                  e2: Overlap.Stamped, s3: State, e3: Overlap.Stamped, s4: State)
    requires Step(default, s0, e0, s1) && Step(default, s1, e1, s2)
    requires Step(default, s2, e2, s3) && Step(default, s3, e3, s4)
    ensures IsRun(default, [s0, s1, s2, s3, s4], [e0, e1, e2, e3])
  {
    Append(default, [s0], [], e0, s1);
    assert [s0] + [s1] == [s0, s1] && [] + [e0] == [e0];
    Append(default, [s0, s1], [e0], e1, s2);
    assert [s0, s1] + [s2] == [s0, s1, s2] && [e0] + [e1] == [e0, e1];
    Append(default, [s0, s1, s2], [e0, e1], e2, s3);
    assert [s0, s1, s2] + [s3] == [s0, s1, s2, s3] && [e0, e1] + [e2] == [e0, e1, e2];
    Append(default, [s0, s1, s2, s3], [e0, e1, e2], e3, s4);
    assert [s0, s1, s2, s3] + [s4] == [s0, s1, s2, s3, s4] && [e0, e1, e2] + [e3] == [e0, e1, e2, e3];
  }

  lemma BeginFirst(default: nat, db: Db, now: Time, e: Overlap.Stamped, p: Pending)
    requires Enabled(State(db, now, []), e) && e.time == now && Begun(default, db, e) == Some(p)
    ensures Step(default, State(db, now, []), e, State(db, now, [p]))
  {
    assert [] + [p] == [p];
  }

  lemma BeginSecond(default: nat, db: Db, now: Time, p: Pending, d: Overlap.Stamped, q: Pending)
    requires Enabled(State(db, now, [p]), d) && d.time == now && Begun(default, db, d) == Some(q)
    ensures Step(default, State(db, now, [p]), d, State(db, now, [p, q]))
  {
    assert [p] + [q] == [p, q];
  }

  lemma CommitSecond(default: nat, db: Db, now: Time, p: Pending, q: Pending)
    ensures Step(default, State(db, now, [p, q]), Overlap.At(now, Commit(1)), State(Written(db, q, now), now, [p]))
  {
    assert Without([p, q], 1) == [p];
  }

  lemma CommitLast(default: nat, db: Db, now: Time, p: Pending)
    ensures Step(default, State(db, now, [p]), Overlap.At(now, Commit(0)), State(Written(db, p, now), now, []))
  {
    assert Without([p], 0) == [];
  }

  lemma TwoOverlap(default: nat, db: Db, now: Time, e: Overlap.Stamped, p: Pending, d: Overlap.Stamped, q: Pending)
    requires e.time == d.time == now
    requires Enabled(State(db, now, []), e) && Begun(default, db, e) == Some(p)
    requires Enabled(State(db, now, [p]), d) && Begun(default, db, d) == Some(q)
    ensures IsRun(default, TwoOverlapping(db, now, p, q), [e, d, Overlap.At(now, Commit(1)), Overlap.At(now, Commit(0))])
  {
    BeginFirst(default, db, now, e, p);
    BeginSecond(default, db, now, p, d, q);
    CommitSecond(default, db, now, p, q);
    CommitLast(default, Written(db, q, now), now, p);
    var once := Written(db, q, now);
    FourSteps(default, State(db, now, []), e, State(db, now, [p]), d, State(db, now, [p, q]), Overlap.At(now, Commit(1)),
              State(once, now, [p]), Overlap.At(now, Commit(0)), State(Written(once, p, now), now, []));
  }

  /** Two overlapping random leases may both pick the last free host of a group. Both commit; the last
      writer keeps it, and the other user, told that the lease succeeded, is left with nothing new. */
  lemma RandomLeasesCollide(default: nat, db: Db, now: Time, u: UserId, v: UserId, us: seq<string>, vs: seq<string>,
                            g: GroupId, h: HostId)
    returns (ss: seq<State>)
    requires Consistent(db) && u != v && u in db.users && v in db.users && h in AvailableIn(db.hosts, g)
    requires RandomCheck(db, default, u, us, Some(h)).Ok? && RandomCheck(db, default, v, vs, Some(h)).Ok?
    ensures IsRun(default, ss, [Overlap.At(now, CheckRandom(u, us, g, Some(h), 1, 0)),
                                Overlap.At(now, CheckRandom(v, vs, g, Some(h), 1, 0)),
                                Overlap.At(now, Commit(1)), Overlap.At(now, Commit(0))])
    ensures ss[0] == State(db, now, [])
    ensures OwnedBy(ss[3].db.hosts, v) == OwnedBy(db.hosts, v) + {h}
    ensures OwnedBy(ss[4].db.hosts, v) == OwnedBy(db.hosts, v)
    ensures OwnedBy(ss[4].db.hosts, u) == OwnedBy(db.hosts, u) + {h}
  {
    var p, q := Leasing(u, {h}, Hours(24)), Leasing(v, {h}, Hours(24));
    TwoOverlap(default, db, now, Overlap.At(now, CheckRandom(u, us, g, Some(h), 1, 0)), p,
               Overlap.At(now, CheckRandom(v, vs, g, Some(h), 1, 0)), q);
    LastWriterWins(db, h, v, u, now + Hours(24));
    ss := TwoOverlapping(db, now, p, q);
  }

  lemma LastWriterWins(db: Db, h: HostId, u: UserId, v: UserId, until: Time)
    requires h in Available(db.hosts) && u != v
    ensures var first := LeaseHosts(db.hosts, {h}, u, until);
            var second := LeaseHosts(first, {h}, v, until);
            && OwnedBy(first, u) == OwnedBy(db.hosts, u) + {h}
            && OwnedBy(second, u) == OwnedBy(db.hosts, u)
            && OwnedBy(second, v) == OwnedBy(db.hosts, v) + {h}
  {
    var first := LeaseHosts(db.hosts, {h}, u, until);
    LeaseMoves(db.hosts, {h}, u, until, v);
    LeaseMoves(first, {h}, v, until, u);
    assert {h} * db.hosts.Keys == {h};
    assert {h} * first.Keys == {h};
    assert OwnedBy(db.hosts, u) + {h} - {h} == OwnedBy(db.hosts, u);
    assert OwnedBy(db.hosts, v) - {h} == OwnedBy(db.hosts, v);
  }

  lemma LateExtension(db: Db, now: Time, h: HostId, v: UserId, lasting: Time, ids: set<HostId>, plus: nat)
    requires v in db.users && h in db.hosts && h in ids
    ensures var after := Written(Written(db, Leasing(v, SetOf([h]), lasting), now), Extending(ids, plus), now).hosts;
            h in after && after[h].leasedUntil == Some(now + lasting + Hours(plus))
  {
    assert h in SetOf([h]) by { assert h in [h]; }
  }

  /** The horizon of the atomic runs fails by exactly the stale extension: `u` presses +24h on a host in the
      window, `v` leases it for the longest time before that extension commits. */
  lemma StaleExtensionPassesHorizon(default: nat, db: Db, now: Time, u: UserId, v: UserId, vs: seq<string>, h: HostId)
    returns (ss: seq<State>)
    requires Consistent(db) && v in db.users
    requires h in ExpiringOf(db.hosts, u, now + EXPIRATION_NOTIFY_WINDOW)
    requires LeaseCheck(db, default, v, vs, [h]).Ok?
    ensures IsRun(default, ss, [Overlap.At(now, ReadExpiring(u, 24)), Overlap.At(now, CheckLease(v, vs, [h], 63, 23)),
                                Overlap.At(now, Commit(1)), Overlap.At(now, Commit(0))])
    ensures ss[0] == State(db, now, [])
    ensures h in ss[4].db.hosts && ss[4].db.hosts[h].leasedUntil == Some(now + MAX_LEASE + Hours(24))
  {
    var p := Extending(ExpiringOf(db.hosts, u, now + EXPIRATION_NOTIFY_WINDOW), 24);
    var q := Leasing(v, SetOf([h]), MAX_LEASE);
    LeaseBegins(default, db, now, v, vs, h);
    TwoOverlap(default, db, now, Overlap.At(now, ReadExpiring(u, 24)), p,
               Overlap.At(now, CheckLease(v, vs, [h], 63, 23)), q);
    LateExtension(db, now, h, v, MAX_LEASE, p.ids, 24);
    ss := TwoOverlapping(db, now, p, q);
  }

  lemma LeaseBegins(default: nat, db: Db, now: Time, v: UserId, vs: seq<string>, h: HostId)
    requires Consistent(db) && LeaseCheck(db, default, v, vs, [h]).Ok?
    ensures Begun(default, db, Overlap.At(now, CheckLease(v, vs, [h], 63, 23))) == Some(Leasing(v, SetOf([h]), MAX_LEASE))
  {
    LeaseCheckPassesIff(db, default, v, vs, [h]);
  }

  // ---------- a release pass that frees too early ----------

  /** What `EarlyReleaseIff` is about does happen: an expired host that its owner extends between the read and the
      write of a pass is freed all the same. */
  lemma ExtensionLostToRelease(default: nat, db: Db, now: Time, u: UserId, plus: nat, h: HostId)
    returns (ss: seq<State>)
    requires Consistent(db) && plus > 0 && h in ExpiringOf(db.hosts, u, now)
    requires db.hosts[h].leasedUntil.value + Hours(plus) > now
    ensures IsRun(default, ss, [Overlap.At(now, ReadExpired), Overlap.At(now, ReadExpiring(u, plus)),
                                Overlap.At(now, Commit(1)), Overlap.At(now, Commit(0))])
    ensures ss[0] == State(db, now, [])
    ensures h in ss[3].db.hosts && ss[3].db.hosts[h].userId == Some(u)
    ensures ss[3].db.hosts[h].leasedUntil.Some? && ss[3].db.hosts[h].leasedUntil.value > now
    ensures h in ss[4].db.hosts && ss[4].db.hosts[h].userId == None
  {
    var p := Releasing(Expired(db.hosts, now));
    var q := Extending(ExpiringOf(db.hosts, u, now + EXPIRATION_NOTIFY_WINDOW), plus);
    TwoOverlap(default, db, now, Overlap.At(now, ReadExpired), p, Overlap.At(now, ReadExpiring(u, plus)), q);
    ss := TwoOverlapping(db, now, p, q);
  }

  /** A host can lose lease time while its owner keeps it: `u` leases it twice at once, for the longest time and
      for no time at all, and the longer lease commits first. */
  lemma LeaseTimeFalls(default: nat, db: Db, now: Time, u: UserId, us: seq<string>, h: HostId)
    returns (ss: seq<State>)
    requires Consistent(db) && u in db.users && h in db.hosts
    requires LeaseCheck(db, default, u, us, [h]).Ok?
    ensures IsRun(default, ss, [Overlap.At(now, CheckLease(u, us, [h], 0, 0)), Overlap.At(now, CheckLease(u, us, [h], 63, 23)),
                                Overlap.At(now, Commit(1)), Overlap.At(now, Commit(0))])
    ensures ss[0] == State(db, now, [])
    ensures h in ss[3].db.hosts && ss[3].db.hosts[h] == db.hosts[h].(userId := Some(u), leasedUntil := Some(now + MAX_LEASE))
    ensures h in ss[4].db.hosts && ss[4].db.hosts[h] == db.hosts[h].(userId := Some(u), leasedUntil := Some(now))
  {
    var p, q := Leasing(u, SetOf([h]), 0), Leasing(u, SetOf([h]), MAX_LEASE);
    LeaseBegins(default, db, now, u, us, h);
    LeaseCheckPassesIff(db, default, u, us, [h]);
    TwoOverlap(default, db, now, Overlap.At(now, CheckLease(u, us, [h], 0, 0)), p,
               Overlap.At(now, CheckLease(u, us, [h], 63, 23)), q);
    assert h in SetOf([h]) by { assert h in [h]; }
    ss := TwoOverlapping(db, now, p, q);
  }
}
