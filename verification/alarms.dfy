/** The record in runs whose transactions do not overlap, and the two promises about extensions that such
    runs can break. */
module Alarms {
  import opened Types
  import opened Tables
  import opened Transactions
  import opened Announcements
  import opened Runs
  import History

  // ---------- a run as a timeline of the timer ----------

  function ActOf(s: State, e: Stamped): History.Act {
    match e.event
    case Release => History.Pass(Expired(s.db.hosts, e.time))
    case Scan(delivered) => History.Scan(s.db.hosts, e.time + EXPIRATION_NOTIFY_WINDOW, delivered)
    case _ => History.Nothing
  }

  function Acts(ss: seq<State>, es: seq<Stamped>): seq<History.Act>
    requires |ss| == |es| + 1
  {
    seq(|es|, i requires 0 <= i < |es| => ActOf(ss[i], es[i]))
  }

  function Records(ss: seq<State>): seq<Record> {
    seq(|ss|, i requires 0 <= i < |ss| => ss[i].sent)
  }

  /** Every run is such a timeline, and there the timer forgets `h` for `u` exactly at a clean-up that finds it
      in nobody's window and at a release pass that takes it away from `u`. */
  lemma RunIsTimeline(default: nat, ss: seq<State>, es: seq<Stamped>, k: nat, u: UserId, h: HostId)
    requires IsRun(default, ss, es) && k < |es|
    ensures History.Evolves(Records(ss), Acts(ss, es))
    ensures History.Forgets(Acts(ss, es)[k], u, h) <==>
            || (es[k].event.Scan? && h !in ExpiringBefore(ss[k].db.hosts, es[k].time + EXPIRATION_NOTIFY_WINDOW))
            || (es[k].event.Release? && Owns(ss[k], u, h) && !Owns(ss[k + 1], u, h))
  {
    assert ss[k + 1] == Next(default, ss[k], es[k]);
  }

  /** What a step of a run does to the record, in terms of rows: only a release pass and a scan touch it. */
  lemma RecordInRun(default: nat, ss: seq<State>, es: seq<Stamped>, k: nat, u: UserId, h: HostId)
    requires IsRun(default, ss, es) && k < |es|
    ensures var s, e, sent, hosts := ss[k], es[k], ss[k + 1].sent, ss[k].db.hosts;
            var was := u in s.sent && h in s.sent[u];
            (u in sent && h in sent[u]) <==>
              match e.event
              case Release =>
                was && !(h in hosts && hosts[h].userId == Some(u) && hosts[h].leasedUntil.Some? && hosts[h].leasedUntil.value < e.time)
              case Scan(delivered) =>
                && h in hosts && hosts[h].userId.Some? && hosts[h].leasedUntil.Some?
                && hosts[h].leasedUntil.value < e.time + Minutes(30)
                && (was || (hosts[h].userId == Some(u) && u in delivered))
              case _ => was
  {
    assert ss[k + 1] == Next(default, ss[k], es[k]);
    if es[k].event.Scan? {
      SentAfterScan(ss[k].sent, ss[k].db.hosts, es[k].time + EXPIRATION_NOTIFY_WINDOW, es[k].event.delivered, u);
      assert h in Sent(ss[k + 1].sent, u) <==> u in ss[k + 1].sent && h in ss[k + 1].sent[u];
    }
  }

  // ---------- extension re-arms the alarm, if a clean-up sees it ----------

  /** An extension by `plus` hours takes the host out of the window exactly when it had expired no longer
      ago than those hours less the half hour of the window. */
  lemma ExtensionLeavesWindow(default: nat, s: State, e: Stamped, h: HostId)
    requires Enabled(s, e) && Consistent(s.db) && Extends(s, e, h)
    ensures s.db.hosts[h].leasedUntil.Some?
    ensures h !in ExpiringBefore(Next(default, s, e).db.hosts, e.time + EXPIRATION_NOTIFY_WINDOW)
            <==> e.time - s.db.hosts[h].leasedUntil.value <= Hours(e.event.plus) - Minutes(30)
  {
    StepOnHost(default, s, e, h);
  }

  lemma AnnouncedOnce(default: nat, s: State, u: UserId, h: HostId)
    requires s.sent == map[] && h in ExpiringOf(s.db.hosts, u, s.now + EXPIRATION_NOTIFY_WINDOW)
    ensures var e := At(s.now, Scan({u}));
            && Enabled(s, e) && Next(default, s, e).db == s.db && Next(default, s, e).now == s.now
            && History.Announces(s.sent, ActOf(s, e), u, h) && h in Sent(Next(default, s, e).sent, u)
  {
    MessageTo(map[], s.db.hosts, s.now + EXPIRATION_NOTIFY_WINDOW, u, h);
    History.RecordStep(s.sent, ActOf(s, At(s.now, Scan({u}))), u, h);
  }

  lemma ExtendedUnnoticed(default: nat, s: State, u: UserId, handle: string, h: HostId)
    requires LegalUser(s.db, handle, Some(u)) && h in OwnedBy(s.db.hosts, u)
    requires s.db.hosts[h].leasedUntil == Some(s.now + Minutes(10)) && h in Sent(s.sent, u)
    ensures var e := At(s.now, Extend(handle, Some(u), 1));
            && Enabled(s, e) && Extends(s, e, h) && Next(default, s, e).now == s.now
            && h in Sent(Next(default, s, e).sent, u)
            && h in ExpiringOf(Next(default, s, e).db.hosts, u, s.now + Minutes(45) + EXPIRATION_NOTIFY_WINDOW)
  {
  }

  lemma NotAnnouncedAgain(s: State, e: Stamped, u: UserId, h: HostId)
    requires h in Sent(s.sent, u) && e.event.Scan?
    ensures !History.Announces(s.sent, ActOf(s, e), u, h)
  {
    History.RecordStep(s.sent, ActOf(s, e), u, h);
  }

  /** The promise that an extended lease is announced again can fail: `h` is announced ten minutes before its
      expiry and extended by an hour; when the next scan runs 45 minutes later it is in the window of its
      user again, and is not announced. */
  lemma AlarmMissed(default: nat, db: Db, now: Time, u: UserId, handle: string, h: HostId)
    returns (ss: seq<State>, es: seq<Stamped>)
    requires LegalUser(db, handle, Some(u)) && h in OwnedBy(db.hosts, u)
    requires db.hosts[h].leasedUntil == Some(now + Minutes(10))
    ensures es == [At(now, Scan({u})), At(now, Extend(handle, Some(u), 1)), At(now + Minutes(45), Scan({u}))]
    ensures IsRun(default, ss, es) && ss[0] == State(db, map[], now)
    ensures History.Announces(ss[0].sent, ActOf(ss[0], es[0]), u, h)
    ensures Extends(ss[1], es[1], h)
    ensures History.FindsExpiring(ActOf(ss[2], es[2]), u, h)
    ensures !History.Announces(ss[2].sent, ActOf(ss[2], es[2]), u, h)
  {
    es := [At(now, Scan({u})), At(now, Extend(handle, Some(u), 1)), At(now + Minutes(45), Scan({u}))];
    var s0 := State(db, map[], now);
    AnnouncedOnce(default, s0, u, h);
    var s1 := Next(default, s0, es[0]);
    ExtendedUnnoticed(default, s1, u, handle, h);
    var s2 := Next(default, s1, es[1]);
    NotAnnouncedAgain(s2, es[2], u, h);
    var s3 := Next(default, s2, es[2]);
    Append(default, [s0], [], es[0], s1);
    Append(default, [s0] + [s1], [] + [es[0]], es[1], s2);
    Append(default, [s0] + [s1] + [s2], [] + [es[0]] + [es[1]], es[2], s3);
    ss := [s0] + [s1] + [s2] + [s3];
    assert es == [] + [es[0]] + [es[1]] + [es[2]];
  }

  // ---------- a host extended twice at once ----------

  /** A table of one host. */
  function Single(users: map<UserId, User>, h: HostId, u: Option<UserId>, until: Option<Time>): Db {
    Db(map[h := Host(0, u, until)], users, map[], map[], 0)
  }

  lemma ZeroLeaseOf(users: map<UserId, User>, u: UserId, h: HostId, now: Time, default: nat)
    requires u in users && default >= 1
    ensures LeaseTx(Single(users, h, None, None), default, u, [], [h], now)
            == (Single(users, h, Some(u), Some(now)), Ok({h}))
  {
    var db := Single(users, h, None, None);
    assert OwnedBy(db.hosts, u) == {};
    assert h in [h];
    assert SetOf([h]) == {h};
    var leased := Single(users, h, Some(u), Some(now));
    assert LeaseHosts(db.hosts, {h}, u, now) == leased.hosts;
    assert LeaseCheck(db, default, u, [], [h]) == Ok({h}) by {
      LeaseCheckPassesIff(db, default, u, [], [h]);
    }
    assert h in leased.hosts && OwnedBy(leased.hosts, u) == {h};
  }

  lemma OneHostSteps(users: map<UserId, User>, u: UserId, h: HostId, now: Time)
    ensures ReleaseTx(Single(users, h, Some(u), Some(now)), now) == Single(users, h, Some(u), Some(now))
    ensures ExtendTx(Single(users, h, Some(u), Some(now)), Some(u), 1, now) == (Single(users, h, Some(u), Some(now + Hours(1))), {h})
    ensures FreeHostsForUser(Single(users, h, Some(u), Some(now + Hours(1))).hosts, SetOf([h]), u) == Single(users, h, None, None).hosts
  {
    assert h in [h];
    var hosts := Single(users, h, Some(u), Some(now)).hosts;
    assert h in ExpiringBefore(hosts, now + EXPIRATION_NOTIFY_WINDOW);
    assert ExpiringOf(hosts, u, now + EXPIRATION_NOTIFY_WINDOW) == {h};
    assert ExtendHosts(hosts, {h}, 1) == Single(users, h, Some(u), Some(now + Hours(1))).hosts;
  }

  lemma TwiceSteps(default: nat, users: map<UserId, User>, u: UserId, handle: string, h: HostId, now: Time)
    requires u in users && users[u].tgHandle == Some(handle) && default >= 1
    ensures var held, out, free := State(Single(users, h, Some(u), Some(now)), map[], now),
                                   State(Single(users, h, Some(u), Some(now + Hours(1))), map[], now),
                                   State(Single(users, h, None, None), map[], now);
            && Step(default, held, At(now, Release), held)
            && Step(default, held, At(now, Extend(handle, Some(u), 1)), out)
            && Step(default, out, At(now, Free(u, [h])), free)
            && Step(default, free, At(now, Lease(u, [], [h], 0, 0)), held)
            && Consistent(held.db) && Extends(held, At(now, Extend(handle, Some(u), 1)), h)
  {
    OneHostSteps(users, u, h, now);
    ZeroLeaseOf(users, u, h, now, default);
    AfterReleaseEmpty(Single(users, h, Some(u), Some(now)).hosts, now);
  }

  /** Two extensions may follow each other at once, even by one user: freeing the
      host and leasing it again for no time at all puts it back into the window. */
  lemma ExtendedTwiceAtOnce(default: nat, users: map<UserId, User>, u: UserId, handle: string, h: HostId, now: Time)
    returns (ss: seq<State>, es: seq<Stamped>)
    requires u in users && users[u].tgHandle == Some(handle) && default >= 1
    ensures es == [At(now, Release), At(now, Extend(handle, Some(u), 1)), At(now, Free(u, [h])),
                   At(now, Lease(u, [], [h], 0, 0)), At(now, Extend(handle, Some(u), 1))]
    ensures IsRun(default, ss, es) && Consistent(ss[0].db)
    ensures Extends(ss[1], es[1], h) && Extends(ss[4], es[4], h)
  {
    var held, out, free := Single(users, h, Some(u), Some(now)), Single(users, h, Some(u), Some(now + Hours(1))),
                           Single(users, h, None, None);
    TwiceSteps(default, users, u, handle, h, now);
    es := [At(now, Release), At(now, Extend(handle, Some(u), 1)), At(now, Free(u, [h])),
           At(now, Lease(u, [], [h], 0, 0)), At(now, Extend(handle, Some(u), 1))];
    var s0, s2, s3 := State(held, map[], now), State(out, map[], now), State(free, map[], now);
    Append(default, [s0], [], es[0], s0);
    Append(default, [s0] + [s0], [] + [es[0]], es[1], s2);
    Append(default, [s0] + [s0] + [s2], [] + [es[0]] + [es[1]], es[2], s3);
    Append(default, [s0] + [s0] + [s2] + [s3], [] + [es[0]] + [es[1]] + [es[2]], es[3], s0);
    Append(default, [s0] + [s0] + [s2] + [s3] + [s0], [] + [es[0]] + [es[1]] + [es[2]] + [es[3]], es[4], s2);
    ss := [s0] + [s0] + [s2] + [s3] + [s0] + [s2];
    assert es == [] + [es[0]] + [es[1]] + [es[2]] + [es[3]] + [es[4]];
  }

  lemma AfterReleaseEmpty(hosts: Hosts, now: Time)
    ensures AfterRelease(map[], hosts, now) == map[]
  {
  }
}
