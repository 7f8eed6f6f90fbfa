/** The background release timer (src/logic/release.rs). */
module ReleaseTimers {
  import opened Types
  import opened Tables
  import opened Transactions
  import opened Registries
  import opened Announcements
  import opened Notifications

  // ---------- grouping the released hosts per user ----------

  function HostsOf(rows: seq<LeasedHost>, u: UserId): seq<HostId> {
    if rows == [] then []
    else HostsOf(rows[..|rows| - 1], u) + (if rows[|rows| - 1].user == u then [rows[|rows| - 1].id] else [])
  }

  function UsersOf(rows: seq<LeasedHost>): set<UserId> {
    set r | r in rows :: r.user
  }

  lemma HostsOfAppend(rows: seq<LeasedHost>, row: LeasedHost, u: UserId)
    ensures HostsOf(rows + [row], u) == HostsOf(rows, u) + (if row.user == u then [row.id] else [])
  {
    assert (rows + [row])[..|rows|] == rows;
  }

  lemma UsersOfAppend(rows: seq<LeasedHost>, row: LeasedHost)
    ensures UsersOf(rows + [row]) == UsersOf(rows) + {row.user}
  {
  }

  ghost predicate Grouped(rows: seq<LeasedHost>, groups: map<UserId, seq<HostId>>) {
    && groups.Keys == UsersOf(rows)
    && forall u :: HostsOf(rows, u) == GroupOf(groups, u)
  }

  function GroupOf(groups: map<UserId, seq<HostId>>, u: UserId): seq<HostId> {
    if u in groups then groups[u] else []
  }

  lemma GroupedStep(rows: seq<LeasedHost>, row: LeasedHost, groups: map<UserId, seq<HostId>>)
    requires Grouped(rows, groups)
    ensures Grouped(rows + [row], groups[row.user := GroupOf(groups, row.user) + [row.id]])
  {
    var next := groups[row.user := GroupOf(groups, row.user) + [row.id]];
    forall u ensures HostsOf(rows + [row], u) == GroupOf(next, u) {
      HostsOfAppend(rows, row, u);
      assert HostsOf(rows, u) == GroupOf(groups, u);
      assert u != row.user ==> GroupOf(next, u) == GroupOf(groups, u) + [];
    }
    UsersOfAppend(rows, row);
  }

  /** The grouping loop of `notify_released_hosts`. */
  method GroupReleased(rows: seq<LeasedHost>) returns (groups: map<UserId, seq<HostId>>)
    ensures groups.Keys == UsersOf(rows)
    ensures forall u :: u in groups ==> groups[u] == HostsOf(rows, u)
  {
    groups := map[];
    for i := 0 to |rows|
      invariant Grouped(rows[..i], groups)
    {
      var row := rows[i];
      GroupedStep(rows[..i], row, groups);
      assert rows[..i + 1] == rows[..i] + [row];
      if row.user in groups {
        groups := groups[row.user := groups[row.user] + [row.id]];
      } else {
        groups := groups[row.user := [row.id]];
      }
    }
    assert rows[..|rows|] == rows;
    forall u | u in groups ensures groups[u] == HostsOf(rows, u) {
      assert HostsOf(rows, u) == GroupOf(groups, u);
    }
  }

  /** The same grouping into sets, as `release` and `notify_soon_release` do it. */
  method GroupIds(rows: seq<LeasedHost>, ghost hosts: Hosts, until: Time)
    returns (groups: map<UserId, set<HostId>>)
    requires RowsOf(rows, hosts, ExpiringBefore(hosts, until))
    ensures Groups(hosts, until, groups)
  {
    groups := map[];
    for i := 0 to |rows|
      invariant groups.Keys == UsersOf(rows[..i])
      invariant forall u :: u in groups ==> groups[u] == set r | r in rows[..i] && r.user == u :: r.id
    {
      var row := rows[i];
      assert rows[..i + 1] == rows[..i] + [row];
      if row.user in groups {
        groups := groups[row.user := groups[row.user] + {row.id}];
      } else {
        groups := groups[row.user := {row.id}];
      }
    }
    assert rows[..|rows|] == rows;
    forall u ensures u in groups <==> u in ExpiringOwners(hosts, until) {
      GroupMembers(rows, hosts, until, u);
    }
    forall u | u in groups ensures groups[u] == ExpiringOf(hosts, u, until) {
      GroupMembers(rows, hosts, until, u);
    }
  }

  lemma GroupMembers(rows: seq<LeasedHost>, hosts: Hosts, until: Time, u: UserId)
    requires RowsOf(rows, hosts, ExpiringBefore(hosts, until))
    ensures (set r | r in rows && r.user == u :: r.id) == ExpiringOf(hosts, u, until)
    ensures u in UsersOf(rows) <==> u in ExpiringOwners(hosts, until)
  {
    forall h ensures h in (set r | r in rows && r.user == u :: r.id) <==> h in ExpiringOf(hosts, u, until) {
      RowsMembers(rows, hosts, ExpiringBefore(hosts, until), h);
    }
    if u in ExpiringOwners(hosts, until) {
      var h :| h in ExpiringBefore(hosts, until) && hosts[h].userId.value == u;
      RowsMembers(rows, hosts, ExpiringBefore(hosts, until), h);
    }
    if u in UsersOf(rows) {
      var r :| r in rows && r.user == u;
      RowsMembers(rows, hosts, ExpiringBefore(hosts, until), r.id);
    }
  }

  /** The released rows name each host once, so each group lists the user's expired hosts, each once. */
  lemma GroupLists(rows: seq<LeasedHost>, hosts: Hosts, until: Time, u: UserId)
    requires RowsOf(rows, hosts, ExpiringBefore(hosts, until))
    ensures Lists(HostsOf(rows, u), ExpiringOf(hosts, u, until))
  {
    forall h ensures h in HostsOf(rows, u) <==> h in ExpiringOf(hosts, u, until) {
      HostsOfMembers(rows, u, h);
      RowsMembers(rows, hosts, ExpiringBefore(hosts, until), h);
    }
    forall i, j | 0 <= i < j < |rows| ensures rows[i].id != rows[j].id {
      assert IdsOf(rows)[i] != IdsOf(rows)[j];
    }
    HostsOfDistinct(rows, u);
  }

  lemma {:induction false} HostsOfDistinct(rows: seq<LeasedHost>, u: UserId)
    requires forall i, j :: 0 <= i < j < |rows| ==> rows[i].id != rows[j].id
    ensures forall i, j :: 0 <= i < j < |HostsOf(rows, u)| ==> HostsOf(rows, u)[i] != HostsOf(rows, u)[j]
  {
    if rows != [] {
      var init, last := rows[..|rows| - 1], rows[|rows| - 1];
      HostsOfDistinct(init, u);
      if last.id in HostsOf(init, u) {
        HostsOfMembers(init, u, last.id);
      }
    }
  }

  // ---------- the timer ----------

  class ReleaseTimer {
    const registry: Registry
    var sent: Record

    constructor (registry: Registry)
      ensures this.registry == registry && sent == map[]
    {
      this.registry := registry;
      this.sent := map[];
    }

    /** `release`. A database that is down fails the pass before it changes anything. */
    method Release(now: Time, dbUp: bool) returns (r: Result<seq<LeasedHost>, HostError>)
      requires registry.Valid()
      modifies registry, this
      ensures registry.Valid()
      ensures r.Ok? <==> dbUp
      ensures !dbUp ==> registry.db == old(registry.db) && sent == old(sent)
      ensures dbUp ==>
                && registry.db == ReleaseTx(old(registry.db), now)
                && sent == AfterRelease(old(sent), old(registry.db.hosts), now)
                && RowsOf(r.value, old(registry.db.hosts), ExpiringBefore(old(registry.db.hosts), now))
                && ReleaseOutcome(old(registry.db), registry.db, now, old(sent), sent)
                && ReleasedRows(old(registry.db.hosts), now, r.value)
    {
      if !dbUp {
        return Err(DatabaseError);
      }
      var tx := registry.Begin();
      ghost var hosts := tx.db.hosts;
      ReleaseAnswers(registry.db, now, sent);
      var expired := tx.GetLeasedUntilHosts(now);
      ReleasedAre(expired, hosts, now);
      var usersHosts := GroupIds(expired, hosts, now);
      assert SetOf(IdsOf(expired)) == ExpiringBefore(hosts, now);
      if |expired| > 0 {
        tx.FreeHostRows(IdsOf(expired));
        tx.Commit();
      } else {
        assert IdsOf(expired) == [];
        assert FreeHosts(hosts, {}) == hosts;
      }

      ForgetReleased(usersHosts, hosts, now);
      return Ok(expired);
    }

    /** Drains the groups, user by user in an arbitrary order, and forgets what was freed from each. */
    method ForgetReleased(freed: map<UserId, set<HostId>>, ghost hosts: Hosts, ghost now: Time)
      requires Groups(hosts, now, freed)
      modifies this`sent
      ensures sent == AfterRelease(old(sent), hosts, now)
    {
      ghost var was := sent;
      var usersHosts := freed;
      while exists u :: u in usersHosts
        invariant usersHosts.Keys <= freed.Keys
        invariant forall u :: u in usersHosts ==> usersHosts[u] == freed[u]
        invariant sent.Keys == was.Keys
        invariant forall u :: u in sent ==>
          sent[u] == if u in freed && u !in usersHosts then was[u] - freed[u] else was[u]
        decreases usersHosts.Keys
      {
        var u :| u in usersHosts;
        if u in sent {
          sent := sent[u := sent[u] - usersHosts[u]];
        }
        usersHosts := usersHosts - {u};
      }
      forall u | u in sent ensures sent[u] == AfterRelease(was, hosts, now)[u] {
        OwnersHaveExpiring(hosts, now, u);
        AfterReleaseForgets(was, hosts, now, u);
      }
    }

    /** `notify_soon_release`; `channels` says what the messaging side does for each user (no entry: no sender).
        The loop visits the users in an arbitrary order, so the closed form of the final record and of the
        attempted messages holds for every order. */
    method NotifySoonRelease(now: Time, dbUp: bool, channels: map<UserId, Channel>)
      returns (r: Result<map<UserId, set<HostId>>, HostError>)
      requires registry.Valid()
      modifies this
      ensures r.Ok? <==> dbUp
      ensures !dbUp ==> sent == old(sent)
      ensures dbUp ==>
                var until := now + EXPIRATION_NOTIFY_WINDOW;
                && r.value == Messages(old(sent), registry.db.hosts, until)
                && sent == AfterScan(old(sent), registry.db.hosts, until, Reachable(channels))
                && ScanRecord(registry.db.hosts, now + Minutes(30), channels, old(sent), sent)
                && ScanMessages(registry.db.hosts, now + Minutes(30), old(sent), r.value)
    {
      if !dbUp {
        return Err(DatabaseError);
      }
      ghost var was := sent;
      var messages := ReadAndNotify(now + EXPIRATION_NOTIFY_WINDOW, channels);
      ScanRecordIs(registry.db.hosts, now + EXPIRATION_NOTIFY_WINDOW, channels, was, sent);
      ScanMessagesAre(registry.db.hosts, now + EXPIRATION_NOTIFY_WINDOW, was, messages);
      return Ok(messages);
    }

    /** The read of the scan, and what follows from it. */
    method ReadAndNotify(until: Time, channels: map<UserId, Channel>) returns (messages: map<UserId, set<HostId>>)
      requires registry.Valid()
      modifies this`sent
      ensures messages == Messages(old(sent), registry.db.hosts, until)
      ensures sent == AfterScan(old(sent), registry.db.hosts, until, Reachable(channels))
    {
      var tx := registry.Begin();
      var soon := tx.GetLeasedUntilHosts(until);
      var groups := GroupIds(soon, tx.db.hosts, until);
      messages := NotifyGroups(groups, until, channels);
    }

    /** The clean-up and the sending loop on the grouped expiring hosts. */
    method NotifyGroups(groups: map<UserId, set<HostId>>, ghost until: Time, channels: map<UserId, Channel>)
      returns (messages: map<UserId, set<HostId>>)
      requires registry.Valid() && Groups(registry.db.hosts, until, groups)
      modifies this`sent
      ensures messages == Messages(old(sent), registry.db.hosts, until)
      ensures sent == AfterScan(old(sent), registry.db.hosts, until, Reachable(channels))
    {
      ghost var was := sent;
      SendableGroups(registry.db, until, groups);
      CleanUp(groups, registry.db.hosts, until);
      ghost var cleaned := sent;
      messages := Announce(groups, channels);
      ScanClosedForm(was, cleaned, registry.db.hosts, until, groups, messages, sent, Reachable(channels));
    }

    /** Forgets every host that is in nobody's group, and the users left with none. */
    method CleanUp(groups: map<UserId, set<HostId>>, ghost hosts: Hosts, ghost until: Time)
      requires Groups(hosts, until, groups)
      modifies this`sent
      ensures CleanedUp(old(sent), sent, ExpiringBefore(hosts, until))
    {
      AllOfGroups(hosts, until, groups);
      var all := set u, h | u in groups && h in groups[u] :: h;
      sent := map u | u in sent && sent[u] * all != {} :: sent[u] * all;
    }

    /** The sending loop. */
    method Announce(expiring: map<UserId, set<HostId>>, channels: map<UserId, Channel>)
      returns (messages: map<UserId, set<HostId>>)
      requires Sendable(registry.db, expiring)
      modifies this`sent
      ensures Announced(expiring, {}, Reachable(channels), old(sent), sent, messages)
    {
      var groups := expiring;
      ghost var was := sent;
      messages := map[];
      while exists u :: u in groups
        invariant groups.Keys <= expiring.Keys
        invariant forall u :: u in groups ==> groups[u] == expiring[u]
        invariant Announced(expiring, groups.Keys, Reachable(channels), was, sent, messages)
        decreases groups.Keys
      {
        var u :| u in groups;
        ghost var before, told := sent, messages;
        var toSend := AnnounceTo(u, groups[u], ChannelOf(channels, u));
        if toSend != {} {
          messages := messages[u := toSend];
        }
        AnnouncedStep(expiring, groups.Keys, Reachable(channels), was, before, told, u, messages);
        groups := groups - {u};
      }
    }

    /** One user's turn in the sending loop. */
    method AnnounceTo(u: UserId, ids: set<HostId>, channel: Channel) returns (toSend: set<HostId>)
      requires Sendable(registry.db, map[u := ids])
      modifies this`sent
      ensures toSend == ids - Sent(old(sent), u)
      ensures sent == old(sent)[u := Sent(old(sent), u) + (if channel == Delivers then ids else {})]
    {
      var already := Sent(sent, u);
      sent := sent[u := already];  // entry(u).or_default()
      toSend := ids - already;
      assert u in map[u := ids];
      assert already + {} == already;
      NothingLeft(ids, already);
      if toSend == {} {
        assert already + ids == already;
        return;
      }
      if NotifyExpiring(registry.db, u, toSend, channel) == Delivered {
        sent := sent[u := already + toSend];
        assert already + toSend == already + ids;
      }
    }

    /** One turn of the loop in `hosts_release_timer`. A failed release is logged and the scan runs
        regardless; without a notifier there is no scan. */
    method Tick(now: Time, later: Time, releaseUp: bool, scanUp: bool, notifier: Option<map<UserId, Channel>>)
      returns (released: map<UserId, seq<HostId>>)
      requires registry.Valid()
      modifies registry, this
      ensures registry.Valid()
      ensures registry.db == if releaseUp then ReleaseTx(old(registry.db), now) else old(registry.db)
      ensures sent ==
              var r := if releaseUp then AfterRelease(old(sent), old(registry.db.hosts), now) else old(sent);
              if notifier.Some? && scanUp
              then AfterScan(r, registry.db.hosts, later + EXPIRATION_NOTIFY_WINDOW, Reachable(notifier.value))
              else r
      ensures TablesAfterTick(old(registry.db), registry.db, now, releaseUp)
      ensures RecordAfterTick(old(registry.db.hosts), registry.db.hosts, now, later, releaseUp,
                              if scanUp then notifier else None, old(sent), sent)
      ensures notifier.Some? && releaseUp ==> ReleasedMessages(old(registry.db.hosts), now, released)
      ensures notifier.None? || !releaseUp ==> released == map[]
      ensures notifier.Some? && releaseUp ==>
                && released.Keys == ExpiringOwners(old(registry.db.hosts), now)
                && (forall u :: u in released ==> Lists(released[u], ExpiringOf(old(registry.db.hosts), u, now)))
                && exists rows :: RowsOf(rows, old(registry.db.hosts), ExpiringBefore(old(registry.db.hosts), now))
                     && forall u :: u in released ==> released[u] == HostsOf(rows, u)
    {
      released := map[];
      ghost var db, was := registry.db, sent;
      ReleaseAnswers(db, now, was);
      NoRelease(db, now);
      var r := Release(now, releaseUp);
      if r.Ok? && notifier.Some? {
        released := NotifyReleasedHosts(r.value, db.hosts, now);
      }
      ghost var passed := sent;
      if notifier.Some? {
        var _ := NotifySoonRelease(later, scanUp, notifier.value);
      }
      TickAnswers(db, registry.db, now, later, releaseUp, if scanUp then notifier else None, was, passed, sent);
    }

    /** `notify_released_hosts`: what each message names. */
    method NotifyReleasedHosts(rows: seq<LeasedHost>, ghost hosts: Hosts, ghost now: Time)
      returns (released: map<UserId, seq<HostId>>)
      requires RowsOf(rows, hosts, ExpiringBefore(hosts, now))
      ensures released.Keys == ExpiringOwners(hosts, now)
      ensures forall u :: u in released ==> released[u] == HostsOf(rows, u) && Lists(released[u], ExpiringOf(hosts, u, now))
      ensures ReleasedMessages(hosts, now, released)
    {
      released := GroupReleased(rows);
      forall u ensures u in UsersOf(rows) <==> u in ExpiringOwners(hosts, now) {
        GroupMembers(rows, hosts, now, u);
      }
      forall u | u in released ensures Lists(released[u], ExpiringOf(hosts, u, now)) {
        GroupLists(rows, hosts, now, u);
      }
      ReleasedMessagesAre(hosts, now, released);
    }
  }

  // ---------- what the methods do, in terms of rows ----------

  ghost predicate TablesAfterTick(db: Db, after: Db, now: Time, released: bool) {
    && after == db.(hosts := after.hosts) && after.hosts.Keys == db.hosts.Keys
    && forall h :: h in db.hosts ==>
         var row := db.hosts[h];
         after.hosts[h] == if released && row.userId.Some? && row.leasedUntil.Some? && row.leasedUntil.value < now
                           then Host(row.group, None, None) else row
  }

  /** A pass frees exactly the owned hosts that expire before `now`, and forgets each under its owner only. */
  ghost predicate ReleaseOutcome(db: Db, after: Db, now: Time, was: Record, sent: Record) {
    && TablesAfterTick(db, after, now, true)
    && forall u, h :: (u in sent && h in sent[u]) <==>
         && u in was && h in was[u]
         && !(h in db.hosts && db.hosts[h].userId == Some(u) && db.hosts[h].leasedUntil.Some? && db.hosts[h].leasedUntil.value < now)
  }

  lemma ReleaseAnswers(db: Db, now: Time, was: Record)
    ensures ReleaseOutcome(db, ReleaseTx(db, now), now, was, AfterRelease(was, db.hosts, now))
  {
  }

  /** `rows` lists each owned host that expires before `now` once, with its owner and its expiry. */
  ghost predicate ReleasedRows(hosts: Hosts, now: Time, rows: seq<LeasedHost>) {
    && (forall row :: row in rows <==>
          && row.id in hosts && hosts[row.id].userId == Some(row.user) && hosts[row.id].leasedUntil == Some(row.leasedUntil)
          && row.leasedUntil < now)
    && (forall i, j :: 0 <= i < j < |rows| ==> rows[i].id != rows[j].id)
  }

  lemma ReleasedAre(rows: seq<LeasedHost>, hosts: Hosts, now: Time)
    requires RowsOf(rows, hosts, ExpiringBefore(hosts, now))
    ensures ReleasedRows(hosts, now, rows)
  {
    forall row: LeasedHost | row.id in hosts && hosts[row.id].userId == Some(row.user) && hosts[row.id].leasedUntil == Some(row.leasedUntil)
      && row.leasedUntil < now
      ensures row in rows
    {
      RowsMembers(rows, hosts, ExpiringBefore(hosts, now), row.id);
    }
    forall row | row in rows ensures row.leasedUntil < now {
      RowsMembers(rows, hosts, ExpiringBefore(hosts, now), row.id);
    }
    forall i, j | 0 <= i < j < |rows| ensures rows[i].id != rows[j].id {
      assert IdsOf(rows)[i] != IdsOf(rows)[j];
    }
  }

  /** A scan keeps in the record what is in somebody's window, and adds what is in the window of a user whose
      channel delivers. */
  ghost predicate ScanRecord(hosts: Hosts, until: Time, channels: map<UserId, Channel>, was: Record, sent: Record) {
    forall u, h :: (u in sent && h in sent[u]) <==>
      && h in hosts && hosts[h].userId.Some? && hosts[h].leasedUntil.Some? && hosts[h].leasedUntil.value < until
      && ((u in was && h in was[u]) || (hosts[h].userId == Some(u) && u in channels && channels[u] == Delivers))
  }

  /** It attempts one message to each user with hosts in the window that the record did not hold, naming these. */
  ghost predicate ScanMessages(hosts: Hosts, until: Time, was: Record, messages: map<UserId, set<HostId>>) {
    && (forall u, h :: (u in messages && h in messages[u]) <==>
          && h in hosts && hosts[h].userId == Some(u) && hosts[h].leasedUntil.Some? && hosts[h].leasedUntil.value < until
          && !(u in was && h in was[u]))
    && (forall u :: u in messages ==> messages[u] != {})
  }

  lemma RecordedAfterScan(hosts: Hosts, until: Time, channels: map<UserId, Channel>, was: Record, u: UserId, h: HostId)
    ensures var sent := AfterScan(was, hosts, until, Reachable(channels));
            (u in sent && h in sent[u]) <==>
              && h in hosts && hosts[h].userId.Some? && hosts[h].leasedUntil.Some? && hosts[h].leasedUntil.value < until
              && ((u in was && h in was[u]) || (hosts[h].userId == Some(u) && u in channels && channels[u] == Delivers))
  {
    var sent := AfterScan(was, hosts, until, Reachable(channels));
    SentAfterScan(was, hosts, until, Reachable(channels), u);
    assert h in Sent(sent, u) <==> u in sent && h in sent[u];
    assert u in Reachable(channels) <==> u in channels && channels[u] == Delivers;
  }

  lemma MessagesOfScan(hosts: Hosts, until: Time, was: Record, u: UserId, h: HostId)
    ensures var messages := Messages(was, hosts, until);
            && (u in messages ==> messages[u] != {})
            && ((u in messages && h in messages[u]) <==>
                  && h in hosts && hosts[h].userId == Some(u) && hosts[h].leasedUntil.Some? && hosts[h].leasedUntil.value < until
                  && !(u in was && h in was[u]))
  {
    MessageTo(was, hosts, until, u, h);
  }

  lemma ScanRecordIs(hosts: Hosts, until: Time, channels: map<UserId, Channel>, was: Record, sent: Record)
    requires sent == AfterScan(was, hosts, until, Reachable(channels))
    ensures ScanRecord(hosts, until, channels, was, sent)
  {
    forall u, h
      ensures (u in sent && h in sent[u]) <==>
                && h in hosts && hosts[h].userId.Some? && hosts[h].leasedUntil.Some? && hosts[h].leasedUntil.value < until
                && ((u in was && h in was[u]) || (hosts[h].userId == Some(u) && u in channels && channels[u] == Delivers))
    {
      RecordedAfterScan(hosts, until, channels, was, u, h);
    }
  }

  lemma ScanMessagesAre(hosts: Hosts, until: Time, was: Record, messages: map<UserId, set<HostId>>)
    requires messages == Messages(was, hosts, until)
    ensures ScanMessages(hosts, until, was, messages)
  {
    forall u, h
      ensures (u in messages && h in messages[u]) <==>
                && h in hosts && hosts[h].userId == Some(u) && hosts[h].leasedUntil.Some? && hosts[h].leasedUntil.value < until
                && !(u in was && h in was[u])
    {
      MessagesOfScan(hosts, until, was, u, h);
    }
  }

  /** The messages about a pass name each owned host that expires before `now` to its owner, once, and nothing else. */
  ghost predicate ReleasedMessages(hosts: Hosts, now: Time, released: map<UserId, seq<HostId>>) {
    && (forall u, h :: (u in released && h in released[u]) <==>
          && h in hosts && hosts[h].userId == Some(u) && hosts[h].leasedUntil.Some? && hosts[h].leasedUntil.value < now)
    && (forall u, i, j :: u in released && 0 <= i < j < |released[u]| ==> released[u][i] != released[u][j])
  }

  lemma ReleasedMessagesAre(hosts: Hosts, now: Time, released: map<UserId, seq<HostId>>)
    requires released.Keys == ExpiringOwners(hosts, now)
    requires forall u :: u in released ==> Lists(released[u], ExpiringOf(hosts, u, now))
    ensures ReleasedMessages(hosts, now, released)
  {
    forall u, h ensures (u in released && h in released[u]) <==> h in ExpiringOf(hosts, u, now) {
      OwnersHaveExpiring(hosts, now, u);
    }
  }

  lemma NoRelease(db: Db, now: Time)
    ensures TablesAfterTick(db, db, now, false)
  {
  }

  lemma TickAnswers(db: Db, after: Db, now: Time, later: Time, released: bool, scan: Option<map<UserId, Channel>>,
                    was: Record, passed: Record, sent: Record)
    requires if released then ReleaseOutcome(db, after, now, was, passed) else after == db && passed == was
    requires if scan.Some? then ScanRecord(after.hosts, later + Minutes(30), scan.value, passed, sent) else sent == passed
    ensures RecordAfterTick(db.hosts, after.hosts, now, later, released, scan, was, sent)
  {
  }

  /** The record after a pass, if it ran, and a scan, if there was one and it ran. */
  ghost predicate RecordAfterTick(hosts: Hosts, after: Hosts, now: Time, later: Time, released: bool,
                                  scan: Option<map<UserId, Channel>>, was: Record, sent: Record)
  {
    forall u, h :: (u in sent && h in sent[u]) <==>
      var kept := && u in was && h in was[u]
                  && !(released && h in hosts && hosts[h].userId == Some(u) && hosts[h].leasedUntil.Some?
                       && hosts[h].leasedUntil.value < now);
      if scan.None? then kept
      else && h in after && after[h].userId.Some? && after[h].leasedUntil.Some?
           && after[h].leasedUntil.value < later + Minutes(30)
           && (kept || (after[h].userId == Some(u) && u in scan.value && scan.value[u] == Delivers))
  }

  function ChannelOf(channels: map<UserId, Channel>, u: UserId): Channel {
    if u in channels then channels[u] else NoSender
  }

  function Reachable(channels: map<UserId, Channel>): set<UserId> {
    set u | u in channels && channels[u] == Delivers
  }

  /** What one scan adds to the record of `u`. */
  function NewlySent(expiring: map<UserId, set<HostId>>, delivered: set<UserId>, u: UserId): set<HostId> {
    if u in expiring && u in delivered then expiring[u] else {}
  }

  /** Announcing these hosts neither misses its user nor trips over a lost expiry. */
  ghost predicate Sendable(db: Db, expiring: map<UserId, set<HostId>>) {
    forall u :: u in expiring ==>
      u in db.users && forall h :: h in expiring[u] ==> h in db.hosts && db.hosts[h].leasedUntil.Some?
  }

  ghost predicate Groups(hosts: Hosts, until: Time, groups: map<UserId, set<HostId>>) {
    && groups.Keys == ExpiringOwners(hosts, until)
    && forall u :: u in groups ==> groups[u] == ExpiringOf(hosts, u, until)
  }

  lemma SendableGroups(db: Db, until: Time, groups: map<UserId, set<HostId>>)
    requires ForeignKeys(db)
    requires Groups(db.hosts, until, groups)
    ensures Sendable(db, groups)
  {
  }

  lemma AllOfGroups(hosts: Hosts, until: Time, groups: map<UserId, set<HostId>>)
    requires Groups(hosts, until, groups)
    ensures (set u, h | u in groups && h in groups[u] :: h) == ExpiringBefore(hosts, until)
  {
    forall h | h in ExpiringBefore(hosts, until)
      ensures h in (set u, h | u in groups && h in groups[u] :: h)
    {
      var u := hosts[h].userId.value;
      OwnersHaveExpiring(hosts, until, u);
      assert h in groups[u];
    }
  }

  /** Where the sending loop stands when the users in `left` still have their turn to come. */
  ghost predicate Announced(expiring: map<UserId, set<HostId>>, left: set<UserId>, delivered: set<UserId>,
                            was: Record, sent: Record, messages: map<UserId, set<HostId>>)
  {
    && sent.Keys == was.Keys + (expiring.Keys - left)
    && (forall u :: u in sent ==>
          sent[u] == Sent(was, u) + (if u in left then {} else NewlySent(expiring, delivered, u)))
    && (forall u :: u in messages <==> u in expiring && u !in left && expiring[u] - Sent(was, u) != {})
    && (forall u :: u in messages ==> messages[u] == expiring[u] - Sent(was, u))
  }

  lemma AnnouncedStep(expiring: map<UserId, set<HostId>>, left: set<UserId>, delivered: set<UserId>,
                      was: Record, sent: Record, messages: map<UserId, set<HostId>>,
                      u: UserId, told: map<UserId, set<HostId>>)
    requires Announced(expiring, left, delivered, was, sent, messages)
    requires u in left && u in expiring
    requires var toSend := expiring[u] - Sent(sent, u);
             told == if toSend != {} then messages[u := toSend] else messages
    ensures Sent(sent, u) == Sent(was, u)
    ensures Announced(expiring, left - {u}, delivered, was,
                      sent[u := Sent(sent, u) + (if u in delivered then expiring[u] else {})], told)
  {
    assert Sent(sent, u) == Sent(was, u);
  }

  ghost predicate CleanedUp(was: Record, cleaned: Record, all: set<HostId>) {
    cleaned == map u | u in was && was[u] * all != {} :: was[u] * all
  }

  lemma RecordEntry(was: Record, cleaned: Record, hosts: Hosts, until: Time, groups: map<UserId, set<HostId>>,
                    delivered: set<UserId>, u: UserId)
    requires Groups(hosts, until, groups)
    requires CleanedUp(was, cleaned, ExpiringBefore(hosts, until))
    ensures Sent(cleaned, u) + NewlySent(groups, delivered, u) == Sent(AfterScan(was, hosts, until, delivered), u)
    ensures u in AfterScan(was, hosts, until, delivered) <==> u in cleaned || u in groups
  {
    OwnersHaveExpiring(hosts, until, u);
    CleanedSent(was, cleaned, ExpiringBefore(hosts, until), u);
    SentAfterScan(was, hosts, until, delivered, u);
  }

  /** The clean-up and the sending loop together leave the closed-form record ... */
  lemma RecordClosedForm(was: Record, cleaned: Record, hosts: Hosts, until: Time, groups: map<UserId, set<HostId>>,
                         messages: map<UserId, set<HostId>>, sent: Record, delivered: set<UserId>)
    requires Groups(hosts, until, groups)
    requires CleanedUp(was, cleaned, ExpiringBefore(hosts, until))
    requires Announced(groups, {}, delivered, cleaned, sent, messages)
    ensures sent == AfterScan(was, hosts, until, delivered)
  {
    var scanned := AfterScan(was, hosts, until, delivered);
    forall u
      ensures u in sent <==> u in scanned
      ensures u in sent ==> sent[u] == scanned[u]
    {
      RecordEntry(was, cleaned, hosts, until, groups, delivered, u);
    }
  }

  /** ... and attempt the closed-form messages. */
  lemma MessagesClosedForm(was: Record, cleaned: Record, hosts: Hosts, until: Time, groups: map<UserId, set<HostId>>,
                           messages: map<UserId, set<HostId>>, sent: Record, delivered: set<UserId>)
    requires Groups(hosts, until, groups)
    requires CleanedUp(was, cleaned, ExpiringBefore(hosts, until))
    requires Announced(groups, {}, delivered, cleaned, sent, messages)
    ensures messages == Messages(was, hosts, until)
  {
    var attempted := Messages(was, hosts, until);
    forall u
      ensures u in messages <==> u in attempted
      ensures u in messages ==> messages[u] == attempted[u]
    {
      if u in groups {
        var unsaid, same := groups[u] - Sent(cleaned, u), ExpiringOf(hosts, u, until) - Sent(was, u);
        CleanedSent(was, cleaned, ExpiringBefore(hosts, until), u);
        assert groups[u] <= ExpiringBefore(hosts, until);
        assert unsaid == same;
      }
    }
  }

  lemma ScanClosedForm(was: Record, cleaned: Record, hosts: Hosts, until: Time, groups: map<UserId, set<HostId>>,
                       messages: map<UserId, set<HostId>>, sent: Record, delivered: set<UserId>)
    requires Groups(hosts, until, groups)
    requires CleanedUp(was, cleaned, ExpiringBefore(hosts, until))
    requires Announced(groups, {}, delivered, cleaned, sent, messages)
    ensures sent == AfterScan(was, hosts, until, delivered)
    ensures messages == Messages(was, hosts, until)
  {
    RecordClosedForm(was, cleaned, hosts, until, groups, messages, sent, delivered);
    MessagesClosedForm(was, cleaned, hosts, until, groups, messages, sent, delivered);
  }

  lemma CleanedSent(was: Record, cleaned: Record, all: set<HostId>, u: UserId)
    requires CleanedUp(was, cleaned, all)
    ensures Sent(cleaned, u) == Sent(was, u) * all
  {
  }

  // ---------- the release messages conserve the released hosts ----------

  lemma {:induction false} HostsOfMembers(rows: seq<LeasedHost>, u: UserId, h: HostId)
    ensures h in HostsOf(rows, u) <==> exists r :: r in rows && r.user == u && r.id == h
  {
    if rows != [] {
      var init, last := rows[..|rows| - 1], rows[|rows| - 1];
      HostsOfMembers(init, u, h);
      assert rows == init + [last];
      if last.user == u && last.id == h { assert last in rows; }
    }
  }

  function Concatenate(rows: seq<LeasedHost>, us: seq<UserId>): seq<HostId> {
    if us == [] then [] else HostsOf(rows, us[0]) + Concatenate(rows, us[1..])
  }

  lemma {:induction false} ConcatenateGrows(init: seq<LeasedHost>, last: LeasedHost, us: seq<UserId>)
    requires forall i, j :: 0 <= i < j < |us| ==> us[i] != us[j]
    ensures multiset(Concatenate(init + [last], us))
            == multiset(Concatenate(init, us)) + (if last.user in us then multiset{last.id} else multiset{})
  {
    if us == [] {
    } else {
      ConcatenateGrows(init, last, us[1..]);
      assert (init + [last])[..|init|] == init;
      assert us == [us[0]] + us[1..];
      assert us[0] !in us[1..];
    }
  }

  /** However the users are listed, sending each user their group sends every released host exactly once:
      the concatenation of the groups is a permutation of the released list. */
  lemma {:induction false} GroupsConserveHosts(rows: seq<LeasedHost>, us: seq<UserId>)
    requires forall i, j :: 0 <= i < j < |us| ==> us[i] != us[j]
    requires forall r :: r in rows ==> r.user in us
    ensures multiset(Concatenate(rows, us)) == multiset(IdsOf(rows))
  {
    if |rows| == 0 {
      ConcatenateNothing(us);
    } else {
      var init, last := rows[..|rows| - 1], rows[|rows| - 1];
      assert rows == init + [last];
      assert last in rows;
      GroupsConserveHosts(init, us);
      ConcatenateGrows(init, last, us);
      IdsOfAppend(init, last);
    }
  }

  lemma IdsOfAppend(rows: seq<LeasedHost>, row: LeasedHost)
    ensures multiset(IdsOf(rows + [row])) == multiset(IdsOf(rows)) + multiset{row.id}
  {
    assert IdsOf(rows + [row]) == IdsOf(rows) + [row.id];
  }

  lemma ConcatenateNothing(us: seq<UserId>)
    ensures Concatenate([], us) == []
  {
  }

  /** `at` are the positions of the user's rows: increasing, all of them, and reading `ids` off them. */
  ghost predicate Positions(rows: seq<LeasedHost>, u: UserId, ids: seq<HostId>, at: seq<nat>) {
    && |at| == |ids|
    && (forall k :: 0 <= k < |at| ==> at[k] < |rows| && rows[at[k]].user == u && rows[at[k]].id == ids[k])
    && (forall k, l :: 0 <= k < l < |at| ==> at[k] < at[l])
    && (forall i :: 0 <= i < |rows| && rows[i].user == u ==> i in at)
  }

  lemma PositionsStep(rows: seq<LeasedHost>, row: LeasedHost, u: UserId, ids: seq<HostId>, at: seq<nat>)
    requires Positions(rows, u, ids, at)
    ensures row.user == u ==> Positions(rows + [row], u, ids + [row.id], at + [|rows|])
    ensures row.user != u ==> Positions(rows + [row], u, ids, at)
  {
  }

  /** Within a group the hosts keep their order of release: the group reads the released list at
      strictly increasing positions, and at every position that belongs to the user. */
  lemma {:induction false} GroupsKeepOrder(rows: seq<LeasedHost>, u: UserId) returns (at: seq<nat>)
    ensures Positions(rows, u, HostsOf(rows, u), at)
  {
    at := [];
    if rows != [] {
      var init, last := rows[..|rows| - 1], rows[|rows| - 1];
      at := GroupsKeepOrder(init, u);
      PositionsStep(init, last, u, HostsOf(init, u), at);
      HostsOfAppend(init, last, u);
      assert rows == init + [last];
      assert HostsOf(init, u) + [] == HostsOf(init, u);
      if last.user == u {
        at := at + [|init|];
      }
    }
  }
}
