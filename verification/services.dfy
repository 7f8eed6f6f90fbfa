/** The web, API and MCP operations (src/logic/hosts.rs) and the Telegram extend button
    (src/bot/handlers.rs), step by step on a transaction. Every early return drops the transaction. */
module Services {
  import opened Types
  import opened Tables
  import opened LeaseLimits
  import opened Transactions
  import opened Registries
  import Durations

  /** `.map(|h| h.id).collect()` into a hash set. */
  method CollectIds(rows: seq<LeasedHost>, ghost hosts: Hosts, ghost all: set<HostId>) returns (ids: set<HostId>)
    requires RowsOf(rows, hosts, all)
    ensures ids == all
  {
    ids := {};
    for i := 0 to |rows|
      invariant ids == SetOf(IdsOf(rows)[..i])
    {
      assert IdsOf(rows)[..i + 1] == IdsOf(rows)[..i] + [rows[i].id];
      ids := ids + {rows[i].id};
    }
    assert IdsOf(rows)[..|rows|] == IdsOf(rows);
  }

  class HostsService {
    const registry: Registry
    const leaseLimit: nat

    constructor (registry: Registry, leaseLimit: nat)
      ensures this.registry == registry && this.leaseLimit == leaseLimit
    {
      this.registry := registry;
      this.leaseLimit := leaseLimit;
    }

    method GetLeaseLimit(tx: RegistryTx, groups: seq<string>) returns (limit: Result<nat, HostError>)
      ensures limit == LeaseLimit(tx.db.limits, groups, leaseLimit)
    {
      var rows := tx.GetAdGroupsLeaseLimits(groups);
      ghost var listing :| Lists(listing, SetOf(groups) * tx.db.limits.Keys) && rows == RowsFor(tx.db.limits, listing);
      LimitFromAnyListing(tx.db.limits, groups, listing, leaseLimit);
      limit := LimitFromRows(rows, leaseLimit);
    }

    /** The ids of the user's leased hosts. */
    method LeasedIds(tx: RegistryTx, u: UserId) returns (r: Result<set<HostId>, HostError>)
      requires tx.Valid()
      ensures r == if Decodable(tx.db.hosts, OwnedBy(tx.db.hosts, u)) then Ok(OwnedBy(tx.db.hosts, u)) else Err(DatabaseError)
    {
      var rows := tx.GetLeasedHosts(u);
      if rows.Err? {
        return Err(rows.error);
      }
      var ids := CollectIds(rows.value, tx.db.hosts, OwnedBy(tx.db.hosts, u));
      return Ok(ids);
    }

    method Lease(u: UserId, groups: seq<string>, hostsIds: seq<HostId>, leaseFor: Time, now: Time)
      returns (r: Result<set<HostId>, HostError>)
      requires registry.Valid()
      modifies registry
      ensures (registry.db, r) == LeaseTx(old(registry.db), leaseLimit, u, groups, hostsIds, now + leaseFor)
      ensures LeaseAnswer(old(registry.db), leaseLimit, u, groups, hostsIds, r)
      ensures LeaseWrites(old(registry.db), registry.db, u, hostsIds, now + leaseFor, r)
      ensures registry.Valid()
    {
      LeaseAnswers(registry.db, leaseLimit, u, groups, hostsIds, now + leaseFor);
      r := LeaseInTx(u, groups, hostsIds, leaseFor, now);
    }

    /** The steps of `lease`. */
    method LeaseInTx(u: UserId, groups: seq<string>, hostsIds: seq<HostId>, leaseFor: Time, now: Time)
      returns (r: Result<set<HostId>, HostError>)
      requires registry.Valid()
      modifies registry
      ensures (registry.db, r) == LeaseTx(old(registry.db), leaseLimit, u, groups, hostsIds, now + leaseFor)
      ensures registry.Valid()
    {
      var tx := registry.Begin();
      var leased := LeasedIds(tx, u);
      if leased.Err? {
        return leased;
      }
      var wanted := SetOf(hostsIds);
      if leased.value * wanted != {} {
        return Err(AlreadyLeased(leased.value * wanted));
      }
      var limit := GetLeaseLimit(tx, groups);
      if limit.Err? {
        return Err(limit.error);
      }
      if |leased.value| + |wanted| > limit.value {
        return Err(LeaseLimitReached);
      }
      assert LeaseCheck(tx.db, leaseLimit, u, groups, hostsIds) == Ok(wanted);
      var written := tx.LeaseHostRows(u, hostsIds, now + leaseFor);
      if written.Err? {
        return Err(written.error);
      }
      leased := LeasedIds(tx, u);  // decodes: the old rows did, and the new ones have an expiry
      tx.Commit();
      return leased;
    }

    method LeaseRandom(u: UserId, groups: seq<string>, leaseFor: Time, g: GroupId, now: Time)
      returns (r: Result<HostId, HostError>)
      requires registry.Valid()
      modifies registry
      ensures exists pick :: LegalPick(old(registry.db), g, pick)
                && (registry.db, r) == LeaseRandomTx(old(registry.db), leaseLimit, u, groups, pick, now + leaseFor)
      ensures LeaseRandomOutcome(old(registry.db), registry.db, leaseLimit, u, groups, g, now + leaseFor, r)
      ensures registry.Valid()
    {
      ghost var was := registry.db;
      r := LeaseRandomInTx(u, groups, leaseFor, g, now);
      ghost var pick :| LegalPick(was, g, pick)
                        && (registry.db, r) == LeaseRandomTx(was, leaseLimit, u, groups, pick, now + leaseFor);
      LeaseRandomAnswers(was, leaseLimit, u, groups, g, pick, now + leaseFor);
    }

    /** The steps of `lease_random`. */
    method LeaseRandomInTx(u: UserId, groups: seq<string>, leaseFor: Time, g: GroupId, now: Time)
      returns (r: Result<HostId, HostError>)
      requires registry.Valid()
      modifies registry
      ensures exists pick :: LegalPick(old(registry.db), g, pick)
                && (registry.db, r) == LeaseRandomTx(old(registry.db), leaseLimit, u, groups, pick, now + leaseFor)
      ensures registry.Valid()
    {
      ghost var was := registry.db;
      var tx := registry.Begin();
      ghost var somePick := SomePick(was, g);
      var limit := GetLeaseLimit(tx, groups);
      if limit.Err? {
        return Err(limit.error);
      }
      var rows := tx.GetLeasedHosts(u);
      if rows.Err? {
        return Err(rows.error);
      }
      ListsCount(IdsOf(rows.value), OwnedBy(was.hosts, u));
      if |rows.value| >= limit.value {
        return Err(LeaseLimitReached);
      }
      var pick := tx.GetFirstAvailableGroupHost(g);
      assert LegalPick(was, g, pick);
      if pick.None? {
        return Err(ThereIsNoFreeHosts);
      }
      assert SetOf([pick.value]) == {pick.value};
      assert pick.value in {pick.value} * was.hosts.Keys;
      var written := tx.LeaseHostRows(u, [pick.value], now + leaseFor);
      if written.Err? {
        return Err(written.error);
      }
      tx.Commit();
      return Ok(pick.value);
    }

    method Free(u: UserId, hostsIds: seq<HostId>)
      requires registry.Valid()
      modifies registry
      ensures registry.db == old(registry.db).(hosts := FreeHostsForUser(old(registry.db.hosts), SetOf(hostsIds), u))
      ensures registry.db.hosts.Keys == old(registry.db.hosts.Keys)
      ensures forall h :: h in registry.db.hosts ==>
                var row := old(registry.db.hosts)[h];
                registry.db.hosts[h] == if h in hostsIds && row.userId == Some(u) then Host(row.group, None, None) else row
      ensures registry.Valid()
    {
      var tx := registry.Begin();
      tx.FreeHostRowsForUser(hostsIds, u);
      tx.Commit();
    }

    method FreeAll(u: UserId)
      requires registry.Valid()
      modifies registry
      ensures registry.db == old(registry.db).(hosts := FreeAllHosts(old(registry.db.hosts), u))
      ensures registry.db.hosts.Keys == old(registry.db.hosts.Keys)
      ensures forall h :: h in registry.db.hosts ==>
                var row := old(registry.db.hosts)[h];
                registry.db.hosts[h] == if row.userId == Some(u) then Host(row.group, None, None) else row
      ensures registry.Valid()
    {
      var tx := registry.Begin();
      tx.FreeAllRows(u);
      tx.Commit();
    }
  }

  datatype ExtendReply = Ignored | UserNotFound | NothingToExtend | Extended(minutesLeft: map<HostId, int>)

  /** `num_minutes` of the remaining time. */
  function MinutesLeft(until: Time, now: Time): int {
    Durations.TruncDiv(until - now, Minutes(1))
  }

  lemma MinutesLeftMeaning(until: Time, now: Time)
    ensures Durations.WholeMinutes(until - now, MinutesLeft(until, now))
  {
  }

  /** Everything a press answers and does, in terms of rows: the hosts of the presser that expire within 30 minutes get
      the hours of the button, and the reply lists exactly these with the minutes their new expiry leaves. */
  ghost predicate ExtendOutcome(db: Db, after: Db, who: Option<UserId>, hours: int, now: Time, reply: ExtendReply) {
    var due := set h | h in db.hosts && hours > 0 && who.Some? && db.hosts[h].userId == who
                       && db.hosts[h].leasedUntil.Some? && db.hosts[h].leasedUntil.value < now + Minutes(30);
    && (reply == Ignored <==> hours <= 0)
    && (reply == UserNotFound <==> hours > 0 && who.None?)
    && (reply == NothingToExtend <==> hours > 0 && who.Some? && due == {})
    && (reply.Extended? <==> due != {})
    && after == db.(hosts := after.hosts) && after.hosts.Keys == db.hosts.Keys
    && (forall h :: h in db.hosts ==>
          after.hosts[h] == if h in due then Host(db.hosts[h].group, who, Some(db.hosts[h].leasedUntil.value + Hours(hours)))
                            else db.hosts[h])
    && (reply.Extended? ==>
          && reply.minutesLeft.Keys == due
          && forall h :: h in due ==>
               Durations.WholeMinutes(db.hosts[h].leasedUntil.value + Hours(hours) - now, reply.minutesLeft[h]))
  }

  lemma ExtendAnswers(db: Db, who: Option<UserId>, hours: int, now: Time, reply: ExtendReply)
    requires var (after, extended) := ExtendTx(db, who, hours, now);
             && (reply == Ignored <==> hours <= 0)
             && (reply == UserNotFound <==> hours > 0 && who.None?)
             && (reply.Extended? <==> extended != {})
             && (reply.Extended? ==>
                   && reply.minutesLeft.Keys == extended
                   && forall h :: h in extended ==>
                        && h in after.hosts && after.hosts[h].leasedUntil.Some?
                        && reply.minutesLeft[h] == MinutesLeft(after.hosts[h].leasedUntil.value, now))
    ensures ExtendOutcome(db, ExtendTx(db, who, hours, now).0, who, hours, now, reply)
  {
    var (after, extended) := ExtendTx(db, who, hours, now);
    ExtendMeaning(db, who, hours, now);
    assert extended == set h | h in db.hosts && hours > 0 && who.Some? && db.hosts[h].userId == who
                              && db.hosts[h].leasedUntil.Some? && db.hosts[h].leasedUntil.value < now + Minutes(30);
    forall h | h in extended
      ensures Durations.WholeMinutes(after.hosts[h].leasedUntil.value - now, MinutesLeft(after.hosts[h].leasedUntil.value, now))
    {
      MinutesLeftMeaning(after.hosts[h].leasedUntil.value, now);
    }
  }

  /** `handle_extend_callback` and `extend_user_hosts`; the reply lists the hosts as re-read after the update. */
  method HandleExtendCallback(registry: Registry, handle: string, hours: int, now: Time)
    returns (reply: ExtendReply, ghost who: Option<UserId>)
    requires registry.Valid()
    modifies registry
    ensures hours > 0 ==> LegalUser(old(registry.db), handle, who)
    ensures hours > 0 && who.None? ==>
              forall u :: u in old(registry.db.users) ==> old(registry.db.users)[u].tgHandle != Some(handle)
    ensures hours > 0 && who.Some? ==>
              who.value in old(registry.db.users) && old(registry.db.users)[who.value].tgHandle == Some(handle)
    ensures registry.db == ExtendTx(old(registry.db), who, hours, now).0
    ensures ExtendOutcome(old(registry.db), registry.db, who, hours, now, reply)
    ensures registry.Valid()
  {
    who := None;
    if hours <= 0 {
      ExtendAnswers(registry.db, None, hours, now, Ignored);
      return Ignored, None;
    }
    var tx := registry.Begin();
    var user := tx.GetUserByTgHandle(handle);
    who := user;
    if user.None? {
      ExtendAnswers(registry.db, None, hours, now, UserNotFound);
      return UserNotFound, who;
    }
    var rows := tx.GetExpiringHostsForUser(user.value, now + EXPIRATION_NOTIFY_WINDOW);
    ghost var expiring := ExpiringOf(tx.db.hosts, user.value, now + EXPIRATION_NOTIFY_WINDOW);
    ghost var before := tx.db.hosts;
    if |rows| == 0 {
      assert expiring == {} by {
        assert forall h :: h in IdsOf(rows) <==> h in expiring;
      }
      assert ExtendHosts(before, {}, hours) == before;
      ExtendAnswers(registry.db, who, hours, now, NothingToExtend);
      return NothingToExtend, who;
    }
    var ids := IdsOf(rows);
    assert ids[0] in expiring;
    assert SetOf(ids) == expiring;
    tx.ExtendHostRows(ids, hours);
    var minutes: map<HostId, int> := map[];
    for i := 0 to |ids|
      invariant minutes.Keys == SetOf(ids[..i])
      invariant forall h :: h in minutes ==>
        && h in tx.db.hosts && tx.db.hosts[h].leasedUntil.Some?
        && minutes[h] == MinutesLeft(tx.db.hosts[h].leasedUntil.value, now)
    {
      assert ids[..i + 1] == ids[..i] + [ids[i]];
      assert ids[i] in expiring;
      minutes := minutes[ids[i] := MinutesLeft(tx.db.hosts[ids[i]].leasedUntil.value, now)];
    }
    assert ids[..|ids|] == ids;
    ExtendAnswers(registry.db, who, hours, now, Extended(minutes));
    tx.Commit();
    return Extended(minutes), who;
  }
}
