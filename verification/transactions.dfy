/** What each transaction does to the tables when it runs alone, as a function of the tables.
    Where SQL leaves a row choice open, the choice is a parameter. */
module Transactions {
  import opened Types
  import opened Tables
  import opened LeaseLimits

  /** The reads and checks of `HostsService::lease`: the distinct ids to write, or the refusal. */
  function LeaseCheck(db: Db, default: nat, u: UserId, groups: seq<string>, ids: seq<HostId>)
    : Result<set<HostId>, HostError>
  {
    var owned, wanted := OwnedBy(db.hosts, u), SetOf(ids);
    if !Decodable(db.hosts, owned) then Err(DatabaseError)
    else if owned * wanted != {} then Err(AlreadyLeased(owned * wanted))
    else
      match LeaseLimit(db.limits, groups, default)
      case Err(e) => Err(e)
      case Ok(limit) =>
        if |owned| + |wanted| > limit then Err(LeaseLimitReached) else Ok(wanted)
  }

  /** The update of `lease` and `lease_random`. The foreign key refuses an unknown user, unless no row is touched. */
  function LeaseWrite(db: Db, u: UserId, wanted: set<HostId>, until: Time): Result<Db, HostError> {
    if u !in db.users && wanted * db.hosts.Keys != {} then Err(DatabaseError)
    else Ok(db.(hosts := LeaseHosts(db.hosts, wanted, u, until)))
  }

  /** `HostsService::lease`. */
  function LeaseTx(db: Db, default: nat, u: UserId, groups: seq<string>, ids: seq<HostId>, until: Time)
    : (Db, Result<set<HostId>, HostError>)
  {
    match LeaseCheck(db, default, u, groups, ids)
    case Err(e) => (db, Err(e))
    case Ok(wanted) =>
      match LeaseWrite(db, u, wanted, until)
      case Err(e) => (db, Err(e))
      case Ok(after) => (after, Ok(OwnedBy(after.hosts, u)))
  }

  /** A row that `SELECT ... WHERE user_id IS NULL AND group_id = g LIMIT 1` may return. */
  predicate LegalPick(db: Db, g: GroupId, pick: Option<HostId>) {
    match pick
    case None => AvailableIn(db.hosts, g) == {}
    case Some(h) => h in AvailableIn(db.hosts, g)
  }

  lemma SomePick(db: Db, g: GroupId) returns (pick: Option<HostId>)
    ensures LegalPick(db, g, pick)
  {
    EmptyOrInhabited(AvailableIn(db.hosts, g));
    if h :| h in AvailableIn(db.hosts, g) {
      return Some(h);
    }
    return None;
  }

  /** The reads and checks of `HostsService::lease_random`. */
  function RandomCheck(db: Db, default: nat, u: UserId, groups: seq<string>, pick: Option<HostId>)
    : Result<HostId, HostError>
  {
    match LeaseLimit(db.limits, groups, default)
    case Err(e) => Err(e)
    case Ok(limit) =>
      var owned := OwnedBy(db.hosts, u);
      if !Decodable(db.hosts, owned) then Err(DatabaseError)
      else if |owned| >= limit then Err(LeaseLimitReached)
      else if pick.None? then Err(ThereIsNoFreeHosts)
      else Ok(pick.value)
  }

  /** `HostsService::lease_random`. */
  function LeaseRandomTx(db: Db, default: nat, u: UserId, groups: seq<string>, pick: Option<HostId>, until: Time)
    : (Db, Result<HostId, HostError>)
  {
    match RandomCheck(db, default, u, groups, pick)
    case Err(e) => (db, Err(e))
    case Ok(h) =>
      match LeaseWrite(db, u, {h}, until)
      case Err(e) => (db, Err(e))
      case Ok(after) => (after, Ok(h))
  }

  /** A row that `SELECT * FROM users WHERE tg_handle = handle` may return first: handles are not unique. */
  predicate LegalUser(db: Db, handle: string, who: Option<UserId>) {
    match who
    case None => forall u :: u in db.users ==> db.users[u].tgHandle != Some(handle)
    case Some(u) => u in db.users && db.users[u].tgHandle == Some(handle)
  }

  /** The extend button: the hosts it extends and the tables afterwards. */
  function ExtendTx(db: Db, who: Option<UserId>, hours: int, now: Time): (Db, set<HostId>) {
    // handle_extend_callback drops non-positive hours; extend_user_hosts needs a linked user
    if hours <= 0 || who.None? then (db, {})
    else
      var ids := ExpiringOf(db.hosts, who.value, now + EXPIRATION_NOTIFY_WINDOW);
      (db.(hosts := ExtendHosts(db.hosts, ids, hours)), ids)
  }

  /** `ReleaseTimer::release`, its table half. */
  function ReleaseTx(db: Db, now: Time): Db {
    db.(hosts := FreeHosts(db.hosts, ExpiringBefore(db.hosts, now)))
  }

  // ---------- what a lease does ----------

  /** The checks pass exactly when the caller holds none of the requested hosts and the distinct ids
      fit under the limit. */
  lemma LeaseCheckPassesIff(db: Db, default: nat, u: UserId, groups: seq<string>, ids: seq<HostId>)
    requires Paired(db.hosts)
    ensures var limit := LeaseLimit(db.limits, groups, default);
            LeaseCheck(db, default, u, groups, ids).Ok? <==>
              && (forall h :: h in ids && h in db.hosts ==> db.hosts[h].userId != Some(u))
              && limit.Ok? && |OwnedBy(db.hosts, u)| + |SetOf(ids)| <= limit.value
    ensures LeaseCheck(db, default, u, groups, ids).Ok? ==> LeaseCheck(db, default, u, groups, ids).value == SetOf(ids)
  {
    var owned, wanted := OwnedBy(db.hosts, u), SetOf(ids);
    StatementsKeepPaired(db.hosts, {}, u, 0, 0);
    DisjointMeaning(owned, wanted);
    assert (forall h :: h in owned ==> h !in wanted)
           <==> forall h :: h in ids && h in db.hosts ==> db.hosts[h].userId != Some(u) by {
      assert forall h :: h in owned <==> h in db.hosts && db.hosts[h].userId == Some(u);
    }
  }

  /** A lease succeeds exactly when its checks pass and the caller is a known user, if any requested id
      exists. A refusal changes nothing. */
  lemma LeaseSucceedsIff(db: Db, default: nat, u: UserId, groups: seq<string>, ids: seq<HostId>, until: Time)
    requires Consistent(db)
    ensures LeaseTx(db, default, u, groups, ids, until).1.Ok? <==>
              && LeaseCheck(db, default, u, groups, ids).Ok?
              && (u in db.users || forall h :: h in ids ==> h !in db.hosts)
    ensures LeaseTx(db, default, u, groups, ids, until).1.Err? ==> LeaseTx(db, default, u, groups, ids, until).0 == db
  {
    if LeaseCheck(db, default, u, groups, ids).Ok? {
      LeaseCheckPassesIff(db, default, u, groups, ids);
      DisjointMeaning(SetOf(ids), db.hosts.Keys);
    }
  }

  /** Which refusal a lease request gets, on any tables, in terms of rows; the checks come in this order. */
  ghost predicate LeaseAnswer(db: Db, default: nat, u: UserId, groups: seq<string>, ids: seq<HostId>,
                              r: Result<set<HostId>, HostError>)
  {
    var held := set h | h in db.hosts && db.hosts[h].userId == Some(u);
    var asked := set h | h in ids;
    var undecodable := exists h :: h in held && db.hosts[h].leasedUntil.None?;
    var clash := exists h :: h in held && h in ids;
    var negative := exists g :: g in groups && g in db.limits && db.limits[g] < 0;
    var limit := LeaseLimit(db.limits, groups, default);
    var over := limit.Ok? && |held| + |asked| > limit.value;
    var unknown := u !in db.users && exists h :: h in ids && h in db.hosts;
    && (r == Err(DatabaseError) <==> undecodable || (!clash && !negative && !over && unknown))
    && (r.Err? && r.error.AlreadyLeased? <==> !undecodable && clash)
    && (r.Err? && r.error.AlreadyLeased? ==> r.error.hosts == set h | h in held && h in ids)
    && (r == Err(Panicked) <==> !undecodable && !clash && negative)
    && (r == Err(LeaseLimitReached) <==> !undecodable && !clash && !negative && over)
    && (r.Ok? <==> !undecodable && !clash && !negative && !over && !unknown)
  }

  /** What a lease request leaves behind: a refusal changes nothing, a success writes exactly the existing
      requested rows and answers with all that the user now holds. */
  ghost predicate LeaseWrites(db: Db, after: Db, u: UserId, ids: seq<HostId>, until: Time, r: Result<set<HostId>, HostError>) {
    && (r.Err? ==> after == db)
    && (r.Ok? ==>
          && after == db.(hosts := after.hosts) && after.hosts.Keys == db.hosts.Keys
          && (forall h :: h in db.hosts ==>
                after.hosts[h] == if h in ids then Host(db.hosts[h].group, Some(u), Some(until)) else db.hosts[h])
          && r.value == set h | h in after.hosts && after.hosts[h].userId == Some(u))
  }

  lemma HeldAndAsked(db: Db, u: UserId, ids: seq<HostId>)
    ensures OwnedBy(db.hosts, u) == set h | h in db.hosts && db.hosts[h].userId == Some(u)
    ensures SetOf(ids) == set h | h in ids
    ensures !Decodable(db.hosts, OwnedBy(db.hosts, u)) <==> exists h :: h in OwnedBy(db.hosts, u) && db.hosts[h].leasedUntil.None?
    ensures OwnedBy(db.hosts, u) * SetOf(ids) != {} <==> exists h :: h in OwnedBy(db.hosts, u) && h in ids
    ensures OwnedBy(db.hosts, u) * SetOf(ids) == set h | h in OwnedBy(db.hosts, u) && h in ids
    ensures SetOf(ids) * db.hosts.Keys != {} <==> exists h :: h in ids && h in db.hosts
  {
    DisjointMeaning(OwnedBy(db.hosts, u), SetOf(ids));
    DisjointMeaning(SetOf(ids), db.hosts.Keys);
  }

  lemma RefusalIs(db: Db, default: nat, u: UserId, groups: seq<string>, ids: seq<HostId>, until: Time)
    ensures LeaseAnswer(db, default, u, groups, ids, LeaseTx(db, default, u, groups, ids, until).1)
  {
    HeldAndAsked(db, u, ids);
    LimitMeaning(db.limits, groups, default, 0);
    LimitIsOkOrPanic(db.limits, groups, default);
  }

  lemma WritesAre(db: Db, default: nat, u: UserId, groups: seq<string>, ids: seq<HostId>, until: Time)
    ensures LeaseWrites(db, LeaseTx(db, default, u, groups, ids, until).0, u, ids, until, LeaseTx(db, default, u, groups, ids, until).1)
  {
    HeldAndAsked(db, u, ids);
  }

  lemma LeaseAnswers(db: Db, default: nat, u: UserId, groups: seq<string>, ids: seq<HostId>, until: Time)
    ensures LeaseAnswer(db, default, u, groups, ids, LeaseTx(db, default, u, groups, ids, until).1)
    ensures LeaseWrites(db, LeaseTx(db, default, u, groups, ids, until).0, u, ids, until, LeaseTx(db, default, u, groups, ids, until).1)
  {
    RefusalIs(db, default, u, groups, ids, until);
    WritesAre(db, default, u, groups, ids, until);
  }

  /** A successful lease moves exactly the existing requested hosts to the caller, with the new
      expiry, whoever held them, and answers with everything the caller now holds: within the limit. */
  lemma LeaseEffect(db: Db, default: nat, u: UserId, groups: seq<string>, ids: seq<HostId>, until: Time)
    requires Consistent(db)
    requires LeaseTx(db, default, u, groups, ids, until).1.Ok?
    ensures var (after, r) := LeaseTx(db, default, u, groups, ids, until);
            && after == db.(hosts := after.hosts) && after.hosts.Keys == db.hosts.Keys
            && (forall h :: h in db.hosts ==>
                  after.hosts[h] == if h in ids then Host(db.hosts[h].group, Some(u), Some(until)) else db.hosts[h])
            && r.value == OwnedBy(after.hosts, u) == OwnedBy(db.hosts, u) + SetOf(ids) * db.hosts.Keys
            && |r.value| <= LeaseLimit(db.limits, groups, default).value
            && Consistent(after)
  {
    LeaseMovesExactly(db.hosts, SetOf(ids), u, until, u);
    StatementsKeepPaired(db.hosts, SetOf(ids), u, until, 0);
    DisjointMeaning(SetOf(ids), db.hosts.Keys);
  }

  /** Asking again for a host one already holds is refused, naming exactly the hosts at fault,
      and leaves the tables alone. */
  lemma ReLeaseRefused(db: Db, default: nat, u: UserId, groups: seq<string>, ids: seq<HostId>, until: Time, h: HostId)
    requires Consistent(db)
    requires h in ids && h in OwnedBy(db.hosts, u)
    ensures LeaseTx(db, default, u, groups, ids, until)
            == (db, Err(AlreadyLeased(set x | x in OwnedBy(db.hosts, u) && x in ids)))
  {
    var clash := OwnedBy(db.hosts, u) * SetOf(ids);
    assert h in clash;
    assert clash == set x | x in OwnedBy(db.hosts, u) && x in ids;
  }

  /** Everything a random lease answers and does, on any tables, in terms of rows. */
  ghost predicate LeaseRandomOutcome(db: Db, after: Db, default: nat, u: UserId, groups: seq<string>, g: GroupId, until: Time,
                                     r: Result<HostId, HostError>)
  {
    var held := set h | h in db.hosts && db.hosts[h].userId == Some(u);
    var undecodable := exists h :: h in held && db.hosts[h].leasedUntil.None?;
    var negative := exists ad :: ad in groups && ad in db.limits && db.limits[ad] < 0;
    var limit := LeaseLimit(db.limits, groups, default);
    var full := limit.Ok? && |held| >= limit.value;
    var free := exists h :: h in db.hosts && db.hosts[h].userId == None && db.hosts[h].group == g;
    && (r == Err(Panicked) <==> negative)
    && (r == Err(DatabaseError) <==> !negative && (undecodable || (!full && free && u !in db.users)))
    && (r == Err(LeaseLimitReached) <==> !negative && !undecodable && full)
    && (r == Err(ThereIsNoFreeHosts) <==> !negative && !undecodable && !full && !free)
    && (r.Ok? <==> !negative && !undecodable && !full && free && u in db.users)
    && (r.Err? ==> after == db)
    && (r.Ok? ==>
          && r.value in db.hosts && db.hosts[r.value].userId == None && db.hosts[r.value].group == g
          && after == db.(hosts := after.hosts) && after.hosts.Keys == db.hosts.Keys
          && (forall h :: h in db.hosts ==>
                after.hosts[h] == if h == r.value then Host(g, Some(u), Some(until)) else db.hosts[h]))
  }

  lemma LeaseRandomAnswers(db: Db, default: nat, u: UserId, groups: seq<string>, g: GroupId, pick: Option<HostId>, until: Time)
    requires LegalPick(db, g, pick)
    ensures var (after, r) := LeaseRandomTx(db, default, u, groups, pick, until);
            LeaseRandomOutcome(db, after, default, u, groups, g, until, r)
  {
    var held := set h | h in db.hosts && db.hosts[h].userId == Some(u);
    assert OwnedBy(db.hosts, u) == held;
    LimitMeaning(db.limits, groups, default, 0);
    if pick.Some? {
      assert pick.value in {pick.value} * db.hosts.Keys;
    } else {
      assert forall h :: h in db.hosts && db.hosts[h].userId == None && db.hosts[h].group == g ==> h in AvailableIn(db.hosts, g);
    }
  }

  /** A row that the query may pick is any free host of the group, and it picks nothing exactly if there is none. */
  lemma LegalPickMeaning(db: Db, g: GroupId, pick: Option<HostId>)
    ensures LegalPick(db, g, pick) <==>
              if pick.None? then forall h :: h in db.hosts && db.hosts[h].group == g ==> db.hosts[h].userId.Some?
              else pick.value in db.hosts && db.hosts[pick.value].userId == None && db.hosts[pick.value].group == g
  {
    EmptyOrInhabited(AvailableIn(db.hosts, g));
    if pick.None? && forall h :: h in db.hosts && db.hosts[h].group == g ==> db.hosts[h].userId.Some? {
      assert forall h :: h !in AvailableIn(db.hosts, g);
    }
    if h :| h in db.hosts && db.hosts[h].group == g && db.hosts[h].userId == None {
      assert h in AvailableIn(db.hosts, g);
    }
  }

  /** A random lease succeeds exactly when the caller is a known user below the limit and the group has
      a free host. A refusal changes nothing. */
  lemma LeaseRandomSucceedsIff(db: Db, default: nat, u: UserId, groups: seq<string>, g: GroupId,
                               pick: Option<HostId>, until: Time)
    requires Consistent(db) && LegalPick(db, g, pick)
    ensures var (after, r) := LeaseRandomTx(db, default, u, groups, pick, until);
            var limit := LeaseLimit(db.limits, groups, default);
            && (r.Ok? <==> limit.Ok? && |OwnedBy(db.hosts, u)| < limit.value
                           && u in db.users
                           && exists h :: h in db.hosts && db.hosts[h].userId == None && db.hosts[h].group == g)
            && (r.Err? ==> after == db)
  {
    StatementsKeepPaired(db.hosts, {}, u, 0, 0);
    LegalPickMeaning(db, g, pick);
    if pick.Some? {
      assert pick.value in {pick.value} * db.hosts.Keys;
    }
  }

  /** A random lease takes one free host of the group, and from nobody: every other user keeps exactly
      what they held. */
  lemma LeaseRandomEffect(db: Db, default: nat, u: UserId, groups: seq<string>, g: GroupId,
                          pick: Option<HostId>, until: Time, v: UserId)
    requires Consistent(db) && LegalPick(db, g, pick)
    requires LeaseRandomTx(db, default, u, groups, pick, until).1.Ok?
    ensures var (after, r) := LeaseRandomTx(db, default, u, groups, pick, until);
            && r.value in AvailableIn(db.hosts, g)
            && after == db.(hosts := after.hosts) && after.hosts.Keys == db.hosts.Keys
            && (forall h :: h in db.hosts ==>
                  after.hosts[h] == if h == r.value then Host(g, Some(u), Some(until)) else db.hosts[h])
            && OwnedBy(after.hosts, u) == OwnedBy(db.hosts, u) + {r.value}
            && |OwnedBy(after.hosts, u)| == |OwnedBy(db.hosts, u)| + 1 <= LeaseLimit(db.limits, groups, default).value
            && (v != u ==> OwnedBy(after.hosts, v) == OwnedBy(db.hosts, v))
            && Available(after.hosts) == Available(db.hosts) - {r.value}
            && Consistent(after)
  {
    var h := pick.value;
    LeaseMovesExactly(db.hosts, {h}, u, until, v);
    assert h !in OwnedBy(db.hosts, v) && h !in OwnedBy(db.hosts, u);
    assert {h} * db.hosts.Keys == {h};
    StatementsKeepPaired(db.hosts, {h}, u, until, 0);
  }

  /** The lookup by handle answers somebody exactly when somebody is linked to it, always one of these, and can answer
      two different users only when both are linked to it. */
  lemma LegalUserMeaning(db: Db, handle: string, a: Option<UserId>, b: Option<UserId>)
    requires LegalUser(db, handle, a)
    ensures a.Some? <==> exists u :: u in db.users && db.users[u].tgHandle == Some(handle)
    ensures a.Some? ==> a.value in db.users && db.users[a.value].tgHandle == Some(handle)
    ensures LegalUser(db, handle, b) && a != b ==>
              && a.Some? && b.Some? && a.value != b.value && b.value in db.users
              && db.users[a.value].tgHandle == db.users[b.value].tgHandle == Some(handle)
  {
  }

  /** A press of the button extends exactly the hosts of the linked user whose expiry lies less than 30 minutes ahead,
      each by the hours of the button, and writes nothing else. */
  lemma ExtendMeaning(db: Db, who: Option<UserId>, hours: int, now: Time)
    ensures var (after, ids) := ExtendTx(db, who, hours, now);
            && after == db.(hosts := after.hosts) && after.hosts.Keys == db.hosts.Keys
            && (forall h :: h in ids <==>
                  && hours > 0 && who.Some? && h in db.hosts && db.hosts[h].userId == who
                  && db.hosts[h].leasedUntil.Some? && db.hosts[h].leasedUntil.value < now + Minutes(30))
            && (forall h :: h in db.hosts ==>
                  after.hosts[h] == if h in ids
                                    then Host(db.hosts[h].group, who, Some(db.hosts[h].leasedUntil.value + Hours(hours)))
                                    else db.hosts[h])
  {
  }

  /** A release pass frees exactly the owned hosts whose expiry has passed and touches nothing else;
      afterwards no owned host is expired, and a second pass at the same time is a no-op. */
  lemma ReleaseMeaning(db: Db, now: Time)
    requires Consistent(db)
    ensures var after := ReleaseTx(db, now);
            && after == db.(hosts := after.hosts) && after.hosts.Keys == db.hosts.Keys
            && (forall h :: h in db.hosts ==>
                  if db.hosts[h].userId.Some? && db.hosts[h].leasedUntil.value < now
                  then after.hosts[h] == Host(db.hosts[h].group, None, None)
                  else after.hosts[h] == db.hosts[h])
            && ExpiringBefore(after.hosts, now) == {}
            && ReleaseTx(after, now) == after
            && Consistent(after)
  {
    var after := ReleaseTx(db, now);
    StatementsKeepPaired(db.hosts, ExpiringBefore(db.hosts, now), 0, 0, 0);
    assert ExpiringBefore(after.hosts, now) == {};
    assert ReleaseTx(after, now).hosts == after.hosts;
  }
}
