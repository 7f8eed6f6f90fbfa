/** The tables and what each SQL statement of src/db/mod.rs does to them. */
module Tables {
  import opened Types

  type Hosts = map<HostId, Host>

  datatype Db = Db(
    hosts: Hosts,
    users: map<UserId, User>,
    limits: map<string, int>,
    tokens: map<TokenId, Token>,
    nextToken: TokenId)

  // ---------- statements that change `hosts` ----------

  function LeaseHosts(hosts: Hosts, ids: set<HostId>, u: UserId, until: Time): Hosts {
    map h | h in hosts ::
      if h in ids then hosts[h].(userId := Some(u), leasedUntil := Some(until)) else hosts[h]
  }

  function FreeHosts(hosts: Hosts, ids: set<HostId>): Hosts {
    map h | h in hosts ::
      if h in ids then hosts[h].(userId := None, leasedUntil := None) else hosts[h]
  }

  function FreeHostsForUser(hosts: Hosts, ids: set<HostId>, u: UserId): Hosts {
    map h | h in hosts ::
      if h in ids && hosts[h].userId == Some(u)
      then hosts[h].(userId := None, leasedUntil := None) else hosts[h]
  }

  function FreeAllHosts(hosts: Hosts, u: UserId): Hosts {
    map h | h in hosts ::
      if hosts[h].userId == Some(u)
      then hosts[h].(userId := None, leasedUntil := None) else hosts[h]
  }

  function ExtendHosts(hosts: Hosts, ids: set<HostId>, hours: int): Hosts {
    map h | h in hosts ::
      if h in ids && hosts[h].leasedUntil.Some?
      then hosts[h].(leasedUntil := Some(hosts[h].leasedUntil.value + Hours(hours))) else hosts[h]
  }

  // ---------- queries ----------

  function OwnedBy(hosts: Hosts, u: UserId): set<HostId> {
    set h | h in hosts && hosts[h].userId == Some(u)
  }

  function Available(hosts: Hosts): set<HostId> {
    set h | h in hosts && hosts[h].userId == None
  }

  function AvailableIn(hosts: Hosts, g: GroupId): set<HostId> {
    set h | h in hosts && hosts[h].userId == None && hosts[h].group == g
  }

  /** The owned rows with `leased_until < t`. A NULL expiry is never less than `t`. */
  function ExpiringBefore(hosts: Hosts, t: Time): set<HostId> {
    set h | h in hosts && hosts[h].userId.Some? && hosts[h].leasedUntil.Some? && hosts[h].leasedUntil.value < t
  }

  function ExpiringOf(hosts: Hosts, u: UserId, t: Time): set<HostId> {
    set h | h in ExpiringBefore(hosts, t) && hosts[h].userId == Some(u)
  }

  function ExpiringOwners(hosts: Hosts, t: Time): set<UserId> {
    set h | h in ExpiringBefore(hosts, t) :: hosts[h].userId.value
  }

  /** Decoding these rows as `LeasedHost` succeeds: none of them has a NULL expiry. */
  predicate Decodable(hosts: Hosts, ids: set<HostId>)
    requires ids <= hosts.Keys
  {
    forall h :: h in ids ==> hosts[h].leasedUntil.Some?
  }

  // ---------- what the tables keep ----------

  /** The foreign key on `hosts.user_id`: the database itself never lets it break, so that
      the JOIN with `users` in the leased-host queries drops no owned row. */
  ghost predicate ForeignKeys(db: Db) {
    forall h :: h in db.hosts && db.hosts[h].userId.Some? ==> db.hosts[h].userId.value in db.users
  }

  // ---------- statements and queries on `api_tokens` ----------

  /** `INSERT INTO api_tokens`: refused for an unknown user and for a hash that is already stored. */
  function InsertToken(db: Db, u: UserId, name: Option<string>, hash: string): Result<Db, HostError> {
    if u !in db.users || HashStored(db, hash) then Err(DatabaseError)
    else Ok(db.(tokens := db.tokens[db.nextToken := Token(u, name, hash)], nextToken := db.nextToken + 1))
  }

  predicate HashStored(db: Db, hash: string) {
    exists t :: t in db.tokens && db.tokens[t].hash == hash
  }

  /** `DELETE FROM api_tokens WHERE id = t AND user_id = u`, and whether it deleted a row. */
  function DeleteToken(db: Db, t: TokenId, u: UserId): (Db, bool) {
    if t in db.tokens && db.tokens[t].userId == u then (db.(tokens := db.tokens - {t}), true) else (db, false)
  }

  function TokensOf(db: Db, u: UserId): set<TokenId> {
    set t | t in db.tokens && db.tokens[t].userId == u
  }

  /** The primary key, unique and foreign key constraints of `api_tokens`, which the database enforces. */
  ghost predicate TokenKeys(db: Db) {
    && (forall t :: t in db.tokens ==> t < db.nextToken && db.tokens[t].userId in db.users)
    && (forall t, v :: t in db.tokens && v in db.tokens && db.tokens[t].hash == db.tokens[v].hash ==> t == v)
  }

  /** A host has an owner exactly when it has an expiry. Only the code maintains this. */
  ghost predicate Paired(hosts: Hosts) {
    forall h :: h in hosts ==> (hosts[h].userId.Some? <==> hosts[h].leasedUntil.Some?)
  }

  ghost predicate Consistent(db: Db) {
    ForeignKeys(db) && Paired(db.hosts)
  }

  lemma StatementsKeepPaired(hosts: Hosts, ids: set<HostId>, u: UserId, until: Time, hours: int)
    requires Paired(hosts)
    ensures Paired(LeaseHosts(hosts, ids, u, until))
    ensures Paired(FreeHosts(hosts, ids))
    ensures Paired(FreeHostsForUser(hosts, ids, u))
    ensures Paired(FreeAllHosts(hosts, u))
    ensures Paired(ExtendHosts(hosts, ids, hours))
    ensures Decodable(hosts, OwnedBy(hosts, u))
  {
  }

  lemma UnionBound(a: set<HostId>, b: set<HostId>, known: set<HostId>)
    ensures |a + b * known| <= |a| + |b|
    ensures a !! b ==> |a + b * known| == |a| + |b * known|
  {
    assert |a + b * known| + |a * (b * known)| == |a| + |b * known|;
    assert |b * known| + |b - known| == |b| by { assert b == b * known + (b - known); }
    if a !! b { assert a * (b * known) == {}; }
  }

  lemma LeaseMoves(hosts: Hosts, ids: set<HostId>, u: UserId, until: Time, v: UserId)
    ensures OwnedBy(LeaseHosts(hosts, ids, u, until), u) == OwnedBy(hosts, u) + ids * hosts.Keys
    ensures v != u ==> OwnedBy(LeaseHosts(hosts, ids, u, until), v) == OwnedBy(hosts, v) - ids
    ensures Available(LeaseHosts(hosts, ids, u, until)) == Available(hosts) - ids
  {
    assert OwnedBy(LeaseHosts(hosts, ids, u, until), u) == OwnedBy(hosts, u) + ids * hosts.Keys;
    assert Available(LeaseHosts(hosts, ids, u, until)) == Available(hosts) - ids;
  }

  /** Exactly the named rows that exist move, away from whoever had them. */
  lemma LeaseMovesExactly(hosts: Hosts, ids: set<HostId>, u: UserId, until: Time, v: UserId)
    ensures var after := LeaseHosts(hosts, ids, u, until);
            && OwnedBy(after, u) == OwnedBy(hosts, u) + ids * hosts.Keys
            && (v != u ==> OwnedBy(after, v) == OwnedBy(hosts, v) - ids)
            && Available(after) == Available(hosts) - ids
            && |OwnedBy(after, u)| <= |OwnedBy(hosts, u)| + |ids|
            && (OwnedBy(hosts, u) !! ids ==>
                  |OwnedBy(after, u)| == |OwnedBy(hosts, u)| + |ids * hosts.Keys|)
  {
    LeaseMoves(hosts, ids, u, until, v);
    UnionBound(OwnedBy(hosts, u), ids, hosts.Keys);
  }

  /** Freeing, in all its forms, only ever takes hosts away from users, and returns them to the pool. */
  lemma FreeMovesExactly(hosts: Hosts, ids: set<HostId>, u: UserId, v: UserId)
    ensures OwnedBy(FreeHosts(hosts, ids), v) == OwnedBy(hosts, v) - ids
    ensures Available(FreeHosts(hosts, ids)) == Available(hosts) + ids * hosts.Keys
    ensures OwnedBy(FreeHostsForUser(hosts, ids, u), v) == OwnedBy(hosts, v) - (if v == u then ids else {})
    ensures Available(FreeHostsForUser(hosts, ids, u)) == Available(hosts) + ids * OwnedBy(hosts, u)
    ensures OwnedBy(FreeAllHosts(hosts, u), v) == if v == u then {} else OwnedBy(hosts, v)
    ensures Available(FreeAllHosts(hosts, u)) == Available(hosts) + OwnedBy(hosts, u)
  {
    assert OwnedBy(FreeHostsForUser(hosts, ids, u), v) == OwnedBy(hosts, v) - (if v == u then ids else {});
    assert OwnedBy(FreeHosts(hosts, ids), v) == OwnedBy(hosts, v) - ids;
    assert OwnedBy(FreeAllHosts(hosts, u), v) == if v == u then {} else OwnedBy(hosts, v);
  }

  lemma ExtendMovesNothing(hosts: Hosts, ids: set<HostId>, hours: int, v: UserId)
    ensures OwnedBy(ExtendHosts(hosts, ids, hours), v) == OwnedBy(hosts, v)
    ensures Available(ExtendHosts(hosts, ids, hours)) == Available(hosts)
  {
    assert OwnedBy(ExtendHosts(hosts, ids, hours), v) == OwnedBy(hosts, v);
  }

  // ---------- lease and free as an algebra ----------

  /** Leasing and then freeing the same ids restores the table exactly when every existing id was
      free to begin with: a host taken over from another user is not given back. */
  lemma LeaseThenFree(hosts: Hosts, ids: set<HostId>, u: UserId, until: Time)
    requires Paired(hosts)
    ensures FreeHostsForUser(LeaseHosts(hosts, ids, u, until), ids, u) == hosts
            <==> ids * hosts.Keys <= Available(hosts)
  {
    var leased := LeaseHosts(hosts, ids, u, until);
    var back := FreeHostsForUser(leased, ids, u);
    assert back.Keys == hosts.Keys;
    if h :| h in hosts && h in ids && hosts[h].userId != None {
      assert h in ids * hosts.Keys && h !in Available(hosts);
      assert back[h].userId == None;
    } else {
      forall h | h in hosts ensures back[h] == hosts[h] && (h in ids ==> h in Available(hosts)) {
      }
      assert back == hosts;
    }
  }

  /** Two frees are one free of the union (hence order and repetition do not matter), and
      `free_all` is `free` of everything the user holds. */
  lemma FreesCompose(hosts: Hosts, a: set<HostId>, b: set<HostId>, u: UserId)
    ensures FreeHostsForUser(FreeHostsForUser(hosts, a, u), b, u) == FreeHostsForUser(hosts, a + b, u)
    ensures FreeAllHosts(hosts, u) == FreeHostsForUser(hosts, OwnedBy(hosts, u), u)
    ensures FreeHostsForUser(hosts, a, u) == FreeHosts(hosts, a * OwnedBy(hosts, u))
    ensures FreeHostsForUser(hosts, a, u) == hosts <==> a !! OwnedBy(hosts, u)
  {
    if h :| h in hosts && h in a && hosts[h].userId == Some(u) {
      assert h in a * OwnedBy(hosts, u);
      assert FreeHostsForUser(hosts, a, u)[h].userId == None;
    } else {
      forall h | h in hosts ensures FreeHostsForUser(hosts, a, u)[h] == hosts[h] {
      }
      assert FreeHostsForUser(hosts, a, u) == hosts;
    }
  }

  // ---------- conservation ----------

  function OwnedTotal(hosts: Hosts, us: seq<UserId>): nat {
    if us == [] then 0 else |OwnedBy(hosts, us[0])| + OwnedTotal(hosts, us[1..])
  }

  function OwnedByAny(hosts: Hosts, us: seq<UserId>): set<HostId> {
    set h | h in hosts && hosts[h].userId.Some? && hosts[h].userId.value in us
  }

  lemma {:induction false} OwnedTotalCounts(hosts: Hosts, us: seq<UserId>)
    requires forall i, j :: 0 <= i < j < |us| ==> us[i] != us[j]
    ensures OwnedTotal(hosts, us) == |OwnedByAny(hosts, us)|
  {
    if us == [] {
      assert OwnedByAny(hosts, us) == {};
    } else {
      OwnedTotalCounts(hosts, us[1..]);
      var one, rest := OwnedBy(hosts, us[0]), OwnedByAny(hosts, us[1..]);
      assert us[0] !in us[1..];
      assert one !! rest;
      assert OwnedByAny(hosts, us) == one + rest by {
        assert us == [us[0]] + us[1..];
      }
    }
  }

  /** Every host is either in the pool or held by exactly one user: the counts add up,
      in whatever order the users are listed. */
  lemma HostsConserved(db: Db, us: seq<UserId>)
    requires ForeignKeys(db)
    requires Lists(us, db.users.Keys)
    ensures |db.hosts| == |Available(db.hosts)| + OwnedTotal(db.hosts, us)
    ensures forall u, v :: u != v ==> OwnedBy(db.hosts, u) !! OwnedBy(db.hosts, v)
  {
    OwnedTotalCounts(db.hosts, us);
    var owned := OwnedByAny(db.hosts, us);
    forall h | h in db.hosts.Keys ensures h in Available(db.hosts) + owned {
      if db.hosts[h].userId.Some? { assert db.hosts[h].userId.value in us; }
    }
    assert db.hosts.Keys == Available(db.hosts) + owned;
    assert Available(db.hosts) !! owned;
    assert |db.hosts| == |db.hosts.Keys|;
  }
}
