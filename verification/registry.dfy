/** The database handle and its transactions (src/db/mod.rs). A transaction works on a copy of the
    tables; `Commit` writes the copy back, and a transaction that is never committed changes nothing. */
module Registries {
  import opened Types
  import opened Tables
  import opened LeaseLimits

  function Row(hosts: Hosts, h: HostId): LeasedHost
    requires h in hosts && hosts[h].userId.Some? && hosts[h].leasedUntil.Some?
  {
    LeasedHost(h, hosts[h].leasedUntil.value, hosts[h].userId.value)
  }

  function IdsOf(rows: seq<LeasedHost>): seq<HostId> {
    seq(|rows|, i requires 0 <= i < |rows| => rows[i].id)
  }

  /** `rows` are the rows of exactly the hosts in `ids`, each once, in an order the query leaves open. */
  ghost predicate RowsOf(rows: seq<LeasedHost>, hosts: Hosts, ids: set<HostId>) {
    && Lists(IdsOf(rows), ids)
    && forall r :: r in rows ==>
         && r.id in hosts && hosts[r.id].userId == Some(r.user) && hosts[r.id].leasedUntil == Some(r.leasedUntil)
  }

  lemma RowsMembers(rows: seq<LeasedHost>, hosts: Hosts, ids: set<HostId>, h: HostId)
    requires RowsOf(rows, hosts, ids)
    ensures h in ids <==> exists r :: r in rows && r.id == h
  {
    if h in ids {
      var i :| 0 <= i < |rows| && IdsOf(rows)[i] == h;
      assert rows[i] in rows;
    }
    if r :| r in rows && r.id == h {
      var i :| 0 <= i < |rows| && rows[i] == r;
      assert IdsOf(rows)[i] == h;
    }
  }

  /** Lists the rows of `ids` in an arbitrary order. */
  method Fetch(hosts: Hosts, ids: set<HostId>) returns (rows: seq<LeasedHost>)
    requires forall h :: h in ids ==> h in hosts && hosts[h].userId.Some? && hosts[h].leasedUntil.Some?
    ensures RowsOf(rows, hosts, ids)
  {
    rows := [];
    var rest := ids;
    while exists h :: h in rest
      invariant rest <= ids
      invariant RowsOf(rows, hosts, ids - rest)
      decreases rest
    {
      var h :| h in rest;
      assert IdsOf(rows + [Row(hosts, h)]) == IdsOf(rows) + [h];
      rows := rows + [Row(hosts, h)];
      rest := rest - {h};
    }
    assert ids - rest == ids;
  }

  class Registry {
    var db: Db

    constructor (db: Db)
      requires ForeignKeys(db) && TokenKeys(db)
      ensures Valid() && this.db == db
    {
      this.db := db;
    }

    ghost predicate Valid()
      reads this
    {
      ForeignKeys(db) && TokenKeys(db)
    }

    method Begin() returns (tx: RegistryTx)
      requires Valid()
      ensures fresh(tx) && tx.registry == this && tx.Valid() && tx.db == db
    {
      tx := new RegistryTx(this);
    }
  }

  class RegistryTx {
    const registry: Registry
    var db: Db

    constructor (registry: Registry)
      requires registry.Valid()
      ensures this.registry == registry && Valid() && db == registry.db
    {
      this.registry := registry;
      this.db := registry.db;
    }

    ghost predicate Valid()
      reads this
    {
      ForeignKeys(db) && TokenKeys(db)
    }

    method Commit()
      requires Valid()
      modifies registry
      ensures registry.db == db && registry.Valid()
    {
      registry.db := db;
    }

    // ---------- reads ----------

    /** Fails to decode when a row of the user has no expiry. */
    method GetLeasedHosts(u: UserId) returns (r: Result<seq<LeasedHost>, HostError>)
      requires Valid()
      ensures r.Ok? <==> Decodable(db.hosts, OwnedBy(db.hosts, u))
      ensures r.Ok? ==> RowsOf(r.value, db.hosts, OwnedBy(db.hosts, u))
      ensures r.Err? ==> r.error == DatabaseError
    {
      var ids := OwnedBy(db.hosts, u);
      if !Decodable(db.hosts, ids) {
        return Err(DatabaseError);
      }
      var rows := Fetch(db.hosts, ids);
      return Ok(rows);
    }

    method GetLeasedUntilHosts(until: Time) returns (rows: seq<LeasedHost>)
      requires Valid()
      ensures RowsOf(rows, db.hosts, ExpiringBefore(db.hosts, until))
    {
      rows := Fetch(db.hosts, ExpiringBefore(db.hosts, until));
    }

    method GetExpiringHostsForUser(u: UserId, until: Time) returns (rows: seq<LeasedHost>)
      requires Valid()
      ensures RowsOf(rows, db.hosts, ExpiringOf(db.hosts, u, until))
    {
      rows := Fetch(db.hosts, ExpiringOf(db.hosts, u, until));
    }

    method GetFirstAvailableGroupHost(g: GroupId) returns (pick: Option<HostId>)
      requires Valid()
      ensures pick.None? ==> AvailableIn(db.hosts, g) == {}
      ensures pick.Some? ==> pick.value in AvailableIn(db.hosts, g)
    {
      var free := AvailableIn(db.hosts, g);
      if exists h :: h in free {
        var h :| h in free;
        return Some(h);
      }
      return None;
    }

    method GetUserByTgHandle(handle: string) returns (who: Option<UserId>)
      ensures who.None? ==> forall u :: u in db.users ==> db.users[u].tgHandle != Some(handle)
      ensures who.Some? ==> who.value in db.users && db.users[who.value].tgHandle == Some(handle)
    {
      var linked := set u | u in db.users && db.users[u].tgHandle == Some(handle);
      if exists u :: u in linked {
        var u :| u in linked;
        return Some(u);
      }
      forall u | u in db.users ensures db.users[u].tgHandle != Some(handle) {
        assert u !in linked;
      }
      return None;
    }

    /** The limits of the matching groups, each group's row once, in an arbitrary order. */
    method GetAdGroupsLeaseLimits(groups: seq<string>) returns (rows: seq<int>)
      ensures exists listing :: Lists(listing, SetOf(groups) * db.limits.Keys) && rows == RowsFor(db.limits, listing)
    {
      rows := [];
      var matching := SetOf(groups) * db.limits.Keys;
      var rest := matching;
      ghost var listing := [];
      while exists g :: g in rest
        invariant rest <= matching
        invariant Lists(listing, matching - rest) && rows == RowsFor(db.limits, listing)
        decreases rest
      {
        var g :| g in rest;
        assert ([g] + listing)[1..] == listing;
        rows := [db.limits[g]] + rows;
        listing := [g] + listing;
        rest := rest - {g};
      }
      assert matching - rest == matching;
    }

    // ---------- writes ----------

    /** The foreign key rejects an unknown user, but only when some row is updated. Like every write it changes
        the transaction's copy only: what the others see is unchanged, for good if there is no commit. */
    method LeaseHostRows(u: UserId, ids: seq<HostId>, until: Time) returns (r: Result<(), HostError>)
      requires Valid()
      modifies this
      ensures r.Ok? <==> u in old(db.users) || SetOf(ids) * old(db.hosts.Keys) == {}
      ensures r.Ok? ==> db == old(db).(hosts := LeaseHosts(old(db.hosts), SetOf(ids), u, until))
      ensures r.Err? ==> r.error == DatabaseError && db == old(db)
      ensures Valid() && registry.db == old(registry.db)
    {
      DisjointMeaning(SetOf(ids), db.hosts.Keys);
      if u !in db.users && SetOf(ids) * db.hosts.Keys != {} {
        return Err(DatabaseError);
      }
      db := db.(hosts := LeaseHosts(db.hosts, SetOf(ids), u, until));
      return Ok(());
    }

    method FreeHostRows(ids: seq<HostId>)
      requires Valid()
      modifies this
      ensures db == old(db).(hosts := FreeHosts(old(db.hosts), SetOf(ids))) && Valid()
    {
      db := db.(hosts := FreeHosts(db.hosts, SetOf(ids)));
    }

    method FreeHostRowsForUser(ids: seq<HostId>, u: UserId)
      requires Valid()
      modifies this
      ensures db == old(db).(hosts := FreeHostsForUser(old(db.hosts), SetOf(ids), u)) && Valid()
    {
      db := db.(hosts := FreeHostsForUser(db.hosts, SetOf(ids), u));
    }

    method FreeAllRows(u: UserId)
      requires Valid()
      modifies this
      ensures db == old(db).(hosts := FreeAllHosts(old(db.hosts), u)) && Valid()
    {
      db := db.(hosts := FreeAllHosts(db.hosts, u));
    }

    method ExtendHostRows(ids: seq<HostId>, hours: int)
      requires Valid()
      modifies this
      ensures db == old(db).(hosts := ExtendHosts(old(db.hosts), SetOf(ids), hours)) && Valid()
    {
      db := db.(hosts := ExtendHosts(db.hosts, SetOf(ids), hours));
    }

    // ---------- api_tokens ----------

    method CreateApiToken(u: UserId, name: Option<string>, hash: string) returns (r: Result<TokenId, HostError>)
      requires Valid()
      modifies this
      ensures r.Ok? <==> InsertToken(old(db), u, name, hash).Ok?
      ensures r.Ok? ==> r.value == old(db).nextToken && InsertToken(old(db), u, name, hash) == Ok(db)
      ensures r.Err? ==> r.error == DatabaseError && db == old(db)
      ensures Valid()
    {
      match InsertToken(db, u, name, hash) {
        case Err(e) => return Err(e);
        case Ok(after) =>
          r := Ok(db.nextToken);
          db := after;
      }
    }

    method GetApiTokenByHash(hash: string) returns (owner: Option<UserId>)
      ensures owner.None? ==> !HashStored(db, hash)
      ensures owner.Some? ==> exists t :: t in db.tokens && db.tokens[t].hash == hash && db.tokens[t].userId == owner.value
    {
      if exists t :: t in db.tokens && db.tokens[t].hash == hash {
        var t :| t in db.tokens && db.tokens[t].hash == hash;
        return Some(db.tokens[t].userId);
      }
      return None;
    }

    method DeleteApiTokenForUser(t: TokenId, u: UserId) returns (deleted: bool)
      requires Valid()
      modifies this
      ensures (db, deleted) == DeleteToken(old(db), t, u)
      ensures Valid()
    {
      var (after, gone) := DeleteToken(db, t, u);
      db := after;
      deleted := gone;
    }
  }
}
