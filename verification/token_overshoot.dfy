/** The token bound under overlap is exact. */
module TokenOvershoot {
  import opened Types
  import opened Tables
  import opened ApiTokens

  function Requested(u: UserId, ps: seq<string>): seq<Creating> {
    if ps == [] then [] else [Creating(u, None, ps[0])] + Requested(u, ps[1..])
  }

  lemma {:induction false} CreatesGrow(u: UserId, ps: seq<string>, p: string)
    ensures Requested(u, ps + [p]) == Requested(u, ps) + [Creating(u, None, p)]
  {
    if ps == [] {
      assert (ps + [p])[1..] == [];
    } else {
      CreatesGrow(u, ps[1..], p);
      assert (ps + [p])[1..] == ps[1..] + [p];
    }
  }

  lemma {:induction false} CreatesCounted(u: UserId, ps: seq<string>)
    ensures |Requested(u, ps)| == CreatesOf(u, Requested(u, ps)) == |ps|
  {
    if ps != [] {
      CreatesCounted(u, ps[1..]);
      assert Requested(u, ps)[1..] == Requested(u, ps[1..]);
    }
  }

  /** The table after the plaintexts have been inserted in turn. */
  function Stored(db: Db, hash: string -> string, u: UserId, ps: seq<string>): Db {
    if ps == [] then db
    else Inserted(Stored(db, hash, u, ps[..|ps| - 1]), hash, Creating(u, None, ps[|ps| - 1]))
  }

  /** New plaintexts: all different, and none stored yet. */
  ghost predicate Fresh(db: Db, hash: string -> string, ps: seq<string>) {
    && (forall i :: 0 <= i < |ps| ==> !HashStored(db, hash(ps[i])))
    && (forall i, j :: 0 <= i < j < |ps| ==> ps[i] != ps[j])
  }

  lemma InsertOne(db: Db, hash: string -> string, u: UserId, p: string, q: string)
    requires Injective(hash) && TokenKeys(db) && u in db.users && !HashStored(db, hash(p))
    ensures var after := Inserted(db, hash, Creating(u, None, p));
            && TokenKeys(after) && after.users == db.users
            && |TokensOf(after, u)| == |TokensOf(db, u)| + 1
            && (p != q && !HashStored(db, hash(q)) ==> !HashStored(after, hash(q)))
  {
    InsertCount(db, hash, Creating(u, None, p), u);
    assert db.nextToken !in TokensOf(db, u);
  }

  lemma {:induction false} StoredCount(db: Db, hash: string -> string, u: UserId, ps: seq<string>, j: nat)
    requires Injective(hash) && TokenKeys(db) && u in db.users && Fresh(db, hash, ps) && j <= |ps|
    ensures var after := Stored(db, hash, u, ps[..j]);
            && TokenKeys(after) && after.users == db.users
            && |TokensOf(after, u)| == |TokensOf(db, u)| + j
            && forall i :: j <= i < |ps| ==> !HashStored(after, hash(ps[i]))
  {
    if j > 0 {
      StoredCount(db, hash, u, ps, j - 1);
      assert ps[..j][..j - 1] == ps[..j - 1];
      var before := Stored(db, hash, u, ps[..j - 1]);
      InsertOne(before, hash, u, ps[j - 1], ps[j - 1]);
      forall i | j <= i < |ps| ensures !HashStored(Stored(db, hash, u, ps[..j]), hash(ps[i])) {
        InsertOne(before, hash, u, ps[j - 1], ps[i]);
      }
    }
  }

  function Script(u: UserId, ps: seq<string>, k: nat): Event {
    if k < |ps| then CheckCreate(u, None, ps[k]) else CommitCreate(0)
  }

  function Scene(db: Db, hash: string -> string, u: UserId, ps: seq<string>, k: nat): State
    requires k <= 2 * |ps|
  {
    if k <= |ps| then State(db, Requested(u, ps[..k]))
    else State(Stored(db, hash, u, ps[..k - |ps|]), Requested(u, ps[k - |ps|..]))
  }

  lemma SceneFollows(limit: nat, db: Db, hash: string -> string, u: UserId, ps: seq<string>, k: nat)
    requires |TokensOf(db, u)| < limit && k < 2 * |ps|
    ensures Enabled(Scene(db, hash, u, ps, k), Script(u, ps, k))
    ensures Next(limit, hash, Scene(db, hash, u, ps, k), Script(u, ps, k)) == Scene(db, hash, u, ps, k + 1)
  {
    if k < |ps| {
      assert ps[..k + 1] == ps[..k] + [ps[k]];
      CreatesGrow(u, ps[..k], ps[k]);
    } else {
      var j := k - |ps|;
      assert ps[..|ps|] == ps == ps[0..];
      assert Scene(db, hash, u, ps, k) == State(Stored(db, hash, u, ps[..j]), Requested(u, ps[j..]));
      assert ps[j..][1..] == ps[j + 1..];
      assert ps[..j + 1][..j] == ps[..j];
      assert Without(Requested(u, ps[j..]), 0) == Requested(u, ps[j + 1..]);
    }
  }

  function Scenes(db: Db, hash: string -> string, u: UserId, ps: seq<string>): seq<State> {
    seq(2 * |ps| + 1, k requires 0 <= k <= 2 * |ps| => Scene(db, hash, u, ps, k))
  }

  function Scripts(u: UserId, ps: seq<string>): seq<Event> {
    seq(2 * |ps|, k requires 0 <= k < 2 * |ps| => Script(u, ps, k))
  }

  lemma ScenesRun(limit: nat, db: Db, hash: string -> string, u: UserId, ps: seq<string>)
    requires |TokensOf(db, u)| < limit
    ensures IsRun(limit, hash, Scenes(db, hash, u, ps), Scripts(u, ps))
  {
    var ss, es := Scenes(db, hash, u, ps), Scripts(u, ps);
    forall k | 0 <= k < |es| ensures Enabled(ss[k], es[k]) && ss[k + 1] == Next(limit, hash, ss[k], es[k]) {
      SceneFollows(limit, db, hash, u, ps, k);
    }
  }

  lemma ScenesInFlight(db: Db, hash: string -> string, u: UserId, ps: seq<string>, k: nat)
    requires k <= 2 * |ps|
    ensures CreatesOf(u, Scenes(db, hash, u, ps)[k].pending) <= |ps|
  {
    CreatesCounted(u, if k <= |ps| then ps[..k] else ps[k - |ps|..]);
  }

  /** A user one token below the limit who overlaps `m` creates of new plaintexts ends with exactly
      `limit + m - 1` tokens. */
  lemma TokenOvershootReached(limit: nat, db: Db, hash: string -> string, u: UserId, ps: seq<string>)
    returns (ss: seq<State>, es: seq<Event>)
    requires Injective(hash) && TokenKeys(db) && u in db.users && Fresh(db, hash, ps)
    requires |TokensOf(db, u)| + 1 == limit
    ensures IsRun(limit, hash, ss, es) && ss[0] == State(db, [])
    ensures forall i :: 0 <= i < |ss| ==> CreatesOf(u, ss[i].pending) <= |ps|
    ensures ss[|es|].pending == [] && |TokensOf(ss[|es|].db, u)| == limit + |ps| - 1
  {
    ss, es := Scenes(db, hash, u, ps), Scripts(u, ps);
    ScenesRun(limit, db, hash, u, ps);
    forall k | 0 <= k < |ss| ensures CreatesOf(u, ss[k].pending) <= |ps| {
      ScenesInFlight(db, hash, u, ps, k);
    }
    StoredCount(db, hash, u, ps, |ps|);
    assert ps[..|ps|] == ps;
    assert ps[..0] == [];
  }
}
