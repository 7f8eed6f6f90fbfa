/** Exactly when a user exceeds the token limit in a run whose creates overlap. */
module TokenLimits {
  import opened Types
  import opened Tables
  import opened ApiTokens

  /** At this event a create for `u` succeeds and stores token `t`. */
  ghost predicate Stores(hash: string -> string, s: State, e: Event, u: UserId, t: TokenId) {
    e.CommitCreate? && e.index < |s.pending| && Creates(hash, s, e, u, s.pending[e.index].plaintext, t)
  }

  /** `t` was stored for `u` at step `j`, and `u` has not revoked it up to `n`. */
  ghost predicate StoredSince(hash: string -> string, ss: seq<State>, es: seq<Event>, j: nat, n: nat, u: UserId, t: TokenId)
    requires j < n <= |es| < |ss|
  {
    && Stores(hash, ss[j], es[j], u, t)
    && forall m :: j < m < n ==> !Revokes(ss[m], es[m], u, t)
  }

  ghost predicate Stored(hash: string -> string, ss: seq<State>, es: seq<Event>, i: nat, n: nat, u: UserId, t: TokenId)
    requires i <= n <= |es| < |ss|
  {
    exists j: nat :: i <= j < n && StoredSince(hash, ss, es, j, n, u, t)
  }

  ghost predicate Unrevoked(ss: seq<State>, es: seq<Event>, i: nat, n: nat, u: UserId, t: TokenId)
    requires i <= n <= |es| < |ss|
  {
    forall m :: i <= m < n ==> !Revokes(ss[m], es[m], u, t)
  }

  lemma StoredStep(hash: string -> string, ss: seq<State>, es: seq<Event>, i: nat, n: nat, u: UserId, t: TokenId)
    requires i < n <= |es| < |ss|
    ensures Stored(hash, ss, es, i, n, u, t) <==>
            || Stores(hash, ss[n - 1], es[n - 1], u, t)
            || (Stored(hash, ss, es, i, n - 1, u, t) && !Revokes(ss[n - 1], es[n - 1], u, t))
  {
    if Stores(hash, ss[n - 1], es[n - 1], u, t) {
      assert StoredSince(hash, ss, es, n - 1, n, u, t);
    }
    if Stored(hash, ss, es, i, n - 1, u, t) && !Revokes(ss[n - 1], es[n - 1], u, t) {
      var j: nat :| i <= j < n - 1 && StoredSince(hash, ss, es, j, n - 1, u, t);
      assert StoredSince(hash, ss, es, j, n, u, t);
    }
    if Stored(hash, ss, es, i, n, u, t) {
      var j: nat :| i <= j < n && StoredSince(hash, ss, es, j, n, u, t);
      if j < n - 1 {
        assert StoredSince(hash, ss, es, j, n - 1, u, t);
      }
    }
  }

  lemma TokenStep(limit: nat, hash: string -> string, s: State, e: Event, u: UserId, t: TokenId)
    requires Enabled(s, e) && TokenKeys(s.db)
    ensures t in TokensOf(Next(limit, hash, s, e).db, u)
            <==> Stores(hash, s, e, u, t) || (t in TokensOf(s.db, u) && !Revokes(s, e, u, t))
    ensures s.db.nextToken <= Next(limit, hash, s, e).db.nextToken
    ensures Stores(hash, s, e, u, t) ==> s.db.nextToken <= t < Next(limit, hash, s, e).db.nextToken
  {
  }

  /** A token of `u` is live at `n` exactly when it was at `i` and `u` has not revoked it since, or a create of `u`
      has stored it since and `u` has not revoked it after that. */
  lemma {:induction false} LiveIff(limit: nat, hash: string -> string, ss: seq<State>, es: seq<Event>, i: nat, n: nat, u: UserId, t: TokenId)
    requires IsRun(limit, hash, ss, es) && TokenKeys(ss[0].db) && i <= n <= |es|
    ensures t in TokensOf(ss[n].db, u)
            <==> (t in TokensOf(ss[i].db, u) && Unrevoked(ss, es, i, n, u, t)) || Stored(hash, ss, es, i, n, u, t)
    ensures ss[i].db.nextToken <= ss[n].db.nextToken
    ensures Stored(hash, ss, es, i, n, u, t) ==> ss[i].db.nextToken <= t < ss[n].db.nextToken
    decreases n
  {
    if i < n {
      LiveIff(limit, hash, ss, es, i, n - 1, u, t);
      TokenKeysHold(limit, hash, ss, es, n - 1);
      TokenStep(limit, hash, ss[n - 1], es[n - 1], u, t);
      StoredStep(hash, ss, es, i, n, u, t);
      assert Unrevoked(ss, es, i, n, u, t)
             <==> Unrevoked(ss, es, i, n - 1, u, t) && !Revokes(ss[n - 1], es[n - 1], u, t);
    }
  }

  /** The tokens `u` had at step `i` and kept up to `k`, and those a create of `u` stored in between that still live. */
  ghost function KeptOrStored(hash: string -> string, ss: seq<State>, es: seq<Event>, i: nat, k: nat, u: UserId): set<TokenId>
    requires i <= k <= |es| < |ss|
  {
    (set t | t in TokensOf(ss[i].db, u) && Unrevoked(ss, es, i, k, u, t))
    + (set t: TokenId | ss[i].db.nextToken <= t < ss[k].db.nextToken && Stored(hash, ss, es, i, k, u, t))
  }

  lemma LiveAre(limit: nat, hash: string -> string, ss: seq<State>, es: seq<Event>, i: nat, k: nat, u: UserId)
    requires IsRun(limit, hash, ss, es) && TokenKeys(ss[0].db) && i <= k <= |es|
    ensures TokensOf(ss[k].db, u) == KeptOrStored(hash, ss, es, i, k, u)
  {
    forall t ensures t in TokensOf(ss[k].db, u) <==> t in KeptOrStored(hash, ss, es, i, k, u) {
      LiveIff(limit, hash, ss, es, i, k, u, t);
    }
  }

  /** This event checked the create `c` against the limit. */
  ghost predicate Checks(limit: nat, s: State, e: Event, c: Creating) {
    && e.CheckCreate? && c == Creating(e.user, StoredName(e.name), e.plaintext)
    && |TokensOf(s.db, e.user)| < limit
  }

  ghost predicate Commits(s: State, e: Event, c: Creating) {
    e.CommitCreate? && e.index < |s.pending| && s.pending[e.index] == c
  }

  lemma {:induction false} PendingWasChecked(limit: nat, hash: string -> string, ss: seq<State>, es: seq<Event>, n: nat, c: Creating)
    requires IsRun(limit, hash, ss, es) && ss[0].pending == [] && n <= |es|
    requires c in ss[n].pending
    ensures exists i: nat :: i < n && Checks(limit, ss[i], es[i], c)
  {
    if n > 0 {
      var s, e := ss[n - 1], es[n - 1];
      assert ss[n] == Next(limit, hash, s, e);
      if c in s.pending {
        PendingWasChecked(limit, hash, ss, es, n - 1, c);
      } else {
        assert Checks(limit, s, e, c);
      }
    }
  }

  /** What a successful create of a run stores: a new row with the user, the hash of the plaintext and the trimmed name
      that the request gave, and nothing else changes. */
  lemma StoredRow(limit: nat, hash: string -> string, ss: seq<State>, es: seq<Event>, k: nat, u: UserId, t: TokenId) returns (i: nat)
    requires IsRun(limit, hash, ss, es) && TokenKeys(ss[0].db) && ss[0].pending == [] && k < |es|
    requires Stores(hash, ss[k], es[k], u, t)
    ensures i < k && es[i].CheckCreate? && es[i].user == u
    ensures |set x | x in ss[i].db.tokens && ss[i].db.tokens[x].userId == u| < limit
    ensures var db := ss[k].db;
            && u in db.users && t !in db.tokens
            && ss[k + 1].db == db.(tokens := db.tokens[t := Token(u, StoredName(es[i].name), hash(es[i].plaintext))],
                                   nextToken := ss[k + 1].db.nextToken)
  {
    TokenKeysHold(limit, hash, ss, es, k);
    var c := ss[k].pending[es[k].index];
    assert c in ss[k].pending;
    PendingWasChecked(limit, hash, ss, es, k, c);
    i :| i < k && Checks(limit, ss[i], es[i], c);
    TokensAre(ss[i].db, u);
    assert ss[k + 1] == Next(limit, hash, ss[k], es[k]);
  }

  /** A create committed at `k` leaves its user above the limit: it is stored, and what the user kept since the check
      and what else was stored since are the limit or more already. */
  ghost predicate Overshoots(hash: string -> string, ss: seq<State>, es: seq<Event>, i: nat, k: nat, c: Creating, limit: nat)
    requires i <= k < |es| < |ss|
  {
    && InsertToken(ss[k].db, c.user, c.name, hash(c.plaintext)).Ok?
    && |KeptOrStored(hash, ss, es, i, k, c.user)| >= limit
  }

  lemma CreateHolds(db: Db, hash: string -> string, c: Creating)
    requires TokenKeys(db)
    ensures |TokensOf(Inserted(db, hash, c), c.user)|
            == |TokensOf(db, c.user)| + (if InsertToken(db, c.user, c.name, hash(c.plaintext)).Ok? then 1 else 0)
  {
    InsertCount(db, hash, c, c.user);
  }

  /** From within the limit, the commit of a create that was checked at `i` leads above it exactly when it overshoots. */
  lemma CommitOvershootsIff(limit: nat, hash: string -> string, ss: seq<State>, es: seq<Event>, i: nat, k: nat, c: Creating)
    requires IsRun(limit, hash, ss, es) && TokenKeys(ss[0].db) && i <= k < |es|
    requires Commits(ss[k], es[k], c) && |TokensOf(ss[k].db, c.user)| <= limit
    ensures |TokensOf(ss[k + 1].db, c.user)| > limit <==> Overshoots(hash, ss, es, i, k, c, limit)
  {
    TokenKeysHold(limit, hash, ss, es, k);
    LiveAre(limit, hash, ss, es, i, k, c.user);
    assert ss[k + 1] == Next(limit, hash, ss[k], es[k]);
    CreateHolds(ss[k].db, hash, c);
  }

  lemma NothingStored(hash: string -> string, ss: seq<State>, es: seq<Event>, i: nat, k: nat, u: UserId)
    requires i <= k <= |es| < |ss| && forall t :: !Stored(hash, ss, es, i, k, u, t)
    ensures |KeptOrStored(hash, ss, es, i, k, u)| <= |TokensOf(ss[i].db, u)|
  {
    var had, kept := TokensOf(ss[i].db, u), KeptOrStored(hash, ss, es, i, k, u);
    assert kept <= had;
    assert had == kept + (had - kept);
  }

  /** That has one cause: after the check another create of the same user was stored, and its token is still live. */
  lemma OvershootHasACause(limit: nat, hash: string -> string, ss: seq<State>, es: seq<Event>, i: nat, k: nat, c: Creating)
    requires IsRun(limit, hash, ss, es) && TokenKeys(ss[0].db) && i < k < |es|
    requires Checks(limit, ss[i], es[i], c) && Overshoots(hash, ss, es, i, k, c, limit)
    ensures exists t :: Stored(hash, ss, es, i, k, c.user, t)
  {
    if forall t :: !Stored(hash, ss, es, i, k, c.user, t) {
      NothingStored(hash, ss, es, i, k, c.user);
    }
  }

  /** Some create of `u` committed before `n` overshot. */
  ghost predicate SomeOvershoot(limit: nat, hash: string -> string, ss: seq<State>, es: seq<Event>, n: nat, u: UserId)
    requires n <= |es| < |ss|
  {
    exists i: nat, k: nat, c: Creating :: i < k < n && c.user == u && Checks(limit, ss[i], es[i], c)
      && Commits(ss[k], es[k], c) && Overshoots(hash, ss, es, i, k, c, limit)
  }

  lemma CountStep(limit: nat, hash: string -> string, s: State, e: Event, u: UserId)
    requires Enabled(s, e) && TokenKeys(s.db)
    requires |TokensOf(Next(limit, hash, s, e).db, u)| > |TokensOf(s.db, u)|
    ensures e.CommitCreate? && s.pending[e.index].user == u
  {
    match e
    case CommitCreate(i) => InsertCount(s.db, hash, s.pending[i], u);
    case Revoke(t, v) => DeleteCount(s.db, t, v, u);
    case _ =>
  }

  lemma LimitStep(limit: nat, hash: string -> string, ss: seq<State>, es: seq<Event>, k: nat, u: UserId)
    requires IsRun(limit, hash, ss, es) && TokenKeys(ss[0].db) && ss[0].pending == [] && k < |es|
    requires |TokensOf(ss[k].db, u)| <= limit < |TokensOf(ss[k + 1].db, u)|
    ensures SomeOvershoot(limit, hash, ss, es, k + 1, u)
  {
    assert Enabled(ss[k], es[k]) && ss[k + 1] == Next(limit, hash, ss[k], es[k]);
    TokenKeysHold(limit, hash, ss, es, k);
    CountStep(limit, hash, ss[k], es[k], u);
    var c := ss[k].pending[es[k].index];
    assert c in ss[k].pending;
    PendingWasChecked(limit, hash, ss, es, k, c);
    var i: nat :| i < k && Checks(limit, ss[i], es[i], c);
    CommitOvershootsIff(limit, hash, ss, es, i, k, c);
  }

  /** A user who starts within the token limit stays within it, up to any state of a run whose creates overlap, exactly
      when no create of the user overshoots before. */
  lemma {:induction false} TokenLimitHoldsIff(limit: nat, hash: string -> string, ss: seq<State>, es: seq<Event>, n: nat, u: UserId)
    requires IsRun(limit, hash, ss, es) && TokenKeys(ss[0].db) && ss[0].pending == [] && n <= |es|
    requires |TokensOf(ss[0].db, u)| <= limit
    ensures (forall m :: 0 <= m <= n ==> |TokensOf(ss[m].db, u)| <= limit) <==> !SomeOvershoot(limit, hash, ss, es, n, u)
  {
    if n > 0 {
      TokenLimitHoldsIff(limit, hash, ss, es, n - 1, u);
      if SomeOvershoot(limit, hash, ss, es, n, u) {
        var i: nat, k: nat, c: Creating :| i < k < n && c.user == u && Checks(limit, ss[i], es[i], c)
          && Commits(ss[k], es[k], c) && Overshoots(hash, ss, es, i, k, c, limit);
        if |TokensOf(ss[k].db, u)| <= limit {
          CommitOvershootsIff(limit, hash, ss, es, i, k, c);
        }
      } else {
        if |TokensOf(ss[n].db, u)| > limit && |TokensOf(ss[n - 1].db, u)| <= limit {
          LimitStep(limit, hash, ss, es, n - 1, u);
        }
      }
    }
  }
}
