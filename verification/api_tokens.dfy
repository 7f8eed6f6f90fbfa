/** API tokens (src/logic/api_tokens.rs): the service, and what lookups and limits mean over whole runs
    in which creates overlap. The hash and the random plaintexts are parameters. */
module ApiTokens {
  import opened Types
  import opened Tables
  import opened Registries

  ghost predicate Injective(hash: string -> string) {
    forall p, q :: hash(p) == hash(q) ==> p == q
  }

  /** Looking up a plaintext answers `who`. */
  ghost predicate Finds(db: Db, hash: string -> string, plaintext: string, who: Option<UserId>) {
    match who
    case None => !HashStored(db, hash(plaintext))
    case Some(u) => exists t :: t in db.tokens && Holds(db, t, u, hash(plaintext))
  }

  ghost predicate Holds(db: Db, t: TokenId, u: UserId, h: string) {
    t in db.tokens && db.tokens[t].userId == u && db.tokens[t].hash == h
  }

  // ---------- the name of a token ----------

  /** The characters that `str::trim` removes: those with the Unicode property White_Space. */
  predicate Blank(c: char) {
    || '\U{0009}' <= c <= '\U{000D}' || c in {' ', '\U{0085}', '\U{00A0}', '\U{1680}'}
    || '\U{2000}' <= c <= '\U{200A}' || c in {'\U{2028}', '\U{2029}', '\U{202F}', '\U{205F}', '\U{3000}'}
  }

  function TrimStart(s: string): string {
    if s != [] && Blank(s[0]) then TrimStart(s[1..]) else s
  }

  function TrimEnd(s: string): string {
    if s != [] && Blank(s[|s| - 1]) then TrimEnd(s[..|s| - 1]) else s
  }

  function Trim(s: string): string {
    TrimEnd(TrimStart(s))
  }

  /** The name as it is stored: trimmed, and none if nothing is left. */
  function StoredName(name: Option<string>): Option<string> {
    match name
    case None => None
    case Some(s) => if Trim(s) == "" then None else Some(Trim(s))
  }

  ghost predicate AllBlank(s: string) {
    forall c :: c in s ==> Blank(c)
  }

  ghost predicate Tight(s: string) {
    s != "" && !Blank(s[0]) && !Blank(s[|s| - 1])
  }

  lemma {:induction false} StartSplits(s: string) returns (pre: string)
    ensures s == pre + TrimStart(s) && AllBlank(pre)
    ensures TrimStart(s) == "" || !Blank(TrimStart(s)[0])
  {
    if s != [] && Blank(s[0]) {
      var rest := StartSplits(s[1..]);
      pre := [s[0]] + rest;
      assert s == [s[0]] + s[1..];
    } else {
      pre := "";
    }
  }

  lemma {:induction false} EndSplits(s: string) returns (post: string)
    ensures s == TrimEnd(s) + post && AllBlank(post)
    ensures TrimEnd(s) == "" || !Blank(TrimEnd(s)[|TrimEnd(s)| - 1])
  {
    if s != [] && Blank(s[|s| - 1]) {
      var rest := EndSplits(s[..|s| - 1]);
      post := rest + [s[|s| - 1]];
      assert s == s[..|s| - 1] + [s[|s| - 1]];
    } else {
      post := "";
    }
  }

  /** A name is stored exactly when it is not all blank, and then without the blanks at its ends and with
      everything between them. */
  lemma StoredNameMeaning(name: string) returns (pre: string, post: string)
    ensures StoredName(Some(name)).None? <==> AllBlank(name)
    ensures StoredName(Some(name)).Some? ==>
              && name == pre + StoredName(Some(name)).value + post
              && AllBlank(pre) && AllBlank(post) && Tight(StoredName(Some(name)).value)
  {
    pre := StartSplits(name);
    post := EndSplits(TrimStart(name));
    if Trim(name) != "" {
      assert Trim(name)[0] == TrimStart(name)[0];
      assert name[|pre|] == Trim(name)[0];
      assert Trim(name)[0] in name;
    } else {
      assert TrimStart(name) == post;
    }
  }

  datatype TokenError = DbError | NotFound | LimitExceeded

  /** Everything a create answers and does, in terms of rows. */
  ghost predicate CreateOutcome(db: Db, after: Db, limit: nat, u: UserId, name: Option<string>, hash: string,
                                r: Result<TokenId, TokenError>)
  {
    var live := set t | t in db.tokens && db.tokens[t].userId == u;
    var refused := u !in db.users || exists t :: t in db.tokens && db.tokens[t].hash == hash;
    && (r == Err(LimitExceeded) <==> |live| >= limit)
    && (r == Err(DbError) <==> |live| < limit && refused)
    && (r.Ok? <==> |live| < limit && !refused)
    && (r.Err? ==> after == db)
    && (r.Ok? ==>
          && r.value !in db.tokens
          && after == db.(tokens := db.tokens[r.value := Token(u, name, hash)], nextToken := after.nextToken))
  }

  lemma TokensAre(db: Db, u: UserId)
    ensures TokensOf(db, u) == set t | t in db.tokens && db.tokens[t].userId == u
  {
  }

  class ApiTokensService {
    const registry: Registry
    const apiTokenLimit: nat
    const hash: string -> string

    constructor (registry: Registry, apiTokenLimit: nat, hash: string -> string)
      ensures this.registry == registry && this.apiTokenLimit == apiTokenLimit && this.hash == hash
    {
      this.registry := registry;
      this.apiTokenLimit := apiTokenLimit;
      this.hash := hash;
    }

    /** The plaintext is answered only once; the table keeps its hash. */
    method Create(u: UserId, name: Option<string>, plaintext: string) returns (r: Result<TokenId, TokenError>)
      requires registry.Valid()
      modifies registry
      ensures registry.Valid()
      ensures CreateOutcome(old(registry.db), registry.db, apiTokenLimit, u, StoredName(name), hash(plaintext), r)
      ensures r.Ok? ==> InsertToken(old(registry.db), u, StoredName(name), hash(plaintext)) == Ok(registry.db)
                        && r.value == old(registry.db.nextToken) && Finds(registry.db, hash, plaintext, Some(u))
    {
      TokensAre(registry.db, u);
      var tokenHash := hash(plaintext);
      var tx := registry.Begin();
      if |TokensOf(tx.db, u)| >= apiTokenLimit {
        return Err(LimitExceeded);
      }
      var created := tx.CreateApiToken(u, StoredName(name), tokenHash);
      if created.Err? {
        return Err(DbError);
      }
      tx.Commit();
      assert Holds(registry.db, created.value, u, tokenHash);
      return Ok(created.value);
    }

    method FindUserIdByPlaintext(plaintext: string) returns (who: Option<UserId>)
      requires registry.Valid()
      modifies registry
      ensures registry.db == old(registry.db) && registry.Valid()
      ensures Finds(registry.db, hash, plaintext, who)
      ensures who.None? <==> forall t :: t in registry.db.tokens ==> registry.db.tokens[t].hash != hash(plaintext)
      ensures who.Some? ==> exists t :: t in registry.db.tokens && registry.db.tokens[t].hash == hash(plaintext)
                                        && registry.db.tokens[t].userId == who.value
    {
      var tx := registry.Begin();
      who := tx.GetApiTokenByHash(hash(plaintext));
      if who.Some? {
        ghost var t :| t in tx.db.tokens && tx.db.tokens[t].hash == hash(plaintext) && tx.db.tokens[t].userId == who.value;
        assert Holds(tx.db, t, who.value, hash(plaintext));
      }
      tx.Commit();
    }

    method Revoke(t: TokenId, u: UserId) returns (r: Result<(), TokenError>)
      requires registry.Valid()
      modifies registry
      ensures registry.Valid()
      ensures (registry.db, r.Ok?) == DeleteToken(old(registry.db), t, u)
      ensures r == if t in old(registry.db.tokens) && old(registry.db.tokens)[t].userId == u then Ok(()) else Err(NotFound)
      ensures registry.db == if r.Ok? then old(registry.db).(tokens := old(registry.db.tokens) - {t}) else old(registry.db)
    {
      var tx := registry.Begin();
      var deleted := tx.DeleteApiTokenForUser(t, u);
      tx.Commit();
      return if deleted then Ok(()) else Err(NotFound);
    }
  }

  /** A lookup has one answer, whatever row order the query uses. */
  lemma FindsIsDetermined(db: Db, hash: string -> string, plaintext: string, a: Option<UserId>, b: Option<UserId>)
    requires TokenKeys(db) && Finds(db, hash, plaintext, a) && Finds(db, hash, plaintext, b)
    ensures a == b
  {
  }

  // ---------- runs with overlapping creates ----------

  /** A create that has checked the limit and has still to insert. */
  datatype Creating = Creating(user: UserId, name: Option<string>, plaintext: string)

  datatype Event =
    | CheckCreate(user: UserId, name: Option<string>, plaintext: string)
    | CommitCreate(index: nat)
    | AbortCreate(index: nat)
    | Revoke(token: TokenId, user: UserId)

  datatype State = State(db: Db, pending: seq<Creating>)

  predicate Enabled(s: State, e: Event) {
    match e
    case CommitCreate(i) => i < |s.pending|
    case AbortCreate(i) => i < |s.pending|
    case _ => true
  }

  function Without(ps: seq<Creating>, i: nat): seq<Creating>
    requires i < |ps|
  {
    ps[..i] + ps[i + 1..]
  }

  function Inserted(db: Db, hash: string -> string, c: Creating): Db {
    match InsertToken(db, c.user, c.name, hash(c.plaintext))
    case Ok(after) => after
    case Err(_) => db
  }

  function Next(limit: nat, hash: string -> string, s: State, e: Event): State
    requires Enabled(s, e)
  {
    match e
    case CheckCreate(u, name, p) =>
      if |TokensOf(s.db, u)| >= limit then s else s.(pending := s.pending + [Creating(u, StoredName(name), p)])
    case CommitCreate(i) => State(Inserted(s.db, hash, s.pending[i]), Without(s.pending, i))
    case AbortCreate(i) => s.(pending := Without(s.pending, i))
    case Revoke(t, u) => s.(db := DeleteToken(s.db, t, u).0)
  }

  ghost predicate IsRun(limit: nat, hash: string -> string, ss: seq<State>, es: seq<Event>) {
    && |ss| == |es| + 1
    && forall i :: 0 <= i < |es| ==> Enabled(ss[i], es[i]) && ss[i + 1] == Next(limit, hash, ss[i], es[i])
  }

  lemma {:induction false} TokenKeysHold(limit: nat, hash: string -> string, ss: seq<State>, es: seq<Event>, n: nat)
    requires IsRun(limit, hash, ss, es) && TokenKeys(ss[0].db) && n <= |es|
    ensures TokenKeys(ss[n].db)
  {
    if n > 0 {
      TokenKeysHold(limit, hash, ss, es, n - 1);
      assert ss[n] == Next(limit, hash, ss[n - 1], es[n - 1]);
    }
  }

  // ---------- lookup refines history ----------

  /** At this event a create for `u` succeeds: it answers `plaintext` and stores token `t`. */
  ghost predicate Creates(hash: string -> string, s: State, e: Event, u: UserId, plaintext: string, t: TokenId) {
    && e.CommitCreate? && e.index < |s.pending|
    && s.pending[e.index].user == u && s.pending[e.index].plaintext == plaintext
    && InsertToken(s.db, u, s.pending[e.index].name, hash(plaintext)).Ok?
    && t == s.db.nextToken
  }

  /** At this event `u` revokes token `t` successfully. */
  ghost predicate Revokes(s: State, e: Event, u: UserId, t: TokenId) {
    e == Revoke(t, u) && DeleteToken(s.db, t, u).1
  }

  ghost predicate LiveSince(hash: string -> string, ss: seq<State>, es: seq<Event>, i: nat, n: nat,
                            u: UserId, plaintext: string, t: TokenId)
    requires i < n <= |es| < |ss|
  {
    && Creates(hash, ss[i], es[i], u, plaintext, t)
    && forall j :: i < j < n ==> !Revokes(ss[j], es[j], u, t)
  }

  ghost predicate Live(hash: string -> string, ss: seq<State>, es: seq<Event>, n: nat, u: UserId, plaintext: string, t: TokenId)
    requires n <= |es| < |ss|
  {
    exists i: nat :: i < n && LiveSince(hash, ss, es, i, n, u, plaintext, t)
  }

  lemma LiveStep(hash: string -> string, ss: seq<State>, es: seq<Event>, n: nat, u: UserId, plaintext: string, t: TokenId)
    requires 0 < n <= |es| < |ss|
    ensures Live(hash, ss, es, n, u, plaintext, t)
            <==> (Live(hash, ss, es, n - 1, u, plaintext, t) && !Revokes(ss[n - 1], es[n - 1], u, t))
                 || Creates(hash, ss[n - 1], es[n - 1], u, plaintext, t)
  {
    if Creates(hash, ss[n - 1], es[n - 1], u, plaintext, t) {
      assert LiveSince(hash, ss, es, n - 1, n, u, plaintext, t);
    }
    if Live(hash, ss, es, n - 1, u, plaintext, t) && !Revokes(ss[n - 1], es[n - 1], u, t) {
      var i: nat :| i < n - 1 && LiveSince(hash, ss, es, i, n - 1, u, plaintext, t);
      assert LiveSince(hash, ss, es, i, n, u, plaintext, t);
    }
    if Live(hash, ss, es, n, u, plaintext, t) {
      var i: nat :| i < n && LiveSince(hash, ss, es, i, n, u, plaintext, t);
      if i < n - 1 {
        assert LiveSince(hash, ss, es, i, n - 1, u, plaintext, t);
      }
    }
  }

  lemma StoredStep(limit: nat, hash: string -> string, s: State, e: Event, u: UserId, plaintext: string, t: TokenId)
    requires Injective(hash) && Enabled(s, e) && TokenKeys(s.db)
    ensures Holds(Next(limit, hash, s, e).db, t, u, hash(plaintext))
            <==> (Holds(s.db, t, u, hash(plaintext)) && !Revokes(s, e, u, t)) || Creates(hash, s, e, u, plaintext, t)
  {
  }

  /** Started empty, the table holds token `t` of `u` for a plaintext exactly when a create for `u` answered
      that plaintext, storing `t`, and `u` has not revoked `t` since. */
  lemma {:induction false} TokenTableRefinesHistory(limit: nat, hash: string -> string, ss: seq<State>, es: seq<Event>, n: nat,
                                                    u: UserId, plaintext: string, t: TokenId)
    requires Injective(hash) && IsRun(limit, hash, ss, es) && ss[0].db.tokens == map[] && n <= |es|
    ensures Holds(ss[n].db, t, u, hash(plaintext)) <==> Live(hash, ss, es, n, u, plaintext, t)
  {
    if n > 0 {
      TokenTableRefinesHistory(limit, hash, ss, es, n - 1, u, plaintext, t);
      TokenKeysHold(limit, hash, ss, es, n - 1);
      StoredStep(limit, hash, ss[n - 1], es[n - 1], u, plaintext, t);
      LiveStep(hash, ss, es, n, u, plaintext, t);
    }
  }

  /** Lookup refines history: a plaintext identifies `u` exactly when a create for `u` answered it and `u`
      has not revoked the resulting token since. */
  lemma LookupRefinesHistory(limit: nat, hash: string -> string, ss: seq<State>, es: seq<Event>, n: nat,
                             u: UserId, plaintext: string)
    requires Injective(hash) && IsRun(limit, hash, ss, es) && ss[0].db.tokens == map[] && n <= |es|
    ensures Finds(ss[n].db, hash, plaintext, Some(u)) <==> exists t :: Live(hash, ss, es, n, u, plaintext, t)
  {
    if t :| t in ss[n].db.tokens && Holds(ss[n].db, t, u, hash(plaintext)) {
      TokenTableRefinesHistory(limit, hash, ss, es, n, u, plaintext, t);
    }
    if t :| Live(hash, ss, es, n, u, plaintext, t) {
      TokenTableRefinesHistory(limit, hash, ss, es, n, u, plaintext, t);
    }
  }

  /** Revoking somebody else's token changes nothing. */
  lemma RevokeOfOthersIsNoOp(limit: nat, hash: string -> string, s: State, t: TokenId, u: UserId)
    requires t in s.db.tokens && s.db.tokens[t].userId != u
    ensures Next(limit, hash, s, Revoke(t, u)) == s
  {
  }

  // ---------- the token limit ----------

  function CreatesOf(u: UserId, ps: seq<Creating>): nat {
    if ps == [] then 0 else (if ps[0].user == u then 1 else 0) + CreatesOf(u, ps[1..])
  }

  lemma {:induction false} CreatesAppend(u: UserId, ps: seq<Creating>, qs: seq<Creating>)
    ensures CreatesOf(u, ps + qs) == CreatesOf(u, ps) + CreatesOf(u, qs)
  {
    if ps == [] {
      assert ps + qs == qs;
    } else {
      CreatesAppend(u, ps[1..], qs);
      assert (ps + qs)[1..] == ps[1..] + qs;
    }
  }

  lemma CreatesEnd(u: UserId, ps: seq<Creating>, i: nat)
    requires i < |ps|
    ensures CreatesOf(u, ps) == CreatesOf(u, Without(ps, i)) + (if ps[i].user == u then 1 else 0)
  {
    assert ps == ps[..i] + ([ps[i]] + ps[i + 1..]);
    CreatesAppend(u, ps[..i], [ps[i]] + ps[i + 1..]);
    CreatesAppend(u, ps[..i], ps[i + 1..]);
    assert ([ps[i]] + ps[i + 1..])[1..] == ps[i + 1..];
  }

  lemma UnionSize(a: set<TokenId>, b: set<TokenId>)
    ensures |a + b| <= |a| + |b|
  {
    assert |a + b| + |a * b| == |a| + |b|;
  }

  lemma InsertCount(db: Db, hash: string -> string, c: Creating, u: UserId)
    requires TokenKeys(db)
    ensures TokensOf(Inserted(db, hash, c), u)
            == TokensOf(db, u) + (if c.user == u && InsertToken(db, u, c.name, hash(c.plaintext)).Ok? then {db.nextToken} else {})
    ensures |TokensOf(Inserted(db, hash, c), u)| <= |TokensOf(db, u)| + (if c.user == u then 1 else 0)
  {
    var added: set<TokenId> := if c.user == u && InsertToken(db, u, c.name, hash(c.plaintext)).Ok? then {db.nextToken} else {};
    forall t ensures t in TokensOf(Inserted(db, hash, c), u) <==> t in TokensOf(db, u) + added {
    }
    UnionSize(TokensOf(db, u), added);
  }

  lemma DeleteCount(db: Db, t: TokenId, v: UserId, u: UserId)
    ensures |TokensOf(DeleteToken(db, t, v).0, u)| <= |TokensOf(db, u)|
  {
    assert TokensOf(DeleteToken(db, t, v).0, u) == TokensOf(db, u) - (if DeleteToken(db, t, v).1 then {t} else {});
  }

  /** With at most `m` creates of a user in flight, live tokens plus creates in flight never exceed
      `limit + m - 1`; with one at a time, never the limit. */
  lemma {:induction false} TokenLimitUnderOverlap(limit: nat, hash: string -> string, ss: seq<State>, es: seq<Event>, n: nat,
                                                  u: UserId, m: nat)
    requires IsRun(limit, hash, ss, es) && TokenKeys(ss[0].db) && n <= |es|
    requires m >= 1 && ss[0].pending == [] && |TokensOf(ss[0].db, u)| <= limit
    requires forall i :: 0 <= i < |ss| ==> CreatesOf(u, ss[i].pending) <= m
    ensures |TokensOf(ss[n].db, u)| + CreatesOf(u, ss[n].pending) <= limit + m - 1
  {
    if n > 0 {
      TokenLimitUnderOverlap(limit, hash, ss, es, n - 1, u, m);
      TokenKeysHold(limit, hash, ss, es, n - 1);
      var s, e := ss[n - 1], es[n - 1];
      assert ss[n] == Next(limit, hash, s, e);
      match e
      case CheckCreate(v, name, p) => CreatesAppend(u, s.pending, [Creating(v, StoredName(name), p)]);
      case CommitCreate(i) =>
        CreatesEnd(u, s.pending, i);
        InsertCount(s.db, hash, s.pending[i], u);
      case AbortCreate(i) => CreatesEnd(u, s.pending, i);
      case Revoke(t, v) => DeleteCount(s.db, t, v, u);
    }
  }
}
