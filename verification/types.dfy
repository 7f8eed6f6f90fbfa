/** The values the leasing service stores and passes around (src/db/models.rs). */
module Types {
  type UserId = int
  type HostId = int
  type GroupId = int
  type TokenId = int

  /** An instant or a duration, in microseconds: the resolution of a `timestamptz` column. */
  type Time = int

  function Minutes(n: int): Time { n * 60_000_000 }

  function Hours(n: int): Time { n * 3_600_000_000 }

  /** How far ahead the timer and the extend button look. */
  const EXPIRATION_NOTIFY_WINDOW: Time := Minutes(30)

  datatype Option<+T> = None | Some(value: T)

  datatype Result<+T, +E> = Ok(value: T) | Err(error: E)

  /** A row of `hosts`; the columns that only feed messages and sort orders are dropped. */
  datatype Host = Host(group: GroupId, userId: Option<UserId>, leasedUntil: Option<Time>)

  /** A row of `hosts JOIN users`: here the expiry is not optional. */
  datatype LeasedHost = LeasedHost(id: HostId, leasedUntil: Time, user: UserId)

  datatype User = User(tgHandle: Option<string>)

  datatype Token = Token(userId: UserId, name: Option<string>, hash: string)

  /** `Panicked` stands for an `unwrap` that fails: the task dies and its transaction is dropped. */
  datatype HostError =
    | DatabaseError
    | ThereIsNoFreeHosts
    | AlreadyLeased(hosts: set<HostId>)
    | LeaseLimitReached
    | Panicked

  function SetOf<T(==)>(s: seq<T>): set<T> { set x | x in s }

  /** `s` lists the elements of `xs`, each once, in some order. */
  ghost predicate Lists<T(!new)>(s: seq<T>, xs: set<T>) {
    && (forall x :: x in s <==> x in xs)
    && (forall i, j :: 0 <= i < j < |s| ==> s[i] != s[j])
  }

  lemma EmptyOrInhabited(s: set<int>)
    ensures s == {} || exists x :: x in s
  {
    if exists x :: x in s {
    } else {
      assert s == {};
    }
  }

  lemma DisjointMeaning(a: set<int>, b: set<int>)
    ensures a * b == {} <==> forall x :: x in a ==> x !in b
  {
    EmptyOrInhabited(a * b);
    assert forall x :: x in a * b <==> x in a && x in b;
  }

  lemma NothingLeft(a: set<int>, b: set<int>)
    ensures a - b == {} <==> a <= b
  {
    EmptyOrInhabited(a - b);
    assert forall x :: x in a - b <==> x in a && x !in b;
  }

  lemma {:induction false} ListsCount(s: seq<int>, xs: set<int>)
    requires Lists(s, xs)
    ensures |s| == |xs|
  {
    if s == [] {
      EmptyOrInhabited(xs);
    } else {
      var rest := s[1..];
      assert s == [s[0]] + rest;
      assert s[0] in s;
      assert s[0] !in rest;
      ListsCount(rest, xs - {s[0]});
    }
  }
}
