/** `get_lease_limit`: the largest limit among the AD groups of the user that have one. */
module LeaseLimits {
  import opened Types

  /** `Iterator::max` over the rows. */
  function MaxOf(rows: seq<int>): (m: Option<int>)
    ensures m.None? <==> rows == []
    ensures m.Some? ==> m.value in rows && forall x :: x in rows ==> x <= m.value
  {
    if rows == [] then None
    else
      assert rows == [rows[0]] + rows[1..];
      match MaxOf(rows[1..])
      case None => Some(rows[0])
      case Some(m) => Some(if rows[0] > m then rows[0] else m)
  }

  /** Each row is converted with `try_into().unwrap()`, so one negative limit panics. */
  function LimitFromRows(rows: seq<int>, default: nat): Result<nat, HostError> {
    if exists x :: x in rows && x < 0 then Err(Panicked)
    else
      match MaxOf(rows)
      case None => Ok(default)
      case Some(m) => Ok(m)
  }

  /** The rows that `WHERE lg.group = ANY(groups)` selects, one per mention of the group. */
  function RowsFor(limits: map<string, int>, groups: seq<string>): (rows: seq<int>)
    ensures forall x :: x in rows <==> exists g :: g in groups && g in limits && limits[g] == x
    ensures rows == [] <==> forall g :: g in groups ==> g !in limits
  {
    if groups == [] then []
    else
      var rest := RowsFor(limits, groups[1..]);
      assert groups == [groups[0]] + groups[1..];
      if groups[0] in limits then [limits[groups[0]]] + rest else rest
  }

  function LeaseLimit(limits: map<string, int>, groups: seq<string>, default: nat): Result<nat, HostError> {
    LimitFromRows(RowsFor(limits, groups), default)
  }

  /** The order of the rows and repetitions among them do not matter. */
  lemma RowOrderIrrelevant(rows: seq<int>, others: seq<int>, default: nat)
    requires forall x :: x in rows <==> x in others
    ensures LimitFromRows(rows, default) == LimitFromRows(others, default)
  {
    if |rows| > 0 {
      var x := rows[0];
      assert x in rows;
      assert x in others;
    }
    if |others| > 0 {
      var x := others[0];
      assert x in others;
      assert x in rows;
    }
  }

  /** Whatever order the database returns the selected rows in, each group's row once, the service
      computes the same limit; so the order and repetition of the user's groups do not matter either. */
  lemma LimitFromAnyListing(limits: map<string, int>, groups: seq<string>, listing: seq<string>, default: nat)
    requires Lists(listing, SetOf(groups) * limits.Keys)
    ensures LimitFromRows(RowsFor(limits, listing), default) == LeaseLimit(limits, groups, default)
  {
    forall x ensures x in RowsFor(limits, listing) <==> x in RowsFor(limits, groups) {
      assert forall g :: g in listing <==> g in groups && g in limits;
    }
    RowOrderIrrelevant(RowsFor(limits, listing), RowsFor(limits, groups), default);
  }

  lemma LimitIsOkOrPanic(limits: map<string, int>, groups: seq<string>, default: nat)
    ensures LeaseLimit(limits, groups, default).Err? ==> LeaseLimit(limits, groups, default) == Err(Panicked)
  {
  }

  /** What the limit is: a panic exactly when a matching row is negative; the default exactly when no
      row matches; otherwise the least bound of the matching rows, even when the default is larger. */
  lemma LimitMeaning(limits: map<string, int>, groups: seq<string>, default: nat, n: nat)
    ensures LeaseLimit(limits, groups, default) == Err(Panicked)
            <==> exists g :: g in groups && g in limits && limits[g] < 0
    ensures LeaseLimit(limits, groups, default) == Ok(n) <==>
            && (forall g :: g in groups && g in limits ==> 0 <= limits[g] <= n)
            && if exists g :: g in groups && g in limits
               then exists g :: g in groups && g in limits && limits[g] == n
               else n == default
  {
    var rows := RowsFor(limits, groups);
    assert forall g :: g in groups && g in limits ==> limits[g] in rows;
  }
}
