/** The timer's record, and the messages it leads to, when the passes and everything else overlap. */
module OverlapRecords {
  import opened Types
  import opened Tables
  import opened Announcements
  import opened Notifications
  import opened Overlap
  import opened OverlapRows
  import opened OverlapCauses
  import History

  // ---------- what the record means ----------

  function ActOf(s: State, e: Overlap.Stamped): History.Act
    requires Enabled(s, e)
  {
    match e.event
    case Commit(i) => if s.pending[i].Releasing? then History.Pass(s.pending[i].found) else History.Nothing
    case Scan(delivered) => History.Scan(s.db.hosts, e.time + EXPIRATION_NOTIFY_WINDOW, delivered)
    case _ => History.Nothing
  }

  function Acts(ss: seq<State>, es: seq<Overlap.Stamped>): seq<History.Act>
    requires |ss| == |es| + 1 && forall k :: 0 <= k < |es| ==> Enabled(ss[k], es[k])
  {
    seq(|es|, k requires 0 <= k < |es| => ActOf(ss[k], es[k]))
  }

  /** Under overlap a pass makes the timer forget `h` for `u` when it commits, exactly when it had read `h` as
      an expired host of `u`: what the table says at the commit plays no part. */
  lemma ForgetsWhatWasRead(default: nat, ss: seq<State>, es: seq<Overlap.Stamped>, k: nat, p: Pending, u: UserId, h: HostId)
    requires IsRun(default, ss, es) && ss[0].pending == [] && k < |es|
    requires p.Releasing? && Commits(ss[k], es[k], p)
    ensures History.Forgets(ActOf(ss[k], es[k]), u, h)
            <==> exists i: nat :: i < k && Reads(default, ss[i], es[i], p) && h in ExpiringOf(ss[i].db.hosts, u, es[i].time)
  {
    var i := CommitWasRead(default, ss, es, k, p);
  }

  /** This event is a scan whose message to `u` is delivered, and `h`, about to expire for `u`, was not recorded. */
  ghost predicate Announces(s: State, e: Overlap.Stamped, r: Record, u: UserId, h: HostId) {
    && e.event.Scan? && u in e.event.delivered
    && h in ExpiringOf(s.db.hosts, u, e.time + EXPIRATION_NOTIFY_WINDOW) && h !in Sent(r, u)
  }

  /** Step `k` is a clean-up at which `h` is in nobody's window, or commits a pass that had read `h` as an expired
      host of `u`. */
  ghost predicate Forgets(default: nat, ss: seq<State>, es: seq<Overlap.Stamped>, k: nat, u: UserId, h: HostId)
    requires k < |es| < |ss|
  {
    || (es[k].event.Scan? && h !in ExpiringBefore(ss[k].db.hosts, es[k].time + EXPIRATION_NOTIFY_WINDOW))
    || exists i: nat, p: Pending :: i < k && p.Releasing? && Reads(default, ss[i], es[i], p) && Commits(ss[k], es[k], p)
         && h in ExpiringOf(ss[i].db.hosts, u, es[i].time)
  }

  /** Announced to `u` at step `i`, and not forgotten up to `n`. */
  ghost predicate AnnouncedSince(default: nat, ss: seq<State>, es: seq<Overlap.Stamped>, rs: seq<Record>, i: nat, n: nat,
                                 u: UserId, h: HostId)
    requires i < n <= |es| < |ss| && |rs| == |ss|
  {
    && Announces(ss[i], es[i], rs[i], u, h)
    && forall j :: i < j < n ==> !Forgets(default, ss, es, j, u, h)
  }

  lemma AnnouncesMeans(s: State, e: Overlap.Stamped, r: Record, u: UserId, h: HostId)
    requires Enabled(s, e)
    ensures History.Announces(r, ActOf(s, e), u, h) <==> Announces(s, e, r, u, h)
  {
    MessageTo(r, s.db.hosts, e.time + EXPIRATION_NOTIFY_WINDOW, u, h);
  }

  lemma ForgetsMeans(default: nat, ss: seq<State>, es: seq<Overlap.Stamped>, k: nat, u: UserId, h: HostId)
    requires IsRun(default, ss, es) && ss[0].pending == [] && k < |es|
    ensures History.Forgets(ActOf(ss[k], es[k]), u, h) <==> Forgets(default, ss, es, k, u, h)
  {
    if es[k].event.Commit? && ss[k].pending[es[k].event.index].Releasing? {
      ForgetsWhatWasRead(default, ss, es, k, ss[k].pending[es[k].event.index], u, h);
    }
  }

  lemma StandsMeans(default: nat, ss: seq<State>, es: seq<Overlap.Stamped>, rs: seq<Record>, i: nat, n: nat, u: UserId, h: HostId)
    requires IsRun(default, ss, es) && ss[0].pending == [] && i < n <= |es| && |rs| == |ss|
    ensures History.StandsSince(rs, Acts(ss, es), i, n, u, h) <==> AnnouncedSince(default, ss, es, rs, i, n, u, h)
  {
    AnnouncesMeans(ss[i], es[i], rs[i], u, h);
    forall j | i < j < n ensures History.Forgets(Acts(ss, es)[j], u, h) <==> Forgets(default, ss, es, j, u, h) {
      ForgetsMeans(default, ss, es, j, u, h);
    }
  }

  /** The record refines history under overlap too: it holds `h` for `u` exactly when some delivered message to `u`
      named `h`, and since then no clean-up found it in nobody's window and no pass committed that had read
      it as an expired host of `u`. */
  lemma OverlapRecord(default: nat, ss: seq<State>, es: seq<Overlap.Stamped>, rs: seq<Record>, n: nat, u: UserId, h: HostId)
    requires IsRun(default, ss, es) && ss[0].pending == [] && n <= |es|
    requires History.Evolves(rs, Acts(ss, es)) && rs[0] == map[]
    ensures h in Sent(rs[n], u)
            <==> exists i: nat :: i < n && AnnouncedSince(default, ss, es, rs, i, n, u, h)
  {
    History.RecordRefinesHistory(rs, Acts(ss, es), n, u, h);
    forall i: nat | i < n
      ensures History.StandsSince(rs, Acts(ss, es), i, n, u, h) <==> AnnouncedSince(default, ss, es, rs, i, n, u, h)
    {
      StandsMeans(default, ss, es, rs, i, n, u, h);
    }
  }

  /** A pass can free a host from `v` and leave it in the record of `v`, so that a new lease of `v` may go without
      an announcement: exactly when the record held it, and a lease of `v` took it from the owner it was read
      with before the pass committed. */
  lemma FreedButRemembered(default: nat, ss: seq<State>, es: seq<Overlap.Stamped>, k: nat, p: Pending, r: Record, v: UserId, h: HostId)
    requires IsRun(default, ss, es) && Consistent(ss[0].db) && ss[0].pending == [] && k < |es|
    requires p.Releasing? && Commits(ss[k], es[k], p) && h in p.found && Owner(ss[k], h) == Some(v)
    ensures Owner(ss[k + 1], h) == None
    ensures h in Sent(History.After(r, ActOf(ss[k], es[k])), v) <==>
              && h in Sent(r, v) && p.found[h] != v
              && exists i: nat, j: nat :: i < j < k && Reads(default, ss[i], es[i], p) && TakenSince(ss, es, j, k, v, h)
  {
    var i := CommitWasRead(default, ss, es, k, p);
    OverlapKeepsTablesConsistent(default, ss, es, i);
    RunRow(default, ss, es, k, h);
    assert Owner(ss[i], h) == Some(p.found[h]);
    HeldIff(default, ss, es, i, k, v, h);
    if p.found[h] != v {
      var j: nat :| i <= j < k && TakenSince(ss, es, j, k, v, h);
      assert j != i;
    }
  }

  // ---------- the message of a scan on the tables it finds ----------

  lemma {:induction false} UsersStay(default: nat, ss: seq<State>, es: seq<Overlap.Stamped>, i: nat, n: nat)
    requires IsRun(default, ss, es) && i <= n <= |es|
    ensures ss[i].db.users.Keys <= ss[n].db.users.Keys
    decreases n
  {
    if i < n {
      UsersStay(default, ss, es, i, n - 1);
      assert Enabled(ss[n - 1], es[n - 1]) && ss[n] == Next(default, ss[n - 1], es[n - 1]);
    }
  }

  /** Whatever commits between the scan at step `i` and its message to `u`, which finds the tables of step `n`: it
      panics exactly when the user has a sender and some host it names has been freed since the scan, by a stale
      pass or otherwise, and not leased again. */
  lemma MessagePanicsIff(default: nat, ss: seq<State>, es: seq<Overlap.Stamped>, r: Record, i: nat, n: nat, u: UserId, channel: Channel)
    requires IsRun(default, ss, es) && Consistent(ss[0].db) && i <= n <= |es| && i < |es|
    requires u in Messages(r, ss[i].db.hosts, es[i].time + EXPIRATION_NOTIFY_WINDOW)
    ensures var ids := Messages(r, ss[i].db.hosts, es[i].time + EXPIRATION_NOTIFY_WINDOW)[u];
            NotifyExpiring(ss[n].db, u, ids, channel) == Panic
            <==> channel != NoSender && exists h :: h in ids && FreedWithin(ss, es, i, n, h)
  {
    var until := es[i].time + EXPIRATION_NOTIFY_WINDOW;
    var ids := Messages(r, ss[i].db.hosts, until)[u];
    OverlapKeepsTablesConsistent(default, ss, es, i);
    OverlapKeepsTablesConsistent(default, ss, es, n);
    UsersStay(default, ss, es, i, n);
    PanicsIff(ss[n].db, u, ids, channel);
    OwnersHaveExpiring(ss[i].db.hosts, until, u);
    forall h | h in ids ensures h in Available(ss[n].db.hosts) <==> FreedWithin(ss, es, i, n, h) {
      assert h in ExpiringOf(ss[i].db.hosts, u, until);
      InPoolIff(default, ss, es, i, n, h);
    }
  }
}
