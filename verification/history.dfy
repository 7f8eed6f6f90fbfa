/** What the timer's record says about everything the timer did. The record depends only on what passes and
    scans read, so these theorems hold however other transactions fall between or into them. */
module History {
  import opened Types
  import opened Tables
  import opened Announcements

  /** What the timer did at a step: a release pass committed, having read the expired hosts with these
      owners; a scan read these tables and reached these users; or nothing. */
  datatype Act =
    | Pass(found: map<HostId, UserId>)
    | Scan(hosts: Hosts, until: Time, delivered: set<UserId>)
    | Nothing

  function After(r: Record, a: Act): Record {
    match a
    case Pass(found) => Forget(r, found)
    case Scan(hosts, until, delivered) => AfterScan(r, hosts, until, delivered)
    case Nothing => r
  }

  /** `rs` are the records before, between and after the acts. */
  ghost predicate Evolves(rs: seq<Record>, acts: seq<Act>) {
    && |rs| == |acts| + 1
    && forall i :: 0 <= i < |acts| ==> rs[i + 1] == After(rs[i], acts[i])
  }

  /** This act is a scan that finds `h` about to expire for `u`. */
  ghost predicate FindsExpiring(a: Act, u: UserId, h: HostId) {
    a.Scan? && h in ExpiringOf(a.hosts, u, a.until)
  }

  /** This act is a scan whose message to `u` is delivered and names `h`. */
  ghost predicate Announces(r: Record, a: Act, u: UserId, h: HostId) {
    && a.Scan? && u in a.delivered
    && u in Messages(r, a.hosts, a.until) && h in Messages(r, a.hosts, a.until)[u]
  }

  /** This act is a clean-up at which `h` is in nobody's window, or a pass that released it from `u`. */
  ghost predicate Forgets(a: Act, u: UserId, h: HostId) {
    || (a.Scan? && h !in ExpiringBefore(a.hosts, a.until))
    || (a.Pass? && h in a.found && a.found[h] == u)
  }

  lemma RecordStep(r: Record, a: Act, u: UserId, h: HostId)
    ensures h in Sent(After(r, a), u) <==> (h in Sent(r, u) && !Forgets(a, u, h)) || Announces(r, a, u, h)
    ensures Announces(r, a, u, h) ==> h !in Sent(r, u) && !Forgets(a, u, h)
  {
    match a
    case Scan(hosts, until, delivered) =>
      SentAfterScan(r, hosts, until, delivered, u);
      MessageTo(r, hosts, until, u, h);
    case _ =>
  }

  /** Announced at step `i`, and not forgotten in the steps after it up to `n`. */
  ghost predicate StandsSince(rs: seq<Record>, acts: seq<Act>, i: nat, n: nat, u: UserId, h: HostId)
    requires i < n <= |acts| < |rs|
  {
    && Announces(rs[i], acts[i], u, h)
    && forall j :: i < j < n ==> !Forgets(acts[j], u, h)
  }

  ghost predicate Standing(rs: seq<Record>, acts: seq<Act>, n: nat, u: UserId, h: HostId)
    requires n <= |acts| < |rs|
  {
    exists i: nat :: i < n && StandsSince(rs, acts, i, n, u, h)
  }

  lemma StandingStep(rs: seq<Record>, acts: seq<Act>, n: nat, u: UserId, h: HostId)
    requires 0 < n <= |acts| < |rs|
    ensures Standing(rs, acts, n, u, h)
            <==> (Standing(rs, acts, n - 1, u, h) && !Forgets(acts[n - 1], u, h))
                 || Announces(rs[n - 1], acts[n - 1], u, h)
  {
    if Announces(rs[n - 1], acts[n - 1], u, h) {
      assert StandsSince(rs, acts, n - 1, n, u, h);
    }
    if Standing(rs, acts, n - 1, u, h) && !Forgets(acts[n - 1], u, h) {
      var i: nat :| i < n - 1 && StandsSince(rs, acts, i, n - 1, u, h);
      assert StandsSince(rs, acts, i, n, u, h);
    }
    if Standing(rs, acts, n, u, h) {
      var i: nat :| i < n && StandsSince(rs, acts, i, n, u, h);
      if i < n - 1 {
        assert StandsSince(rs, acts, i, n - 1, u, h);
      }
    }
  }

  /** The record refines history: started empty, it holds `h` for `u` exactly when some delivered message
      to `u` named `h` and nothing since made the timer forget it. */
  lemma {:induction false} RecordRefinesHistory(rs: seq<Record>, acts: seq<Act>, n: nat, u: UserId, h: HostId)
    requires Evolves(rs, acts) && rs[0] == map[] && n <= |acts|
    ensures h in Sent(rs[n], u) <==> Standing(rs, acts, n, u, h)
  {
    if n > 0 {
      RecordRefinesHistory(rs, acts, n - 1, u, h);
      RecordStep(rs[n - 1], acts[n - 1], u, h);
      StandingStep(rs, acts, n, u, h);
    }
  }

  /** What the record holds stays there until it is forgotten. */
  lemma {:induction false} RecordPersists(rs: seq<Record>, acts: seq<Act>, a: nat, b: nat, u: UserId, h: HostId)
    requires Evolves(rs, acts) && a <= b <= |acts|
    requires h in Sent(rs[a], u)
    requires forall j :: a <= j < b ==> !Forgets(acts[j], u, h)
    ensures h in Sent(rs[b], u)
    decreases b
  {
    if a < b {
      RecordPersists(rs, acts, a, b - 1, u, h);
      RecordStep(rs[b - 1], acts[b - 1], u, h);
    }
  }

  /** No repeated announcement: between two delivered messages to the same user that name the same host
      the timer forgot it, because a clean-up found it in nobody's window or a pass released it from that user. */
  lemma NoRepeatedAnnouncement(rs: seq<Record>, acts: seq<Act>, i: nat, k: nat, u: UserId, h: HostId)
    requires Evolves(rs, acts) && i < k < |acts|
    requires Announces(rs[i], acts[i], u, h) && Announces(rs[k], acts[k], u, h)
    ensures exists j :: i < j < k && Forgets(acts[j], u, h)
  {
    if forall j :: i < j < k ==> !Forgets(acts[j], u, h) {
      RecordStep(rs[i], acts[i], u, h);
      RecordStep(rs[k], acts[k], u, h);
      RecordPersists(rs, acts, i + 1, k, u, h);
    }
  }

  /** No lost announcement: after a scan, every expiring host of a user whose channel delivers is in that
      user's record, by then announced. */
  lemma NoLostAnnouncement(rs: seq<Record>, acts: seq<Act>, k: nat, u: UserId, h: HostId)
    requires Evolves(rs, acts) && rs[0] == map[] && k < |acts|
    requires FindsExpiring(acts[k], u, h) && u in acts[k].delivered
    ensures h in Sent(rs[k + 1], u)
    ensures Standing(rs, acts, k + 1, u, h)
  {
    SentAfterScan(rs[k], acts[k].hosts, acts[k].until, acts[k].delivered, u);
    RecordRefinesHistory(rs, acts, k + 1, u, h);
  }

  /** A failed send loses nothing: what it would have announced is in the next scan's message again,
      as long as it is still expiring for that user. */
  lemma FailedSendIsRetried(rs: seq<Record>, acts: seq<Act>, i: nat, k: nat, u: UserId, h: HostId)
    requires Evolves(rs, acts) && i < k < |acts|
    requires FindsExpiring(acts[i], u, h) && u !in acts[i].delivered && h !in Sent(rs[i], u)
    requires FindsExpiring(acts[k], u, h) && forall j :: i < j < k ==> !acts[j].Scan?
    ensures var messages := Messages(rs[k], acts[k].hosts, acts[k].until);
            u in messages && h in messages[u]
  {
    RecordStep(rs[i], acts[i], u, h);
    StaysUnannounced(rs, acts, i + 1, k, u, h);
    MessageTo(rs[k], acts[k].hosts, acts[k].until, u, h);
  }

  lemma {:induction false} StaysUnannounced(rs: seq<Record>, acts: seq<Act>, a: nat, b: nat, u: UserId, h: HostId)
    requires Evolves(rs, acts) && a <= b <= |acts|
    requires h !in Sent(rs[a], u)
    requires forall j :: a <= j < b ==> !Announces(rs[j], acts[j], u, h)
    ensures h !in Sent(rs[b], u)
    decreases b
  {
    if a < b {
      StaysUnannounced(rs, acts, a, b - 1, u, h);
      RecordStep(rs[b - 1], acts[b - 1], u, h);
    }
  }

  /** The host is in the user's window at every scan of the stretch, and no pass releases it from the user. */
  ghost predicate ExpiringThroughout(acts: seq<Act>, a: nat, b: nat, u: UserId, h: HostId)
    requires a <= b <= |acts|
  {
    forall j :: a <= j < b ==>
      && (acts[j].Scan? ==> FindsExpiring(acts[j], u, h))
      && !(acts[j].Pass? && h in acts[j].found && acts[j].found[h] == u)
  }

  /** Exactly once per stay in the window: while a host not yet in the record stays expiring for its
      user, it is announced at the first scan whose message reaches the user, and at no other. */
  lemma AnnouncedExactlyOnce(rs: seq<Record>, acts: seq<Act>, a: nat, b: nat, k: nat, u: UserId, h: HostId)
    requires Evolves(rs, acts) && a <= k < b <= |acts|
    requires h !in Sent(rs[a], u)
    requires ExpiringThroughout(acts, a, b, u, h)
    ensures Announces(rs[k], acts[k], u, h)
            <==> && acts[k].Scan? && u in acts[k].delivered
                 && forall j :: a <= j < k && acts[j].Scan? ==> u !in acts[j].delivered
  {
    forall j | a <= j < b ensures !Forgets(acts[j], u, h) {}
    if acts[k].Scan? && u in acts[k].delivered {
      MessageTo(rs[k], acts[k].hosts, acts[k].until, u, h);
      if j :| a <= j < k && acts[j].Scan? && u in acts[j].delivered {
        SentAfterScan(rs[j], acts[j].hosts, acts[j].until, acts[j].delivered, u);
        RecordPersists(rs, acts, j + 1, k, u, h);
      } else {
        StaysUnannounced(rs, acts, a, k, u, h);
      }
    }
  }

  /** A clean-up that finds a host outside every window erases it from every user's record. */
  lemma CleanUpErasesEverywhere(r: Record, a: Act, h: HostId, u: UserId)
    requires a.Scan? && h !in ExpiringBefore(a.hosts, a.until)
    ensures h !in Sent(After(r, a), u)
  {
    RecordStep(r, a, u, h);
    MessageTo(r, a.hosts, a.until, u, h);
  }

  /** When does a host announced to `u` once, and in `u`'s window again at a later scan that reaches `u`,
      get announced to `u` again by then? Exactly when the timer forgot it in between. So an extension
      re-arms the alarm exactly if some clean-up (or a release from `u`) fell into the time it bought. */
  lemma AlarmReArmed(rs: seq<Record>, acts: seq<Act>, i: nat, k: nat, u: UserId, h: HostId)
    requires Evolves(rs, acts) && rs[0] == map[] && i < k < |acts|
    requires Announces(rs[i], acts[i], u, h)
    requires FindsExpiring(acts[k], u, h) && u in acts[k].delivered
    ensures (exists j: nat :: i < j <= k && Announces(rs[j], acts[j], u, h))
            <==> exists j :: i < j < k && Forgets(acts[j], u, h)
  {
    if j :| i < j < k && Forgets(acts[j], u, h) {
      NoLostAnnouncement(rs, acts, k, u, h);
      var at: nat :| at < k + 1 && StandsSince(rs, acts, at, k + 1, u, h);
      RecordStep(rs[j], acts[j], u, h);
      assert at >= j;
    }
    if j: nat :| i < j <= k && Announces(rs[j], acts[j], u, h) {
      NoRepeatedAnnouncement(rs, acts, i, j, u, h);
    }
  }
}
