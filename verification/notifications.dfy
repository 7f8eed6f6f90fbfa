/** `Notifier::notify` up to the transport: whether a message goes out, fails, or panics. */
module Notifications {
  import opened Types
  import opened Tables
  import opened Announcements

  /** What the messaging side does for a user: no sender (no linked chat), a send that fails, a delivery. */
  datatype Channel = NoSender | SendFails | Delivers

  datatype Outcome = Delivered | Failed | Panic

  /** Some host of `ids` is still a row but has lost its expiry. */
  predicate LostExpiry(hosts: Hosts, ids: set<HostId>) {
    exists h :: h in ids && h in hosts && hosts[h].leasedUntil.None?
  }

  /** `notify` with an `ExpirationSoon` notification. It re-reads the hosts in its own transaction and
      unwraps their expiry while it builds the text. */
  function NotifyExpiring(db: Db, u: UserId, ids: set<HostId>, channel: Channel): Outcome {
    if u !in db.users then Failed
    else if channel == NoSender then Failed
    else if ids == {} then Delivered
    else if LostExpiry(db.hosts, ids) then Panic
    else if channel == SendFails then Failed
    else Delivered
  }

  /** Run on the tables the scan read, no announcement panics, and a message counts as sent
      exactly when the channel of its user delivers. */
  lemma NoPanicOnScannedTables(db: Db, r: Record, until: Time, u: UserId, channel: Channel)
    requires ForeignKeys(db)
    requires u in Messages(r, db.hosts, until)
    ensures NotifyExpiring(db, u, Messages(r, db.hosts, until)[u], channel) != Panic
    ensures NotifyExpiring(db, u, Messages(r, db.hosts, until)[u], channel) == Delivered <==> channel == Delivers
  {
    var ids := Messages(r, db.hosts, until)[u];
    assert ids <= ExpiringOf(db.hosts, u, until);
    OwnersHaveExpiring(db.hosts, until, u);
  }

  /** On whatever consistent tables the message finds: it panics exactly when some host it names is in the
      pool, for a known user with a sender, whether or not that sender would have delivered. */
  lemma PanicsIff(later: Db, u: UserId, ids: set<HostId>, channel: Channel)
    requires Consistent(later)
    ensures NotifyExpiring(later, u, ids, channel) == Panic
            <==> && u in later.users && channel != NoSender
                 && exists h :: h in ids && h in later.hosts && later.hosts[h].userId == None
    ensures NotifyExpiring(later, u, ids, channel) == Delivered
            <==> && u in later.users && channel != NoSender
                 && (ids == {} || (channel == Delivers && forall h :: h in ids && h in later.hosts ==> later.hosts[h].userId.Some?))
  {
    if h :| h in ids && h in later.hosts && later.hosts[h].userId == None {
      assert later.hosts[h].leasedUntil.None?;
    }
  }
}
