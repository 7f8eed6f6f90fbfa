/** The timer's record of announced expirations (`sent_hosts_notification`), as a value. */
module Announcements {
  import opened Types
  import opened Tables

  type Record = map<UserId, set<HostId>>

  function Sent(r: Record, u: UserId): set<HostId> {
    if u in r then r[u] else {}
  }

  /** The rows a release pass reads at `now`: the expired hosts, each with its owner. */
  function Expired(hosts: Hosts, now: Time): map<HostId, UserId> {
    map h | h in ExpiringBefore(hosts, now) :: hosts[h].userId.value
  }

  /** A pass forgets the hosts it found, each under the owner it was read with. */
  function Forget(r: Record, found: map<HostId, UserId>): Record {
    map u | u in r :: set h | h in r[u] && !(h in found && found[h] == u)
  }

  function AfterRelease(r: Record, hosts: Hosts, now: Time): Record {
    Forget(r, Expired(hosts, now))
  }

  lemma AfterReleaseForgets(r: Record, hosts: Hosts, now: Time, u: UserId)
    ensures u in r ==> AfterRelease(r, hosts, now)[u] == r[u] - ExpiringOf(hosts, u, now)
  {
  }

  /** The "expiring soon" messages a scan attempts: per owner, what the record does not hold yet. */
  function Messages(r: Record, hosts: Hosts, until: Time): map<UserId, set<HostId>> {
    map u | u in ExpiringOwners(hosts, until) && ExpiringOf(hosts, u, until) - Sent(r, u) != {} ::
      ExpiringOf(hosts, u, until) - Sent(r, u)
  }

  /** The users whose entry survives the clean-up. */
  function Kept(r: Record, all: set<HostId>): set<UserId> {
    set u | u in r && r[u] * all != {}
  }

  /** The record after a scan, in closed form: the clean-up compares with everybody's expiring hosts,
      and a delivered message adds all the expiring hosts of its user. */
  function AfterScan(r: Record, hosts: Hosts, until: Time, delivered: set<UserId>): Record {
    map u | u in Kept(r, ExpiringBefore(hosts, until)) + ExpiringOwners(hosts, until) ::
      Sent(r, u) * ExpiringBefore(hosts, until) + (if u in delivered then ExpiringOf(hosts, u, until) else {})
  }

  lemma OwnersHaveExpiring(hosts: Hosts, until: Time, u: UserId)
    ensures u in ExpiringOwners(hosts, until) <==> exists h :: h in ExpiringOf(hosts, u, until)
    ensures u in ExpiringOwners(hosts, until) <==> ExpiringOf(hosts, u, until) != {}
  {
    EmptyOrInhabited(ExpiringOf(hosts, u, until));
    if h :| h in ExpiringOf(hosts, u, until) {
      assert hosts[h].userId.value in ExpiringOwners(hosts, until);
    }
    if u in ExpiringOwners(hosts, until) {
      var h :| h in ExpiringBefore(hosts, until) && hosts[h].userId.value == u;
      assert h in ExpiringOf(hosts, u, until);
    }
  }

  lemma SentAfterScan(r: Record, hosts: Hosts, until: Time, delivered: set<UserId>, u: UserId)
    ensures Sent(AfterScan(r, hosts, until, delivered), u)
            == Sent(r, u) * ExpiringBefore(hosts, until)
               + (if u in delivered then ExpiringOf(hosts, u, until) else {})
  {
    OwnersHaveExpiring(hosts, until, u);
  }

  lemma MessageTo(r: Record, hosts: Hosts, until: Time, u: UserId, h: HostId)
    ensures u in Messages(r, hosts, until) && h in Messages(r, hosts, until)[u]
            <==> h in ExpiringOf(hosts, u, until) && h !in Sent(r, u)
  {
    if h in ExpiringOf(hosts, u, until) && h !in Sent(r, u) {
      OwnersHaveExpiring(hosts, until, u);
      assert h in ExpiringOf(hosts, u, until) - Sent(r, u);
    }
  }
}
