# Host leasing, verified

Tachikoma lends development hosts. One table of hosts is shared by three kinds of actor: requests from the
web, the JSON API and MCP (lease, random lease, free, free all), the "extend" button under a Telegram message,
and a background timer that releases expired hosts and announces the ones about to expire. This project models
that core, and the API-token store beside it, and proves what they keep.

## How the model is built

- `types.dfy`, `durations.dfy`, `limits.dfy`: ids, instants (microseconds), accepted lease lengths, the limit an
  AD-group list gives.
- `tables.dfy`: the tables as a value, one function per SQL statement and query, and how they combine.
- `transactions.dfy`: what each transaction does when nothing overlaps it, errors included. Where SQL leaves a
  row choice open (`LIMIT 1`, a Telegram handle that several users share), the choice is a parameter.
- `registry.dfy`, `services.dfy`: the classes. A `RegistryTx` works on a copy of the tables; `Commit` writes it
  back; every early return drops it. Query results come in an arbitrary order.
- `announcements.dfy`, `notifications.dfy`, `release_timer.dfy`: the timer's record, whether a message goes out,
  and the `ReleaseTimer` class with its loops, which visit users in an arbitrary order.
- `history.dfy`: what the record says about everything the timer did. It speaks of the timer's acts alone (what a
  pass or a scan read, whom a scan reached), so it holds however other transactions fall between or into them.
- `runs.dfy`, `tenancies.dfy`, `alarms.dfy`: all runs in which transactions do not overlap. A run is a sequence of
  states and time-stamped events; a release and a scan are separate events, so that requests may fall between
  them. A pass that fails is no event: it changes nothing.
- `overlap.dfy`, `overlap_rows.dfy`, `overlap_bounds.dfy`, `overlap_horizon.dfy`, `overlap_overshoot.dfy`,
  `overlap_causes.dfy`, `overlap_spacing.dfy`, `overlap_records.dfy`, `overlap_limits.dfy`: runs in which each transaction is split into its reads and checks, and its write and
  commit. `begin` sets no isolation level, so a check may be stale at commit. `overlap_rows.dfy` says which event
  wrote a row last; the others hold the bounds, the exact condition under which each atomic guarantee fails, and
  runs in which it does.
- `api_tokens.dfy`, `token_limits.dfy`, `token_overshoot.dfy`: the token service, and runs of overlapping creates
  and revokes.

## Findings

- Under overlap the lease limit L becomes exactly m * L for a user with m lease transactions in flight, and the
  token limit becomes exactly L + m - 1; both bounds are proved and reached. A run keeps the limit exactly when no
  lease (or create) commits on top of more than its check allowed for, and that takes another lease (or create)
  of the same user which got something else after the check.
- The 1535-hour horizon of non-overlapping runs holds under overlap exactly as long as no extension is overtaken: none
  commits after another transaction renewed the host it had read so far ahead that its hours on top pass the
  horizon. With k extensions in flight the horizon grows by k times the longest extension, and that is reached.
- A release pass does not test the expiry again when it writes. It frees an unexpired host exactly when a lease or an
  extension committed between its read and its write gave the host that expiry and nothing touched it since.
  The expiry floor survives all the same.
- A random lease does not test the owner again when it writes. It takes the host away from another user exactly when
  a lease of that user got it in between and nobody leased or freed it since; both requests answer success.
- Lease time can fall while the owner stays: exactly when the owner leases one host twice at once and the
  lease that commits last ends earlier.
- "No host is extended twice within half an hour less the age of the last pass" fails, even without overlap. Within
  that time a press that reads after the first extension extends the host again exactly when its user had leased it
  for zero days and zero hours in between and nothing had touched it since; under overlap a press also does if
  it had read the host before the first extension was written.
- The comment at `src/logic/release.rs:150-152` promises a new announcement for an extended lease. It comes
  exactly when some clean-up ran while the host was outside every window (or a pass released it from the user).
- An "expiring soon" message panics, and ends the timer's loop, exactly when a host it names is in the pool when
  the message is built, that is, was freed since the scan and not leased again, for a user with a sender. This holds
  with and without overlap.
- Under overlap a pass forgets a host under the owner it was read with, which need not be the owner it is freed from.
- The limit check counts distinct requested ids, known or not; a lease takes hosts over from other users.

## Model

| member | source | states |
|---|---|---|
| Durations.AcceptedLeaseRoundTrip | src/web/api.rs:132-140 | a request is accepted iff days <= 63 and hours <= 23; the accepted length lies between 0 and 1535 hours and is shown back as exactly those days and hours |
| Durations.EveryWholeHourHasARequest | src/mcp/mod.rs:59-73 | the accepted lengths are exactly the whole hours from 0 to 1535 |
| Durations.FormatRecomposes | src/web/templates.rs:171-176 | the shown parts add up to the minutes that bound the duration, truncated toward zero, stay within their units and share the sign, also for expired hosts |
| LeaseLimits.MaxOf | src/logic/hosts.rs:171-175 | the maximum of the matching rows, none iff there are none |
| LeaseLimits.LimitMeaning | src/logic/hosts.rs:165-179 | panics iff a matching limit is negative; the default iff no group matches; else the largest matching limit, even below the default |
| LeaseLimits.LimitFromAnyListing | src/db/mod.rs:300-311 | the limit does not depend on the order of the rows or on repeated groups |
| Tables.LeaseMovesExactly | src/db/mod.rs:148-165 | the update moves exactly the existing named rows to the user, away from whoever held them, adding at most the number of distinct ids |
| Tables.FreeMovesExactly | src/db/mod.rs:166-199 | each free returns exactly its rows to the pool and takes nothing from other users |
| Tables.ExtendMovesNothing | src/db/mod.rs:244-258 | an extension changes nobody's holdings |
| Tables.LeaseThenFree | src/logic/hosts.rs:87-130 | leasing and freeing the same ids restores the table iff every existing id was free before |
| Tables.FreesCompose | src/logic/hosts.rs:125-139 | two frees are one free of the union, free_all is free of everything held, a free is a no-op iff it names nothing held |
| Tables.HostsConserved | src/db/mod.rs:55-102 | pool and holdings are disjoint and add up to all hosts, however the users are listed |
| Transactions.LeaseCheckPassesIff | src/logic/hosts.rs:94-115 | the exact condition under which the checks of a lease pass |
| Transactions.LeaseSucceedsIff | src/logic/hosts.rs:87-123 | a lease succeeds iff its checks pass and the foreign key allows the write; a refusal changes nothing |
| Transactions.LeaseAnswers | src/logic/hosts.rs:87-123 | on any tables, in terms of rows: which of the refusals a request gets, which hosts AlreadyLeased names, that a refusal changes nothing, and which rows a success writes and answers |
| Transactions.LeaseEffect | src/logic/hosts.rs:117-122 | a successful lease changes exactly the requested rows, answers with all the user now holds, within the limit |
| Transactions.ReLeaseRefused | src/logic/hosts.rs:105-110 | asking for a host one holds is refused, naming exactly the hosts held, with the tables unchanged |
| Transactions.LeaseRandomSucceedsIff | src/logic/hosts.rs:141-163 | a random lease succeeds iff the caller is a known user below the limit and some host of the group has no owner; a refusal changes nothing |
| Transactions.LeaseRandomAnswers | src/logic/hosts.rs:141-163 | on any tables, in terms of rows: which refusal comes when (limit reached, no free host, database, panic), and the one row a success writes |
| Transactions.LegalPickMeaning | src/db/mod.rs:60-68 | the query may pick any host of the group without an owner, and picks none iff there is none |
| Transactions.LegalUserMeaning | src/db/mod.rs:220-225 | the lookup by Telegram handle finds somebody iff somebody is linked to it, and can answer two users only if both are |
| Transactions.LeaseRandomEffect | src/logic/hosts.rs:154-160 | a random lease takes one free host of the group and takes nothing from any other user |
| Transactions.ReleaseMeaning | src/logic/release.rs:70-89 | a pass frees exactly the owned hosts whose expiry has passed; a second one is a no-op |
| Transactions.ExtendMeaning | src/bot/handlers.rs:129-142 | a press extends exactly the presser's hosts that expire within 30 minutes, each by the hours pressed, and writes nothing else |
| Registries.Fetch | src/db/mod.rs:136-147 | a query lists each matching row once, in an order left open |
| Registries.RegistryTx.GetAdGroupsLeaseLimits | src/db/mod.rs:300-311 | the rows of exactly the matching groups, each group's row once, in an order left open |
| Registries.RegistryTx.LeaseHostRows | src/db/mod.rs:148-165 | the update is refused exactly for an unknown user with an existing host; it changes the transaction's copy only, and what others see stays as it was |
| Services.CollectIds | src/logic/hosts.rs:95-100 | collecting the rows gives exactly the held ids |
| Services.HostsService.GetLeaseLimit | src/logic/hosts.rs:165-179 | the limit of the groups, from rows in any order |
| Services.HostsService.Lease | src/logic/hosts.rs:87-123 | on every path: which refusal comes when, in terms of rows, with the tables as they were; a success writes exactly the existing requested rows and answers with all the user holds |
| Services.HostsService.LeaseRandom | src/logic/hosts.rs:141-163 | on every path: which refusal comes when, in terms of rows, with the tables as they were; a success leases one ownerless host of the group and answers with it |
| Services.HostsService.Free | src/logic/hosts.rs:125-130 | every named row of the user loses owner and expiry, every other row stays |
| Services.HostsService.FreeAll | src/logic/hosts.rs:132-139 | every row of the user loses owner and expiry, every other row stays |
| Services.HandleExtendCallback | src/bot/handlers.rs:71-168 | which reply comes when; the presser's hosts that expire within 30 minutes get the hours, all other rows stay; the reply lists exactly these with the whole minutes their new expiry leaves |
| Announcements.OwnersHaveExpiring | src/logic/release.rs:139-148 | a user has a group iff some host of theirs is expiring |
| Announcements.SentAfterScan | src/logic/release.rs:150-180 | per user, what the closed-form record holds after a scan |
| Announcements.MessageTo | src/logic/release.rs:163-171 | a host is in a user's message iff it is expiring for the user and not in the record |
| Notifications.NoPanicOnScannedTables | src/logic/notifications.rs:51-111 | on the tables the scan read, no announcement panics, and it is sent iff the channel delivers |
| Notifications.PanicsIff | src/logic/notifications.rs:51-111 | on any consistent tables a message panics iff some host it names is in the pool, for a known user with a sender; and when it counts as sent |
| ReleaseTimers.GroupReleased | src/logic/release.rs:108-114 | the loop groups every released host under its owner, in order |
| ReleaseTimers.GroupIds | src/logic/release.rs:74-77 | the loop gives each owner exactly the expiring hosts of that owner |
| ReleaseTimers.ReleaseTimer.Release | src/logic/release.rs:70-101 | in terms of rows: frees exactly the owned hosts that have expired, lists each once with its owner, and forgets each under its owner only, in any drain order; a failed pass changes nothing |
| ReleaseTimers.ReleaseTimer.NotifySoonRelease | src/logic/release.rs:130-183 | for every visiting order, in terms of rows: a host is recorded for a user iff it was and is in somebody's window, or is in the user's window and the user's channel delivers; a message names exactly what is in the user's window and was not recorded |
| ReleaseTimers.ReleaseTimer.NotifyReleasedHosts | src/logic/release.rs:103-127 | the messages name each freed host to its owner, once, and nothing else |
| ReleaseTimers.ReleaseTimer.AnnounceTo | src/logic/release.rs:163-180 | one user's turn: what is sent, and that only a delivered message enters the record |
| ReleaseTimers.ReleaseTimer.CleanUp | src/logic/release.rs:153-161 | keeps exactly the hosts in somebody's window, whoever's, and drops empty entries |
| ReleaseTimers.ReleaseTimer.Tick | src/logic/release.rs:32-60 | tables, record and released messages after a turn, in terms of rows; a failed release does not stop the scan |
| ReleaseTimers.GroupLists | src/logic/release.rs:108-114 | each group lists the user's expired hosts, each exactly once |
| ReleaseTimers.RecordClosedForm | src/logic/release.rs:158-180 | clean-up and sending loop together leave the closed-form record |
| ReleaseTimers.MessagesClosedForm | src/logic/release.rs:163-171 | the attempted messages are the closed-form ones |
| ReleaseTimers.GroupsConserveHosts | src/logic/release.rs:108-117 | the groups concatenate, in any user order, to a permutation of the released list |
| ReleaseTimers.GroupsKeepOrder | src/logic/release.rs:109-114 | each group reads the released list at increasing positions and misses none of its user |
| ReleaseTimers.HostsOfMembers | src/logic/release.rs:108-114 | a host is in a group iff it was released from that user |
| Runs.TablesStayConsistent | src/db/mod.rs:92-199 | in every run a host has an owner iff it has an expiry, owners are known, and leased rows always decode |
| Runs.HostsConservedInRuns | src/db/mod.rs:55-102 | in every run pool and holdings add up to the initial number of hosts |
| Runs.LeaseHorizon | src/db/mod.rs:244-258 | in every run no expiry lies further ahead than the longest lease, or window plus longest extension |
| Runs.ButtonsKeepTheHorizon | src/logic/notifications.rs:103-107 | with the three buttons the horizon is 1535 hours |
| Runs.HorizonIsTheLongestLease | src/web/api.rs:132-140 | the horizon is the longest lease iff extensions stay within 1534 hours |
| Runs.ExpiryFloor | src/logic/release.rs:73-89 | after a pass at t no later state has an owned host expiring before t |
| Runs.StepOnHost | src/logic/hosts.rs:87-163 | in one step a row stays, is freed, is leased by somebody who did not hold it, or is extended by its owner in the window |
| Runs.KeptHostStep | src/bot/handlers.rs:129-142 | a kept host's expiry changes iff its owner extends it, by whole hours, less than 30 minutes before it |
| Runs.LeaseTimeMonotone | src/bot/handlers.rs:129-150 | while one user keeps a host its expiry never decreases, and is unchanged iff it was not extended |
| Tenancies.RunRow | src/db/mod.rs:148-258 | what a successful lease, a free, a release and an extension each make of a row of the run; no other event changes it |
| Tenancies.UsersInRun | src/db/mod.rs:259-272 | users come and are linked by their own events only, and never go |
| Tenancies.InPoolIff | src/db/mod.rs:166-199 | a host held at one step is in the pool at a later one iff it was freed in between and not leased since |
| Tenancies.MessagePanicsIff | src/logic/notifications.rs:86-101 | whatever transactions run, without overlap, between a scan and its message: it panics iff a host it names was freed since the scan and not leased again, for a user with a sender |
| OverlapRecords.MessagePanicsIff | src/logic/notifications.rs:86-101 | the same whatever overlaps the scan and its message |
| Tenancies.ExtensibleTooEarlyIff | src/bot/handlers.rs:129-142 | without overlap: after a pass and an extension, a button pressed within 30 minutes of the pass finds the host in a user's window iff that user leased it for zero hours since and nothing touched it after |
| Tenancies.ExtensionsAreSpaced | src/bot/handlers.rs:129-142 | without overlap: two extensions of a host, by anybody, the first after a pass D old: the second comes more than 30 min - D later, or its user has leased the host for zero hours in between |
| OverlapSpacing.ReadableTooEarlyIff | src/bot/handlers.rs:129-142 | under overlap: a press that reads after the extension, within 30 minutes of the pass, finds the host in a user's window iff that user's zero-hour lease stands |
| OverlapSpacing.ExtendsTooEarlyIff | src/bot/handlers.rs:129-142 | under overlap: a press that commits within 30 minutes of the pass extends the host again iff the host is leased and the press had read it before the first extension, or off a zero-hour lease of its user since |
| OverlapSpacing.ExtensionsAreSpaced | src/bot/handlers.rs:129-142 | under overlap: the second of two extensions comes more than 30 minutes after the read of a pass committed before the first, or its press read too early in that sense |
| OverlapSpacing.PressedTwice | src/db/mod.rs:244-258 | a run without any lease in which two presses in flight extend a host twice at one instant |
| OverlapSpacing.PressedByTwo | src/db/mod.rs:244-258 | the same with one press each of two users |
| Alarms.ExtendedTwiceAtOnce | src/web/api.rs:132-140 | a run in which one user extends a host twice at one instant, with a zero-hour lease in between |
| Runs.StepCount | src/logic/hosts.rs:112-115 | a user's count grows only by the user's own request, which leaves it within the limit |
| Runs.LimitHolds | src/logic/hosts.rs:112-115 | a user who starts within the limit stays within it in every run |
| History.RecordStep | src/logic/release.rs:91-180 | a host stays in or enters a user's record exactly by not being forgotten or by being announced |
| History.RecordRefinesHistory | src/logic/release.rs:91-180 | a host is recorded for a user iff a delivered message named it and nothing since made the timer forget it |
| History.NoRepeatedAnnouncement | src/logic/release.rs:158-179 | two announcements of a host to a user are separated by a clean-up outside every window or a release from the user |
| History.NoLostAnnouncement | src/logic/release.rs:163-180 | after a scan every expiring host of a reached user is recorded, by an announcement that stands |
| History.FailedSendIsRetried | src/logic/release.rs:172-179 | what a failed send would have announced is in the next scan's message, if still expiring |
| History.AnnouncedExactlyOnce | src/logic/release.rs:150-180 | during one stay in the window a host is announced at the first scan that reaches its user and at no other |
| Alarms.ExtensionLeavesWindow | src/bot/handlers.rs:140-142 | an extension leaves the window iff the host had expired at most the extension less 30 minutes ago |
| History.CleanUpErasesEverywhere | src/logic/release.rs:158-161 | a clean-up that finds a host outside every window erases it for every user |
| History.AlarmReArmed | src/logic/release.rs:150-161 | a host announced once and back in the window is announced again iff the timer forgot it in between |
| Alarms.RunIsTimeline | src/logic/release.rs:91-180 | every run is such a timeline; there the timer forgets a host exactly at a clean-up outside every window and at a release that takes it from the user |
| Alarms.RecordInRun | src/logic/release.rs:91-180 | what a step of a run does to the record, in terms of rows: only a pass and a scan touch it, and only as the timer's methods do |
| Alarms.AlarmMissed | src/logic/release.rs:150-161 | a run in which a host is announced, extended by an hour, and back in its user's window without an announcement |
| Overlap.OverlapKeepsTablesConsistent | src/db/mod.rs:148-199 | no overlap separates an owner from its expiry or installs an unknown owner |
| Overlap.AloneIsAtomic | src/logic/hosts.rs:87-163 | read and commit with nothing in between are the atomic transaction, refusals included |
| Overlap.PendingStep | src/db/mod.rs:24-37 | a transaction in flight began with a read whose checks passed, and leaves by its own commit or abort |
| Overlap.TablesStep | src/db/mod.rs:24-37 | reads, dropped transactions and scans change no table |
| OverlapBounds.CommitAddsAtMost | src/db/mod.rs:148-165 | a commit adds to a user at most what that user's own request asked for |
| OverlapBounds.BoundedStep | src/logic/hosts.rs:94-121 | every step keeps holdings plus requests in flight within m times the limit |
| OverlapBounds.OvershootBounded | src/logic/hosts.rs:94-121 | with at most m lease transactions of a user in flight, holdings plus requests in flight never exceed m times the limit |
| OverlapBounds.OverlapHorizon | src/bot/handlers.rs:129-150 | with at most k extensions in flight the horizon is the longest lease plus k times the longest extension, however long that is |
| OverlapLimits.OvershootReached | src/logic/hosts.rs:94-121 | the overshoot bound is reached: m overlapping full requests end with exactly m times the limit |
| OverlapOvershoot.CommitOvershootsIff | src/logic/hosts.rs:94-121 | a lease leaves its user above the limit iff the hosts kept since its check, those other leases of the user got since, and those it asks for are more than the limit |
| OverlapOvershoot.OvershootHasACause | src/logic/hosts.rs:112-121 | then another lease of the user got, after the check, a host that this one does not ask for, and still holds it |
| OverlapOvershoot.LimitHoldsIff | src/logic/hosts.rs:94-121 | a user who starts within the limit stays within it up to any state iff no lease of the user overshoots before |
| OverlapLimits.RandomLeasesCollide | src/logic/hosts.rs:154-160 | a run in which two random leases commit on one host and the first writer is left with nothing |
| OverlapLimits.StaleExtensionPassesHorizon | src/db/mod.rs:244-258 | a run in which a stale extension takes an expiry to exactly 24 hours past the longest lease |
| OverlapHorizons.OverlapHorizonReached | src/db/mod.rs:244-258 | the overlap horizon is reached: one stale press by each of k users ends exactly k times their hours past the longest lease |
| OverlapRows.HeldIff | src/db/mod.rs:148-199 | a user holds a host iff held before and undisturbed since, or the last lease or free since was a lease of that user |
| OverlapRows.ExpiryIff | src/db/mod.rs:148-258 | a host has an expiry iff it had it before and was untouched since, or its last renewal wrote it and nothing touched it after |
| OverlapRows.InPoolIff | src/db/mod.rs:166-199 | under overlap a host held at one step is in the pool at a later one iff it was freed in between and not leased since |
| OverlapCauses.RandomLeaseTakesIff | src/logic/hosts.rs:154-160 | a committing random lease takes its host from a user iff a lease of that user got it after the pick and it was not leased or freed since |
| OverlapCauses.EarlyReleaseIff | src/logic/release.rs:73-88 | a pass frees an unexpired host iff after its read a renewal wrote an expiry that late and nothing touched the row since |
| OverlapCauses.ExtensionPassesIff | src/db/mod.rs:244-258 | an extension takes a host past the horizon iff after its read a renewal wrote an expiry that its hours push past it |
| OverlapCauses.HorizonHoldsIff | src/bot/handlers.rs:129-150 | a run keeps the atomic horizon iff none of its extensions is overtaken |
| OverlapCauses.OverlapFloor | src/logic/release.rs:73-89 | once a pass that read at t has committed, no later state has an owned host expiring before t |
| OverlapCauses.LeaseTimeFallsIff | src/logic/hosts.rs:94-121 | a kept host loses lease time iff a lease of its owner commits that was checked before another lease of the owner got the host, and ends earlier |
| OverlapCauses.KeptLeaseTime | src/bot/handlers.rs:129-150 | between leases of its owner a kept host never loses lease time |
| OverlapLimits.LeaseTimeFalls | src/logic/hosts.rs:94-121 | a run in which two overlapping leases of one user take a host from the longest expiry to an expired one |
| OverlapRecords.OverlapRecord | src/logic/release.rs:91-180 | under overlap too the record holds a host iff a delivered message named it, and since then no clean-up found it outside every window and no pass committed that had read it as the user's expired host |
| OverlapRecords.ForgetsWhatWasRead | src/logic/release.rs:91-99 | a pass forgets a host for a user iff it had read it as an expired host of that user |
| OverlapRecords.FreedButRemembered | src/logic/release.rs:73-99 | a pass frees a host from a user and leaves it in the user's record iff it was there and a lease of the user took it from the owner it was read with |
| OverlapLimits.ExtensionLostToRelease | src/db/mod.rs:181-190 | an expired host extended between a pass's read and write is freed all the same |
| ApiTokens.ApiTokensService.Create | src/logic/api_tokens.rs:55-78 | which refusal comes when; a success adds exactly one row under a new id, with the user, the trimmed name and the hash, and makes the plaintext findable |
| ApiTokens.StoredNameMeaning | src/logic/api_tokens.rs:62-65 | no name is stored iff the name is all blank; otherwise what is between its blank ends, exactly |
| ApiTokens.ApiTokensService.FindUserIdByPlaintext | src/logic/api_tokens.rs:87-96 | nobody iff no row has that hash, else the user of a row that has it; the tables unchanged |
| ApiTokens.ApiTokensService.Revoke | src/logic/api_tokens.rs:98-111 | Ok iff the row exists and is the caller's, and then exactly that row goes; else NotFound and nothing changes |
| ApiTokens.FindsIsDetermined | src/db/mod.rs:350-364 | a lookup has one answer, whatever row order |
| ApiTokens.TokenTableRefinesHistory | src/logic/api_tokens.rs:55-111 | the table holds a token for a plaintext iff a create answered it and its owner has not revoked it since |
| ApiTokens.LookupRefinesHistory | src/logic/api_tokens.rs:55-111 | a plaintext identifies a user iff a create for that user answered it and the token is not revoked since |
| ApiTokens.RevokeOfOthersIsNoOp | src/db/mod.rs:366-377 | revoking with another user's id changes nothing |
| ApiTokens.TokenLimitUnderOverlap | src/logic/api_tokens.rs:67-75 | with at most m creates in flight, live tokens plus creates in flight never exceed limit + m - 1 |
| TokenOvershoot.TokenOvershootReached | src/logic/api_tokens.rs:67-75 | the token bound is reached |
| TokenLimits.LiveIff | src/logic/api_tokens.rs:55-111 | a token is live iff it was before and its user has not revoked it, or a create stored it since and its user has not revoked it after |
| TokenLimits.StoredRow | src/logic/api_tokens.rs:55-78 | in a run a successful create stores one new row with the user, the trimmed name and the hash of the request it was checked for, and changes nothing else |
| TokenLimits.CommitOvershootsIff | src/logic/api_tokens.rs:67-75 | a create leads above the limit iff it is stored and the tokens kept since its check, with those stored since, are the limit or more |
| TokenLimits.OvershootHasACause | src/logic/api_tokens.rs:67-75 | then another create of the user was stored after the check, and its token is still live |
| TokenLimits.TokenLimitHoldsIff | src/logic/api_tokens.rs:67-75 | a user who starts within the token limit stays within it up to any state iff no create of the user overshoots before |

## Left out

- Web pages, routing, sessions, LDAP, configuration and logging: plumbing around the core; a user's groups are an input.
- Telegram itself: a send has an arbitrary outcome per user and scan, fixed by the user's channel.
- Message texts, host names and addresses, and the sort orders that only serve display.
- `get_hosts_filtered`, `list_groups` and other plain reads: no property beyond the query itself.
- Database failures in the requests: a failed transaction is dropped and is therefore no event. A commit that takes effect but reports an error to the timer is not modelled.
- The reads and checks of one transaction see one state, and its write and commit are one step: in particular `lease_random` counts the held hosts and picks the row in two statements, between which others may commit; row locks and serialization failures are not modelled.
- Rows edited outside the program: deleting a user by hand clears the owner of a host but not its expiry, which no code path does.
- Timestamps beyond the range of `timestamptz`: a press with an enormous number of hours fails in the database instead.
- Services.HandleExtendCallback: the text of the answer and the edited Telegram message are not modelled, only which hosts it lists and their minutes.
- ApiTokens.ApiTokensService.Create: hash and random plaintext are parameters.
- ReleaseTimers.ReleaseTimer.Tick: one turn of the endless loop without its sleep; the runs in `runs.dfy` let other transactions fall between release and scan.
- Sequence numbers of tokens that a failed insert consumes: only that a new id is unused matters.
