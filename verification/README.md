# Verified model of the VK TURN proxy

A Dafny model of the stateful core of the VK TURN proxy: the pool that shares TURN credentials out among
connections, the cache file that carries credentials across a restart, and six smaller pieces of logic that
each make one promise (relay discovery, SOCKS5 framing and UDP associations, the X25519 ladder, connection
links, the slider-captcha ranking, and the menu-bar agent's failover).

Check everything with `dafny verify dfyconfig.toml`.

## Reading guide

| file | what it holds |
|---|---|
| `CredEntry.dfy`, `PoolOps.dfy` | a pool slot, its predicates, and every critical section of the pool as a function |
| `CredPool.dfy` | the pool as an object; each method is proved to compute its `PoolOps` function |
| `PoolRuns.dfy` | all interleavings of those sections with the clock, beside per-slot books of leases and fetches |
| `LeaseAccounting.dfy` | lease counts against the quota of 10 over every run |
| `TwoSlotPool.dfy`, `OverLease.dfy`, `OverlappingFetch.dfy`, `ShortenedWait.dfy` | concrete runs of the smallest pool in which a promise fails |
| `FetchExclusivity.dfy`, `ColdStart.dfy`, `FillLimit.dfy` | fetches per slot, the cold-start cap, the grower's limit |
| `Progress.dfy`, `OwnSlots.dfy`, `CompactFill.dfy` | service without a fetch, own slots, packing |
| `PoolFrames.dfy` | what each operation leaves alone |
| `Wakeups.dfy`, `SignalChannel.dfy`, `PathChanges.dfy`, `Cooldowns.dfy` | wake-ups, the broadcast channel, network path changes, waits after failures |
| `CredCache.dfy`, `Restart.dfy` | the cache file, its two readers, and a restart end to end |
| `RelayDiscovery.dfy`, `RelayReconfigure.dfy` | lazy discovery of distinct relays for the cookie path, and calls that overlap a reconfiguration |
| `SocksFraming.dfy`, `UdpAssociation.dfy` | RFC 1928 addresses and datagrams; lifetime of tunnel conns |
| `X25519.dfy`, `LinkCodec.dfy` | key generation and link building of `quick_link.py`, and the importer |
| `SliderTiles.dfy`, `SliderRanking.dfy` | tile geometry, tile rearrangement, two-stage ranking |
| `Failover.dfy` | automatic start and stop of the tunnel |
| `Basics.dfy`, `Arithmetic.dfy` | shared value types and arithmetic facts |

The program drops its lock around a credential fetch, so `get` and `tryFill` are each two steps of the run
model: everything may happen between them. Time is an integer number of nanoseconds, read once per critical
section, and only moves forward. A fetch, a mint, a launch, a probe and a pixel score are arbitrary inputs.

## What turned out not to hold

Each is kept as the code has it, with a concrete instance and the exact condition.

- The quota of 10 leases per cred can be exceeded. A lease taken on a cred that was later replaced lowers the
  count of the new cred when it is returned. `OverLease.ElevenLeases` is a whole run from an empty pool. Over
  whole runs `LeaseAccounting.QuotaKeptIff` is exact for the quota and `LeaseAccounting.CountExactIff` for the
  count.
- A slot dropped while a fetch for it is in flight can get a second fetch, and a fresh leased cred is overwritten
  (`OverlappingFetch.TwoFetchesInFlight`, `OverlappingFetch.FreshCredOverwritten`). `FetchExclusivity.OneFetchIff`
  is exact: it happens exactly when a fetch is started for the slot before the one the drop forgot has ended.
- A disk-loaded slot that reaches the end of its load delay wakes nobody: no timer is armed for it and nothing
  broadcasts (`Wakeups.LoadDelayEndsSilently`); that is the only exception (`Wakeups.NoMissedWakeup`).
- A 486 can bring a slot's deadline forward, but only when it is reported by a conn the pool does not count,
  which takes a slot replaced or dropped while leased (`Cooldowns.MarkShortensIff`,
  `Cooldowns.MarksExtendOnKeptSlots`), and that acquired the slot at least twelve minutes before
  (`Cooldowns.OnlyOldLeasesShorten`). `ShortenedWait.SecondReportShortens` is such a run. The handshake that ends
  in the report is bounded by seconds, so it takes a process that was suspended in between.
- Seeding can lose a loaded cred when the slot the seed came from does not exist in the new pool
  (`Restart.ShrunkPoolLosesCred`, `Restart.ShrunkPoolInstance`); `Restart.SeedLosesExactlyWithoutRoom` is exact.
- The app's reader and the pool's reader of the cache file disagree exactly on an unexpired cred whose recorded
  last use lies in the future (`CredCache.ReadersAgree`, `CredCache.ReadersDisagree`).
- A call link whose discovery mint fails is not tried again before the next reconfiguration
  (`RelayDiscovery.LostLink`, `RelayDiscovery.FailedMintLosesRelaysIff`).
- A discovery call that overlaps a reconfiguration can put a link that is no longer configured into the new relay
  list (`RelayReconfigure.LateCall`); `RelayReconfigure.OnConfiguredIff` is exact.
- A connection payload given bare, without its URL, is taken for a file name when it has fewer than 12 bytes
  (`LinkCodec.BarePayloadRoundTrip`).
- The delayed terminate of a stop request reaches whatever process runs 1.5 s later. A stop that auto mode asked
  for can end a tunnel the user has since started (`Failover.AutoStopReachesManualTunnel`), exactly when it was
  started while such a stop was pending (`Failover.AutoHitsManualIff`, `Failover.ManualStartSafe`,
  `Failover.ManualStartAtRisk`).

Where comments and code differ the model follows the code: the example table at `pkg/proxy/creds.go:1283-1293`
does not match the formula below it for 5 to 7 connections, and the comment at
`VKTurnProxy/VKTurnProxy/CredCache.swift:120` says 60 s where the check uses 30 minutes.

## Model

| member | source | states |
|---|---|---|
| `CredEntry.ExpiryRoundTrip` | pkg/proxy/creds.go:62-75 | every number before a colon, signed or not, is read back if a 64-bit integer holds it and gives no expiry otherwise, whatever the key |
| `CredEntry.ExpiryRefused` | pkg/proxy/creds.go:62-75 | no colon, nothing or a lone sign before the first one, or any character there that is neither a digit nor a leading sign gives no expiry |
| `CredEntry.UnexpiredIff` | pkg/proxy/creds.go:2665-2683 | a cred counts as unexpired exactly while more than thirty minutes are left of the expiry its username tells |
| `FetchExclusivity.UsableIsFreshOrPending` | pkg/proxy/creds.go:2665-2725 | usable creds are the disjoint union of fresh and pending ones |
| `CredPoolObject.CredPool.constructor` | pkg/proxy/creds.go:1449-1490 | a new pool has at least one slot, all empty, no pause, and an open channel |
| `CredPoolObject.CredPool.BroadcastSlotAvailable` | pkg/proxy/creds.go:2575-2590 | the old channel is closed and a new open one is in place |
| `CredPoolObject.CredPool.CountWithUsableCreds` | pkg/proxy/creds.go:2769-2786 | the loop counts exactly the usable slots |
| `CredPoolObject.CredPool.CountFetching` | pkg/proxy/creds.go:1898-1903 | the loop counts exactly the slots with a fetch in flight |
| `CredPoolObject.CredPool.CountAvailable` | pkg/proxy/creds.go:2741-2750 | the loop counts exactly the available slots |
| `PoolOps.BestOther` | pkg/proxy/creds.go:1753-1800 | among slots other than the own one, the lowest-index acquirable slot of greatest active count; -1 only when there is none |
| `CredPoolObject.CredPool.PickAcquireSlot` | pkg/proxy/creds.go:1753-1800 | own slot if acquirable, else the slot that beats every other acquirable one, else -1 and nothing is acquirable |
| `CredPoolObject.CredPool.PickFetchTarget` | pkg/proxy/creds.go:1914-1940 | own slot if eligible, else the lowest eligible slot, else -1 |
| `CredPoolObject.CredPool.GetEnter` | pkg/proxy/creds.go:1802-1958 | the decision, whole new state and lease (address and cred of the slot) of `get` up to the fetch: refused, granted, parked, no slot, or fetching |
| `ColdStart.DecisionTable` | pkg/proxy/creds.go:1810-1946 | exactly when each of the five happens, in numbers: a fetch is started exactly when nothing can be acquired, usable creds and fetches make less than ceil(size/4), and some slot is eligible |
| `CredPoolObject.CredPool.GetExit` | pkg/proxy/creds.go:1951-2010 | success replaces the slot with one lease and broadcasts; failure cools down and retries the scan; the lease is what the slot acquired holds |
| `CredPoolObject.CredPool.TryFillEnter` | pkg/proxy/creds.go:2405-2440 | every early exit of the filler, and the flag it raises otherwise |
| `CredPoolObject.CredPool.TryFillExit` | pkg/proxy/creds.go:2440-2475 | commits and broadcasts unless enough slots are available; failure only cools down |
| `CredPoolObject.CredPool.PickSlotToFill` | pkg/proxy/creds.go:2483-2505 | the lowest eligible slot, or -1 exactly when none is eligible |
| `CredPoolObject.CredPool.ReleaseSlot` | pkg/proxy/creds.go:2018-2054 | lowers the count, stamps the last use at zero, broadcasts exactly under its condition |
| `CredPoolObject.CredPool.ApplySaturation` | pkg/proxy/creds.go:2152-2160 | sets the deadline and re-arms the timer for the same instant |
| `CredPoolObject.CredPool.MarkSlotSaturated` | pkg/proxy/creds.go:2119-2150 | the long cooldown for a slot in recent use, the short one otherwise |
| `CredPoolObject.CredPool.ArmPauseAcquireBroadcast` | pkg/proxy/creds.go:2337-2365 | the timer stands at the deadline, or at nothing when that is past |
| `CredPoolObject.CredPool.ExtendPauseAcquire` | pkg/proxy/creds.go:2374-2390 | the deadline moves only if later |
| `CredPoolObject.CredPool.MarkInUseSlotsForPathChange` | pkg/proxy/creds.go:2187-2315 | the new state of every slot and the pause, and exactly which slots were marked |
| `CredPoolObject.CredPool.Invalidate` | pkg/proxy/creds.go:2512-2535 | every slot is empty |
| `CredPoolObject.CredPool.DropEntry` | pkg/proxy/creds.go:2543-2560 | exactly one slot is emptied; reports whether it held a cred |
| `CredPoolObject.CredPool.ClearDuplicates` | pkg/proxy/creds.go:1371-1382 | every other slot with the seed's cred is emptied, nothing else changes |
| `CredPoolObject.CredPool.Relocate` | pkg/proxy/creds.go:1387-1396 | the displaced entry goes to the first slot without a cred, if there is one |
| `CredPoolObject.CredPool.SeedSlot` | pkg/proxy/creds.go:1333-1397 | the whole of seeding: no-op on a fresh slot, else plant, dedup, relocate, broadcast; a nil cred only sets the address |
| `CredPoolObject.CredPool.SaveToDisk` | pkg/proxy/creds.go:1631-1666 | the file holds one entry per slot with a cred, in slot order, stamped with its last use |
| `CredPoolObject.CredPool.LoadFromDisk` | pkg/proxy/creds.go:1527-1619 | the entries are loaded in file order, with every skip and the load delay |
| `LeaseAccounting.RunsStayBalanced` | pkg/proxy/creds.go:1802-2054 | every action of every interleaving keeps the active counts within quota and outstanding leases |
| `LeaseAccounting.LeaseQuota` | pkg/proxy/creds.go:1753-2054 | in every reachable state 0 <= active <= 10, active <= leases out, and the present cred's leases are exactly active plus the lost ones |
| `LeaseAccounting.CountExactIff` | pkg/proxy/creds.go:1753-2054 | over a whole run the count equals the cred's leases in every state if and only if no lease of a replaced cred comes back while the count is positive |
| `LeaseAccounting.QuotaCrossedExactlyByGrant` | pkg/proxy/creds.go:1802-1871 | the quota is first exceeded exactly at a grant on a slot where active plus lost is already 10 |
| `LeaseAccounting.QuotaKeptIff` | pkg/proxy/creds.go:1802-2054 | over a whole run no cred of the slot has more than 10 leases if and only if the slot is never granted while active plus lost is 10 |
| `LeaseAccounting.ExactWhenNeverOverwritten` | pkg/proxy/creds.go:1753-2054 | if a slot is never replaced or dropped while leased, active is its lease count, at most 10 |
| `LeaseAccounting.CountLostExactlyByStaleReturn` | pkg/proxy/creds.go:2018-2054 | an exact count becomes wrong exactly at the return of a lease of a replaced cred while the count is positive |
| `OverLease.ElevenLeases` | pkg/proxy/creds.go:2018-2054 | a run of a two-slot pool from empty that ends with 11 leases on one cred while the pool counts 10 |
| `FetchExclusivity.RunsStayExclusive` | pkg/proxy/creds.go:1922-1958 | every action keeps flags and fetches in flight in step |
| `FetchExclusivity.OneFetchPerSlot` | pkg/proxy/creds.go:1922-1958 | at most one fetch per slot across `get` and `tryFill`, the flag tells exactly which, and it never ends on a fresh or pending cred |
| `FetchExclusivity.OneFetchUnlessDropped` | pkg/proxy/creds.go:2405-2472 | the same from a simple sufficient condition on the run: no drop of the slot mid-fetch |
| `FetchExclusivity.OverlapsExactlyByTaintedStart` | pkg/proxy/creds.go:1922-1948 | a second fetch comes into flight exactly when one is started for a slot dropped under a fetch still in flight |
| `FetchExclusivity.OneFetchIff` | pkg/proxy/creds.go:1922-1958 | over a whole run at most one fetch is in flight in every state if and only if none is started in that situation; and then no fetch ends on a fresh or pending cred |
| `OverlappingFetch.TwoFetchesInFlight` | pkg/proxy/creds.go:2543-2560 | a run in which a drop mid-fetch leads to two fetches in flight for one slot |
| `OverlappingFetch.FreshCredOverwritten` | pkg/proxy/creds.go:1950-1958 | it goes on: the fetch that ends second replaces a cred that is fresh and leased |
| `ColdStart.ColdStartBound` | pkg/proxy/creds.go:1896-1958 | from a pool without creds, in every conn-driven run, usable creds plus fetches in flight stay within ceil(size/4), each counted once |
| `ColdStart.ColdStartFetches` | pkg/proxy/creds.go:1896-1946 | from an empty pool k calls at one instant start exactly min(k, ceil(size/4)) fetches, which is ceil(n/10) for the n conns the pool is sized for |
| `Progress.PoolSizeMeaning` | pkg/proxy/creds.go:1301-1311 | four slots for every ten conns, rounded up, and at least two |
| `Progress.TargetIsQuotaCount` | pkg/proxy/creds.go:1301-1311 | the cold-start target of the pool for n conns is ceil(n/10), for every n >= 1 |
| `Progress.RunAccounts` | pkg/proxy/creds.go:1802-2054 | over every run of conns that ask, wait and return in turn, the conns holding a slot are exactly its leases |
| `Progress.ServedWithoutFetch` | pkg/proxy/creds.go:1753-1871 | in every run of n conns with one lease each, with the target of slots available and no pause, a conn without a lease is granted one at once |
| `CompactFill.FallbacksOccupyFewestSlots` | pkg/proxy/creds.go:1753-1828 | k fallback acquires over idle slots occupy exactly ceil(k/10) of them, floor(k/10) full |
| `CompactFill.PartialIsPicked` | pkg/proxy/creds.go:1753-1800 | a fallback acquire goes to the partly filled slot |
| `CompactFill.IdleIsPicked` | pkg/proxy/creds.go:1753-1800 | without one it goes to the lowest idle slot |
| `OwnSlots.OwnSlotOf` | pkg/proxy/creds.go:1816-1828 | conn c has slot c / 10 as its own, clamped to the pool |
| `OwnSlots.OwnSlotsSuffice` | pkg/proxy/creds.go:1816-1828 | a pool sized for n conns has an own slot for each of them |
| `OwnSlots.FilledTenByTen` | pkg/proxy/creds.go:1753-1871 | n conns that ask in order of an idle pool leave conns 10i to 10i + 9 on slot i |
| `FillLimit.FillTable` | pkg/proxy/creds.go:2405-2436 | exactly when `tryFill` refuses, finds the slot filled, gives up for the limit, or fetches |
| `FillLimit.FillEnds` | pkg/proxy/creds.go:2445-2455 | a fetched cred is kept exactly while fewer slots than the limit are available |
| `FillLimit.FillsStopAtLimit` | pkg/proxy/creds.go:2430-2455 | however many fills with one limit overlap, they do not take the available slots past it |
| `Wakeups.RunsStayTimed` | pkg/proxy/creds.go:2152-2160 | in every run a saturation or pause deadline ahead has its timer armed for that instant |
| `Wakeups.ReleaseSignalsExactlyWhenOpening` | pkg/proxy/creds.go:2018-2054 | `release` broadcasts if and only if its slot becomes acquirable |
| `Wakeups.TimeOpensAtLastDeadline` | pkg/proxy/creds.go:2152-2160 | when time opens a slot it opens at the later of its two deadlines and not before |
| `Wakeups.NoMissedWakeup` | pkg/proxy/creds.go:2018-2160 | in every reachable state a step that opens a slot wakes somebody as it opens, by a broadcast or by a timer armed for that instant, if and only if it is not time ending the load delay of a slot not saturated up to then |
| `Wakeups.PauseEndsWithWakeup` | pkg/proxy/creds.go:2337-2365 | a pause ends only by the clock, at the instant its timer is armed for |
| `Wakeups.LoadDelayEndsSilently` | pkg/proxy/creds.go:1580-1600 | a pool started from a cache file in which that happens: the slot opens at 601 s and nobody is woken |
| `SignalChannel.ClosedExactlyOnce` | pkg/proxy/creds.go:2575-2590 | over all interleavings of swap and close no channel is closed twice, the current one never, and every earlier one once |
| `PathChanges.InUseSlotsClosed` | pkg/proxy/creds.go:2187-2315 | right after a path change no slot with conns, or recently left, can be acquired |
| `PathChanges.ClosesExactlyRiskySlots` | pkg/proxy/creds.go:2187-2315 | of the acquirable slots a path change closes exactly those with conns on them or a use that ended 2 s to 630 s ago |
| `PathChanges.PauseLength` | pkg/proxy/creds.go:2187-2315 | the pause is exactly 30 s for an event 500 ms to 90 s after the last and 500 ms otherwise, or what was left of the pause before if longer |
| `PathChanges.TransitionExtends` | pkg/proxy/creds.go:2374-2390 | a transition moves the deadline to the later of the two and touches nothing else |
| `PathChanges.ReopensAfterHold` | pkg/proxy/creds.go:2187-2315 | a marked slot can be acquired again from exactly anchor + 630 s on, as far as its conns and cred allow |
| `PathChanges.GetsRefusedUntilDeadline` | pkg/proxy/creds.go:1810-1814 | in every continuation each `get` before the deadline is refused and changes nothing |
| `PathChanges.QuotaErrorKeepsHold` | pkg/proxy/creds.go:2119-2150 | a later 486 never shortens the hold of a marked slot |
| `PathChanges.MarkedSlotClosedUntilAllocationsLapse` | pkg/proxy/creds.go:2187-2382 | a marked slot is granted to nobody before anchor + 630 s in every continuation that keeps its cred |
| `Cooldowns.NoFetchDuringCooldown` | pkg/proxy/creds.go:1922-2010 | after a failed fetch no fetch is started for the slot before the cooldown ends, in every continuation that keeps its cred |
| `Cooldowns.FetchResumes` | pkg/proxy/creds.go:1975-1980 | from then on a fetch is allowed exactly if the slot holds no usable cred |
| `Cooldowns.QuotaWait` | pkg/proxy/creds.go:2119-2160 | a 486 closes the slot for exactly 660 s if it is in use or was within 720 s, and exactly 180 s otherwise |
| `Cooldowns.NoGrantAfterQuotaError` | pkg/proxy/creds.go:2119-2160 | after a 486 no `get` is granted the slot for 180 s, in every continuation that keeps its cred |
| `Cooldowns.MarkShortensIff` | pkg/proxy/creds.go:2119-2150 | in every reachable state a 486 brings a deadline forward exactly when no conn is counted, the last use is 12 minutes old or unknown, and more than 180 s were left |
| `Cooldowns.MarksExtendOnKeptSlots` | pkg/proxy/creds.go:2119-2150 | so it never does on a slot that is not replaced or dropped while leased |
| `Cooldowns.OnlyOldLeasesShorten` | pkg/proxy/creds.go:2119-2150 | whenever it does, the slot was last granted at least twelve minutes before, so the reporting conn acquired it then or earlier |
| `ShortenedWait.SecondReportShortens` | pkg/proxy/creds.go:2119-2150 | a run from an empty pool in which it does |
| `PoolFrames.OnlyItsSlots` | pkg/proxy/creds.go:1802-2556 | no action of the pool changes a slot other than the one it names or decides on |
| `PoolFrames.OnlyPathEventsPause` | pkg/proxy/creds.go:2187-2390 | only path events and transitions move the pause |
| `PoolFrames.OutOfRangeIgnored` | pkg/proxy/creds.go:2018-2030 | slot numbers out of range are ignored by release, mark, drop and fill |
| `PoolFrames.LeaseMovesCountOnly` | pkg/proxy/creds.go:2018-2054 | a lease taken or given back moves the count by one, stamps the last use at zero, and changes nothing else |
| `PoolFrames.FetchedCredIsKept` | pkg/proxy/creds.go:1956-1958 | a successful fetch leaves its cred and address in the slot, usable at once |
| `PoolFrames.FailedFetchFallsBack` | pkg/proxy/creds.go:1975-2008 | after a failed fetch the conn is granted a slot exactly if one can be acquired, its own first |
| `PoolFrames.FallbackCounts` | pkg/proxy/creds.go:1975-1986 | one more conn is counted on it, and the slot of the fetch cools down |
| `PoolFrames.DroppedSlotIsBlank` | pkg/proxy/creds.go:2512-2556 | a dropped slot holds nothing and can be fetched into at once |
| `CredCache.LoadValidCred` | VKTurnProxy/VKTurnProxy/CredCache.swift:121-172 | the first entry of the file that passes the checks; none only if no entry passes |
| `CredCache.OtherVersionIgnored` | pkg/proxy/creds.go:1527-1550 | a missing file or one of another version is not read |
| `CredCache.ReadersAgree` | VKTurnProxy/VKTurnProxy/CredCache.swift:132-165 | the app accepts an entry exactly when the pool loads it fresh, except exactly when its last use lies in the future of an unexpired cred |
| `CredCache.ReadersDisagree` | VKTurnProxy/VKTurnProxy/CredCache.swift:158-165 | such an entry |
| `Restart.SaveLoadRoundTrip` | pkg/proxy/creds.go:1527-1666 | after save and load each slot holds the same cred, the second of its last use and the delay that follows from it, or nothing exactly when there was none worth loading |
| `Restart.SeedLosesExactlyWithoutRoom` | pkg/proxy/creds.go:1333-1397 | planting a seed loses no cred if and only if there is room for the displaced one |
| `Restart.SeedKeepsDistinct` | pkg/proxy/creds.go:1333-1397 | distinct creds stay distinct |
| `Restart.RestartConserves` | pkg/proxy/creds.go:1333-1666 | save, pick, load, seed: creds stay distinct and every loaded cred survives |
| `Restart.ShrunkPoolLosesCred` | pkg/proxy/creds.go:1387-1396 | from three slots to two, with the pick's slot outside the new pool, a loaded cred is lost |
| `Restart.NoEarlyReuse` | pkg/proxy/creds.go:1550-1664 | a cred in use at the save, or last used before it, is fresh nowhere after the restart until ten minutes after the second of that use, by load or by seed |
| `Restart.ReusedInTime` | pkg/proxy/creds.go:1580-1600 | and from then on it is, exactly while it has its buffer |
| `Restart.FirstConnGetsSeed` | pkg/proxy/creds.go:1353-1357 | the seed is in slot 0 as given, and the first conns are granted it without a fetch |
| `Restart.DisplacedToFirstVacant` | pkg/proxy/creds.go:1387-1396 | seeding another slot moves its cred to slot 0 if that holds none |
| `Restart.SeedSize` | pkg/proxy/creds.go:1340-1342 | seeding makes room for its slot and no more |
| `RelayDiscovery.LinkIdOfUrl` | pkg/proxy/creds_vkcookie.go:118-128 | the id is extracted from a join URL with or without a query, for every id without separators |
| `RelayDiscovery.LinkIdOfUrlWithSlash` | pkg/proxy/creds_vkcookie.go:123-123 | a trailing slash does not matter |
| `RelayDiscovery.Discovery.Publish` | pkg/proxy/creds_vkcookie.go:91-101 | the settings are stored, the cookie trimmed, the fatal latch cleared, and the links are the non-empty ids in order |
| `RelayDiscovery.Discovery.Clear` | pkg/proxy/creds_vkcookie.go:102-107 | cache, relays and discovery are forgotten |
| `RelayDiscovery.StaleIff` | pkg/proxy/creds_vkcookie.go:206-212 | a cred is stale exactly when less than thirty minutes are left of its expiry |
| `RelayDiscovery.Discovery.MintCached` | pkg/proxy/creds_vkcookie.go:190-201 | what is served from the cache has thirty minutes left or tells no expiry; otherwise, and only then, it is minted, and cached on success only |
| `RelayDiscovery.Discovery.Note` | pkg/proxy/creds_vkcookie.go:164-169 | list and seen-set equal the simple deduplication of everything offered |
| `RelayDiscovery.Discovery.Discover` | pkg/proxy/creds_vkcookie.go:157-170 | no link is minted beyond the first prefix that covers the slot, nor after a failure |
| `RelayDiscovery.Discovery.CredForSlot` | pkg/proxy/creds_vkcookie.go:139-186 | with the cookie and links read before the lock: the slot's relay with its link's current cred; exactly when each error is returned, a mint failure only when the last mint of the link at fault failed; what discovery added |
| `RelayDiscovery.SlotsGetDistinctRelays` | pkg/proxy/creds_vkcookie.go:130-138 | no two slots share a relay address |
| `RelayDiscovery.RelayIsFirstOffer` | pkg/proxy/creds_vkcookie.go:164-169 | each relay is the first offer of its address, link included |
| `RelayDiscovery.OrderPreserved` | pkg/proxy/creds_vkcookie.go:164-169 | relays keep the order of their first offers |
| `RelayDiscovery.RelayAddresses` | pkg/proxy/creds_vkcookie.go:157-170 | the relay addresses are exactly the non-empty ones handed out by links that answered |
| `RelayDiscovery.RelayWasProvided` | pkg/proxy/creds_vkcookie.go:157-186 | a mint of the relay's own link did hand out its address |
| `RelayDiscovery.SlotRelayIsStable` | pkg/proxy/creds_vkcookie.go:155-175 | over every run between reconfigurations a slot keeps its relay |
| `RelayDiscovery.LazyIsEager` | pkg/proxy/creds_vkcookie.go:155-175 | without failures lazy discovery gives each served slot the relay of eager discovery |
| `RelayDiscovery.FailedMintLosesRelaysIff` | pkg/proxy/creds_vkcookie.go:157-163 | relays are missing after full discovery exactly when a failed link had an address no other link handed out |
| `RelayReconfigure.CallIsDiscover` | pkg/proxy/creds_vkcookie.go:152-170 | the locked section of a call is a discovery step of the interleaving model |
| `RelayReconfigure.Reconfigure` | pkg/proxy/creds_vkcookie.go:91-108 | `SetVKCookieAuth` is a publish step and a clear step of that model |
| `RelayReconfigure.ReadSettings` | pkg/proxy/creds_vkcookie.go:140-147 | the reads before the lock are its read step |
| `RelayReconfigure.CredWith` | pkg/proxy/creds_vkcookie.go:148-186 | the rest of the call is its discovery step, whatever became of the settings |
| `RelayReconfigure.OnConfiguredIff` | pkg/proxy/creds_vkcookie.go:91-170 | over every interleaving of calls and reconfigurations the list holds configured links only, in order, if and only if no call discovers with links replaced since it read them |
| `RelayReconfigure.LateCall` | pkg/proxy/creds_vkcookie.go:140-158 | a late call puts an old link into the new list and the new link is never discovered |
| `SocksFraming.ReadSocksAddr` | cmd/vk-turn-socks/socks.go:311-344 | the address read, the bytes left, and what each error has consumed |
| `SocksFraming.ReadersAgree` | cmd/vk-turn-socks/socks.go:266-344 | the datagram parser accepts exactly what the stream reader reads, with equal host, port and rest |
| `SocksFraming.AcceptedIff` | cmd/vk-turn-socks/socks.go:266-307 | exactly which datagrams are accepted: no fragment, a known type, and no byte missing |
| `SocksFraming.ParseSplits` | cmd/vk-turn-socks/socks.go:266-307 | an accepted datagram is three bytes, header and payload, and the header encodes host and port |
| `SocksFraming.WorkedDatagrams` | cmd/vk-turn-socks/socks.go:266-307 | two datagrams written out byte by byte |
| `SocksFraming.EncodeParses` | cmd/vk-turn-socks/socks.go:266-307 | every valid host and port is parsed back from its encoding |
| `SocksFraming.ReplyRoundTrip` | cmd/vk-turn-socks/socks.go:224-228 | a reply framed with a request's header parses to that host, port, header and data |
| `UdpAssociation.UdpAssoc.Find` | cmd/vk-turn-socks/socks.go:169-180 | the first lock section of `getOrDial` is the lookup step of the interleaving model; a known target is returned, and a dial asked for exactly when there is none |
| `UdpAssociation.UdpAssoc.Insert` | cmd/vk-turn-socks/socks.go:191-206 | the second lock section is its keep step |
| `UdpAssociation.UdpAssoc.GetOrDial` | cmd/vk-turn-socks/socks.go:169-206 | the whole call is a run of the model, also with a `close` during the dial; it gives the known target, else the one dialed; a conn dialed for a closed association is closed |
| `UdpAssociation.UdpAssoc.RemoveTarget` | cmd/vk-turn-socks/socks.go:235-243 | the call is the read loop's exit step and its close step |
| `UdpAssociation.UdpAssoc.Close` | cmd/vk-turn-socks/socks.go:245-261 | the call is a run of the model; the first one empties the map and closes exactly the conns that were in it |
| `UdpAssociation.EveryConnAccountedFor` | cmd/vk-turn-socks/socks.go:146-261 | in every reachable state each dialed conn is mapped, owned by a running step, or closed; closed means an empty map |
| `UdpAssociation.MappedConnsAreOpen` | cmd/vk-turn-socks/socks.go:146-206 | in every reachable state a target in the map, which datagrams are written to, is open |
| `UdpAssociation.NoForeignTargetTouched` | cmd/vk-turn-socks/socks.go:208-243 | a read loop never removes a newer target, and keeping a conn never overwrites one |
| `UdpAssociation.AllClosedAtQuiescence` | cmd/vk-turn-socks/socks.go:245-261 | after `close`, with no step outstanding, no conn is open |
| `UdpAssociation.TeardownEnds` | cmd/vk-turn-socks/socks.go:208-261 | after `close` every effective step brings that state nearer |
| `X25519.DoubleOnCurve` | quick_link.py:295-307 | doubling is ((x^2 - z^2)^2, 4xz(x^2 + 486662xz + z^2)) modulo m: the curve is y^2 = x^3 + 486662x^2 + x |
| `X25519.AddOnCurve` | quick_link.py:300-305 | differential addition is (4(xp xq - zp zq)^2, 4 x1 (xp zq - zp xq)^2) modulo m |
| `X25519.AddCommutes` | quick_link.py:300-305 | the addition formula is symmetric in its points, modulo any m |
| `X25519.PrimeOfField` | quick_link.py:285-285 | the modulus is 2^255 - 19 |
| `X25519.ResultIsAffine` | quick_link.py:311-311 | the result times z is x modulo the prime, wherever z^(P-1) is 1 |
| `X25519.FieldStep` | quick_link.py:295-307 | the arithmetic of a step doubles one point and adds the other |
| `X25519.Ladder` | quick_link.py:284-310 | the deferred-swap loop ends with the pair of the branching ladder |
| `X25519.Compute` | quick_link.py:284-311 | the result is the branching ladder's and fits in 32 bytes |
| `X25519.LadderInvariant` | quick_link.py:288-307 | at each bit the pair stands for (n, n + 1), n being the prefix read, under every reading of points as multiples |
| `X25519.LadderMultipliesByScalar` | quick_link.py:284-311 | for every k < 2^255 the ladder's point stands for the k-th multiple |
| `X25519.Clamp` | quick_link.py:318-320 | the three masks, applied in place |
| `X25519.ClampedBits` | quick_link.py:318-320 | they clear the low three bits, set the top two to 01 and leave every other bit |
| `X25519.ClampedRange` | quick_link.py:318-320 | a clamped key is a multiple of 8 with its top bit at 254, so below 2^255 |
| `LinkCodec.ScanBase64` | cmd/vk-turn-socks/importcfg.go:150-163 | true exactly for 16 or more characters of either alphabet or padding |
| `LinkCodec.Alphabet` | quick_link.py:276-276 | the sixty-four symbols of RFC 4648, and the two that the URL-safe alphabet replaces |
| `LinkCodec.SameBits` | quick_link.py:276-276 | four symbols spell the same twenty-four bits as three bytes |
| `LinkCodec.LeftoverBitsZero` | quick_link.py:276-276 | the bits left over in the last symbol are zero |
| `LinkCodec.DecodesIff` | cmd/vk-turn-socks/importcfg.go:147-147 | exactly which texts the decoder accepts |
| `LinkCodec.OtherInputs` | cmd/vk-turn-socks/importcfg.go:103-128 | what is taken for a file, and that a link without data is an error |
| `LinkCodec.ForeignIsFile` | cmd/vk-turn-socks/importcfg.go:150-163 | a text with any character base64 does not use is a file |
| `LinkCodec.SpaceCodes` | cmd/vk-turn-socks/importcfg.go:99-99 | which characters are trimmed |
| `LinkCodec.LowerLetters` | cmd/vk-turn-socks/importcfg.go:100-100 | lowering takes each capital to its small letter and leaves the rest |
| `LinkCodec.SchemeIgnoresCase` | cmd/vk-turn-socks/importcfg.go:100-106 | the case of the scheme does not matter |
| `LinkCodec.LoadInput` | cmd/vk-turn-socks/importcfg.go:98-148 | the step-by-step importer finds the payload, the file or the error of the specification |
| `LinkCodec.FlexibleDecodes` | cmd/vk-turn-socks/importcfg.go:140-148 | every byte string is decoded from all four spellings: either alphabet, padded or not |
| `LinkCodec.LinkRoundTrip` | quick_link.py:267-277 | every payload survives the link, with any white space around it and any parameters after it |
| `LinkCodec.BarePayloadRoundTrip` | cmd/vk-turn-socks/importcfg.go:98-128 | a bare payload is decoded if it has 12 bytes or more and is taken for a file name otherwise |
| `SliderTiles.TilesCover` | pkg/proxy/captcha_slider.go:585-593 | every pixel lies in a tile, for every size and grid |
| `SliderTiles.TilesDisjoint` | pkg/proxy/captcha_slider.go:585-593 | no pixel lies in two |
| `SliderTiles.TilesInside` | pkg/proxy/captcha_slider.go:585-593 | tiles stay inside the image |
| `SliderTiles.NonEmptyTilesIff` | pkg/proxy/captcha_slider.go:585-593 | no tile is empty exactly when the image has a pixel per tile in both directions |
| `SliderTiles.TileSizes` | pkg/proxy/captcha_slider.go:585-593 | no tile is a whole pixel larger or smaller than its exact part of the image |
| `SliderTiles.TileMapping` | pkg/proxy/captcha_slider.go:562-583 | the swapped mapping, or exactly when each error is returned |
| `SliderTiles.SwapExchanges` | pkg/proxy/captcha_slider.go:575-581 | a further swap exchanges two places and leaves the others |
| `SliderTiles.SwapsPermute` | pkg/proxy/captcha_slider.go:571-583 | any swap list places every tile exactly once |
| `SliderTiles.SwapsUndone` | pkg/proxy/captcha_slider.go:571-583 | the reversed swaps restore the original |
| `SliderTiles.SampleInSource` | pkg/proxy/captcha_slider.go:730-742 | a sampled pixel lies in the source tile exactly when that tile is not empty |
| `SliderTiles.SampleScales` | pkg/proxy/captcha_slider.go:730-742 | the sample lies at the same part of the source tile, rounded down; at the same place between tiles of one size |
| `SliderTiles.SamplesStayInImage` | pkg/proxy/captcha_slider.go:700-742 | through any mapping sampling stays in the named tile and in the image |
| `SliderRanking.SortSorts` | pkg/proxy/captcha_slider.go:463-469 | the sort lists the same elements from least to greatest |
| `SliderRanking.SortedListUnique` | pkg/proxy/captcha_slider.go:463-469 | there is one sorted list, so the order does not depend on the algorithm |
| `SliderRanking.PositionIsRank` | pkg/proxy/captcha_slider.go:470-473 | a position in sorted order is the number of candidates that come before |
| `SliderRanking.Stage2IsPrefix` | pkg/proxy/captcha_slider.go:475-491 | the finalists are those that fewer than twelve others beat on luma |
| `SliderRanking.CandidateMapping` | pkg/proxy/captcha_slider.go:551-560 | candidate i + 1 is the image after its first i + 1 pairs of swaps |
| `SliderRanking.ScoreMeaning` | pkg/proxy/captcha_slider.go:519-528 | the score counts the candidates that beat it on luma and, among the best twelve, on colour and on text; otherwise the number of candidates is added |
| `SliderRanking.ConsensusScores` | pkg/proxy/captcha_slider.go:458-528 | the score of each candidate is its rank sum, defined by counting |
| `SliderRanking.RankCandidates` | pkg/proxy/captcha_slider.go:429-549 | all candidates once, sorted by consensus, luma and index, with steps and scores; a finalist first; when each error is returned |
| `SliderRanking.RankingMeaning` | pkg/proxy/captcha_slider.go:530-548 | the list has each index from 1 to n once, with its pairs of swaps and its score, ordered by score, then luma, then index |
| `SliderRanking.FirstInStage2` | pkg/proxy/captcha_slider.go:519-538 | the candidate tried first was scored on all three metrics |
| `SliderRanking.AllStepsGoodIff` | pkg/proxy/captcha_slider.go:445-456 | ranking succeeds exactly when the grid has tiles and every paired step names one |
| `Failover.AgentController.StartInternal` | VKTurnMenuBar/VKTurnMenuBar/AgentController.swift:133-195 | the whole new state of a start, with every guard |
| `Failover.AgentController.StopInternal` | VKTurnMenuBar/VKTurnMenuBar/AgentController.swift:199-208 | the request is noted and a delayed terminate scheduled |
| `Failover.AgentController.OnProcessExit` | VKTurnMenuBar/VKTurnMenuBar/AgentController.swift:216-254 | the process and what belonged to it are forgotten, the streaks kept |
| `Failover.AgentController.OnProbeResult` | VKTurnMenuBar/VKTurnMenuBar/AgentController.swift:460-489 | streaks, automatic stop and automatic start |
| `Failover.AgentController.Handle` | VKTurnMenuBar/VKTurnMenuBar/AgentController.swift:42-51 | every event of a trace is handled as the state machine says |
| `Failover.StreaksAreTrailingRuns` | VKTurnMenuBar/VKTurnMenuBar/AgentController.swift:435-489 | over every trace the counters are the trailing runs of delivered results since the last reset |
| `Failover.AutoModeIsLastSetting` | VKTurnMenuBar/VKTurnMenuBar/AgentController.swift:42-51 | auto mode is what it was last set to, and setting it resets the streaks |
| `Failover.DirectOkIsLastResult` | VKTurnMenuBar/VKTurnMenuBar/AgentController.swift:460-462 | the indicator is the last delivered result |
| `Failover.AutoStartIff` | VKTurnMenuBar/VKTurnMenuBar/AgentController.swift:475-488 | auto mode starts the tunnel exactly on a second consecutive failure with nothing running and a launch that works |
| `Failover.AutoStopIff` | VKTurnMenuBar/VKTurnMenuBar/AgentController.swift:463-474 | auto mode asks for a stop exactly on a third or later consecutive success of a tunnel it started itself |
| `Failover.AutoStopReasonMeans` | VKTurnMenuBar/VKTurnMenuBar/AgentController.swift:239-243 | the reason for the notice is set by auto mode's stop and lasts until the exit |
| `Failover.ManualStartIff` | VKTurnMenuBar/VKTurnMenuBar/AgentController.swift:131-195 | the user's start launches exactly when nothing runs and the launch can work, and is not auto mode's |
| `Failover.UserStopNoted` | VKTurnMenuBar/VKTurnMenuBar/AgentController.swift:197-214 | the user's stop is noted as asked for and schedules a terminate for what runs |
| `Failover.ExitForgetsProcess` | VKTurnMenuBar/VKTurnMenuBar/AgentController.swift:216-254 | an exit forgets the process and keeps streaks and pending terminates |
| `Failover.StartedByAutoMeans` | VKTurnMenuBar/VKTurnMenuBar/AgentController.swift:186-190 | the flag names the kind of event that launched the running process |
| `Failover.AutoStartsFarApart` | VKTurnMenuBar/VKTurnMenuBar/AgentController.swift:133-254 | automatic starts with no user stop or unrequested exit between them are at least five delivered results apart |
| `Failover.PendingSinceLaunch` | VKTurnMenuBar/VKTurnMenuBar/AgentController.swift:199-208 | while a process runs, what is pending is what was pending at its launch and has not fired, then requests about the process itself |
| `Failover.HitsAnotherIff` | VKTurnMenuBar/VKTurnMenuBar/AgentController.swift:199-208 | the next delayed terminate is foreign to the running process exactly while fewer have fired since its launch than were pending then |
| `Failover.AutoHitsManualIff` | VKTurnMenuBar/VKTurnMenuBar/AgentController.swift:199-208 | the next terminate for a tunnel started by hand is auto mode's exactly when the one pending at the launch in its place was |
| `Failover.ManualStartSafe` | VKTurnMenuBar/VKTurnMenuBar/AgentController.swift:131-135 | a tunnel started by hand with no stop of auto mode pending is never ended by one |
| `Failover.ManualStartAtRisk` | VKTurnMenuBar/VKTurnMenuBar/AgentController.swift:205-207 | one started while such a stop is pending can be |
| `Failover.AutoStopReachesManualTunnel` | VKTurnMenuBar/VKTurnMenuBar/AgentController.swift:205-207 | a trace from start-up in which it is |

## Left out

- The VK and OK HTTP flows, captcha solving, TLS and header profiles: a fetch or mint is an arbitrary result.
- JSON encoding and file replacement: the cache file is a version, a time and a sequence of entries.
- The fields that only feed logs and the user interface: fill timestamps, authentication-error counts, status lines, speeds, notifications.
- The cookie path's pool of two slots per link: the sizing argument of `Progress` is about `poolSizeForNumConns`.
- Seeding while conns are running, and a nil seed in the interleavings: the program seeds once, at start-up, with a cred.
- Wrap-around of a Unix time close to 2^63 seconds when it is turned into a Go time.
- Go's textual rendering of an IP address: hosts are kept as bytes.
- White space and case folding outside Latin-1 in an imported link, and what the importer does with the decoded JSON.
- Two reconfigurations of the cookie path at once: one publishes and clears before the next publishes.
- Elliptic-curve theory: the ladder is proved for every reading of points under which doubling doubles and adding neighbours adds.
- The pixel scores themselves and cursor paths: scores are arbitrary functions of a candidate's mapping, text scores real numbers without rounding.
- The cgo bridge, the TURN binding, the WireGuard device, the dialer and the HTTP proxy: thin layers over foreign code.
- Failover.AgentController.Handle: the application exit that follows a quit is not modelled, so a trace may go on after it.
- CredCache.LoadValidCred: the list of skip reasons it collects for the log is not modelled.
