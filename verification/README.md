# ntopng core: verified model

A Dafny model of the parts of ntopng whose correctness is not visible in any single
function: the top-k traffic tables and their double buffer, the lifecycle of hash
entries, lock-free publication of listening ports, deferred resets and split
counters, the bounded queues, the bitmap, the ARP matrix, the Community ID byte
string and the excursion counters of the smoothing forecaster.

`dafny verify dfyconfig.toml` checks everything.

## How it is organised

| module | what it is about |
|---|---|
| `Basics` | definitions the other modules share |
| `UtHashSort` | the merge sort that `HASH_SORT` runs, with the subtracting comparison `value_sort` |
| `TopItems` | the pruned frequency table as a function of a stream of observations |
| `TrafficSharing` | one writer and many readers sharing the working and the committed table |
| `FrequentTrafficItems` | the object itself, updated in place |
| `HashLifecycle` | every interleaving of adding, idling, using and deleting hash entries |
| `HashTables` | bucket chains, vectors and the order in which buckets are visited |
| `GenericHash` | the hash object: bucket chains, `purgeIdle`, `purgeQueuedIdleEntries` |
| `HashRefinement` | every call of that object is a run of the lifecycle's steps |
| `HashProgress` | ready entries leave the table within a bounded number of calls |
| `HashPurge` | what one call does to one entry, and how many buckets a scan walks |
| `HashCalls` | what every sequence of calls admits, keeps, and deletes |
| `ListeningPorts` | publication by atomic exchange, with a shadow slot and a clock |
| `PoolStats` | counters reset through a flag, one step at a time |
| `HostPools` | counters split into an inline and an offline half, loads and stores apart |
| `FifoQueue` | the bounded queue, its counters and batches |
| `CommunityId` | ordering of endpoints, ICMP pseudo-ports, layout of the hashed bytes |
| `Bitmap`, `BitmapHex` | a set in 64-bit words, its enumeration, its hexadecimal form |
| `ArpMatrix` | the hash on unordered address pairs whose lookup updates the element |
| `DesCounter` | run lengths of values out of the forecast range |

Code that computes is a function; objects updated in place are classes whose methods
are proved against functions on the object's value; code shared by threads is a state
machine with one action for each access to shared data, and its theorems quantify
over every run. In a class or a state, fields named as history (`log`, `accepted`,
`removed`, `deleted`, `freed`, `done`, `early`, `refused`, `start`, `requested`,
`shown`) record what happened and are never read by the modelled code.

## Where the code does less than one would expect

Each of these is stated exactly in the table below.

- `value_sort` subtracts unsigned 32-bit values and returns a signed result: it is
  right exactly when the difference fits, and otherwise not even transitive
  (`ValueSortExact`, `ValueSortCycles`). The sort is right for every order of the
  hash if and only if no two values are 2^31 or more apart (`HashSortExact`), and the
  heavy-hitter guarantee holds for every stream up to a given total if and only if
  that total is below 2^31: at exactly 2^31 a key with all of the traffic can be
  evicted (`GuaranteeExact`, `HeavyHitterLost`).
- `FrequentTrafficItems::reset` publishes the table before it saves the sum, and the
  saving is outside the mutex: a query in between divides by the previous interval's
  sum, which is zero after the first interval (`RatioDenominator`,
  `StaleDenominatorReachable`).
- `setListeningPorts` compares the caller's time, so the ten seconds run between the
  times passed in, not between the exchange and the deletion: a writer delayed by `d`
  seconds before its exchange leaves a reader `10 - d` seconds, and no more can be
  promised (`FreedTenSecondsLater`, `BoundIsTight`, `LagExact`). More than two objects are alive exactly while an update has built
  its object, has not yet deleted the shadow, and both the shadow and the published
  object exist; there are then three (`LiveObjects`, `ThreeObjectsReachable`).
- A forced purge on a running interface gets entries deleted that were never idle,
  exactly those detached before they were active and marked while the interface ran
  (`DeletedIdleExact`, `ForcedPurgeSkipsIdle`). `NetworkInterface::shutdown`, the one
  place that starts a forced purge, stops its own interface first, and on that
  interface every deleted entry was idle (`DeletedWereIdle`). It passes the force on to
  its sub-interfaces (src/NetworkInterface.cpp:2889-2891), each with a running flag of
  its own: when an interface is replaced at runtime (src/Ntop.cpp:6142) those are purged
  by force while they run. The size test admits one entry more than the
  limit (`PopulationBound`, `PopulationExceeds`).
- The Community ID buffer writes an address of another family than the first one's as
  zeros. It tells a flow's protocol and ordered endpoints apart from every other
  flow's if and only if no address that is written as zeros stands where another
  address would be written so too (`BufferExact`, `BufferInjective`). With one IPv4
  and one IPv6 endpoint one address is always lost (`MixedFamilyCollides`); one-way
  ICMP keeps its direction (`DirectionIndependent`).
- `HostPools` reads its two halves one after the other, in an order C++ leaves open: in
  between, a pool that always had zero or one member can be reported as -1
  (`SplitRead`, `SplitReadNegative`).
- `fillPct` reads two counters without the lock and subtracts them unsigned. If the
  number accepted is read first, it wraps around exactly when more was removed by the
  second read than had been accepted at the first (`PendingExact`, `PendingWraps`); if
  it is read last, the level can only be too high (`PendingOtherOrder`).
- The loop over `Bitmap::getNext` ends exactly when every member is below 65535: the
  argument is 16 bits wide (`EnumerationEnds`).
- The ARP matrix discards the counters when a first sender shows up as source of an
  element whose source address was unset, but not for a first sender as destination
  (`DiscardExact`, `UnsetSourceDiscards`). For a pair of equal addresses the direction
  is always forward (`BothWays`).
- `DESCounter::resetStats` leaves the anomaly flag as it was (`ResetKeepsVerdict`).

## Model

| member | source | states |
|---|---|---|
| `UtHashSort.ValueSortExact` | attic/FrequentTrafficItems.cpp:87-89 | the comparison orders two 32-bit values by decreasing value if and only if their difference fits a signed 32-bit integer |
| `UtHashSort.ValueSortCycles` | attic/FrequentTrafficItems.cpp:87-89 | beyond that range three values each come before the next, so the comparison is no order |
| `UtHashSort.HashSortPermutes` | third-party/uthash.h:844-929 | the sort keeps every node, whatever the values and however inconsistent the comparison |
| `UtHashSort.HashSortDescends` | third-party/uthash.h:844-929 | the bottom-up merge sort yields decreasing values when all values lie in a window of width 2^31 |
| `UtHashSort.HashSortExact` | third-party/uthash.h:844-929 | for 32-bit values the sort is right for every order of the nodes if and only if no two values are 2^31 or more apart |
| `UtHashSort.FirstPairStays` | third-party/uthash.h:870-914 | a pair that the comparison keeps in place comes out in that order when it stands first, whatever follows |
| `UtHashSort.HashSortInOrder` | third-party/uthash.h:844-929 | a list whose every pair the comparison accepts comes out unchanged |
| `UtHashSort.HashSrt` | third-party/uthash.h:844-929 | the loops over list positions compute the recursive merge sort |
| `UtHashSort.MergeRuns` | third-party/uthash.h:854-919 | one outer turn is one merge pass, and it counts at most one merge exactly when the list fits two runs |
| `UtHashSort.MergeAdjacent` | third-party/uthash.h:859-915 | finds the second run and appends the merge of the two runs |
| `UtHashSort.MergeTwo` | third-party/uthash.h:870-914 | the innermost loop merges two adjacent runs, stopping at the second run's length or the end of the list |
| `TopItems.HeavyKeySurvivesPrune` | attic/FrequentTrafficItems.cpp:156-172 | a key dropped by a prune had at most a 1/(max_items+1) share of the stored values, wherever the window of values lies; a kept key keeps its value |
| `TopItems.TableSizeBound` | attic/FrequentTrafficItems.cpp:25-61 | over every stream the table holds at most 2 max_items + 1 keys, or one more than max_items where the doubled limit wraps around 32 bits |
| `TopItems.Conservation` | attic/FrequentTrafficItems.cpp:51-83 | keys stay distinct and what was added equals what is stored plus what was evicted |
| `TopItems.StoredSinceInsertion` | attic/FrequentTrafficItems.cpp:51-83 | a stored value is exactly what was added since the key's latest insertion, which is named |
| `TopItems.SumModulo` | attic/FrequentTrafficItems.cpp:80-83 | for every stream, without a bound, the sum is the stream's total modulo 2^32 and the latest observation's key is in the table |
| `TopItems.StoredModulo` | attic/FrequentTrafficItems.cpp:51-83 | for every stream, without a bound, a stored value is what was added since the key's latest insertion, modulo 2^32 |
| `TopItems.NeverOverestimates` | attic/FrequentNumericItems.cpp:47-95 | no stored value exceeds the key's true total |
| `TopItems.UndercountBound` | attic/FrequentTrafficItems.cpp:51-172 | a key loses at most a 1/(max_items+1) share of the total each time it is evicted |
| `TopItems.UndercountInStream` | attic/FrequentTrafficItems.cpp:51-172 | in terms of the stream alone: of n observations a key loses at most an n/(max_items+1)^2 share of the total |
| `TopItems.PrunesAreRare` | attic/FrequentTrafficItems.cpp:58-59 | prunes times max_items + 1, plus the table size, never exceed the number of observations |
| `TopItems.HeavyHittersExact` | attic/FrequentTrafficItems.cpp:51-172 | a key above its share whenever the table prunes is counted exactly over the whole interval, up to a total of 2^31 |
| `TopItems.TwoNodeSortExact` | attic/FrequentTrafficItems.cpp:87-89 | a table of two nodes is sorted right if and only if the difference fits |
| `TopItems.HeavyHitterLost` | attic/FrequentTrafficItems.cpp:51-172 | for every max_items of at least one, a stream of total 2^31 in which one key has all of the traffic, is heavy at every prune, and is evicted |
| `TopItems.GuaranteeExact` | attic/FrequentTrafficItems.cpp:51-172 | the heavy-hitter guarantee, and likewise the undercount bound, holds for every stream of total at most B if and only if B is below 2^31 |
| `TrafficSharing.EveryRunKeepsInv` | attic/FrequentTrafficItems.cpp:176-187 | in every interleaving of writer steps and queries nodes have one owner, the committed table is the outcome of one whole interval and the sums follow the writer's progress |
| `TrafficSharing.HistoryExact` | attic/FrequentTrafficItems.cpp:176-187 | the current and the published interval are the observations of the run since the last completed reset and before the last publishing |
| `TrafficSharing.NodesHaveOneOwner` | attic/FrequentTrafficItems.cpp:33-47 | no node is freed twice, no freed node is in a table, and the tables share no node except between publishing and clearing |
| `TrafficSharing.SnapshotIsolation` | attic/FrequentTrafficItems.cpp:176-187 | in every run, from one publishing to the next the committed table is, as key and value pairs, the working table that was published |
| `TrafficSharing.QueriedIsSorted` | attic/FrequentTrafficItems.cpp:93-113 | a query leaves the published nodes in decreasing order of value, in every run whose published interval has a total below 2^31 |
| `TrafficSharing.PublishedHeavyHittersExact` | attic/FrequentTrafficItems.h:45-49 | in every run, any table a reader can see counts its interval's heavy hitters exactly |
| `TrafficSharing.PublishedUndercount` | attic/FrequentTrafficItems.h:45-49 | in every run, any table a reader can see overcounts no key and undercounts each by no more than the stream bound |
| `TrafficSharing.RatioDenominator` | attic/FrequentTrafficItems.cpp:93-113 | the ratio divides by the shown interval's sum if and only if the writer is not between publishing and saving, or both sums agree |
| `TrafficSharing.StaleDenominatorReachable` | attic/FrequentTrafficItems.cpp:176-187 | a two-step run after which a query divides by zero |
| `FrequentTrafficItems.FrequentTrafficItems.constructor` | attic/FrequentTrafficItems.cpp:25-29 | starts as the table of an empty interval, nothing committed, nothing freed |
| `FrequentTrafficItems.FrequentTrafficItems.Find` | attic/FrequentTrafficItems.cpp:55-55 | the position of the key's node, or the end |
| `FrequentTrafficItems.FrequentTrafficItems.PruneTable` | attic/FrequentTrafficItems.cpp:156-172 | the deleting walk leaves exactly the sorted prefix and frees exactly the rest, in order |
| `FrequentTrafficItems.FrequentTrafficItems.AddGeneric` | attic/FrequentTrafficItems.cpp:51-69 | finds the key's node or appends one, pruning first when over the threshold; names what is freed |
| `FrequentTrafficItems.FrequentTrafficItems.AddValue` | attic/FrequentTrafficItems.cpp:80-83 | adding updates node and sum as the table function does, 32-bit wrap-around included |
| `FrequentTrafficItems.FrequentTrafficItems.AddPoolProtocol` | attic/FrequentTrafficItems.cpp:73-83 | is one observation of the pool and protocol key |
| `FrequentTrafficItems.FrequentTrafficItems.AddMacProtocol` | attic/FrequentTrafficItems.cpp:117-127 | is one observation of the MAC and protocol key |
| `FrequentTrafficItems.FrequentTrafficItems.Reset` | attic/FrequentTrafficItems.cpp:176-187 | is the sharing protocol's four writer steps in a row |
| `FrequentTrafficItems.FrequentTrafficItems.Cleanup` | attic/FrequentTrafficItems.cpp:40-47 | frees every committed node once, in order |
| `HashLifecycle.EveryStateInv` | src/GenericHash.cpp:134-497 | every state of every interleaving satisfies the lifecycle invariant |
| `HashLifecycle.OneOwner` | include/GenericHash.h:62-75 | every entry ever added is in exactly one of table, shadow, idle, swept, in-use and deleted |
| `HashLifecycle.IdleCounters` | src/GenericHash.cpp:501-504 | idle transitions minus purged never goes negative and is the number of waiting entries whenever no move is half counted |
| `HashLifecycle.PopulationBound` | src/GenericHash.cpp:508-518 | table and waiting entries together never exceed the limit by more than one |
| `HashLifecycle.PopulationExceeds` | src/GenericHash.cpp:508-518 | for every limit a run exceeds it by that one |
| `HashLifecycle.DeletedStaysUnused` | src/GenericHash.cpp:170-244 | a deleted entry has no uses then or ever after and is in no list |
| `HashLifecycle.RefusalExact` | src/GenericHashEntry.cpp:68-88 | the idle transition is refused if and only if the interface runs and the entry was detached before it was active |
| `HashLifecycle.SetStateExact` | src/GenericHashEntry.cpp:68-88 | lists the accepted transitions one by one; any other is refused while the interface runs |
| `HashLifecycle.PromoteExact` | src/GenericHashEntry.cpp:68-88 | in every run, while the interface runs, an update never lowers a state, takes each single step ahead, and skips states only from allocated: to detected, or to active for collected flows |
| `HashLifecycle.UncheckedChanges` | include/GenericHashEntry.h:200-206 | an entry put back is allocated whatever it was, and a stopped interface stays stopped |
| `HashLifecycle.StatesAdvance` | include/GenericHashEntry.h:36-77 | in every run, while the interface runs, the state of an entry that is not put back to allocated only grows |
| `HashLifecycle.IdleWasActive` | include/GenericHashEntry.h:36-77 | in every run, while the interface runs, an idle entry was active before |
| `HashLifecycle.UsesExact` | include/GenericHashEntry.h:249-251 | in every run an entry's use count is the uses taken less the uses returned, and these are equal once it is deleted |
| `HashLifecycle.DeletedWereIdle` | src/NetworkInterface.cpp:4475-4482 | if forced purges begin only after the interface has stopped, every deleted entry was idle |
| `HashLifecycle.DeletedIdleExact` | include/GenericHashEntry.h:36-77 | a deleted entry was never idle if and only if it was detached before it was active and then marked while the interface ran |
| `HashLifecycle.ForcedPurgeSkipsIdle` | src/GenericHash.cpp:412-447 | a run, through hand-over and sweep, in which a forced purge on a running interface gets an entry deleted that is still only allocated |
| `GenericHash.GenericHash.constructor` | src/GenericHash.cpp:26-66 | empty chains, the cursor on the last bucket, 30% more room than asked for, the visit limit and the purge step |
| `GenericHash.GenericHash.AddEntry` | src/GenericHash.cpp:134-166 | pushes at the head of the key's bucket if and only if there is room |
| `GenericHash.GenericHash.ScanBuckets` | src/GenericHash.cpp:371-462 | the bucket loop visits buckets round robin from the cursor, keeps the size counter and leaves the cursor at the last bucket |
| `GenericHash.GenericHash.HandOver` | src/GenericHash.cpp:346-356 | the shadow vector is handed over, and a new one begun, only when the last one has been taken |
| `GenericHash.GenericHash.PurgeIdle` | src/GenericHash.cpp:332-497 | hands over, scans and marks exactly the entries detached by this call; housekeeping may end detections and take uses |
| `GenericHash.GenericHash.MarkDetached` | src/GenericHash.cpp:472-484 | the entries after the old end of the shadow vector become idle, are housekept once more and counted |
| `GenericHash.GenericHash.PurgeQueuedIdleEntries` | src/GenericHash.cpp:170-244 | deletes exactly the unused of the queued and parked entries, parks the others, and counts the deletions |
| `GenericHash.Scan` | src/GenericHash.cpp:371-462 | the paced loop equals the stated number of visits and moves entries without losing any |
| `GenericHash.VisitBucket` | src/GenericHash.cpp:387-461 | one visit equals the split of the chain, or nothing when the lock is taken |
| `GenericHash.VisitChain` | src/GenericHash.cpp:394-458 | unlinking along the chain leaves exactly the staying entries in order and detaches the others |
| `GenericHash.Sweep` | src/GenericHash.cpp:179-232 | splits a vector into the unused and the used entries, in order |
| `GenericHash.MarkAll` | src/GenericHash.cpp:472-484 | sends each detached entry to idle once and adds the uses its last housekeeping takes |
| `GenericHash.BucketAfterVisits` | src/GenericHash.cpp:371-462 | after any number of visits a bucket whose turn came, and whose lock was free, holds exactly its staying entries; any other is untouched |
| `GenericHash.StayingExact` | src/GenericHash.cpp:404-454 | a visited entry leaves if and only if it is not idle and either the purge is forced or it is active and ready; otherwise it stays |
| `GenericHash.VisitedBucketExact` | src/GenericHash.cpp:404-454 | in a bucket reached with its lock free, exactly the entries that are not idle leave if the purge is forced, and exactly the active and ready ones otherwise |
| `GenericHash.FullScanExact` | include/GenericHash.h:152-161 | a full scan with all locks free leaves in the table exactly the idle entries and, unless forced, those not both active and ready, wherever the cursor was |
| `GenericHash.ScanProgress` | src/GenericHash.cpp:373-385 | every scan visits at least one bucket |
| `HashTables.TurnExact` | src/GenericHash.cpp:371-385 | buckets come up one after the other from the one after the cursor, each once in a round |
| `HashProgress.ReadyEntryLeaves` | src/GenericHash.cpp:371-462 | along every sequence of calls, an active entry that stays ready, in a bucket not busy when scanned, has left the table after num_hashes calls of `purgeIdle` |
| `HashPurge.PurgedEntry` | src/GenericHash.cpp:394-484 | where an entry of the table is after a call of `purgeIdle`, in which state, and how many uses housekeeping has taken of it |
| `HashPurge.PurgedQueuedExact` | src/GenericHash.cpp:170-244 | a queued or parked entry is deleted if it has no uses and parked otherwise, the deletions are counted, nothing else changes |
| `HashPurge.PaceExact` | src/GenericHash.cpp:371-385 | a scan that is not full stops after the least number of buckets with enough entries walked, counted on the table as the scan found it |
| `HashCalls.AddExact` | src/GenericHash.cpp:134-166 | along every sequence of calls an entry is admitted if and only if the entries in and waiting outside the table are within the limit and not more than 5000, and more than in the table, wait; it is then at the head of its key's bucket, with its first state and no uses |
| `HashCalls.NewestFirst` | src/GenericHash.cpp:134-166 | along every sequence of calls each bucket holds its entries in the reverse of the order they were added in |
| `HashCalls.EntryInItsBucket` | src/GenericHash.cpp:134-136 | along every sequence of calls an entry is only in the bucket of the key it was added under |
| `HashCalls.EntryStaysIn` | src/GenericHash.cpp:404-454 | along every sequence of calls an entry that no purge finds active and ready in a free bucket, and no forced purge reaches, stays in its bucket |
| `HashCalls.DetachedEntryDeleted` | src/GenericHash.cpp:170-356 | an entry that left the table is deleted after a `purgeQueuedIdleEntries`, a `purgeIdle` and a `purgeQueuedIdleEntries`, with any calls in between, if it has no uses at the last |
| `HashCalls.ReadyEntryDeleted` | src/GenericHash.cpp:170-462 | an active entry that stays ready in a bucket not busy is deleted after num_hashes calls of `purgeIdle` and those three calls |
| `HashTables.SplitCounts` | src/GenericHash.cpp:179-232 | the split is a partition of the vector by use count |
| `HashRefinement.PurgeQueuedRefines` | src/GenericHash.cpp:170-244 | a call of `purgeQueuedIdleEntries` is a run of the purging thread's steps |
| `HashRefinement.PurgeIdleRefines` | src/GenericHash.cpp:332-497 | a call of `purgeIdle`, with any cursor, pacing, busy buckets, readiness, detections and uses taken by housekeeping, is a run of the inline thread's steps |
| `HashRefinement.AddRefines` | src/GenericHash.cpp:134-166 | a successful `add` is the machine's step and keeps every entry in one chain position |
| `HashTables.SizeIsPopulation` | src/GenericHash.cpp:508-518 | the size counter is the number of different entries in the table |
| `HashRefinement.EveryCallSequence` | src/GenericHash.cpp:134-518 | whatever calls are made on a new object, and whatever happens to its entries in between, its fields are a state the machine reaches, so entries have one place, used entries are not deleted, and counters and size bound hold |
| `ListeningPorts.EveryStateInv` | include/Host.h:901-912 | every state of every run of one writer, readers and a clock satisfies the publication invariant |
| `ListeningPorts.FreedTenSecondsLater` | include/Host.h:901-912 | the call freeing an object has a time at least 10 s after that of the call displacing it; on the clock, 10 s less the displacing call's delay |
| `ListeningPorts.RecordsExact` | include/Host.h:901-912 | what is recorded of an object is the exchange that displaced it and the deletion that freed it, with the times passed to those calls and the clock |
| `ListeningPorts.DeletionFollowsExchange` | include/Host.h:901-912 | in terms of the actions alone, every deletion follows the exchange that displaced the object, by ten seconds or more between the times passed in, and by as much less on the clock as that call waited |
| `ListeningPorts.ReaderHasTime` | include/Host.h:901-912 | a reader finds its object freed only 10 s, less that delay, after loading it |
| `ListeningPorts.FreedOnce` | include/Host.h:901-912 | over every run the log of deletions names no object twice, and names exactly the freed objects |
| `ListeningPorts.OnlyDisplacedIsDeleted` | include/Host.h:909-909 | every deletion is of an object that was displaced and not deleted before |
| `ListeningPorts.FreedForGood` | include/Host.h:901-912 | a freed object keeps its record for the rest of the run |
| `ListeningPorts.LiveObjects` | include/Host.h:901-912 | the live objects are exactly the published one, the shadow until deleted and the one being built; more than two, and then three, if and only if an update has built its object, not yet deleted the shadow, and both pointers are set |
| `ListeningPorts.ThreeObjectsReachable` | include/Host.h:901-912 | a run that has three live objects |
| `ListeningPorts.BoundIsTight` | include/Host.h:901-912 | for every delay up to 10 s a run frees a reader's object exactly 10 s minus the delay after it was loaded |
| `ListeningPorts.LagExact` | include/Host.h:901-912 | every run whose exchanges lag their call by at most d seconds frees objects at least g seconds after displacing them if and only if d + g is at most ten |
| `ListeningPorts.UndisturbedCall` | include/Host.h:901-912 | an accepted call that nothing interrupts is five steps of the machine: publishes the new object, makes the displaced one the shadow and frees exactly the old shadow |
| `ListeningPorts.RefusedCall` | include/Host.h:902-905 | a call that is too early or gets no memory changes nothing |
| `ListeningPorts.Host.SetListeningPorts` | include/Host.h:901-912 | an early call or a failed allocation changes nothing; otherwise the old shadow is freed and the displaced object becomes the shadow; nothing is ever freed twice or still named once freed |
| `ListeningPorts.Host.constructor` | src/Host.cpp:298-299 | nothing published, nothing freed |
| `PoolStats.EveryRunKeepsInv` | include/HostPoolStats.h:113-125 | in every run of counting, requests and check steps, parts not yet reset hold the traffic since the last reset and parts already reset hold nothing |
| `PoolStats.CountersExact` | include/HostPoolStats.h:60-80 | outside a check each protocol holds the volume of its own traffic since the last reset and the total that of all traffic; cross-protocol total, sum over protocols and directional traffic agree |
| `PoolStats.HistoryExact` | include/HostPoolStats.h:113-125 | the traffic recorded is that of the run, and a reset is completed by the last step of a check and nothing else |
| `PoolStats.TimesExact` | src/ProtoCounter.cpp:190-201 | outside a check each counter's duration is one housekeeping period for each period begun by its own traffic since the last reset, and its update time is when the latest began |
| `PoolStats.DurationExact` | src/ProtoCounter.cpp:190-201 | for traffic in order of time the duration never exceeds the time passed since the last update, and the update time is less than a period behind |
| `PoolStats.ResetTakesEffect` | include/HostPoolStats.h:113-125 | a request landing anywhere, also between the steps of a check, has all earlier traffic erased once the next check completes |
| `PoolStats.NothingErasedUnasked` | include/HostPoolStats.h:117-125 | without a request no check removes anything |
| `PoolStats.UndisturbedCheck` | include/HostPoolStats.h:117-125 | the five steps of a check in a row are an immediate reset |
| `PoolStats.OtherThreadBreaksReset` | include/HostPoolStats.h:116-125 | if another thread counts inside a check, totals disagree, or traffic outlives a later request |
| `PoolStats.HostPoolStats.constructor` | src/HostPoolStats.cpp:26-39 | starts blank and balanced, with both times at the time given |
| `PoolStats.HostPoolStats.UpdateSeen` | src/HostPoolStats.cpp:43-47 | keeps the first time at or before the last, zero meaning unset |
| `PoolStats.HostPoolStats.IncStats` | include/HostPoolStats.h:60-80 | counts into both directions, the traffic's own protocol and the total, and keeps the three totals equal |
| `PoolStats.HostPoolStats.ResetStats` | include/HostPoolStats.h:113-114 | only raises the flag |
| `PoolStats.HostPoolStats.CheckStatsReset` | include/HostPoolStats.h:116-125 | applies a pending request like the five protocol steps, zeroing and not removing counters; otherwise changes nothing |
| `PoolStats.HostPoolStats.GetStats` | include/HostPoolStats.h:89-95 | reports the bytes of all traffic since the last reset and the periods it covers; without the total object the caller's values stay |
| `PoolStats.HostPoolStats.GetProtoStats` | include/HostPoolStats.h:97-101 | the bytes of the protocol's own traffic since the last reset, never more than the pool's, and the periods it covers |
| `HostPools.EveryRunKeepsInv` | include/HostPools.h:68-73 | if updates of one counter never overlap, each counter is the net of its completed updates in two's complement |
| `HostPools.CountExact` | include/HostPools.h:94-104 | inline plus offline is joins minus leaves in every interleaving, although single counters may be negative or wrap; exact if and only if the membership fits 32 bits |
| `HostPools.NothingLost` | include/HostPools.h:68-73 | in every interleaving, for each counter, what is completed and what is in flight is what the calls asked for |
| `HostPools.QuietCountExact` | include/HostPools.h:94-121 | whenever no update is in flight the count is the joins minus the leaves of all calls made, whichever thread made them |
| `HostPools.OwnArraysAreExclusive` | include/HostPools.h:106-121 | with one inline and one offline thread updates of one counter never overlap |
| `HostPools.SharedArrayLosesJoin` | include/HostPools.h:68-73 | with one array for two threads a join is lost |
| `HostPools.SplitRead` | include/HostPools.h:94-104 | a read spread over two moments, in either order, is off by exactly what was done in between to the counter loaded second |
| `HostPools.SplitReadNegative` | include/HostPools.h:94-97 | such a read, in either order, can report -1 although the membership is zero or one all along |
| `HostPools.HostPools.constructor` | src/HostPools.cpp:80-88 | all counters zero |
| `HostPools.HostPools.IncNumMembers` | include/HostPools.h:68-70 | records a join in the chosen array; a pool beyond the table changes nothing |
| `HostPools.HostPools.DecNumMembers` | include/HostPools.h:71-73 | records a leave in the chosen array |
| `HostPools.HostPools.GetNumMembers` | include/HostPools.h:94-104 | joins minus leaves over both arrays, and the no-pool value beyond the table |
| `FifoQueue.RunExact` | include/FifoQueue.h:46-85 | over every run accepted items are the removed ones followed by the contents, the length is the counters' difference and within the limit, and every attempt is accepted or refused |
| `FifoQueue.RefusedIffFull` | include/FifoQueue.h:46-66 | an item is refused if and only if the queue is full |
| `FifoQueue.RemovedInOrder` | include/FifoQueue.h:68-82 | removed items are a growing prefix of the accepted ones |
| `FifoQueue.TakeExact` | include/AlertFifoQueue.h:40-53 | after every run a removal takes the oldest item left, a batch as many of them as the output has room for, and nothing else changes |
| `FifoQueue.BatchIsRepeatedDequeue` | include/CHTSPointFifoQueue.h:41-53 | a batch equals as many single removals as the output has room for |
| `FifoQueue.PendingExact` | include/FifoQueue.h:87-91 | with the number accepted read first, the unlocked fill level is the length less what was accepted in between, and wraps around if and only if more was removed than had been accepted |
| `FifoQueue.PendingOtherOrder` | include/FifoQueue.h:87-91 | with the number accepted read last, the level is the length plus what went through in between, and above the limit exactly when that exceeds the room there was |
| `FifoQueue.PendingWraps` | include/FifoQueue.h:87-91 | one item accepted and removed between the reads makes it wrap |
| `FifoQueue.FifoQueue.constructor` | include/FifoQueue.h:36-39 | empty, all counters zero |
| `FifoQueue.FifoQueue.Enqueue` | include/FifoQueue.h:46-66 | accepts if and only if there is room, and counts either way |
| `FifoQueue.FifoQueue.Dequeue` | include/AlertFifoQueue.h:40-53 | returns the oldest item not yet removed, or nothing |
| `FifoQueue.FifoQueue.DequeueBatch` | include/CHTSPointFifoQueue.h:41-53 | appends the oldest items to what the output held, stops at the row limit or when empty, and returns the output's size |
| `CommunityId.DirectionIndependent` | attic/CommunityIdFlowHash.cpp:186-241 | exchanging client and server, with ICMP types answered, keeps the bytes if and only if the flow is two-way or its addresses are written alike |
| `CommunityId.SortForgetsDirection` | attic/CommunityIdFlowHash.cpp:142-153 | ordering the endpoints forgets which was the client |
| `CommunityId.SortedEqual` | attic/CommunityIdFlowHash.cpp:126-153 | ordered endpoints are equal if and only if the pairs are, up to exchange |
| `CommunityId.PairsAreMutual` | attic/CommunityIdFlowHash.cpp:50-119 | the answering ICMP type is answered by the type itself |
| `CommunityId.CompareOrders` | src/IpAddress.cpp:207-229 | the address comparison is antisymmetric and zero only on equal addresses |
| `CommunityId.BufferLength` | attic/CommunityIdFlowHash.cpp:174-241 | the used length is 12, 16, 36 or 40 by family and presence of ports |
| `CommunityId.AnswersExact` | attic/CommunityIdFlowHash.cpp:50-119 | the pairs of answering ICMP types, by number |
| `CommunityId.PseudoPortsExact` | attic/CommunityIdFlowHash.cpp:186-207 | the ports of TCP, UDP and SCTP; for ICMP the type and the answering type, or the code if no type answers; otherwise zeros |
| `CommunityId.OrderedExact` | attic/CommunityIdFlowHash.cpp:126-153 | a one-way message keeps the client first; otherwise version, then the lower address, then the lower port comes first |
| `CommunityId.MemCmpIsNumeric` | src/IpAddress.cpp:207-229 | comparing blocks of bytes compares the numbers they stand for |
| `CommunityId.BufferBytes` | attic/CommunityIdFlowHash.cpp:209-241 | every part of the bytes read in base 256: seed, ordered addresses, protocol, padding, and both ports for exactly the five protocols |
| `CommunityId.FlowOnTheWire` | attic/CommunityIdFlowHash.cpp:160-241 | the bytes of a flow with ports between addresses of one version hold the two endpoints, lower address first, then lower port, or client first if one-way |
| `CommunityId.BufferInjective` | attic/CommunityIdFlowHash.cpp:209-241 | a buffer tells protocol and ordered endpoints apart from those of every other flow if and only if its own ordered endpoints are not ambiguous |
| `CommunityId.BufferExact` | attic/CommunityIdFlowHash.cpp:209-241 | any two flows of any families have equal bytes if and only if they agree on the protocol and on what is written of the ordered endpoints |
| `CommunityId.Collision` | attic/CommunityIdFlowHash.cpp:214-222 | for every ambiguous flow, a flow between other endpoints with the same bytes |
| `CommunityId.PortFlowsCollide` | attic/CommunityIdFlowHash.cpp:186-241 | for TCP, UDP and SCTP equal bytes mean the same conversation in either direction, for a flow that is not ambiguous against any flow, and between any two same-family flows |
| `CommunityId.IcmpFlowsCollide` | attic/CommunityIdFlowHash.cpp:50-119 | for ICMP, likewise, equal bytes mean the same message, or its answer the other way for two-way types |
| `CommunityId.MixedFamilyCollides` | attic/CommunityIdFlowHash.cpp:214-222 | with one address of each version, in either order, the lost address can be replaced by any other of its version: same bytes, different endpoints |
| `CommunityId.MixedFamilyIsAmbiguous` | attic/CommunityIdFlowHash.cpp:214-222 | every mixed-family flow is ambiguous |
| `CommunityId.BufCopy` | attic/CommunityIdFlowHash.cpp:33-43 | copies, or zeroes without a source, and touches nothing else |
| `CommunityId.FillBuffer` | attic/CommunityIdFlowHash.cpp:160-241 | the 40 allocated bytes are never exceeded and hold the specified byte string, its ports in network byte order |
| `Bitmap.EqualIffSameElements` | include/Bitmap.h:103-105 | word arrays are equal if and only if they hold the same set |
| `Bitmap.BitmapGetNext` | src/Utils.cpp:5423-5434 | the least set bit at or after the start, or -1 if there is none |
| `Bitmap.Bitmap.constructor` | include/Bitmap.h:38-46 | the empty set |
| `Bitmap.Bitmap.SetBit` | include/Bitmap.h:48-52 | adds the id when it is in range |
| `Bitmap.Bitmap.ClearBit` | include/Bitmap.h:66-70 | removes the id |
| `Bitmap.Bitmap.IsSetBit` | include/Bitmap.h:72-77 | membership |
| `Bitmap.Bitmap.GetNext` | include/Bitmap.h:79-93 | the least element at or after the start, or -1 if there is none |
| `Bitmap.Bitmap.Enumerate` | src/Ntop.cpp:2480-2486 | the client loop, on the sets it ends on, visits exactly the set in increasing order |
| `Bitmap.EnumerationEnds` | src/Ntop.cpp:2480-2486 | the client loop ends if and only if every member is below 65535 |
| `Bitmap.Bitmap.BitmapOr` | include/Bitmap.h:95-99 | set union |
| `Bitmap.Bitmap.Equal` | include/Bitmap.h:103-105 | set equality |
| `BitmapHex.PrintHex` | include/Bitmap.h:119-149 | the printing loop, cut short by a small buffer, and the stripping give the specified string |
| `BitmapHex.StripZeros` | include/Bitmap.h:133-146 | removes leading zero bytes but not the last byte |
| `BitmapHex.HexValueExact` | include/Bitmap.h:119-149 | for every buffer size the output read back is the bitmap's value shifted right by the digits that did not fit |
| `BitmapHex.HexRoundTrip` | include/Bitmap.h:119-149 | with room for all digits the output read back is the sum of word i times 2^(64 i) |
| `BitmapHex.HexShape` | include/Bitmap.h:133-146 | even length, at least two digits, no leading zero byte unless it is the only one |
| `BitmapHex.HexTellsSetsApart` | include/Bitmap.h:119-149 | two bitmaps print alike if and only if they hold the same set |
| `ArpMatrix.LookExact` | attic/ArpStatsMatrixElement.cpp:47-80 | a lookup keeps both addresses the latest senders' and the counters those of the current period |
| `ArpMatrix.BumpExact` | attic/ArpStatsMatrixElement.h:45-53 | counting a packet keeps every counter the number of such packets in the current period, modulo 2^32 |
| `ArpMatrix.DiscardExact` | attic/ArpStatsMatrixElement.cpp:51-76 | counters are discarded if and only if a new sender replaces a set address or is the first source of an element without one |
| `ArpMatrix.UnsetSourceDiscards` | attic/ArpStatsMatrixElement.cpp:51-76 | the first sender discards a counted packet as source and keeps it as destination |
| `ArpMatrix.FindsThePair` | attic/ArpStatsHashMatrix.cpp:34-58 | an element live for the pair anywhere in the table is the one found, whichever way round the pair is given, despite the wrapping key |
| `ArpMatrix.GetExact` | attic/ArpStatsHashMatrix.cpp:34-58 | a lookup succeeds if and only if the pair has a live element, and so does the reversed one |
| `ArpMatrix.AddedIsFound` | attic/ArpStatsMatrixElement.cpp:26-36 | an element added after a miss is found at the head of its pair's chain in the direction it was added, holds the given addresses, no counts, and is not idle |
| `ArpMatrix.ExpiredIsLost` | attic/ArpStatsHashMatrix.cpp:48-53 | an element that has become idle is found no more |
| `ArpMatrix.PurgeLosesNothing` | attic/ArpStatsHashMatrix.cpp:34-58 | removing an idle element changes no lookup's success |
| `ArpMatrix.HistoryGrows` | attic/ArpStatsMatrixElement.cpp:47-80 | an element's history is the lookups that found it, with the sender's direction, and the packets counted, and nothing else |
| `ArpMatrix.BothWays` | attic/ArpStatsHashMatrix.cpp:34-58 | a lookup and the reversed one find the same element in opposite directions, unless the addresses are equal, and change no other |
| `ArpMatrix.EveryRunIsValid` | attic/ArpStatsHashMatrix.cpp:34-58 | over every run of lookups, packets, additions after a miss, expiries and purges the table stays a map on unordered pairs with exact elements |
| `ArpMatrix.ElementExact` | attic/ArpStatsMatrixElement.cpp:47-80 | in every table of every run each element has the latest senders' addresses and exact counters |
| `ArpMatrix.ArpStatsMatrixElement.constructor` | attic/ArpStatsMatrixElement.cpp:26-36 | starts with the given addresses and no counts |
| `ArpMatrix.ArpStatsMatrixElement.Equal` | attic/ArpStatsMatrixElement.cpp:47-80 | matches in either direction, updates as specified, and changes nothing on a mismatch |
| `ArpMatrix.ArpStatsMatrixElement.IncArpReplies` | attic/ArpStatsMatrixElement.h:45-48 | counts one reply in the given direction |
| `ArpMatrix.ArpStatsMatrixElement.IncArpRequests` | attic/ArpStatsMatrixElement.h:50-53 | counts one request in the given direction |
| `ArpMatrix.ArpStatsHashMatrix.constructor` | attic/ArpStatsHashMatrix.cpp:26-30 | an empty table |
| `ArpMatrix.ArpStatsHashMatrix.Get` | attic/ArpStatsHashMatrix.cpp:34-58 | the chain walk returns and updates exactly the specified element, leaving the caller's direction alone on a miss |
| `DesCounter.RunExact` | include/DESCounter.h:45-75 | for every forecaster and run each excursion counter is the trailing run length on its side modulo 2^32, never both positive, and the total is the number of calls that returned true |
| `DesCounter.TrailingIsMaximal` | include/DESCounter.h:66-69 | the trailing run length is the unique maximal one |
| `DesCounter.LastExact` | include/DESCounter.h:45-75 | after every run the stored value and bounds are those of the latest observation, the bounds being the band rounded to whole numbers |
| `DesCounter.RangeExact` | include/DESCounter.h:47-61 | after rounding, a value is above if and only if it exceeds the band by more than one and below if and only if it is at least one under it |
| `DesCounter.ResetKeepsVerdict` | include/DESCounter.h:79-82 | a reset ends the excursions and leaves flag and total as they were |
| `DesCounter.DESCounter.constructor` | include/BehaviouralCounter.h:37-41 | all zero |
| `DesCounter.DESCounter.AddObservation` | include/DESCounter.h:45-75 | returns true if and only if the value is out of range of a trained forecaster, and records it |
| `DesCounter.DESCounter.ResetStats` | include/DESCounter.h:79-82 | records a reset |

## Left out

- Lua bindings, JSON, Redis, HTTP and every printing function: input and output only.
- SHA-1 and base64 of the Community ID: the hash is opaque; the model ends at the bytes handed to it.
- The constants of the ICMP types come from the systems' headers, which are not part of the repository; the usual numbers are used (router messages 9 and 10, address mask 17 and 18).
- nDPI's forecaster: its answers are inputs of `AddObservation`; doubles are real numbers, and a bound outside 64 bits, undefined in C++, is taken modulo 2^64. `DESCounter::clone` and `set` copy forecaster state only.
- FrequentStringItems, and the JSON form and mutex of FrequentNumericItems: the latter's table is the one of `TopItems`, without the sum.
- `FrequentTrafficItems::reset` also stores the interval's duration, used only for printing.
- UtHashSort.HashSortDescends: says nothing of a list with values further apart that comes out in order by the luck of its starting order; over all orders of the list the condition is exact (`HashSortExact`).
- GenericHash.GenericHash.PurgeIdle: a failing allocation of the new shadow vector, after which both vectors are one, is not modelled. Of what `housekeep` does to an entry it has the end of the protocol detection and the uses taken.
- HashLifecycle.EveryStateInv: assumes that uses are taken only of entries in the table that are not idle, or by the last housekeeping of an entry just marked; that states change only while the entry is in the table, apart from the marking; and that a use is returned only by a holder, so never below zero.
- Country, AS and observation point entries override the transition to idle to do nothing; `set_state` is modelled as the base class and flows and hosts have it.
- `GenericHash::walk`, `cleanup` and the assignment of entry numbers; bucket locks appear only as buckets that are busy during a scan.
- HashRefinement.EveryCallSequence: ties calls that run alone to the state machine; interleaved calls exist only as interleavings of the machine's steps.
- HashCalls.ReadyEntryDeleted: likewise, and the other lemmas of `HashCalls` and `HashPurge`, about calls that run alone.
- PoolStats.DurationExact: speaks of traffic in order of time with known times below 2^32 and a housekeeping period above zero; `TimesExact` has no such condition.
- Counters of 64 bits, and 32-bit counters where wrap-around is not mentioned, are unbounded numbers; their overflow is out of practical reach.
- HostPools.CountExact: signed overflow of a single counter, undefined in C++, is taken as two's complement wrap-around.
- The reload of pools and the swap of their statistics; per-category counters; throughput; saving and restoring statistics.
- `Bitmap::setBits` parses text; `set` and the 64-bit accessors are plain copies. Words are natural numbers below 2^64 and bitwise operators act on binary digits.
- Bitmap.Bitmap.Enumerate: asks for members below 65535, the exact condition for the loop to end (`EnumerationEnds`); a method has to end.
- BitmapHex.PrintHex: asks for a buffer of at least one byte; the source reads an uninitialised buffer otherwise.
- ArpMatrix.EveryRunIsValid: an element is added only after a lookup of its pair failed, which is up to the caller, and is never added twice by two threads at once.
- ArpMatrix.DiscardExact: the documented intent, a reset on replacing a known address, fails for a source address that was unset; the lemma gives the exact condition instead.
- Destructors of the queues; memory exhaustion in `FrequentTrafficItems::addGeneric`, whose callers use the node without testing it.
