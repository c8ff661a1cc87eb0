# Verification of the inference operator's in-memory state machines

The operator keeps its caches and its GPU sharing in six in-memory components. This project models them in
Dafny, in the form the Go code has them (objects with maps, lists and counters that methods update), proves
every method against a specification on plain values, and proves on those values what the components are for.

| component | values and theorems | objects and methods |
|---|---|---|
| prefix cache (`internal/cache/prefix.go`) | `PrefixStoreSpec.dfy`, `PrefixReaders.dfy`, `PrefixTree.dfy`, `PrefixBlocks.dfy`, `TokenEncoding.dfy` | `PrefixCache.dfy`, `PrefixTree.dfy` |
| time-slicing (`internal/gpu/timeslice.go`) | `Rebalance.dfy`, `TimesliceSpec.dfy`, `TimesliceAlloc.dfy`, `TimesliceRuns.dfy` | `TimesliceManager.dfy` |
| disk cache (`internal/cache/local.go`) | `LocalCacheSpec.dfy`, `LocalCacheRuns.dfy`, `LocalEviction.dfy`, `HighWater.dfy`, `HighWaterProgress.dfy` | `LocalCache.dfy` |
| MPS (`internal/gpu/mps.go`) | `MpsSpec.dfy` | `MpsManager.dfy` |
| tiers (`internal/cache/manager.go`) | `LossyMap.dfy`, `TierSpec.dfy`, `TwoTier.dfy` | `TierManager.dfy` |
| exclusive GPUs (`internal/gpu/manager.go`) | `ExclusiveSpec.dfy` | `ExclusiveManager.dfy` |

`Common.dfy` holds what they share: keys, sums over maps, and the room accounting of both sharing managers.
`Sorting.dfy` holds the sort, which is only known to return some sorted rearrangement, and counting lemmas.

How a class is tied to its specification: it has a ghost field with the abstract value (`store`, `state`,
`cache`), `Valid()` relates that field to the real maps and objects, and each method's `ensures` gives the new
abstract value as a function of, or a relation to, the old one. The lemmas about whole runs speak of those
functions and relations, and further lemmas say in the code's own constants and comparisons what those come to
(`SetThenGet`, `ReadStamps`, `SweepRemovesExpired`, `TickIs`, `TargetsAre` and the like). Where Go ranges over a
map, the method takes the keys in an arbitrary order and the specification holds for every order.

The main results:

- **Prefix cache.** Eviction under arbitrary reference counts (`EvictionContract`); counters, disjointness of
  GPU and swap, the swap bound and "a lookup misses or is the latest value" in every run (`RunAccurate`,
  `RunContained`, `LookupIsLatest`); what was read last is evicted last (`ReadStamps`, `ReadGoesLast`); the tree
  refines a log of insertions (`PrefixTree.Insert`, `PrefixTree.Match`); an inserted prefix is partitioned and
  stored exactly once (`BlocksPartition`, `InsertStoresBuffer`), and what a match finds right after is known on
  every tree (`MatchAfterInsert`, `BlockFoundIff`). With readers step by step: exactly when all blocks stay the
  latest (`RunAgreesIff`) and the counters true (`CountersAreTrueIff`), and no block is swept or evicted while a
  reader holds it (`HeldIsNotTaken`).
- **Time-slicing.** Rebalancing tiles the interval (`AssignTiles`, `WideIntervalIsFilled`,
  `DefaultSlotsFillIff`); allocation succeeds exactly when there is room, and rolls back (`AllocateSucceedsIff`,
  `FailureRollsBack`); the records agree with the slots in every run (`RunInvariant`); switching is fair, and
  every turn lasts for a share (`EverySlotOnce`, `SwitchesShareApart`).
- **Disk cache.** It reads like a map that forgets, across compression (`LookupIsLatest`); eviction keeps its
  contract (`EvictionContract`, `LocalCache.Evict`) and ends exactly where it should be expected to
  (`MaySpinIff`, `MustSpinIff`); step by step and under every interleaving, a counter above the high-water mark
  is seen to exactly as long as no eviction is left with an empty index and a counter that has drifted above the
  mark (`AboveMarkIsAttendedIff`); under fair scheduling what is seen to gets down to the target, empties the
  index, or is found at the mark by a `Set` (`CounterComesDown`); undisturbed runs of the protocol are the
  atomic operations (`UndisturbedSet`, `UndisturbedEviction`).
- **MPS.** Allocation succeeds exactly when there is room for the clients that overwrite none, rolls back and
  touches nobody else (`AllocateSucceedsIff`, `FailureRollsBack`, `AllocateKeepsOthers`); the global index and
  the pools hold the same daemons (`Indexed`, part of `MPSManager.Valid`).
- **Tiers.** Every policy is coherent in every run of faithful operations (`RunCoherent`, `GetIsLatest`), with
  the exact condition under which one operation is (`ReachedCoherentIff`); a prefix cache over a disk cache is
  such a hierarchy (`StepIsTierStep`).
- **Exclusive GPUs.** No GPU has two allocations, and every service has exactly what it was granted
  (`RunInvariant`).

What the code does not do, with the exact condition under which it does:

- Reading a block back from swap can call the evictor, which takes the lock that the read holds:
  `PrefixCache.MoveToGPU` says exactly when, `ReadMayNeedRoom` gives a run that gets there.
- Matching a prefix right after inserting it, in whatever tree, matches all of it exactly when one block holds
  it (`MatchAfterInsert`), and the node of each block still carries that block exactly when no later block
  repeats its tokens (`BlockFoundIff`).
- Configuring a pool again keeps records and slots, or index and daemons, in agreement exactly when the pool had
  none (`ReconfigureKeepsIndexIff`, `ReconfigureStaysIndexedIff`).
- Starting a daemon keeps the MPS index exactly when no other pool has one on that device
  (`StartStaysIndexedIff`).
- The eviction loop of the disk cache takes the empty key for "nothing found" and so never removes its entry.
  Some map orders make the loop spin exactly when that entry and all that were used later miss the target
  together (`MaySpinIff`), all orders do exactly when it misses the target by itself (`MustSpinIff`);
  `RunThatMaySpin` and `RunThatMustSpin` are runs that get there.
- A `Get` of the disk cache lets go of the lock before it removes what it found. Whatever was put in its place
  meanwhile is removed, and the size of what was found is taken off: the counter is true exactly when this never
  differed (`CounterDrifts`). An eviction can then leave an empty cache above the target, or above the mark,
  exactly when the drift is that large (`EndsAboveIff`, `StrandedIff`); `EmptyAboveMark` is a run that gets
  there. As long as no `Get` removes an entry that has replaced a smaller one, a counter above the mark does
  come down to the target (`MarkIsKept`).
- A `Get` of the prefix cache lets go of the lock in the same way, and moves a block back to the GPU that it
  found in swap. If the block was deleted or replaced meanwhile, that revives it: blocks stay the latest exactly
  as long as none is revived with a value that is not (`RunAgreesIff`), and the counters are true exactly when
  what readers added in excess comes to nothing (`CountersAreTrueIff`). `DeletedBlockIsBack` is a run that gets
  there.
- Default slots fill the interval exactly when it has ten milliseconds for each (`DefaultSlotsFillIff`).
- A write that a tier failed, or that was not sent to it, leaves a stale value exactly when that tier had one
  (`ReachedCoherentIff`); a late promotion does exactly when the value was replaced meanwhile
  (`LatePromotionCoherentIff`); warming up under write-back leads to such a case (`WarmedTierGoesStale`).
- A second MPS request of the same service reuses client ids and can succeed beyond the room
  (`OverwritingNeedsNoRoom`): it succeeds exactly when there is room for the placements that overwrite nothing
  (`AllocateSucceedsIff`), which is bounded by what the service held before (`AllocateOutcome`).
- An exclusive allocation that succeeds stays exclusive exactly when the GPUs it takes are distinct
  (`AllocateStaysExclusiveIff`).

## Model

| member | source | states |
|---|---|---|
| Common.JoinInjective | internal/gpu/timeslice.go:223 | Names without a slash: two joined keys are equal exactly when both their parts are, so keys may be kept as pairs. |
| Common.NumberedInjective | internal/gpu/mps.go:265 | Two numbered names are equal exactly when both names and both numbers are, whatever dashes the names have. |
| Common.DecimalIs | internal/gpu/timeslice.go:231 | A number in a name is written with digits only, most significant first and without leading zeros, and stands for itself. |
| MapSums.SumRemove | internal/cache/prefix.go:224-235 | A sum over a map does not depend on the order in which its keys are taken out, so taking one out takes exactly its size off. |
| Capacity.RoomPlace | internal/gpu/mps.go:294-314 | Whichever device is picked, one more client uses up exactly one unit of the room counted over started and unstarted devices. |
| Capacity.RoomIffPlaceable | internal/gpu/timeslice.go:277-305 | There is room exactly when some device can take one more: a configured one below its capacity or, when all are full, an unconfigured one. |
| Capacity.RoomOfFreshPool | internal/gpu/mps.go:302-310 | With nothing started, the room is the capacity of every device of the pool. |
| TokenEncoding.EncodeRoundTrip | internal/cache/prefix.go:248-255 | Four bytes a token, and decoding them gives the tokens back, for any length and any 32-bit values. |
| TokenEncoding.EncodeInjective | internal/cache/prefix.go:248-258 | The digested bytes are equal exactly when the token sequences are. |
| TokenEncoding.EncodedToken | internal/cache/prefix.go:248-255 | The four bytes of every token are its value, most significant first, with two to the 32nd power added to a negative one. |
| TokenEncoding.EncodeTokens | internal/cache/prefix.go:248-255 | The buffer filled by the loop is the encoding of the tokens, most significant byte first. |
| PrefixTreeSpec.LinkedIsPath | internal/cache/prefix.go:492-512 | Only a sequence that is a prefix of something inserted carries a block. |
| PrefixTreeSpec.PathsAreClosed | internal/cache/prefix.go:496-505 | Prefixes of inserted prefixes are inserted prefixes, so the walk of a match cannot skip a level. |
| PrefixTreeSpec.MatchWithin | internal/cache/prefix.go:422-449 | No match is longer than the longest inserted sequence. |
| PrefixTreeSpec.LastLinkIs | internal/cache/prefix.go:507-511 | A path carries a block exactly when some insertion of exactly that path linked one, and then the one of the last such insertion. |
| PrefixTreeSpec.LinkedAlongIs | internal/cache/prefix.go:440-446 | The blocks of a match lie at strictly rising depths, each is the last one linked at exactly that prefix of the query, and every depth up to the match at which a block is linked is among them. |
| PrefixTreeSpec.BlocksAlongUnique | internal/cache/prefix.go:440-446 | Depths and blocks are determined by that. |
| PrefixTreeSpec.LinkedAlongGrows | internal/cache/prefix.go:430-446 | A longer match begins with the blocks of a shorter one. |
| PrefixTrees.PrefixTree.Insert | internal/cache/prefix.go:492-512 | Inserting appends one entry to the log the tree stands for: the tokens, and the block that the hash names at that moment, if any. |
| PrefixTrees.PrefixTree.Match | internal/cache/prefix.go:422-449 | The match length is the largest k within the query and the limit such that the query's first k tokens are a prefix of some inserted sequence; the blocks are, at strictly rising depths that are returned with them, the last ones linked at exactly those prefixes, and no linked depth is left out. |
| PrefixTrees.PrefixTree.Clear | internal/cache/prefix.go:372 | Afterwards the tree stands for the empty log and names no block. |
| PrefixTrees.PrefixTree.MatchEnds | internal/cache/prefix.go:430-446 | A walk that cannot go on has found the longest match. |
| PrefixStoreSpec.EvictMoves | internal/cache/prefix.go:186-204 | Evicting along any list of distinct GPU blocks: each victim is unchanged in swap or gone, everything else stays as and where it was, and the target is met or the list is used up. |
| PrefixStoreSpec.EvictionContract | internal/cache/prefix.go:151-204 | For arbitrary reference counts: ends at 80 percent or with only pinned blocks left, moves no pinned block, takes victims no younger than any unpinned survivor, and none after the target is met. |
| PrefixStoreSpec.LastVictimWasNeeded | internal/cache/prefix.go:175-178 | Without its last victim the eviction would have missed its target. |
| PrefixStoreSpec.VictimGoesToSwapIff | internal/cache/prefix.go:186-191 | A victim goes to swap exactly when swap is enabled and the bytes there, after the victims before it, are fewer than the swap size, however large it is itself. |
| PrefixStoreSpec.EvictionIsLossless | internal/cache/prefix.go:186-191 | With swap space for everything, an eviction changes no key's block. |
| PrefixStoreSpec.SweepRemovesExpired | internal/cache/prefix.go:138-148 | The sweep removes exactly the GPU blocks it meets whose expiry is before now and whose reference count is zero; all others, and swap, stay as and where they were. |
| PrefixStoreSpec.LookupIff | internal/cache/prefix.go:265-284 | A lookup finds a value exactly when the GPU or swap has a block with it under the key and now is not after its expiry. |
| PrefixStoreSpec.SetThenGet | internal/cache/prefix.go:310-348 | What was set is on the GPU, stamped with the moment it was set and without references, is found until that moment plus the TTL, or the default where none is given, and not after; nothing under any other key changes. |
| PrefixStoreSpec.ReadStamps | internal/cache/prefix.go:285-306 | A read that finds a block in time leaves it on the GPU and not in swap, with the moment of the read as its access time and all else as it was. |
| PrefixStoreSpec.ReadDrops | internal/cache/prefix.go:272-284 | A read that comes after the expiry drops the block from wherever it is; one that finds nothing changes nothing. |
| PrefixStoreSpec.ReadLeavesOthers | internal/cache/prefix.go:285-297 | A read changes no other block, unless the block it moves back does not fit: then the others are as the eviction leaves them. |
| PrefixStoreSpec.ReadGoesLast | internal/cache/prefix.go:175-193 | A block read after all others were used is evicted only if that leaves no other unpinned block on the GPU. |
| PrefixStoreSpec.EvictionKeepsSwap | internal/cache/prefix.go:207-221 | A block being read back from swap is still there, unchanged, after the eviction that makes room for it. |
| PrefixStoreSpec.PromotionBound | internal/cache/prefix.go:286-296 | A block read back from swap ends up on the GPU, and the GPU bytes are within the size, or within that block and the larger of 80 percent and what other blocks pin. |
| PrefixStoreSpec.ReferenceLeavesNoTrace | internal/cache/prefix.go:285-306 | The reference that a read takes while it moves its block, and gives back, changes nothing in what the read leaves behind. |
| PrefixStoreSpec.PutStaysAccurate | internal/cache/prefix.go:310-348 | Storing, with or without replacing, keeps all three counters true. |
| PrefixStoreSpec.EvictStaysAccurate | internal/cache/prefix.go:186-204 | Evicting along any list keeps all three counters true. |
| PrefixStoreSpec.SweepStaysAccurate | internal/cache/prefix.go:138-148 | The sweep keeps all three counters true. |
| PrefixStoreSpec.ReadStaysAccurate | internal/cache/prefix.go:261-307 | A read, with all that it expires, evicts and promotes, keeps all three counters true. |
| PrefixStoreRuns.RunContained | internal/cache/prefix.go:138-378 | In every run: GPU and swap hold different keys, every block is the latest one set under its key and not larger than the largest ever set, and swap stays below its size plus one block, or empty where there is none. |
| PrefixStoreRuns.RunAccurate | internal/cache/prefix.go:138-378 | In every run the byte counters are the true sums over GPU and swap and the entry counter is the true count. |
| PrefixStoreRuns.LookupIsLatest | internal/cache/prefix.go:261-307 | After any run a lookup misses or returns exactly the last value set, whatever moved, was evicted or expired. |
| PrefixStoreRuns.LookupWasSet | internal/cache/prefix.go:261-378 | After any run, what a lookup finds was stored by a `Set` of the key, and no `Set` or `Delete` of the key and no `Clear` came after it. |
| PrefixStoreRuns.StepIsLossy | internal/cache/prefix.go:261-378 | Every single operation is a step of a map that may forget. |
| PrefixStoreRuns.ReadMayNeedRoom | internal/cache/prefix.go:207-210 | Some run reaches a read that evicts while it holds the lock. |
| PrefixReaders.StepStaysWellFormed | internal/cache/prefix.go:196-235 | Whatever readers do late, a block that a map has is flagged for that map, and no key is in both maps. |
| PrefixReaders.StepShows | internal/cache/prefix.go:138-378 | On the store every step is the atomic operation, or takes out what the flags of a found block name, or puts a found block back. |
| PrefixReaders.StepAgreesIff | internal/cache/prefix.go:285-297 | From a store of latest values any step of any thread leads to one exactly unless it puts back a block that is flagged for swap and is not the latest. |
| PrefixReaders.RunAgreesIff | internal/cache/prefix.go:261-307 | In every run, under every interleaving, all blocks are the latest at every moment if and only if no reader ever does that. |
| PrefixReaders.AnswerWasLatest | internal/cache/prefix.go:265-306 | What a `Get` returns was the latest value at the moment it looked, whatever came in between. |
| PrefixReaders.LatestWasSet | internal/cache/prefix.go:310-378 | The latest value of a key at a step is that of its last `Set` before, with no `Delete` of it and no `Clear` in between. |
| PrefixReaders.RunCountsHolders | internal/cache/prefix.go:286-288 | In every run, under every interleaving, the reference count of every block is the number of readers that are holding it. |
| PrefixReaders.HeldIsNotTaken | internal/cache/prefix.go:143-173 | In every run no sweep and no eviction takes a block that a reader is holding. |
| PrefixReaders.FinishStamps | internal/cache/prefix.go:290-297 | A reader stamps its block with the moment of the read, puts it on the GPU if it is flagged for swap, and changes nothing else about it and no other block. |
| PrefixReaders.StepCounts | internal/cache/prefix.go:196-235 | Every step changes the three counters as it changes the maps, up to what a late reader adds in excess; `Clear` sets them right. |
| PrefixReaders.CountersAreTrueIff | internal/cache/prefix.go:261-307 | In every run the three counters are true exactly when what readers have added in excess since the last `Clear` comes to nothing. |
| PrefixReaders.NoExcessIff | internal/cache/prefix.go:207-235 | A late reader adds nothing exactly when the map its block is flagged for has a block of that size under the key, or when it replaces one empty block by another. |
| PrefixReaders.CurrentBlockIsHarmless | internal/cache/prefix.go:265-297 | A reader whose block is still the one under its key neither brings back an old value nor adds to a counter. |
| PrefixReaders.DeletedBlockIsBack | internal/cache/prefix.go:207-221 | A run after which the cache serves a deleted block, counts fewer than no bytes in swap, and counts one entry for two blocks. |
| PrefixReaders.UndisturbedMiss | internal/cache/prefix.go:278-283 | The steps of a `Get` that finds an expired block, taken one after the other, are the atomic read. |
| PrefixReaders.UndisturbedHit | internal/cache/prefix.go:285-306 | The steps of a `Get` that hits, taken one after the other, are the atomic read where that needs no room. |
| PrefixBlocks.ConcatOfCut | internal/cache/prefix.go:463-483 | Pieces cut at increasing points put together give back the data up to each cut. |
| PrefixBlocks.BlocksPartition | internal/cache/prefix.go:463-483 | The blocks concatenate to exactly the tokens and the slices to exactly the KV buffer. |
| PrefixBlocks.BlockLengths | internal/cache/prefix.go:463-470 | No block is empty or longer than the block size, and the first is as long as it can be. |
| PrefixBlocks.KeyDigestsPrefix | internal/cache/prefix.go:470-471 | The key of block i digests all tokens of the blocks up to and including it, and that of the last block all tokens there are. |
| PrefixBlocks.KvBoundaryEnds | internal/cache/prefix.go:473-478 | The proportional cut points of the KV buffer start at zero and end at its length, with truncating division. |
| PrefixBlocks.KeysAreDistinct | internal/cache/prefix.go:466-471 | Under a digest without collisions on the prefixes, every block has a key of its own. |
| PrefixInsertion.BlocksAreStored | internal/cache/prefix.go:480-483 | Each key ends up holding exactly its own slice, whatever was stored before, with the time of the insertion and the given or default expiry; what is under any other key stays, and where it is. |
| PrefixInsertion.StoredBytes | internal/cache/prefix.go:480-483 | The byte counter grows by exactly the slices' total, less the bytes of the blocks that their keys had on the GPU before. |
| PrefixInsertion.InsertStoresBuffer | internal/cache/prefix.go:452-489 | Inserting a prefix adds exactly the length of its KV buffer to the byte counter, less the bytes of the blocks that its keys had on the GPU before. |
| PrefixInsertion.MatchAfterInsert | internal/cache/prefix.go:470-483 | In a tree that holds anything at all, blocks of no more than the block size: a match for a prefix just inserted covers its first block, and all of it exactly when one block holds it. |
| PrefixInsertion.BlockFoundIff | internal/cache/prefix.go:507-511 | In a tree that holds anything at all: after an insertion the node of block i carries that block exactly when no later block has the same tokens, for every i. |
| PrefixCaches.PrefixCache.constructor | internal/cache/prefix.go:75-124 | A new cache is empty and has the given size, TTL, block size, limits and swap space, with the source's default wherever none, or none that is positive, is given. |
| PrefixCaches.PrefixCache.MoveToSwap | internal/cache/prefix.go:196-204 | The same block leaves the GPU map for the swap map, its bytes change counters, and maps, flags and counters keep agreeing. |
| PrefixCaches.PrefixCache.RemoveBlock | internal/cache/prefix.go:224-235 | The block leaves all three maps, and its bytes the counter of the map it was in. |
| PrefixCaches.PrefixCache.EvictExpired | internal/cache/prefix.go:138-148 | Visits every GPU block once, in some order, and does what the sweep does: afterwards exactly the GPU blocks whose time is up and whose reference count is zero are gone, and swap is as it was. |
| PrefixCaches.PrefixCache.CollectUnpinned | internal/cache/prefix.go:161-173 | Lists exactly the unpinned GPU blocks, each once, with their access times. |
| PrefixCaches.PrefixCache.EvictLRU | internal/cache/prefix.go:151-193 | Above 80 percent it evicts along an order by access time of exactly the unpinned GPU blocks; otherwise it does nothing. |
| PrefixCaches.PrefixCache.EvictNext | internal/cache/prefix.go:186-191 | One victim goes to swap exactly while swap is enabled and has room left, otherwise for good. |
| PrefixCaches.PrefixCache.MoveToGPU | internal/cache/prefix.go:207-221 | Evicts first exactly when the block would overfill the GPU, which is when the source asks for a lock that its caller holds; then the block is back on the GPU. |
| PrefixCaches.PrefixCache.Get | internal/cache/prefix.go:261-307 | Returns bytes, size and times of a block that the key has and that is not expired, which is then on the GPU with the moment of the read as its access time; without one nothing is under the key afterwards. Counts a hit or a miss, and says exactly when the source asks for a lock that it holds. |
| PrefixCaches.PrefixCache.Set | internal/cache/prefix.go:310-348 | Replaces what the key had by a block with the value, the moment and the given or default expiry, on the GPU, and asks for an eviction exactly when the GPU would be overfilled. |
| PrefixCaches.PrefixCache.Delete | internal/cache/prefix.go:351-362 | Removes the key's block from wherever it is, and nothing else. |
| PrefixCaches.PrefixCache.Clear | internal/cache/prefix.go:365-378 | Leaves an empty store and an empty tree. |
| PrefixCaches.PrefixCache.MatchPrefix | internal/cache/prefix.go:422-449 | The longest match in the cache's own tree and length limit, and its blocks at strictly rising depths: the last one linked at each linked prefix of the query, none left out. |
| PrefixCaches.PrefixCache.HashTokens | internal/cache/prefix.go:248-258 | The key is the digest of the encoded tokens. |
| PrefixCaches.PrefixCache.InsertPrefix | internal/cache/prefix.go:452-489 | Refuses a prefix that is too short; otherwise stores the slices of the truncated prefix under the keys of its block ends, in order, links every block under its own tokens, asks for an eviction once for each block that does not fit, and what a match for it would find is known. |
| PrefixCaches.PrefixCache.InsertNth | internal/cache/prefix.go:463-483 | The bounds computed by the loop cut out exactly block and slice number i. |
| PrefixCaches.BlockAt | internal/cache/prefix.go:463-478 | The bounds are in range, and what they cut out is block and slice number i of the partition. |
| PrefixCaches.SortedInfos | internal/cache/prefix.go:161-178 | Any sorted rearrangement of the collected blocks is an order by access time of exactly the unpinned GPU blocks. |
| Sorting.SortBy | internal/cache/prefix.go:175-178 | A sorted rearrangement, with elements of equal key in no particular order. |
| Rebalance.AssignTiles | internal/gpu/timeslice.go:323-345 | Whatever priorities and interval: slots start at zero, follow each other without gap, have at least ten milliseconds each, and end at the larger of what was allocated and the interval. |
| Rebalance.SharesFillInterval | internal/gpu/timeslice.go:329-332 | Without wrap-around the rounded shares stay within the interval and leave less than a nanosecond a slot of it. |
| Rebalance.AllocatedBounds | internal/gpu/timeslice.go:323-345 | What is allocated is within a nanosecond a slot below the interval and ten milliseconds a slot above it. |
| Rebalance.WideIntervalIsFilled | internal/gpu/timeslice.go:323-345 | With ten milliseconds for every unit of weight, the slots end exactly with the interval. |
| Rebalance.DurationIsShare | internal/gpu/timeslice.go:329-345 | Every slot lasts for its part of the interval by weight, priority plus one over the sum, rounded down, or ten milliseconds where that is more; the last one also gets what the interval has left. |
| Rebalance.PriorityOrdersDurations | internal/gpu/timeslice.go:329-345 | Of n slots, one of higher priority is at most n - 1 nanoseconds shorter than one of lower, so two of equal priority differ by no more. |
| Rebalance.DefaultSlotsFillIff | internal/gpu/timeslice.go:323-345 | Slots of default priority end exactly with the interval if and only if it has ten milliseconds for each. |
| TimesliceSpec.RebalancedIsBalanced | internal/gpu/timeslice.go:308-345 | Rebalancing any list leaves as many slots, assigned in priority order, the last of which ends at the larger of the total and the interval. |
| TimesliceSpec.RebalancedKeepsSlots | internal/gpu/timeslice.go:308-345 | Rebalancing neither adds nor drops a slot nor changes any slot's id, owner, priority or activity, nor whose turn it is. |
| TimesliceSpec.RebalancedTotal | internal/gpu/timeslice.go:339-347 | The allocated total is where the last slot would end without what the interval has left. |
| TimesliceSpec.ReleasedKeepsSlots | internal/gpu/timeslice.go:354-371 | A release takes every slot of the service off a GPU and leaves id, owner, priority and activity of every other one. |
| TimesliceSpec.ChosenIs | internal/gpu/timeslice.go:277-305 | What the search comes up with is a configured GPU with fewer than ten slots, or, when all have ten, the first device of the list that is not configured. |
| TimesliceSpec.TickIs | internal/gpu/timeslice.go:124-137 | A visit switches exactly when there are slots and the last switch is at least the interval divided by their number ago; then the next slot is current, modulo their number, and now is the time of the last switch. |
| TimesliceSpec.SwitchStartsShare | internal/gpu/timeslice.go:129-137 | After a switch no visit changes anything before a share of the interval has passed. |
| TimesliceSpec.BalancedTiles | internal/gpu/timeslice.go:308-345 | On a balanced GPU slots come by falling priority, follow each other from zero, are long enough and reach the end of the interval. |
| TimesliceSpec.BalancedDefaultsFillIff | internal/gpu/timeslice.go:308-345 | The exact filling condition for the default slots of a balanced GPU. |
| TimesliceAlloc.StepTakesRoom | internal/gpu/timeslice.go:222-263 | Placing one slot takes exactly one unit of the pool's room and keeps all pools valid. |
| TimesliceAlloc.StepAddsSlot | internal/gpu/timeslice.go:230-258 | Placing a slot adds one with the id made of service, namespace and the number of slots before, of default priority and active, changes no other, appends one record for it, and a GPU set up for it begins its first share then. |
| TimesliceAlloc.AllocateSucceedsIff | internal/gpu/timeslice.go:207-274 | An allocation succeeds if and only if the pool is known and its room, counting unconfigured GPUs in full, covers the request, whatever the map order. |
| TimesliceAlloc.SuccessAddsExactly | internal/gpu/timeslice.go:222-263 | Success adds exactly as many records as asked for after those the service had, matching slots, and leaves every other service's slots as they were. |
| TimesliceAlloc.FailureRollsBack | internal/gpu/timeslice.go:222-228 | Failure leaves no slot and no record of the service anywhere and every other service's slots as they were. |
| TimesliceAlloc.ReleaseCounts | internal/gpu/timeslice.go:354-377 | A release takes away every slot of the service in all pools and no slot of anyone else. |
| TimesliceAlloc.StepCounts | internal/gpu/timeslice.go:230-258 | Slots and records of a service, counted by GPU and slot id, grow together. |
| TimesliceRuns.ReconfigureKeepsIndexIff | internal/gpu/timeslice.go:156-181 | Configuring an existing pool keeps records and slots in agreement exactly when the pool had no slots. |
| TimesliceRuns.CleanupKeepsIndex | internal/gpu/timeslice.go:184-204 | Cleaning up a pool keeps records and slots in agreement. |
| TimesliceRuns.RunInvariant | internal/gpu/timeslice.go:118-436 | In every run, for each service the slots counted by GPU and slot id equal its records, no GPU has more than ten slots, and every GPU is balanced. |
| TimesliceRuns.DefaultSlotsTile | internal/gpu/timeslice.go:308-345 | In every run, default slots with an interval of at least a hundred milliseconds tile it exactly. |
| TimesliceRuns.SwitchesGoRound | internal/gpu/timeslice.go:118-153 | Whatever the visiting times and wherever releases left the current index, switch number i goes i + 1 places on, modulo the slots, and is in range. |
| TimesliceRuns.EverySlotOnce | internal/gpu/timeslice.go:118-153 | Any n consecutive switches of n slots make each slot current exactly once. |
| TimesliceRuns.SwitchesShareApart | internal/gpu/timeslice.go:118-137 | However often and irregularly the scheduler visits a GPU, any two of its switches lie at least a share of the interval apart. |
| TimesliceRuns.PriorityChangedGives | internal/gpu/timeslice.go:423-424 | One slot with the id has the new priority and keeps the rest, every other slot keeps id, owner, priority and activity, and no other GPU, record or turn changes. |
| TimesliceRuns.TickAllVisits | internal/gpu/timeslice.go:124-150 | A visit of the scheduler comes to every GPU of every pool once, and changes nothing else. |
| TimesliceManagers.TimesliceGPU.RebalanceSlots | internal/gpu/timeslice.go:308-351 | Sorts by priority, in some order among equals, and assigns the interval; an empty list is left alone. |
| TimesliceManagers.TimesliceGPU.LayOut | internal/gpu/timeslice.go:323-340 | The loop gives every slot its start and length as the specification lays them out. |
| TimesliceManagers.TimesliceGPU.ReleaseSlots | internal/gpu/timeslice.go:356-371 | Keeps the slots of all other services and rebalances exactly if one was dropped. |
| TimesliceManagers.TimesliceGPU.Schedule | internal/gpu/timeslice.go:124-150 | Moves to the next slot, modulo their number, and restarts the clock, exactly when the current one's share of the interval has passed since the last switch. |
| TimesliceManagers.TimesliceManager.ConfigurePool | internal/gpu/timeslice.go:156-181 | Refuses a pool of another mode; otherwise the pool is new, with the given interval or a hundred milliseconds and ten slots a GPU. |
| TimesliceManagers.TimesliceManager.CleanupPool | internal/gpu/timeslice.go:184-204 | Removes the pool unless one of its GPUs has slots; an unknown pool is no error. |
| TimesliceManagers.TimesliceManager.FindGPU | internal/gpu/timeslice.go:277-305 | Comes up with a GPU that has fewer than ten slots or, only if none has, the first unconfigured one; with nothing exactly when there is neither. |
| TimesliceManagers.TimesliceManager.Allocate | internal/gpu/timeslice.go:207-274 | Runs step by step as specified, succeeds exactly when there is room, returns the GPUs of the new records in order, and on failure has released the service. |
| TimesliceManagers.TimesliceManager.Release | internal/gpu/timeslice.go:354-394 | Takes the service's slots away in all pools and forgets its records. |
| TimesliceManagers.TimesliceManager.ScheduleSlots | internal/gpu/timeslice.go:118-153 | Every GPU of every pool ticks once. |
| TimesliceManagers.TimesliceManager.SetSlotPriority | internal/gpu/timeslice.go:415-436 | Gives the priority to the first slot with the id on one GPU that has it and rebalances that GPU: one slot has the new priority, every other slot of the GPU keeps id, owner, priority and activity. Fails, changing nothing, exactly when no slot has the id. |
| LossyMaps.LossyStep | internal/cache/manager.go:84-96 | Holding no more than a map holds is kept up by steps that apply its changes and may forget. |
| LocalCacheSpec.EvictionContract | internal/cache/local.go:175-211 | From true counters eviction ends at or below 80 percent with true counters; victims are no younger than survivors, all others stay, and without the last victim the target would be missed. |
| LocalCacheSpec.VictimsAreOlder | internal/cache/local.go:183-193 | Every victim was used no later than any entry that survives. |
| LocalCacheSpec.SweepRemovesExpired | internal/cache/local.go:162-172 | The sweep removes exactly the entries it comes across whose expiry is before now, with their files; every other entry and file stays. |
| LocalCacheSpec.WriteStores | internal/cache/local.go:292-341 | The file has the value, compressed exactly when that is on, the value has more than 1024 bytes and compressing works; the entry has its size, the moment and the given or default expiry; no other key changes. |
| LocalCacheSpec.SetThenGet | internal/cache/local.go:234-352 | What was written is read back up to its expiry and not after, compressed or not. |
| LocalCacheSpec.LookupIff | internal/cache/local.go:236-272 | A lookup misses exactly without an entry in time that has its file; otherwise it returns the file, unpacked, or fails where it cannot be. |
| LocalCacheSpec.ReadLeaves | internal/cache/local.go:244-279 | A hit stamps its entry with the moment of the read and changes nothing else, a failure changes nothing, and a miss drops the entry, if there is one, with its file. |
| LocalCacheSpec.ReadGoesLast | internal/cache/local.go:181-198 | An entry read after all others were used is evicted only together with all of them. |
| LocalEviction.ScanFindsOldest | internal/cache/local.go:183-193 | Without the empty key, the search finds a least recently used entry in any map order. |
| LocalEviction.ScanFindsNothingIff | internal/cache/local.go:183-197 | The search comes back with nothing exactly for no entries, or when the empty key is an entry, comes last, and is older than all others. |
| LocalEviction.MaySpinIff | internal/cache/local.go:175-199 | From any counters, some orders of the map keep the loop running for ever if and only if the empty key is an entry whose bytes, with those of all entries used later and whatever the counter shows beyond the sizes, exceed the target. |
| LocalEviction.MustSpinIff | internal/cache/local.go:175-199 | From any counters, the loop cannot end under any orders of the map if and only if the empty key is an entry that exceeds the target by itself, with whatever the counter shows beyond the sizes. |
| LocalEviction.EveryRoundRemoves | internal/cache/local.go:180-198 | In a call that cannot spin every round removes an entry, and a least recently used one if there is none under the empty key. |
| LocalEvictionRuns.RunThatMustSpin | internal/cache/local.go:175-199 | A run from the empty cache to true counters above the mark and an eviction that cannot end. |
| LocalEvictionRuns.RunThatMaySpin | internal/cache/local.go:175-199 | A run from the empty cache to true counters above the mark and an eviction that ends under some orders and not under others. |
| LocalCacheRuns.RunAgrees | internal/cache/local.go:162-389 | In every run every file belongs to an entry and unpacks to the value last set under its key. |
| LocalCacheRuns.LookupIsLatest | internal/cache/local.go:234-289 | In every run a lookup returns the latest bytes, compressed or not, or misses, which it does exactly for a key without an entry or with an expired one. |
| LocalCacheRuns.LookupWasSet | internal/cache/local.go:234-389 | After any run, a lookup that does not miss returns what a `Set` of the key stored, and no `Set` or `Delete` of the key and no `Clear` came after it. |
| LocalCacheRuns.RunAccurate | internal/cache/local.go:162-389 | In every run the byte counter is the sum of the entries' sizes and the entry counter their number. |
| LocalCacheRuns.StepIsLossy | internal/cache/local.go:162-389 | Every single operation is a step of a map that may forget. |
| HighWaterProtocol.StepCounts | internal/cache/local.go:201-389 | Whatever any thread does next, the counter changes as the sum of the sizes does, except for what a `Get` that lost its entry takes off in excess; `Clear` sets it right. |
| HighWaterProtocol.CounterDrifts | internal/cache/local.go:234-262 | In every run the counter is the sum of the sizes less what such `Get`s took off in excess, and less what a `Set` that holds the lock has taken off; with the lock free it is that sum exactly when the excess is nothing. |
| HighWaterProtocol.StrandedIff | internal/cache/local.go:175-199 | An eviction ends above the mark exactly when it has emptied the index and the drift alone is that large; then someone sees to it exactly if there is a signal or a `Set` that has not looked yet. |
| HighWaterProtocol.EmptyAboveMark | internal/cache/local.go:234-349 | A run of `Set`s and one `Get` to an empty cache whose counter is above the mark with nobody to see to it. |
| HighWaterProtocol.StepKeepsInvariant | internal/cache/local.go:135-349 | Any step but the end of an eviction keeps it so that a counter above the mark is attended to. |
| HighWaterProtocol.EndsAboveIff | internal/cache/local.go:175-199 | An eviction ends above any level from the target up exactly when it has emptied the index and the drift alone is that large. |
| HighWaterProtocol.AboveMarkIsAttendedIff | internal/cache/local.go:135-349 | Under every interleaving, at every moment up to a given one: a counter above 90 percent means that a signal is buffered, the evictor has taken one and is not done, or a `Set` is between its commit and its signal; this holds if and only if no eviction before ended with an empty index, a drift above the mark, no signal and no such `Set`. |
| HighWaterProtocol.QuietCacheIsBelowMark | internal/cache/local.go:135-349 | When none of these holds, and no eviction ended like that, the counter is at most 90 percent, and so is the sum of the sizes while the lock is free, up to the drift. |
| HighWaterProtocol.NoneGrownNeverStrands | internal/cache/local.go:234-262 | As long as no `Get` removes an entry that has replaced a smaller one, no eviction ends like that. |
| HighWaterProgress.EvictionGetsThere | internal/cache/local.go:175-199 | Under fair scheduling an eviction that has begun gets the counter down to 80 percent or empties the index. |
| HighWaterProgress.CounterComesDown | internal/cache/local.go:135-349 | Under fair scheduling of any threads: once someone sees to it, the counter comes down to 80 percent some time, or an eviction empties the index, or a `Set` looks at the counter when it is down at 90 percent anyway. |
| HighWaterProgress.EndsAboveTargetIff | internal/cache/local.go:175-199 | In an endless behaviour, an eviction that ends misses 80 percent exactly when it has emptied the index and the drift alone is larger. |
| HighWaterProgress.MarkIsKept | internal/cache/local.go:135-349 | As long as no `Get` removes an entry that has replaced a smaller one: under fair scheduling every counter above the mark comes down to 80 percent, or is found at 90 percent by a `Set`. |
| HighWaterProtocol.UndisturbedSet | internal/cache/local.go:332-349 | The steps of a `Set` that no other thread comes into can be taken one after the other, store what the atomic one stores, and leave a signal exactly if there was one or the counter is above the mark. |
| HighWaterProtocol.UndisturbedGet | internal/cache/local.go:234-279 | The steps of a `Get` that no other thread comes into are the atomic read: it stamps the entry it hits, and removes one that has expired or lost its file. |
| HighWaterProtocol.UndisturbedEviction | internal/cache/local.go:175-199 | Any victims of the atomic eviction are steps of the protocol, leave the same index and counter, and let the eviction end. |
| LocalCaches.LocalCache.CleanupExpired | internal/cache/local.go:162-172 | Visits every entry once, in some order: afterwards exactly the entries whose expiry is before now are gone, with their files, and every other entry and file is as it was. |
| LocalCaches.LocalCache.FindOldest | internal/cache/local.go:183-193 | Returns what the search of the specification returns for the order in which the map was met. |
| LocalCaches.LocalCache.Evict | internal/cache/local.go:175-199 | Terminates wherever no orders of the map would keep it running, whatever the counters; removes its victims one by one, a least recently used entry a round if none is under the empty key, as long as the target is missed, and counts every removal. |
| LocalCaches.LocalCache.Get | internal/cache/local.go:234-289 | Returns the unpacked file of an unexpired entry and stamps it with the moment of the read; misses exactly without an entry in time that has its file, and drops it; counts a hit or a miss. |
| LocalCaches.LocalCache.Set | internal/cache/local.go:292-352 | Writes the file, compressed exactly above 1024 bytes where that is on and works, then the entry with the moment, the given or default expiry and its size swapped for the old one's, and raises the signal exactly above 90 percent. |
| LocalCaches.LocalCache.Delete | internal/cache/local.go:355-366 | Removes entry and file, if there are any, and their size. |
| LocalCaches.LocalCache.Clear | internal/cache/local.go:369-389 | Leaves no entry, no file, and counters at zero. |
| MpsSpec.SpelledInjective | internal/gpu/mps.go:265 | On namespaces without a slash two spelled client ids are equal exactly when service and number are, so ids may be kept as pairs. |
| MpsSpec.PlacementTakesRoom | internal/gpu/mps.go:252-284 | A placement takes one unit of room, or none when the service had a client under the same id on that device before, which is then overwritten. |
| MpsSpec.ChosenIs | internal/gpu/mps.go:294-314 | What the search comes up with is a running daemon with fewer than 48 clients, or, when there is none, the first device of the list without a daemon. |
| MpsSpec.AllocateSucceedsIff | internal/gpu/mps.go:236-291 | Any service, with clients or without, succeeds if and only if the pool is known and its room, 48 a device, started or not, covers the placements that overwrite nothing. |
| MpsSpec.AllocateOutcome | internal/gpu/mps.go:236-291 | What can be told before the call: room for the request is enough; a success means room for all but the ids that the service holds in the pool; for a service without clients there the two are one. |
| MpsSpec.OverwritesAreHeld | internal/gpu/mps.go:262-276 | No more placements overwrite a client than there are ids below the count that the service holds in the pool. |
| MpsSpec.OverwritingNeedsNoRoom | internal/gpu/mps.go:262-276 | With room for one client on its only device, a service that has client 0 there is given two. |
| MpsSpec.PlacedRoom | internal/gpu/mps.go:252-284 | For any service, the placements take exactly one unit of room each, less those that overwrite. |
| MpsSpec.SuccessPlacesEach | internal/gpu/mps.go:262-276 | After a success the service has client number i on device k exactly if i was asked for and k is the i-th device given, or it had it there before. |
| MpsSpec.SuccessClients | internal/gpu/mps.go:264-281 | After a success client number i on the i-th device given knows its service and device and has the thread percentage of the pool. |
| MpsSpec.FailureRollsBack | internal/gpu/mps.go:255-260 | A failure changes nothing or leaves no client of the service anywhere. |
| MpsSpec.AllocateKeepsOthers | internal/gpu/mps.go:236-291 | Whatever comes of it, daemons stay valid, pools stay apart and keep their thread percentage, and no client of another service changes in any pool. |
| MpsSpec.ReleaseOthers | internal/gpu/mps.go:317-340 | A release removes every client of the service in all pools and changes no other. |
| MpsSpec.PlacedDevices | internal/gpu/mps.go:302-310 | Daemons are only ever started on devices of the pool, and none is lost. |
| MpsRuns.RunInvariant | internal/gpu/mps.go:123-464 | In every run every daemon runs with at most 48 clients, each filed under its own service, and no device has daemons in two pools. |
| MpsManagers.ReconfigureStaysIndexedIff | internal/gpu/mps.go:123-144 | Configuring a pool keeps index and pools in agreement exactly when the pool had no daemons. |
| MpsManagers.StartStaysIndexedIff | internal/gpu/mps.go:216-217 | Filing a new daemon keeps index and pools in agreement exactly when the index had none for the device. |
| MpsManagers.CleanupKeepsAgreement | internal/gpu/mps.go:173-182 | Taking a pool's daemons out of the index together with the pool keeps both in agreement. |
| MpsManagers.RestartIsIdentity | internal/gpu/mps.go:454-463 | Replacing a running daemon without clients by a new one changes no value. |
| MpsManagers.MPSDaemon.ReleaseService | internal/gpu/mps.go:319-328 | Drops exactly the clients of the service. |
| MpsManagers.MPSManager.ConfigurePool | internal/gpu/mps.go:123-152 | Refuses a pool of another mode; otherwise the pool is new, with the given percentage or 100; the manager stays consistent exactly if no daemon was dropped. |
| MpsManagers.MPSManager.FindDaemon | internal/gpu/mps.go:294-314 | Comes up with a running daemon that has fewer than 48 clients or, only if none has, the first device without one; with nothing exactly when there is neither. |
| MpsManagers.MPSManager.StartDaemon | internal/gpu/mps.go:186-220 | A fresh running daemon without clients is in its pool and in the index, at the same key. |
| MpsManagers.MPSManager.PlaceClients | internal/gpu/mps.go:250-284 | Places one client after the other on chosen devices until all are placed or none can be. |
| MpsManagers.MPSManager.Allocate | internal/gpu/mps.go:236-291 | Runs as specified, returns the devices in order, succeeds exactly when there is room for the placements that overwrite nothing, and releases the service after a failure past the first client. |
| MpsManagers.MPSManager.ReleaseClient | internal/gpu/mps.go:317-330 | Visits every daemon of the index and drops the service's clients there: all of them, as the pools hold no other daemons. |
| MpsManagers.MPSManager.Release | internal/gpu/mps.go:333-340 | The service has no client left in any pool. |
| MpsManagers.MPSManager.CleanupPool | internal/gpu/mps.go:155-183 | Removes pool and daemons unless one of them has a client; an unknown pool is no error. |
| MpsManagers.MPSManager.RestartDaemon | internal/gpu/mps.go:426-464 | Succeeds exactly for a device whose daemon has no clients, puts a fresh daemon in both maps, and changes no value. |
| TierSpec.ReachedCoherentIff | internal/cache/manager.go:317-412 | An operation that reached some tiers keeps all coherent exactly when every other tier holds nothing that it contradicts. |
| TierSpec.LatePromotionCoherentIff | internal/cache/manager.go:415-424 | A promotion that comes late keeps tiers coherent exactly when there are none above the hit or the value is still the latest. |
| TierSpec.PromotionStopsAtHitIff | internal/cache/manager.go:415-419 | The promotion stops at the tier that was hit exactly when no tier above it has the same name. |
| TierSpec.StepCoherent | internal/cache/manager.go:282-449 | Every faithful operation under every policy keeps tiers coherent, and the tiers that a single-target policy does not write empty. |
| TierSpec.RunCoherent | internal/cache/manager.go:282-449 | In every run of faithful operations, under every policy and whatever tiers forget, every tier holds only latest values. |
| TierSpec.GetIsLatest | internal/cache/manager.go:282-314 | A read of the hierarchy that finds anything finds the latest value. |
| TierSpec.TargetsAre | internal/cache/manager.go:327-366 | Under "write-back" a `Set` goes to the first tier and no other, under "write-around" to the last and no other, under every other policy to all. |
| TierSpec.LatestWasWritten | internal/cache/manager.go:317-449 | The latest value of a key is that of its last write whose caller was not told that it failed, with no removal since. |
| TierSpec.WarmedTierGoesStale | internal/cache/manager.go:427-449 | Warming up, setting and forgetting under write-back: a run whose last read returns the replaced value. |
| TierManagers.Manager.ConfigureCache | internal/cache/manager.go:202-256 | Fails, changing nothing, exactly when a tier is of an unknown kind; otherwise the cache has fresh, empty tiers with the given names in order. |
| TierManagers.Manager.Get | internal/cache/manager.go:282-314 | Every tier before the one that hit was asked and had nothing, none after it was asked, and with no hit all were; under "write-through" the value is sent to exactly the tiers before the first one with the hit tier's name, and under any other policy no tier is sent anything. |
| TierManagers.PromotedToIs | internal/cache/manager.go:303-305 | Only under "write-through" is anything promoted, and then to exactly the tiers before the first one with the name of the tier that was hit. |
| TierManagers.Manager.Ask | internal/cache/manager.go:292-311 | The tiers are asked in order up to the first that has the key, and no further. |
| TierManagers.Manager.Set | internal/cache/manager.go:317-369 | Sends the value once to the first tier under "write-back", to the last under "write-around", to every tier under any other policy, and to no other tier; reports a failure exactly when under one of these two policies that one tier failed. |
| TierManagers.Manager.Delete | internal/cache/manager.go:372-389 | Sends the removal to all tiers, once each, and succeeds for every known cache. |
| TierManagers.Manager.Invalidate | internal/cache/manager.go:392-412 | Clears all tiers, whatever the pattern. |
| TierManagers.Manager.CleanupCache | internal/cache/manager.go:259-279 | Clears all tiers and forgets the cache even if one fails. |
| TierManagers.Manager.PromoteToPreviousTiers | internal/cache/manager.go:415-424 | Sends the value to exactly the tiers before the first with the current tier's name; those that fail keep what they had. |
| TierManagers.Manager.WarmupCache | internal/cache/manager.go:427-449 | Sends every prefix, in order and once each, to every tier, one step a prefix, under the key with `prefix:` in front, and sends nothing else. |
| TwoTierRuns.StepIsTierStep | internal/cache/manager.go:282-389 | Every step of a prefix cache over a disk cache under write-through is a faithful step of the manager's tiers. |
| TwoTierRuns.PromotionIsLossy | internal/cache/manager.go:300-305 | A read of the prefix cache followed by the promotion into it is one step that stores the value. |
| TwoTierRuns.AskAfterRun | internal/cache/manager.go:282-314 | After any run of the two caches, with compression and swap, reading finds nothing or the latest value. |
| ExclusiveSpec.AllocateStaysExclusiveIff | internal/gpu/manager.go:424-468 | Succeeds exactly when enough GPUs are free, and a success keeps GPUs exclusive exactly when those it takes are distinct, as they are if the pool lists none twice. |
| ExclusiveSpec.AllocateGrants | internal/gpu/manager.go:424-452 | A success gives exactly as many GPUs as asked for, all of them free before and in the pool, and takes none from anyone. |
| ExclusiveSpec.FreeInIs | internal/gpu/manager.go:455-468 | The search takes the pool's GPUs without allocations in its order, and passes over none. |
| ExclusiveSpec.ReleaseFreesExactly | internal/gpu/manager.go:487-504 | Releasing a service frees exactly the GPUs it held and leaves the others as they were. |
| ExclusiveSpec.OthersAre | internal/gpu/manager.go:493-500 | The allocations of the other services are kept one by one, as often as they occur and in their order. |
| ExclusiveRuns.RunInvariant | internal/gpu/manager.go:424-504 | In every run no GPU has two allocations and every service has exactly as many GPUs as it was granted and has not given back. |
| ExclusiveManagers.GPUInfo.ReleaseService | internal/gpu/manager.go:493-500 | Keeps the allocations of all other services in their order. |
| ExclusiveManagers.ExclusiveManager.FindAvailableGPUs | internal/gpu/manager.go:455-468 | Returns the first free GPUs of the pool, as many as asked for or all; one where none is asked for and one is free. |
| ExclusiveManagers.ExclusiveManager.AllocateExclusive | internal/gpu/manager.go:424-452 | Records one allocation on each of the first free GPUs and returns them in order, or fails and changes nothing. |
| ExclusiveManagers.ExclusiveManager.Release | internal/gpu/manager.go:487-504 | Every GPU of the cluster keeps exactly the allocations of other services. |

## Left out

- PrefixCaches.PrefixCache.Get: the reference that a read takes on its block and gives back before returning is not in the method; `ReferenceLeavesNoTrace` shows on values that it makes no difference to what the read leaves.
- PrefixCaches.PrefixCache.MoveToGPU: in the source this eviction waits for a lock that the caller holds; the model runs the eviction's body and reports the case as `relocks`.
- PrefixCaches.PrefixCache.Set: the eviction that it starts in the background is a separate operation of a run; the method only counts that it was asked for.
- PrefixCaches.PrefixCache.HashTokens: SHA-256 is any function `digest`; where a theorem needs it free of collisions it says on which inputs.
- Logging slices keys to 16 characters (`internal/cache/prefix.go:203`, `:219`) and panics on shorter ones; keys are of an abstract type here.
- Operations are atomic, except that both `Get`s drop their lock before they remove or move what they found: the high-water protocol and `PrefixReaders` have their steps. The names that the prefix tree has for blocks are not in the latter.
- Every operation reads the clock once, as an integer in nanoseconds; tickers, goroutines, start and stop are not modelled.
- Sizes are unbounded and not negative; the code multiplies a 64-bit size by 80 or 90, which can overflow for sizes beyond 10^17 bytes.
- Tree nodes' depth and token fields, and the blocks' token lists and indices, are never read and are left out. Clearing the tree keeps the root's own block, which no match reads.
- Blocks returned by a match may have been removed from the maps: `removeBlock` does not unlink them, and nothing is claimed about their being stored.
- Rebalance.ShareBounds: shares are exact quotients rounded down, where the code multiplies and divides in floating point; a weight sum that wraps around to zero gives every slot the minimum, as it does on amd64, while Go leaves the conversion of an infinite float to the platform.
- Rebalance.SharesFillInterval: for priorities that are not negative and weights whose sum does not wrap around 32 bits; `AssignTiles` needs neither.
- Rebalance.AllocatedBounds: for the same priorities.
- Rebalance.WideIntervalIsFilled: for the same priorities.
- Rebalance.PriorityOrdersDurations: for the same priorities.
- Rebalance.DurationIsShare: for the same priorities.
- TimesliceSpec.SwitchStartsShare: for intervals that are not negative; `TickIs` says what a negative one does.
- TimesliceRuns.SwitchesShareApart: for intervals that are not negative.
- LocalCacheSpec.SetThenGet: for the same functions as `LookupIsLatest` below.
- Time slots are values inside their GPU; `GetSlotInfo`, `PauseSlot`, `ResumeSlot`, the durations copied into allocation records, and statistics are left out. Slot ids can repeat, and nothing is claimed about their being unique.
- The total that an emptied GPU keeps from before is modelled as the code has it and not constrained.
- Requested counts are natural numbers; a negative count makes the code panic when it allocates its result.
- The GPUs of a pool are an argument of an allocation, any list; registering a pool creates that list empty and nothing in the repository fills it.
- MpsSpec.AllocateKeepsOthers: for requests whose devices have daemons in no other pool; starting one on such a device takes the other pool's daemon out of the index (`StartStaysIndexedIff`), and then a release no longer reaches it.
- MpsSpec.FailureRollsBack: for the same requests; a failure at the very first client changes nothing, so clients from earlier requests stay then, and are released otherwise.
- MpsManagers.MPSManager.StartDaemon: for a device that the index has no daemon for, see `StartStaysIndexedIff`.
- MpsManagers.MPSManager.PlaceClients: for the same requests as `AllocateKeepsOthers`.
- MpsManagers.MPSManager.Allocate: for the same requests as `AllocateKeepsOthers`.
- MPS memory limits, process ids, pipe and log paths and `SetActiveThreadPercentage` are left out. Runs do not configure a pool again while it has daemons, and pools do not share devices; the lemmas with `Iff` say what happens otherwise.
- LocalCaches.LocalCache.Evict: requires that no orders of the map keep the loop running; `MaySpinIff` says that this is exactly when it ends.
- HighWaterProtocol.AboveMarkIsAttendedIff: in the protocol the search of an eviction finds a least recently used entry, as it does without an entry under the empty key.
- LocalCacheRuns.LookupIsLatest: compression and decompression are any functions of which the second undoes the first; gzip and zstd are not modelled.
- LocalCacheRuns.RunAgrees: the disk is a map from keys to bytes whose writes and removals succeed. The source joins keys to paths, so the keys must be clean path elements: distinct ones name distinct files, and none names a directory on another's path. Directories and the saved index are left out.
- TierManagers.Tier: stands for any tier; TTLs passed through the manager, hit counters and latencies are left out, and so is the Redis tier's own accounting (`internal/cache/redis.go`).
- TierManagers.Manager.ConfigureCache: the warm-up it may start is the separate method `WarmupCache`, and creating a tier of a known kind does not fail.
- TierManagers.Manager.Get: the promotion is finished before the operation returns; `LatePromotionCoherentIff` is about one that is not.
- `findSuitablePool`, MIG (`internal/gpu/mig.go`), backends, controllers, API types and metrics are left out.
- Service, namespace, node and device names contain no slash (`JoinInjective`).
