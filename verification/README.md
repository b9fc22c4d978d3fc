# warp_cache in Dafny

warp_cache memoises Python functions in two backends that share one eviction policy, SIEVE: a cross-process cache in
shared memory (a linear-probing hash table over a slab of slots threaded by an eviction list and a free chain, read
without locks under a seqlock) and an in-process cache (sharded maps with a deque and an index hand). Around them stand a
tagged serializer, and a single-flight protocol for async functions. This project models the four parts and proves what
they keep over every state, run and interleaving.

## How it is built

The code that updates memory in place is imperative here too; each method is tied to a function on values, and the
theorems are about those functions and their runs.

| file | models |
|---|---|
| `Layout.dfy` | region layout, masks, table sizing (`src/shm/layout.rs`, `src/shm/region.rs`) |
| `HashTable.dfy` | probing, insertion, backward-shift deletion on bucket arrays (`src/shm/hashtable.rs`) |
| `Sieve.dfy`, `Ordering.dfy` | the SIEVE scan as a function; list surgery and the scan on slot arrays (`src/shm/ordering.rs`) |
| `Slab.dfy` | the shared cache as a value: listed slots, free slots, cells, hand |
| `ShmCache.dfy` | the class over header, bucket array and slot array (`src/shm/mod.rs`); every method does to `Model()` what the `Slab` function does |
| `CacheTheorems.dfy` | the shared cache as a bounded map with time-to-live, single steps and all runs; gets that take their phases one at a time |
| `Seqlock.dfy` | readers and writers as single-word steps (`src/shm/lock.rs`) |
| `OptimisticRead.dfy` | the lock-free lookup as a program of single-word loads, torn or validated |
| `Shard.dfy`, `CachedFunction.dfy` | shards, sharding, in-process cached function (`src/store.rs`) |
| `DequeScan.dfy` | which entry an eviction takes from a deque with stale and repeated keys |
| `CachedRuns.dfy` | all runs of the in-process cache: what hits return, how large cache and deques get |
| `Bisimulation.dfy` | the shared cache and one shard of the in-process cache are the same SIEVE queue when nothing expires |
| `Backends.dfy` | the two backends as callers see them: when they can be told apart |
| `Serde.dfy` | the tagged format (`src/serde.rs`) |
| `SharedStore.dfy` | key objects, memoisation, the shared cached function (`src/shared_store.rs`) |
| `SingleFlight.dfy` | async coalescing (`warp_cache/_decorator.py`) |

Modelling decisions that matter when reading the contracts:

- The hash is a fixed function of the key bytes, chosen freely; a caller passes the hash of its key.
- Readers store `visited` with no lock held. The argument `marks` of an eviction gives, for each step of its scan, the
  bits that readers set just before that step; `marks == []` is the undisturbed scan. Anywhere else in a write section
  such a store commutes with the section or is overwritten by it, so it is the separate step `DoMark`.
- A get that another process interrupts is its read phase (`Peek`), then a `DoMark` or a `DoReap` where there is one, then
  its `DoCount`; an uninterrupted get is `DoGet`. All of them are steps of the runs in `CacheTheorems`.
- A slot's key and value are byte sequences whose lengths are the length fields; `OptimisticRead` goes down to the words.
- Time is an argument; age is the saturating difference of clock readings that the code computes.
- Python strings that have a UTF-8 form are that form, checked against the well-formedness table of RFC 3629, section 4.
  Pickle is any pair of functions where loading what was dumped gives the object back.
- Without time-to-live is `ttl == 0` in the shared backend and `None` in the in-process one, as in the code: a
  time-to-live of zero means "never expires" in the first and "expires at once" in the second.

Where code and documentation differ, the model follows the code:

- `src/serde.rs:3-4` speaks of flat tuples; the code nests them to any depth, and so do the round trips.
- `docs/usage.md` gives `max_size` as the limit; the in-process cache keeps it exactly when `max_size` is a positive
  multiple of the number of shards, and some run exceeds it otherwise (`LimitKeptIff`).
- The scan's fallback is described as a remainder case; it is unreachable undisturbed (`QuietScan`), reachable from every
  state when readers keep re-marking entries (`FallbackUnderInterference`), and `FallbackIff` says exactly when.
- `docs/ARCHITECTURE.md` calls SIEVE unified across both backends. Without time-to-live, runs that set no present key and
  store nothing too large for the shared backend get equal answers from both exactly when `max_size` is below 16 (above,
  there are several shards) and Python tells keys apart as their bytes do (`BackendsAgreeIff`); there, other requests part
  them at once (`RequestIff`). With a time-to-live, the in-process scan can evict a visited entry although an unvisited
  one is stored, exactly when the deque repeats a key before that (`VisitedVictimIff`).

Results that the code's comments do not mention: an expired get that is interrupted can delete a fresh entry, and
`ReapDropsFreshIff` says exactly when; the in-process deques are bounded exactly without time-to-live or with `max_size` 0
(`DequesBoundedIff`), and a repeated deque entry can cost the key just hit its place (`RepeatCostsSecondChance`); payloads
of 2^32 bytes or more do not survive the codec, and only those (`RoundTripIff`); a coalesced async call can call the
function although its leader has just returned a result - when that was too large to keep, when its own arguments are
equal in Python but serialized differently, or when the entry is lost again before it wakes (`ServedIff`).

## Model

| member | source | states |
|---|---|---|
| Layout.IdealIsMod | src/shm/hashtable.rs:24-25 | truncating the hash to 32 bits and masking it is reduction modulo the power-of-two table size |
| Layout.NextIndexIsStep | src/shm/hashtable.rs:50 | the masked increment is the cyclic successor |
| Layout.HtCapacitySpec | src/shm/region.rs:102-116 | the table is a power of two, at least twice and under four times the capacity, and sizing succeeds exactly up to the 2^30 limit that the Python layer enforces |
| Layout.SlotInRegion | src/shm/layout.rs:105-117 | every slot lies behind the buckets and inside the region |
| HashTable.FewEntriesLeaveRoom | src/shm/hashtable.rs:1-4 | a table with more buckets than slots always has an empty bucket |
| HashTable.HtLookup | src/shm/hashtable.rs:16-54 | finds an entry with this hash and key exactly when the table has one, wherever it sits |
| HashTable.HtInsert | src/shm/hashtable.rs:60-78 | always finds room, adds exactly one entry, keeps every probe path unbroken |
| HashTable.ShouldMoveIsOnPath | src/shm/hashtable.rs:141-146 | the wrap-around case distinction says exactly that the hole lies on the entry's probe path |
| HashTable.HoleCloses | src/shm/hashtable.rs:131-139 | when the shift meets an empty bucket no probe path is broken, across wrap-around |
| HashTable.ShiftBack | src/shm/hashtable.rs:130-166 | the deletion loop terminates, removes exactly the entry at its position and restores the probing invariant |
| HashTable.HtRemove | src/shm/hashtable.rs:86-167 | removes exactly the entry of the key, or nothing when there is none |
| HashTable.RemovalKeepsOtherLookups | src/shm/hashtable.rs:80-85 | the removal leaves every other key's lookup result as it was |
| HashTable.HtClear | src/shm/hashtable.rs:173-179 | leaves every bucket empty |
| Sieve.QuietScan | src/shm/ordering.rs:65-114 | an undisturbed scan stops within list length plus one steps, never by exhaustion, at the first unvisited entry in cyclic order from the hand (at its start when all are visited), clearing exactly the bits it passed |
| Sieve.OutcomeUnique | src/shm/ordering.rs:65-70 | that description leaves one possible victim and one possible set of bits |
| Sieve.FallbackIff | src/shm/ordering.rs:85-113 | the fallback is reached exactly when at every step of the budget the slot looked at was marked since the scan last passed it, or is met for the first time and was visited at the start |
| Sieve.FallbackUnderInterference | src/shm/ordering.rs:111-113 | whatever the list, bits, hand and budget, readers marking the slot that comes next drive the scan into its fallback |
| Sieve.FallbackNeedsMarks | src/shm/ordering.rs:85-113 | what that costs the readers: initial bits and marks made during the scan together are at least the step budget |
| Sieve.ScanUnderMarks | src/shm/ordering.rs:85-113 | whatever readers mark, the scan ends at the first slot from the hand that it does not find visited, and when the budget runs out before, at the slot it has come to; the bits it leaves on the list are those set since it last passed |
| Ordering.ListRemove | src/shm/ordering.rs:25-45 | unlinks one slot: the rest is the doubly linked list of the remaining order, no data changes |
| Ordering.ListPushTail | src/shm/ordering.rs:51-63 | appends one slot to the doubly linked list, no data changes |
| Ordering.SieveEvict | src/shm/ordering.rs:75-114 | victim, visited bits and hand are those of the scan, for any marks of readers, within 2 x capacity steps |
| Slabs.FullListHasHand | src/shm/mod.rs:353-362 | with no free slot every slot is listed, so a hand left stale by a removal is a list member when a scan starts |
| Slabs.SlotCount | src/shm/region.rs:179-191 | listed and free slots together are the capacity |
| Slabs.InsertWF | src/shm/mod.rs:323-426 | an insert keeps the partition of the slots, unique keys and a usable hand, whatever readers mark |
| Slabs.RemoveWF | src/shm/mod.rs:429-462 | a removal keeps them too, though it does not repair the hand |
| ShmCaches.LookupIsFind | src/shm/mod.rs:328-336 | the probing lookup answers as a search of the listed slots does |
| ShmCaches.CreateRegion | src/shm/region.rs:81-202 | creation fails exactly for capacity 0 or beyond 2^30 and otherwise gives a valid empty cache |
| ShmCaches.ShmCache.constructor | src/shm/region.rs:149-191 | zeroed memory filled in loops is a valid cache: empty buckets, all slots chained free |
| ShmCaches.ShmCache.Peek | src/shm/mod.rs:158-211 | one undisturbed read pass finds the key, and tells expired from fresh |
| ShmCaches.ShmCache.MarkVisited | src/shm/mod.rs:264-276 | a lock-free mark of any slot keeps all views in agreement |
| ShmCaches.ShmCache.RemoveSlot | src/shm/mod.rs:429-462 | table, list, free chain and counter agree after a removal |
| ShmCaches.ShmCache.Reap | src/shm/mod.rs:286-312 | the write phase of an expired get removes its key's entry if the slot still holds it, in any state |
| ShmCaches.ShmCache.Get | src/shm/mod.rs:258-313 | a get on the arrays is the get on the value, all views kept |
| ShmCaches.ShmCache.EvictSlot | src/shm/mod.rs:360-390 | the victim leaves table and list; the hand may come to rest on the victim itself at capacity 1 |
| ShmCaches.ShmCache.Insert | src/shm/mod.rs:316-426 | an insert on the arrays is the insert on the value; the "shouldn't happen" return is unreachable |
| ShmCaches.ShmCache.Clear | src/shm/mod.rs:472-503 | everything is freed, counters and hand reset, all views kept |
| CacheTheorems.GetSpec | src/shm/mod.rs:258-313 | a get answers from the map, deletes its key exactly when expired, nothing else, and counts one hit or one miss |
| CacheTheorems.GetInTime | src/shm/mod.rs:196-202 | a stored key is hit, with its value, exactly if there is no time-to-live or it is at most that much later than its creation; else it is missed and gone |
| CacheTheorems.GetWhole | src/shm/mod.rs:258-313 | the whole state after a get of a listed key: the visited bit of its slot and the hit counter, or its slot freed first in the chain and the miss counter |
| CacheTheorems.MissWhole | src/shm/mod.rs:278-281 | a get of a key that no slot holds counts a miss and changes nothing else |
| CacheTheorems.InsertSpec | src/shm/mod.rs:323-426 | an insert sets its key and loses another only when its own was new and the cache full: exactly the scan's victim |
| CacheTheorems.InsertPresent | src/shm/mod.rs:339-350 | the whole state after an insert of a listed key: new value and time, visited |
| CacheTheorems.InsertWithRoom | src/shm/mod.rs:352-426 | the whole state after an insert with a free slot: the first free one at the tail, unvisited, the hand as it was |
| CacheTheorems.InsertFull | src/shm/mod.rs:361-426 | the whole state after an undisturbed insert into a full cache: the first unvisited slot from the hand moves to the tail with the new entry, the hand to its successor, the bits passed are cleared |
| CacheTheorems.ReapSpec | src/shm/mod.rs:286-307 | the second phase of an expired get takes away at most its own key, whatever the age |
| CacheTheorems.ReapWhole | src/shm/mod.rs:429-462 | the whole state after it: unchanged, or the slot unlinked and first in the free chain, the hand as it was |
| CacheTheorems.ClearSpec | src/shm/mod.rs:472-503 | a clear empties the map |
| CacheTheorems.MarkSpec | src/shm/mod.rs:264-276 | marks of readers never change what is stored |
| CacheTheorems.QuietEviction | src/shm/mod.rs:358-390 | undisturbed, the victim is the first unvisited entry from the hand and the hand moves to its successor |
| CacheTheorems.EvictionFallsBackIff | src/shm/ordering.rs:85-113 | an eviction of the cache forgets its hand exactly when all its 2 x capacity steps met a bit set at the start or anew since the last pass |
| CacheTheorems.StepAnswer | src/shm/mod.rs:258-503 | no step but an insert of a key changes what the key stands for while it is present |
| CacheTheorems.HoldsLastInsert | src/shm/mod.rs:258-503 | in every reachable state each stored value is the one last inserted since the last clear |
| CacheTheorems.HitIsFresh | src/shm/mod.rs:258-313 | after any run a hit returns the last inserted value, no older than the time-to-live |
| CacheTheorems.Retained | src/shm/mod.rs:258-503 | an unexpired key is lost only to a clear, a reap of its slot, its own expired get, or as the victim of a new key in a full cache |
| CacheTheorems.ReapMayDropFresh | src/shm/mod.rs:286-307 | an expired get interrupted by an insert of its key deletes the fresh entry |
| CacheTheorems.ReapDropsFreshIff | src/shm/mod.rs:286-307 | whatever happens between its two phases, an expired get deletes its key's entry exactly when that sits in the slot it saw, and an unexpired one exactly when the key was inserted anew in between and that insert has not expired |
| GetRuns.EachGetCountsOnce | src/shm/mod.rs:278-311 | in every interleaving of gets in phases with all other steps, the counters are the numbers of hits and misses answered since the last clear |
| GetRuns.AnswerIsTruthful | src/shm/mod.rs:258-313 | a get that ends answers a hit exactly when its key was stored and in time at its last read phase, read off the actions; an action without its earlier phase answers nothing |
| GetRuns.PhasesAct | src/shm/mod.rs:258-313 | its write phase marks, or reaps, the slot that then held the key; its end counts |
| GetRuns.HitsAreTruthful | src/shm/mod.rs:278-311 | hits are exactly the gets that have ended since the last clear and whose key was stored and in time when they read, misses the others |
| CacheTheorems.PhasesAreGet | src/shm/mod.rs:258-313 | the phases of a get run without interruption are the whole get: mark and hit, miss, or reap and miss |
| CacheTheorems.Conservation | src/shm/mod.rs:323-503 | in every reachable state the lists partition the slots, sizes agree with the list length and an eviction has a usable hand |
| Seqlock.StepInv | src/shm/lock.rs:59-123 | every step of every thread keeps the protocol's invariant |
| Seqlock.WritersExclude | src/shm/lock.rs:82-96 | in every interleaving at most one thread holds the write lock |
| Seqlock.StepMonotone | src/shm/lock.rs:97-122 | data changes only while the sequence number is odd, and the number never falls |
| Seqlock.StoodStill | src/shm/lock.rs:72-78 | an even number seen at two moments means the memory stood still between them |
| Seqlock.ValidatedReadIsAtomic | src/shm/mod.rs:215-249 | a reader that returns has the result its loads would have on one committed state, in every interleaving, and on that state no other number of loads ends with another result |
| Seqlock.ValidatedReadSawOneState | src/shm/lock.rs:59-78 | that state was the memory at every moment from the load of the number to its validation |
| Seqlock.LoneWrite | src/shm/lock.rs:82-122 | whenever the lock is free, a thread running alone gets through a write: lock taken and released, number up by two, exactly its words stored and committed |
| Seqlock.LoneRead | src/shm/lock.rs:59-78 | whenever the lock is free, a reader running alone returns its program's result on the present memory |
| Seqlock.ReaderTurns | src/shm/mod.rs:215-249 | a reader returns when its number still stands and begins anew when it does not |
| Seqlock.LockWaits | src/shm/lock.rs:82-96 | a thread that wants the lock waits while it is taken |
| Seqlock.HolderReleases | src/shm/lock.rs:97-122 | whoever holds the lock gives it back when it runs on |
| Seqlock.NoDeadlock | src/shm/lock.rs:82-96 | from every reachable state any waiting thread can come to write |
| OptimisticLookup.TornReadsStayInBounds | src/shm/mod.rs:137-211 | whatever words a torn read delivers, every load lies in the bucket array or in one slot of the region |
| OptimisticLookup.TornReadsStop | src/shm/mod.rs:161-211 | whatever it reads, the lookup stops after a number of loads fixed by configuration and key |
| OptimisticLookup.TornProbesBounded | src/shm/mod.rs:161 | it never probes more buckets than there are |
| OptimisticLookup.SpansApart | src/shm/layout.rs:26-117 | behind 256 bytes of header, every word of a bucket (16 bytes) or slot (64 bytes and data) has bytes of its own inside the region |
| OptimisticRead.LookupIsPeek | src/shm/mod.rs:146-211 | on a quiet well-formed memory the word-by-word lookup answers as the cache does |
| OptimisticRead.WriteSection | src/shm/mod.rs:286-503 | run on the arrays, insert, reap and clear leave what represents the next state of the history, whatever words represent them |
| OptimisticRead.LookupInHistory | src/shm/mod.rs:215-249 | in every interleaving a validated lookup answers as the cache does after the history up to the committed state it read |
| OptimisticRead.CommittedSnapshots | src/shm/mod.rs:215-503 | section by section every committed memory holds the cache after its prefix of the history, lock-free marks and counts in between |
| OptimisticRead.ValidatedHitIsFresh | src/shm/mod.rs:215-313 | in every interleaving a validated hit is the value last inserted for its key, since the last clear, in the history up to the committed state it read, and is no older than the time-to-live |
| OptimisticRead.CacheIsSnapshot | src/shm/layout.rs:26-99 | the arrays of a valid cache are such a well-formed memory |
| ShardModel.EvictScanSpec | src/store.rs:267-311 | with stale and repeated deque entries allowed the eviction loop ends with one entry evicted, or the deque empty |
| ShardModel.EvictOneSpec | src/store.rs:261-312 | evict_one removes exactly one entry when something is stored, only clearing bits elsewhere, and otherwise empties the deque |
| ShardModel.VictimIsUnvisited | src/store.rs:272-309 | on any deque, stale and repeated keys included, the scan reaches a stored entry unvisited at the moment of its removal, within as many rounds as there are deque entries and visited bits |
| ShardModel.MakeRoomSpec | src/store.rs:553-559 | the eviction loop before an insert ends with room and evicts no more than needed |
| Shards.Shard.EvictOne | src/store.rs:261-312 | the loop over map, deque and hand computes the modelled eviction |
| Shards.Shard.MakeRoom | src/store.rs:553-559 | the in-place loop computes the modelled one and terminates |
| Shards.Shard.Probe | src/store.rs:475-493 | the read phase on the shard |
| Shards.Shard.Store | src/store.rs:528-568 | the write phase on the shard, with its double check |
| Shards.Shard.SetValue | src/store.rs:669-696 | set on the shard: an existing key becomes unvisited |
| ShardTheorems.StoreSpec | src/store.rs:531-568 | a store over a fresh entry changes nothing; otherwise it stores and loses at most one other key, only when full |
| ShardTheorems.SetSpec | src/store.rs:672-695 | set replaces in place or stores, with the same bounds |
| ShardTheorems.ProbeSpec | src/store.rs:475-493 | a probe hits exactly the keys present and not expired, and changes neither keys nor deque |
| ShardTheorems.ProbeInTime | src/store.rs:475-493 | a stored key is hit exactly if there is no time-to-live or it is at most that much later than its creation, and then marked visited; else the shard stays as it is |
| ShardTheorems.StoreInTime | src/store.rs:531-568 | a stored key is overwritten exactly when a time-to-live is set and over |
| ShardTheorems.StoreWhole | src/store.rs:549-568 | the whole shard after a store: nobody evicted with room, one `evict_one` without, the key unvisited at the back of the deque |
| ShardTheorems.SetWhole | src/store.rs:669-696 | the whole shard after a set: a stored key in its place, unvisited; a new one as in a store |
| ShardTheorems.StoreClean | src/store.rs:549-568 | without time-to-live the deque stays a duplicate-free listing of the stored keys |
| ShardTheorems.OrderGrows | src/store.rs:551-567 | n stores of one expiring key leave one entry and n copies of its key in the deque |
| DequeScans.EvictOneClosed | src/store.rs:261-312 | on every deque the victim stands at the first position from the hand holding a stored key that is unvisited or was already passed, else at the first stored one; exactly the stored keys passed lose their bit, exactly the stale positions passed are gone |
| DequeScans.VictimUnique | src/store.rs:261-312 | that description leaves one possible position |
| DequeScans.VisitedVictimIff | src/store.rs:284-301 | with an unvisited entry stored, a visited one is evicted exactly when the deque repeats a stored key, from the hand on, before the first unvisited stored key |
| DequeScans.CleanSparesVisited | src/store.rs:284-301 | a duplicate-free deque never gives up a visited entry while an unvisited one is stored |
| StaleEntries.RestockedState | src/store.rs:551-567 | under every time-to-live, stores and a hit lead to a full shard whose deque repeats a visited key before the unvisited one |
| StaleEntries.RepeatCostsSecondChance | src/store.rs:284-301 | there the next new key evicts the key just hit and keeps the one never asked for |
| CachedModel.ShardCountIs | src/store.rs:414-417 | 1 shard below max_size 16, 2 below 24, 4 below 40, 8 below 72, else 16 |
| CachedModel.PerShardIsLeast | src/store.rs:418 | the capacity of a shard is the least that makes all together hold max_size |
| CachedModel.NewCachedIs | src/store.rs:413-455 | a new cache has that many empty shards of that capacity, and counters at zero |
| CachedModel.ShardIndexIsMod | src/store.rs:467 | masking the signed hash is reduction modulo the number of shards |
| CachedModel.ApplyKeeps | src/store.rs:458-742 | every step keeps each shard covered and bounded, holding only its own keys |
| CachedModel.ApplyWhole | src/store.rs:458-742 | every step touches only the shard that the key's hash selects, there does what the shard's operation does, and counts what it should |
| CachedModel.SizeBound | src/store.rs:413-418 | after any run the total is at most max_size plus shards minus one; one for max_size 0 |
| CachedModel.KeyInOwnShard | src/store.rs:467 | after any run a key is stored only in the shard of its hash |
| CachedModel.CleanWithoutTtl | src/store.rs:524-569 | without time-to-live, after any run each deque lists exactly the stored keys once |
| CachedRuns.HoldsLastStored | src/store.rs:458-699 | after every run, by any threads, an entry holds what was last stored for its key since the last clear |
| CachedRuns.HitIsFresh | src/store.rs:475-493 | a hit returns that value, no older than the time-to-live |
| CachedRuns.HitIsTruthful | src/store.rs:458-574 | when all writers store the function's values, every hit returns the function's value |
| CachedRuns.LargestReached | src/store.rs:414-418 | some run fills every shard, whatever max_size |
| CachedRuns.LimitKeptIff | src/store.rs:414-418 | all runs keep the total within max_size exactly when max_size is positive and a multiple of the number of shards |
| CachedRuns.RoundingExceedsLimit | src/store.rs:414-418 | a run holds 28 entries with max_size 25 |
| CachedRuns.DequesBoundedIff | src/store.rs:551-567 | the deques have a bound over all runs exactly without time-to-live or with max_size 0 |
| CachedFunctions.CachedFunction.constructor | src/store.rs:413-455 | the shards are built empty, with the rounded capacity |
| CachedFunctions.CachedFunction.Read | src/store.rs:464-497 | the read phase touches one shard and counts a hit |
| CachedFunctions.CachedFunction.Get | src/store.rs:576-654 | `get` and `_probe` are the read phase and a counted miss |
| CachedFunctions.CachedFunction.Write | src/store.rs:528-573 | the write phase touches one shard and counts a miss |
| CachedFunctions.CachedFunction.Set | src/store.rs:658-699 | set touches one shard and no counter |
| CachedFunctions.CachedFunction.Clear | src/store.rs:727-742 | clear empties every shard and the counters |
| SieveQueues.ScanProjects | src/shm/ordering.rs:85-109 | scanning slots through the list is scanning positions |
| SharedIsQueue.SharedCallIsQueueCall | src/shm/mod.rs:258-426 | without time-to-live a call on the shared cache is a call on a SIEVE queue |
| ShardIsQueue.EvictScanIsQueueScan | src/store.rs:267-311 | the deque scan evicts as the queue scan does |
| ShardIsQueue.MemoryCallIsQueueCall | src/store.rs:458-574 | without time-to-live a call on a shard is a call on the same queue |
| Bisimulation.StepAlike | src/store.rs:458-699 | a call, look-up, set or clear on equal queues, of one shard and the shared cache, gives equal answers, and equal queues exactly unless it sets a present key |
| Bisimulation.OneShardAgrees | src/shm/ordering.rs:75-114 | an empty shard and an empty shared cache of its capacity give the same answers over every run that sets no present key, and end with the same entries, bits and next victim |
| Bisimulation.OneShardAgreesIff | src/store.rs:261-312 | shard and shared cache stay alike all through a run exactly when it never sets a present key |
| Bisimulation.SetsDiffer | src/shm/mod.rs:339-350 | setting a present key marks it visited in the shared cache and unvisited in the shard, and parts them |
| Bisimulation.SetAlikeIff | src/store.rs:672-695 | a set keeps shard and shared cache alike exactly when its key is absent |
| Backends.RequestIff | src/shared_store.rs:124-200 | below max_size 16, with keys told apart alike: every request gets equal answers from backends that are alike, counters included, and leaves them alike exactly when it sets no present key and stores nothing too large |
| Backends.SharedDoIs | src/shared_store.rs:124-220 | what each request does to the shared cache, oversize skips included |
| Backends.AlikeIffNeutral | src/store.rs:458-699 | there, over every run: alike all along exactly when all requests are such, and then all answers are equal |
| Backends.EqualKeysPart | src/shared_store.rs:228-268 | keys equal in Python but different in bytes part the backends, at every size |
| Backends.ShardsPart | src/store.rs:413-418 | with two or more shards, one key more than a shard holds parts the backends |
| Backends.BackendsAgreeIff | docs/ARCHITECTURE.md:52-53 | all runs that set no present key and store nothing too large get equal answers from both backends exactly when max_size is below 16 and Python tells keys apart as their bytes do |
| Serde.Buffer.SerializeElement | src/serde.rs:59-142 | appends the encoding, or leaves the buffer exactly as it was, at any nesting depth |
| Serde.Serialize | src/serde.rs:21-28 | the encoding, or nothing for unsupported values |
| Serde.DeserializeOne | src/serde.rs:145-228 | the recursive loop decoder terminates on any bytes, within bounds, with the result that `DecodesIff` and `BadUtf8Iff` describe |
| Serde.DecodesIff | src/serde.rs:145-228 | exactly what decodes: a prefix that is the encoding of some object |
| Serde.BadUtf8Iff | src/serde.rs:191-193 | exactly what raises: the first thing wrong, at any depth, is a whole text that is no sequence of Unicode scalar values |
| Serde.ValidUtf8Iff | src/serde.rs:191-193 | the accepted texts are exactly the UTF-8 forms of sequences of Unicode scalar values |
| Serde.ProperIff | src/serde.rs:85-104 | what counts as an object: 64-bit floats, texts of scalar values, tuples of objects, and everything else |
| Serde.EncodableIff | src/serde.rs:59-142 | what the format covers: None, bools, 64-bit ints, floats, texts, bytes, and tuples of up to 255 such |
| Serde.FormatIs | src/serde.rs:59-142 | tags, 32-bit lengths, two's complement and byte order of every encoding |
| Serde.DecodeOne | src/serde.rs:145-228 | it consumes at least one byte and no more than there are |
| Serde.RoundTrip | src/serde.rs:59-228 | decoding an encoding followed by anything gives the value and its encoded length |
| Serde.RoundTripIff | src/serde.rs:106-117 | a value survives exactly when no payload in it reaches 2^32 bytes |
| Serde.Canonical | src/serde.rs:145-228 | whatever decodes re-encodes to exactly the bytes consumed |
| Serde.PrefixFree | src/serde.rs:1-4 | no encoding is a prefix of another value's |
| Serde.NeverPickleTag | src/serde.rs:36-38 | successful output never starts with the pickle tag |
| Memoisation.StoredComesBack | src/shared_store.rs:278-307 | every object that fits comes back as itself, by the format or by pickle |
| Memoisation.BytesAre | src/shared_store.rs:247-307 | the tagged format exactly where it covers the object, else a zero byte and the pickle; and what comes back of every kind of bytes |
| Memoisation.KeyBytesInjective | src/shared_store.rs:247-256 | equal key bytes mean equal key objects |
| Memoisation.KeyCollision | src/shared_store.rs:235-245 | two calls share a key object exactly when equal or one is the other's keyword part passed positionally |
| Memoisation.PhasesAre | src/shared_store.rs:131-156 | a key or a result is skipped exactly when its bytes exceed its limit |
| Memoisation.PhaseFaithful | src/shared_store.rs:124-156 | every phase of every process keeps all stored pairs faithful to the function |
| Memoisation.Transparent | src/shared_store.rs:124-156 | after any interleaving a look-up finds nothing or exactly the function's value |
| SharedStore.SharedCachedFunction.StoreResult | src/shared_store.rs:270-295 | oversize results are skipped and counted, others inserted |
| SharedStore.SharedCachedFunction.Call | src/shared_store.rs:124-156 | a call returns the function's value and leaves the cache its phases prescribe |
| SharedStore.NewSharedCachedFunction | src/shared_store.rs:58-82 | construction fails exactly for max_size 0 or beyond 2^30 |
| SingleFlight.StepInv | warp_cache/_decorator.py:81-115 | every step of every coroutine keeps the table and the events consistent |
| SingleFlight.OneLeader | warp_cache/_decorator.py:94-115 | under every schedule each loop and key has at most one running leader, and the table holds exactly the leaders' unset events |
| SingleFlight.PopsOwnEvent | warp_cache/_decorator.py:113-115 | the entry a leader drops is its own |
| SingleFlight.NoLostWakeup | warp_cache/_decorator.py:96-104 | every waiter can wake or is waiting for a running leader of the same loop and key |
| SingleFlight.EveryEndReleases | warp_cache/_decorator.py:109-115 | result, exception or cancellation, a leader's end sets its event and frees the key |
| SingleFlight.CachedCall | warp_cache/_decorator.py:82-84 | a call whose entry is cached returns that and changes nothing else |
| SingleFlight.JoinsLeader | warp_cache/_decorator.py:94-98 | a call that misses while an equal one runs waits for that one's event |
| SingleFlight.BecomesLeader | warp_cache/_decorator.py:106-110 | a call that misses while none runs registers its own unset event and calls the function, once |
| SingleFlight.LeaderEndings | warp_cache/_decorator.py:109-115 | a result is stored if kept, and returned; an exception or cancellation goes to the caller and stores nothing; each sets the event and frees the key |
| SingleFlight.WaitersWait | warp_cache/_decorator.py:96-104 | a waiter does nothing before its event is set, and then returns the cached value or goes on as a miss |
| SingleFlight.WaitersNeverCall | warp_cache/_decorator.py:82-104 | while a stored result is retained nobody who waits or is yet to start calls the function |
| SingleFlight.SuccessServesWaiters | warp_cache/_decorator.py:97-112 | a leader's stored result serves every waiter that has the same cache entry |
| SingleFlight.ServedIff | warp_cache/_decorator.py:97-112 | a waiter woken when its leader has returned is served exactly when its own entry is the leader's and the result was kept, or was stored by others, and has not been lost; otherwise it calls the function |
| SingleFlight.AtMostOneCall | warp_cache/_decorator.py:81-115 | with results kept and no failure, cancellation or loss, the calls of one loop, key and entry reach the function at most once, under every schedule |

## Left out

- Python objects: reference counts, `__eq__`, `__hash__`, exceptions of the wrapped function, sorting of keyword items; keys have lawful equality.
- Files, mmap, permissions, advisory locks and the reuse of an existing region; a cache starts freshly created.
- Weak memory and fences: single-word steps interleave sequentially consistently; the sequence number does not wrap; no process dies holding the lock.
- Struct padding and 32-bit overflow of the slot size; `unique_id`, which nothing reads.
- ahash, and pickle beyond its round trip; subclasses of int, str and tuple, which the codec flattens.
- The reentrancy guard, the GIL and lock plumbing, `cache_info`, backend selection, the Windows stub.
- A coroutine that awaits its own key while leading it: the wrapped coroutine eventually completes, fails or is cancelled.
- ShmCaches.ShmCache.Insert: counters and lengths, here and in all methods of the class, are unbounded naturals instead of u32 and u64.
- OptimisticRead.LookupInHistory: the single word stores of a write section are free; that a section begun on a well-formed cache performs some operation is the hypothesis `Performs`, which `WriteSection` proves of the methods on the arrays.
- OptimisticRead.ValidatedHitIsFresh: under the same hypothesis.
- Backends.BackendsAgreeIff: requests come one after the other and from hashable arguments (only the in-process backend rejects others); max_size is one that the shared backend accepts; the same key pickles to the same bytes.
