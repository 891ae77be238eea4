# Tapyrus data structures and algorithms in Dafny

Tapyrus is a blockchain node derived from Bitcoin Core. This project models the in-memory data
structures and algorithms at its centre and proves, for all inputs and all runs, what they promise.
Code that updates fields or arrays in place is a class or a loop here, with a contract that ties
its result to a specification function; the properties are lemmas about those functions.

| files | part of the node |
|---|---|
| AddrManState, AddrManSteps, AddrManOps, AddrManEffects, AddrMan | address manager: the state and its invariant, the single steps, the operations and what each does, and the mutable object |
| AddrManCheck, AddrManRuns, AddrManClear, AddrManFile, AddrManRestore | its consistency scan, whole runs, clearing, the file format, and reading it back |
| CoinsLayer, Coins, CoinsStack | UTXO cache: one layer's flags, the caches, and stacks of them |
| CheckQueue, CheckQueueRuns | script check queue: the critical sections, and every interleaving |
| MinerPool, Miner | block assembler over the mempool graph |
| MerkleTree, PartialMerkle | partial Merkle trees, BIP 37 section "Partial Merkle branch format" |
| Cuckoo | signature cache |
| Bits64, RollingBloom | rolling Bloom filter |
| CompactBlock, CompactRelay | compact block relay, BIP 152 |
| Bech32Poly, Bech32Field, Bech32Roots, Bech32Errors, Bech32 | Bech32 text, BIP 173 section "Bech32": the register, the field of 1024 elements, the roots of the generator, error detection, and the text |
| Radix, Base58 | Base58 text |
| Limbs, LimbShifts, LimbDivision, ArithUint, CompactTarget | 256-bit arithmetic and compact targets |
| SkipHeights, Chain | skip heights and the length of walks; block index, skip list and active chain |
| Options, Numbers | a value that may be missing; shared arithmetic |

Hash functions, random draws, clock readings, the mempool contents and the outcome of full block
validation are parameters, so every statement holds for all of them. Where a lemma needs more, such as
an injective pair hash, it says so in its `requires`.

Where the code and its own words differ, the model follows the code:

- In the cuckoo cache the first displacement goes to the second location, because the search for the
  invalid location returns 8 and one is added; the comment names the first (src/cuckoocache.h:416-430).
- SpendCoin returns true for a spent entry that the cache keeps; the coin moved out is then spent
  (src/coins.cpp:108-129).
- GetCoin of a view is documented to return true only for an unspent coin (src/coins.h:150-153); FetchCoin
  also handles a base that returns a spent one (src/coins.cpp:50-54), and the model allows such a database.
- Clear of the address manager keeps the pending collisions although ids start again from 0
  (src/addrman.h:472-495). A pending id that is given out again then names an entry whose tried slot is empty,
  where SelectTriedCollision_ looks up id -1. `AddrManClear.PendingOutlivesClear` is a run that gets there,
  and `AddrManClear.SafeAfterClear` shows that it cannot happen if and only if nothing was pending.
- AddCoin, called without announcing an overwrite where an unspent coin is cached, throws after it has reduced
  cachedCoinsUsage (src/coins.cpp:74-80).
- A FillBlock call that runs out of transactions has already moved out the slots before
  (src/blockencodings.cpp:198-206).
- `CompactRelay.RequestRoundTrip`: an index list that is not strictly increasing is written without
  complaint and refused by the reader (src/blockencodings.h:56-67).
- A division by zero throws after the number has been set to zero (src/arith_uint256.cpp:85-94).

## Model

| member | source | states |
|---|---|---|
| AddrManRuns.RunKeeps | src/addrman.cpp:94-348 | Over every run of Add_, Good_, Attempt_, Connected_, SetServices_, GetAddr_, ResolveCollisions_ and SelectTriedCollision_ from a cleared manager, with any random draws and positive times, all five indexes, the counters, the reference counts and the slot positions stay consistent in every state; from any state to a later one occupied tried slots stay occupied, ids only grow, and a known id keeps its service |
| AddrManRuns.RunPassesCheck | src/addrman.cpp:398-472 | Every state of every such run satisfies each clause of Check_ about the tables and indexes, at most 10 collisions are pending, and every still-known pending id has an occupied tried slot |
| AddrManRuns.IdsNotReused | src/addrman.cpp:82-92 | An id that was handed out and is no longer known stays unknown in every later state of a run |
| AddrManRuns.StepKeeps | src/addrman.cpp:191-348 | One call of any kind keeps the invariant and only extends the state |
| AddrManRuns.GetAddrKeeps | src/addrman.cpp:475-494 | GetAddr_ keeps the invariant, although it reorders vRandom and rewrites positions |
| AddrManRuns.SelectCollisionKeeps | src/addrman.cpp:590-615 | Selecting a pending collision keeps the invariant; the only change is that the drawn id is dropped, exactly when it is no longer known |
| AddrManRuns.Perform | src/addrman.cpp:191-348 | A call on the mutable manager computes exactly the step on its value and leaves it valid |
| AddrManClear.SafeAfterClear | src/addrman.h:472-495 | After Clear, which keeps m_tried_collisions while ids restart at 0, no sequence of Add_ calls leads SelectTriedCollision_ to an entry whose tried slot is -1 if and only if nothing was pending |
| AddrManClear.DanglingAfterAdds | src/addrman.cpp:590-615 | After Clear and any sequence of Add_ calls the lookup of a pending id meets an empty tried slot if and only if that id is known again |
| AddrManClear.DanglingAfterOne | src/addrman.cpp:590-615 | After Clear and one Add_ such an id exists if and only if the address is routable and 0 was pending |
| AddrManClear.SafeRuns | src/addrman.cpp:590-615 | With nothing pending at Clear no later call of any kind leads to such a lookup |
| AddrManClear.PendingOutlivesClear | src/addrman.h:472-495 | A concrete run: two addresses with one tried slot are added and reported good, id 1 is pending; after Clear and two more additions id 1 is known and pending and its tried slot is empty |
| AddrManClear.GiveOut | src/addrman.cpp:255-317 | Adding n different routable addresses to a cleared manager gives out the ids below n, and can leave the last of them known whatever the hashes collide |
| AddrManClear.AddOneNew | src/addrman.cpp:255-317 | An unknown routable address gets the next id, and keeps it if its slot is free or the occupant is terrible |
| AddrManEffects.GoodEffect | src/addrman.cpp:191-253 | What Good_ does: nLastGood is set; an unknown service changes nothing else; a known entry has both times set and no attempts; without the test, or for a free tried slot, it becomes tried in its own slot, without references, and an occupant goes back to its own new slot; with the test and an occupied slot the tables stay, and it becomes pending exactly if fewer than 10 are |
| AddrManEffects.ResolveOneEffect | src/addrman.cpp:538-588 | When a pending id is resolved and how, by the times of the entry in its tried slot: dropped if it is unknown or invalid or that entry succeeded in the last 4 hours; otherwise promoted if that entry was tried in the last 4 hours but not the last minute, and then it is tried in that slot afterwards; otherwise nothing changes |
| AddrManEffects.ResolveTrace | src/addrman.cpp:538-588 | ResolveCollisions_ resolves every pending id once, in increasing order, each in the state its predecessors left; an id is pending afterwards exactly when it was after its own turn |
| AddrManEffects.InsertEffect | src/addrman.cpp:304-325 | The entry gets a reference in the bucket of the source exactly if that slot is free, or its occupant is terrible or has other references while the entry has none; one that has no reference afterwards is gone |
| AddrManEffects.AddKnownEffect | src/addrman.cpp:265-325 | Add_ of a known address: the time moves only when the announced one is newer by the interval and the penalty, services are united, and one more reference is tried exactly if the time is news, the entry is not tried, has fewer than 8 and the draw among 2^n is 0 |
| AddrManEffects.AddNewEffect | src/addrman.cpp:296-325 | Add_ of an unknown address takes the next id, and the address is known afterwards, with its time less the penalty, exactly if it wins its slot |
| AddrManEffects.AttemptEffect | src/addrman.cpp:328-348 | The time of the try is set for an exactly known service, and its failure counted exactly if asked for and none was counted since the last success of any peer; nothing else changes |
| AddrManEffects.ConnectedEffect | src/addrman.cpp:496-514 | The time of an exactly known service moves forward by more than 20 minutes, kept in 32 bits, or nothing changes; within 32 bits it is never more than 20 minutes behind |
| AddrManEffects.TerribleWhen | src/addrman.cpp:34-52 | When an entry is worth keeping, as one condition on its times and attempts |
| AddrManEffects.GetAddrLimitIs | src/addrman.cpp:477-479 | All entries, up to 2500 |
| AddrManEffects.DrawnNext | src/addrman.cpp:481-493 | Each examined position gets the entry drawn among those not examined before, and keeps it |
| AddrMan.AddrMan.Create | src/addrman.cpp:82-92 | The five indexes after Create are those of the value-level step; the new entry is in all of mapInfo, mapAddr and vRandom and in no bucket |
| AddrMan.AddrMan.SwapRandom | src/addrman.cpp:94-112 | vRandom and the two stored positions change together |
| AddrMan.AddrMan.Delete | src/addrman.cpp:114-126 | Both asserts hold; the entry leaves mapInfo, mapAddr and vRandom, and nNew drops by one |
| AddrMan.AddrMan.ClearNew | src/addrman.cpp:128-141 | The slot is freed, its occupant loses one reference and is deleted when that was its last |
| AddrMan.AddrMan.LeaveNew | src/addrman.cpp:145-155 | The first loop of MakeTried removes exactly the references of the entry, whichever buckets hold them, and its count reaches zero |
| AddrMan.AddrMan.Evict | src/addrman.cpp:161-183 | The tried occupant moves back to its own new slot, after whoever was there is cleared; both asserts hold while the moving entry is in neither table |
| AddrMan.AddrMan.MakeTried | src/addrman.cpp:143-189 | The whole move equals the value-level step, every assert passes and the slot is free when written |
| AddrMan.AddrMan.Find | src/addrman.cpp:69-80 | Finds the entry of a network address or reports none |
| AddrMan.AddrMan.FindNewBucket | src/addrman.cpp:220-236 | From any random start the search always finds a new bucket that holds the entry, so the bail-out for an entry without a bucket is unreachable |
| AddrMan.AddrMan.Good | src/addrman.cpp:191-253 | Good_ equals its specification, whose effect AddrManEffects.GoodEffect states, and keeps the invariant, including the pending-collision limit |
| AddrMan.AddrMan.Insert | src/addrman.cpp:304-325 | The second half of Add_ equals its specification: reference, displacement of a terrible or over-referenced occupant, or deletion of an unplaced new entry |
| AddrMan.AddrMan.Add | src/addrman.cpp:255-326 | Add_ equals its specification, whose effects AddrManEffects.AddKnownEffect and AddNewEffect state, with its result, and keeps the invariant |
| AddrMan.AddrMan.Attempt | src/addrman.cpp:328-348 | Attempt_ changes only the named entry and keeps the invariant |
| AddrMan.AddrMan.Connected | src/addrman.cpp:496-514 | Connected_ changes only the time of the named entry, at most every 20 minutes |
| AddrMan.AddrMan.SetServices | src/addrman.cpp:516-532 | SetServices_ changes only the services of the named entry |
| AddrMan.AddrMan.GetAddr | src/addrman.cpp:475-494 | The answer is the non-terrible entries of a prefix of the reordered vRandom: of all of it unless the limit is reached |
| AddrMan.AddrMan.ResolveOne | src/addrman.cpp:538-588 | One pending id is kept, dropped or promoted as its specification decides; the branch for an id without a rival cannot be reached |
| AddrMan.AddrMan.ResolveCollisions | src/addrman.cpp:538-588 | The loop over the pending set equals resolving its ids in ascending order, and keeps the invariant |
| AddrMan.AddrMan.SelectTriedCollision | src/addrman.cpp:590-615 | The entry returned is the occupant of the tried slot the pending entry wants: vvTried never yields -1 there |
| AddrMan.AddrMan.Clear | src/addrman.h:472-495 | Clear takes a new key and resets everything but the pending collisions |
| AddrMan.AddrMan.constructor | src/addrman.h:497-500 | A new manager is the cleared state and satisfies the invariant |
| AddrManOps.GoodKeeps | src/addrman.cpp:191-253 | Good_ with a positive time keeps the invariant; without test-before-evict it leaves the pending set |
| AddrManOps.InsertKeeps | src/addrman.cpp:304-325 | From an entry with fewer than 8 references the second half of Add_ restores the invariant, including for a new entry that has no reference yet |
| AddrManOps.AddKeeps | src/addrman.cpp:255-326 | Add_ keeps the invariant for every address, penalty, time and draw |
| AddrManOps.TouchKeeps | src/addrman.cpp:328-348 | Changing the statistics of one entry keeps the invariant |
| AddrManOps.MakeTriedEffect | src/addrman.cpp:143-189 | What MakeTried does to every entry: the moved one, the evicted one, the one cleared for the evicted one, and all others untouched |
| AddrManOps.MakeTriedExtends | src/addrman.cpp:143-189 | MakeTried restores the invariant it breaks part-way and never empties a tried slot |
| AddrManOps.GetAddrAnswers | src/addrman.cpp:475-494 | By induction over the partial shuffle: the positions stay a permutation and the answer is the usable part of a prefix |
| AddrManOps.AnsweredKeeps | src/addrman.cpp:475-494 | A reordering of vRandom with updated positions keeps the invariant |
| AddrManOps.ResolveOneKeeps | src/addrman.cpp:538-588 | Resolving one pending id keeps the invariant |
| AddrManOps.ResolveFromKeeps | src/addrman.cpp:538-588 | Resolving all pending ids keeps the invariant, whatever the earlier ones evicted |
| AddrManOps.PendingHasRival | src/addrman.cpp:590-615 | Every known pending entry finds a tried entry in its tried slot, and it is another one exactly when the pending entry is not itself tried |
| AddrManOps.ClearedInv | src/addrman.h:472-495 | The cleared state satisfies the invariant |
| AddrManSteps.CreateKeepsCore | src/addrman.cpp:82-92 | Create keeps the indexes consistent, up to the new entry being unreferenced |
| AddrManSteps.SwapRandomIndex | src/addrman.cpp:94-112 | Swapping two positions keeps vRandom and the stored positions inverse to each other |
| AddrManSteps.DeleteKeepsCore | src/addrman.cpp:114-126 | Deleting an unreferenced entry keeps every index and count |
| AddrManSteps.ClearNewKeepsCore | src/addrman.cpp:128-141 | Clearing a new slot keeps the invariant and spares every other entry |
| AddrManSteps.LeaveNewKeepsCore | src/addrman.cpp:145-155 | Leaving the new table keeps all indexes but the entry being moved |
| AddrManSteps.EvictKeepsCore | src/addrman.cpp:161-183 | Eviction keeps all indexes but the entry being moved |
| AddrManSteps.EnterTriedKeepsCore | src/addrman.cpp:184-188 | Entering the free tried slot restores the invariant |
| AddrManSteps.TriedUnreferenced | src/addrman.cpp:409-414 | A tried entry has no reference in the new table |
| AddrManCheck.InvConsistent | src/addrman.cpp:398-472 | The invariant implies every clause of Check_ |
| AddrManCheck.RandomSize | src/addrman.cpp:403-404 | vRandom has exactly nTried + nNew entries |
| AddrManCheck.CheckEntries | src/addrman.cpp:406-430 | The first loop of Check_ returns 0 exactly when every entry is well placed, and then has collected the tried ids and the reference counts |
| AddrManCheck.CheckTried | src/addrman.cpp:437-449 | The scan of the tried table returns 0 exactly when each occupied slot holds a tried entry in its own bucket and position |
| AddrManCheck.CheckNew | src/addrman.cpp:451-462 | The scan of the new table returns 0 exactly when each slot fits and no entry is met more often than its count |
| AddrManCheck.Check | src/addrman.cpp:398-472 | Check_ returns 0 if and only if the whole state is consistent and the key is not null |
| AddrManFile.Serialize | src/addrman.h:317-365 | The stream is the header, every new entry once, every tried entry once, and each bucket as indexes into the new entries |
| AddrManRestore.CountsWithinLimits | src/addrman.h:387-393 | For every valid manager nNew and nTried are within the limits Unserialize enforces, since slots bound them |
| AddrManRestore.Unserialize | src/addrman.h:367-470 | Reading what was written for a valid manager takes no error path and gives a valid manager equal to it up to renaming ids, with nothing pending |
| AddrManRestore.CompleteSame | src/addrman.h:367-470 | Every entry with all its fields but the times of the last tries and its position, the tried slots, the new slots and the totals are the same under the renaming |
| AddrManRestore.CompleteCore | src/addrman.h:367-470 | The manager read back satisfies the invariant |
| AddrManRestore.RoundTrip | src/addrman.h:317-470 | Serialize followed by Unserialize gives a valid manager and loses no entry |
| CoinsStack.Simulate | src/coins.cpp:42-241 | Any run of AddCoin and SpendCoin at the tip, of reads, Uncache and Flush at any level, and of pushing and popping caches, over a stack of any depth, gives exactly the answers of one plain map per level |
| CoinsStack.Perform | src/coins.cpp:42-241 | One operation, at the tip or for reads, Uncache and Flush at any level, keeps every layer's flags right and every view equal to its plain map |
| CoinsStack.FlushAt | src/coins.cpp:220-225 | Flushing at a level makes the next level show what this one showed and changes no other view |
| CoinsCache.CoinsViewCache.constructor | src/coins.cpp:36-36 | A new cache shows what its base shows |
| CoinsCache.CoinsViewCache.FetchCoin | src/coins.cpp:42-57 | Filling the caches on the way changes no view; afterwards an entry is missing only if nothing is visible below |
| CoinsCache.CoinsViewCache.GetCoin | src/coins.cpp:59-66 | Finds exactly the visible coin |
| CoinsCache.CoinsViewCache.HaveCoin | src/coins.cpp:142-145 | True exactly when a coin is visible |
| CoinsCache.CoinsViewCache.AccessCoin | src/coins.cpp:133-140 | The visible coin, or a spent one |
| CoinsCache.CoinsViewCache.AddCoin | src/coins.cpp:68-95 | The coin becomes visible, or nothing changes for an unspendable script; throws exactly when no overwrite was announced and an unspent coin is cached, with the coins unchanged and the accounting reduced; otherwise all flags and the accounting stay right if and only if an overwrite was announced, nothing is visible below, or the entry was dirty |
| CoinsCache.CoinsViewCache.SpendCoin | src/coins.cpp:108-129 | Exactly the visible coin at the outpoint disappears and is handed out, even when a FRESH entry is dropped without telling the base |
| CoinsCache.CoinsViewCache.Uncache | src/coins.cpp:227-241 | Dropping an entry without flags changes no view |
| CoinsCache.CoinsViewCache.Merge | src/coins.cpp:163-215 | One dirty child entry: the parent shows what the child showed, keeps its promises to the grandparent, and the "FRESH flag misapplied" throw is unreachable |
| CoinsCache.CoinsViewCache.BatchWrite | src/coins.cpp:162-218 | Afterwards this cache shows what the child showed, and its base is untouched |
| CoinsCache.CoinsViewCache.Flush | src/coins.cpp:220-225 | The base shows the old view of this cache, this cache is empty and shows the same |
| CoinsCache.CoinsDatabase.BatchWrite | src/coins.h:168-170 | The database as a view: writing a child's dirty entries makes it show what the child showed |
| CoinsLayer.AddedEntry | src/coins.h:110-118 | The entry AddCoin writes shows the coin; its flags are right if and only if an overwrite was announced, nothing is visible below, or the entry was dirty, so they are when nothing was visible |
| CoinsLayer.SpentOk | src/coins.cpp:122-127 | A FRESH entry can be erased and any other must stay as a spent one |
| CoinsLayer.MergedOk | src/coins.cpp:169-213 | All four merge cases show the child's coin and keep the flags right |
| CoinsLayer.NoTrace | src/coins.cpp:122-127 | A coin that the layers below have not seen leaves no entry once it is spent: where it was added, after its entry went to the parent, or when the spending reaches a FRESH parent entry |
| CoinsLayer.FetchedOk | src/coins.cpp:46-54 | A coin fetched spent may be marked FRESH |
| CoinsLayer.UncachedOk | src/coins.cpp:230-239 | An entry without flags shows what is visible below |
| CheckQueueRuns.WaitAnswersItsRound | src/checkqueue.h:67-124 | Over every interleaving of one master and any number of workers, with spurious wake-ups, a Wait that returns answers exactly whether all checks added since the previous return pass |
| CheckQueueRuns.MasterSleepsForAReason | src/checkqueue.h:89-102 | A master asleep without a pending notification implies nTodo > 0 and a worker that holds checks and can proceed |
| CheckQueueRuns.ApplyKeeps | src/checkqueue.h:67-178 | Every event keeps the invariant: nTodo counts queued and held checks, nIdle and nTotal count the threads they name, every added check is queued, held or accounted for exactly once, and fAllOk is the verdict on those accounted for |
| CheckQueueRuns.RunInv | src/checkqueue.h:67-178 | The invariant holds in every state of every run |
| CheckQueueRuns.RoundAdded | src/checkqueue.h:156-178 | What the invariant calls added is what the Add events since the last return added |
| CheckQueueRuns.ReturnKeeps | src/checkqueue.h:90-98 | Resetting fAllOk on return never mixes two rounds |
| CheckQueueRuns.CleanKeeps | src/checkqueue.h:78-87 | The clean-up accounts for the batch once and notifies the master when nothing is left |
| CheckQueueRuns.TakeKeeps | src/checkqueue.h:106-117 | Taking a batch moves checks from the queue to the thread and loses none |
| CheckQueue.BatchCount | src/checkqueue.h:106-112 | A batch is one check, or the most, up to the batch size, such that as many are left for each other thread and idle worker; never more than the queue holds |
| CheckQueue.RunBatch | src/checkqueue.h:118-122 | The batch verdict is the starting verdict and all its checks |
| CheckQueue.Queue.Add | src/checkqueue.h:162-178 | Checks are appended and counted in nTodo; an empty batch changes nothing |
| CheckQueue.Queue.Enter | src/checkqueue.h:75-87 | The head of a critical section equals its value-level step and says when to notify the master |
| CheckQueue.Queue.Continue | src/checkqueue.h:89-117 | The rest of a critical section equals its value-level step: return, sleep or take a batch from the end |
| Miner.BlockAssembler.AddPackageTxs | src/miner.cpp:293-428 | Terminates and keeps the block duplicate-free, closed under in-mempool ancestors with every transaction after its ancestors, and within the size and sigops limits. The block grows by exactly the packages picked, each whole, final, and with modified fees of at least the minimum for its totals. It stops for a candidate whose totals are below that minimum; or exactly when more than 1000 different candidates in a row did not fit and less than 1000 bytes are free; or with none left, and then for every candidate left out the transactions among it and its ancestors that are not in the block contain a non-final one, or do not fit on top of the block. If every candidate is worth its fee and there are at most 1000, it ends with none left |
| Miner.BlockAssembler.TryPackage | src/miner.cpp:392-426 | A package that passed the test is added whole, in an order sorted by ancestor count, and the records are updated, exactly when all its members are final; otherwise nothing changes |
| Miner.BlockAssembler.AddPackage | src/miner.cpp:412-421 | Adding a sorted package keeps the block in order and the totals exact |
| Miner.BlockAssembler.AddToBlock | src/miner.cpp:211-228 | Size, sigops and fees grow by the transaction's own |
| Miner.BlockAssembler.TestPackage | src/miner.cpp:187-194 | Passes exactly when size and sigops stay below the limits |
| Miner.UpdatePackagesForAdded | src/miner.cpp:230-255 | Every descendant outside the added set gets a record from which exactly its added ancestors are subtracted, once each, for size and sigops |
| Miner.SubtractFromDescendants | src/miner.cpp:238-252 | One added transaction is subtracted from each of its descendants that is not itself added |
| Miner.SortForBlock | src/miner.cpp:272-281 | The order is a permutation of the package sorted by ancestor count |
| Miner.PackageOrder | src/miner.h:81-88 | In that order every transaction follows its in-package ancestors |
| Miner.RecordsAfterAdding | src/miner.cpp:230-255 | After a package is added every record states the size and sigops of what is left of its package exactly, or for a transaction that has failed at least; every transaction with an ancestor in the block is recorded or has failed |
| Miner.RecordFacts | src/miner.cpp:355-366 | A pool entry that is not skipped has no ancestor in the block, so its cached totals are exact; a modified record covers its package, exactly unless the transaction has failed |
| Miner.ExcludedGrows | src/miner.cpp:367-390 | A transaction that did not fit, or has a non-final transaction in its package, still does when final transactions have joined the block: the block and what is left of the package never weigh less together |
| Miner.BlockAssembler.Consider | src/miner.cpp:367-426 | A candidate is added with its package exactly if its totals fit and all are final; otherwise nothing changes but that its record is dropped; either way it is settled: in the block, or excluded |
| Miner.BlockAssembler.Settle | src/miner.cpp:367-426 | A candidate worth its fee is one package more, one failure more in the row, or neither; a package ends the row of failures |
| Miner.BlockAssembler.Choose | src/miner.cpp:318-348 | The next entry of the order unless a modified record is better or the order is used up |
| Miner.FeesAfterAdding | src/miner.cpp:230-255 | The fees a record states are those of its whole package less, for each ancestor in the block, its plain or its modified fee |
| Miner.PlainFees | src/miner.cpp:230-255 | Without prioritised transactions they are exactly the fees of what is left of the package |
| Miner.FailuresFew | src/miner.cpp:373-389 | The failures counted in a row are different candidates, so there are no more of them than places in the order and pool entries |
| Miner.ParentsFirst | src/miner.cpp:293-428 | In the block every in-mempool parent stands before its child |
| Miner.BlockClosed | src/miner.cpp:293-428 | The block contains all in-mempool ancestors of its transactions |
| MinerPool.CalculateMemPoolAncestors | src/txmempool.cpp:153-213 | Without limits the worklist over parents ends with exactly the ancestors |
| MinerPool.CalculateDescendants | src/txmempool.cpp:460-481 | The worklist over children ends with exactly the descendants and the transaction itself |
| PartialMerkle.Soundness | src/merkleblock.cpp:80-165 | With an injective pair hash, any bits and hashes that are accepted and give the root of a list of that length report only ids of the list at their own positions, and none that the list repeats beside it |
| PartialMerkle.HashesFixed | src/merkleblock.cpp:134-165 | With an injective pair hash, two accepted messages for n transactions with the same root, one with the bits of the other and perhaps more, carry the same hashes and report the same matches, and their bits fill the same number of bytes |
| PartialMerkle.Completeness | src/merkleblock.cpp:62-165 | For distinct ids within the limit and any mask the built tree, padded to whole bytes, is accepted and gives the full root and exactly the matched ids and positions in order; it stores at most min(n, 1 + matches * height) hashes |
| PartialMerkle.SendAndReceive | src/merkleblock.cpp:118-165 | Build, pack to bytes, unpack and extract returns the root and the matches |
| PartialMerkle.PartialMerkleTree.constructor | src/merkleblock.cpp:118-130 | The object holds the depth-first encoding from the root |
| PartialMerkle.PartialMerkleTree.TraverseAndBuild | src/merkleblock.cpp:62-78 | Appends exactly the encoding of the node |
| PartialMerkle.PartialMerkleTree.TraverseAndExtract | src/merkleblock.cpp:80-116 | Reads exactly as the value-level traversal does, sets fBad exactly when it is bad, and appends its matches |
| PartialMerkle.PartialMerkleTree.ExtractMatches | src/merkleblock.cpp:134-165 | Returns the traversal's hash exactly when the tree is not already marked bad and all size, padding and usage tests pass, and the null hash otherwise |
| PartialMerkle.PackBits | src/merkleblock.h:88-105 | Bit p is bit p % 8 of byte p / 8, and the padding is zero |
| PartialMerkle.UnpackBits | src/merkleblock.h:88-105 | The inverse reading of the bytes |
| MerkleTree.ExtractSound | src/merkleblock.cpp:80-116 | Soundness at every node, by induction on height |
| MerkleTree.ExtractBuilt | src/merkleblock.cpp:62-116 | Extraction at any offset of a built node consumes exactly its bits and hashes and returns its hash and matches |
| MerkleTree.HashCount | src/merkleblock.cpp:62-78 | A node's encoding has at most as many hashes as leaves, and at most 1 + matches * height |
| MerkleTree.WidthLeaf | src/merkleblock.h:66-68 | A position is inside the width of a level exactly when its first leaf exists |
| Cuckoo.Cache.Insert | src/cuckoocache.h:392-440 | An element that is found is renewed at its first place and nothing else changes; otherwise the displacement rounds end by storing what is in hand at its first collectable location, or run out; the table afterwards is the old one plus the element minus exactly one, and nothing reported before is unreported except possibly that one |
| Cuckoo.Cache.Displacements | src/cuckoocache.h:404-440 | Each round swaps the element in hand with the one at the location after that it came from, when none of its eight is collectable; the first round that meets a collectable one stores it there |
| Cuckoo.RoomStores | src/cuckoocache.h:408-415 | With a collectable location and at least one round the element is stored at its first one, live and in the current epoch, what was there is lost and nothing else changes |
| Cuckoo.LostCollectable | src/cuckoocache.h:404-440 | Unless the rounds run out, the element lost was up for collection |
| Cuckoo.InsertedAges | src/cuckoocache.h:404-440 | Every element that stays keeps its epoch, wherever it was moved; the new one is in the current epoch |
| Cuckoo.InsertThenContains | src/cuckoocache.h:392-477 | After an insertion with room for the element a query for it is answered with true |
| Cuckoo.Cache.EpochCheck | src/cuckoocache.h:289-321 | Leaves room for one more live entry within the bound; the epoch ages exactly when the counter has run out and the scan finds a full epoch |
| Cuckoo.Cache.Age | src/cuckoocache.h:301-311 | Current entries are demoted and older ones marked for collection |
| Cuckoo.Cache.CountLive | src/cuckoocache.h:295-300 | The scan counts the live entries of the current epoch |
| Cuckoo.Cache.Contains | src/cuckoocache.h:467-477 | True exactly when the element is at one of its locations; erasing flags the first such slot and nothing else |
| Cuckoo.Cache.constructor | src/cuckoocache.h:340-353 | setup, with the 32-bit product in the epoch size |
| Cuckoo.Run | src/cuckoocache.h:289-440 | Over every run of insert and contains after setup each call answers and changes the table as stated, and in every state the live entries of the current epoch are at most epoch_size + max(1, epoch_size / 16) |
| Cuckoo.Displace | src/cuckoocache.h:430-435 | One swap moves the missing element from the hand to the slot's occupant |
| Cuckoo.LiveUpdate | src/cuckoocache.h:289-300 | Changing one slot's flags changes the live count by at most one |
| Cuckoo.Locations | src/cuckoocache.h:243-253 | All eight locations are inside the table |
| Cuckoo.ReduceReaches | src/cuckoocache.h:243-253 | Every location of a table of at most 2^32 slots is that of some hash |
| RollingBloom.RollingBloomFilter.Contains | src/bloom.cpp:294-306 | Reports exactly the keys whose every position was reached by some insertion of the last three generations; so each of the last nElements keys since the reset is reported |
| RollingBloom.RollingBloomFilter.Insert | src/bloom.cpp:257-286 | Keeps the two-bit code of every position equal to the generation of the last insertion that reached it, or zero when that is older than two full generations |
| RollingBloom.RollingBloomFilter.Wipe | src/bloom.cpp:265-273 | The two-plane mask clears exactly the positions whose code is the reused generation number |
| RollingBloom.RollingBloomFilter.MarkAll | src/bloom.cpp:277-285 | Exactly the positions of the key get the current generation |
| RollingBloom.RollingBloomFilter.Mark | src/bloom.cpp:278-284 | Overwriting one bit of both words sets one position and no other |
| RollingBloom.RollingBloomFilter.Read | src/bloom.cpp:297-303 | A position reads as set exactly when its code is not zero |
| RollingBloom.RollingBloomFilter.Reset | src/bloom.cpp:314-322 | An empty history, all positions unset |
| RollingBloom.RollingBloomFilter.constructor | src/bloom.cpp:217-242 | Entries per generation are half of nElements, rounded up |
| RollingBloom.WipeRepresents | src/bloom.cpp:259-274 | Starting a generation when the running one is full keeps every code right |
| RollingBloom.MarkRepresents | src/bloom.cpp:277-285 | Recording a key only moves positions to the current generation |
| RollingBloom.StoredReached | src/bloom.cpp:294-306 | A non-zero code means exactly that one of the last three generations reached the position |
| RollingBloom.RecentReported | src/bloom.h:113-114 | Every key inserted since the window starts is reported |
| RollingBloom.FastMod | src/bloom.cpp:250-255 | The product in 32-bit fixed point, which is inside the table |
| RollingBloom.EveryCellUsed | src/bloom.cpp:294-306 | Every bit of every pair of words is where some hash leads, for filters of up to 2^26 words |
| Bits64.HasWiped | src/bloom.cpp:265-273 | Bit by bit, the mask keeps a position exactly when its code differs from the given one |
| Bits64.HasPut | src/bloom.cpp:283-284 | Overwriting a bit leaves every other bit of the word |
| CompactRelay.Relay | src/blockencodings.cpp:19-225 | One block over the wire: with distinct short ids and no false match, the peer requests exactly the transactions it was not offered, the indexes survive their coding, and the reassembled list is the original; an acceptable message with uncrowded buckets and a passing block is accepted |
| CompactBlock.PartiallyDownloadedBlock.InitData | src/blockencodings.cpp:58-183 | INVALID, FAILED and OK each hold exactly under the stated conditions on the message; after OK prefilled slots are kept, every other slot holds only a transaction offered for its short id, and is empty only if none or two different ones were offered |
| CompactBlock.PartiallyDownloadedBlock.PlacePrefilled | src/blockencodings.cpp:66-85 | Accepts exactly the messages in which every prefilled transaction is non-null and no slot is left without a transaction or a short id; the running slots are distinct and in range |
| CompactBlock.PartiallyDownloadedBlock.AssignSlots | src/blockencodings.cpp:91-109 | The scan never leaves the slots and gives the i-th short id the i-th slot without a prefilled transaction; it fails exactly when a bucket overfills |
| CompactBlock.PartiallyDownloadedBlock.SkipTaken | src/blockencodings.cpp:94-95 | Stops at the first free slot |
| CompactBlock.PartiallyDownloadedBlock.FillSlots | src/blockencodings.cpp:87-178 | FAILED exactly for a repeated short id or an overfull bucket |
| CompactBlock.PartiallyDownloadedBlock.TakeMatching | src/blockencodings.cpp:115-178 | Mempool and extra transactions with both early exits: the early exits lose nothing that was not already filled |
| CompactBlock.PartiallyDownloadedBlock.OfferPool | src/blockencodings.cpp:122-140 | A first match fills the slot, every further mempool match leaves it empty; mempool_count stays the number of filled short-id slots |
| CompactBlock.PartiallyDownloadedBlock.OfferExtra | src/blockencodings.cpp:149-172 | As for the mempool, but a match with the hash that is in the slot leaves it |
| CompactBlock.PartiallyDownloadedBlock.FillBlock | src/blockencodings.cpp:191-225 | With exactly as many transactions as free slots the block is the held transactions and the given ones in order; too many is INVALID and uses the object up; too few is INVALID and has moved out the slots before the first unfilled one |
| CompactBlock.PartiallyDownloadedBlock.MissingIndexes | src/net_processing.cpp:2608-2612 | The request lists exactly the free slots in order |
| CompactBlock.FreeShape | src/blockencodings.cpp:93-96 | The free slots are listed in increasing order and none is left out |
| CompactBlock.AssignedAll | src/blockencodings.cpp:112-113 | The table is as large as the list exactly when the short ids are distinct, and then maps each to its own slot |
| CompactBlock.MatchingNext | src/blockencodings.cpp:122-172 | A match changes only the slot of its short id and the count by that slot's change |
| CompactBlock.FullMatching | src/blockencodings.cpp:141-146 | When the count reaches the table size every short id has been matched |
| CompactRelay.ReadRequest | src/blockencodings.h:43-62 | Accepts exactly the encodings of strictly increasing index lists and returns the list |
| CompactRelay.WriteRequest | src/blockencodings.h:64-67 | The count and the differences, as 64-bit words |
| CompactRelay.RequestRoundTrip | src/blockencodings.h:38-69 | A strictly increasing list survives the message, and every other list is refused by the reader |
| CompactRelay.ReadRaw | src/blockencodings.h:44-54 | Reading in chunks of 1000 takes exactly the announced number of 16-bit values |
| CompactRelay.RunningSums | src/blockencodings.h:56-62 | Fails exactly when a running index exceeds 16 bits |
| CompactRelay.MakeCompact | src/blockencodings.cpp:19-29 | The first transaction prefilled, the others as short ids in order |
| CompactRelay.Answer | src/net_processing.cpp:1428-1437 | The transactions at the requested positions, or none when a position does not exist |
| CompactRelay.FilledHonest | src/blockencodings.cpp:58-183 | Against an honest message with no false match every slot holds the original transaction or waits for one that was not offered |
| CompactRelay.HonestReassembled | src/blockencodings.cpp:198-206 | Filling the requested positions gives back the list |
| Bech32.RoundTrip | src/bech32.cpp:147-190 | Decode(Encode(hrp, values)) returns the inputs if and only if hrp is non-empty and printable without capitals and the text has at most 90 characters |
| Bech32.Decode | src/bech32.cpp:159-190 | Accepts exactly the printable single-case texts of at most 90 characters that are, up to case, the encoding of a non-empty hrp and some values, and returns those |
| Bech32.Encode | src/bech32.cpp:147-156 | hrp, separator, values and six symbols that satisfy the checksum |
| Bech32.CreateChecksum | src/bech32.cpp:128-139 | The six symbols make the whole list verify |
| Bech32.VerifyChecksum | src/bech32.cpp:118-125 | True exactly when the checksum equation holds |
| Bech32.PolyMod | src/bech32.cpp:37-94 | The loop with its five conditional terms is the run of the linear register |
| Bech32.ExpandHRP | src/bech32.cpp:103-115 | High bits, a zero, low bits |
| Bech32.PrefixDetected | src/bech32.cpp:103-127 | The checksum protects the prefix: no values verify under two prefixes of the same length of at most 511 characters that differ in one character, or in up to three that agree in their upper bits |
| Bech32.PrefixRejected | src/bech32.cpp:159-191 | Changing the prefix of a valid text so is rejected by Decode |
| Bech32.KnownText | src/test/bech32_tests.cpp:30 | The text a12uel5l is the encoding of no values under the prefix a |
| Bech32.LetterIs | src/bech32.cpp:13-13 | The alphabet, letter by letter |
| Bech32.AffineTail | src/bech32.cpp:37-94 | The register is affine in its last symbols: changing them from zero adds their own run |
| Bech32.BurstDetected | src/bech32.cpp:34-36 | Of two value lists of any length that differ only inside a window of at most six symbols, at most one verifies; a single replaced symbol is the window of one |
| Bech32.CorruptionRejected | src/bech32.cpp:159-190 | A text whose data symbols were changed inside such a window is rejected |
| Bech32.ScatteredDetected | src/bech32.cpp:44-47 | Of two value lists of any length that differ in one, two or three places within a window of 1023 symbols, at most one verifies, as the comment on the generator promises |
| Bech32.ScatteredRejected | src/bech32.cpp:159-190 | A text with up to three wrong data symbols is rejected |
| Bech32Errors.ErrorsTrace | src/bech32.cpp:44-47 | Up to three non-zero symbols within a window of 1023 leave the empty register non-zero |
| Bech32Errors.Syndrome | src/bech32.cpp:80-91 | The value of the register at a root of the generator is the sum of the contributions of the symbols |
| Bech32Errors.NoThreeCancel | src/bech32.cpp:44-47 | Three contributions at different distances that cancel at three consecutive roots are all zero |
| Bech32Roots.EvalStep | src/bech32.cpp:80-91 | A step multiplies the register's value at a root by the root and adds the symbol |
| Bech32Roots.RemainderAt | src/bech32.cpp:86-90 | The five constants are the multiples of the generator: at a root the remainder has the value of the top symbol times the sixth power |
| Bech32Field.NoFixedPoint | src/bech32.cpp:44-47 | The element whose powers are the roots has order 1023: no smaller power of it fixes a non-zero element |
| Bech32.WrittenParses | src/bech32.cpp:168-185 | A text can be read back in one way only: the last separator ends the hrp |
| Bech32Poly.StepLinear | src/bech32.cpp:80-91 | One register step is linear over exclusive or |
| Bech32Poly.StepLosesNothing | src/bech32.cpp:80-91 | A step on a non-zero 30-bit register never gives zero |
| Bech32Poly.ShortRunTraces | src/bech32.cpp:80-91 | At most six symbols that are not all zero leave the empty register non-zero |
| Bech32Poly.GroupsRun | src/bech32.cpp:134-137 | The six 5-bit groups of a word rebuild the word |
| Bech32.LetterValue | src/bech32.cpp:12-25 | The reverse table inverts the character set |
| Bech32.ValueLetter | src/bech32.cpp:12-25 | Every character with a value is, in lower case, the letter of that value |
| Base58.DecodeEncoded | src/base58.cpp:34-121 | DecodeBase58(EncodeBase58(b)) is b for every byte string |
| Base58.EncodeDecoded | src/base58.cpp:34-121 | Re-encoding the decoding of any accepted text gives the text without the white space around it |
| Base58.EncodeBase58 | src/base58.cpp:83-121 | The text has as many leading "1" as the bytes have leading zeros, and the same value |
| Base58.DecodeBase58 | src/base58.cpp:34-81 | Accepts exactly Base58 text between optional white space and returns the bytes it encodes |
| Base58.Absorb | src/base58.cpp:96-108 | The in-place carry loop multiplies the buffer and adds the digit, and its carry assert holds; digits above those in use are untouched, and the use grows only by a non-zero digit |
| Base58.ConvertText | src/base58.cpp:46-65 | All characters up to white space are absorbed, or the first foreign one is reported |
| Base58.Convert | src/base58.cpp:92-109 | All bytes are absorbed |
| Base58.EncodeBufferSuffices | src/base58.cpp:92-94 | The 138/100 buffer holds every value of its input length |
| Base58.DecodeBufferSuffices | src/base58.cpp:46-48 | The 733/1000 buffer holds every value of its input length |
| Base58.ValueLetter | src/base58.cpp:13-32 | The reverse table inverts the alphabet, which has no white space |
| Base58.LetterIs | src/base58.cpp:14-14 | The alphabet: digits, capitals and small letters in order, without 0, I, O and l |
| Radix.SameUnique | src/base58.cpp:34-121 | Leading zeros and value determine the numeral in the other base |
| Radix.CanonicalUnique | src/base58.cpp:110-119 | A numeral without leading zeros is determined by its value |
| Radix.PowerFits | src/base58.cpp:46-48 | If p digits of one base fit in q of another, then n fit in m whenever q * n <= p * m |
| ArithUint.BaseUint.Add | src/arith_uint256.h:133-143 | Addition modulo 2^(32 * width), also when both operands are the same object |
| ArithUint.BaseUint.Subtract | src/arith_uint256.h:145-149 | Subtraction modulo 2^(32 * width) |
| ArithUint.BaseUint.Negated | src/arith_uint256.h:75-82 | The additive inverse |
| ArithUint.BaseUint.Increment | src/arith_uint256.h:171-178 | Plus one, with the carry through all-ones limbs and the wrap-around |
| ArithUint.BaseUint.Decrement | src/arith_uint256.h:188-195 | Minus one, with the borrow through zero limbs and the wrap-around |
| ArithUint.BaseUint.MultiplySmall | src/arith_uint256.cpp:57-67 | Multiplication by one limb modulo 2^(32 * width) |
| ArithUint.BaseUint.Multiply | src/arith_uint256.cpp:69-83 | Schoolbook multiplication modulo 2^(32 * width), also for squaring |
| ArithUint.BaseUint.AddRow | src/arith_uint256.cpp:74-79 | One row of it; no intermediate sum exceeds 64 bits |
| ArithUint.BaseUint.LeftShift | src/arith_uint256.cpp:23-38 | Multiplication by a power of two modulo 2^(32 * width), for every shift |
| ArithUint.BaseUint.RightShift | src/arith_uint256.cpp:40-55 | Floor division by a power of two, for every shift |
| ArithUint.BaseUint.CompareTo | src/arith_uint256.cpp:111-121 | Numeric order |
| ArithUint.BaseUint.Bits | src/arith_uint256.cpp:173-186 | The bit length |
| ArithUint.BaseUint.Divide | src/arith_uint256.cpp:85-109 | The floor quotient for every non-zero divisor; division by zero fails with the number already cleared |
| ArithUint.BaseUint.DivideStep | src/arith_uint256.cpp:100-103 | One bit of the quotient: dividend equals quotient times divisor plus rest, and the rest is below the next multiple |
| ArithUint.BaseUint.GetLow64 | src/arith_uint256.h:243-247 | The number modulo 2^64 |
| ArithUint.LeftValue | src/arith_uint256.cpp:31-36 | Limbs combined from two neighbours are the shifted number modulo the width |
| ArithUint.RightValue | src/arith_uint256.cpp:48-53 | Limbs combined from two neighbours are the floor quotient |
| Limbs.OrDisjoint | src/arith_uint256.cpp:31-36 | Bits that do not meet are added by or |
| LimbDivision.DividingNext | src/arith_uint256.cpp:99-106 | A step keeps the division equation and halves the bound on the rest |
| LimbDivision.SetBit | src/arith_uint256.cpp:102-102 | Setting the next lower bit of the quotient adds its weight |
| LimbDivision.TopLimb | src/arith_uint256.cpp:173-186 | The highest non-zero limb gives the bit length |
| CompactTarget.SetCompact | src/arith_uint256.cpp:206-224 | The number is the exact magnitude modulo 2^256; the overflow flag holds exactly when the magnitude does not fit, the negative flag exactly for a non-zero magnitude with the sign bit |
| CompactTarget.GetCompact | src/arith_uint256.cpp:226-247 | The word holds the leading bytes of the number, both asserts hold, and the sign bit is set exactly for a non-zero mantissa |
| CompactTarget.Reencode | src/arith_uint256.cpp:206-247 | Decoding a GetCompact result and encoding again gives the same word and never overflows |
| CompactTarget.ReadAndWrite | src/arith_uint256.cpp:206-247 | For all 2^32 words: decoding and encoding gives the word back if and only if it is canonical |
| CompactTarget.CompactsUnique | src/arith_uint256.cpp:226-247 | A number has one compact form |
| CompactTarget.CompactPrecision | src/arith_uint256.h:258-277 | The compact form rounds down and keeps at least 15 leading bits |
| CompactTarget.OverflowExact | src/arith_uint256.cpp:219-222 | The three overflow tests together are exact |
| Chain.BlockIndex.GetAncestor | src/chain.cpp:84-109 | Equals the corresponding number of pprev steps, or null for a height outside the line; it terminates and its assert holds; when all skip links are built the loop takes exactly Steps rounds |
| Chain.BlockIndex.BuildSkip | src/chain.cpp:116-120 | The skip link is the ancestor at the skip height, for every tree grown this way |
| Chain.Grow | src/chain.cpp:116-120 | A tree grown entry by entry keeps all skip links right and built |
| Chain.FindAncestor | src/chain.cpp:73-109 | With skip links built, an ancestor of an entry up to height 2^18 is found in at most 110 rounds, and from any height below 2^k in at most (k*k + 11k) / 4 + 5 |
| SkipHeights.MaxSteps | src/chain.cpp:77-80 | From any height up to 2^18 to any lower height at most 110 steps, as the comment says of chains of that length |
| SkipHeights.LongestWalk | src/chain.cpp:77-80 | From height 2^18 - 8 to height 2 it takes 110 steps, so the bound is reached |
| SkipHeights.StepsQuadratic | src/chain.cpp:84-109 | From any height below 2^k at most (k*k + 11k) / 4 + 5 steps |
| SkipHeights.StepsBound | src/chain.cpp:84-109 | For every pair of heights, a bound by the highest bit in which they differ and the ones below it |
| SkipHeights.OddNext | src/chain.cpp:73-109 | From an odd height two bits go in one step while the bit that differs stays |
| SkipHeights.TwoNext | src/chain.cpp:73-109 | From an even height whose lowest one is bit 1, when the link of the height before is better |
| SkipHeights.FourNext | src/chain.cpp:73-109 | The same for bit 2 |
| SkipHeights.HighNext | src/chain.cpp:73-109 | From an even height whose lowest one is higher its own skip link is always taken |
| SkipHeights.PowerWalk | src/chain.cpp:84-109 | The exact number of steps from a power of two to height 2 |
| SkipHeights.GetSkipHeight | src/chain.cpp:73-82 | The skip height is strictly below the height |
| SkipHeights.InvertLowestOne | src/chain.cpp:70-71 | Clearing the lowest set bit makes a positive number smaller |
| Chain.ActiveChain.SetTip | src/chain.cpp:12-22 | In spite of the early stop the vector is the whole line of the new tip |
| Chain.EarlyStop | src/chain.cpp:18-21 | An entry already in place has its whole line in place |
| Chain.ActiveChain.FindFork | src/chain.cpp:52-61 | The highest entry of the given line that is in the chain, or null when there is none |
| Chain.LastCommonAncestor | src/chain.cpp:122-139 | The highest common entry of two lines; null exactly when they share none, and the final assert holds in both cases |
| Chain.ActiveChain.GetLocator | src/chain.cpp:24-50 | The entries at the locator heights, whether taken from the vector or by skip links |
| Chain.LocatorShape | src/chain.cpp:31-47 | A locator descends strictly from the entry to the root |
| Chain.LocatorIs | src/chain.cpp:31-47 | The heights of a locator: eleven single steps, then steps of 2, 4, 8 and so on, down to the first that reaches the root; at most 13 entries, or 11 more than the height has bits |
| Chain.LineUp | src/chain.h:178-185 | The line of an entry lists what walking pprev finds |

## Left out

- Networking, RPC, storage, scripts, keys and signatures, and full block validation.
- Select_ and the chance arithmetic of the address manager: the loops end only with probability one.
- AddrManRestore.Unserialize: reads files that Serialize wrote; other versions or bucket counts, for which the new table is rebuilt, and corrupt files are not modelled. A duplicate address in one breaks mapAddr.
- AddrManCheck.Check: the default insertion that a lookup in mapAddr makes for a missing key is not part of the model.
- AddrManFile.Serialize: the stream is a sequence of typed tokens; the byte encoding of each is not modelled.
- CoinsCache.CoinsViewCache.BatchWrite: the best-block hash and the TRACE calls are not modelled.
- CheckQueueRuns.WaitAnswersItsRound: the stop request and the destructor are not modelled.
- Miner.BlockAssembler.AddPackageTxs: covers required_age_in_secs of zero; with a positive age the loop need not end, since a modified transaction that is too young is neither dropped nor passed over (src/miner.cpp:351-354). Which modified record is best is left open; its fees are known as `Miner.FeesAfterAdding` states, since creation and update of a record subtract different fees (src/miner.cpp:246, src/miner.h:116). The counters it reports are not modelled.
- Miner.BlockAssembler.TryPackage: whether a transaction is final is a flag of the transaction.
- PartialMerkle.PartialMerkleTree.ExtractMatches: starts with an empty vnIndex, as every caller does.
- The bound "2*N-1 bits" in src/merkleblock.h:47, which nodes with one child exceed; the bound on hashes is `MerkleTree.HashCount`.
- Cuckoo.Cache.constructor: the depth limit comes from a floating-point logarithm and is a parameter; the bit-packed atomic flags are an array of booleans.
- RollingBloom.RollingBloomFilter.constructor: the number of words and of hash functions come from floating-point formulas and are parameters; the hash is one too.
- CompactBlock.PartiallyDownloadedBlock.InitData: takes messages within the 16-bit count that deserialization enforces; the hash table's bucket sizes are a parameter, and extra_count, a logging statistic, is not modelled.
- CompactBlock.PartiallyDownloadedBlock.FillBlock: block validation is a parameter.
- Bech32.ScatteredDetected: covers up to three errors within 1023 characters; that four are detected within 89, which the comment adds (src/bech32.cpp:46-47), is not proved, since it rests on an enumeration and not on the roots.
- Base58.EncodeBase58: the sizes are unbounded integers, so inputs whose length times 733 exceeds an int are not modelled; the check bytes of Base58Check are left out.
- ArithUint.BaseUint.Bits: bitwise and, or, xor of whole numbers, hexadecimal text and conversion to double are left out.
- Chain.ActiveChain.FindFork: FindEarliestAtLeast, beside it, is left out.
