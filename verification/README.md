# Kubu Core: a Dafny model of its core data structures and encodings

This project models the parts of Kubu Core on which consensus and relay rest and in which a
single wrong step would go unnoticed: the address manager, the coin caches, the parallel check
queue, block assembly, partial Merkle trees, 256-bit arithmetic and difficulty, the rolling
bloom filter, the cuckoo cache, Base58, the block index, the merged-mining commitment, the
stored form of coins and of peers, and compact blocks.

Code that changes things in place is modelled by classes, arrays and loops; each such method is
proved equal to a function of its inputs and of the old state, or to state outright what the
source promises. Lemmas about those functions carry the results that span operations.

| file | models |
|---|---|
| AddrManSpec, AddrManProofs, AddrManEffects, AddrManTimes, AddrMan | `CAddrMan`: five redundant indexes, their invariant over every run, what each call achieves |
| AddrManFileSpec, AddrManFileProofs, AddrManFileAny, AddrManFile | the `peers.dat` form of `CAddrMan` |
| CoinsSpec, CoinsCache, CoinsRuns | `CCoinsViewCache` stacks against plain maps |
| CoinsCoding, Amounts, Compressor, Streams | the stored form of `CCoins`, amounts, scripts, variable-length integers |
| CheckQueueSpec, CheckQueueProofs, CheckQueue | `CCheckQueue` as a state machine over any number of threads |
| MinerSpec, Miner | `BlockAssembler` |
| MerkleSpec, MerkleProofs, MerkleSize, MerkleBlock | `CPartialMerkleTree` |
| Arith256, Division, Compact, Difficulty, Powers | `base_uint<256>`, compact targets, work and the DigiShield retarget |
| RollingBloom | `CRollingBloomFilter` |
| CuckooSpec, CuckooCache | `CuckooCache::cache` |
| Counting | counting arguments shared by several modules |
| Radix, Base58 | `EncodeBase58`, `DecodeBase58` |
| Chain | skip list, `CChain` |
| AuxPow | `CAuxPow::check` |
| CompactIndexes, CompactSpec, CompactBlock | BIP 152 messages and `PartiallyDownloadedBlock` |

Hash functions are uninterpreted. Where a result needs them to be free of collisions, the
hypothesis names the finite set of strings that are actually hashed. Random draws, clocks,
scores and priorities are arguments or nondeterministic choices, so the results hold for all
of them.

Where the code does less than its comments or names suggest, the model follows the code and a
lemma shows the case and the exact condition:

- `x *= x` on a 256-bit number yields zero, because the register is cleared before the
  multiplier is read (`Arith256.Mul`).
- The retarget product wraps exactly when it reaches 2^256 (`Difficulty.ExactIff`). It cannot on
  the main chain (`Difficulty.MainChainExact`), but it can with a four-hour timespan and the
  limit 2^255 - 1 (`Difficulty.WrapsOnLongTimespan`). The 32-bit multiplier holds every time
  exactly up to the timespans in `Difficulty.MultiplierHolds`; in `Difficulty.MultiplierEmpty` it
  does not, and the next target is zero.
- The best block of a flushed cache survives exactly under the condition in
  `CoinsCache.CoinsCache.Flush`; `CoinsCache.FlushForgetsBest` is a case where it does not.
- The flags of an entry made by `ModifyNewCoins` are truthful exactly under
  `CoinsCache.CoinsCache.MayCreate`; `CoinsCache.CreatesOverUnread` is a case where they are not.
- A stored amount u comes back exactly if u ends in zero or 9 * u + u % 10 - 9 is below 2^64
  (`Amounts.AmountKept`); the least one that does not is in `Amounts.FirstLost`. Stored coins come back unchanged exactly for the
  values described by `CoinsCoding.UnchangedIff`; in `CoinsCoding.NegativeVersion` they do not.
- A number too large for the integer it is read into wraps instead of being refused
  (`Streams.VarIntWraps`).
- The comment in src/merkleblock.h promises at most 2 * N - 1 flag bits for N hashes, and at most
  10 + ceil(32.25 * N) bytes. The first holds exactly if no node with a single child is explored
  (`MerkleSize.EncodingSize`), and not in `MerkleSize.FourBits`; the second exactly under
  `MerkleSize.SizeIff`, a test of the number of transactions and of the selection, and not in
  `MerkleSize.OneByteMore`.
- A file with a negative count of entries is accepted, and leaves a counter wrong: exactly the
  files in `AddrManFileAny.LoadedSound`, among them `AddrManFileAny.MinusOneNew` and
  `AddrManFileAny.MinusOneTried`, after which a save fails its assertion.
- A file with two entries of one address is accepted, and leaves the index of addresses wrong:
  exactly the files in `AddrManFileAny.LoadedInv`, among them `AddrManFileAny.TwoPortsLoaded`. No
  assertion depends on that index being exact (`AddrManFileAny.EveryLoadedRun`).
- A time at or before the epoch breaks the consistency check of the address manager exactly under
  `AddrManTimes.StepTimes`, as in the run of `AddrManTimes.ReachedAtEpoch`.
- The cuckoo cache's epoch is 45 per cent of the table exactly below 2^27 slots
  (`CuckooCache.Cache.constructor`); `CuckooSpec.WrappedEpoch` is the first power of two beyond.
- A rolling bloom filter for 0 or for 2^32 - 1 elements has no room for a generation
  (`RollingBloom.SizesAre`).
- Without the merged-mining header one coinbase script can serve several aux blocks of a chain, at
  most 21 in all (`AuxPow.LegacyAtMost21`). By trees of one leaf it serves two exactly if it has
  two of the places in `AuxPow.TwoLeavesIff`, at most six (`AuxPow.LeavesAtMostSix`), and six in
  `AuxPow.LegacyServesSix`. With the header it serves only one (`AuxPow.AtMostOneAuxBlock`).
- Differences of block indexes that reach beyond 16 bits wrap instead of being refused
  (`CompactIndexes.WrappedNotIncreasing`, with the case `CompactIndexes.WrapsAround`).
- A compact block message of more than 2^16 transactions is accepted, but positions are kept in
  16 bits: a short id gets its own position exactly if 16 bits hold it
  (`CompactSpec.OwnPosition`), and `CompactBlock.OverwritesPrefilled` is a message whose first
  transaction is replaced. The search for an empty position ends unless 2^16 transactions are
  prefilled and there is a short id (`CompactBlock.PartiallyDownloadedBlock.AssignShortIds`);
  `CompactBlock.SearchesForever` is such a message. A call that does not return is modelled by
  the status `Endless`.

## Model

| member | source | states |
|---|---|---|
| AddrManProofs.SwapInv | src/addrman.cpp:93-111 | swapping two positions of the random order never trips its assertions and keeps the invariant; whether the index of addresses is exact does not matter, and it stays so if it was (as in the rows below) |
| AddrManProofs.DeleteInv | src/addrman.cpp:113-125 | deleting an entry without references keeps every index and counter consistent |
| AddrManProofs.ClearNewInv | src/addrman.cpp:127-140 | clearing a "new" slot keeps the invariant, deleting the holder exactly when it was its last reference |
| AddrManProofs.MakeTriedInv | src/addrman.cpp:142-188 | moving an entry to the tried table, with eviction, passes every assertion and keeps the invariant |
| AddrManProofs.InSomeBucket | src/addrman.cpp:219-234 | a known untried entry is found in some "new" bucket, so the search in Good_ cannot fail |
| AddrManProofs.GoodInv | src/addrman.cpp:190-240 | Good_ passes every assertion and keeps the invariant |
| AddrManProofs.AddInv | src/addrman.cpp:242-313 | Add_ passes every assertion and keeps the invariant, for every draw and clock |
| AddrManProofs.AttemptInv | src/addrman.cpp:315-335 | Attempt_ keeps the invariant |
| AddrManProofs.GetAddrInv | src/addrman.cpp:462-481 | the sampling swaps of GetAddr_ are always legal and keep the invariant |
| AddrManProofs.ConnectedInv | src/addrman.cpp:483-501 | Connected_ keeps the invariant |
| AddrManProofs.SetServicesInv | src/addrman.cpp:503-519 | SetServices_ keeps the invariant |
| AddrManProofs.RunFrom | src/addrman.cpp:385-459 | from any sound manager every sequence of calls runs without a failed assertion and stays sound, with an exact index if it had one |
| AddrManProofs.EveryRun | src/addrman.cpp:385-459 | from an empty manager, every sequence of calls runs without a failed assertion and every state passes the consistency check, but for its timestamps |
| AddrManTimes.MakeTriedTimes | src/addrman.cpp:142-188 | an entry made tried has proper timestamps if and only if it was reached after the epoch |
| AddrManTimes.StepTimes | src/addrman.cpp:385-422 | one call keeps the timestamps that Check_ tests in order if and only if it stores a proper time |
| AddrManTimes.EveryRunTimes | src/addrman.cpp:385-422 | over a whole run from any sound manager with proper times the timestamp tests pass at every point if and only if every call stores proper times |
| AddrManTimes.ReachedAtEpoch | src/addrman.cpp:190-240 | an address added and then reached at time 0, after which the timestamp tests fail |
| AddrManEffects.ClearNewReleases | src/addrman.cpp:127-140 | a cleared slot takes one reference from its holder, forgets it only at the last one, and changes no other entry |
| AddrManEffects.EvictMoves | src/addrman.cpp:161-182 | the evicted tried entry returns to its primary "new" slot with one reference |
| AddrManEffects.GoodPromotes | src/addrman.cpp:190-240 | a promoted entry ends in its tried slot with its statistics reset; at most one entry is forgotten, and only one with a single reference |
| AddrManEffects.SettleMoves | src/addrman.cpp:291-313 | when a slot is taken over, refused or already held, and what happens to each entry |
| AddrManEffects.AddUnknown | src/addrman.cpp:242-313 | an unknown routable address is known afterwards if and only if its slot was free, terrible or multiply referenced |
| AddrManEffects.GetAddrSamples | src/addrman.cpp:462-481 | the addresses returned are the acceptable ones of a random prefix, in order, and the prefix ends early only at the limit |
| AddrMan.AddrMan.constructor | src/addrman.h:451-470 | a new manager stands for the empty state |
| AddrMan.AddrMan.SwapRandom | src/addrman.cpp:93-111 | in-place swap equals the specification |
| AddrMan.AddrMan.Delete | src/addrman.cpp:113-125 | in-place deletion equals the specification |
| AddrMan.AddrMan.ClearNew | src/addrman.cpp:127-140 | in-place clearing of a slot equals the specification |
| AddrMan.AddrMan.LeaveNewBuckets | src/addrman.cpp:144-154 | looking at one position per bucket removes every reference of the entry |
| AddrMan.AddrMan.Evict | src/addrman.cpp:161-182 | the eviction of a tried entry |
| AddrMan.AddrMan.MakeTried | src/addrman.cpp:142-188 | equals the specification and keeps the invariant |
| AddrMan.AddrMan.FindBucket | src/addrman.cpp:219-229 | the search from a random bucket ends at a bucket that holds the entry |
| AddrMan.AddrMan.Good | src/addrman.cpp:190-240 | equals the specification and keeps the invariant |
| AddrMan.AddrMan.Settle | src/addrman.cpp:291-313 | the second half of Add_ equals the specification |
| AddrMan.AddrMan.Add | src/addrman.cpp:242-313 | equals the specification, keeps the invariant, and returns whether the address was unknown |
| AddrMan.AddrMan.Create | src/addrman.cpp:81-91 | the new entry, its id and its index entries |
| AddrMan.AddrMan.Register | src/addrman.cpp:284-288 | an unknown address gets its entry, with its penalized time, and is counted |
| AddrMan.AddrMan.Refresh | src/addrman.cpp:256-283 | what Add_ learns about a known address, and whether it may get another slot |
| AddrMan.AddrMan.Attempt | src/addrman.cpp:315-335 | equals the specification |
| AddrMan.AddrMan.Connected | src/addrman.cpp:483-501 | equals the specification |
| AddrMan.AddrMan.SetServices | src/addrman.cpp:503-519 | equals the specification |
| AddrMan.AddrMan.GetAddr | src/addrman.cpp:462-481 | equals the specification and keeps the invariant |
| AddrManFileSpec.PositionsLoaded | src/addrman.h:374-438 | whatever the file holds, negative counts included, ids and random positions are in order when the deletions start |
| AddrManFileProofs.WithinLimits | src/addrman.h:366-372 | a consistent manager never exceeds the limits that loading checks |
| AddrManFileProofs.CountsAreLengths | src/addrman.h:310-328 | the counters equal the numbers of entries written, so neither assertion in the writing loops can fail |
| AddrManFileProofs.SoundSaves | src/addrman.h:295-343 | a sound manager passes the assertions of Serialize |
| AddrManFileProofs.StepTried | src/addrman.h:394-413 | no tried entry of a consistent manager is lost on loading |
| AddrManFileProofs.StepSlot | src/addrman.h:415-431 | each written position is restored in its slot, within the limit of references |
| AddrManFileProofs.RebuiltInv | src/addrman.h:346-449 | the rebuilt manager satisfies the full invariant |
| AddrManFileProofs.NothingPruned | src/addrman.h:433-443 | after saving a consistent manager, loading deletes nothing |
| AddrManFileProofs.RoundTrip | src/addrman.h:295-449 | saving and loading loses no entry, keeps both tables and all counts up to renaming of ids, and re-establishes the invariant |
| AddrManFileAny.PositionsCore | src/addrman.h:374-431 | whatever the file holds, if its count of new entries is not negative, slots, reference counts and tried table are consistent before the deletions, and so are both counters but for what a negative count of tried entries takes away |
| AddrManFileAny.DeleteCore | src/addrman.h:433-443 | deleting an entry that got no slot keeps them so |
| AddrManFileAny.LoadedSound | src/addrman.h:346-449 | a manager loaded from any file is sound, that is, satisfies the invariant but for the index of addresses, if and only if neither count of the file is negative |
| AddrManFileAny.LoadedInv | src/addrman.h:346-449 | it satisfies the whole invariant if and only if neither count is negative and the address of every entry that got a slot comes once |
| AddrManFileAny.DifferentAddresses | src/addrman.h:346-449 | in particular if neither count is negative and the addresses in the file are all different |
| AddrManFileAny.EveryLoadedRun | src/addrman.h:346-449 | from any file that loads and has no negative count, every sequence of calls runs without a failed assertion, can be saved at every point, and keeps the whole invariant if it was loaded with it |
| AddrManFileAny.MinusOneNew | src/addrman.h:346-372 | a file with -1 new entries, accepted, after which the counters do not add up to the number of entries |
| AddrManFileAny.MinusOneTried | src/addrman.h:295-372 | a file with -1 tried entries, accepted, after which adding and reaching one address makes saving fail its assertion |
| AddrManFileAny.TwoPortsLoaded | src/addrman.h:346-449 | an accepted file after which the index is wrong |
| AddrManFile.Serialize | src/addrman.h:295-343 | the loops write exactly the specified file and pass their assertions, for every sound manager |
| AddrManFile.Unserialize | src/addrman.h:345-449 | any file is loaded without a failed assertion, with signed counts and the bit that marks the format, and refused just when a count is too large, the key has the wrong size or the file ends too soon |
| AddrManFile.SaveAndLoad | src/addrman.h:295-449 | writing an object and reading it back gives a consistent renamed copy |
| CoinsSpec.TrimOnlyDropsSpent | src/coins.h:113-119 | Cleanup removes exactly the spent outputs at the end |
| CoinsSpec.TidyPruned | src/coins.cpp:164-171 | trimmed coins are pruned exactly when they have no outputs at all |
| CoinsSpec.MergeStep | src/coins.cpp:188-243 | merging one dirty child entry keeps the parent's flags truthful and has the effect of one write, in all branches |
| CoinsCache.CoinsDb.BatchWrite | src/txdb.cpp:47-68 | writing a batch of truthful entries to the database overlays them |
| CoinsCache.CoinsCache.constructor | src/coins.cpp:61 | a fresh cache shows what lies below it |
| CoinsCache.CoinsCache.FetchCoins | src/coins.cpp:72-88 | filling the cache changes nothing that any view shows |
| CoinsCache.CoinsCache.GetCoins | src/coins.cpp:90-97 | reads what the plain map holds, through any depth of caches |
| CoinsCache.CoinsCache.HaveCoins | src/coins.cpp:164-171 | testing only for an empty list of outputs agrees with the plain map, since every entry but the one being modified is trimmed |
| CoinsCache.CoinsCache.ModifyCoins | src/coins.cpp:99-118 | handing out a modifier changes no view and keeps the flags truthful |
| CoinsCache.CoinsCache.ModifyNewCoins | src/coins.cpp:120-153 | throws just for an unpruned non-coinbase entry; the flags stay truthful if and only if the creation was legitimate |
| CoinsCache.CreatesOverUnread | src/coins.cpp:120-153 | a creation over coins of the database that were not read: no exception, and a FRESH flag that is a lie |
| CoinsCache.CoinsCache.Assign | src/coins.h:364-365 | writing through the modifier is a write to the view |
| CoinsCache.CoinsCache.Release | src/coins.cpp:322-334 | the modifier's end cleans up and drops a fresh pruned entry without changing what is shown |
| CoinsCache.CoinsCache.Uncache | src/coins.cpp:252-259 | forgetting an entry that was only read changes no view, whether or not a modifier is held |
| CoinsCache.CoinsCache.GetBestBlock | src/coins.cpp:178-182 | the cached or inherited best block, and which caches learn it |
| CoinsCache.CoinsCache.SetBestBlock | src/coins.cpp:184-186 | sets the best block and changes no coins |
| CoinsCache.CoinsCache.BatchWrite | src/coins.cpp:188-243 | a child with truthful flags is merged without the misapplied-flag exception, and its entries are overlaid |
| CoinsCache.CoinsCache.Flush | src/coins.cpp:245-250 | the base shows afterwards what the cache showed; the best block survives if and only if the stated condition holds |
| CoinsCache.FlushForgetsBest | src/coins.cpp:241-250 | a cache that never learnt a best block, flushed onto one that set and showed its own, which is forgotten |
| CoinsSpec.LearntShows | src/coins.cpp:178-250 | a cache that was asked for its best block before it is flushed never makes it forgotten |
| CoinsRuns.Bip30Allows | src/coins.cpp:120-153 | a transaction without unspent outputs can be created without exception and with truthful flags |
| CoinsRuns.Run | src/coins.cpp:61-259 | every session on a stack of any depth, best blocks included, with scratch caches nested to any depth, flushed or dropped, answers and ends like the same session on plain maps |
| CoinsRuns.RunScratch | src/coins.cpp:61-250 | a scratch cache applies all of its session when flushed in the end, and leaves what it flushed before when dropped |
| Streams.VarIntRoundTrip | src/serialize.h:316-345 | a number the integer can hold is read back with nothing of what follows consumed, if it is not negative; a negative one comes back modulo 128 |
| Streams.VarIntWraps | src/serialize.h:333-345 | the bytes of 2^32 are read as 0 into 32 bits |
| Streams.WriteVarInt | src/serialize.h:316-331 | the loop writes the one form of the number |
| Streams.ReadVarInt | src/serialize.h:333-345 | the loop reads it, in the width of its integer |
| Amounts.AmountRoundTrip | src/compressor.cpp:142-185 | without a bound, compression and decompression are inverse in both directions: a bijection on the natural numbers |
| Amounts.CodeIs | src/compressor.cpp:142-159 | the code of an amount is about nine times as large, or no larger if the amount ends in zero |
| Amounts.KeepsIff | src/compressor.cpp:142-159 | that is the case if and only if its code fits 64 bits |
| Amounts.AllLost | src/compressor.cpp:142-185 | no amount whose code leaves 64 bits is saved by a second wrap |
| Amounts.AmountKept | src/compressor.cpp:142-185 | in 64-bit arithmetic an amount u comes back if and only if it ends in zero or 9 * u + u % 10 - 9 is below 2^64 |
| Amounts.FirstLost | src/compressor.cpp:142-185 | the least amount that does not come back |
| Amounts.AmountFits | src/compressor.cpp:142-159 | up to MAX_MONEY neither the code nor any value on the way leaves 64 bits |
| Amounts.Compress | src/compressor.cpp:142-159 | the loop computes the code in 64 bits and its digit assertion holds |
| Amounts.Decompress | src/compressor.cpp:161-185 | the loop computes the amount in 64 bits |
| Compressor.ShortRoundTrip | src/compressor.cpp:12-131 | each special script is restored from its short form |
| Compressor.ScriptRoundTrip | src/compressor.h:58-89 | a script is read back unchanged if and only if it is at most 10000 bytes long, else as a short invalid one |
| CoinsCoding.BeyondMask | src/coins.cpp:17-33 | every output beyond the written mask bytes is spent |
| CoinsCoding.CalcMaskSize | src/coins.cpp:17-33 | the number of mask bytes and of those that are not zero |
| CoinsCoding.MaskRoundTrip | src/coins.h:168-207 | counting non-zero bytes, the reader stops exactly at the last byte written |
| CoinsCoding.CodeFields | src/coins.h:158-196 | the header code gives back the coinbase flag, the first two outputs and the count, including the case stored less one |
| CoinsCoding.CoinsRoundTrip | src/coins.h:157-217 | reading what was written gives the normal form of the coins, for every unpruned value of the types, and leaves what follows |
| CoinsCoding.UnchangedIff | src/coins.h:157-217 | the normal form is the value itself if and only if it is trimmed, has no negative version or height, and each output is spent with no script or has a script within the limit and an amount that is kept |
| CoinsCoding.ValueKept | src/compressor.h:108-115 | a signed amount comes back if and only if it is kept as an unsigned number |
| CoinsCoding.NegativeVersion | src/coins.h:157-217 | coins of version -1 come back with version 127 |
| CoinsCoding.Serialize | src/coins.h:156-183 | the loops write the specified bytes and the assertion holds |
| CoinsCoding.Unserialize | src/coins.h:185-217 | the loops read as specified, from any bytes, in the widths of their integers |
| CheckQueueProofs.StepInv | src/checkqueue.h:69-161 | every atomic step of any thread keeps the invariant of the queue |
| CheckQueueProofs.EveryRun | src/checkqueue.h:69-161 | every state of every interleaving of any number of threads satisfies the invariant |
| CheckQueueProofs.TodoIsExact | src/checkqueue.h:55-60 | nTodo counts the queued checks and those in batches, in every reachable state |
| CheckQueueProofs.WaitIsRight | src/checkqueue.h:91-100 | Wait returns true exactly when every check of its session would, and leaves nothing behind |
| CheckQueueProofs.NoLostWakeup | src/checkqueue.h:83-103 | while the master waits unnotified another thread holds an unfinished batch |
| CheckQueueProofs.RankDrops | src/checkqueue.h:69-127 | each step inside Loop uses up rank, except a spurious wakeup, which changes nothing |
| CheckQueueProofs.Progress | src/checkqueue.h:69-146 | while the master is in Wait some thread can take a step that uses up rank |
| CheckQueueProofs.BoundedRun | src/checkqueue.h:69-127 | between two calls from outside only rank many effective steps are possible |
| CheckQueue.CheckQueue.Add | src/checkqueue.h:149-156 | the critical section of Add is the atomic step |
| CheckQueue.CheckQueue.CleanUp | src/checkqueue.h:80-86 | accounting for a finished batch, and when the master is notified |
| CheckQueue.CheckQueue.Top | src/checkqueue.h:91-120 | return, wait or take a batch: the atomic decision |
| CheckQueue.CheckQueue.Take | src/checkqueue.h:111-117 | the last checks of the queue move to the batch |
| CheckQueue.Execute | src/checkqueue.h:121-125 | the verdict of a batch that stops working at the first failure |
| MinerSpec.WeightBySize | src/miner.cpp:248-256 | a package weighs at most four times its virtual size |
| MinerSpec.AncestorsCount | src/miner.cpp:404-413 | an ancestor has strictly fewer ancestors, so sorting by their number puts parents first |
| MinerSpec.AccountStep | src/miner.cpp:360-385 | accounting for one inclusion keeps every tracked package at or above its true size and cost |
| Miner.Considered | src/miner.cpp:425-553 | the totals used for a considered package never underestimate it, and are exact unless it failed before |
| Miner.BlockAssembler.constructor | src/miner.cpp:114-130 | an empty template |
| Miner.BlockAssembler.AddToBlock | src/miner.cpp:334-358 | appends the transaction and adds up weight, size, sigops and fees |
| Miner.BlockAssembler.IsStillDependent | src/miner.cpp:224-233 | whether a mempool parent is missing from the block |
| Miner.BlockAssembler.TestPackage | src/miner.cpp:248-256 | the two limits on a package |
| Miner.BlockAssembler.TestPackageTransactions | src/miner.cpp:263-280 | finality, witness and serialized size of every member |
| Miner.BlockAssembler.SortForBlock | src/miner.cpp:404-413 | the package listed once each by number of ancestors |
| Miner.BlockAssembler.UpdatePackagesForAdded | src/miner.cpp:360-385 | the modified set accounts for all newly included transactions |
| Miner.BlockAssembler.IncludePackage | src/miner.cpp:518-551 | a package goes in whole, parents first and within the limits, or nothing changes |
| Miner.BlockAssembler.AddPackageTxs | src/miner.cpp:425-553 | whatever the scores, it terminates, emits parents first, keeps the block ancestor-closed and within the limits |
| Miner.BlockAssembler.TestForBlock | src/miner.cpp:282-332 | whether a single transaction still fits |
| Miner.BlockAssembler.Requeue | src/miner.cpp:621-631 | the waiting children of an included transaction return to the queue |
| Miner.BlockAssembler.DrawOne | src/miner.cpp:588-633 | one transaction drawn from the queue is included, put aside or dropped; queue, waiting list and block stay apart, and the block grows or the queue shrinks |
| Miner.BlockAssembler.AddPriorityTxs | src/miner.cpp:555-635 | whatever the priorities, it terminates and keeps order, closure and limits |
| Miner.BlockAssembler.SelectTransactions | src/miner.cpp:177-182 | the selected list is free of repetition, parents first, ancestor-closed and within weight and sigop limits |
| MerkleProofs.ExtractSound | src/merkleblock.cpp:96-132 | for any bits and hashes, a subtree whose hash comes out right reports only genuine matches |
| MerkleProofs.ExtractMatchesSound | src/merkleblock.cpp:150-181 | if the nonzero true root comes out, every reported pair is the real transaction at that index |
| MerkleProofs.SiblingsDiffer | src/merkleblock.cpp:119-125 | the rejection of equal siblings never fires for distinct transactions |
| MerkleProofs.ExtractComplete | src/merkleblock.cpp:78-132 | the decoder retraces the encoder and uses exactly its bits and hashes |
| MerkleProofs.BuildSize | src/merkleblock.cpp:78-94 | at most one hash per transaction and a bit per hash |
| MerkleSize.FewHashes | src/merkleblock.h:39-40 | at most one hash for every match and level, and one more |
| MerkleSize.BitsExact | src/merkleblock.h:47 | the number of bits is twice that of the hashes less one, and one more for every explored node with a single child |
| MerkleSize.HashesExact | src/merkleblock.cpp:78-94 | the number of hashes is that of the nodes at which the selection stops to descend |
| MerkleSize.SinglesIff | src/merkleblock.cpp:78-94 | only the last node of a height has explored nodes with a single child below it, at most one a level, and when it has |
| MerkleSize.EncodingSize | src/merkleblock.h:36-48 | the promised limits on the hashes; the promised limit on the bits if and only if no node with a single child is explored |
| MerkleSize.FourBits | src/merkleblock.h:47 | three transactions with two hashes and four bits |
| MerkleSize.SizeIff | src/merkleblock.h:31-48 | when exactly the promised size in bytes is kept, in terms of the number of transactions and the selection |
| MerkleSize.OneByteMore | src/merkleblock.h:31-48 | a block of 1025 transactions whose partial tree takes one byte more than promised |
| MerkleProofs.RoundTrip | src/merkleblock.cpp:134-181 | encoding, padding and extracting gives the root and exactly the selected transactions in order |
| MerkleBlock.Pack | src/merkleblock.h:99-103 | whole bytes whose extra bits are zero |
| MerkleBlock.Unpack | src/merkleblock.h:91-98 | the bits of the bytes |
| MerkleBlock.PartialMerkleTree.TraverseAndBuild | src/merkleblock.cpp:78-94 | pushes exactly the encoding of the subtree |
| MerkleBlock.PartialMerkleTree.CalcHeight | src/merkleblock.cpp:139-142 | the height of the tree |
| MerkleBlock.PartialMerkleTree.Select | src/merkleblock.cpp:134-146 | the encoding of a selection |
| MerkleBlock.PartialMerkleTree.TraverseAndExtract | src/merkleblock.cpp:96-132 | equals the decoder function, cursors and failure flag included |
| MerkleBlock.PartialMerkleTree.ExtractMatches | src/merkleblock.cpp:150-181 | equals the function with all its checks |
| MerkleBlock.SendAndExtract | src/merkleblock.cpp:134-181 | from a selection over bytes to the receiver's matches |
| Arith256.Add | src/arith_uint256.h:135-145 | sum modulo 2^256, also when both operands are one object |
| Arith256.Increment | src/arith_uint256.h:173-180 | the carry chain adds one modulo 2^256 |
| Arith256.Not | src/arith_uint256.h:69-75 | the complement |
| Arith256.Negate | src/arith_uint256.h:77-84 | the negative modulo 2^256 |
| Arith256.Sub | src/arith_uint256.h:147-151 | difference modulo 2^256 |
| Arith256.CompareTo | src/arith_uint256.cpp:110-119 | the sign of the comparison of the numbers |
| Arith256.MulWord | src/arith_uint256.cpp:56-65 | product with a 32-bit word modulo 2^256 |
| Arith256.Mul | src/arith_uint256.cpp:68-81 | product modulo 2^256, and zero for a number times itself in place |
| Arith256.ShiftLeft | src/arith_uint256.cpp:22-36 | multiplication by a power of two modulo 2^256, for any shift |
| Arith256.ShiftRight | src/arith_uint256.cpp:39-53 | floor division by a power of two, for any shift |
| Division.Bits | src/arith_uint256.cpp:172-184 | the bit length |
| Division.Div | src/arith_uint256.cpp:84-107 | the floor of the exact quotient for every nonzero divisor; division by zero throws and leaves zero |
| Compact.OverflowExact | src/arith_uint256.cpp:218-220 | the overflow test holds if and only if the number meant does not fit 256 bits |
| Compact.SetCompact | src/arith_uint256.cpp:204-222 | the number meant modulo 2^256, and both flags exactly |
| Compact.GetCompact | src/arith_uint256.cpp:224-245 | the code of the number; both assertions hold |
| Compact.Nearest | src/arith_uint256.cpp:204-245 | the code stands for the largest number not above the given one that any code stands for |
| Compact.Idempotent | src/arith_uint256.cpp:204-245 | encoding a decoded number gives the same code |
| Difficulty.GetBlockProof | src/chain.cpp:150-163 | floor(2^256 / (target + 1)) for every usable target, else zero |
| Difficulty.HarderIsMoreWork | src/chain.cpp:150-163 | every usable target is worth at least one hash, and a smaller target never less than a larger one |
| Difficulty.CheckProofOfWork | src/pow.cpp:113-130 | accepts exactly a usable target within the limit that the hash does not exceed |
| Difficulty.CalculateNextWork | src/kubu.cpp:31-77 | the retarget in register arithmetic, with the low 32 bits of the time, and the exact one whenever time and product fit |
| Difficulty.MultiplierHolds | src/kubu.cpp:38-70 | the timespans for which the 32-bit multiplier holds every time |
| Difficulty.MultiplierEmpty | src/kubu.cpp:38-76 | a timespan of 2^30 seconds and a time of 2^32, for which the multiplier and with it the next target is zero |
| Difficulty.ExactIff | src/kubu.cpp:68-71 | the register holds the exact quotient if and only if the product is below 2^256 |
| Difficulty.MainChainExact | src/kubu.cpp:31-77 | with a 54-second timespan the factor is between 41 and 81 and the product never wraps |
| Difficulty.Bounded | src/kubu.cpp:58-76 | the next target is the largest representable one within the limit and the exact quotient, never more than half as large again |
| Difficulty.Monotone | src/kubu.cpp:31-77 | a longer interval or an easier previous target never gives a harder target |
| Difficulty.OnSchedule | src/kubu.cpp:40-62 | an interval within eight seconds of the timespan leaves the target unchanged |
| Difficulty.StaysPositive | src/kubu.cpp:68-76 | the next target is positive if and only if the product reaches the timespan |
| Difficulty.WrapsOnLongTimespan | src/kubu.cpp:53-74 | an input for which the product wraps and slow blocks make the target harder |
| RollingBloom.Wiped | src/bloom.cpp:257-265 | the mask clears the marks of one generation and no others |
| RollingBloom.Marked | src/bloom.cpp:273-275 | writing a generation number at one position changes that position only |
| RollingBloom.Rotated | src/bloom.cpp:251-266 | starting a generation wipes no mark that a key still due relies on |
| RollingBloom.MarkKeepsLog | src/bloom.cpp:269-276 | overwriting marks never makes a key forgotten |
| RollingBloom.WipeForgets | src/bloom.cpp:257-265 | a wipe turns the marks of one generation to zero, at every position, and leaves all others |
| RollingBloom.SizesAre | src/bloom.cpp:224-225 | in 32 bits, a generation is half the number of elements rounded up unless that number is 2^32 - 1; the filter gets room for none just for that number and for 0 |
| RollingBloom.RollingBloomFilter.constructor | src/bloom.cpp:217-242 | a filter without marks whose two full generations hold at least the promised number of keys, if and only if that number is neither 0 nor 2^32 - 1 |
| RollingBloom.RollingBloomFilter.Reset | src/bloom.cpp:305-313 | forgets all keys and starts the first generation with no position marked |
| RollingBloom.RollingBloomFilter.Insert | src/bloom.cpp:249-277 | keeps every key of the last three generations marked; the mark of every position afterwards: the key's positions carry the generation, the generation that starts over is gone, nothing else changed |
| RollingBloom.RollingBloomFilter.Contains | src/bloom.cpp:285-297 | answers by the marks, and yes for each key of the last two full generations and the current one |
| CuckooSpec.ChainSwap | src/cuckoocache.h:406-414 | one exchange conserves the entries with their flags and the placement at own positions |
| CuckooSpec.ChainPut | src/cuckoocache.h:384-391 | taking a discardable slot ends an insertion with plus one entry and minus one that may go |
| CuckooSpec.AgedIs | src/cuckoocache.h:280-286 | ageing leaves no kept entry in the current epoch and as many in the old one as were current |
| CuckooSpec.NeverFull | src/cuckoocache.h:255-296 | a table of 32 slots or more always has a slot that may be discarded |
| CuckooSpec.FoundIff | src/cuckoocache.h:443-453 | looking at the eight positions finds exactly what is in the table |
| CuckooSpec.EpochSizeIs | src/cuckoocache.h:324-325 | the epoch is 45 per cent of the table if and only if the 32-bit product does not wrap, and never more |
| CuckooSpec.WrappedEpoch | src/cuckoocache.h:324-325 | the epoch of a table of 2^27 slots, 13 per cent of it |
| CuckooSpec.ErasedIs | src/cuckoocache.h:92-95 | atomic erasures by any threads mark exactly their slots, move nothing and keep the invariant at every point |
| CuckooSpec.AnyOrder | src/cuckoocache.h:92-95 | the order of concurrent erasures does not matter |
| CuckooCache.BitSet | src/cuckoocache.h:92-95 | sets one flag of the packed array and no other |
| CuckooCache.BitUnset | src/cuckoocache.h:103-106 | clears one flag and no other |
| CuckooCache.Cache.constructor | src/cuckoocache.h:315-329 | an empty cache that satisfies the invariant; its epoch is 45 per cent of the table if and only if it has at most 2^26 slots |
| CuckooCache.Cache.EpochCheck | src/cuckoocache.h:264-296 | counts down, and at zero ages the table exactly if the current epoch is full; after it, current entries plus counter leave room for one more below the bound |
| CuckooCache.Cache.NextPosition | src/cuckoocache.h:406 | the position after the one the element came from, or the second if it came from none |
| CuckooCache.Cache.Insert | src/cuckoocache.h:368-416 | an absent element comes in as a kept entry of this epoch, one entry goes (one to keep only if all eight positions are taken by such), and all others stay with their flags; over every run kept entries are at own positions, no element is twice and the epoch bound holds |
| CuckooCache.Cache.Contains | src/cuckoocache.h:443-453 | true exactly for what is in the table, which was inserted before; erasing only marks the slot |
| Radix.RoundTrip | src/base58.cpp:21-109 | converting between two bases and back gives the original digits, leading zeros included |
| Radix.RoomFor58 | src/base58.cpp:81-82 | the buffer of 138/100 of the length plus one always suffices |
| Radix.RoomFor256 | src/base58.cpp:34-35 | the buffer of 733/1000 of the length plus one always suffices |
| Base58.DecodeEncode | src/base58.cpp:21-109 | decoding encoded bytes, with any spaces around, gives the bytes |
| Base58.EncodeDecode | src/base58.cpp:21-109 | text that decodes is spaces, the encoding of the result, and spaces |
| Base58.MulAdd | src/base58.cpp:42-49 | the inner loop multiplies and adds, and its carry assertion holds |
| Base58.EncodeBase58 | src/base58.cpp:71-109 | equals the encoding |
| Base58.DecodeBase58 | src/base58.cpp:21-69 | equals the decoding, error cases included |
| Base58.DecodeString | src/base58.cpp:116-119 | a string object is read up to its first null character |
| Chain.InvertIs | src/chain.cpp:100 | the lowest one bit and only it is turned off |
| Chain.GetSkipHeight | src/chain.cpp:103-111 | always below the height |
| Chain.BlockIndex.GetAncestor | src/chain.cpp:113-137 | terminates and equals walking pprev |
| Chain.BlockIndex.BuildSkip | src/chain.cpp:144-148 | the skip pointer is the ancestor at the skip height |
| Chain.WorkIsTotal | src/validation.cpp:3795 | the recorded work is the total work of the chain up to the block, in 256 bits |
| Chain.TimeMaxIs | src/validation.cpp:3794 | the recorded latest time reaches a time if and only if some block of the chain does |
| Chain.BlockTree.AddToBlockIndex | src/validation.cpp:3770-3803 | a known hash is found; a new block is entered with its previous one, right skip pointer, latest time and work, and the best header keeps the most work |
| Chain.ActiveChain.SetTip | src/chain.cpp:41-51 | in spite of the early stop every entry is the tip's ancestor at its height |
| Chain.ActiveChain.FindFork | src/chain.cpp:81-90 | the highest block common to the chain and the branch |
| Chain.ActiveChain.GetLocator | src/chain.cpp:53-79 | the ancestors at distances 0 to 11 and then 9 plus powers of two, down to the first block |
| Chain.ActiveChain.FindEarliestAtLeast | src/chain.cpp:92-97 | binary search on the latest times finds the first block of the chain that is not before the given time |
| AuxPow.BranchOnce | src/auxpow.cpp:189-206 | branches of one length at one index are determined by their root |
| AuxPow.CheckMerkleBranch | src/auxpow.cpp:189-206 | the loop computes the root; index -1 gives zero |
| AuxPow.WidthDoesNotMatter | src/auxpow.cpp:163-187 | the expected index is the same in any width of at least 32 bits |
| AuxPow.Search | src/auxpow.cpp:113-117 | the first occurrence |
| AuxPow.CheckScript | src/auxpow.cpp:113-160 | accepts exactly a script with the root, size and nonce in the required place |
| AuxPow.Check | src/auxpow.cpp:80-161 | accepts exactly under the declarative condition |
| AuxPow.OncePerPlace | src/auxpow.cpp:80-161 | a script and a place in it determine the aux block of a chain |
| AuxPow.AtMostOneAuxBlock | src/auxpow.cpp:122-130 | a script with the header serves at most one aux block per chain id |
| AuxPow.LegacyAtMost21 | src/auxpow.cpp:131-138 | any list of different aux blocks of a chain proved by one script without the header has at most 21 |
| AuxPow.LeafServedIff | src/auxpow.cpp:131-161 | whatever the hash function, a script without the header serves a block by a tree of one leaf if and only if the block occurs first at one of the first 21 places, followed by the size one and a nonce |
| AuxPow.TwoLeavesIff | src/auxpow.cpp:131-161 | it serves two different blocks by trees of one leaf if and only if it has two such places |
| AuxPow.LeavesAtMostSix | src/auxpow.cpp:131-161 | it serves at most six |
| AuxPow.LegacyServesSix | src/auxpow.cpp:131-161 | a script that serves six blocks of any chain |
| CompactIndexes.IndexesRoundTrip | src/blockencodings.h:38-68 | a list of 16-bit indexes is read back if it is strictly increasing, and refused otherwise |
| CompactIndexes.AcceptedIncreasing | src/blockencodings.h:55-61 | differences that stay within 16 bits are accepted and give a strictly increasing list |
| CompactIndexes.WrappedNotIncreasing | src/blockencodings.h:55-61 | accepted differences that go beyond give a list that is not increasing |
| CompactIndexes.WrapsAround | src/blockencodings.h:55-61 | two differences that are accepted and wrap |
| CompactIndexes.ReadIndexes | src/blockencodings.h:42-61 | the loops read as specified |
| CompactSpec.PlaceNext | src/blockencodings.cpp:64-78 | an accepted prefilled transaction goes to a position in range beyond all earlier ones |
| CompactSpec.AtMost16 | src/blockencodings.cpp:64-78 | at most 2^16 prefilled transactions are accepted, and that many take all the positions of 16 bits |
| CompactSpec.OwnPosition | src/blockencodings.cpp:85-90 | a short id gets its own position if and only if 16 bits hold that position |
| CompactSpec.OwnPositions | src/blockencodings.cpp:85-90 | all short ids do if and only if there are at most 2^16 transactions |
| CompactBlock.PartiallyDownloadedBlock.PlacePrefilled | src/blockencodings.cpp:63-78 | accepts exactly well-formed prefilled lists and places them |
| CompactBlock.PartiallyDownloadedBlock.AssignShortIds | src/blockencodings.cpp:85-107 | short id i gets the low 16 bits of the i-th empty position; fails exactly on equal ids or an uneven table, and does not end exactly if 2^16 transactions are prefilled and there is a short id |
| CompactBlock.PartiallyDownloadedBlock.NextFree | src/blockencodings.cpp:87-88 | the search with a 16-bit offset ends at the next empty position if and only if fewer than 2^16 transactions are prefilled, and else meets only positions that are taken, for ever |
| CompactBlock.PartiallyDownloadedBlock.InitData | src/blockencodings.cpp:50-173 | the status for every message; on success every position holds what was prefilled, or the first candidate looked at whose short id is kept with that position, unless a later one casts doubt on it; the counter counts them; in an object used for the first time, looking stops early only when nothing is open |
| CompactSpec.Advance | src/blockencodings.cpp:114-131 | one candidate for a position leads to the exact outcome for the list with it added |
| CompactSpec.AllFound | src/blockencodings.cpp:132-136 | when the count reaches the number of short ids no position they are kept with is empty |
| CompactSpec.ExactSound | src/blockencodings.cpp:109-168 | with at most 2^16 transactions, whatever is taken comes from a candidate with the position's short id and prefilled transactions stay |
| CompactSpec.Misplaced | src/blockencodings.cpp:85-136 | beyond that, a single candidate for a position that 16 bits do not hold ends up 2^16 positions before it, whatever is there |
| CompactSpec.StaysOpen | src/blockencodings.cpp:85-168 | a position that 16 bits do not hold is never filled |
| CompactBlock.OverwritesPrefilled | src/blockencodings.cpp:50-136 | a message of 2^16 + 1 transactions in which a candidate replaces the prefilled first transaction |
| CompactBlock.SearchesForever | src/blockencodings.cpp:50-90 | a message of 2^16 prefilled transactions and a short id, for which the call does not return |
| CompactSpec.EmptyForAReason | src/blockencodings.cpp:109-168 | in an object used for the first time a position is empty only if nothing was prefilled and no candidate of all is for it, or two are |
| CompactBlock.PartiallyDownloadedBlock.FillBlock | src/blockencodings.cpp:184-229 | the merged list, the refusal of too few or too many, and what is left of the object |
| CompactBlock.OnlyOwn | src/blockencodings.cpp:109-168 | without colliding short ids every transaction taken is the block's own |
| CompactBlock.Completed | src/blockencodings.cpp:193-201 | exactly the missing transactions rebuild the original list |
| CompactBlock.Announce | src/blockencodings.cpp:20-30 | the first transaction in full and the short ids of the others in order |
| CompactBlock.PartiallyDownloadedBlock.MissingIndexes | src/net_processing.cpp:2294-2298 | the empty positions in order, in 16 bits |
| CompactBlock.Request | src/net_processing.cpp:1327-1337 | positions asked for in 16 bits: with at most 2^16 transactions exactly the missing ones are sent, else a request that is read gets those at the low 16 bits |
| CompactBlock.Relay | src/blockencodings.cpp:20-229 | a block of at most 2^16 transactions is rebuilt if and only if its first transaction is not null and the short ids of the others differ and fill the table evenly; the verdict on what is rebuilt is then that of CheckBlock, and it is the sender's list if short ids do not collide; a larger one that gets through repeats the first transaction at position 2^16 |

## Left out

- Networking, RPC, wallet, script evaluation, file handling and the command-line tools: mostly input and output over other libraries.
- Select_ and GetChance in the address manager: floating-point chances.
- Serialized peers: the stream is a record of its fields; a negative number of positions in a bucket is read like none.
- AddrManFile.Unserialize: loads into a new object instead of clearing an existing one.
- Calls on a manager that holds the id -1, which a file with a negative count of new entries leads to: the id stands for an empty slot.
- cachedCoinsUsage and the other memory statistics of the coin caches: bookkeeping that no result depends on.
- CoinsRuns.Run: AccessCoins, HaveInputs and GetValueIn would only add easy members.
- CCheckQueue: fQuit is never set in the source, and thread interruption is not modelled.
- Block assembly: fees of packages, coinbase construction and the final validity test are not modelled; scores and priorities are arbitrary.
- Merkle tree widths: the 32-bit wrap for more than 2^31 transactions is not modelled.
- Arith256.Mul: aliasing is modelled for one object on both sides only, since other overlaps cannot occur.
- Difficulty.CalculateNextWork: asks for a timespan below 2^61 seconds, above which four timespans overflow signed 64 bits.
- GetNextWorkRequired, the minimum-difficulty rules and GetBlockProofEquivalentTime: case distinctions over what is modelled.
- Sizes of the bloom filter and the depth of the cuckoo cache come from floating-point formulas and are parameters.
- CuckooCache.Cache.Contains: is one call; what concurrent calls do to the flags is in CuckooSpec.ErasedIs, and insertions exclude them by a lock.
- Base58Check and addresses: a hash appended to what is modelled.
- The parent block's own proof of work in merged mining, and initAuxPow.
- CoinsCoding.CoinsRoundTrip: asks only for what the types hold, and for fewer than 2^31 outputs and script bytes.
- Compressor.ScriptRoundTrip: that a valid public key is determined by its compressed form is a hypothesis about the curve.
- Chain.BlockTree.AddToBlockIndex: asks that the hash of a header is not that of its previous block, which would be a fixed point of the hash.
- extra_count and the log messages of compact blocks; CheckBlock is an argument.
