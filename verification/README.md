# Verified core of the CmusicAI node

A Dafny 4.11 model of the parts of the node whose data structures and protocols carry hard invariants, with
machine-checked proofs. `dafny verify dfyconfig.toml` checks the whole project.

Each component has a module of values, functions and lemmas that say what the code must compute. Where the code
works by changing state, a second module has the object or the loops in that form, and each method is proved
to do to the object's value what the function of the same name does.

| component | modules |
|---|---|
| layered cache of unspent outputs, with its database | Coins, CoinsCache, CoinsDisk |
| address manager, with its file | AddrMan, AddrManager, AddrManFile, AddrManRecovery |
| parallel check queue | CheckQueue |
| block assembler | BlockAssembler |
| Merkle root of a block, partial Merkle trees (BIP 37) | MerkleRoot, PartialMerkle, PartialMerkleTree, PackedBits |
| cuckoo cache | Cuckoo, CuckooKept, CuckooCache, PackedBits |
| compact blocks (BIP 152) | CompactBlock, PartialBlock |
| rolling bloom filter | RollingBloom, RollingBloomFilter |
| 256-bit arithmetic, compact targets, block work | Limbs, ArithUint256, CompactTarget |
| Base58 | Radix, Base58, Base58Codec |
| verifier-string evaluator | BoolEE, Readings, LibBoolEE |
| block index and active chain | Chain, SkipHeights |
| message framing | Framing, NetMessages |

Wrappers, Numbers and Chars hold what several of them share.

Hash functions are parameters; where a result needs them to be injective, the lemma says on which values.
Clocks, random draws, CheckBlock, IsUnspendable, address routability and the hash table's bucket sizes are
arguments. Integers are unbounded; 16-, 32- and 64-bit limits are written out where the code depends on them.

Where the code does not do what its documentation or its name suggests, the code is modelled as it is, a lemma
gives a concrete case, and another says exactly when the promise holds:

- SpendCoin reports success for an entry that is cached as spent (Coins.SpendTwiceSucceedsTwice, Coins.SpendCoinAnswer).
- A partial Merkle tree can need more than 2N-1 bits (PartialMerkle.BitBoundFails, PartialMerkle.EncodedSize).
- Add_ reports an address as new even if it is deleted again at once (AddrMan.NewAddressLost, AddrMan.NewAddressKept).
- `x *= x` on one 256-bit object gives zero (ArithUint256.SquareOne, ArithUint256.SquareIsZero).
- The side table takes plain fees off modified ones (BlockAssembler.FeesOff, BlockAssembler.FeesRight).
- InitData does not return for one shape of announcement (PartialBlock.InitDataHangs, PartialBlock.OffsetLoopEnds).
- Decoded request indexes after 65535 start over (CompactBlock.IndexesStartOver, CompactBlock.SumsIncreasing).
- The Merkle root calculator works up to 2^31 leaves, where its comment says 2^32 (MerkleRoot.CountOverflows,
  MerkleRoot.CountFits).
- The evaluator accepts strings that its documentation says are no formulas (Readings.StrayResolves, Readings.LooseResolves,
  Readings.DocumentedExactly). Its constants are written 1 and 0, where the documentation says tt and ff.

A block of more than 65536 transactions cannot be exchanged, as positions are kept in 16 bits (PartialBlock.Exchange). The
cuckoo cache displaces from the second location first, where its comment says the first; the proofs follow the code.

## Model

| member | source | states |
|---|---|---|
| `Coins.RunAgrees` | src/coins.cpp:51-495 | a stack of caches of any depth, used at the top and flushed at any level, gives over every run the answers that one plain map per level gives, SpendCoin's boolean included (also true where the top cache holds a spent entry), and keeps every layer's flag promises and memory total |
| `Coins.StepAgrees` | src/coins.cpp:51-495 | the same for one operation at any level |
| `Coins.GetCoinReadsTheView` | src/coins.cpp:68-75 | GetCoin answers what the layered view holds, and caching on the way changes no view |
| `Coins.FetchReadsTheView` | src/coins.cpp:51-66 | fetching caches exactly the coin the view has, changes no view and keeps the promises: FRESH means nothing unspent below, not DIRTY means equal to below, spent means DIRTY and not FRESH |
| `Coins.AddCoinUpdatesTheView` | src/coins.cpp:77-96 | an AddCoin within the caller's duty never throws and sets exactly that outpoint in the view, or nothing for an unspendable output |
| `Coins.AddCoinDutyIsExact` | src/coins.cpp:77-96 | when AddCoin goes through, the promises survive if and only if overwriting was allowed or the view had no coin there |
| `Coins.SpendCoinUpdatesTheView` | src/coins.cpp:360-392 | spending removes the coin from the view and hands out the coin that was there |
| `Coins.SpendCoinAnswer` | src/coins.cpp:360-392 | the boolean answer means "there was a coin" if and only if the cache does not hold a spent entry |
| `Coins.SpendTwiceSucceedsTwice` | src/coins.cpp:360-392 | a concrete case: spending the same coin twice reports success twice |
| `Coins.ShortLived` | src/coins.cpp:77-96 | a coin that is added and spent in one cache leaves the whole stack as it was |
| `Coins.ShortLivedBelow` | src/coins.cpp:425-479 | nor does one leave a trace in the cache below if it was flushed there in between |
| `Coins.UncacheKeepsTheView` | src/coins.cpp:488-495 | an entry without flags leaves the cache, any other stays, and no view changes |
| `Coins.MergeKeepsPromises` | src/coins.cpp:425-479 | for a child that keeps its promises the FRESH-misapplied error cannot occur, the parent's promises hold after the merge, and the merged layer shows the child over the parent |
| `Coins.BatchWriteOverlays` | src/coins.cpp:425-479 | the same for a write into any stack: its view becomes the child over its old view, the levels below are untouched |
| `Coins.FlushPushesTheView` | src/coins.cpp:481-486 | flushing moves the view down one level, leaves an empty cache and changes nothing that can be read at the top |
| `Coins.EmptyCache` | src/coins.cpp:45-45 | an empty cache shows its base and keeps the promises |
| `CoinsCache.CoinsDb.BatchWrite` | src/txdb.cpp:91-150 | a write cut into any batches stores or erases exactly the DIRTY entries and ends with the new best block and no head blocks; a crash before any of the batches leaves the database as it was or marked as under way with part of the changes |
| `CoinsCache.CoinsViewCache.OnDisk` | src/coins.cpp:45-45 | a cache on the database is the empty layer on it |
| `CoinsCache.CoinsViewCache.OnCache` | src/coins.cpp:45-45 | a cache on a cache is the empty layer on it |
| `CoinsCache.CoinsViewCache.FetchCoin` | src/coins.cpp:51-66 | the object does what Coins.Fetch does to its value, through any number of levels |
| `CoinsCache.CoinsViewCache.GetCoin` | src/coins.cpp:68-75 | refines Coins.GetCoin |
| `CoinsCache.CoinsViewCache.AccessCoin` | src/coins.cpp:396-403 | refines Coins.AccessCoin |
| `CoinsCache.CoinsViewCache.HaveCoin` | src/coins.cpp:405-408 | refines Coins.HaveCoin |
| `CoinsCache.CoinsViewCache.AddCoin` | src/coins.cpp:77-96 | refines Coins.AddCoin |
| `CoinsCache.CoinsViewCache.SpendCoin` | src/coins.cpp:360-392 | refines Coins.SpendCoin |
| `CoinsCache.CoinsViewCache.Uncache` | src/coins.cpp:488-495 | refines Coins.Uncache |
| `CoinsCache.CoinsViewCache.WriteEntry` | src/coins.cpp:427-476 | one entry of a batch: fails exactly for a misapplied FRESH and then changes nothing, otherwise merges it and keeps the memory total exact |
| `CoinsCache.CoinsViewCache.WriteEntries` | src/coins.cpp:426-477 | the loop over a batch, in any order, is Coins.Merge; if it fails, the entries before the misapplied one are merged and the others left |
| `CoinsCache.CoinsViewCache.BatchWrite` | src/coins.cpp:425-479 | refines Coins.BatchWrite, takes over the best block, and says what is merged and what is left when it throws |
| `CoinsCache.CoinsViewCache.Flush` | src/coins.cpp:481-486 | refines Coins.Flush; the base has the best block afterwards; if the write throws, the cache keeps what was not written and its memory count |
| `CoinsCache.CoinsViewCache.GetBestBlock` | src/coins.cpp:415-419 | the best block of this cache or else of its base, through any number of levels; reading it changes no answer |
| `CoinsCache.CoinsViewCache.SetBestBlock` | src/coins.cpp:421-423 | sets the block of this cache and no other |
| `CoinsDisk.Restarts` | src/txdb.cpp:91-150 | flushes toward the same coins, each with a map of its own, are interrupted between batches any number of times: the assertions of BatchWrite hold for the next one, the old block stays the same, every outpoint has its first or its new coin, and a flush that covers all that had to change ends with exactly the new coins |
| `CoinsDisk.Resumable` | src/txdb.cpp:99-114 | the same for one crash |
| `CoinsDisk.Recovers` | src/validation.cpp:5079-5145 | recovery: a flush of any map toward the effect of some blocks crashes, and so does any number of replays of them on what they find; the next replay may be written and leaves exactly the coins after the blocks, their tip and no head blocks |
| `CoinsDisk.CrashesMix` | src/validation.cpp:5079-5145 | after all those crashes the database is a mixture of the coins before and after the blocks, and has the same old block |
| `CoinsDisk.ReplayRestores` | src/validation.cpp:5124-5127 | replaying blocks on any mixture of the coins before and after them gives the coins after them |
| `CoinsDisk.ReplayedMap` | src/validation.cpp:5079-5145 | the entries in the cache of a replay lead to the coins after the blocks and hold all that the database lacks of them |
| `CoinsDisk.ReplayAgrees` | src/validation.cpp:5069-5075 | blocks replayed in a cache change its view as they change a plain set of coins |
| `CoinsDisk.ReplayOneAgrees` | src/validation.cpp:1789-1806 | a coin written with the overwrite flag that HaveCoin gives is added and raises no logic_error, whatever was there; an erased one is gone |
| `CoinsDisk.ApplyAt` | src/validation.cpp:5124-5127 | what blocks leave at an outpoint they touch does not depend on what was there, and they leave every other as it was |
| `PartialMerkle.Authentic` | src/merkleblock.cpp:81-166 | for any bits and hashes: if extraction succeeds with the Merkle root of a list of as many txids, every extracted hash is the txid at its index |
| `PartialMerkle.ExtractIsGenuine` | src/merkleblock.cpp:81-117 | the same for one subtree |
| `PartialMerkle.RoundTrip` | src/merkleblock.cpp:63-166 | for every list of txids, distinct or not, and every mask, extracting from the built tree, even with padding bits, reads exactly the matched txids and positions in order; it gives the root and a good tree if and only if no node with a match below it has two children of the same hash, and otherwise null and a bad one |
| `PartialMerkle.AcceptsExactly` | src/merkleblock.cpp:135-166 | any tree at all is accepted if and only if it was not bad, its counts are within the limits and its bits and hashes say a part of the tree without equal siblings and nothing besides but bits up to the byte; the answer is what that part says; the bad flag and what is refused unread are exact too |
| `PartialMerkle.ExtractReads` | src/merkleblock.cpp:81-117 | a part of the tree that stands anywhere in the streams is read, using up exactly its bits and hashes, and marked bad if and only if it has equal siblings |
| `PartialMerkle.ExtractParses` | src/merkleblock.cpp:81-117 | whatever is read without fault is a part of the tree that stands there |
| `PartialMerkle.BuildSends` | src/merkleblock.cpp:63-79 | what is built is the part of the tree down to the matched leaves and no further |
| `PartialMerkle.SentTwins` | src/merkleblock.cpp:81-117 | that part has equal siblings if and only if some node with a match below it has |
| `PartialMerkle.DistinctNoTwins` | src/merkleblock.cpp:104-110 | distinct txids under injective pair hashing never have |
| `PartialMerkle.EncodedSize` | src/merkleblock.h:34-51 | hashes number at most N and at most 1 + matched * height; the documented 2N-1 bits hold if and only if no level of an odd number of nodes has a match under its last node |
| `PartialMerkle.BitBoundFails` | src/merkleblock.h:49-49 | a concrete case with more than 2N-1 bits |
| `PartialMerkle.BitCount` | src/merkleblock.cpp:63-79 | the exact number of bits from hashes and single-child nodes on matched paths |
| `PartialMerkle.NoSingles` | src/merkleblock.cpp:63-79 | a subtree has no matched single-child node if and only if it does not reach the end of the leaves or no odd level below has a match under its last node |
| `PartialMerkle.HashesFitLeaves` | src/merkleblock.h:41-41 | a subtree stores at most as many hashes as it has leaves |
| `PartialMerkle.HashesFitPaths` | src/merkleblock.h:42-42 | a subtree stores at most 1 + matched * height hashes |
| `PartialMerkle.NodesDiffer` | src/merkleblock.cpp:43-61 | for distinct txids and injective pair hashing, nodes of one level differ, so the duplicate-child test never rejects a genuine tree |
| `PartialMerkle.BadStays` | src/merkleblock.cpp:81-117 | bad data is never forgotten during a traversal |
| `PartialMerkleTree.WidthFormula` | src/merkleblock.h:68-70 | the shift formula for a level's width is repeated halving, rounded up |
| `PartialMerkleTree.LeafFormula` | src/merkleblock.cpp:63-70 | the leaves below a node are positions pos*2^h up to the next node's, cut off at the end |
| `PartialMerkleTree.PackBits` | src/merkleblock.h:102-104 | bits are packed eight to a byte, least significant first, padded with zeros |
| `PartialMerkleTree.UnpackBits` | src/merkleblock.h:97-99 | unpacking reads every bit of every byte |
| `PartialMerkleTree.Transmit` | src/merkleblock.h:90-107 | what arrives is what was sent followed by fewer than eight zero bits |
| `PartialMerkleTree.CPartialMerkleTree.FromTxids` | src/merkleblock.cpp:119-131 | the constructor builds PartialMerkle.FromTxids |
| `PartialMerkleTree.CPartialMerkleTree.Empty` | src/merkleblock.cpp:133-133 | the default object is bad and empty |
| `PartialMerkleTree.CPartialMerkleTree.CalcTreeWidth` | src/merkleblock.h:68-70 | computes PartialMerkle.Width |
| `PartialMerkleTree.CPartialMerkleTree.TreeHeight` | src/merkleblock.cpp:123-126 | the loop finds the height at which one node is left |
| `PartialMerkleTree.CPartialMerkleTree.ParentOfMatch` | src/merkleblock.cpp:64-67 | the loop finds whether a matched leaf lies below the node |
| `PartialMerkleTree.CPartialMerkleTree.TraverseAndBuild` | src/merkleblock.cpp:63-79 | appends exactly the bits and hashes of PartialMerkle.Build |
| `PartialMerkleTree.CPartialMerkleTree.TraverseAndExtract` | src/merkleblock.cpp:81-117 | computes PartialMerkle.Extract, flag included |
| `PartialMerkleTree.CPartialMerkleTree.ExtractMatches` | src/merkleblock.cpp:135-166 | computes PartialMerkle.ExtractMatches |
| `MerkleRoot.ComputeMerkleRoot` | src/consensus/merkle.cpp:48-139 | the calculator in constant space gives the root of the tree that partial trees are parts of, and reports as mutated exactly the lists that have two complete subtrees of the same hash side by side; its count stays within 32 bits |
| `MerkleRoot.AddLeaf` | src/consensus/merkle.cpp:66-92 | one more leaf leaves a hash stored for every bit of the count, that of the last complete node of its level |
| `MerkleRoot.Sweep` | src/consensus/merkle.cpp:93-129 | the sweep over the right edge ends with the root |
| `MerkleRoot.Propagate` | src/consensus/merkle.cpp:117-128 | as long as a level has an even number of nodes, the one before the last is stored |
| `MerkleRoot.RootCommits` | src/consensus/merkle.cpp:11-45 | two lists with the same root, neither of them mutated, are the same, for injective pair hashing and txids that are no pair hashes |
| `MerkleRoot.SameLeaves` | src/consensus/merkle.cpp:11-45 | the same for two subtrees of one height |
| `MerkleRoot.NoTwins` | src/consensus/merkle.cpp:37-45 | in a list that is not mutated no two siblings have the same hash, as both would be complete |
| `MerkleRoot.RepeatedLast` | src/consensus/merkle.cpp:15-30 | a concrete case: three leaves have the root of the same with the last one twice, which is mutated |
| `MerkleRoot.CountFits` | src/consensus/merkle.cpp:110-114 | up to 2^31 leaves the count never exceeds 2^31 |
| `MerkleRoot.CountOverflows` | src/consensus/merkle.cpp:47-47 | for every larger number up to 2^32 the level that the sweep ends with has 2^32 places, which the 32-bit count does not hold |
| `CheckQueue.ReachableCounts` | src/checkqueue.h:71-163 | in every reachable state of one master and any number of workers, nTodo is the queue length plus all batches in flight, and nTotal and nIdle count the threads they should |
| `CheckQueue.WaitAnswer` | src/checkqueue.h:145-148 | Wait returns true exactly if every check added since the last Wait succeeds; then all of them were run, otherwise one was run and failed |
| `CheckQueue.NoLostWakeup` | src/checkqueue.h:80-106 | a master that sleeps without having been notified waits for a worker that still holds an unfinished batch |
| `CheckQueue.RunAlerts` | src/checkqueue.h:151-163 | over every run, as long as checks are queued not all workers sleep without having been notified |
| `CheckQueue.AddAlerts` | src/checkqueue.h:159-162 | adding checks calls at least one worker if all sleep |
| `CheckQueue.DoomedRun` | src/checkqueue.h:118-127 | once a failure is accounted and every thread at work knows of one, no interleaving runs another check until the master has its answer |
| `CheckQueue.DoomedStays` | src/checkqueue.h:118-127 | the same for one step; the answer is then false |
| `CheckQueue.FailureEndsBatch` | src/checkqueue.h:123-126 | within a batch nothing is run after a failure |
| `CheckQueue.BatchIsShare` | src/checkqueue.h:107-112 | a batch is an equal share of the queue if the idle threads join in, rounded down, at least one and at most nBatchSize |
| `CheckQueue.TakesLast` | src/checkqueue.h:113-118 | checks are taken off the end of the queue, the last first |
| `CheckQueue.WhoLeaves` | src/checkqueue.h:93-102 | nobody leaves before all is done; then the master does, and a worker if and only if fQuit is set |
| `CheckQueue.SomeoneMoves` | src/checkqueue.h:71-129 | while a master waits, some thread can make a step |
| `CheckQueue.MovesAreBounded` | src/checkqueue.h:71-129 | only boundedly many steps can be made before more checks are added |
| `CheckQueue.WaitReturns` | src/checkqueue.h:71-148 | Wait returns: from any state an interleaving of moves is no longer than the measure, and one that cannot go on ends with the master outside |
| `CheckQueue.MoveMeasure` | src/checkqueue.h:71-129 | each step lowers the measure |
| `CheckQueue.RunKeeps` | src/checkqueue.h:71-163 | every interleaving keeps the invariant: counters, books of added, queued, held, run and skipped checks, and the wakeup condition |
| `CheckQueue.StepKeeps` | src/checkqueue.h:71-163 | every step keeps the invariant |
| `CheckQueue.AddKeeps` | src/checkqueue.h:151-163 | adding checks and notifying keeps it |
| `CheckQueue.AccountKeeps` | src/checkqueue.h:78-91 | accounting a finished batch and notifying the master keeps it |
| `CheckQueue.WakeKeeps` | src/checkqueue.h:103-106 | waking up keeps it |
| `CheckQueue.DecideKeeps` | src/checkqueue.h:93-121 | returning, sleeping or taking a batch keeps it |
| `CheckQueue.WorkKeeps` | src/checkqueue.h:123-127 | running the checks of a batch keeps it |
| `CheckQueue.InitialHolds` | src/checkqueue.h:136-136 | the invariant holds at the start |
| `BlockAssembler.Assembler.AddPackageTxs` | src/miner.cpp:377-505 | over every acyclic mempool the selection ends, the block stays ancestor-closed and in dependency order within weight and sigop limits. The record of all candidates says: each had figures that cover what it lacked, and was decided by the minimum fee, then the room, then finality; the block grew by exactly the packages that passed; the loop stopped at the first that paid too little, or gave up exactly when more than 1000 were too big since one was added and the block is nearly full, and otherwise all that is left out failed when tried. If everything fits, it neither gives up nor leaves anything out; if also no fee was modified, every candidate was the best left and was added exactly if it paid the minimum |
| `BlockAssembler.Assembler.Pass` | src/miner.cpp:400-505 | one candidate: the record, the counters and what failed are kept up, and it stops exactly as the source does |
| `BlockAssembler.Assembler.Consider` | src/miner.cpp:400-503 | the outcome of a candidate is decided by its figures, the minimum fee, the room and finality, and only one that passes changes the block |
| `BlockAssembler.Assembler.LeftOutFailed` | src/miner.cpp:398-480 | when all is walked, a transaction outside the block failed a test when it was tried |
| `BlockAssembler.Assembler.TryPackage` | src/miner.cpp:451-503 | a package is added exactly if it passes both tests; then all its missing ancestors and nothing else come in |
| `BlockAssembler.Assembler.AddPackage` | src/miner.cpp:490-503 | adding a sorted package keeps the block valid and within limits and the side table right |
| `BlockAssembler.Assembler.AddSorted` | src/miner.cpp:494-498 | no transaction is added twice; the added ones leave the side table |
| `BlockAssembler.Assembler.AddToBlock` | src/miner.cpp:295-312 | the block and all its totals grow by one transaction |
| `BlockAssembler.Assembler.Choose` | src/miner.cpp:400-435 | the candidate is the next in mempool order or in the side table, and no entry of the side table nor the next in order has a higher fee rate |
| `BlockAssembler.Assembler.Figures` | src/miner.cpp:437-444 | size, fees and sigops are the side table's if it has the candidate, otherwise the mempool's |
| `BlockAssembler.Assembler.Next` | src/miner.cpp:400-450 | the candidate is outside the block and its figures cover what is missing; if everything fits it passes the tests, and it is the best left |
| `BlockAssembler.BestOfAll` | src/miner.h:75-85 | what is chosen has at least the fee rate of every package left, in the side table or ahead in the order |
| `BlockAssembler.ExactFigure` | src/miner.cpp:437-444 | while nothing failed and no fee was modified, the figures used are the true totals of what is missing |
| `BlockAssembler.ExactFees` | src/miner.h:119-131 | over any number of packages, an entry of the side table has the modified fees of what the block lacks, and besides what all its ancestors in the block but one were modified by |
| `BlockAssembler.FeesCompose` | src/miner.h:119-131 | what several calls take off an entry is what one call would |
| `BlockAssembler.FeesRight` | src/miner.h:119-131 | whichever ancestor came first, the entry has the modified fees of what the block lacks if and only if at most one of its ancestors is in the block or none of those that are was modified |
| `BlockAssembler.FeesOff` | src/miner.h:119-131 | a concrete mempool: with two parents whose fees were raised in the block, in one package or in two, the entry of their child has 11 where 10 is left |
| `BlockAssembler.RaisedWellFormed` | src/txmempool.h:77-112 | that mempool has the cached totals of a real one, modified fees included |
| `BlockAssembler.RaisedTable` | src/miner.h:119-131 | a side table that is exact for it, so the case occurs |
| `BlockAssembler.PatchFees` | src/miner.h:119-131 | a new entry loses the modified fee of its first ancestor in the block and the plain fee of every other; an old entry only plain fees |
| `BlockAssembler.Assembler.InitialTable` | src/miner.cpp:379-387 | the side table starts exact |
| `BlockAssembler.Assembler.EraseFailed` | src/miner.cpp:452-458 | a failed candidate leaves the side table only |
| `BlockAssembler.Assembler.OnlyUnconfirmed` | src/miner.cpp:257-268 | exactly the members not in the block remain |
| `BlockAssembler.Assembler.TestPackageTransactions` | src/miner.cpp:284-293 | true exactly if every transaction passes |
| `BlockAssembler.Assembler.constructor` | src/miner.cpp:81-120 | the weight limit is the option, but at least 4000 and at most the block limit less 4000, and the block starts empty, with the coinbase reserved |
| `BlockAssembler.Assembler.CandidateFits` | src/miner.cpp:270-278 | if the whole pool fits, every candidate passes the tests |
| `BlockAssembler.UpdatePackagesForAdded` | src/miner.cpp:314-339 | every descendant's size, sigops and fees drop by exactly the added ancestors it had |
| `BlockAssembler.SubtractFrom` | src/miner.cpp:319-336 | the inner loop for one added transaction |
| `BlockAssembler.PatchedTableOk` | src/miner.cpp:314-339 | cached figures never fall below the true totals of what is not yet in the block |
| `BlockAssembler.PatchedExact` | src/miner.cpp:314-339 | and equal them, fees included if none was modified, as long as no failed entry has been inserted again |
| `BlockAssembler.SortForBlock` | src/miner.cpp:356-365 | the package, once each, by ancestor count |
| `BlockAssembler.SortedIsValid` | src/miner.h:87-97 | that order puts every transaction after its ancestors |
| `BlockAssembler.CountsGrow` | src/miner.h:87-97 | an ancestor has fewer ancestors than its descendant |
| `BlockAssembler.EverythingFits` | src/miner.cpp:270-278 | if the whole pool fits, cached figures of any candidate fit too |
| `CuckooKept.RunAgrees` | src/cuckoocache.h:392-477 | over every run in which each insert finds room, the elements that may not be collected, with their epochs, are those of a plain map that inserts, erases and ages; all of them are found |
| `CuckooKept.FoundForAnEpoch` | src/cuckoocache.h:392-477 | an inserted element is found during at least epoch_size + 1 further inserts, unless it is erased, as long as each finds room |
| `CuckooKept.InsertKept` | src/cuckoocache.h:392-440 | after an insert that holds the element or finds room, exactly the element, as living, and all that was kept after the epoch check are kept; otherwise exactly one of these is missing |
| `CuckooKept.DisplaceKept` | src/cuckoocache.h:406-440 | the same for the displacement loop at any depth |
| `CuckooKept.CheckKept` | src/cuckoocache.h:289-321 | when an epoch begins the old elements may be collected and the living ones grow old; otherwise nothing changes |
| `CuckooKept.LookAgrees` | src/cuckoocache.h:467-477 | erasing forgets exactly that element, looking forgets nothing |
| `CuckooKept.LiveCounts` | src/cuckoocache.h:297-300 | the scan counts the living elements |
| `CuckooKept.SetupAgrees` | src/cuckoocache.h:340-353 | after setup nothing is kept |
| `Cuckoo.SetupIs` | src/cuckoocache.h:340-353 | at least two slots, all free, and an epoch of 45 percent of them |
| `Cuckoo.NotBack` | src/cuckoocache.h:416-431 | an element with eight different locations is not put back where it was taken from |
| `Cuckoo.AfterSetup` | src/cuckoocache.h:340-477 | after setup and any run of inserts and erases, contains is membership for every element but the default, and the living epoch is within its bound |
| `Cuckoo.RunKeeps` | src/cuckoocache.h:392-477 | every run keeps placement and the epoch bound |
| `Cuckoo.InsertKeeps` | src/cuckoocache.h:392-440 | an insert either leaves the elements as they are or adds the element and drops exactly one; unless the depth runs out that one could be collected, and the new element and all that could not be collected are in the table; every element stays at one of its own eight locations |
| `Cuckoo.DisplaceKeeps` | src/cuckoocache.h:406-440 | the displacement loop, at any remaining depth, adds the element in hand, drops exactly one and keeps every element at a location of its own |
| `Cuckoo.DisplaceLoses` | src/cuckoocache.h:406-440 | the dropped element was in a collectable slot if the loop came to one; otherwise it is the one in hand or was in a slot to be kept |
| `Cuckoo.SparesKept` | src/cuckoocache.h:406-440 | if the loop comes to a collectable slot, the new element and every element in a slot to be kept are in the table |
| `Cuckoo.ContainsIsMembership` | src/cuckoocache.h:467-477 | contains is true exactly for the non-default elements in the table and does not change it |
| `Cuckoo.EpochCheckMakesRoom` | src/cuckoocache.h:289-321 | after the check there is room in the living epoch for the inserts the counter allows |
| `Cuckoo.DisplaceLive` | src/cuckoocache.h:406-440 | displacement adds at most one to the living epoch |
| `Cuckoo.InsertEpoch` | src/cuckoocache.h:289-440 | an insert keeps the number of living slots within epoch_size + max(1, epoch_size/16) |
| `Cuckoo.ContainsEpoch` | src/cuckoocache.h:467-477 | so does a lookup, erasing or not |
| `CuckooCache.BitPackedFlags.constructor` | src/cuckoocache.h:61-68 | all flags start set, for every size whose byte count fits 32 bits; for a larger one there are no flags |
| `CuckooCache.BitPackedFlags.BitSet` | src/cuckoocache.h:92-95 | sets one flag and no other |
| `CuckooCache.BitPackedFlags.BitUnset` | src/cuckoocache.h:103-106 | clears one flag and no other |
| `CuckooCache.BitPackedFlags.BitIsSet` | src/cuckoocache.h:113-116 | reads one flag |
| `CuckooCache.CuckooCache.Setup` | src/cuckoocache.h:340-353 | refines Cuckoo.Setup for every size whose flags fit |
| `CuckooCache.CuckooCache.CountLive` | src/cuckoocache.h:297-300 | counts the living slots |
| `CuckooCache.CuckooCache.AgeEpochs` | src/cuckoocache.h:305-311 | ages or erases every slot |
| `CuckooCache.CuckooCache.EpochCheck` | src/cuckoocache.h:289-321 | refines Cuckoo.EpochCheck |
| `CuckooCache.CuckooCache.FindHolding` | src/cuckoocache.h:400-405 | the first location that holds the element |
| `CuckooCache.CuckooCache.FindFree` | src/cuckoocache.h:408-415 | the first location that may be overwritten |
| `CuckooCache.CuckooCache.PleaseKeep` | src/cuckoocache.h:275-278 | marks a slot as living |
| `CuckooCache.CuckooCache.Insert` | src/cuckoocache.h:392-440 | refines Cuckoo.Insert |
| `CuckooCache.CuckooCache.Contains` | src/cuckoocache.h:467-477 | refines Cuckoo.Contains |
| `AddrMan.RunKeeps` | src/addrman.cpp:90-528 | every run of the public operations keeps all that Check_ tests |
| `AddrMan.StepKeeps` | src/addrman.cpp:90-528 | so does every single operation |
| `AddrMan.ClearedHolds` | src/addrman.h:458-480 | the cleared manager satisfies it |
| `AddrMan.RandomCount` | src/addrman.cpp:399-400 | vRandom is as long as both counters together |
| `AddrMan.AddKeeps` | src/addrman.cpp:251-322 | Add_ keeps it and reports "new" exactly for an unknown routable address |
| `AddrMan.NewAddressKept` | src/addrman.cpp:293-321 | an unknown address is kept if and only if its slot is empty or the occupant is terrible or has another reference; its entry is as heard of less the penalty, never tried, with one reference in that slot |
| `AddrMan.NewAddressLost` | src/addrman.cpp:293-321 | a reachable case: after two Adds the second address was reported as new and is unknown |
| `AddrMan.KnownAddressKept` | src/addrman.cpp:265-321 | the time of a known address is brought to within an hour of what was heard if that is less than a day old, otherwise to within a day, less the penalty, and else stays; its services are united; it gains one reference, in the slot of the source, exactly if there is news, room and luck; all else stays |
| `AddrMan.AddForgets` | src/addrman.cpp:251-322 | Add_ forgets only an entry that was terrible and had its one reference in that slot, and changes nothing else of another but one reference |
| `AddrMan.StepForgets` | src/addrman.cpp:90-528 | no operation forgets an entry but Add_ a terrible one and Good_ one that stood in the home slot of an entry that lost its tried slot |
| `AddrMan.GoodEnough` | src/addrman.cpp:35-53 | exactly which entries are not terrible |
| `AddrMan.TerribleStays` | src/addrman.cpp:35-53 | time makes no entry better, but for one heard of from the future |
| `AddrMan.AddTouches` | src/addrman.cpp:251-322 | Add_ touches only the address's entry and the occupant of one slot |
| `AddrMan.ReferenceTouches` | src/addrman.cpp:300-320 | the same for its second half |
| `AddrMan.GoodKeeps` | src/addrman.cpp:199-249 | Good_ keeps the invariant and only records the time for an unknown address |
| `AddrMan.GoodMoves` | src/addrman.cpp:199-249 | a known address ends in its tried slot with the success recorded; who was there has one reference in its home slot; only those that must make room are touched |
| `AddrMan.SomeBucketHolds` | src/addrman.cpp:227-243 | a "new" entry is always found in some bucket, so the bail-out is never taken |
| `AddrMan.MakeTriedKeeps` | src/addrman.cpp:151-197 | moving an entry keeps the invariant; whoever was in the slot is back in the "new" table, in its home slot, with one reference and otherwise as it was |
| `AddrMan.AttemptKeeps` | src/addrman.cpp:324-344 | Attempt_ keeps the invariant and changes only the entry of that address and port: the try is recorded, a failure counted only if something succeeded since the last counted one |
| `AddrMan.FailuresCountOnce` | src/addrman.cpp:338-343 | until something succeeds again, further failures of an address are not counted |
| `AddrMan.ConnectedKeeps` | src/addrman.cpp:492-510 | Connected_ keeps the invariant and changes only the time of the entry of that address and port, and only if it is more than 20 minutes old |
| `AddrMan.SetServicesKeeps` | src/addrman.cpp:512-528 | SetServices_ keeps the invariant and changes only the services of the entry of that address and port |
| `AddrMan.GetAddrKeeps` | src/addrman.cpp:471-490 | GetAddr_ keeps the invariant and lists the acceptable entries of an initial part of the reshuffled vRandom, up to the limit |
| `AddrMan.GetAddrLimit` | src/addrman.cpp:473-475 | the limit is 23 percent of the entries, rounded down, and at most 2500 |
| `AddrMan.ClearNewKeeps` | src/addrman.cpp:136-149 | clearing a slot drops one reference, deletes only an entry that loses its last one, and leaves the others as they are |
| `AddrMan.DeleteKeeps` | src/addrman.cpp:122-134 | the assertions in Delete hold, and exactly one entry goes |
| `AddrMan.CreateKeeps` | src/addrman.cpp:90-100 | creating an entry keeps every index consistent |
| `AddrMan.SwapRandomKeeps` | src/addrman.cpp:102-120 | swapping keeps vRandom and the stored positions inverse to each other |
| `AddrManager.CAddrMan.constructor` | src/addrman.h:458-480 | the object starts cleared |
| `AddrManager.CAddrMan.SwapRandom` | src/addrman.cpp:102-120 | refines AddrMan.SwapRandom |
| `AddrManager.CAddrMan.Create` | src/addrman.cpp:90-100 | refines AddrMan.Create, before nNew is raised |
| `AddrManager.CAddrMan.Delete` | src/addrman.cpp:122-134 | refines AddrMan.Delete |
| `AddrManager.CAddrMan.ClearNew` | src/addrman.cpp:136-149 | refines AddrMan.ClearNew |
| `AddrManager.CAddrMan.UnrefBuckets` | src/addrman.cpp:153-160 | the loop over all buckets removes exactly the references of the entry |
| `AddrManager.CAddrMan.Evict` | src/addrman.cpp:169-191 | refines AddrMan.Evict |
| `AddrManager.CAddrMan.MakeTried` | src/addrman.cpp:151-197 | refines AddrMan.MakeTried, with the counter lowered early as in the source |
| `AddrManager.CAddrMan.FindBucket` | src/addrman.cpp:227-238 | finds a bucket that refers to the entry from any start, or none exists |
| `AddrManager.CAddrMan.Good` | src/addrman.cpp:199-249 | refines AddrMan.Good |
| `AddrManager.CAddrMan.Lucky` | src/addrman.cpp:287-292 | the loop makes the test succeed for one in 2^n draws |
| `AddrManager.CAddrMan.Refresh` | src/addrman.cpp:265-273 | computes AddrMan.Refreshed in place |
| `AddrManager.CAddrMan.Reference` | src/addrman.cpp:300-320 | refines AddrMan.Reference |
| `AddrManager.CAddrMan.Add` | src/addrman.cpp:251-322 | refines AddrMan.Add |
| `AddrManager.CAddrMan.Attempt` | src/addrman.cpp:324-344 | refines AddrMan.Attempt |
| `AddrManager.CAddrMan.Connected` | src/addrman.cpp:492-510 | refines AddrMan.Connected |
| `AddrManager.CAddrMan.SetServices` | src/addrman.cpp:512-528 | refines AddrMan.SetServices |
| `AddrManager.CAddrMan.GetAddr` | src/addrman.cpp:471-490 | refines AddrMan.GetAddr |
| `AddrManFile.RoundTrip` | src/addrman.h:302-456 | loading what was saved succeeds and gives the same manager up to ids, vRandom order and memory-only fields, both tables equal slot for slot and nothing lost; the invariant holds again |
| `AddrManFile.LoadSaved` | src/addrman.h:352-456 | the loaded state is the renumbered one |
| `AddrManFile.LoadNewsIs` | src/addrman.h:381-399 | the "new" entries are rebuilt in order |
| `AddrManFile.LoadTriedsIs` | src/addrman.h:401-420 | every tried entry gets its own slot again |
| `AddrManFile.LoadBucketsIs` | src/addrman.h:422-438 | every reference goes back to its slot |
| `AddrManFile.PruneNothing` | src/addrman.h:440-450 | nothing is pruned |
| `AddrManFile.RenumberedHolds` | src/addrman.h:455-455 | renumbering keeps the invariant |
| `AddrManFile.NewFit` | src/addrman.h:373-375 | a valid manager never exceeds the limit on "new" entries |
| `AddrManFile.TriedFit` | src/addrman.h:377-379 | nor the limit on tried entries |
| `AddrManRecovery.LoadHolds` | src/addrman.h:352-456 | any file of any version, with any bucket lists and colliding tried entries, that has no address twice and sensible times: it is refused exactly for its counts, and otherwise what is loaded satisfies all that Check_ tests; every entry is one of the file, a tried entry is lost only to another in its slot, and without usable bucket lists all references are in their home slots |
| `AddrManRecovery.NewKeeps` | src/addrman.h:381-399 | reading a "new" entry |
| `AddrManRecovery.TriedKeeps` | src/addrman.h:401-420 | reading a tried entry, or losing it |
| `AddrManRecovery.RefKeeps` | src/addrman.h:426-437 | reading any number of a bucket list |
| `AddrManRecovery.PruneKeeps` | src/addrman.h:440-450 | pruning removes exactly the "new" entries without a reference |
| `AddrManRecovery.TwiceLoaded` | src/addrman.h:401-420 | a concrete case: an address that is in the file twice is loaded twice, which is no valid state |
| `PartialBlock.Exchange` | src/blockencodings.cpp:19-220 | a whole exchange: with short ids that separate the transactions involved, the receiver ends with the block, if CheckBlock accepts it, if and only if it has at most 65536 transactions, no hash bucket is crowded and no two short ids are equal; it asks for exactly what no pool has |
| `PartialBlock.PartiallyDownloadedBlock.InitData` | src/blockencodings.cpp:49-170 | for an announcement all indexing is in bounds, invalid, failed and not returning are exactly characterized (the last if and only if it is not invalid, sends along exactly 65536 transactions and has short ids besides), otherwise the slots are CompactBlock.Rebuild, and short ids and empty slots correspond one to one if and only if there are at most 65536 transactions |
| `PartialBlock.PartiallyDownloadedBlock.PlacePrefilled` | src/blockencodings.cpp:59-75 | places the prefilled transactions, or fails exactly when CompactBlock.Place does |
| `PartialBlock.PartiallyDownloadedBlock.MapShortIds` | src/blockencodings.cpp:81-98 | each short id is mapped to 16 bits of the empty slot with as many empty slots before it, or a bucket is crowded, or the offset starts over at the first short id with every slot below 65536 filled |
| `PartialBlock.OffsetLoopEnds` | src/blockencodings.cpp:83-86 | at the first short id the loop over 16-bit offsets comes to an empty slot if and only if not exactly 65536 transactions were sent along |
| `PartialBlock.OffsetsFilled` | src/blockencodings.cpp:83-86 | in that shape every slot that a 16-bit offset can reach is filled |
| `PartialBlock.InitDataHangs` | src/blockencodings.cpp:83-86 | a concrete announcement that passes every test and on which the loop does not end |
| `PartialBlock.PartiallyDownloadedBlock.ScanPool` | src/blockencodings.cpp:105-163 | both loops over a pool are CompactBlock.ScanFrom |
| `PartialBlock.PartiallyDownloadedBlock.FillBlock` | src/blockencodings.cpp:178-220 | invalid exactly if the number of transactions given is not that of the empty slots; with too few the transactions before the gap are moved out; otherwise the block is filled in order and the result is that of CheckBlock |
| `PartialBlock.MakeCompact` | src/blockencodings.cpp:19-29 | announces the coinbase and the short ids of the rest |
| `PartialBlock.WriteRequest` | src/blockencodings.h:66-69 | writes differences |
| `PartialBlock.ReadRaw` | src/blockencodings.h:45-56 | reads the numbers, growing the vector in steps of 1000, or fails |
| `PartialBlock.Accumulate` | src/blockencodings.h:58-64 | turns differences into indexes in place, or fails past 16 bits |
| `PartialBlock.MissingIndexes` | src/net_processing.cpp:2503-2507 | lists 16 bits of the positions of the empty slots in order |
| `PartialBlock.AnswerRequest` | src/net_processing.cpp:1291-1301 | gives the block's transactions at the indexes, or refuses |
| `PartialBlock.Ask` | src/net_processing.cpp:2503-2507 | a request and its answer bring the transactions at the positions asked for, exactly the missing ones up to 65536 transactions |
| `PartialBlock.AskedIsUnknown` | src/blockencodings.cpp:105-163 | what is missing after both pools is exactly what neither has |
| `PartialBlock.WrongTransaction` | src/net_processing.cpp:2503-2507 | in a larger block position 65536 is asked for as 0, so the coinbase is filled in there |
| `PartialBlock.BeyondIsEmpty` | src/blockencodings.cpp:81-86 | no position beyond 16 bits is filled from a pool |
| `CompactBlock.RequestRoundTrip` | src/blockencodings.h:45-69 | every increasing list of 16-bit indexes survives its differential encoding |
| `CompactBlock.SumsIncreasing` | src/blockencodings.h:58-64 | what is read back is increasing if and only if the numbers on the wire plus their count add up to at most 65536; then it encodes to what was read |
| `CompactBlock.IndexesStartOver` | src/blockencodings.h:58-64 | a concrete case: 65535 and 0 are read without an error as indexes out of order |
| `CompactBlock.IndexIsTotal` | src/blockencodings.h:58-64 | as long as no index but the last is 65535, an index is the sum of the numbers so far plus its position |
| `CompactBlock.PositiveDifferences` | src/blockencodings.h:66-69 | only increasing indexes have differences that can be read |
| `CompactBlock.NoBijection` | src/blockencodings.cpp:81-86 | a slot beyond 16 bits has no short id mapped to it |
| `CompactBlock.FillIs` | src/blockencodings.cpp:184-192 | what stood in a slot stays there and the empty ones get the missing transactions in order |
| `CompactBlock.FillAt` | src/blockencodings.cpp:184-192 | an empty slot gets the transaction given for it |
| `CompactBlock.RebuildMatches` | src/blockencodings.cpp:49-170 | what is filled from the pools is what the block has there |
| `CompactBlock.RebuildFills` | src/blockencodings.cpp:105-163 | every transaction of the block that a pool has is filled in, early exit or not |
| `CompactBlock.RebuildOk` | src/blockencodings.cpp:105-163 | for any pools, a filled slot holds a pool transaction with its short id, and prefilled slots are untouched |
| `CompactBlock.RebuildExactly` | src/blockencodings.cpp:105-163 | exactly what a slot gets from the parts of the pools gone through: nothing with two matches in the mempool; with one, that one unless an extra match has another hash; with none, the first extra match unless another has another hash; both loops stop early only when every slot is filled |
| `CompactBlock.ScanEnds` | src/blockencodings.cpp:105-163 | a loop over a pool goes to the first entry after which all slots are filled, or to the end |
| `CompactBlock.SlotSteps` | src/blockencodings.cpp:113-128 | what any pool does to one slot |
| `CompactBlock.PlaceWhen` | src/blockencodings.cpp:59-75 | the prefilled transactions are accepted exactly if none is null and every position is within 16 bits and not beyond what was announced so far |
| `CompactBlock.PlaceWhere` | src/blockencodings.cpp:59-75 | each of them is at its position, and no other slot is filled |
| `CompactBlock.PrefilledRoundTrip` | src/blockencodings.cpp:65-74 | transactions sent along from any increasing positions are found there again |
| `CompactBlock.FillCompletes` | src/blockencodings.cpp:178-197 | given what was asked for, the block is rebuilt exactly |
| `CompactBlock.IdsBijection` | src/blockencodings.cpp:81-103 | without a collision, short ids and empty slots correspond one to one |
| `CompactBlock.IdsDistinct` | src/blockencodings.cpp:101-103 | the size test detects a collision exactly |
| `CompactBlock.PlaceFree` | src/blockencodings.cpp:59-74 | each prefilled transaction takes a slot of its own |
| `CompactBlock.ScanFills` | src/blockencodings.cpp:105-163 | a pool without clashes leaves every matched slot filled |
| `RollingBloom.NoFalseNegatives` | src/bloom.cpp:250-298 | after any run since reset, each of the last 2 * nEntriesPerGeneration + nEntriesThisGeneration keys is found |
| `RollingBloom.LastElements` | src/bloom.cpp:218-225 | so at least the last nElements keys are |
| `RollingBloom.FoundExactly` | src/bloom.cpp:250-298 | a key is found if and only if each of its bits is a bit of one of the last 2 * nEntriesPerGeneration + nEntriesThisGeneration keys |
| `RollingBloom.GenerationIs` | src/bloom.cpp:252-268 | how many entries the current generation has: it begins again after every nEntriesPerGeneration keys |
| `RollingBloom.CellReached` | src/bloom.cpp:271-276 | every bit of every pair of words is reached, by the six lowest bits of a hash and the others |
| `RollingBloom.FoundOnlyByRecent` | src/bloom.cpp:250-298 | a key is found only if each of its cells was set by one of those keys |
| `RollingBloom.RunRemembers` | src/bloom.cpp:250-278 | over every run, cells carry the label of the last generation that set them |
| `RollingBloom.WipedIs` | src/bloom.cpp:258-266 | the masked wipe clears exactly the cells of one generation |
| `RollingBloom.WrittenIs` | src/bloom.cpp:271-276 | the masked write changes exactly one bit |
| `RollingBloom.RollRemembers` | src/bloom.cpp:252-268 | starting a generation forgets only the oldest |
| `RollingBloom.MarkRemembers` | src/bloom.cpp:270-277 | marking a key keeps what is remembered of all others |
| `RollingBloom.MarkExplained` | src/bloom.cpp:270-277 | and sets no cell that is not the key's |
| `RollingBloomFilter.CRollingBloomFilter.constructor` | src/bloom.cpp:218-243 | the filter starts empty with half of nElements, rounded up, per generation |
| `RollingBloomFilter.CRollingBloomFilter.Reset` | src/bloom.cpp:306-314 | after a reset nothing is found |
| `RollingBloomFilter.CRollingBloomFilter.WipeGeneration` | src/bloom.cpp:258-266 | the loop is RollingBloom.Wipe |
| `RollingBloomFilter.CRollingBloomFilter.MarkCells` | src/bloom.cpp:270-277 | the loop is RollingBloom.MarkKey |
| `RollingBloomFilter.CRollingBloomFilter.Insert` | src/bloom.cpp:250-278 | refines RollingBloom.Insert and logs the key |
| `RollingBloomFilter.CRollingBloomFilter.ContainsKey` | src/bloom.cpp:286-298 | true exactly if every cell is set, and for every recent key |
| `ArithUint256.Uint256.constructor` | src/arith_uint256.h:57-65 | holds the given number |
| `ArithUint256.Uint256.AddAssign` | src/arith_uint256.h:143-153 | addition modulo 2^256, also with itself; the 64-bit sums do not overflow |
| `ArithUint256.Uint256.SubAssign` | src/arith_uint256.h:155-159 | subtraction modulo 2^256 |
| `ArithUint256.Uint256.Not` | src/arith_uint256.h:77-83 | the complement to 2^256 - 1 |
| `ArithUint256.Uint256.Negate` | src/arith_uint256.h:85-92 | the negative modulo 2^256 |
| `ArithUint256.Uint256.Increment` | src/arith_uint256.h:181-188 | adds one modulo 2^256 |
| `ArithUint256.Uint256.Decrement` | src/arith_uint256.h:198-205 | subtracts one modulo 2^256 |
| `ArithUint256.Uint256.MulAssign32` | src/arith_uint256.cpp:60-69 | multiplication by 32 bits modulo 2^256 without 64-bit overflow |
| `ArithUint256.Uint256.MulAssign` | src/arith_uint256.cpp:72-85 | multiplication modulo 2^256 without 64-bit overflow; zero if the factor is the object itself |
| `ArithUint256.SquareIsZero` | src/arith_uint256.cpp:72-85 | the zero that squaring in place gives is the square if and only if the number is a multiple of 2^128 |
| `ArithUint256.SquareOne` | src/arith_uint256.cpp:72-85 | a concrete case: one squared in place is zero |
| `ArithUint256.Uint256.AddRow` | src/arith_uint256.cpp:76-83 | one row of the product, exact up to a multiple of 2^256 |
| `ArithUint256.Uint256.ShlAssign` | src/arith_uint256.cpp:26-40 | multiplication by any power of two modulo 2^256 |
| `ArithUint256.Uint256.ShrAssign` | src/arith_uint256.cpp:43-57 | floor division by any power of two |
| `ArithUint256.Uint256.DivAssign` | src/arith_uint256.cpp:88-111 | the floor quotient, or the exception exactly for a zero divisor |
| `ArithUint256.Uint256.Rounds` | src/arith_uint256.cpp:101-108 | the shift-and-subtract loop |
| `ArithUint256.Uint256.QuotientBit` | src/arith_uint256.cpp:102-105 | one round: the divisor is taken away if it fits and the bit is set |
| `ArithUint256.Uint256.CompareTo` | src/arith_uint256.cpp:114-123 | the sign of the difference |
| `ArithUint256.Uint256.Bits` | src/arith_uint256.cpp:176-188 | the position of the highest bit plus one |
| `ArithUint256.Uint256.IsZero` | src/arith_uint256.h:69-75 | whether the number is zero |
| `Limbs.ShlValue` | src/arith_uint256.cpp:26-40 | the shifted limbs have the shifted value |
| `Limbs.ShrValue` | src/arith_uint256.cpp:43-57 | the shifted limbs have the quotient as value |
| `CompactTarget.OverflowExact` | src/arith_uint256.cpp:222-224 | the overflow test is exact: the value reaches 2^256 |
| `CompactTarget.SetCompact` | src/arith_uint256.cpp:208-226 | decodes the compact form, with exact sign and overflow flags |
| `CompactTarget.GetCompact` | src/arith_uint256.cpp:228-249 | encodes, with the least exponent, so that reading back gives the number without its low bytes, keeping two or three leading bytes; zero is zero |
| `CompactTarget.CompactKeeps` | src/arith_uint256.cpp:228-249 | the same for the mantissa and exponent chosen |
| `CompactTarget.ShortestIs` | src/arith_uint256.cpp:228-249 | the exponent is the least that leaves the sign bit free |
| `CompactTarget.KnownTargets` | src/test/arith_uint256_tests.cpp:542-586 | the values that the tests give for some compact forms |
| `CompactTarget.GetBlockProof` | src/chain.cpp:122-135 | zero for rejected targets, otherwise floor(2^256 / (target + 1)); the divisor is never zero |
| `CompactTarget.TargetNotAllOnes` | src/chain.cpp:130-134 | target + 1 does not overflow |
| `CompactTarget.ProofFormula` | src/chain.cpp:130-134 | the formula without 2^256 gives that quotient |
| `Base58.DecodeEncode` | src/base58.cpp:23-111 | decoding what was encoded gives back every byte string |
| `Base58.EncodeDecode` | src/base58.cpp:23-111 | encoding what was decoded gives back the text without surrounding white space |
| `Base58.DecodesExactly` | src/base58.cpp:23-71 | a text can be decoded if and only if, without surrounding white space, it has only characters of the alphabet |
| `Base58.AlphabetIs` | src/base58.cpp:20-21 | the digits are the places in the alphabet |
| `Base58.AlphabetHas` | src/base58.cpp:20-21 | exactly its characters are digits |
| `Base58.KnownTexts` | src/test/data/base58_encode_decode.json:3-4 | texts that the test data give for their bytes |
| `Base58.BufferSizes` | src/base58.cpp:35-84 | 138/100 and 733/1000 always give enough room |
| `Base58Codec.EncodeBase58` | src/base58.cpp:73-111 | computes Base58.Encode |
| `Base58Codec.DecodeBase58` | src/base58.cpp:23-71 | computes Base58.Decode, failures included |
| `Base58Codec.Apply` | src/base58.cpp:87-96 | multiplies the number in the buffer and adds a digit; the carry is always used up |
| `Base58Codec.BytesToDigits` | src/base58.cpp:82-99 | the change of base of the encoder |
| `Base58Codec.DigitsToBytes` | src/base58.cpp:35-55 | the change of base of the decoder, up to white space or a bad character |
| `Base58Codec.Significant` | src/base58.cpp:100-103 | the digits without leading zeros are the shortest |
| `BoolEE.ResolveIsMeaning` | src/LibBoolEE.cpp:19-146 | every formula, documented or with text that is passed over, printed with any white space inserted, resolves to its propositional value if all its names have values and fails otherwise |
| `BoolEE.ResolvesTo` | src/LibBoolEE.cpp:74-146 | the same without white space |
| `BoolEE.PartsCombine` | src/LibBoolEE.cpp:130-145 | the results of the parts combine to the value of the whole |
| `BoolEE.SplitOr` | src/LibBoolEE.cpp:19-68 | splitting at "or" gives exactly the disjuncts |
| `BoolEE.SplitAnd` | src/LibBoolEE.cpp:19-68 | splitting at "and" gives exactly the conjuncts |
| `BoolEE.PartsShorter` | src/LibBoolEE.cpp:19-68 | parts are shorter than the whole, so resolving ends on every string |
| `BoolEE.EmptyFails` | src/LibBoolEE.cpp:75-82 | nothing but white space is an empty subexpression |
| `BoolEE.NoNameFails` | src/LibBoolEE.cpp:94-102 | text in which no formula can begin has no valid name |
| `BoolEE.UnbalancedFails` | src/LibBoolEE.cpp:56-64 | more parentheses of one kind fail by parity, unless an unknown operator is met first |
| `BoolEE.FirstErrorWins` | src/LibBoolEE.cpp:130-145 | parts are resolved in order and the first that fails decides |
| `Readings.ResolvesExactly` | src/LibBoolEE.cpp:19-146 | a string resolves if and only if without white space it is a written formula whose names all have values, and then to that formula's value |
| `Readings.DocumentedExactly` | src/LibBoolEE.h:23-30 | a string is a formula of the documented grammar with values for its names if and only if it resolves, no passed-over character stands at its start, after an opening parenthesis or after an "or", no operator stands outside parentheses and exactly one directly inside each pair |
| `Readings.DocumentedText` | src/LibBoolEE.h:27-28 | a written formula without stray text is a documented one if and only if counting its operators finds none outside parentheses and one directly inside each pair |
| `Readings.CountFormula` | src/LibBoolEE.h:27-28 | counting along the text of a formula gives the operators of the formula |
| `Readings.PlainExactly` | src/LibBoolEE.cpp:33-38 | a string is a formula without stray text, with any parentheses, if and only if it resolves and no passed-over character stands where a formula begins |
| `Readings.Readable` | src/LibBoolEE.cpp:74-146 | every string without white space that resolves is read back as a formula |
| `Readings.StrayText` | src/LibBoolEE.cpp:33-38 | any passed-over text in front of a formula is ignored if the formula splits; otherwise the whole is a name without a value |
| `Readings.StrayResolves` | src/LibBoolEE.cpp:33-38 | concrete cases: "&1&1", "(%1&0)" and "1|&1&0" resolve and are no documented formulas |
| `Readings.LooseResolves` | src/LibBoolEE.cpp:33-68 | concrete cases: "1&1" and "(1)" resolve and are no documented formulas |
| `Readings.Unfolded` | src/LibBoolEE.cpp:19-68 | splitting gives back the text: what stands in front, then the parts joined by the operator, each of which no further split divides |
| `Readings.PieceOfOr` | src/LibBoolEE.cpp:39-43 | a part between two "or" is a conjunction, at most with "and" in front of it |
| `Readings.PieceOfAnd` | src/LibBoolEE.cpp:39-43 | a part between two "and", or behind a negation, is an atom |
| `LibBoolEE.Split` | src/LibBoolEE.cpp:19-68 | the loop computes BoolEE.SingleParse |
| `LibBoolEE.Evaluate` | src/LibBoolEE.cpp:70-72 | computes BoolEE.Resolve on every string |
| `LibBoolEE.EvaluateRec` | src/LibBoolEE.cpp:74-146 | computes BoolEE.ResolveRec, errors included |
| `LibBoolEE.RemoveWhitespace` | src/LibBoolEE.cpp:158-166 | computes BoolEE.RemoveWhitespaces |
| `Chain.CBlockIndex.GetAncestor` | src/chain.cpp:85-109 | following skip pointers reaches the same block as going back one by one, or null outside the range; with all skip pointers built, in as many passes as SkipHeights.Passes, at most (d^2 + 8d - 28) / 4 for heights below 2^d |
| `Chain.CBlockIndex.constructor` | src/chain.cpp:116-120 | a new block's skip pointer is its ancestor at the skip height, and all of them stay built |
| `SkipHeights.GetSkipHeight` | src/chain.cpp:75-83 | the skip height is below the height |
| `SkipHeights.InvertLowestOne` | src/chain.cpp:72-72 | clearing the lowest bit lowers a positive number |
| `SkipHeights.ClearsLowestOne` | src/chain.cpp:72-72 | the bit that is cleared is the lowest: the number is the rest plus 2^k, and 2^(k+1) divides the rest |
| `SkipHeights.WalkIsShort` | src/chain.cpp:79-81 | between any two heights below 2^d, d at least 9, the walk takes at most (d^2 + 8d - 28) / 4 passes |
| `SkipHeights.WalkIsLong` | src/chain.cpp:79-81 | no bound is lower: from 2^d - 8 to 2 it takes exactly that many, so the longest walk grows with the square of the logarithm |
| `SkipHeights.DocumentedMaximum` | src/chain.cpp:79-81 | in a chain of 2^18 blocks the maximum is 110 passes, as the comment says of its simulations |
| `SkipHeights.Phase` | src/chain.cpp:90-107 | above a target that lacks its bit d, the walk clears the lower bits in a bounded number of passes and goes on from all ones below that bit |
| `SkipHeights.PhaseProgress` | src/chain.cpp:90-104 | every pass lowers what is left to clear, or jumps just above the bits that remain |
| `SkipHeights.FromOnes` | src/chain.cpp:90-107 | the bound for the walk down from all ones, to any height with the same higher bits |
| `SkipHeights.OnesAttained` | src/chain.cpp:90-107 | the walk from 2^e - 1 to 2 takes exactly that bound |
| `Chain.AncestorOfAncestor` | src/chain.cpp:85-109 | an ancestor's ancestor is the block's ancestor |
| `Chain.CChain.SetTip` | src/chain.cpp:13-23 | whatever valid chain was there, the chain becomes the whole path to the new tip |
| `Chain.CChain.FindFork` | src/chain.cpp:53-62 | the highest block of the chain on the way back from a block, or null if there is none |
| `Chain.LastCommonAncestor` | src/chain.cpp:156-171 | an ancestor of both blocks that descends from every other |
| `Chain.CChain.GetLocator` | src/chain.cpp:25-51 | ancestors at the stated heights, strictly falling to the first block, at most 12 + ceil(log2 height) of them |
| `Chain.CChain.ChainAncestor` | src/chain.cpp:39-41 | the chain's entry at a height is the ancestor of any higher block of it |
| `Chain.LocatorNext` | src/chain.cpp:38-48 | the heights follow the growing steps, which fit in 31 bits below height 2^30 |
| `Chain.LocatorGaps` | src/chain.cpp:25-51 | the first eleven gaps are of one block, and from there each is twice the one before |
| `Chain.LocatorLength` | src/chain.cpp:25-51 | the number of entries is logarithmic |
| `Framing.ChunksDoNotMatter` | src/net.cpp:730-780 | cutting a stream into any chunks gives the same messages, partial message and failure |
| `Framing.SentIsReceived` | src/net.cpp:730-780 | every sequence of messages within the limit, each with start, command, size written least significant byte first, checksum and data, arrives as that sequence |
| `Framing.OversizedFails` | src/net.cpp:753-759 | a header of any size below 2^32 ends the connection if and only if the size is above 4,000,000, at its last byte and not before; above MAX_SIZE the size is not taken over |
| `Framing.SizeIsRead` | src/protocol.h:51-60 | every size below 2^32 that a header is written with is read from it |
| `Framing.FeedAllKeeps` | src/net.cpp:730-780 | all messages but the last are complete and within limits |
| `NetMessages.ReadHeader` | src/net.cpp:809-838 | copies what belongs to the header, at least one byte, and fails exactly for a size above MAX_SIZE |
| `NetMessages.ReadData` | src/net.cpp:840-855 | appends what belongs to the data, at least one byte; a complete message's buffer is its data |
| `NetMessages.CNode.Pass` | src/net.cpp:739-776 | one pass of the loop takes at least one byte and does what the byte machine does with them |
| `NetMessages.CNode.ReceiveMsgBytes` | src/net.cpp:730-780 | a chunk does what its bytes do one at a time; the flag says whether a message was finished |
| `NetMessages.CNode.ReceiveAll` | src/net.cpp:730-780 | chunk after chunk, the result depends only on the bytes |

## Left out

- Networking beyond framing, threads, RPC, wallet, script, consensus checks and storage: input and output, configuration, or resting on code outside these components.
- Coins: asset bookkeeping and script capacity are not modelled; a base view that itself returns a spent coin is not.
- CoinsCache: the best block is a field of the objects beside the value model; reading blocks from files is not part of this model.
- Coins.AddCoinUpdatesTheView: an added coin that no transaction can spend is an argument, not the script test.
- CoinsDisk.Recovers: blocks are given as the changes they ask for, in order; undo records without a height, which take it from another output of the same transaction, are not among them.
- CheckQueue: one master at a time, as the control mutex ensures; exceptions inside a check are not modelled.
- BlockAssembler: rounding in the fee-rate comparison, which is by exact products, ties by hash, the coinbase and 64-bit overflow of totals.
- BlockAssembler.ExactFigure: fees only if no fee was modified; what they are otherwise is in ExactFees and FeesRight.
- BlockAssembler.PatchedExact: equality only until a failed entry is inserted again, since a stale cached total can then overstate; PatchedTableOk is the bound that always holds.
- Cuckoo: atomicity of the flag bytes, and the logarithm that gives the depth limit, which is an argument; the default element is excluded from membership.
- CuckooCache.CuckooCache.Setup: the operations on a table of more than 2^32 - 8 elements, whose flag array has no room.
- AddrMan: Select_ and its floating-point chances, and the order of Check_'s error codes; its conditions are the invariant.
- AddrManFile: the file is a record of values, not bytes, and saving and loading are functions on values rather than loops on the object.
- AddrManRecovery.LoadHolds: files that have an address twice, for which TwiceLoaded shows that what is loaded can be invalid.
- MerkleRoot.ComputeMerkleRoot: lists of more than 2^31 leaves, for which CountOverflows shows that the count does not fit; and Merkle branches.
- PartialMerkle: collisions of a real hash; authenticity is stated for injective pair hashing.
- PartialBlock.PartiallyDownloadedBlock.InitData: the pool statistics; a loop that does not end is a result of its own.
- RollingBloom: the floating-point sizing formulas and false-positive rates.
- CompactTarget: signed use of GetCompact beyond its sign bit, and hexadecimal text.
- Base58: texts with NUL characters, the checksum form and address versions.
- BoolEE: the texts of error messages.
- Readings.ResolvesExactly: valuations with names that no formula can contain.
- Chain: FindEarliestAtLeast, and block fields other than links and height; links are constants because they are set once when a block is added.
- Chain.LastCommonAncestor: two blocks whose branches never meet, for which the source asserts.
- Framing: the running hash of message data, byte counters per command and header fields other than the size.
