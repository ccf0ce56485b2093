# Verified core of a Bitcoin/Litecoin-derived node

This project models the stateful and arithmetic cores of the node and proves that each of them agrees with a simple
specification:

- **Coins** (`Coins`, `CoinsViewCache`): a stack of write-back caches of any depth means one flat map from outpoints
  to coins at every level, over every run of additions, spends, reads, uncachings and flushes at any level; the
  caller's obligation is exact.
- **Check queue** (`CheckQueue`): the concurrent queue as a step relation of one master and any number of workers; the
  verdicts of `Wait` over every interleaving, conservation of checks, and progress.
- **Partial Merkle trees** (`PartialMerkle`, `MerkleBlock`, `Bits`): extraction inverts building, and is sound for any
  proof, under an injective pair hash.
- **Block templates** (`PackageSelection`, `AncestorScore`, `Miner`): package selection over any mempool graph ends in
  a valid block, which without fee deltas grew by packages that each pay their way; and what is left when it stops.
- **Address manager** (`AddrTables`, `AddrMan`, `AddrCheck`, `AddrFile`): every operation keeps what `Check_` demands,
  and saving and loading loses no address; under another asmap it loses only to collisions.
- **Indexes and caches** (`CuckooCache`, `SkipHeights`, `Chain`, `RollingBloom`): the cuckoo cache, the skip list with
  its step count, the active chain and its locators, and the rolling Bloom filter.
- **Arithmetic and codecs** (`Limbs`, `ArithUint256`, `ArithDivision`, `Compact`, `Digits`, `Base58`, `Bech32`,
  `Bech32Cross`, `Field1024`, `Bech32Errors`, `Compressor`): 256-bit limbs, compact targets and block work, Base58,
  Bech32 with detection of up to three errors, and amount compression.
- **Compact blocks** (`BlockEncodings`, `PartialBlock`, `BlockRelay`): an exchange over any pools, and exactly when it
  rebuilds the very block.

Objects whose methods update fields are classes, and loops are loops; each is proved against a function on values,
about which the properties are lemmas. Hash functions, bucket hashes with the asmap, the comparison of the mempool and
the minimum fee (those of the program where a claim depends on them), bucket crowding of the short-id table and the
verdict of block checking are parameters; randomness, the order of unordered maps and the outcome of the MWEB builder
are nondeterministic. Clocks are parameters.

Where a claimed property does not hold of the code, the exact condition is proved: `Coins.AddCoinExact`,
`Coins.SpendBelowExact`, `Coins.AddBelowExact` and, for every step, `Coins.AllowedExactly` (caller obligations of the
caches), `PackageSelection.FeeDrift` with `PackageSelection.DriftHappens` (two different fees are used in the package
totals), `Miner.BlockAssembler.EverythingElse` with `AncestorScore.PackageMissed` (selection stops by score, which is
not the fee rate of the package), `AddrMan.AddrMan.Clear` with `AddrMan.ClearWhilePending` (pending collisions are
kept), `PartialMerkle.RoundTrip` (the transaction limit), `Compressor.RoundTripExact` with `Compressor.FirstLoss`
(`MAX_MONEY` of this chain exceeds what the compressed form holds), `Compact.CompactExpand` with
`Compact.CanonicalButLost` (which compact numbers survive reading and writing), and `BlockRelay.Relay` with
`BlockRelay.CollisionMisleads` (a colliding short id puts another transaction into the block).

Two remarks on the code: the comment of `insert` in `src/cuckoocache.h` says that the first eviction takes the first
location while the code takes the second, and the model follows the code; `vnIndex` is not cleared by
`ExtractMatches`, and the model has the caller's indexes come first in the result.

`dafny verify dfyconfig.toml` checks the project.

## Model

| member | source | states |
|---|---|---|
| `Coins.GetCoinFlat` | src/coins.cpp:49-73 | reading a coin through any stack of caches keeps the invariant, changes the meaning of no level, and answers exactly with the flat map's unspent coin |
| `Coins.FetchCoinFlat` | src/coins.cpp:49-64 | pulling a coin into the cache, spent ones as FRESH, changes the meaning of no level, and afterwards an unspent coin of the view is in the cache |
| `Coins.AddCoinFlat` | src/coins.cpp:75-107 | adding an absent coin, or any coin when overwriting is allowed, never throws, keeps every flag truthful, and sets just this coin in the top flat map; unspendable outputs change nothing |
| `Coins.AddCoinExact` | src/coins.cpp:75-107 | without `possible_overwrite` the call succeeds with truthful flags if and only if the view has no unspent coin there |
| `Coins.EntryAdded` | src/coins.cpp:75-107 | the entry written has flags that are true of the view below, whichever entry was there before |
| `Coins.SpendCoinFlat` | src/coins.cpp:123-137 | spending removes exactly this coin from the top flat map, returns it, and keeps the invariant |
| `Coins.EraseEntryFlat` | src/coins.cpp:123-137 | erasing a FRESH entry and nulling any other both mean removing the coin |
| `Coins.UncacheFlat` | src/coins.cpp:275-284 | forgetting an unflagged entry changes the meaning of no level |
| `Coins.MergeEntryOk` | src/coins.cpp:208-266 | at one outpoint, all combinations of parent and child flags: merging keeps flags truthful and means overlaying twice |
| `Coins.MergeOk` | src/coins.cpp:208-266 | the same for whole maps, and the misapplied FRESH exception cannot occur |
| `Coins.BatchWriteFlat` | src/coins.cpp:208-266 | writing a truthful child never throws and makes the parent mean what the child meant |
| `Coins.FlushFlat` | src/coins.cpp:268-273 | flushing never throws, keeps the invariant, and changes the meaning only of the level just below, to that of the flushed one |
| `Coins.OpenFlat` | src/coins.cpp:43-43 | a new cache on top of a view means what the view means |
| `Coins.UsageRemove` | src/coins.cpp:75-107 | the memory counter is an exact sum, so taking out an entry cannot make it negative |
| `Coins.ApplyAtFlat` | src/coins.cpp:49-284 | an operation at any level of a stack acts on the flat maps of that level and of the levels above it, up to the first that holds a dirty copy of the coin, and on no other |
| `Coins.SpendBelowExact` | src/coins.cpp:123-137 | spending at any level succeeds and keeps all flags truthful if and only if no cache above it, up to the first that holds a dirty copy, holds a clean unspent copy of the coin |
| `Coins.AddBelowExact` | src/coins.cpp:75-107 | adding at any level succeeds and keeps all flags truthful if and only if overwriting is allowed or there is no unspent coin, and no cache above it, up to the first that holds a dirty copy, has a FRESH copy or a clean copy other than the added coin |
| `Coins.StaysTrueExactly` | src/coins.cpp:75-137 | the condition on one copy: over a view that changes at this coin its flags stay truthful if and only if it is dirty, or already says the same, and is not FRESH when a coin is added |
| `Coins.AllowedExactly` | src/coins.cpp:49-284 | for every step that a caller can make on a truthful stack, it raises nothing and leaves the stack truthful if and only if it is permitted; the permission is a condition on flags and copies that a caller can check |
| `Coins.NextFlat` | src/coins.cpp:49-284 | every permitted step of a run has its effect on the list of flat maps |
| `Coins.RunFlat` | src/coins.cpp:49-284 | over every run on a stack of any depth no exception is raised, all FRESH and DIRTY flags and the memory counters stay truthful, and every level means exactly what the list of flat maps holds after the same steps |
| `CoinsViewCache.CoinsViewDB.GetCoin` | src/txdb.cpp:59-61 | the stored coin |
| `CoinsViewCache.CoinsViewDB.BatchWrite` | src/txdb.cpp:96-159 | the loop over the batch stores the unspent and erases the spent dirty entries, whatever the order of the entries |
| `CoinsViewCache.MergeStep` | src/coins.cpp:208-266 | merging entries one at a time, in any order, is merging the whole map |
| `CoinsViewCache.CoinsViewCache.OnDatabase` | src/coins.cpp:43-43 | an empty cache on the database |
| `CoinsViewCache.CoinsViewCache.OnCache` | src/coins.cpp:43-43 | an empty cache on another cache |
| `CoinsViewCache.CoinsViewCache.FetchCoin` | src/coins.cpp:49-64 | the objects of the stack end in the state that the function on values says |
| `CoinsViewCache.CoinsViewCache.GetCoin` | src/coins.cpp:66-73 | the same, and the coin is returned only if it is unspent |
| `CoinsViewCache.CoinsViewCache.HaveCoin` | src/coins.cpp:150-166 | whether an unspent coin is there |
| `CoinsViewCache.CoinsViewCache.AddCoin` | src/coins.cpp:75-107 | the same as the function on values; an exception exactly when an unspent cached coin would be overwritten |
| `CoinsViewCache.CoinsViewCache.SpendCoin` | src/coins.cpp:123-137 | the same as the function on values |
| `CoinsViewCache.CoinsViewCache.WriteEntry` | src/coins.cpp:209-258 | one entry of a batch, with the misapplied FRESH exception, and the memory counter kept exact |
| `CoinsViewCache.CoinsViewCache.BatchWrite` | src/coins.cpp:208-266 | the loop over the child's map, in any order, leaves the merged map, or throws exactly when a FRESH flag is misapplied |
| `CoinsViewCache.CoinsViewCache.Flush` | src/coins.cpp:268-273 | the cache is empty afterwards and the view below is what the function on values says |
| `CoinsViewCache.CoinsViewCache.Uncache` | src/coins.cpp:275-284 | only an unflagged entry is forgotten |
| `CheckQueue.InitInv` | src/checkqueue.h:130-130 | a fresh queue with any number of threads satisfies the invariant |
| `CheckQueue.NextInv` | src/checkqueue.h:66-157 | every step of the master or of any worker keeps the invariant: `nTodo` is the number of queued and held checks, `nIdle` and `nTotal` count threads, each added check is queued, held once, or finished, and the verdict so far is right |
| `CheckQueue.AddInv` | src/checkqueue.h:145-157 | adding checks, whichever sleepers are notified, keeps the invariant |
| `CheckQueue.CleanUpLocked` | src/checkqueue.h:76-86 | reporting a finished batch, or registering a thread, keeps the counters right, and the last batch notifies the master |
| `CheckQueue.DecideReturns` | src/checkqueue.h:87-96 | when the master leaves, nothing is queued or held, every added check is finished, and `fAllOk` says whether all of them hold |
| `CheckQueue.DecideInv` | src/checkqueue.h:87-116 | returning, sleeping and taking a batch each keep the invariant |
| `CheckQueue.WaitVerdict` | src/checkqueue.h:66-142 | a returning `Wait` reports exactly whether all checks added since the last `Wait` hold |
| `CheckQueue.RunInv` | src/checkqueue.h:66-157 | the invariant holds after every interleaving |
| `CheckQueue.RunVerdicts` | src/checkqueue.h:66-157 | over every interleaving the results of `Wait` are, in order, the conjunctions of the checks added between them, as a reference that only watches the additions says |
| `CheckQueue.SleepingMasterIsAwaited` | src/checkqueue.h:87-100 | a master that sleeps unnotified has a worker that still holds a batch |
| `CheckQueue.Progress` | src/checkqueue.h:66-142 | no wake-up is lost: while the master waits, some thread can take a productive step |
| `CheckQueue.ProductiveStepsEnd` | src/checkqueue.h:66-123 | every productive step uses up work |
| `CheckQueue.ProductiveRunIsBounded` | src/checkqueue.h:66-123 | a run of productive steps is no longer than the work there was, so `Wait` ends |
| `CheckQueue.StepWork` | src/checkqueue.h:66-157 | no step brings in work but an addition, three for each check and one for each thread, and a starting thread, two; a productive step uses work up |
| `CheckQueue.ProductiveStepsAreBounded` | src/checkqueue.h:66-157 | in any run, however the steps interleave, the productive steps are at most the work there was at the start plus what its additions and starting threads brought in |
| `PartialMerkle.CalcTreeWidthFormula` | src/merkleblock.h:70-72 | the width of a level, defined by halving, is what the shift computes |
| `PartialMerkle.LoIsShift` | src/merkleblock.cpp:79-81 | the first transaction below a node is its position shifted by its height |
| `PartialMerkle.Children` | src/merkleblock.cpp:57-75 | the left child is always in the tree, the right one exactly when the width says so |
| `PartialMerkle.EqualNodes` | src/merkleblock.cpp:120-124 | with an injective hash, equal nodes of one height cover the same first transaction, so distinct transactions never trip the duplicate check |
| `PartialMerkle.MatchedIndexesExact` | src/merkleblock.cpp:110-113 | the reference answer lists exactly the masked positions, in order |
| `PartialMerkle.ExtractBuilt` | src/merkleblock.cpp:77-131 | extracting what was built for a node, with anything following it, gives the node's hash and its matched positions and uses up no more |
| `PartialMerkle.BuildSize` | src/merkleblock.cpp:77-93 | a node stores at least one hash, no more hashes than bits, and no more hashes than transactions below it |
| `PartialMerkle.BuildSizeByMatches` | src/merkleblock.h:35-44 | at most 1 + matches times height hashes for a node |
| `PartialMerkle.BuildProofSize` | src/merkleblock.h:35-44 | a proof stores at most min(transactions, 1 + matches times height) hashes |
| `PartialMerkle.RoundTrip` | src/merkleblock.cpp:77-180 | extraction inverts building for distinct transaction ids, any mask and any padding to whole bytes, if and only if the block is within the transaction limit |
| `PartialMerkle.BadExtractsNothing` | src/merkleblock.cpp:149-180 | an object that is bad already extracts nothing, whatever it holds |
| `PartialMerkle.BadAfterwards` | src/merkleblock.cpp:149-180 | a bad object stays bad, and one that is bad after an extraction extracted nothing |
| `PartialMerkle.ExtractStaysBad` | src/merkleblock.cpp:95-131 | a failure is never forgotten |
| `PartialMerkle.ExtractSound` | src/merkleblock.cpp:95-131 | whatever the proof, a node that extracts to the true hash yields only true (index, id) pairs |
| `PartialMerkle.Soundness` | src/merkleblock.cpp:95-180 | any proof that extracts to the true root with the right transaction count yields only true pairs, in increasing order |
| `MerkleBlock.BitsToBytes` | src/merkleblock.cpp:12-19 | every bit in its place, the rest of the last byte zero |
| `MerkleBlock.BytesToBits` | src/merkleblock.cpp:21-28 | the bits of all bytes in order |
| `MerkleBlock.PackAndUnpack` | src/merkleblock.cpp:12-28 | packing and unpacking adds only zero bits, no more than extraction tolerates |
| `MerkleBlock.PartialMerkleTree.constructor` | src/merkleblock.cpp:133-145 | the proof of the transactions under a mask |
| `MerkleBlock.PartialMerkleTree.Height` | src/merkleblock.cpp:138-141 | the first height with at most one node |
| `MerkleBlock.PartialMerkleTree.ParentOfMatch` | src/merkleblock.cpp:78-81 | whether a matched transaction is below a node |
| `MerkleBlock.PartialMerkleTree.TraverseAndBuild` | src/merkleblock.cpp:77-93 | appends exactly what the recursive definition builds |
| `MerkleBlock.PartialMerkleTree.UseHash` | src/merkleblock.cpp:102-114 | takes the next hash, or fails when there is none |
| `MerkleBlock.PartialMerkleTree.Descend` | src/merkleblock.cpp:115-129 | both children, the duplicate check, and the hash of the node |
| `MerkleBlock.PartialMerkleTree.TraverseAndExtract` | src/merkleblock.cpp:95-131 | consumes and returns exactly what the recursive definition extracts, with the same failures; no index leaves its vector |
| `MerkleBlock.PartialMerkleTree.ExtractMatches` | src/merkleblock.cpp:149-180 | all rejections of the program, then the result of the recursive definition, from any caller's indexes, which are appended to and not cleared; the flag afterwards is that of the traversal, and is untouched by the rejections before it |
| `PackageSelection.WeightBySize` | src/miner.cpp:216-226 | weight at most four times size for each transaction gives it for whole packages |
| `PackageSelection.CoversAfter` | src/miner.cpp:287-313 | including ancestors keeps totals that cover the rest of a package covering what is then left, and keeps exact totals exact, the fee total too where no transaction of the mempool has a fee delta |
| `PackageSelection.FeeDrift` | src/miner.h:116-129 | the fee total, reduced by the modified fee once and by the plain fee afterwards, drifts by exactly the fee deltas of the later ancestors; it stays exact if and only if these cancel |
| `PackageSelection.DriftHappens` | src/miner.h:116-129 | a consistent mempool of three transactions of any size and fee in which the fee total is off by the fee delta of the second ancestor, whatever that delta is |
| `PackageSelection.CoversNonNegative` | src/miner.h:116-129 | totals that cover a package never underflow |
| `PackageSelection.AncestorsCountLess` | src/miner.h:84-94 | ancestors have smaller ancestor counts |
| `AncestorScore.ScoreIsLower` | src/txmempool.h:355-371 | the score of an entry is the lower one of its own fee rate and that of its package |
| `AncestorScore.HigherTransitive` | src/txmempool.h:337-353 | comparing by cross-multiplied rates and then by hash is transitive for positive sizes |
| `AncestorScore.HigherTotal` | src/txmempool.h:337-353 | of two different entries exactly one comes first |
| `AncestorScore.FirstOf` | src/miner.h:96-112 | among any entries of positive size one has no other before it |
| `AncestorScore.FeeIsRate` | src/policy/feerate.cpp:32-47 | paying less than the fee for a size is paying a lower rate; the converse holds exactly but for the rounding of that fee |
| `AncestorScore.ScoresBelow` | src/miner.cpp:421-424 | when an entry without MWEB weight does not pay the minimum, every entry that does not come before it has a score under the minimum rate |
| `AncestorScore.PaysAnyway` | src/miner.cpp:421-424 | of the entries whose score is under the minimum rate, one that reaches this rate itself pays for its package if and only if it pays exactly the rounded minimum without MWEB weight |
| `AncestorScore.PackageMissed` | src/miner.cpp:421-424 | a consistent mempool of four in which the first candidate does not pay, so that selection ends, while another one pays for its whole package |
| `Miner.SortForBlock` | src/miner.cpp:330-339 | the package, each transaction once, sorted by ancestor count and then by hash |
| `Miner.SortedIsOrdered` | src/miner.cpp:330-339 | that order puts every transaction after its ancestors |
| `Miner.OrderIsClosed` | src/miner.cpp:249-285 | a validly ordered selection is closed under ancestors |
| `Miner.ValidOrderPositions` | src/miner.cpp:249-285 | in the block no transaction is twice and every ancestor is at an earlier position |
| `Miner.UpdatedEntry` | src/miner.cpp:287-313 | after a package went in, every modified entry covers what is left of its own package, and exact ones stay exact |
| `Miner.ModifiedUpdated` | src/miner.cpp:287-313 | the same for the whole modified map |
| `Miner.PackageAdded` | src/miner.cpp:287-313 | the bookkeeping of a package that went in completely keeps the map right for the larger block |
| `Miner.BlockAssembler.constructor` | src/miner.cpp:59-66 | an empty block within its limits |
| `Miner.BlockAssembler.resetBlock` | src/miner.cpp:86-100 | back to an empty block |
| `Miner.BlockAssembler.onlyUnconfirmed` | src/miner.cpp:203-214 | exactly what is not in the block yet |
| `Miner.BlockAssembler.TestPackage` | src/miner.cpp:216-226 | true exactly when weight, sigops and MWEB weight stay below their limits |
| `Miner.BlockAssembler.TestPackageTransactions` | src/miner.cpp:232-247 | true exactly when every transaction of the package passes |
| `Miner.BlockAssembler.TestedPackageFits` | src/miner.cpp:216-226 | a package whose covering totals pass the test fits the block with all its transactions |
| `Miner.BlockAssembler.CountIn` | src/miner.cpp:268-275 | the counters are the sums over the block with the new transaction |
| `Miner.BlockAssembler.AddToBlock` | src/miner.cpp:249-285 | the block stays valid, ordered and within budget, with exactly this transaction more, or unchanged when the MWEB part refuses it |
| `Miner.BlockAssembler.IncludeInDescendants` | src/miner.cpp:294-311 | one included transaction is taken off the totals of each of its descendants, once |
| `Miner.BlockAssembler.UpdatePackagesForAdded` | src/miner.cpp:287-313 | every descendant outside the added set has all its added ancestors taken off |
| `Miner.BlockAssembler.AddPackage` | src/miner.cpp:469-483 | the whole package goes in, or a prefix of it does and the rest is marked failed; none of it stays modified |
| `Miner.BlockAssembler.SelectPackage` | src/miner.cpp:465-490 | a fitting package keeps the block valid and the modified map covering, also when a refusal stops it midway |
| `Miner.BlockAssembler.TryPackage` | src/miner.cpp:445-490 | the same from the computation of the ancestors on, and it is tried exactly when all its transactions pass |
| `Miner.BlockAssembler.GiveUp` | src/miner.cpp:454-460 | a modified entry is erased and its transaction failed, nothing else changes |
| `Miner.BlockAssembler.CandidateCovered` | src/miner.cpp:410-419 | the totals a candidate is judged by cover what is left of its package |
| `Miner.BlockAssembler.ChosenCandidate` | src/miner.cpp:380-408 | a chosen candidate is not in the block: the assertion of the program holds |
| `Miner.BlockAssembler.BestModified` | src/miner.h:96-112 | the modified entry that no other precedes, whenever the comparison orders them |
| `Miner.BlockAssembler.Choose` | src/miner.cpp:384-408 | the next entry of the mempool, or the best modified one exactly when it scores better or nothing else is left |
| `Miner.BlockAssembler.ChosenIsBest` | src/miner.cpp:380-408 | under the comparison of the program, no candidate that is left precedes the chosen one |
| `Miner.BlockAssembler.EverythingElse` | src/miner.cpp:421-424 | when selection stops at an entry without MWEB weight, every candidate that is left has a score under the minimum rate; one that reaches that rate itself pays for its package if and only if it pays exactly the rounded minimum |
| `Miner.BlockAssembler.JudgedExactly` | src/miner.cpp:410-424 | without refusals and fee deltas a candidate is judged by the totals of exactly what is left of its package |
| `Miner.BlockAssembler.Consider` | src/miner.cpp:426-490 | one candidate: the block stays valid, and a modified entry that is not selected is dropped; without refusals and fee deltas a selected package pays the minimum rate for exactly what it adds |
| `Miner.BlockAssembler.ConsiderNext` | src/miner.cpp:380-490 | one turn makes progress in (unselected transactions, remaining mempool entries, modified entries), and grows the block by nothing or by a package that pays its way; it ends selection only at a candidate that does not pay and that no other precedes, or in a nearly full block |
| `Miner.BlockAssembler.addPackageTxs` | src/miner.cpp:351-492 | selection ends and leaves a valid block: closed under ancestors, validly ordered without duplicates, within the weight, sigop and MWEB limits, with exact counters and fees; unless an MWEB transaction was refused, every total kept is exact, fees too if no transaction has a fee delta, and then the block grew package by package, each of which pays the minimum rate for what it added; it ends with no candidate left, at a candidate that does not pay and that none precedes, or in a nearly full block |
| `Miner.BlockAssembler.StartIsConsistent` | src/miner.cpp:353-361 | the map built at the start is exact for what is in the block already |
| `AddrTables.CreateKeeps` | src/addrman.cpp:87-97 | a new entry keeps the structure, as an entry without references |
| `AddrTables.SwapRandomKeeps` | src/addrman.cpp:99-117 | swapping keeps `vRandom` and `nRandomPos` inverse |
| `AddrTables.DeleteKeeps` | src/addrman.cpp:119-131 | deleting an unreferenced entry keeps the structure; the assertions before it hold |
| `AddrTables.DropNewKeeps` | src/addrman.cpp:133-146 | giving up one reference keeps reference counts equal to occurrences |
| `AddrTables.PutNewKeeps` | src/addrman.cpp:322-331 | taking a free slot keeps reference counts equal to occurrences |
| `AddrTables.LeaveTriedKeeps` | src/addrman.cpp:168-176 | an entry that leaves its tried slot is accounted for |
| `AddrTables.EnterTriedKeeps` | src/addrman.cpp:189-193 | an entry that enters its tried slot is accounted for |
| `AddrTables.UnreferencedInNoCell` | src/addrman.cpp:119-131 | an entry without references is in no slot |
| `AddrTables.BucketsAfter` | src/addrman.cpp:133-146 | how writing one slot changes the occurrences of an id |
| `AddrMan.AddrMan.constructor` | src/addrman.h:556-578 | an empty manager is consistent |
| `AddrMan.AddrMan.Clear` | src/addrman.h:556-578 | the tables are empty and consistent; pending collisions are kept, so the whole manager is consistent if and only if there were none |
| `AddrMan.ClearWhilePending` | src/addrman.h:556-578 | for any two addresses that share a tried slot, adding both and making both good leaves a pending collision, and clearing then leaves an inconsistent manager |
| `AddrMan.AddrMan.Find` | src/addrman.cpp:74-85 | the id of an address, if it is known |
| `AddrMan.AddrMan.Create` | src/addrman.cpp:87-97 | exactly one more entry under a fresh id |
| `AddrMan.AddrMan.SwapRandom` | src/addrman.cpp:99-117 | the two entries swap places, consistently |
| `AddrMan.AddrMan.Delete` | src/addrman.cpp:119-131 | exactly this entry goes, consistently |
| `AddrMan.AddrMan.ClearNew` | src/addrman.cpp:133-146 | the slot is empty; its occupant lost one reference and went with the last |
| `AddrMan.AddrMan.LeaveNew` | src/addrman.cpp:150-160 | the entry is in no new bucket any more |
| `AddrMan.AddrMan.BackToNew` | src/addrman.cpp:166-188 | the evicted entry is back in the new table with one reference, in the bucket that its source selects |
| `AddrMan.AddrMan.MakeTried` | src/addrman.cpp:148-194 | the entry is in its tried slot, an occupant is back in the new table, at most the occupant of one new slot is lost, and consistency holds |
| `AddrMan.AddrMan.FindNewBucket` | src/addrman.cpp:225-240 | a new bucket of the entry is found: the search never fails |
| `AddrMan.AddrMan.Promote` | src/addrman.cpp:242-259 | the entry moves to the tried table, or is queued behind the occupant when that is to be tested first |
| `AddrMan.AddrMan.Good_` | src/addrman.cpp:196-260 | a known address ends in the tried table unless the slot is occupied and to be tested, and then it is pending exactly if it was not tried and there was room; unknown ones change nothing; consistency and tried occupancy are kept |
| `AddrMan.AddrMan.RefreshKnown` | src/addrman.cpp:276-303 | a known entry is refreshed, and gains a reference only below the limit |
| `AddrMan.AddrMan.Reference` | src/addrman.cpp:311-331 | the slot that the source selects is taken exactly when it is another's and may be taken, and otherwise the new table is unchanged; an entry left without any reference is deleted |
| `AddrMan.AddrMan.Add_` | src/addrman.cpp:262-333 | true exactly for a routable address that was unknown, which is known afterwards under a fresh id if its slot was free; at most one other entry is lost, the tried table is untouched, consistency holds |
| `AddrMan.AddrMan.Attempt_` | src/addrman.cpp:335-355 | only the attempt fields of a known entry change |
| `AddrMan.AddrMan.Connected_` | src/addrman.cpp:507-525 | only the time of a known entry changes, and only when it is old enough |
| `AddrMan.AddrMan.SetServices_` | src/addrman.cpp:527-543 | only the services of a known entry change |
| `AddrMan.AddrMan.ResolveOne` | src/addrman.cpp:548-594 | exactly when a pending collision is resolved and when its occupant is replaced; the slot of a pending entry is never empty |
| `AddrMan.AddrMan.ResolveCollisions_` | src/addrman.cpp:545-602 | consistency holds and only pending collisions with known entries remain |
| `AddrMan.AddrMan.SelectTriedCollision_` | src/addrman.cpp:604-629 | the occupant in the way of a pending entry, which is always there |
| `AddrMan.AddrMan.GetAddr_` | src/addrman.cpp:482-505 | entries that are not terrible, no address twice, at most as many as asked for, and all there are if fewer; the manager stays valid |
| `AddrMan.CollisionsKept` | src/addrman.cpp:545-629 | as long as occupied tried slots stay occupied, pending collisions keep their occupants |
| `AddrMan.RearrangedOnward` | src/addrman.cpp:148-194 | moving an entry into a tried slot leaves no occupied tried slot empty |
| `AddrCheck.ConsistentIsChecked` | src/addrman.cpp:405-479 | what every operation keeps implies all that `Check_` demands |
| `AddrCheck.RandomSize` | src/addrman.cpp:410-411 | the random order holds every id exactly once |
| `AddrCheck.Check` | src/addrman.cpp:405-479 | the three loops return 0 exactly for the states that satisfy the specification, and so for every consistent one |
| `AddrFile.WriteNew` | src/addrman.h:372-382 | every new entry once, numbered |
| `AddrFile.WriteTried` | src/addrman.h:383-391 | every tried entry once |
| `AddrFile.WriteBucket` | src/addrman.h:392-405 | the numbers of the entries of a bucket |
| `AddrFile.Serialize` | src/addrman.h:351-413 | the file describes the state |
| `AddrFile.ReadNew` | src/addrman.h:461-469 | the new entries, without references yet |
| `AddrFile.ReadTried` | src/addrman.h:471-490 | the tried entries in their slots; one whose slot is taken is lost, and the others are as if it had not been there |
| `AddrFile.ReadBuckets` | src/addrman.h:492-505 | for each entry the last bucket that names it, and for an entry that none names nothing |
| `AddrFile.Place` | src/addrman.h:516-536 | every new entry where it was if that can be used; whatever buckets the file names, each entry gets at most one reference and the state stays consistent but for those without |
| `AddrFile.Prune` | src/addrman.h:538-548 | exactly the new entries without a reference are deleted and counted, and the state is then consistent |
| `AddrFile.Unserialize` | src/addrman.h:416-554 | which files are refused; a file in which no address is twice and tried entries have succeeded is loaded to a consistent state of its entries, whatever its buckets, format and asmap, less exactly the losses reported; a well-formed one of the same asmap without loss |
| `AddrFile.EntriesFit` | src/addrman.h:453-459 | there are never more entries than slots, so a written file is not taken for corrupt |
| `AddrFile.WrittenIsWellFormed` | src/addrman.h:351-413 | what is written can be read without loss |
| `AddrFile.SameEntries` | src/addrman.h:351-554 | the same new and tried entries return |
| `AddrFile.SameBuckets` | src/addrman.h:516-536 | every new entry returns to exactly one bucket, which it held before |
| `AddrFile.SaveAndLoad` | src/addrman.h:351-554 | saving any consistent manager and loading it under the same asmap loses no address and gives a consistent manager |
| `AddrFile.SaveAndRebucket` | src/addrman.h:351-554 | saving any consistent manager and loading it under any other asmap gives a consistent manager of old entries in their old tables, less exactly the losses reported |
| `CuckooCache.LocationInRange` | src/cuckoocache.h:242-252 | every location is a slot |
| `CuckooCache.BitSetOnly` | src/cuckoocache.h:90-93 | setting a packed flag changes no other |
| `CuckooCache.BitUnsetOnly` | src/cuckoocache.h:101-104 | clearing a packed flag changes no other |
| `CuckooCache.PutSlot` | src/cuckoocache.h:392-440 | writing an element into one of its slots keeps every live element in a slot it hashes to and unique, and exchanges it for what was there |
| `CuckooCache.NowhereElse` | src/cuckoocache.h:392-440 | an element in none of its eight slots is nowhere in the table |
| `CuckooCache.Erased` | src/cuckoocache.h:469-479 | freeing the one slot of an element erases it and no other |
| `CuckooCache.Cache.constructor` | src/cuckoocache.h:326-352 | an empty cache of at least two slots |
| `CuckooCache.Cache.please_keep` | src/cuckoocache.h:274-277 | the slot is live, the others as before |
| `CuckooCache.Cache.allow_erase` | src/cuckoocache.h:265-268 | the slot may be overwritten, the others as before |
| `CuckooCache.Cache.epoch_check` | src/cuckoocache.h:288-320 | nothing moves; only the elements of the old epoch are given up, and only when the current one is full |
| `CuckooCache.Cache.Refresh` | src/cuckoocache.h:398-405 | the element is live again in the slot it is in |
| `CuckooCache.Cache.Put` | src/cuckoocache.h:430-435 | one exchange of the eviction chain conserves the elements |
| `CuckooCache.Cache.InsertAbsent` | src/cuckoocache.h:406-439 | old contents plus the new element minus at most one dropped element; one is dropped only if all eight slots were live |
| `CuckooCache.Cache.insert` | src/cuckoocache.h:392-440 | after the epoch check, what was kept plus the new element minus at most one dropped element; the invariant holds |
| `CuckooCache.Cache.contains` | src/cuckoocache.h:469-479 | exact for every element but the default one; with `erase` the element leaves the contents |
| `SkipHeights.LowestOne` | src/chain.cpp:71-71 | inverting the lowest one bit takes away the largest power of two that divides the number, and what is left is divisible by twice that |
| `SkipHeights.InvertIsAnd` | src/chain.cpp:71-71 | the recursive definition is the bitwise `n & (n - 1)` |
| `SkipHeights.StepsBound` | src/chain.cpp:74-109 | a walk down from a height below 2^v takes at most a number of steps that grows with the square of v |
| `SkipHeights.StepsQuadratic` | src/chain.cpp:74-109 | that is at most (v^2 + 16v + 4)/4 steps for every v with the height below 2^v |
| `Chain.BlockIndex.GetAncestor` | src/chain.cpp:84-114 | the skip-list walk returns the ancestor that walking `pprev` would, null outside the range; its assertion holds, and over blocks with skip pointers it takes exactly the steps counted, which is quadratic in the bit length of the height |
| `Chain.BlockIndex.BuildSkip` | src/chain.cpp:116-120 | the skip pointer is the ancestor at the skip height, and all ancestors keep theirs |
| `Chain.BlockIndex.AncestorOf` | src/chain.cpp:84-109 | ancestors of ancestors are ancestors |
| `Chain.AddBlock` | src/validation.cpp:3371-3380 | a new block of the tree has right links and a right skip pointer, and so have all its ancestors if they had |
| `Chain.ActiveChain.SetTip` | src/chain.cpp:11-21 | stopping early still makes every entry the ancestor of the tip at its height |
| `Chain.ActiveChain.ContainsIsAncestor` | src/chain.h:420-422 | the chain contains exactly the ancestors of its tip |
| `Chain.ActiveChain.FindFork` | src/chain.cpp:51-60 | the highest block in common with the chain |
| `Chain.ActiveChain.FindEarliestAtLeast` | src/chain.cpp:62-68 | the first block that reaches a time and a height, null if there is none |
| `Chain.ActiveChain.StepBack` | src/chain.cpp:36-43 | by index or by skip list, the ancestor at the given height |
| `Chain.ActiveChain.GetLocator` | src/chain.cpp:23-49 | the hashes of the block and its ancestors at the heights of a locator, strictly descending to genesis |
| `Chain.LocatorDescends` | src/chain.cpp:23-49 | the heights strictly descend |
| `Chain.BackIs` | src/chain.cpp:35-45 | how far back a locator goes, in closed form |
| `Chain.LocatorLength` | src/chain.cpp:23-49 | a locator has at most 12 + ceil(log2(height + 1)) entries |
| `Chain.LastCommonAncestor` | src/chain.cpp:156-171 | the highest common ancestor, null only for different trees |
| `RollingBloom.FastModInRange` | src/bloom.cpp:209-211 | the product shifted down is in range |
| `RollingBloom.WipeClears` | src/bloom.cpp:221-229 | the mask wipe clears exactly the cells of the reused generation |
| `RollingBloom.RotatedCell` | src/bloom.cpp:215-230 | after a rotation every cell still has the generation it had, except the wiped ones |
| `RollingBloom.MarkedOlder` | src/bloom.cpp:215-230 | ageing keeps the keys of the two youngest generations |
| `RollingBloom.MarkedYounger` | src/bloom.cpp:234-241 | overwriting a cell only makes it younger |
| `RollingBloom.RollingBloomFilter.constructor` | src/bloom.cpp:173-198 | an empty filter |
| `RollingBloom.RollingBloomFilter.Rotate` | src/bloom.cpp:215-230 | the planes after a rotation hold the aged cells |
| `RollingBloom.RollingBloomFilter.WriteCell` | src/bloom.cpp:233-241 | the planes after a write hold the cell at age zero |
| `RollingBloom.RollingBloomFilter.insert` | src/bloom.cpp:213-242 | the invariant that ties the planes to the whole history of keys is kept |
| `RollingBloom.RollingBloomFilter.LastAreMarked` | src/bloom.cpp:213-242 | a key of the last two full generations is still marked |
| `RollingBloom.RollingBloomFilter.contains` | src/bloom.cpp:250-262 | true for each of the last `nElements` keys inserted |
| `Digits.DigitsFit` | src/base58.cpp:52-52 | when one power is below another, digits of one base fit a proportional number of digits of the other |
| `Base58.EncodeFits` | src/base58.cpp:97-97 | 138/100 digits are enough for every byte string |
| `Base58.DecodeFits` | src/base58.cpp:52-52 | 733/1000 bytes are enough for every word |
| `Base58.MultiplyAdd` | src/base58.cpp:61-66 | the in-place carry loop computes its recursive definition |
| `Base58.CarryResult` | src/base58.cpp:101-111 | with room in the buffer, the carry loop multiplies and adds exactly: its assertion on the carry holds |
| `Base58.Shift` | src/base58.cpp:99-113 | the buffer holds the number of one more digit, canonically |
| `Base58.Convert` | src/base58.cpp:99-113 | the buffer holds the number of all digits |
| `Base58.EncodeBase58` | src/base58.cpp:87-125 | the encoding: a '1' for every leading zero byte, then the base-58 digits of the number |
| `Base58.DecodeDigits` | src/base58.cpp:51-71 | the bytes of the word, or the exact place where it fails |
| `Base58.DecodeBase58` | src/base58.cpp:38-85 | exactly the words between spaces whose bytes are not too many decode, to those bytes |
| `Base58.BytesOfEncoded` | src/base58.cpp:38-125 | the bytes of an encoding are the encoded ones, and leading zeros and leading '1's match one for one |
| `Base58.EncodedOfBytes` | src/base58.cpp:38-125 | the encoding of a word's bytes is the word |
| `Base58.EncodeThenDecode` | src/base58.cpp:38-125 | decoding an encoding, with any spaces around it, gives the bytes back exactly when the length limit admits them |
| `Base58.DecodeThenEncode` | src/base58.cpp:38-125 | whatever decodes is, between its spaces, the encoding of what it decodes to |
| `Compressor.DecompressCompress` | src/compressor.cpp:149-192 | decompression undoes compression on all natural numbers |
| `Compressor.CompressDecompress` | src/compressor.cpp:149-192 | compression undoes decompression on all natural numbers |
| `Compressor.CompressAmount` | src/compressor.cpp:149-166 | the loop computes compression modulo 2^64 |
| `Compressor.DecompressAmount` | src/compressor.cpp:168-192 | the loop computes decompression modulo 2^64 |
| `Compressor.FittingRoundTrip` | src/compressor.cpp:149-192 | nothing is lost while the compressed amount fits 64 bits |
| `Compressor.FitsExactly` | src/compressor.cpp:149-166 | which valid amounts have a compression that fits |
| `Compressor.RoundTripExact` | src/compressor.cpp:149-192 | for amounts up to `MAX_MONEY` the 64-bit round trip works if and only if n is a multiple of 10 or 9n + n%10 - 9 < 2^64 |
| `Compressor.FirstLoss` | src/amount.h:25-25 | 2049638230412172403, a valid amount, is the first that is not read back: all smaller ones are |
| `Bech32.StepLinear` | src/bech32.cpp:42-99 | one step is linear over exclusive or |
| `Bech32.RunLinear` | src/bech32.cpp:42-99 | whole runs are linear over exclusive or |
| `Bech32.StepKernel` | src/bech32.cpp:42-99 | a step with symbol 0 takes only the zero state to zero, so it is injective on 30 bits |
| `Bech32.RunInjective` | src/bech32.cpp:42-99 | the same symbols lead different states to different states |
| `Bech32.OneSymbol` | src/bech32.cpp:42-99 | changing one symbol always changes the result |
| `Bech32.ChecksumHits` | src/bech32.cpp:136-147 | the six chosen symbols make the run end in the wanted state |
| `Bech32.TheCodeOk` | src/bech32.cpp:88-96 | the generators of the program are independent |
| `Bech32.PolyMod` | src/bech32.cpp:42-99 | the loop computes the run |
| `Bech32.CharsetInverse` | src/bech32.cpp:18-31 | the two character tables are inverse |
| `Bech32.ExpandHRP` | src/bech32.cpp:108-120 | high bits, zero, low bits |
| `Bech32.VerifyChecksum` | src/bech32.cpp:123-133 | the encoding whose constant the residue is, if any |
| `Bech32.CreateChecksum` | src/bech32.cpp:136-147 | the six symbols of the checksum |
| `Bech32.ChecksumVerifies` | src/bech32.cpp:123-147 | a created checksum verifies, as its own encoding |
| `Bech32.OneErrorDetected` | src/bech32.cpp:123-133 | changing one symbol of valid values always changes the residue and invalidates them for their encoding |
| `Bech32.Encode` | src/bech32.cpp:152-165 | the string of an encoding |
| `Bech32.Decode` | src/bech32.cpp:168-198 | all rejections of the program, then the parts |
| `Bech32.EncodeThenDecode` | src/bech32.cpp:152-198 | decoding an encoding gives its parts back for every lower-case printable non-empty prefix within the length limit |
| `Bech32.OneErrorInString` | src/bech32.cpp:168-198 | another character at one place of the data part of a string that decodes is never accepted as the same encoding, whatever the character is unless it is the separator |
| `Bech32Cross.StepSame` | src/bech32.cpp:42-99 | a step on the bits of a state is the step of the program on its 30-bit word |
| `Bech32Cross.NextPrevious` | src/bech32.cpp:42-99 | the step on words with symbol 0 has an inverse |
| `Bech32Cross.SymbolMisses` | src/bech32.cpp:33-40 | a single symbol, however many up to 90 others follow it, does not contribute the difference of the two encoding constants |
| `Bech32Cross.OneErrorNeverVerified` | src/bech32.cpp:123-133 | changing one of the last 91 symbols of valid values makes them invalid for both encodings |
| `Bech32Cross.OneErrorFails` | src/bech32.cpp:168-198 | within the limit of 90 characters, a string that decodes no longer decodes at all, as either encoding, with another character at one place of its data part |
| `Field1024.MulAssociates` | src/bech32.cpp:57-62 | multiplication of polynomials modulo the field polynomial is associative |
| `Field1024.MulCommutes` | src/bech32.cpp:57-62 | and commutative |
| `Field1024.NoShorterPeriod` | src/bech32.cpp:49-54 | the powers of y run through all 1023 elements other than 0 before they repeat |
| `Bech32Errors.EvStep` | src/bech32.cpp:69-96 | at a root of the generator, a step multiplies by the root and adds the symbol |
| `Bech32Errors.EvRun` | src/bech32.cpp:64-96 | at a root, the state after a run is the polynomial of the symbols, whatever has been reduced |
| `Bech32Errors.RootsOf` | src/bech32.cpp:49-54 | three elements are roots of the generator of the program |
| `Bech32Errors.Progression` | src/bech32.cpp:49-54 | and they follow each other in a geometric progression |
| `Bech32Errors.ThreeAtRoots` | src/bech32.cpp:51-54 | a polynomial of three terms within a window of 1023 that is 0 at the three roots is 0 |
| `Bech32Errors.UpToThreePlaces` | src/bech32.cpp:51-54 | runs over sequences that differ at up to three places within a window of 1023 end alike if and only if the sequences are the same |
| `Bech32Errors.ThreeErrorsDetected` | src/bech32.cpp:123-133 | up to three changed values within a window of 1023, behind any human-readable part, always change the residue, and so are never verified as the same encoding |
| `Bech32Errors.ThreeErrorsInString` | src/bech32.cpp:168-198 | other characters at up to three places of the data part of a string that decodes, within a window of 1023 and none of them the separator, are never accepted as the same encoding |
| `Limbs.SumValue` | src/arith_uint256.h:132-142 | limb addition with carries is addition modulo the range |
| `Limbs.ProductValue` | src/arith_uint256.cpp:66-80 | the rows of limb products are multiplication modulo the range |
| `Limbs.ShiftUpValue` | src/arith_uint256.cpp:20-35 | moving limbs and bits up is multiplication by a power of two modulo the range |
| `Limbs.ShiftDownValue` | src/arith_uint256.cpp:37-52 | moving limbs and bits down is the floor of a division by a power of two |
| `ArithUint256.AccumulatorFits` | src/arith_uint256.cpp:73-75 | the 64-bit accumulator never wraps |
| `ArithUint256.AddAssign` | src/arith_uint256.h:132-142 | the sum modulo the range |
| `ArithUint256.Complemented` | src/arith_uint256.h:66-72 | the largest number minus the value |
| `ArithUint256.Negated` | src/arith_uint256.h:74-81 | the negative modulo the range |
| `ArithUint256.SubAssign` | src/arith_uint256.h:144-148 | the difference modulo the range |
| `ArithUint256.Increment` | src/arith_uint256.h:170-177 | the successor modulo the range |
| `ArithUint256.Decrement` | src/arith_uint256.h:187-194 | the predecessor modulo the range |
| `ArithUint256.MulAssign32` | src/arith_uint256.cpp:54-64 | the product with a 32-bit number modulo the range |
| `ArithUint256.MulAssign` | src/arith_uint256.cpp:66-80 | the product modulo the range |
| `ArithUint256.ShiftLeftAssign` | src/arith_uint256.cpp:20-35 | multiplication by a power of two modulo the range, for every shift |
| `ArithUint256.ShiftRightAssign` | src/arith_uint256.cpp:37-52 | the floor of the division by a power of two, for every shift |
| `ArithDivision.CompareTo` | src/arith_uint256.cpp:108-118 | the sign of the comparison of the values |
| `ArithDivision.Bits` | src/arith_uint256.cpp:170-183 | the bit length of the value |
| `ArithDivision.TakeBit` | src/arith_uint256.cpp:96-103 | one round of long division keeps dividend = quotient times divisor plus rest, with the rest below the shifted divisor |
| `ArithDivision.InLine` | src/arith_uint256.cpp:94-95 | the aligned divisor fits the range |
| `ArithDivision.DivideAssign` | src/arith_uint256.cpp:82-106 | the floor of the quotient; an error exactly for a zero divisor, with the number already cleared |
| `Compact.OverflowExact` | src/arith_uint256.cpp:216-219 | the test on size and word is true exactly for magnitudes of 2^256 and more |
| `Compact.SetCompact` | src/arith_uint256.cpp:203-221 | the magnitude modulo 2^256, an exact sign flag and an exact overflow flag |
| `Compact.GetCompact` | src/arith_uint256.cpp:223-244 | the compact form; both assertions of the program hold |
| `Compact.MantissaFits` | src/arith_uint256.cpp:239-240 | the mantissa has its sign bit clear and the size fits a byte |
| `Compact.ExpandCompact` | src/arith_uint256.cpp:203-244 | the compact form keeps the sign and all but the bytes below the mantissa |
| `Compact.Precision` | src/arith_uint256.cpp:203-244 | it loses less than one part in 2^15 |
| `Compact.CompactIsCanonical` | src/arith_uint256.cpp:223-244 | a written compact number is canonical |
| `Compact.CompactExpand` | src/arith_uint256.cpp:203-244 | reading, modulo 2^256, and writing again gives a compact number back if and only if it is canonical and does not overflow |
| `Compact.CanonicalButLost` | src/arith_uint256.cpp:203-244 | 0x23008000 is canonical and yet comes back as 0 |
| `Compact.CanonicalReturns` | src/arith_uint256.cpp:203-244 | without the truncation it would be given back if and only if it is canonical, so writing is idempotent |
| `Compact.ProofQuotient` | src/chain.cpp:130-134 | the formula without 2^256 is the floor of 2^256/(target + 1) |
| `Compact.TargetNotLargest` | src/chain.cpp:134-134 | no compact target is the largest number, so the divisor is not zero |
| `Compact.GetBlockProof` | src/chain.cpp:122-135 | 0 for a negative, overflowing or zero target, else floor(2^256/(target + 1)); it never divides by zero |
| `BlockEncodings.MakeCompact` | src/blockencodings.cpp:19-37 | the compact block: the first transaction and the HogEx prefilled, the others as short ids in order |
| `BlockEncodings.LayoutFree` | src/blockencodings.cpp:69-84 | prefilled transactions take distinct slots, and exactly as many slots stay free as there are short ids |
| `BlockEncodings.MapShortIds` | src/blockencodings.cpp:91-113 | the i-th short id is mapped to the i-th free slot, in range; it fails exactly for equal ids or a crowded bucket |
| `PartialBlock.PoolSlotIs` | src/blockencodings.cpp:118-141 | the mempool fills a slot exactly when one of its transactions, and no more, has the slot's short id |
| `PartialBlock.ExtraSlotKeeps` | src/blockencodings.cpp:144-173 | the extra pool keeps a found transaction exactly when all that match it have its witness hash |
| `PartialBlock.ExtraSlotFills` | src/blockencodings.cpp:144-173 | a slot that the mempool left untouched gets the first matching extra transaction exactly when all that match have its witness hash |
| `PartialBlock.ExtraSlotOffered` | src/blockencodings.cpp:118-173 | what a slot ends with came from a pool under the slot's short id |
| `PartialBlock.PartiallyDownloadedBlock.PlacePrefilled` | src/blockencodings.cpp:69-85 | prefilled transactions in their places; it fails exactly for an empty one or an index out of reach |
| `PartialBlock.PartiallyDownloadedBlock.TakeFromPool` | src/blockencodings.cpp:121-135 | one match: the first is taken, a second empties the slot, and `mempool_count` stays the number of filled slots |
| `PartialBlock.PartiallyDownloadedBlock.TakeFromExtra` | src/blockencodings.cpp:147-167 | one match: only a different transaction empties the slot; `extra_count` moves with `mempool_count` and wraps |
| `PartialBlock.PoolStopIsFirst` | src/blockencodings.cpp:118-141 | the scan of the mempool stops at the first entry with which every short id has been given a transaction, or at the end |
| `PartialBlock.ExtraStopIsFirst` | src/blockencodings.cpp:144-173 | the same for the extra pool |
| `PartialBlock.PartiallyDownloadedBlock.ScanPool` | src/blockencodings.cpp:115-142 | the interleaved scan stops at that place, and gives every slot what scanning for it alone up to there would |
| `PartialBlock.PartiallyDownloadedBlock.ScanExtra` | src/blockencodings.cpp:144-173 | the same for the extra pool; `extra_count` has moved by as much as `mempool_count`, modulo 2^64 |
| `PartialBlock.PartiallyDownloadedBlock.InitData` | src/blockencodings.cpp:57-178 | exactly when the message is invalid, when it fails, and otherwise every slot's content from the two pools up to where the scans stop; `mempool_count` grows by the number of filled short-id slots |
| `PartialBlock.PartiallyDownloadedBlock.IsTxAvailable` | src/blockencodings.cpp:180-186 | whether the slot has a transaction |
| `PartialBlock.PartiallyDownloadedBlock.FillBlock` | src/blockencodings.cpp:188-224 | exactly as many missing transactions as free slots complete the block, each in its slot; too few leave the slots before the gap moved out |
| `BlockRelay.DifferenceFormatter.Ser` | src/blockencodings.h:28-34 | the distance from the last value, refused for a value that does not increase |
| `BlockRelay.DifferenceFormatter.Unser` | src/blockencodings.h:35-42 | the checks on the wrapped sum leave exactly the sums that fit sixteen bits |
| `BlockRelay.SerVector` | src/blockencodings.h:45-55 | a vector of indexes is written exactly when it increases |
| `BlockRelay.UnserVector` | src/blockencodings.h:45-55 | the one vector that was written, or none if there is none |
| `BlockRelay.EncodesUnique` | src/blockencodings.h:45-55 | differential lists determine their vectors |
| `BlockRelay.CompactLayout` | src/blockencodings.cpp:19-85 | the layout of a relayable block: its first transaction, room for the others in order, its HogEx last |
| `BlockRelay.AvailableIsRight` | src/blockencodings.cpp:57-178 | with pools in which equal short ids mean equal transactions, every available transaction is the block's own, in its place |
| `BlockRelay.Rebuilt` | src/blockencodings.cpp:188-211 | completed with the block's own transactions at the free slots, it has the available ones elsewhere and so differs from the block only there |
| `BlockRelay.MissingIndexes` | src/net_processing.cpp:3645-3649 | the indexes of exactly the free slots |
| `BlockRelay.ReceivedIsRelayed` | src/blockencodings.cpp:57-211 | what the receiver has, completed by the sender, is the block that the pools decide |
| `BlockRelay.RelayedExactly` | src/blockencodings.cpp:57-211 | that is the sender's block if and only if every transaction the pools supply is right |
| `BlockRelay.CollisionMisleads` | src/blockencodings.cpp:118-142 | over a mempool of one transaction under the short id of another one of the block, that transaction takes its place |
| `BlockRelay.RelayOverCollision` | src/net_processing.cpp:3632-3766 | and the exchange never gives the sender's block |
| `BlockRelay.Relay` | src/net_processing.cpp:3632-3766 | the whole exchange over any pools, unless two short ids of the block are equal or crowd a bucket: it gives the block that the pools decide, with the verdict on it; that is the very block if and only if every transaction the pools supply is right, and it is when equal short ids mean equal transactions |

## Left out

- Coins: best-block hashes, `SetBackend`, cursors, I/O failures, and the state of an object after an exception.
- Coins: the MWEB views below the caches, and `HaveCoin` of MWEB outputs.
- CoinsViewCache.CoinsViewCache.AddCoin: does not say what the object holds after the exception, because the program leaves it unspecified.
- CoinsViewCache.CoinsViewCache.HaveCoin: does not answer for MWEB outputs.
- CoinsViewCache.CoinsViewDB.BatchWrite: does not model the intermediate batches and the head-block markers written to LevelDB.
- CheckQueue: thread interruption and the memory model; steps are atomic where the program holds the mutex.
- PartialMerkle: the `2*N-1` bound on flag bits stated in the header comment, which nodes with one child break; Bloom-filter selection of transactions.
- Miner: the coinbase, witness commitment and block header, the fee estimate of the template, and `UpdateTime`.
- Miner.BlockAssembler.Choose: takes any modified entry if the comparison does not order them; the comparison of the program multiplies without the rounding of doubles.
- Miner.BlockAssembler.EverythingElse: is about a mempool in which every transaction has a size, because the comparison does not order those without one, and about stopping at an entry without MWEB weight, because the comparison does not see what that has to pay.
- Miner.BlockAssembler.resetBlock: does not reset the two flags for witness and MWEB transactions, which are fixed for an assembler because they are set again before any selection.
- Miner.BlockAssembler.AddToBlock: the MWEB builder is an outcome, true or false.
- AddrMan: `Select_` and `GetChance`, whose point is a floating-point probability; `DecodeAsmap`; `Good`, `Add` and the other locking wrappers.
- AddrMan: 32-bit overflow of ids and counters, and truncation of times to 32 bits; one clock reading per call.
- AddrMan.AddrMan.ResolveOne: has no branch for a tried slot that has become empty, because that never happens without `Clear`.
- AddrMan.AddrMan.Add_: says true also for an unknown address that then found no place, as the code does.
- AddrFile: the stream format, versions below the current one and I/O; the file is a value with its entries and bucket lists.
- AddrCheck.Check: has no code -16 for a null key, because a key of the model is the bucket hashes it selects.
- AddrFile.Place: does not say which slot an entry gets whose old one cannot be used, only that it is the one its source selects or none.
- AddrFile.Unserialize: does not say what a file is turned into in which an address is twice.
- CuckooCache: the memory order of the atomic flags, `setup_bytes`, and the floating-point choice of the depth limit, which is a parameter.
- Chain: 32-bit overflow of the locator step; the block index database.
- SkipHeights.StepsBound: gives 145 steps for heights below 2^18, where a comment of the program reports 110 from simulations.
- RollingBloom: the floating-point sizes of the filter, which are parameters, the hash tweak, and the plain `CBloomFilter`; a filter of no bits can be made but not used, since the program would index an empty vector.
- Base58: the checksum variants and the C-string interface.
- Bech32: reads characters as 7-bit codes and keeps states as thirty bits.
- Bech32Errors.ThreeErrorsDetected: does not extend to four errors within 89 characters, which the authors of the code found by search among its kind; nor to characters of the human-readable part, which are two symbols each.
- Compressor: compression of scripts.
- ArithUint256: hexadecimal strings, doubles, and the bitwise operators; `GetBlockProofEquivalentTime`.
- PartialBlock.PartiallyDownloadedBlock.InitData: takes a message of fewer than 2^16 transactions, which deserialization enforces (`src/blockencodings.h:129-133`).
- PartialBlock: null references in the extra pool, and the serialization of compact blocks apart from the index lists.
- The rest of the node: networking, scripts, consensus validation, wallet, RPC and start-up.
