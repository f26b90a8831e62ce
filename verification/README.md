# Verified models of a Dogecoin node

This project models the self-contained data structures and algorithms of a Dogecoin/Bitcoin Core 1.14
node and proves that each agrees with a much simpler specification, over every input or every run.
`dafny verify dfyconfig.toml` checks all of it.

| file | what it models |
|---|---|
| Asmap.dfy | the bytecode of autonomous-system maps: its verifier, its interpreter and an encoder |
| Coins.dfy | the stack of write-back caches over the coin database |
| CheckQueue.dfy | the queue that spreads script checks over threads, as a state machine |
| Merkle.dfy | the Merkle root of a block, its calculator and branches |
| PartialMerkle.dfy | partial Merkle trees (BIP 37), built, packed, received and extracted |
| AddrManState.dfy, AddrMan.dfy, AddrManStore.dfy | the address manager: its invariant, its operations on two tables, its stored form |
| Mempool.dfy, BlockAssembler.dfy | block assembly over a graph of transactions |
| Limbs.dfy, ArithUint256.dfy, Difficulty.dfy | 256-bit limb arithmetic, compact targets, block proof and retargeting |
| RollingBloom.dfy | the rolling bloom filter |
| Chain.dfy | the block tree with skip pointers, the active chain and locators |
| Radix.dfy, Base58.dfy | base 58 encoding |
| Cuckoo.dfy | the cuckoo cache |
| AuxPow.dfy | merged mining proofs |
| Compressor.dfy, CoinsCodec.dfy | variable-length integers, compressed outputs, stored coins |
| Common.dfy, IntMath.dfy | shared types and arithmetic |

Code that updates fields or buffers in place is modelled by classes and methods with loops, each proved
against a recursive or declarative definition; the theorems are about those definitions. In the address
manager's stored form, `Serialize` and `Unserialize` work on a value of the same five structures.

Hashes are arbitrary functions. Merkle trees assume a pair hash without collisions where they must;
merged mining produces the collision instead. Randomness and scheduling are arbitrary choices,
clocks and the network are parameters. Priorities, fee-rate order and free-transaction thresholds of the
block assembler are arbitrary choices too, so its results hold for every order. Integers are unbounded
except where a width is written out: limbs and their 64-bit intermediate results, the compact format,
the retarget timespan and product, the epoch size, the merged mining slot, and in stored coins the
amounts, sizes, codes, versions and heights.

Where the code differs from what its comments or its purpose suggest, the model follows the code and
states the exact condition:

- A partial Merkle tree can need more flag bits than the documented bound (`FlagBitCount`).
- The Merkle root calculator works for up to 2^31 leaves, not 2^32 (`CountFits`).
- Flushing a cache that never looked up its best block forgets the one below (`Flush`,
  `ForgottenBestBlock`).
- New coins may be marked fresh only without unspent older ones (`ModifyNewCoins`, `SpentCoinsReappear`).
- A package's modified fee drifts by the fee adjustments of all included ancestors but the first
  (`FeeDrift`, `SecondDeductionDrifts`).
- A package that failed and then loses another ancestor to the block is considered with outdated totals
  and can be refused although it fits (`OutdatedTotalsRefuse`), unless its ancestors weigh four times
  their size (`NothingFits`, `FailsAgainExactly`).
- Multiplying a 256-bit number by itself in place gives zero (`MulAssign`).
- The first cuckoo swap uses the second slot, not the first (`NextLoc`), and the epoch size wraps above
  2^26 slots (`EpochSizeIsExact`).
- Merged mining scripts without the header can commit twice (`LegacyScriptCommitsTwice`,
  `LegacyProofServesTwo`).
- A negative version or height does not survive storing coins (`SignedRoundTrip`, `CoinsRoundTrip`).

## Model

| member | source | states |
|---|---|---|
| Asmap.ReadMantissa | src/asmap.cpp:39-44 | the bits of one size class are read most significant first, and end-of-data is reported exactly when they are not all there |
| Asmap.DecodeBits | src/asmap.cpp:23-49 | the cursor-based variable-length reader agrees with the recursive definition of the number format, never leaves the map, and returns the in-band failure value exactly when the data ends |
| Asmap.OperandRange | src/asmap.cpp:58-80 | every decodable operand stays below the failure value, so the in-band marker is unambiguous |
| Asmap.InterpretASMap | src/asmap.cpp:84-127 | on a map that the recursive grammar accepts for addresses of that many bits, the jumping interpreter ends with what the decision tree parsed from the bits answers, for every address; its assert(false) is unreachable |
| Asmap.CheckPadding | src/asmap.cpp:146-151 | the loop accepts exactly an all-zero tail |
| Asmap.SanityCheckASMap | src/asmap.cpp:129-189 | the linear scan with its stack of jump targets accepts a map of fewer than 2^32 bits if and only if the recursive grammar does |
| Asmap.LoadAndLookup | src/asmap.cpp:84-189 | a map that passes the scan is answered for every address, as its tree does |
| Asmap.ScanJump | src/asmap.cpp:159-168 | a jump splits what is left to parse into the two subtrees, the second one pending on the stack |
| Asmap.DecodeOfEncode | src/asmap.cpp:23-49 | every number in the range of a size list has an encoding that the reader decodes to it |
| Asmap.ParseOfEncode | src/asmap.cpp:129-189 | parsing the encoding of a canonical decision tree gives the tree back |
| Asmap.EveryTreeHasAMap | src/asmap.cpp:129-189 | every canonical tree is the meaning of a map that the scan accepts, so the grammar is neither empty nor degenerate |
| Asmap.OperandFormats | src/asmap.cpp:58-80 | the size classes of the four formats and their ranges, in literals |
| Asmap.InstructionForms | src/asmap.cpp:51-81 | the bits of the four instructions with an operand of the smallest class |
| Asmap.MantissaAppend | src/asmap.cpp:39-44 | bits are read most significant first |
| Asmap.ShortestMap | src/asmap.cpp:84-189 | seventeen zero bits, with padding, are accepted and answer 1 for every address |
| Coins.Cleanup | src/coins.h:114-119 | cuts exactly the spent outputs at the end |
| Coins.CoinsViewDB.BatchWrite | src/txdb.cpp:53-74 | the database view becomes the batch over the old view, and only the dirty entries were needed |
| Coins.MergeEntries | src/coins.cpp:188-243 | merging a child cache into its parent shows the child over the parent, keeps the promises of every DIRTY and FRESH flag, and never reports a misapplied FRESH flag |
| Coins.MergeIsFaithful | src/coins.cpp:193-240 | each of the branches of the merge leaves the key with what the child shows |
| Coins.CoinsViewCache.FetchCoins | src/coins.cpp:72-88 | caching an entry, here and below, changes no view of any layer, and finds the coins exactly when they are shown |
| Coins.CoinsViewCache.GetCoins | src/coins.cpp:90-97 | returns what the plain map of this layer holds |
| Coins.CoinsViewCache.ModifyCoins | src/coins.cpp:99-118 | opens a modifier without changing any view; a new entry is fresh if and only if the view below has no such coins |
| Coins.CoinsViewCache.ModifyNewCoins | src/coins.cpp:134-153 | hides any older coins; the flags stay truthful if and only if it is a coinbase, the entry here is dirty already, or there are no unspent coins below; an unspent entry here fails the assertion for anything but a coinbase |
| Coins.CoinsViewCache.ReleaseModifier | src/coins.cpp:322-334 | trims the record and drops it when fresh and spent; with truthful flags the layer then shows exactly the written coins, pruned as absent |
| Coins.CoinsViewCache.BatchWrite | src/coins.cpp:188-243 | the view becomes the child's view over the old one; the error of a misapplied FRESH flag is unreachable |
| Coins.CoinsViewCache.Flush | src/coins.cpp:245-250 | moves everything below without changing what this layer shows; the visible best block survives if and only if it is known here, the view below is the database, or the one below overrides nothing further below |
| Coins.CoinsViewCache.Uncache | src/coins.cpp:252-259 | forgets the entry if and only if it is clean, which changes no view |
| Coins.CoinsViewCache.GetBestBlock | src/coins.cpp:178-182 | answers the best block of the nearest layer that has one |
| Coins.CoinsViewCache.Replace | src/coins.cpp:99-118 | a whole modification puts one record into the plain map of the top layer and touches nothing else |
| Coins.CoinsViewCache.Create | src/coins.cpp:134-153 | the same for a new transaction under BIP 30 |
| Coins.Run | src/coins.cpp:72-334 | any run of fetches, modifications, creations, uncaching and flushes on any stack of caches shows in every layer what a stack of plain maps shows |
| Coins.ForgottenBestBlock | src/coins.cpp:245-250 | a concrete stack on which a flush overwrites the best block below with null, because the top layer never looked it up |
| Coins.SpentCoinsReappear | src/coins.cpp:134-153 | a concrete cache: new coins over unspent older ones, released spent, show the older ones again |
| CheckQueue.BatchOf | src/checkqueue.h:110-110 | a batch has at least one check, no more than the queue holds, and more than one only within the batch size |
| CheckQueue.FairShare | src/checkqueue.h:105-110 | a batch is the share of the queue for each thread, at least one check and at most the batch size |
| CheckQueue.InitInv | src/checkqueue.h:36-67 | a new queue satisfies the invariant |
| CheckQueue.AddInv | src/checkqueue.h:149-161 | adding checks keeps it |
| CheckQueue.EnterInv | src/checkqueue.h:69-120 | a thread entering the loop keeps it |
| CheckQueue.ExecuteInv | src/checkqueue.h:121-125 | running one check of a batch outside the lock keeps it |
| CheckQueue.ReportInv | src/checkqueue.h:78-120 | handing in a batch and taking the next one, in one critical section, keeps it |
| CheckQueue.WakeInv | src/checkqueue.h:91-104 | waking up, notified or not, keeps it |
| CheckQueue.NextInv | src/checkqueue.h:69-161 | every enabled step keeps the invariant: nTodo is the queued checks plus those in unreported batches, and fAllOk judges exactly the reported ones |
| CheckQueue.RunInv | src/checkqueue.h:69-161 | the invariant holds in every state of every interleaving |
| CheckQueue.QueueIsCorrect | src/checkqueue.h:69-161 | in every interleaving, a verdict is true if and only if every check added in its round evaluates to true |
| CheckQueue.WaitReturns | src/checkqueue.h:92-100 | no verdict leaks into the next round: when Wait returns, what it judged is exactly what was added |
| CheckQueue.NoDeadlock | src/checkqueue.h:69-128 | while the master waits, some thread can make a step that is not a spurious wake-up |
| CheckQueue.ProductiveStepsDecrease | src/checkqueue.h:69-128 | every such step that does not end the round uses up a finite amount of work |
| CheckQueue.SpuriousWakeIsHarmless | src/checkqueue.h:102-102 | a spurious wake-up adds no work |
| CheckQueue.WaitTerminates | src/checkqueue.h:143-146 | under every schedule, with any number of spurious wake-ups in between, a round to which nothing is added any more ends within the initial amount of work in productive steps |
| PartialMerkle.WidthHalves | src/merkleblock.h:66-68 | each level is half as wide as the one below, rounded up |
| PartialMerkle.CalcHeight | src/merkleblock.cpp:139-142 | the loop finds the first level with at most one node |
| PartialMerkle.CalcHashIsNode | src/merkleblock.cpp:62-76 | a node is the one that pairing the transaction list again and again gives |
| PartialMerkle.RootIsMerkleRoot | src/merkleblock.cpp:62-76 | so the root of the partial tree is the Merkle root of the block |
| PartialMerkle.PartialMerkleTree.TraverseAndBuild | src/merkleblock.cpp:78-94 | appends exactly the flag bits and hashes of the recursive definition |
| PartialMerkle.PartialMerkleTree.TraverseAndExtract | src/merkleblock.cpp:96-132 | reads a subtree as the recursive definition does, moving both cursors, and sets the error flag for the same inputs |
| PartialMerkle.PartialMerkleTree.ExtractMatches | src/merkleblock.cpp:150-181 | returns the root for exactly the accepted inputs, and the null hash otherwise |
| PartialMerkle.SubtreeSoundness | src/merkleblock.cpp:96-132 | a subtree that reads without error and hashes to the true node contains only true matches |
| PartialMerkle.Soundness | src/merkleblock.cpp:150-181 | for arbitrary received bits and hashes: if the result is the Merkle root of the block for the same transaction count, every extracted hash is the transaction at its extracted index |
| PartialMerkle.SubtreeCompleteness | src/merkleblock.cpp:78-132 | an honestly written subtree is read back, consuming exactly its bits and hashes |
| PartialMerkle.Completeness | src/merkleblock.cpp:134-181 | building and extracting, with up to seven padding bits, returns the Merkle root of the block and exactly the selected transactions in order |
| PartialMerkle.NodesDiffer | src/merkleblock.cpp:121-125 | different nodes of a level have different hashes when the txids differ, so the duplicate test never rejects an honest proof |
| PartialMerkle.EncodedHashes | src/merkleblock.h:38-40 | at most as many hashes as transactions, and at most one plus the height per match |
| PartialMerkle.FlagBitCount | src/merkleblock.h:47-47 | the exact number of flag bits: the documented 2*N-1 bound for N hashes holds exactly when no traversed inner node has a single child |
| PartialMerkle.FlagBitsExceedComment | src/merkleblock.h:47-47 | three transactions with the last one selected exceed the documented bound |
| PartialMerkle.PackBits | src/merkleblock.h:100-103 | bits to bytes, least significant first, zero padded |
| PartialMerkle.UnpackBits | src/merkleblock.h:93-98 | bytes to bits, a multiple of eight of them |
| PartialMerkle.BitWeights | src/merkleblock.h:100-102 | the first flag of a byte is its lowest bit |
| PartialMerkle.SendAndReceive | src/merkleblock.cpp:78-181 | a proof sent as bytes and received gives the root and exactly the selected transactions |
| Merkle.MerkleComputation | src/consensus/merkle.cpp:46-131 | the constant-space calculator returns the root of the list, where neighbours are hashed together and an odd last one with itself until one is left; the flag for equal complete neighbours; and the branch of a leaf |
| Merkle.AddLeaf | src/consensus/merkle.cpp:64-93 | after each leaf, every one bit of the count has its last complete node; the branch reaches up to the node with the leaf, and the flag tells of all complete pairs so far |
| Merkle.Sweep | src/consensus/merkle.cpp:94-127 | the sweep over the right edge ends with the root and a branch of full height, and its count stays below 2^height |
| Merkle.ComputeMerkleRoot | src/consensus/merkle.cpp:133-137 | the root and the flag |
| Merkle.ComputeMerkleBranch | src/consensus/merkle.cpp:139-143 | a branch of full height that leads from the leaf to the root |
| Merkle.ComputeMerkleRootFromBranch | src/consensus/merkle.cpp:145-156 | the loop hashes a leaf up along a branch |
| Merkle.BranchLeadsToRoot | src/consensus/merkle.cpp:139-156 | the branch of a leaf in a full tree leads to its root |
| Merkle.TwinsAreFound | src/consensus/merkle.cpp:36-43 | without collisions the flag, which looks at complete pairs only, is set whenever any two neighbours are equal |
| Merkle.RootIsBinding | src/consensus/merkle.cpp:9-43 | two lists of the same height for which the flag is not set have the same root if and only if they are equal |
| Merkle.RepeatedLast | src/consensus/merkle.cpp:13-29 | without the flag they need not be: repeating an odd last leaf keeps the root, and sets the flag |
| Merkle.HeightMatters | src/consensus/merkle.cpp:9-43 | nor across heights: two leaves have the root of the single leaf that is their hash |
| Merkle.CountFits | src/consensus/merkle.cpp:45-45 | the count of the sweep fits 32 bits if and only if there are at most 2^31 leaves, not 2^32 as the comment says |
| AddrManState.SwapInv | src/addrman.cpp:93-111 | swapping two places of the random order keeps the invariant |
| AddrManState.DeleteInv | src/addrman.cpp:113-125 | deleting an unreferenced entry keeps it |
| AddrManState.UnlinkInv | src/addrman.cpp:127-140 | clearing a slot of the new table keeps reference counts equal to slot counts |
| AddrManState.LinkInv | src/addrman.cpp:302-305 | filling a slot of the new table keeps it |
| AddrManState.EvictInv | src/addrman.cpp:163-181 | moving an entry out of the tried table keeps it |
| AddrManState.PromoteInv | src/addrman.cpp:183-188 | moving an entry into the tried table keeps it |
| AddrManState.InvImpliesCheck | src/addrman.cpp:385-459 | a state that satisfies the invariant passes Check_ if and only if the key is not null |
| AddrManState.TerribleRules | src/addrman.cpp:33-51 | when an entry is of bad quality, in seconds and counts |
| AddrMan.AddrMan.SwapRandom | src/addrman.cpp:93-111 | exchanges two places, in the order and in the entries |
| AddrMan.AddrMan.Delete | src/addrman.cpp:113-125 | removes an entry from all five structures, and nothing else |
| AddrMan.AddrMan.ClearNew | src/addrman.cpp:127-140 | empties one slot; its entry has one reference less and is deleted with its last one; no entry appears and no other one changes |
| AddrMan.AddrMan.MakeTried | src/addrman.cpp:142-188 | the whole new contents of both tables: the entry leaves all its new slots and takes its hashed tried slot; the entry that held it takes its own slot of the new table and is otherwise unchanged, and the one in its way there, never a tried one, loses a reference; no other entry appears or changes |
| AddrMan.AddrMan.EvictFrom | src/addrman.cpp:163-181 | the same for the eviction: the entry of the tried slot returns to the new table, where it may replace only an untried one |
| AddrMan.AddrMan.FindBucket | src/addrman.cpp:219-234 | the search from a random start always finds a bucket that holds an untried entry |
| AddrMan.AddrMan.Good | src/addrman.cpp:190-240 | the entry of a known address ends up tried, with exactly its times and attempts changed; both tables change as in MakeTried if it was not tried yet and not at all otherwise; an unknown address changes nothing |
| AddrMan.AddrMan.Create | src/addrman.cpp:81-91 | a fresh id, with an entry that is complete except for its slot |
| AddrMan.AddrMan.StochasticTest | src/addrman.cpp:278-283 | one number of 2^nRefCount equally likely ones passes, so an entry without references always does |
| AddrMan.AddrMan.Refresh | src/addrman.cpp:256-283 | the whole new state: time by the update rule, services accumulated; goes on if and only if the announcement is newer, the entry untried and with room for a reference, and the drawn number is zero |
| AddrMan.AddrMan.RefreshRules | src/addrman.cpp:256-267 | a known time is replaced only if it lags by more than an hour, or a day for a peer not seen within one; services accumulate |
| AddrMan.AddrMan.Place | src/addrman.cpp:291-311 | over the hashed slot: if it is free, or holds a terrible entry, or one with other references while the new one has none, the entry takes it and has one more reference, and what was there loses one; if it holds the entry, nothing changes; otherwise the slot stays, and the entry is gone exactly if it had no reference |
| AddrMan.AddrMan.Add | src/addrman.cpp:242-313 | reports exactly the new routable addresses; a new address is listed if and only if its slot yields to it, and then has exactly the announced data, that slot and one reference; a known one has exactly the refreshed data, and one more slot if and only if there is news, the drawn number is zero and the slot yields; otherwise the tables stay, and all other entries are unchanged but for one untried one that loses a reference |
| AddrMan.AddrMan.Attempt | src/addrman.cpp:315-335 | the whole new state: last try, and one counted failure between two successes to anyone |
| AddrMan.AddrMan.Connected | src/addrman.cpp:483-501 | the whole new state: only a time older than twenty minutes is refreshed |
| AddrMan.AddrMan.SetServices | src/addrman.cpp:503-519 | the whole new state: the services of the matching entry |
| AddrMan.AddrMan.GetAddr | src/addrman.cpp:462-481 | distinct entries of good quality within both limits, and all of them unless the limit is reached; only the random order changes |
| AddrMan.Run | src/addrman.cpp:81-519 | from a fresh manager every sequence of operations ends in a state that passes Check_ if and only if the key is not null |
| AddrManStore.Collect | src/addrman.h:314-333 | numbers the entries of one table without gaps or repetitions |
| AddrManStore.ListBucket | src/addrman.h:334-347 | lists exactly the numbers of the entries in a bucket |
| AddrManStore.Serialize | src/addrman.h:301-348 | the written form describes the manager: all entries of both tables and all bucket contents |
| AddrManStore.Unserialize | src/addrman.h:351-454 | counts above the capacity of the tables are refused, and only they; reading what describes a consistent manager restores it and loses no entry |
| AddrManStore.TriedSlotIsFree | src/addrman.h:401-417 | no tried entry of a consistent manager finds its slot taken |
| AddrManStore.SlotIsFree | src/addrman.h:421-436 | no listed entry of a consistent manager finds its slot taken or its references used up |
| AddrManStore.NothingLost | src/addrman.h:438-448 | the final pruning finds nothing to delete |
| AddrManStore.WithinLimits | src/addrman.h:371-377 | a consistent manager is never refused for its counts |
| AddrManStore.RestoredIsConsistent | src/addrman.cpp:385-459 | what was restored satisfies the whole invariant, so it passes Check_ unless the key is null |
| AddrManStore.SaveAndLoad | src/addrman.h:301-454 | both tables, reference counts, entries and the address index come back up to a renumbering of ids |
| Mempool.AncestorCountsLess | src/miner.h:88-98 | an ancestor has a smaller ancestor count |
| BlockAssembly.AdjustDescendants | src/miner.cpp:364-381 | exactly the descendants outside the batch are adjusted, each by the included transaction |
| BlockAssembly.AdjustDated | src/miner.cpp:364-381 | every entry of the side index, also one inserted again after a failure, holds the totals of its package without a non-empty set of its included ancestors |
| BlockAssembly.DatedCovers | src/miner.cpp:367-380 | such totals never understate the size or signature operations that the package still needs |
| BlockAssembly.AdjustExact | src/miner.cpp:367-380 | for an entry that never failed, that set is all its included ancestors |
| BlockAssembly.FeeDrift | src/miner.h:124-129 | the fees of an entry are off by the fee adjustments of all its deducted ancestors but the first, so they are right if and only if these cancel out |
| BlockAssembly.NoDriftWithoutDeltas | src/miner.h:124-129 | without adjustments the fees of every entry are right |
| BlockAssembly.SecondDeductionDrifts | src/miner.cpp:372-379 | a concrete pool and run: after two parents went in, the fees kept for their child are off by the adjustment of the second one |
| BlockAssembly.UpdatePackagesForAdded | src/miner.cpp:360-385 | the index stays truthful for the block after the batch: indexed entries have lost an ancestor to it and hold dated totals, the rest have exact totals in the pool |
| BlockAssembly.SortForBlock | src/miner.cpp:404-413 | a permutation without repetitions, by ancestor count |
| BlockAssembly.SortedPackageIsOrdered | src/miner.cpp:406-409 | in that order every transaction follows its ancestors |
| BlockAssembly.BlockAssembler.constructor | src/miner.cpp:78-130 | the limits are clamped to the allowed range, and the empty block satisfies the invariant |
| BlockAssembly.BlockAssembler.ResetBlock | src/miner.cpp:115-131 | empties the block, whatever it held |
| BlockAssembly.BlockAssembler.AddToBlock | src/miner.cpp:334-346 | appending a transaction whose ancestors are in keeps order, uniqueness and all counters |
| BlockAssembly.BlockAssembler.IsStillDependent | src/miner.cpp:224-233 | true exactly when a parent is missing |
| BlockAssembly.BlockAssembler.TestForBlock | src/miner.cpp:282-332 | passes exactly when weight, size and signature operations stay below their limits and the transaction is final; calls the block finished and counts failures exactly at the given distances from the limits |
| BlockAssembly.BlockAssembler.AddPriorityTxs | src/miner.cpp:555-635 | terminates for every order, never meets a transaction that is in the block already, and ends for a stated reason: it is disabled, exactly for size zero; the block is nearly full; the last transaction, and no earlier one, used up the priority size or may not go in for free; or every transaction left misses a parent, has a witness that is not allowed, or does not fit |
| BlockAssembly.BlockAssembler.ConsiderSingle | src/miner.cpp:593-632 | one round: the candidate goes in, waits for a parent, or is out for good; children of what went in are queued again |
| BlockAssembly.BlockAssembler.TestPackageTransactions | src/miner.cpp:263-280 | passes exactly when all are final, allowed to have a witness if they do, and fit the size together |
| BlockAssembly.BlockAssembler.AddPackage | src/miner.cpp:538-546 | adds a transaction with its missing ancestors in a valid order, within all limits, and removes them from the index |
| BlockAssembly.BlockAssembler.PickPackage | src/miner.cpp:455-492 | the chosen package is not in the block, and its totals, possibly dated, cover what is missing; they are up to date unless it failed before |
| BlockAssembly.BlockAssembler.TryPackage | src/miner.cpp:499-551 | a package goes in exactly when its totals and its transactions pass, and then the index accounts for it |
| BlockAssembly.BlockAssembler.ExactTotalsDecide | src/miner.cpp:499-533 | with up-to-date totals the tests pass if and only if the package fits |
| BlockAssembly.BlockAssembler.FailedIsRefused | src/miner.cpp:499-533 | a package that fails the tests does not fit, or it failed before and its totals miss the deduction of an included ancestor |
| BlockAssembly.BlockAssembler.AddSettled | src/miner.cpp:535-551 | a refused package stays refused after another one went in, unless the index takes it up again |
| BlockAssembly.BlockAssembler.Skip | src/miner.cpp:449-453 | passing over an indexed, included or failed candidate misses nothing |
| BlockAssembly.BlockAssembler.ConsiderPackage | src/miner.cpp:455-551 | one round keeps all this: it adds the package, or ends the selection, or makes progress towards its end |
| BlockAssembly.BlockAssembler.AddPackageTxs | src/miner.cpp:425-553 | terminates for every choice of the next package and keeps order, uniqueness and limits; the assertion that the choice is not in the block holds. It ends for one of three reasons: every transaction left does not fit, or it did not fit into an earlier part of the block, lost at least two ancestors to the block and is refused by totals without some of these deductions; or a package is left whose dated totals pay less than the minimum; or the block is within 4000 of its weight limit |
| BlockAssembly.BlockAssembler.CreateNewBlock | src/miner.cpp:132-201 | after any earlier use, the assembled block is ordered, without repetitions, ancestor-closed and, once anything is added, below 3996000 in weight and 80000 signature operations; it starts with what the selection by priority put in, which ended for one of its reasons, and the selection by packages ended for one of its own; the recorded fees sum to zero |
| BlockAssembly.BlockAssembler.NothingFits | src/miner.cpp:425-553 | when the candidates ran out, no transaction fits that has at most one ancestor in the pool, or only ancestors that weigh four times their size |
| BlockAssembly.BlockAssembler.FitsBefore | src/miner.cpp:387-395 | with such ancestors the comment is right that what failed is bound to fail again: a package that fits now fitted every earlier part of the block |
| BlockAssembly.BlockAssembler.FailsAgainExactly | src/miner.cpp:387-395 | and only with such: when a part of a package goes in, the rest fails again wherever the whole failed for its weight if and only if every transaction of that part weighs four times its size |
| BlockAssembly.OutdatedTotalsRefuse | src/miner.cpp:387-395 | a concrete pool and run: a child of two parents fails, loses its second parent to the block, and is refused with the first one counted again although it fits |
| ArithUint256.Uint256.AddAssign | src/arith_uint256.h:135-145 | addition modulo 2^256, also when both operands are the same object; no 64-bit sum wraps |
| ArithUint256.Uint256.Complement | src/arith_uint256.h:69-75 | 2^256 - 1 minus the number |
| ArithUint256.Uint256.Increment | src/arith_uint256.h:173-180 | plus one modulo 2^256 |
| ArithUint256.Uint256.Negate | src/arith_uint256.h:77-84 | the negation modulo 2^256 |
| ArithUint256.Uint256.SubAssign | src/arith_uint256.h:147-151 | subtraction modulo 2^256 |
| ArithUint256.Uint256.MulWordAssign | src/arith_uint256.cpp:55-65 | multiplication by a word modulo 2^256; no 64-bit product wraps |
| ArithUint256.Uint256.MulAssign | src/arith_uint256.cpp:67-81 | the product modulo 2^256 when the operands are different objects, and zero when they are the same |
| ArithUint256.Uint256.CompareTo | src/arith_uint256.cpp:109-119 | the order of the numbers |
| ArithUint256.Uint256.ShiftLeftAssign | src/arith_uint256.cpp:21-36 | multiplication by a power of two modulo 2^256, for every shift |
| ArithUint256.Uint256.ShiftRightAssign | src/arith_uint256.cpp:38-53 | floor division by a power of two, for every shift |
| ArithUint256.Uint256.Bits | src/arith_uint256.cpp:171-185 | the position of the highest bit plus one, zero for zero |
| ArithUint256.Uint256.DivAssign | src/arith_uint256.cpp:83-107 | the exact floor quotient for every non-zero divisor; for zero it fails with the number already cleared |
| Difficulty.SetCompact | src/arith_uint256.cpp:202-222 | the denoted number modulo 2^256; the overflow flag is set if and only if that number does not fit, the negative flag if and only if a non-zero mantissa has the sign |
| Difficulty.KnownCompacts | src/test/arith_uint256_tests.cpp:483-533 | the values of some compact numbers |
| Difficulty.GetCompact | src/arith_uint256.cpp:224-245 | the result denotes the number with its low bytes cut off; both assertions hold |
| Difficulty.RoundingLoss | src/arith_uint256.cpp:224-245 | compact rounding never raises a number and lowers it by less than a 2^-15 part |
| Difficulty.RoundingIsMonotone | src/arith_uint256.cpp:224-245 | a larger number rounds to no less |
| Difficulty.RoundingIsIdempotent | src/arith_uint256.cpp:204-245 | a rounded number survives the compact form |
| Difficulty.EqualTo | src/arith_uint256.cpp:121-133 | equality with a 64-bit number |
| Difficulty.GetBlockProof | src/chain.cpp:150-163 | floor(2^256 / (target + 1)) for every valid compact target and zero otherwise; nothing overflows and the divisor is never zero |
| Difficulty.ModulateTimespan | src/dogecoin.cpp:43-71 | the filtered and limited timespan lies between its two limits, for truncating division |
| Difficulty.FilterLaw | src/dogecoin.cpp:50-57 | eight seconds change the Digishield timespan by one, rounded toward the regular one, within a quarter below and a half above it |
| Difficulty.FilterIsExact | src/dogecoin.cpp:50-57 | multiples of eight seconds are divided exactly |
| Difficulty.LimitsBefore | src/dogecoin.cpp:58-67 | before Digishield the time itself, between 900, 1800 or 3600 seconds by height and 57600 |
| Difficulty.SlowBlock | src/dogecoin.cpp:43-86 | a block after two minutes raises the target by seven sixtieths |
| Difficulty.CalculateNextWork | src/dogecoin.cpp:41-87 | the limb computation yields the rounded 256-bit rule for all inputs |
| Difficulty.NoWrapExactly | src/dogecoin.cpp:73-82 | no product of an old target up to a limit with a filtered timespan wraps if and only if the limit times the largest timespan is below 2^256 |
| Difficulty.NothingWraps | src/dogecoin.cpp:73-86 | for old targets within a limit that leaves room for the largest timespan, the 256-bit rule is the unbounded one |
| Difficulty.NetworksDoNotWrap | src/chainparams.cpp:88-143 | so it never wraps with the parameters of the main and the test network |
| Difficulty.RegtestDoesNotWrap | src/chainparams.cpp:408-447 | nor with those of the regression test network, whose timespan is one |
| Difficulty.NextTargetIsMonotone | src/dogecoin.cpp:41-87 | the next target, also after rounding, never exceeds the limit and never falls when the timespan grows |
| Difficulty.DigishieldBounds | src/dogecoin.cpp:50-57 | under Digishield the next target is at least three quarters, rounded down, and at most three halves of the old one before rounding and cap |
| RollingBloom.WipedBit | src/bloom.cpp:257-265 | the word-wide masks clear a position exactly when its two bits spell the generation |
| RollingBloom.MarkStep | src/bloom.cpp:274-275 | writing a position sets its generation and changes no other |
| RollingBloom.WipeAgesKeys | src/bloom.cpp:251-266 | a new generation keeps every key of the two generations before it |
| RollingBloom.RollingBloomFilter.NextGeneration | src/bloom.cpp:251-266 | exactly the positions of the oldest generation are cleared, and all keys of the last two are still recorded |
| RollingBloom.RollingBloomFilter.Insert | src/bloom.cpp:249-277 | exactly the positions of the key get the current generation, after a wipe if one is due; the key and all keys of the current and the last two generations are recorded |
| RollingBloom.RollingBloomFilter.Contains | src/bloom.cpp:285-297 | true exactly when every position of the key is set; so for all keys within the window |
| RollingBloom.RollingBloomFilter.Reset | src/bloom.cpp:305-313 | clears every word and all counters |
| RollingBloom.InsertAllThenProbe | src/bloom.h:113-114 | after any sequence of inserts, each of the last nElements keys is found |
| Chain.LowestOneCleared | src/chain.cpp:99-100 | n & (n - 1) turns exactly the lowest one into a zero |
| Chain.SkipGoesBack | src/chain.cpp:102-111 | a skip height is strictly lower |
| Chain.SkipClearsOnes | src/chain.cpp:102-111 | which ones of the height are cleared: the lowest one, or for an odd height the two lowest ones above the last bit |
| Chain.BlockIndex.GetAncestor | src/chain.cpp:113-137 | following skip pointers finds what walking the predecessor links finds, for every height; the internal assertion holds |
| Chain.BlockIndex.BuildSkip | src/chain.cpp:144-148 | the skip pointer goes to the ancestor at the skip height |
| Chain.BlockIndex.AddToBlockIndex | src/validation.cpp:2832-2865 | the tree stays linked, with correct skip pointers |
| Chain.ActiveChain.SetTip | src/chain.cpp:41-51 | after any call every entry is the tip's ancestor at its height, despite the early exit of the loop |
| Chain.ActiveChain.FindFork | src/chain.cpp:81-90 | the highest block in common, and null exactly when there is none |
| Chain.ActiveChain.FindEarliestAtLeast | src/chain.cpp:92-97 | binary search on the running maximum finds the first block whose own time reaches the given one, if any |
| Chain.ActiveChain.GetLocator | src/chain.cpp:53-79 | ancestors from the start down to the first block, at heights that fall by one eleven times and then by powers of two; at most 41 for heights below 2^30, within the limit of 101, and the step does not overflow |
| Chain.LocatorSize | src/net.h:55-55 | the step doubles often enough for that bound |
| Base58.Alphabet | src/base58.cpp:18-19 | characters and digits correspond one to one, and no digit is a space |
| Base58.AlphabetOrder | src/base58.cpp:18-19 | the digits are the letters and numerals but for 0, O, I and l, in the order of their codes |
| Base58.EncodeRoom | src/base58.cpp:80-82 | 138 digits for 100 bytes, rounded up, always suffice |
| Base58.DecodeRoom | src/base58.cpp:33-35 | 733 bytes for 1000 digits, rounded up, always suffice |
| Base58.MulAdd | src/base58.cpp:42-51 | the in-place loop multiplies the buffer and adds a digit; given that the result fits, the carry that is left is zero |
| Base58.EncodeBase58 | src/base58.cpp:71-109 | ones for leading zero bytes, then the digits of the number; the assertion on the carry holds |
| Base58.DecodeBase58 | src/base58.cpp:21-69 | accepts one word of valid characters with spaces around it and returns zero bytes and the bytes of its number; the assertion on the carry holds |
| Base58.EncodeThenDecode | src/base58.cpp:21-109 | every byte string survives encoding and decoding |
| Base58.DecodeThenEncode | src/base58.cpp:21-109 | every accepted word is the encoding of what it decodes to |
| Base58.EncodeBase58Check | src/base58.cpp:121-128 | the encoding of the bytes with their checksum appended |
| Base58.DecodeBase58Check | src/base58.cpp:130-145 | decoding with the checksum test |
| Base58.CheckRoundTrip | src/base58.cpp:121-145 | every byte string survives with any checksum |
| Base58.OnlyCheckedWords | src/base58.cpp:130-145 | nothing is accepted but encodings with their checksum |
| Cuckoo.Cache.EpochCheck | src/cuckoocache.h:264-296 | leaves the flags alone, or ages all entries when the current epoch is full; both epochs stay within epoch_size + max(1, epoch_size/16), with room for one more entry |
| Cuckoo.Cache.CountUnused | src/cuckoocache.h:272-275 | counts the live entries of the current epoch |
| Cuckoo.Cache.AgeEntries | src/cuckoocache.h:281-285 | the current epoch becomes the previous one, which may now be discarded |
| Cuckoo.Cache.Insert | src/cuckoocache.h:368-416 | a present element is kept where it is; for an absent one the table loses exactly one element as a multiset, and unless that is the element itself it is in one of its slots; with a discardable slot after the epoch check, exactly such a slot is overwritten and all others are spared |
| Cuckoo.Cache.Place | src/cuckoocache.h:382-415 | the search conserves the elements and the epoch flags, every slot to be kept holds an element that hashes to it, and the new element is lost or in one of its slots |
| Cuckoo.Cache.SwapWith | src/cuckoocache.h:406-411 | the element in hand and the one in the slot change places, with their epoch flags |
| Cuckoo.NextLoc | src/cuckoocache.h:392-406 | the slot after the first occurrence of the last one, cyclically; at first the second slot, not the first as the comment says |
| Cuckoo.Cache.Contains | src/cuckoocache.h:443-453 | finds exactly what is in one of the element's slots, discardable or not |
| Cuckoo.EpochSizeIsExact | src/cuckoocache.h:324-325 | 45 percent is computed without 32-bit wrap-around if and only if there are at most 2^26 slots |
| Cuckoo.EpochsFit | src/cuckoocache.h:324-325 | up to there both epochs with their slack fit the table |
| Cuckoo.Run | src/cuckoocache.h:264-453 | after any run, slots to be kept hold elements that belong there, and live entries never exceed twice the epoch limit |
| AuxPow.CheckMerkleBranch | src/auxpow.cpp:189-206 | the loop computes the root of the recursive definition; index -1 gives null |
| AuxPow.SameRootCollides | src/auxpow.cpp:189-206 | two leaves at the same position of equally high branches with one root give two pairs with the same hash |
| AuxPow.LeafReachesRoot | src/auxpow.cpp:189-206 | the branch of a leaf in a full tree leads to its root |
| AuxPow.WidthDoesNotMatter | src/auxpow.cpp:172-187 | the slot is the same for every width of the intermediate results that holds it, so for 32 bits, 64 bits and no limit |
| AuxPow.GetExpectedIndex | src/auxpow.cpp:163-187 | the 32-bit code computes the unbounded rule |
| AuxPow.KnownSlots | src/auxpow.cpp:172-187 | the first slots of chain 98 in the largest tree |
| AuxPow.Search | src/auxpow.cpp:113-117 | the first occurrence of a pattern, or the end |
| AuxPow.CheckScript | src/auxpow.cpp:108-158 | accepts exactly the scripts that commit to the root, with the header only there or the root near the start, the right size and the right slot |
| AuxPow.Check | src/auxpow.cpp:80-161 | accepts exactly the proofs that satisfy all conditions |
| AuxPow.ScriptFixesCommitment | src/auxpow.cpp:122-130 | with the header, the script alone determines root, height and slot |
| AuxPow.OneBlockPerCoinbase | src/auxpow.cpp:80-161 | two different auxiliary blocks accepted for one coinbase script with the header and one chain give a hash collision |
| AuxPow.AcceptedIsCoinbase | src/auxpow.cpp:80-106 | what is accepted is the first transaction of the parent block, or there is a hash collision |
| AuxPow.AcceptedIsInSlot | src/auxpow.cpp:80-161 | of a tree that the script commits to, only the leaf in the slot of the chain is accepted, or there is a hash collision |
| AuxPow.HonestProof | src/auxpow.cpp:80-161 | a proof built from the parent block and a full chain tree is accepted if and only if the bytes of the root neither repeat the header nor start before their place |
| AuxPow.LegacyScriptCommitsTwice | src/auxpow.cpp:131-138 | without the header one script can commit to two roots |
| AuxPow.LegacyProofServesTwo | src/auxpow.cpp:80-161 | so one proof is accepted for two different blocks, whatever the hash |
| Compressor.WriteVarInt | src/serialize.h:316-331 | fills its buffer, which is large enough for the type, and writes the groups of seven bits with the offset of one per continuation |
| Compressor.ReadVarInt | src/serialize.h:333-345 | reads them modulo the width of the type, as the recursive definition does |
| Compressor.VarIntRoundTrip | src/serialize.h:316-345 | a number is read back and nothing more is consumed |
| Compressor.SignedRoundTrip | src/serialize.h:316-345 | for a signed 32-bit integer that holds if and only if it is not negative |
| Compressor.VarIntLength | src/serialize.h:319-319 | five bytes suffice for 32 bits and ten for 64 |
| Compressor.KnownVarInts | src/test/serialize_tests.cpp:208-218 | the bytes of some numbers |
| Compressor.CompressAmount64 | src/compressor.cpp:142-159 | the loop computes the compression modulo 2^64 |
| Compressor.DecompressAmount64 | src/compressor.cpp:161-185 | the loop computes the decompression modulo 2^64 |
| Compressor.AmountRoundTrip | src/compressor.cpp:142-185 | decompression inverts compression for every amount |
| Compressor.KnownAmounts | src/test/compress_tests.cpp:43-48 | the codes of some amounts |
| Compressor.EveryCodeIsAnAmount | src/compressor.cpp:142-185 | compression inverts decompression for every code |
| Compressor.AmountFits | src/compressor.cpp:142-159 | an amount in the money range compresses within 64 bits |
| Compressor.SpecialRoundTrip | src/compressor.cpp:48-131 | the special scripts are rebuilt from their number and 20 or 32 bytes |
| Compressor.SpecialNumbers | src/compressor.cpp:84-131 | what the six special numbers stand for, byte by byte |
| Compressor.ScriptRoundTrip | src/compressor.h:58-89 | every script up to the size limit survives, special or not |
| Compressor.OutRoundTrip | src/compressor.h:106-118 | an output in range survives in 64-bit arithmetic |
| Compressor.WriteTxOut | src/compressor.h:60-114 | the loops for amount and size write that form |
| Compressor.ReadTxOut | src/compressor.h:72-118 | and read it, malformed or not, as its definition says |
| CoinsCodec.CalcMaskSize | src/coins.cpp:17-33 | the size of the mask without trailing zero bytes, and the number of its bytes that are not zero |
| CoinsCodec.MaskRoundTrip | src/coins.h:197-207 | reading stops after exactly the written mask bytes |
| CoinsCodec.MaskWeights | src/coins.h:169-177 | which bit of a mask byte stands for which output |
| CoinsCodec.HeaderRoundTrip | src/coins.h:160-196 | the header code determines coinbase, the first two flags and the number of nonzero mask bytes |
| CoinsCodec.KnownHeaders | src/coins.h:160-166 | some header codes |
| CoinsCodec.CodeFits | src/coins.h:160-166 | the header code of storable coins fits 32 bits |
| CoinsCodec.SomeOutput | src/coins.h:162-162 | the assertion of the serializer holds for coins with an unspent output |
| CoinsCodec.Serialize | src/coins.h:157-183 | the loops write header, mask, outputs and height |
| CoinsCodec.Unserialize | src/coins.h:186-217 | the loops read them as the recursive definition does |
| CoinsCodec.CoinsRoundTrip | src/coins.h:157-217 | coins without trailing spent outputs, with amounts and scripts in range, come back unchanged and nothing more is consumed, if and only if version and height are not negative; 64-bit amounts and 32-bit sizes, codes and heights included |

## Left out

- AddrManStore.Serialize: states the stored form as a value, for version 1 and an unchanged number of buckets; other versions, the file and its checksum are not modelled.
- AddrManStore.Unserialize: updates a value of the five structures instead of an object in place; for malformed data only what the round trip needs is stated.
- AddrMan.AddrMan.Add: does not model the wrap-around of the 32-bit id counter.
- Coins.CoinsViewCache.ModifyNewCoins: the memory-usage accounting of the cache is not modelled.
- Cuckoo.Cache.Insert: the bit packing and the atomic access of the collection flags are not modelled, nor is `log2` in setup, whose result is a parameter.
- RollingBloom.RollingBloomFilter.Insert: the sizes computed with floating point are parameters; the false-positive rate is not modelled.
- BlockAssembly.BlockAssembler.CreateNewBlock: the fee-rate order is arbitrary, so a package that pays too little ends the selection without a claim about the others; the header, the coinbase transaction itself and the final validity test are not modelled; that the block is as profitable as possible is not claimed.
- Difficulty.CalculateNextWork: block times are given as their difference; the minimum-difficulty rules are not modelled.
- Merkle.MerkleComputation: leaves beyond 2^31, for which the 32-bit count wraps, are not modelled.
- CheckQueue.WaitTerminates: interruption of threads and the quit flag, which is never set, are not modelled.
- Random selection of an address (`Select_`) has no termination guarantee and is left out, like `GetChance`.
- Clearing a non-empty address manager, which keeps two of its maps, is left out; runs start from a fresh one.
- `CBloomFilter` (the BIP 37 filter) is left out: that it finds every inserted key is the rolling filter's law with a single generation that is never wiped.
- Compressor.ReadVarInt: a signed integer that overflows while it is read, which C++ leaves undefined, is taken to wrap.
- Public keys, signatures, SHA-256, SipHash and MurmurHash are abstract functions; that a valid public key is determined by its compressed form is assumed in `Compressor.ScriptRoundTrip`.
- Compact blocks depend on block and pool code outside these files.
- Databases, files, the network, RPC, the wallet, the user interface and logging are left out.
