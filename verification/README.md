# Verification of the node's consensus and data-structure code

A Dafny model of the parts of this Bitcoin-Core-0.10-derived node in which a fast,
mutable or concurrent form has to agree with a simple one, with proofs that it
does. `dafny verify dfyconfig.toml` checks all of it.

| files | what they model |
|---|---|
| `Coins`, `CoinsCache` | unspent outputs of a transaction; the stack of coins caches with DIRTY and FRESH flags, as a refinement of one plain map |
| `Undo`, `Redo`, `Ledger`, `Supply`, `ConnectBlocks` | connecting and disconnecting blocks and their undo data, which outputs are unspent, their total value, and the loops that do it on the layered cache |
| `SkipHeights`, `BlockTree` | the block index with its skip list, and how far the skips reach |
| `ChainSelection`, `ChainActivation`, `ChainRuns` | the candidate set, the activation of the best chain, and runs of any number of threads that do it |
| `CheckQueue` | the queue of script checks, as steps of any number of threads in any order |
| `PartialMerkle`, `MerkleSize` | partial Merkle trees (BIP 37, section "Partial Merkle branch format") and their size |
| `MerkleTree` | the Merkle root of a block and its flag for duplicated transactions |
| `AddrTables`, `AddrPicks`, `AddrCheck`, `AddrMan` | the address manager and its own consistency check |
| `Limbs`, `LimbShifts`, `LimbBits`, `ArithUint256`, `Compact` | 256-bit arithmetic on 32-bit limbs and the compact format of targets |
| `Numerals`, `Base58` | base58, with and without checksum |
| `CoinsCodec`, `CoinsRecord`, `CoinsStream` | the serialized form of a coins record |
| `NetMessages` | framing, sending and reassembling messages |
| `BlockAssembler`, `FullPool` | the selection of transactions for a new block, and what it must select |
| `Arithmetic`, `Sequences`, `Options` | shared lemmas and the option type |

Code that updates things in place is modelled by classes and loops and proved
against functions on values; what the code promises is then proved of those
functions. Hashes are functions without collisions where that matters
(`Collisionless`, `NoCollisions`, `Injective`), scripts are what `Rules` says of
them, and clocks, random numbers, priorities, disk errors, socket results and the
order of sets are arbitrary, so every result holds for all of them.

Where code and comments disagree, the model follows the code:

- The comment on partial Merkle trees allows 2N-1 flag bits and 10 + ceil(32.25 N)
  bytes. `DocumentedBoundFails` and `LargerThanPromised` exceed that, and
  `DocumentedBound` and `SizeBound` say exactly when it holds.
- `SelectTried` is meant to return the position of the entry with the oldest
  success among those it inspects. The entry has been swapped away from that
  position unless its random draw was zero: `PickedIffUnmoved`, `WrongPosition`.
- `x *= x` on a 256-bit number gives zero, because the product is accumulated in
  the operand: see `MulAssign`, which is exact for different operands.
- No amount is meant to be larger than `MAX_MONEY`. The subsidies of this chain add
  up to that at height 210001 and exceed it from the next block on: `CapIff`,
  `CapExceeded`.
- A coins record with a negative version is not recovered from the database:
  `RecoveredIff`. `DisconnectBlock` makes up for it, and `OutputsMatch` models that.
- `ActivateBestChain` is said to end in failure or with the best chain active. It
  tests the tip after giving up the lock, so a block that arrives between its last
  section and that test may be better: `ReturnsTooEarly` is such a run,
  `CoversIsBest` says exactly when the chain is still the best, and `ChainRuns.Run`
  what holds in any case.
- Setting `mutated` in `BuildMerkleTree` also happens for a tree with two equal
  halves, even if no shorter list of transactions has its root: `MutatedIff`.
- `Good_` accepts a time that is not positive, and `Attempt_` a negative one, and
  `Check_` then fails: `GoodAtTimeZero`. `TimelyIff` says which calls do that.
- Every integer is said to have exactly one variable-length encoding. Reading does
  not notice when a number is too large for its type: `SecondEncoding` is a second
  encoding of five, and `OneEncodingIff` says exactly when there is only one.
- Compressing an amount and back is right where both fit in 64 bits
  (`AmountRoundTrip64`, `AmountBijection`), which all money does, and not elsewhere:
  `AmountWraps`.
- The assembler ranks transactions by fee rate. A fee that its user has lowered
  below zero is divided as an unsigned number and ranks above every other:
  `NegativeFeeFirst`; `FeeRateIs` says what holds of all others.
- The examples of variable-length integers for 16511 and 65535 in serialize.h are
  not what the code writes: `VarExamples`.

The 110 steps that chain.cpp found in simulations for `GetAncestor` up to height
2^18 are right and cannot be improved: `DocumentedSteps`, `MaximumReached`.

## Model

| member | source | states |
|---|---|---|
| Coins.Coins.Cleanup | src/coins.h:110-116 | Exactly the spent outputs at the end are dropped, so the rest is a prefix that ends in an unspent output, and nothing else changes. |
| Coins.FromTxHolds | src/coins.h:87-93 | The record of a new transaction holds exactly its spendable outputs, each at its own place, with height, version and coinbase flag, and does not end in a spent output. |
| Coins.CleanPrunedIsEmpty | src/coins.cpp:120-127 | For a cleaned record the cheap test for an empty output vector is the test for being fully spent. |
| Undo.RestoreSpent | src/main.cpp:1400-1410 | Spending an output and padding and refilling the vector from its compact undo record gives the same record back, whether or not it was the last output. |
| Undo.RestoreOneInverts | src/main.cpp:1643-1664 | Restoring one input from its undo record is the inverse of spending it. |
| Undo.RestoreAllInverts | src/main.cpp:1638-1665 | Replaying all undo records of a transaction, last input first, restores every input, also when several inputs spend from one transaction. |
| Undo.SpendAllSucceeds | src/main.cpp:1400-1401 | Inputs that are all unspent and pairwise different can be spent one after the other, so the assertion in `UpdateCoins` never fires. |
| Undo.DisconnectTxInverts | src/main.cpp:1612-1665 | Undoing one transaction is the inverse of `UpdateCoins` if its txid was not there before, and nothing is reported unclean. |
| Undo.RemoveAdded | src/main.cpp:1620-1636 | The outputs found are those the transaction added, so removing them leaves the view as it was. |
| Undo.SpendAllSpends | src/main.cpp:1391-1412 | Spending only ever removes outputs, and removes each one an input refers to. |
| Undo.StaysSpent | src/main.cpp:1780-1823 | What a transaction of a block has spent stays spent while nobody makes that txid again. |
| Undo.NoRepeat | src/main.cpp:1753-1760 | A block that connects cannot hold the same transaction twice, because the inputs are gone the second time. |
| Undo.ConnectedTxidsDistinct | src/main.cpp:1753-1823 | All txids of a block that connects are different; it is not assumed. |
| Undo.ConnectTxsWf | src/main.cpp:1780-1823 | Connecting transactions keeps the view well formed and adds only their txids to it. |
| Undo.DisconnectTxsInverts | src/main.cpp:1612-1666 | The reverse loop over any number of transactions undoes the forward loop. |
| Undo.DisconnectInvertsConnect | src/main.cpp:1592-1677 | Disconnecting a connected block with its undo data gives back exactly the unspent outputs from before and keeps fClean true, for every block, including outputs made and fully spent inside it. |
| Redo.SpendAllRestored | src/main.cpp:1638-1665 | The other direction: spending again all inputs that were restored gives back the view and the undo records. |
| Redo.RedoTx | src/main.cpp:1612-1665 | Whenever a transaction is undone without anything unclean being found, adding it again gives back exactly the unspent outputs and undo records; needs all the tests for uncleanness. |
| Redo.RedoBlock | src/main.cpp:1592-1677 | The same for the transactions of a block: what passes as clean is the inverse of adding them. |
| Undo.DeferredChecks | src/main.cpp:1809-1834 | Leaving all scripts of a block to other threads and waiting for them at the end accepts the same blocks, with the same view and undo data, as checking them at once. |
| Ledger.UnspentIff | src/main.cpp:1780-1823 | After any transactions that connect, an output is unspent exactly if it was before or one of them makes it, and none of them spends it; what was there keeps its contents, height and coinbase flag. |
| Ledger.NewIs | src/main.cpp:1391-1416 | What is new and not spent has the declared contents, the height of the block, and the coinbase flag of its transaction. |
| Ledger.SigOpsWithin | src/main.cpp:1785-1805 | The signature operations of transactions that connect stay within the limit. |
| Ledger.ChainUnspentIff | src/main.cpp:1986-2093 | The unspent outputs of a chain are those that some block makes and no block from there on spends, and each record has the height of that block. |
| Ledger.UnspentInRuns | src/main.cpp:1986-2093 | So in every run of connects and disconnects, for the active chain. |
| Ledger.NotYetSpent | src/main.cpp:1456-1461 | No transaction of a block spends a coinbase output made less than 100 blocks below it, or in the block itself. |
| Ledger.CoinbaseWaits | src/main.cpp:1456-1461 | On every chain a coinbase output is unspent until there are 100 blocks on top of it. |
| Ledger.MaturityInRuns | src/main.cpp:1456-1461 | So in every run of connects and disconnects. |
| Supply.SpendAllTotal | src/main.cpp:1391-1412 | Spending distinct inputs takes exactly their value out of the total of unspent outputs. |
| Supply.ConnectTxsTotal | src/main.cpp:1780-1823 | Nothing is lost: total value after the loop, fees, and what outputs that nobody can spend burn are exactly the total before plus the coinbase outputs. |
| Supply.ConnectsIffWithinSubsidy | src/main.cpp:1827-1831 | Of the blocks whose transactions connect, exactly those are accepted that create no more than their subsidy, counting what they burn; said without mentioning fees. |
| Supply.ConnectBlockTotal | src/main.cpp:1827-1831 | A block adds at most its subsidy, less what it burns, to the total of unspent outputs; needs the checks on duplicate inputs, on value in and out, and on the coinbase amount together. |
| Supply.SubsidySumCommitted | src/main.cpp:1228-1242 | What has been paid plus what this and all later eras could still pay never exceeds the first commitment. |
| Supply.SubsidySumBelowLimit | src/main.cpp:1228-1242 | The subsidies of any number of blocks stay below twice the first subsidy times the halving interval. |
| Supply.HalvingLaw | src/main.cpp:1228-1242 | 210000 blocks later the subsidy is half of what it was, at every height. |
| Supply.SubsidyEnds | src/main.cpp:1228-1242 | It is paid in exactly 34 eras, so the cut-off after 64 changes nothing. |
| Supply.StepInv | src/main.cpp:1986-2093 | Connecting or disconnecting one block keeps the view equal to a replay of the active chain. |
| Supply.SupplyBound | src/main.cpp:1228-1242 | In every run of connects and disconnects from the empty view, total unspent value is at most the sum of the subsidies on the active chain, hence below the limit, and every tip can be disconnected. |
| Supply.CapIff | src/amount.h:20 | The subsidies of the first n blocks add up to at most `MAX_MONEY` exactly if n is at most 210001. |
| Supply.SupplyCap | src/amount.h:15-21 | In every run of connects and disconnects, total unspent value is at most `MAX_MONEY` while the active chain is no longer than that. |
| Supply.MinedTotal | src/main.cpp:1228-1242 | A chain of blocks that only pay their subsidy connects at every length, and its unspent value is the sum of the subsidies. |
| Supply.CapExceeded | src/amount.h:15-21 | Unspent value on that chain exceeds `MAX_MONEY` exactly if it is longer than 210001 blocks, so the bound on the length cannot be weakened. |
| Supply.FeesFromTotal | src/main.cpp:1807-1811 | Fees of transactions that connect, no coinbase among them, are exactly what they take out of the total of unspent outputs and do not burn. |
| Supply.RoomForNext | src/main.cpp:1827-1831 | Below that length, unspent value and the next subsidy together are an amount of money, in every reachable state. |
| Supply.ValueInBound | src/coins.cpp:191-202 | What a checked transaction spends is part of the total of unspent outputs. |
| Supply.FeesWithinSupply | src/main.cpp:1807-1811 | For every transaction the loop of `ConnectBlock` gets to, in every reachable state: the sum of fees so far, what the transaction spends, and the sum with its fee stay within 64 bits, also if `CheckInputs` refuses the transaction right afterwards. |
| CoinsCache.ObserveFill | src/coins.cpp:67-82 | Filling the cache from below changes nothing that can be observed. |
| CoinsCache.WrittenIsObserved | src/coins.cpp:139-173 | Writing down the dirty entries of a cache gives exactly what was observed through it. |
| CoinsCache.AbsorbObserved | src/coins.cpp:144-166 | Each of the four cases of a batch write acts on the observed contents like a plain write. |
| CoinsCache.BatchWriteStep | src/coins.cpp:141-170 | One round of a batch write; includes that an entry missing from the parent is FRESH, which is the assertion at line 150. |
| CoinsCache.Merge | src/coins.cpp:139-173 | The whole batch write loop, in any order of entries, with its assertion. |
| CoinsCache.CoinsViewDB.BatchWrite | src/txdb.cpp:46-63 | The database afterwards holds what the child observed. |
| CoinsCache.CoinsViewCache.constructor | src/coins.cpp:60 | A new cache shows what its parent shows. |
| CoinsCache.CoinsViewCache.FetchCoins | src/coins.cpp:67-82 | A read fills the cache and leaves the contents of this and every lower layer as they were; not found means absent. |
| CoinsCache.CoinsViewCache.AccessCoins | src/coins.cpp:111-118 | Finds the observed record. |
| CoinsCache.CoinsViewCache.HaveCoins | src/coins.cpp:120-127 | The test for an empty vector agrees with being in the observed map. |
| CoinsCache.CoinsViewCache.GetBestBlock | src/coins.cpp:129-133 | Reads through to the parent once, without changing any contents. |
| CoinsCache.CoinsViewCache.ModifyCoins | src/coins.cpp:93-109 | Hands out the observed record and changes nothing that can be observed yet. |
| CoinsCache.CoinsViewCache.EndModifier | src/coins.cpp:240-248 | Afterwards the observed map has the cleaned record, or no entry if it is fully spent. |
| CoinsCache.CoinsViewCache.BatchWrite | src/coins.cpp:139-173 | A layer that takes a child's entries shows what the child showed. |
| CoinsCache.CoinsViewCache.Flush | src/coins.cpp:175-179 | The parent's contents become the child's, through any stack of layers, and the child's stay the same. |
| CoinsCache.Base.GetCoins | src/coins.cpp:50-56 | A read through any number of layers gives the record in the map they stand for. |
| ConnectBlocks.CheckOutputs | src/main.cpp:833-847 | The loop accepts exactly if every amount and every partial sum is in range, and returns the sum. |
| ConnectBlocks.CheckDistinctInputs | src/main.cpp:849-857 | The loop accepts exactly if no two inputs are the same. |
| ConnectBlocks.CheckTransactionLoop | src/main.cpp:819-874 | Decides `CheckTransaction`, the serialized size included. |
| ConnectBlocks.CheckBlockLoop | src/main.cpp:2533-2565 | Decides the rules on a block's transactions and the limits on size and signature operations. |
| ConnectBlocks.CountSigOps | src/main.cpp:2555-2559 | Sums up the signature operations of all scripts by themselves. |
| ConnectBlocks.HaveInputsLoop | src/coins.cpp:204-216 | True exactly if all inputs are unspent, on the layered cache, whose contents do not change. |
| ConnectBlocks.GatherInputs | src/main.cpp:1450-1470 | Collects what the inputs spend and decides the maturity rule. |
| ConnectBlocks.AddSigOps | src/main.cpp:797-810 | Adds the signature operations that a transaction has together with the outputs it spends. |
| ConnectBlocks.CheckInputsLoop | src/main.cpp:1432-1532 | Decides `CheckInputs` and computes the fee. |
| ConnectBlocks.UpdateCoinsLoop | src/main.cpp:1391-1416 | The loop over the layered cache does what the function on the plain map does, undo records included. |
| ConnectBlocks.ConnectTxsLoop | src/main.cpp:1780-1823 | The transaction loop on the layered cache refines the loop on the plain map: same view, undo data, fees and signature operations, and it stops exactly where that one does. |
| ConnectBlocks.NoOverwriteLoop | src/main.cpp:1753-1760 | Decides the BIP30 rule. |
| ConnectBlocks.ConnectBlockLoop | src/main.cpp:1717-1865 | Accepts exactly the blocks that connect, and leaves their view and undo data; lower layers are untouched. |
| ConnectBlocks.RestoreInputs | src/main.cpp:1638-1665 | The reverse input loop, clean exactly if the replay on the plain map succeeds. |
| ConnectBlocks.DisconnectTxsLoop | src/main.cpp:1612-1666 | The reverse transaction loop on the layered cache. |
| ConnectBlocks.DisconnectBlockLoop | src/main.cpp:1592-1677 | Clean exactly if the replay on the plain map succeeds, and then with its view. |
| ConnectBlocks.ConnectTip | src/main.cpp:2051-2065 | A block is connected in a cache of its own and flushed only on success, so failure leaves the tip's view alone. |
| ConnectBlocks.DisconnectTip | src/main.cpp:1986-2001 | The same for disconnecting. |
| ConnectBlocks.ConnectThenDisconnect | src/main.cpp:1986-2093 | On the real structures: connecting a block and disconnecting it again leaves the coins view and its best block as they were. |
| BlockTree.Path | src/chain.cpp:75-97 | The branch of a block: one known block for every height from zero to its own, ending in it. |
| SkipHeights.InvertLowestOne | src/chain.cpp:61-62 | Never larger, and smaller for every number but zero. |
| SkipHeights.LowestOne | src/chain.cpp:61-62 | The bit cleared was a one with only zeros below it. |
| SkipHeights.GetSkipHeight | src/chain.cpp:64-73 | Always a strictly lower height. |
| SkipHeights.Walk | src/chain.cpp:83-94 | From x + 2^m + a, where x holds the bits that both heights have in common above the first at which they differ, the walk to any height below takes at most a number of steps given by m and the ones in a. |
| SkipHeights.StepsBound | src/chain.cpp:64-97 | Between heights of k bits the walk takes at most k^2/4 + 2k steps. |
| SkipHeights.DocumentedSteps | src/chain.cpp:68-71 | From any height up to 2^18 to any other at most 110 steps are taken. |
| SkipHeights.LongestWalk | src/chain.cpp:64-97 | Exactly how many steps lead from 2^(m+1) - 8 to height 2, for every m: they grow with the square of the number of bits, so no bound linear in it holds. |
| SkipHeights.MaximumReached | src/chain.cpp:68-71 | The 110 steps are reached. |
| BlockTree.GetAncestor | src/chain.cpp:75-97 | Following skip pointers gives the block that walking `pprev` down would give, for every tree and height, and NULL outside; it follows at most k^2/4 + 2k pointers from a height of k bits, and at most 110 from heights up to 2^18. |
| BlockTree.AddToBlockIndex | src/main.cpp:2338-2370 | The new node's skip pointer is right, no other branch changes, and its work is its parent's plus its own. |
| BlockTree.AddLeafSkips | src/chain.cpp:104-108 | `BuildSkip` keeps every skip pointer in the tree right. |
| BlockTree.KeptPrefix | src/chain.cpp:19-22 | If a chain agrees with a branch at one height it agrees at all lower ones, which is why `SetTip` may stop early. |
| BlockTree.CChain.SetTip | src/chain.cpp:13-23 | The vector is exactly the branch of the new tip. |
| BlockTree.CChain.FindFork | src/chain.cpp:53-59 | The last block that the branch and the active chain share, or NULL. |
| BlockTree.CChain.GetLocator | src/chain.cpp:25-51 | Blocks of one branch from its end to genesis, the first twelve one by one and the others in doubling steps, at most 12 plus the logarithm of the height of them. |
| BlockTree.LastCommonAncestor | src/main.cpp:387-404 | The highest block common to both branches; its assertion never fires. |
| ChainSelection.LinkedIffAllData | src/chain.h:127-130 | `nChainTx` is not zero exactly if the block and all its ancestors have data, whatever order it came in. |
| ChainSelection.ChainTxIsTotal | src/main.cpp:2397 | `nChainTx` is then the number of transactions on the branch. |
| ChainSelection.WaitingBlocks | src/main.cpp:2407-2411 | Every other block with data is in `mapBlocksUnlinked` under its parent, unless the parent has failed without data. |
| ChainSelection.LessTrans | src/main.cpp:86-105 | The comparator is transitive. |
| ChainSelection.LessIsPreferred | src/main.cpp:86-105 | Between blocks that have arrived the comparator decides by more work and, at equal work, by who was received first. |
| ChainSelection.Last | src/main.cpp:2104-2109 | The greatest candidate. |
| ChainSelection.MaxIsFirst | src/main.cpp:2104-2109 | The greatest candidate has the most work and, of those with as much, was received first. |
| ChainSelection.EraseWorse | src/main.cpp:2143-2146 | Erasing from the front drops exactly what is worse than the tip. |
| ChainSelection.FailKeeps | src/main.cpp:2122-2128 | Marking a block of an invalid branch and dropping it keeps the invariant. |
| ChainSelection.RejectKeeps | src/main.cpp:2690-2696 | So does rejecting a block before its data is stored. |
| ChainSelection.TipKeeps | src/main.cpp:1947-1948 | So does moving the tip to any valid linked block. |
| ChainSelection.PruneKeeps | src/main.cpp:2139-2149 | Pruning loses no block that could still become the best tip, and leaves a candidate. |
| ChainSelection.TopIsBest | src/main.cpp:2236-2237 | When the tip is the greatest candidate, it comes before every other eligible block: more work, or as much and received earlier. |
| ChainSelection.MaxIsBest | src/main.cpp:2095-2137 | The greatest candidate comes before every other fully linked block without a failed ancestor, pruned blocks included. |
| ChainSelection.TargetIsPreferred | src/main.cpp:2231-2239 | A valid tip is given up only for a block with more work, or with as much that was received earlier. |
| ChainSelection.LinkKeeps | src/main.cpp:2394-2406 | Linking a block and making it a candidate keeps marks just, loses no eligible block and leaves the tip valid. |
| ChainSelection.ArrivedKeeps | src/main.cpp:2375-2386 | So does storing the data of one block. |
| ChainSelection.ArrivedWaits | src/main.cpp:2407-2411 | A block whose parent is not linked waits in the right place. |
| ChainSelection.HeaderKeeps | src/main.cpp:2666-2667 | A new header keeps the invariant. |
| ChainActivation.ChainState.AcceptBlockHeader | src/main.cpp:2632-2673 | Exactly which headers are accepted, and their parent and work in the index. |
| ChainActivation.ChainState.AcceptBlock | src/main.cpp:2675-2718 | A block is stored exactly if its header is accepted and it was there already or passes its checks and can be written; it is marked failed exactly if it fails them, its data was not corrupted and its header is accepted; the tip and all other blocks stay as they were. |
| ChainActivation.ChainState.ReceivedBlockTransactions | src/main.cpp:2372-2414 | Links the block and, through a worklist that ends, all that waited for it; its sequence id is higher than all given out before. |
| ChainActivation.ChainState.LinkWaiting | src/main.cpp:2390-2406 | The worklist terminates and restores the invariant. |
| ChainActivation.ChainState.DropFailed | src/main.cpp:2118-2131 | Strictly fewer candidates are left, and every one dropped is marked failed. |
| ChainActivation.ChainState.FindMostWorkChain | src/main.cpp:2095-2137 | Returns the candidate with the most work that was received first, without a failed ancestor; the assertions at lines 2116 and 2117 hold; the loop ends. |
| ChainActivation.ChainState.PruneBlockIndexCandidates | src/main.cpp:2139-2149 | Keeps exactly the candidates not worse than the tip, and the assertion at line 2148 holds. |
| ChainActivation.ChainState.DisconnectTip | src/main.cpp:1985-2024 | The tip becomes its parent, or an error leaves it. |
| ChainActivation.ChainState.ConnectTip | src/main.cpp:2036-2093 | A valid block becomes the tip, an invalid one is marked and dropped, and one whose data is corrupted is left as it was; called only on a child of the tip (line 2037). |
| ChainActivation.ChainState.DisconnectTo | src/main.cpp:2161-2165 | Disconnects exactly down to the fork. |
| ChainActivation.ChainState.ConnectBatch | src/main.cpp:2184-2207 | One batch of up to 32 blocks, stopping at an invalid block or at more work than before. |
| ChainActivation.ChainState.NextBatch | src/main.cpp:2172-2182 | The next 32 blocks of the branch, or what is left of it, highest first. |
| ChainActivation.ChainState.ActivateBestChainStep | src/main.cpp:2151-2217 | Either a block is newly marked failed or the tip has more work than before or is the target, unless corrupted data was found. |
| ChainActivation.ChainState.ActivateSection | src/main.cpp:2231-2244 | One section under the lock: nothing to do only at the best tip, which stays; it fails only on a system error; otherwise it steps towards a block that comes before every linked block without a failed ancestor, the tip included, by more work or by having been received earlier, and the tip is that block or strictly closer, unless corrupted data was found. |
| ChainActivation.ChainState.ActivateBestChain | src/main.cpp:2224-2269 | Undisturbed by other threads it terminates, however often data turns out to be corrupted; it fails only on a system error, and success means that the tip comes before every other linked block without a failed ancestor, by more work or by having been received earlier. |
| ChainRuns.Run | src/main.cpp:2099-2269 | For every interleaving of arriving blocks, with any verdicts, and of any number of threads in `ActivateBestChain`, where blocks and other threads come between a thread's sections and its tests: the invariant holds throughout; the data present is what was accepted, and every block is stored or refused exactly as its header, its checks, the disk and the blocks before it say; a section fails only on a system error, and one that goes on marks a block or moves to more work; and a call returns true only when no branch that had fully arrived by the thread's last section, and is not marked failed, has more work than the active one. |
| ChainRuns.NumbersAreArrival | src/main.cpp:2382-2385 | In every state of every run, sequence ids are in the order in which blocks were stored. |
| ChainRuns.EarliestWins | src/main.cpp:2231-2239 | In every run, a section sets out only for a branch with more work than the active one, or with as much that was stored earlier, and of all usable branches with as much work as that one it was stored first. |
| ChainRuns.TestTip | src/main.cpp:2262-2269 | The test outside the lock: if the tip is the thread's target, it has at least the work of every branch that was usable after the thread's section. |
| ChainRuns.CoversIsBest | src/main.cpp:2224-2262 | On return the active branch is the best exactly if nothing usable that arrived since the thread's last section has more work; in particular if no data arrived. |
| ChainRuns.ChildBeats | src/main.cpp:2224-2262 | With a usable block on top of the tip the active branch is not the best. |
| ChainRuns.ReturnsTooEarly | src/main.cpp:2262-2269 | A run of four events in which `ActivateBestChain` returns true and the active branch is not the best: a block arrives between the last section and the test. |
| CheckQueue.TakeBatch | src/checkqueue.h:111-117 | The batch is the end of the queue, in reverse, and the rest stays. |
| CheckQueue.Execute | src/checkqueue.h:121-125 | The batch passes exactly if every check in it passes, or nothing has to be done any more. |
| CheckQueue.BatchSplits | src/checkqueue.h:105-117 | No check is lost or doubled when a batch is taken. |
| CheckQueue.BatchSize | src/checkqueue.h:105-110 | At least one check and at most what is queued. |
| CheckQueue.BatchShare | src/checkqueue.h:105-110 | The largest batch, of at most `nBatchSize`, that leaves as much for every other thread; but at least one. |
| CheckQueue.StepInv | src/checkqueue.h:69-158 | Every critical section of every thread, and every wake-up, keeps the invariant. |
| CheckQueue.StepEnabled | src/checkqueue.h:69-127 | Every thread in the pool can always take its next step. |
| CheckQueue.RunInv | src/checkqueue.h:69-158 | The invariant holds after every interleaving, for any number of workers. |
| CheckQueue.WaitIsRight | src/checkqueue.h:139-143 | Every `Wait` so far returned true exactly if all checks added in its round pass; nTodo is queued plus held checks; between rounds the controller's start assertions hold. |
| CheckQueue.NoDeadlock | src/checkqueue.h:83-104 | While the master waits someone can act: a sleeping master that was not notified leaves a worker holding a batch. |
| CheckQueue.WorkShrinks | src/checkqueue.h:79-86 | Finishing a batch strictly lowers nTodo. |
| PartialMerkle.NodeExists | src/merkleblock.h:65-68 | `CalcTreeWidth` counts exactly the nodes whose first leaf exists. |
| PartialMerkle.ExtractSound | src/merkleblock.cpp:75-109 | If the extracted hash of a node is the real one, every txid extracted below it is the one at the leaf where it was read. |
| PartialMerkle.BuildExtract | src/merkleblock.cpp:57-109 | Extracting what was built for any node gives its hash and its matched txids and uses up exactly its bits and hashes. |
| PartialMerkle.EncodedSize | src/merkleblock.cpp:57-73 | Bits are twice the hashes less one, plus one for each expanded node with an only child. |
| PartialMerkle.OnlyChildrenBound | src/merkleblock.cpp:70-71 | There is at most one such node per level. |
| PartialMerkle.DecodeSound | src/merkleblock.cpp:127-158 | For arbitrary bits and hashes: if the root is that of a list of the same length, the matches are txids of the list at increasing positions. |
| PartialMerkle.DecodeEncode | src/merkleblock.cpp:111-158 | Encoding, padding to bytes and decoding gives the root and exactly the matched txids in order. |
| PartialMerkle.NothingToSpare | src/merkleblock.cpp:148-156 | Nothing can be put behind what decodes: with one more hash, or another byte of bits, it does not. |
| PartialMerkle.TwinsRefused | src/merkleblock.cpp:96-102 | One transaction twice is not taken for a block of two, whatever is selected. |
| PartialMerkle.EncodeSize | src/merkleblock.h:38-48 | At most one hash per transaction, and at most 2N-1 bits plus the height of the tree. |
| PartialMerkle.DocumentedBound | src/merkleblock.h:47 | The documented 2N-1 bits suffice exactly if no match lies below an only child on the right edge. |
| PartialMerkle.DocumentedBoundFails | src/merkleblock.h:47 | Three transactions with the last one matched exceed the documented bound. |
| MerkleSize.HashesBound | src/merkleblock.h:36-40 | Both documented bounds on the number of hashes hold for all selections: the number of transactions, and one plus the matches times the height of the tree. |
| MerkleSize.HashesPerMatch | src/merkleblock.cpp:57-73 | The second of them below every node. |
| MerkleSize.OnlyChildCount | src/merkleblock.cpp:70-71 | The only children among expanded nodes are exactly the ends of levels of odd width with a match below them, one for each such level. |
| MerkleSize.SizeBound | src/merkleblock.h:31-48 | For as many transactions as `ExtractMatches` admits, the serialized tree has at most 10 + ceil(32.25 N) bytes exactly if it has fewer than 253 flag bytes, or the bits for only children fit into what is left of the last byte. |
| MerkleSize.LargerThanPromised | src/merkleblock.h:31-48 | With 1028 transactions, all of them matched, it has more. |
| PartialMerkle.PackBits | src/merkleblock.h:99-103 | Bit p becomes bit p mod 8 of byte p/8, padded with zeros. |
| PartialMerkle.UnpackBits | src/merkleblock.h:92-98 | The inverse, in whole bytes. |
| PartialMerkle.CalcTreeHeight | src/merkleblock.cpp:116-119 | Counts up to the height of the tree. |
| PartialMerkle.ParentOfMatch | src/merkleblock.cpp:58-61 | True exactly if a leaf below the node is matched, up to the end of the list. |
| PartialMerkle.CPartialMerkleTree.constructor | src/merkleblock.cpp:111-123 | Builds the encoding of the selection. |
| PartialMerkle.CPartialMerkleTree.TraverseAndBuild | src/merkleblock.cpp:57-73 | Appends exactly the bits and hashes of the subtree. |
| PartialMerkle.CPartialMerkleTree.TraverseAndExtract | src/merkleblock.cpp:75-109 | Does what the functional decoder does, counters and failure flag included. |
| PartialMerkle.CPartialMerkleTree.ExtractMatches | src/merkleblock.cpp:127-158 | Root and matches, or the null hash, in every case. |
| PartialMerkle.SendAndReceive | src/merkleblock.cpp:40-158 | Build, pack, send, unpack and extract: the receiver has the root and exactly the matched txids. |
| MerkleTree.BuildMerkleTree | src/primitives/block.cpp:104-127 | The loops over the vector of levels compute the root and the flag. |
| MerkleTree.PushLevel | src/primitives/block.cpp:111-121 | Appends the next level, and sees two equal digests at the end exactly if there are. |
| MerkleTree.RootDetermines | src/primitives/block.cpp:67-103 | Of all lists of transactions with one root, only one has no doubled end. |
| MerkleTree.Original | src/primitives/block.cpp:67-103 | Every list has a part at its start with the same root and without a doubled end, the list it was made from. |
| MerkleTree.MutatedIff | src/primitives/block.cpp:95-127 | The flag is set exactly if a shorter list has the same root, or the two halves of the tree are equal. |
| MerkleTree.CheckedRootDetermines | src/main.cpp:2516-2531 | Two lists that pass the check against one root are the same list: without hash collisions the check detects every change. |
| MerkleTree.CheckMerkleRoot | src/main.cpp:2516-2531 | Decides the Merkle part of `CheckBlock`. |
| MerkleTree.RootIsMerkleRoot | src/primitives/block.cpp:104-127 | Level by level the root is that of the recursive `CalcHash` which partial Merkle trees are checked against. |
| AddrTables.SwapAgrees | src/addrman.cpp:111-129 | Swapping two places of the random vector keeps all five indexes in agreement. |
| AddrTables.CreateAgrees | src/addrman.cpp:99-109 | A new entry leaves everything in agreement but for one reference counted and not placed. |
| AddrTables.PlaceAgrees | src/addrman.cpp:351-356 | Placing that reference restores full agreement. |
| AddrTables.DropAgrees | src/addrman.cpp:190-197 | Taking one of several references away keeps agreement. |
| AddrTables.DeleteAgrees | src/addrman.cpp:164-171 | So does forgetting an entry with its last reference. |
| AddrTables.MoveAgrees | src/addrman.cpp:206-225 | So does moving an entry from all its new buckets to a tried bucket with room. |
| AddrTables.ReplaceAgrees | src/addrman.cpp:227-254 | So does putting it in the place of a tried entry that goes back to a new bucket. |
| AddrPicks.FindTerrible | src/addrman.cpp:159-174 | Finds a terrible entry if there is one. |
| AddrPicks.FindOldest | src/addrman.cpp:176-188 | The one seen longest ago of those at the drawn places. |
| AddrPicks.ShuffleTried | src/addrman.cpp:131-152 | The bucket after the shuffle; the inspected entry with the oldest success; and the position returned, which is where that entry was before its swap. |
| AddrPicks.ShuffleKeeps | src/addrman.cpp:140-143 | The shuffle is a permutation of the bucket. |
| AddrPicks.PickedIffUnmoved | src/addrman.cpp:136-151 | The position returned holds the entry that was picked exactly if its own draw was zero. |
| AddrPicks.WrongPosition | src/addrman.cpp:136-151 | A bucket of two where the position returned is that of the entry with the later success. |
| AddrCheck.CheckEntries | src/addrman.cpp:431-455 | The first loop passes exactly if every entry does, and collects tried ids and reference counts. |
| AddrCheck.CheckTried | src/addrman.cpp:462-469 | Passes exactly if no id is in the tried buckets more often than it should be. |
| AddrCheck.CheckNew | src/addrman.cpp:471-479 | The same for the new buckets and reference counts. |
| AddrCheck.Check | src/addrman.cpp:423-487 | Returns 0 exactly if totals, entries, tried buckets and new buckets all agree. |
| AddrCheck.AgreesPasses | src/addrman.cpp:423-487 | Tables that agree pass the check exactly if the times in them are in order. |
| AddrMan.CAddrMan.constructor | src/addrman.h:394-402 | The empty tables agree. |
| AddrMan.CAddrMan.SwapRandom | src/addrman.cpp:111-129 | Swaps two places and the positions recorded for them. |
| AddrMan.CAddrMan.Evict | src/addrman.cpp:188-197 | One entry leaves one bucket with one reference less, and is forgotten with its last reference; all others stay as they are. |
| AddrMan.CAddrMan.ShrinkNew | src/addrman.cpp:154-200 | A terrible entry goes if there is one, otherwise the one seen longest ago of four; the tables agree even while a new reference is counted but not placed. |
| AddrMan.CAddrMan.SelectTried | src/addrman.cpp:131-152 | Shuffles the bucket and returns a position in it. |
| AddrMan.CAddrMan.MakeTried | src/addrman.cpp:202-255 | The entry goes to its tried bucket and nothing is forgotten: everybody stays if there is room, and otherwise exactly one of that bucket goes back to new; there is always room in the origin bucket. |
| AddrMan.FindBucket | src/addrman.cpp:282-292 | Finds a bucket that holds the id, from any starting point, if there is one. |
| AddrMan.CAddrMan.Good | src/addrman.cpp:257-303 | For every time: the entry for that address and port is tried afterwards, in its bucket, with its statistics reset; one other goes back to new exactly if that bucket was full, and the rest stay as they are; any other call changes nothing. The bail-out at line 296 is never taken. |
| AddrMan.CAddrMan.Refresh | src/addrman.cpp:314-341 | Exactly when a known entry takes the announced time, that services are joined, and exactly when it gets one more reference: the announcement is newer, the entry is not tried and has fewer than eight, and the draw is a multiple of two to the number it has. |
| AddrMan.CAddrMan.Create | src/addrman.cpp:99-109 | A new id in all indexes. |
| AddrMan.CAddrMan.Add | src/addrman.cpp:305-358 | True exactly for a routable address not known before; a routable address is known afterwards, a new one under the next id in its bucket with its time less the penalty and one reference, a known one as refreshed; tried entries are not disturbed; only a full bucket gives up an entry, one of its own that is terrible unless none is. |
| AddrMan.CAddrMan.Attempt | src/addrman.cpp:360-377 | Changes the last try and the number of attempts of the matching entry only. |
| AddrMan.CAddrMan.Connected | src/addrman.cpp:511-529 | Changes the time of the matching entry only, and only after 20 minutes. |
| AddrMan.CAddrMan.GetAddr | src/addrman.cpp:490-509 | At most 23% and at most 2500 addresses, none terrible and none twice; if fewer, everything that is not terrible. |
| AddrMan.TimeNeverBack | src/addrman.cpp:316-319 | An announcement without a negative penalty never sets a known time back, and moves it by more than an hour if at all. |
| AddrMan.GoodLasts | src/addrman.cpp:41-60 | After a success an entry becomes terrible exactly thirty days later, if nothing more is heard of it. |
| AddrMan.ThreeTries | src/addrman.cpp:41-60 | One that never succeeded becomes terrible exactly one minute after its third try. |
| AddrMan.TenFailures | src/addrman.cpp:41-60 | One that did succeed becomes terrible exactly with ten failures since, a week after the success and a minute after the last try. |
| AddrMan.TimelyIff | src/addrman.cpp:423-455 | The times in the table stay in order exactly if the call does not record a success at a time that is not positive or an attempt at a negative one for an entry that is there, which can be told before it. |
| AddrMan.Run | src/addrman.h:410-514 | For every sequence of calls from the empty table, with any times: each call changes the table as specified for it and returns what it should, the indexes agree and all bucket limits hold after it, and `Check_` then returns 0 exactly if all times are in order; it does so throughout exactly if every call was on time for the table it was made on. |
| AddrMan.GoodAtTimeZero | src/addrman.cpp:257-303 | A call of `Good_` with time zero, after which `Check_` fails that passed before. |
| ArithUint256.BaseUint.AddAssign | src/arith_uint256.h:135-145 | Addition modulo 2^256, also of a number to itself. |
| ArithUint256.BaseUint.Increment | src/arith_uint256.h:173-180 | One more modulo 2^256. |
| ArithUint256.BaseUint.Negate | src/arith_uint256.h:77-84 | The negative modulo 2^256. |
| ArithUint256.BaseUint.SubAssign | src/arith_uint256.h:147-151 | Subtraction modulo 2^256. |
| ArithUint256.BaseUint.MulAssign32 | src/arith_uint256.cpp:54-64 | Product with a 32-bit number modulo 2^256. |
| ArithUint256.BaseUint.AddRow | src/arith_uint256.cpp:72-77 | One row of the multiplication; what it loses is a multiple of 2^256. |
| ArithUint256.ProductFits | src/arith_uint256.cpp:74 | A product of limbs plus two limbs fits in 64 bits. |
| ArithUint256.BaseUint.MulAssign | src/arith_uint256.cpp:66-80 | Product modulo 2^256 for different operands, and zero when a number is multiplied by itself. |
| ArithUint256.BaseUint.ShiftLeft | src/arith_uint256.cpp:20-35 | Multiplication by a power of two modulo 2^256, for any shift. |
| ArithUint256.BaseUint.ShiftRight | src/arith_uint256.cpp:37-52 | Division by a power of two, for any shift. |
| ArithUint256.BaseUint.CompareTo | src/arith_uint256.cpp:108-118 | The order of the numbers. |
| ArithUint256.BaseUint.Bits | src/arith_uint256.cpp:170-183 | The position of the highest bit plus one, zero for zero. |
| ArithUint256.BaseUint.DivRound | src/arith_uint256.cpp:96-103 | One round of the division: the quotient gains a bit exactly if the shifted divisor fits. |
| ArithUint256.BaseUint.DivAssign | src/arith_uint256.cpp:82-106 | Quotient and remainder, also of a number by itself; an error exactly for a zero divisor, which leaves zero. |
| LimbShifts.LeftStep | src/arith_uint256.cpp:28-33 | One round of a shift to the left, with what falls off at the top. |
| LimbShifts.RightStep | src/arith_uint256.cpp:45-50 | One round of a shift to the right, with what falls off at the bottom. |
| LimbBits.TopBit | src/arith_uint256.cpp:174-180 | The highest bit of a limb. |
| LimbBits.ClearNext | src/arith_uint256.cpp:99 | Or-ing in a bit below all bits set so far adds its weight. |
| Limbs.OrDisjoint | src/arith_uint256.cpp:29-32 | Or of numbers without common bits is their sum. |
| Compact.OverflowIsRight | src/arith_uint256.cpp:216-219 | The overflow flag is set exactly if the number meant does not fit in 256 bits. |
| Compact.CompactAccuracy | src/arith_uint256.cpp:223-244 | The number read back is at most the original, by less than one unit of the last place kept. |
| Compact.Normalised | src/arith_uint256.cpp:233-238 | The mantissa of every number but zero is at least 0x8000. |
| Compact.CompactLeads | src/arith_uint256.cpp:223-244 | Mantissa and exponent are the highest digits of the number. |
| Compact.LeadsOnce | src/arith_uint256.cpp:223-244 | Only one normalised mantissa with one exponent is, so the encoding is determined. |
| Compact.CompactBest | src/arith_uint256.cpp:203-244 | No number with a compact form lies between what the encoding means and the number encoded. |
| Compact.CompactFlags | src/arith_uint256.cpp:233-242 | An encoding never overflows and is negative exactly if asked for and not zero. |
| Compact.CompactStable | src/arith_uint256.cpp:203-244 | Encoding again what was read back gives the same encoding. |
| Compact.CompactExamples | src/arith_uint256.h:270-273 | The two documented examples. |
| Compact.SetCompact | src/arith_uint256.cpp:203-221 | The number meant modulo 2^256, with both flags right. |
| Compact.GetCompact | src/arith_uint256.cpp:223-244 | The encoding, with both assertions: its mantissa and exponent are the highest digits of the number. |
| Compact.WriteThenRead | src/arith_uint256.cpp:203-244 | Both methods together: the largest number with a compact form that is not above the original, and no flag set. |
| Numerals.MulAdd | src/base58.cpp:78-88 | The carry loop: the numeral times a factor plus a digit, with what is carried out. |
| Numerals.LengthSuffices | src/base58.cpp:75-76 | A numeral fits into as many digits of another base as one comparison of powers says. |
| Base58.EncodeRoom | src/base58.cpp:75-76 | The 138/100 buffer holds every number of that many bytes. |
| Base58.DecodeRoom | src/base58.cpp:32-33 | The 733/1000 buffer holds every number of that many base58 digits. |
| Base58.ConvertLoop | src/base58.cpp:77-88 | The conversion loop of encoding: the buffer holds the number, and nothing is ever carried out of it, which is the assertion at line 86. |
| Base58.CopyResult | src/base58.cpp:89-99 | A buffer with the right number, stripped and put behind the zeros counted, is the same number with as many leading zeros; decoding ends the same way. |
| Base58.ConvertInverts | src/base58.cpp:21-100 | Converting to another base and back, with leading zeros kept, gives the same numeral. |
| Base58.EncodeBase58 | src/base58.cpp:67-100 | Computes the encoding. |
| Base58.ZerosAreOnes | src/base58.cpp:26-31 | The '1's skipped and counted are exactly the leading zeros of the word. |
| Base58.PushDigit | src/base58.cpp:39-47 | One more digit for a buffer sized by the string: nothing is carried out of it, so the assertion at line 47 holds for every string, also for one that is rejected later. |
| Base58.DecodeLoop | src/base58.cpp:34-49 | Reads and converts character by character up to the first space, and fails exactly on one that is not in the alphabet; the number in the buffer is that of the digits read. |
| Base58.DecodeBase58 | src/base58.cpp:21-65 | Computes the decoding, and rejects exactly what is not one word with spaces around it. |
| Base58.DecodeEncode | src/base58.cpp:21-105 | Every byte string is recovered from its encoding. |
| Base58.EncodeDecode | src/base58.cpp:21-105 | Every accepted string is, up to the spaces around it, the encoding of what it decodes to. |
| Base58.EncodeDecodeWord | src/base58.cpp:21-105 | Without spaces it is exactly that encoding. |
| Base58.CheckRoundTrip | src/base58.cpp:112-136 | With a checksum: every byte string is recovered. |
| Base58.CheckAccepts | src/base58.cpp:121-136 | With a checksum: whatever is accepted is the encoding of what it decodes to. |
| CoinsCodec.ReadWriteVar | src/serialize.h:294-323 | A number written is read back; of a negative one only seven bits are. |
| CoinsCodec.OneEncoding | src/serialize.h:265-270 | Without a limit on the type there is no redundancy: whatever is read as a number is the one encoding of it. |
| CoinsCodec.OneEncodingIff | src/serialize.h:265-270 | What is read into a type of any width is the one encoding of the number read exactly if the number encoded fits that type. |
| CoinsCodec.SecondEncoding | src/serialize.h:309-323 | Five bytes that are read into 32 bits as five, which is written as one byte. |
| CoinsCodec.ReadWriteInto | src/serialize.h:293-323 | A number written is read back into any type it fits, and seven bits of a negative one. |
| CoinsCodec.VarSizes | src/serialize.h:265-266 | Exactly which numbers take one, two and three bytes. |
| CoinsCodec.VarExamples | src/serialize.h:272-277 | The documented examples, with the two corrected that are not what the code writes. |
| CoinsCodec.AmountExamples | src/test/compress_tests.cpp:38-46 | The compressed form of a cent, a coin, fifty coins and the largest amount. |
| CoinsCodec.AmountRoundTrip | src/compressor.cpp:142-185 | Without a limit on the type every amount is recovered from its compressed form. |
| CoinsCodec.AmountRoundTrip64 | src/compressor.cpp:142-185 | In 64 bits it is, if its compressed form fits. |
| CoinsCodec.AmountBijection | src/compressor.cpp:142-185 | A number of 64 bits is the compressed form of an amount of 64 bits exactly if the amount it stands for fits, and is recovered from it then. |
| CoinsCodec.AmountWraps | src/compressor.cpp:142-185 | An amount and a compressed form of 64 bits that are not recovered. |
| CoinsCodec.AmountFits | src/compressor.cpp:142-159 | For an amount of money the compressed form fits in 64 bits. |
| CoinsCodec.ScriptRoundTrip | src/compressor.h:66-91 | A script is recovered, special cases included, exactly if its length plus six fits in 32 bits. |
| CoinsCodec.ScriptSizes | src/compressor.h:57-76 | The special scripts take 21 and 33 bytes, others their length and one or two bytes more. |
| CoinsCodec.OutRoundTrip | src/compressor.h:106-120 | So is every output with such a script and an amount whose compressed form fits in 64 bits. |
| CoinsCodec.MoneyFits | src/compressor.h:106-120 | Every output with an amount of money and a script no longer than a block is one. |
| CoinsRecord.MaskBack | src/coins.h:217-227 | Reading mask bytes until the given number of them is not zero stops exactly at the end of the mask. |
| CoinsRecord.MaskIsRight | src/coins.h:188-195 | The flags of the mask are those of the outputs from the third on, and beyond it everything is spent. |
| CoinsRecord.HeaderIsRight | src/coins.h:178-183 | The header code is not negative and tells the first two outputs and the byte count apart, in the N and the N-1 form; the assertion at line 182 holds. |
| CoinsRecord.SerializeRoundTrip | src/coins.h:176-237 | Reading a record that is not fully spent gives its cleaned form, with seven bits of a negative version. |
| CoinsRecord.RecoveredIff | src/coins.h:176-237 | A clean record is recovered exactly if its version is not negative. |
| CoinsRecord.RecordExample | src/coins.h:37-48 | The first of the documented records, for every address. |
| CoinsStream.CompressAmountLoop | src/compressor.cpp:142-159 | Computes the compressed amount in 64 bits. |
| CoinsStream.DecompressAmountLoop | src/compressor.cpp:161-185 | Computes the amount in 64 bits. |
| CoinsStream.CalcMaskSize | src/coins.cpp:11-32 | The number of mask bytes up to the last that is not zero, and how many are not. |
| CoinsStream.DataStream.WriteVarInt | src/serialize.h:293-307 | Appends the encoding. |
| CoinsStream.DataStream.ReadVarInt | src/serialize.h:310-323 | Reads it into a type of the given width, wrapping around where the code does, or fails at the end of the data. |
| CoinsStream.DataStream.WriteScriptCompressed | src/compressor.h:66-76 | Appends the compressed script. |
| CoinsStream.DataStream.ReadScriptCompressed | src/compressor.h:78-91 | Reads it, or fails. |
| CoinsStream.DataStream.ReadMaskBytes | src/coins.h:217-227 | The mask loop of reading. |
| CoinsStream.DataStream.ReadUnspent | src/coins.h:228-233 | The output loop of reading. |
| CoinsStream.DataStream.WriteCoins | src/coins.h:176-203 | Appends the serialized record. |
| CoinsStream.DataStream.ReadCoins | src/coins.h:205-237 | Reads one, or fails. |
| CoinsStream.WriteThenRead | src/coins.h:176-237 | Through a stream: the record comes back, up to a negative version. |
| NetMessages.FeedSplit | src/net.cpp:505-534 | What has been received depends on the bytes and not on how they were cut up. |
| NetMessages.ReadHeader | src/net.cpp:536-565 | Takes at least one byte and at most the header, and fails exactly on a size over the limit. |
| NetMessages.ReadData | src/net.cpp:567-581 | Takes at least one byte and at most the message; the buffer never exceeds the message. |
| NetMessages.CompleteBuffer | src/net.cpp:572-577 | The buffer of a complete message is exactly its payload. |
| NetMessages.CNode.ReceiveMsgBytes | src/net.cpp:505-534 | The same messages, partial message and failure as taking one byte at a time; every round takes a byte. |
| NetMessages.CNode.SocketSendData | src/net.cpp:592-633 | Bytes handed to the socket plus bytes pending stay all that was queued, however much the socket takes; all three assertions hold. |
| NetMessages.CNode.EndMessage | src/net.cpp:1986-2025 | Fills in size and checksum and queues one framed message; what was handed to the socket before stays. |
| NetMessages.AllArrive | src/net.cpp:505-581 | A stream of framed messages is received as those messages, in order and complete. |
| NetMessages.PrefixArrives | src/net.cpp:505-581 | Whatever part of a stream has been received, it is the first messages, complete and in order, and a part of the next one, together exactly those bytes. |
| NetMessages.Receive | src/net.cpp:505-534 | Any chunking of a stream, up to a refusal, gives the same result. |
| NetMessages.SendAndReceive | src/net.cpp:505-633 | For every interleaving of messages being queued, the socket taking some bytes and the other side receiving some of them: the receiver has the first messages, complete and in order, and a part of the next one, together exactly the bytes delivered, and all messages once all bytes are; every complete one passes the checksum test. |
| NetMessages.QueuedPass | src/main.cpp:4293-4304 | A message with its checksum filled in passes the test of the receiver. |
| BlockAssembler.CollectInputs | src/miner.cpp:158-197 | The in-pool parents of a transaction, its entry under each, and what its inputs are worth. |
| BlockAssembler.Collect | src/miner.cpp:147-216 | What is ready at once is queued, everything else waits for its parents and is listed under each, and every transaction that may be selected has its rank. |
| BlockAssembler.Top | src/miner.cpp:61-76 | The highest fee rate or the highest priority comes first, and of equals the higher other one. |
| BlockAssembler.Release | src/miner.cpp:298-313 | A transaction is queued when the last thing it waited for is selected, and only once, also if it is listed several times. |
| BlockAssembler.QueueNext | src/miner.cpp:298-313 | After each selection the queue holds, without repetition, exactly what has become ready. |
| BlockAssembler.TryTx | src/miner.cpp:237-290 | A transaction is selected exactly if it is not passed over as free, stays within the limits of size and signature operations, and connects on top of the ones before it; and exactly when the rest is sorted by fee. |
| BlockAssembler.Select | src/miner.cpp:218-314 | Terminates; everything whose parents were all selected has exactly one turn; each turn is that of the highest rank among those that are ready, and is used exactly if the transaction is not passed over as free, fits and connects; parents come first; nothing is selected and no output spent twice; the totals of size and signature operations are right and within the limits; the selection connects. |
| BlockAssembler.SelectedSpendOnce | src/miner.cpp:261-282 | No two selected transactions spend the same output: after the first it is gone, and nothing later makes it again. No assumption on hashes is needed. |
| BlockAssembler.LegacyCounted | src/main.cpp:1785-1805 | The count of signature operations of `ConnectBlock` covers that of `CheckBlock`. |
| BlockAssembler.FitsInBlock | src/miner.cpp:117-120 | What the assembler's limits leave is enough for the header and a coinbase of at most the size and signature operations set aside. |
| BlockAssembler.WithCoinbase | src/miner.cpp:320-324 | With the coinbase in front the same transactions connect with the same fees, and the signature operations of both add up. |
| BlockAssembler.SelectedFees | src/miner.cpp:284-294 | The fees selected are exactly what the transactions take out of the unspent value and do not burn. |
| BlockAssembler.FullRewardConnects | src/main.cpp:1827-1831 | With a coinbase in front, transactions that connect make a block that is accepted exactly if the coinbase pays at most the subsidy and what they take out of the unspent value and do not burn. |
| BlockAssembler.RewardExists | src/miner.cpp:320-324 | The fees selected come out of the unspent value, so if that and the subsidy are an amount of money the reward is one. |
| BlockAssembler.CreateNewBlock | src/miner.cpp:90-340 | With a coinbase no larger than what is set aside for it, the block made is accepted by `ConnectBlock`, limits included, exactly if its reward is an amount of money that can exist, and always if unspent value and the subsidy together are; the fees claimed are exactly what the transactions leave; every turn went as `Select` says; parents come before children, no output is spent twice, and size and signature operations stay below the limits. |
| BlockAssembler.NoDoubleSpend | src/main.cpp:1780-1823 | No output is spent twice, by one transaction or by two, in a block that connects. |
| FullPool.FeeRateIs | src/amount.cpp:10-16 | For amounts of money the fee rate is the fee for a thousand bytes. |
| FullPool.NegativeFeeFirst | src/amount.cpp:10-16 | A fee that was made negative has a higher rate than every other one of the same size. |
| FullPool.RateIsFee | src/miner.cpp:198-206 | At the turn of a transaction, the rate it is ranked by is that of the fee it pays, unless its user changed it: what its inputs were worth from the chain and the pool is what they are worth now. |
| FullPool.PayingIsTaken | src/miner.cpp:237-290 | At its turn, a transaction that pays the relay fee is selected exactly if there is room and it connects. |
| FullPool.FreeIsPassed | src/miner.cpp:247-253 | One that does not is passed over once the block is sorted by fee and large enough. |
| FullPool.PriorityArea | src/miner.cpp:255-263 | While the rest is not sorted by fee, all that was selected has a high priority and fits in the space set aside for that. |
| FullPool.SigOpsAdd | src/miner.cpp:268-293 | The signature operations counted are those of all selected transactions together with the outputs they spend. |
| FullPool.WholePool | src/miner.cpp:218-314 | A pool of transactions that are fine by themselves, without conflicts or circles, none of them free, that fits as a whole, is selected as a whole. |

## Left out

- Proof-of-work, retargeting and header times: a block's work is an arbitrary positive number, and header checks are a verdict that comes with the block.
- Script evaluation, signatures and hash functions: predicates and functions without a definition of their own.
- ConnectBlocks.CheckBlockLoop: without the header; the Merkle root is checked by `MerkleTree.CheckMerkleRoot`, on digests instead of transactions.
- ConnectBlocks.ConnectTxsLoop: how many signature operations a script has is a function without a definition.
- ConnectBlocks.ConnectBlockLoop: without the two historic blocks exempt from BIP30 and the genesis block, whose transactions are not connected; scripts are checked at once, which `Undo.DeferredChecks` shows to be the same, and the queue is modelled by itself.
- Undo and block files, their checksums, LevelDB and flushing to disk: reading and writing either succeeds or fails.
- `InvalidateBlock` and `ReconsiderBlock`, wallet and memory-pool callbacks during activation, and blocks read from disk at start-up.
- ChainActivation.ChainState.ActivateBestChain: one thread undisturbed, so the test at the end of its loop belongs to the section before it; `ChainRuns.Run` has the test by itself.
- ChainActivation.ChainState.ConnectTip: corrupted data is found any number of times, but not for ever.
- CoinsCache.CoinsViewCache.Flush: nothing changes a layer behind the back of a cache on top of it, as nothing does in the code.
- CheckQueue.RunInv: `fQuit` is never set, as in the code, so workers do not return.
- PartialMerkle.CPartialMerkleTree.constructor: needs at least one transaction, without which the code reads past the end of an empty vector; widths and heights are not limited to 32 bits.
- AddrMan.CAddrMan.Add: times are not limited to 32 bits.
- ChainActivation.ChainState.ReceivedBlockTransactions: sequence ids are not limited to 32 bits.
- Redo.RedoTx: for versions that are not negative, undo data as it is written, and views without outputs that nobody can spend, which older versions stored.
- `Select_`, `GetChance` and the file format of the address manager: floating point and a rebuild that does not enforce bucket sizes.
- ArithUint256.BaseUint.Increment: decrement, bitwise operators, conversion to floating point and hexadecimal add nothing new.
- ArithUint256.BaseUint.ShiftLeft: masks and shifts of single limbs are written as remainders, quotients and products.
- Base58.DecodeBase58: the string has no terminating zero inside; spaces are those of the C locale.
- CoinsRecord.SerializeRoundTrip: needs outputs that fit their types, with amounts that are not negative, and spent outputs as `SetNull` leaves them.
- CoinsStream.DataStream.ReadVarInt: into a signed type, a number of its highest bit or more has no defined result; here it wraps around as into an unsigned one.
- CoinsCodec.ScriptRoundTrip: relies on a law for public keys, that a valid key is recovered from its compressed form.
- NetMessages.CNode.EndMessage: the options that drop or change messages for debugging are not modelled, and nothing is aborted half-way.
- NetMessages.CNode.ReceiveMsgBytes: not called again after it has failed; the caller closes the connection.
- BlockAssembler.CreateNewBlock: the pool is consistent, as the code says it always is: checked transactions, none of them confirmed, with inputs from the chain or the pool.
- BlockAssembler.Select: the priority of each transaction is given and not computed, because it is floating point; sizes have 64 bits; an input that refers to no output counts nothing, where the code reads past the end.
- Limited maps, alerts, bloom filters, fee estimates, checkpoints, bans, RPC and the graphical interface: easier than what is here, or input and output.
