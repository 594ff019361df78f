# Qubitcoin verification

A Dafny model of the parts of Qubitcoin, a Rust port of Bitcoin Core, in which much state or much arithmetic has to agree with a simple rule, and proofs that it does.

- **Block index** (`Chain.dfy`, `ActiveChain.dfy`): the arena of block entries as a tree, the bit-twiddled skip list over it, median-time-past, and the vector that holds the active chain.
- **BIP9 deployments** (`VersionBits.dfy`, `VersionBitsHistory.dfy`, `VersionBitsSince.dfy`, `VersionBitsTransitions.dfy`, `VersionBitsSignals.dfy`, `VersionBitsStats.dfy`, `VersionBitsCache.dfy`): the "State transitions" section of BIP9 as a plain recursion, and the memoised walk the node runs instead. The caches are never observable, over every interleaving of block insertions, forks and queries.
- **UTXO cache** (`Transactions.dfy`, `Coins.dfy`, `CoinsRuns.dfy`, `CoinsViewCache.dfy`): a write-back cache with DIRTY and FRESH flags. `Coins` gives each critical section as a step, `CoinsRuns` proves whole runs equal to a plain map and gives the exact conditions under which steps of interleaved threads can do no harm, `CoinsViewCache` is the object.
- **MuHash** (`Limbs.dfy`, `Num3072.dfy`, `Modular.dfy`, `ModInversion.dfy`, `MuHash.dfy`): limb arithmetic modulo 2^3072 - 1103717 with the carry it drops, inversion by Fermat's theorem (itself proved), and the set hash as a quotient of products.
- **Difficulty** (`Compact.dfy`, `Pow.dfy`): compact targets and retargeting in wrapping 256-bit arithmetic.
- **Merkle root** (`Merkle.dfy`), **transaction codec** (`Codec.dfy`, `TxCodec.dfy`), **coin codec** (`CoinCodec.dfy`), **append-list index** (`IndexerKeys.dfy`, `Rollback.dfy`, `Indexing.dfy`) and **supply** (`Subsidy.dfy`).

`Wrappers.dfy` and `Arith.dfy` hold an option type and facts about products and remainders.

Code that changes things step by step is a method or a class here, and each such method is proved against a function or predicate that says what it is for. Loops over a hash map choose the next key arbitrarily, so the results hold for every order. Panics are results (`Panicked`), errors are values. A database's answer, hash functions and elliptic-curve point decompression are parameters.

## Where the code falls short of its promise

Each of these is a lemma for all inputs of the failing family, next to the exact condition under which the code is right.

- `mul_mod` drops the carry out of its second fold, which its comment calls impossible (muhash.rs:187). `Num3072.DroppedCarryHappens` gives reduced operands for which the result is wrong; `Num3072.MulValueCorrectIffNoCarry` is the exact condition. The statements about `mod_inverse` and `MuHash` are about runs in which no carry is dropped.
- `hash_to_num` tests for zero before it reduces, so an expansion equal to p still yields zero (`MuHash.ElementZeroIff`); such an element is not invertible.
- `add_coin` marks every entry it creates FRESH, whatever `possible_overwrite` says. Over an uncached coin of the base this loses track of that coin (`CoinsRuns.UnsafeAddResurrects`); `Coins.AddEffect` is the exact condition. `add_coins` with its check meets it in sequential runs (`CoinsRuns.CheckedRunIsSafe`). Check and add are two critical sections, though: if another thread uncaches the outpoint between them, the old coin comes back after a spend (`CoinsRuns.UncacheDuringCheckResurrects`).
- The locked half of `spend_coin` sees only the cache: if another thread uncaches the coin after the preceding fetch, the spend reports no coin and does nothing (`Coins.SpendEffect`).
- A flush that falls between a thread's base read and its insert lets a spent coin reappear (`CoinsRuns.FlushDuringReadResurrects`). `CoinsRuns.EnabledIffHarmless` gives the exact condition for every kind of step: no continuation made of steps that meet it breaks the cache if and only if the step meets it. For a flush, each coin a thread has read must still be the one shown, unless its place in the cache stays taken.
- `rollback_to_height` leaves key sets behind when it meets a height without one and switches to the scan; blocks without pairs and gaps between indexed heights produce such heights. A key set left behind is wrong unless empty (`Rollback.LeftBehindIsStale`, `Indexing.KeysetsRightIff`), and a later rollback that walks over it removes entries it must keep: `Indexing.StaleKeysetTakesEntry` is such a run from an empty store, `Indexing.RollbackRightIff` the exact condition for any store.
- The statistics of a deployment subtract its threshold from its period in unsigned arithmetic. With a threshold above the period the difference wraps where overflow checks are off, and `possible` is always set although the threshold cannot be reached (`VersionBitsStats.PossibleMeans`). No configured deployment is like that.
- A transaction with outputs and no inputs is encoded but does not come back (`TxCodec.TxRoundTripIff`).
- A coin of height 2^31 or more loses the top bit of its height (`CoinCodec.CoinRoundTripIff`).

Comments that disagree with the code, where the model follows the code: the retention cap is 1 GiB, not 512 MB (coins.rs:929-932); the skip pointer leads to the height `get_skip_height` returns, not that much below (chain.rs:863-867); the exponent's lowest limb subtracts 1103718, not 1103719 (muhash.rs:212-239).

## Model

| member | source | states |
|---|---|---|
| `Chain.GetAncestor` | crates/qubitcoin-common/src/chain.rs:898-929 | in an arena whose heights follow `prev` and whose skips are right, the walk ends and returns exactly the block reached by following `prev`; `None` exactly for an index outside the arena and a height that is negative or above the block |
| `Chain.AncestorOfAncestor` | crates/qubitcoin-common/src/chain.rs:898-929 | an ancestor of an ancestor is the ancestor looked up directly, at the height asked for: why a jump may replace steps |
| `Chain.GetSkipHeight` | crates/qubitcoin-common/src/chain.rs:869-888 | clearing low bits gives a height strictly below every positive height, so each jump goes down |
| `Chain.SkipHeightIs` | crates/qubitcoin-common/src/chain.rs:869-888 | from an even height the skip clears the lowest set bit; from an odd one it keeps the last bit and clears the two lowest of the others, where the lowest set bit is the greatest power of two that divides |
| `Chain.AppendBlock` | crates/qubitcoin-node/src/chainstate.rs:73-155 | a header that respects the median rule, inserted with the skip pointer that the lookup builds, leaves the arena well formed; every block with a parent gets a skip pointer |
| `Chain.GrownWellFormed` | crates/qubitcoin-node/src/chainstate.rs:142-155 | links, skips and times of all old blocks survive an insertion, forks included |
| `Chain.CollectMtpAncestors` | crates/qubitcoin-common/src/chain.rs:935-950 | the loop collects the times of the block and its ancestors, newest first, eleven at most |
| `Chain.WindowTimes` | crates/qubitcoin-common/src/chain.rs:935-950 | the window has as many times as asked for or as the branch has blocks, and entry j is the time of the j-th ancestor, the block itself first |
| `Chain.SortedIsPermutation` | crates/qubitcoin-common/src/chain.rs:439-450 | the sorted times are the collected times |
| `Chain.MedianByRank` | crates/qubitcoin-common/src/chain.rs:439-450 | the median is at least v exactly when at most half of the times are below v |
| `Chain.SlidingMedian` | crates/qubitcoin-common/src/chain.rs:439-450 | pushing a time not below the median into the window, with or without dropping the oldest, cannot lower the median |
| `Chain.MtpMonotone` | crates/qubitcoin-common/src/chain.rs:439-450 | median-time-past never falls along any branch when each header's time is at least its parent's median |
| `ActiveChain.ActiveChain.SetTipWith` | crates/qubitcoin-common/src/chain.rs:749-786 | with block 0 at height 0 and a linked old chain, the walk with its early stop leaves each height holding the tip's ancestor there; the padding is never mistaken for a match; a negative height empties the chain |
| `ActiveChain.EarlyStop` | crates/qubitcoin-common/src/chain.rs:771-774 | an entry that is already the tip's ancestor has only the tip's ancestors below it |
| `ActiveChain.LinkedIffBranch` | crates/qubitcoin-common/src/chain.rs:665-669 | a chain is linked by `prev` if and only if it is the branch of its last block |
| `ActiveChain.LinkedSurvivesGrowth` | crates/qubitcoin-common/src/chain.rs:665-669 | a linked chain stays linked while blocks are inserted |
| `ActiveChain.ActiveChain.FindFork` | crates/qubitcoin-common/src/chain.rs:790-801 | the greatest height up to which two linked chains agree everywhere; the blocks they share are exactly those; `None` exactly when they share none |
| `VersionBits.DefinedBeforeStart` | crates/qubitcoin-common/src/versionbits.rs:245-249 | a block before the start time is Defined by the plain recursion: what the early exit of the walk relies on, through the monotone median |
| `VersionBits.LastPeriodEnd` | crates/qubitcoin-common/src/versionbits.rs:226-235 | the lookup by height finds the last block at or below the parent that ends a period, or none |
| `VersionBits.WalkBack` | crates/qubitcoin-common/src/versionbits.rs:237-253 | the backward walk ends at a known key, adds only right entries, and has stacked the period ends between |
| `VersionBits.CountSignals` | crates/qubitcoin-common/src/versionbits.rs:269-277 | the loop counts the signalling blocks of the period |
| `VersionBits.Advance` | crates/qubitcoin-common/src/versionbits.rs:261-296 | one forward step is one transition of the recursion |
| `VersionBits.GetStateFor` | crates/qubitcoin-common/src/versionbits.rs:205-300 | the memoised walk returns the state of the plain BIP9 recursion and leaves every cache entry right, in any well-formed tree and from any right cache |
| `VersionBits.Condition` | crates/qubitcoin-common/src/versionbits.rs:429-450 | a known deployment's condition reads the version; a warning bit's runs the known machines and leaves their caches right |
| `VersionBits.ComputeBlockVersion` | crates/qubitcoin-common/src/versionbits.rs:456-473 | the version has the top bits and the bit of each deployment that is started or locked in, by the plain recursion |
| `VersionBitsTransitions.PeriodChange` | crates/qubitcoin-common/src/versionbits.rs:261-296 | from one period to the next: Defined starts exactly when the median time reaches the start time; Started locks in exactly at the threshold, fails exactly when it missed that and the median time reaches the timeout, else stays; LockedIn becomes Active exactly at the activation height; the other two stay |
| `VersionBitsTransitions.FailedIff` | crates/qubitcoin-common/src/versionbits.rs:278-282 | the state at a height is Failed if and only if an earlier period of the branch began Started, missed the threshold and ended with its median time at or after the timeout |
| `VersionBitsTransitions.LockedInIff` | crates/qubitcoin-common/src/versionbits.rs:269-279 | it is LockedIn or Active if and only if an earlier period began Started and reached the threshold |
| `VersionBitsTransitions.ActiveIff` | crates/qubitcoin-common/src/versionbits.rs:284-289 | it is Active if and only if an earlier period began LockedIn and ended where the next height is not below the activation height |
| `VersionBitsTransitions.DefinedIff` | crates/qubitcoin-common/src/versionbits.rs:264-268 | it is no longer Defined if and only if an earlier period ended with its median time at or after the start time |
| `VersionBitsSignals.SignalsByVersion` | crates/qubitcoin-common/src/versionbits.rs:418-431 | a block signals exactly when the top three bits of its version are 001 and the deployment's bit is set |
| `VersionBitsSignals.SignallingCounts` | crates/qubitcoin-common/src/versionbits.rs:270-277 | the count of a period is the number of its blocks that signal |
| `VersionBitsSignals.ExpectedVersionBits` | crates/qubitcoin-common/src/versionbits.rs:456-473 | with bits below 29, as BIP9 has them, the computed version starts with 001, and each lower bit is set exactly when it belongs to a deployment that is Started or LockedIn |
| `VersionBitsSignals.BuiltBlockSignals` | crates/qubitcoin-common/src/versionbits.rs:418-473 | a block built with that version signals a deployment exactly when a deployment with its bit is Started or LockedIn |
| `VersionBitsSignals.WarningByVersion` | crates/qubitcoin-common/src/versionbits.rs:522-539 | a warning bit counts exactly the blocks from the warning height on whose version starts with 001 and has that bit while no known deployment with it is Started or LockedIn |
| `VersionBitsHistory.StateSurvivesGrowth` | crates/qubitcoin-common/src/versionbits.rs:200-204 | the state after a block depends on its branch alone: no later block or fork changes it, for known and for warning machines |
| `VersionBitsHistory.CacheSurvivesGrowth` | crates/qubitcoin-common/src/versionbits.rs:547-553 | a right cache stays right while the tree grows |
| `VersionBitsHistory.StatesOnlyMoveForward` | crates/qubitcoin-common/src/versionbits.rs:261-296 | between any two heights of any branch the states are in the order Defined, Started, LockedIn and Active, or Failed after Started |
| `VersionBitsHistory.ActiveWasLockedIn` | crates/qubitcoin-common/src/versionbits.rs:261-292 | an active deployment has an earlier full period on its branch that began Started and reached the threshold, and the activation height is reached |
| `VersionBitsHistory.LockedInByThreshold` | crates/qubitcoin-common/src/versionbits.rs:267-280 | a locked-in deployment has such a period too |
| `VersionBitsHistory.ActiveAtHeight` | crates/qubitcoin-common/src/versionbits.rs:261-292 | the same at any height of a branch: the state there is Active only after such a period of that branch, and not below the activation height |
| `VersionBitsSince.GetStateSinceHeightFor` | crates/qubitcoin-common/src/versionbits.rs:358-396 | for an ordinary start time, the height from which on the current state holds and before which it never held on that branch; 0 for the special start times and for genesis |
| `VersionBitsSince.WalkToEdge` | crates/qubitcoin-common/src/versionbits.rs:383-392 | the loop steps back by periods to the first whose predecessor has another state |
| `VersionBitsSince.SinceFromEdge` | crates/qubitcoin-common/src/versionbits.rs:358-396 | one differing height below suffices, because states do not return |
| `VersionBitsStats.GetStateStatisticsFor` | crates/qubitcoin-common/src/versionbits.rs:308-353 | blocks so far in the period, how many signalled, one flag per block oldest first, and `possible` as unsigned 32-bit arithmetic gives it; zeros without a block |
| `VersionBitsStats.PossibleMeans` | crates/qubitcoin-common/src/versionbits.rs:349-351 | `possible` says whether the remaining blocks can still reach the threshold if and only if the threshold does not exceed the period; otherwise it is always set and always wrong |
| `VersionBitsStats.PossibleForetells` | crates/qubitcoin-common/src/versionbits.rs:96-108 | once `possible` is false the period locks in on no branch through the block; at the period's end it says whether the period locks in, exactly when the threshold does not exceed the period |
| `VersionBitsCache.VersionBitsCache.Info` | crates/qubitcoin-common/src/versionbits.rs:564-609 | both states, the since height, the statistics and the activation height are those of the plain recursion, and the caches stay right |
| `VersionBitsCache.VersionBitsCache.IsActiveAfter` | crates/qubitcoin-common/src/versionbits.rs:646-658 | true exactly when the plain recursion says Active; the caches stay right |
| `VersionBitsCache.VersionBitsCache.BlockVersion` | crates/qubitcoin-common/src/versionbits.rs:663-670 | the version by the plain recursion; the caches stay right |
| `VersionBitsCache.VersionBitsCache.GetGbtStatus` | crates/qubitcoin-common/src/versionbits.rs:614-641 | each deployment is listed, in order, under the state of the plain recursion, Defined and Failed ones nowhere; the caches stay right |
| `VersionBitsCache.VersionBitsCache.CheckUnknownActivations` | crates/qubitcoin-common/src/versionbits.rs:676-697 | the result is the pure two-level definition, a warning machine whose signal runs the known machines, and both families of caches stay right |
| `VersionBitsCache.VersionBitsCache.Clear` | crates/qubitcoin-common/src/versionbits.rs:700-707 | empty caches are right for any tree |
| `VersionBitsCache.VersionBitsCache.ValidSurvivesGrowth` | crates/qubitcoin-common/src/versionbits.rs:547-553 | all caches stay right while the tree grows |
| `VersionBitsCache.Perform` | crates/qubitcoin-common/src/versionbits.rs:555-707 | one insertion or query, against the plain recursion on the tree as it stands |
| `VersionBitsCache.Replay` | crates/qubitcoin-common/src/versionbits.rs:555-707 | over every interleaving of insertions (with forks), queries and clearing from an empty tree, each answer is that of the plain recursion on the tree at that moment: no caching is observable |
| `Coins.InsertCleanEffect` | crates/qubitcoin-common/src/coins.rs:659-672 | caching a coin that was read keeps coherence if and only if an entry was there already, the coin is spent, or the base still holds it; then the view is unchanged |
| `Coins.AddEffect` | crates/qubitcoin-common/src/coins.rs:727-771 | an add shows the coin and changes nothing else; coherence survives if and only if nothing was added, the outpoint was cached, or the base has no coin there |
| `Coins.SpendEffect` | crates/qubitcoin-common/src/coins.rs:785-808 | the locked half of a spend always keeps coherence; it returns the coin and removes it from the view if and only if the outpoint is cached or the base has no coin there |
| `Coins.UncacheEffect` | crates/qubitcoin-common/src/coins.rs:959-968 | dropping a clean entry changes nothing |
| `Coins.FlushEffect` | crates/qubitcoin-common/src/coins.rs:894-953 | a flush writes exactly the view into the base; whichever entries stay, the view is unchanged and they are clean, unspent and equal to the base |
| `CoinsRuns.StepIsPlain` | crates/qubitcoin-common/src/coins.rs:641-968 | one operation of the cache is that operation on a plain map, result and refusal included |
| `CoinsRuns.RunIsPlain` | crates/qubitcoin-common/src/coins.rs:641-968 | over every run, flushes included, everything returned and the view at the end are those of a plain map; clean entries equal the base and FRESH ones are absent from it throughout |
| `CoinsRuns.CheckedRunIsSafe` | crates/qubitcoin-common/src/coins.rs:1241-1257 | runs in which adds look up first need no condition on the base |
| `CoinsRuns.UnsafeAddResurrects` | crates/qubitcoin-common/src/coins.rs:762-768 | for all coins: a raw add over an uncached coin of the base, then a spend, brings the old coin back |
| `CoinsRuns.EnabledIffHarmless` | crates/qubitcoin-common/src/coins.rs:641-968 | with base reads, inserts, checks and adds as separate steps of threads: from a consistent system a step is enabled if and only if no enabled continuation of it makes the cache incoherent with the base |
| `CoinsRuns.StepKeepsConsistentIff` | crates/qubitcoin-common/src/coins.rs:641-968 | the invariant behind it, that reads are current or find their place taken and checked adds that will store are safe, is kept exactly by the enabled steps; an add after its check always is one |
| `CoinsRuns.FlushKeepsConsistentIff` | crates/qubitcoin-common/src/coins.rs:894-953 | for a flush: exactly when each coin a thread has read is still the one shown or its place stays taken by an entry that another thread waits to overwrite, and each outpoint checked for an add that will store stays cached or shows no coin |
| `CoinsRuns.InterleavedStep` | crates/qubitcoin-common/src/coins.rs:641-716 | each enabled step has exactly its effect on the plain map |
| `CoinsRuns.EveryInterleavingIsCoherent` | crates/qubitcoin-common/src/coins.rs:641-968 | every interleaving of any number of readers and checked adds with raw adds, spends, uncaching and flushes keeps the cache coherent and shows the plain map, as long as each step is enabled |
| `CoinsRuns.ReaderReturnsWhatWasShown` | crates/qubitcoin-common/src/coins.rs:685-716 | a reader that missed returns what was shown at some moment between its miss and its base read, whatever enabled steps other threads took, flushes included |
| `CoinsRuns.FlushDuringReadResurrects` | crates/qubitcoin-common/src/coins.rs:685-716 | from an empty cache, with two readers of one coin: a spend and a flush between one reader's base read and its insert, and the spent coin reappears |
| `CoinsRuns.UncacheDuringCheckResurrects` | crates/qubitcoin-common/src/coins.rs:1246-1253 | from an empty cache: uncaching between the check and the add of `add_coins` makes a later spend bring the old coin back |
| `CoinsViewCache.CoinsViewCache.FetchCoin` | crates/qubitcoin-common/src/coins.rs:685-716 | returns what the view shows, leaves the view alone, and afterwards caches any coin of the base |
| `CoinsViewCache.CoinsViewCache.PrefetchCoins` | crates/qubitcoin-common/src/coins.rs:641-677 | misses are collected, read together and inserted where still absent; the view is unchanged |
| `CoinsViewCache.CoinsViewCache.AddCoin` | crates/qubitcoin-common/src/coins.rs:727-771 | result, entry and flags in every branch; coherence kept exactly under the condition above |
| `CoinsViewCache.CoinsViewCache.SpendCoin` | crates/qubitcoin-common/src/coins.rs:780-808 | returns the coin shown and removes exactly it from the view |
| `CoinsViewCache.CoinsViewCache.Uncache` | crates/qubitcoin-common/src/coins.rs:959-968 | only a clean entry goes; the view is unchanged |
| `CoinsViewCache.CoinsViewCache.CollectWrites` | crates/qubitcoin-common/src/coins.rs:898-915 | in whatever order the map is visited, applying the writes gives the flushed store |
| `CoinsViewCache.CoinsViewCache.Retain` | crates/qubitcoin-common/src/coins.rs:924-947 | in whatever order: what stays are unspent entries, all clean, within the byte cap, and nothing dropped unspent would fit beside them |
| `CoinsViewCache.CoinsViewCache.FlushTo` | crates/qubitcoin-common/src/coins.rs:894-953 | on success a target that started equal to the base holds exactly the view with the matching best block, and all that stays cached agrees with it; on failure nothing changes |
| `CoinsViewCache.CoinsViewDb.BatchWrite` | crates/qubitcoin-common/src/coins.rs:1140-1172 | writes, erasures and the best block take effect together or not at all |
| `CoinsViewCache.CoinsViewCache.AddCoins` | crates/qubitcoin-common/src/coins.rs:1241-1257 | with the overwrite check the cache stays coherent whatever the base holds and the outputs are added as to a plain map; without it the exact entries that result |
| `CoinsViewCache.FlushAndReopen` | crates/qubitcoin-common/src/coins.rs:985-992 | after moving to a block and a committed flush into its own base, a new cache over that base shows the same coins and reports that block |
| `Num3072.MulValueExact` | crates/qubitcoin-crypto/src/muhash.rs:135-193 | for all operands the result is below p and is a·b less c·1103717 modulo p, where c, 0 or 1, is the carry out of the second fold |
| `Num3072.MulValueCorrectIffNoCarry` | crates/qubitcoin-crypto/src/muhash.rs:180-188 | the result is a·b modulo p if and only if that carry is 0 |
| `Num3072.DroppedCarryHappens` | crates/qubitcoin-crypto/src/muhash.rs:180-188 | the carry is 1 for the reduced operands p - 1 and p - 1103717: 0 is returned where 1103717 is right |
| `Num3072.IsOverflow` | crates/qubitcoin-crypto/src/muhash.rs:89-114 | true exactly when the number is at least p |
| `Num3072.PropagateCarry` | crates/qubitcoin-crypto/src/muhash.rs:180-188 | adding a number below 2^63 through all limbs, the carry out included, within 64 bits |
| `Num3072.ReduceOnce` | crates/qubitcoin-crypto/src/muhash.rs:119-129 | adding 1103717 and dropping the carry subtracts p when the number is at least p, and nothing otherwise |
| `Num3072.AddCell` | crates/qubitcoin-crypto/src/muhash.rs:141-145 | one inner step, exact and within 64 bits |
| `Num3072.AddProducts` | crates/qubitcoin-crypto/src/muhash.rs:140-145 | the inner loop of one row, exact, with its last carry |
| `Num3072.AddRow` | crates/qubitcoin-crypto/src/muhash.rs:139-147 | one row of the schoolbook product, exact |
| `Num3072.FoldHigh` | crates/qubitcoin-crypto/src/muhash.rs:155-177 | the first fold, exact, with a top limb of at most 1103717 |
| `Num3072.Reduce` | crates/qubitcoin-crypto/src/muhash.rs:155-193 | two folds, the dropped carry and one conditional subtraction on the double-width number |
| `Num3072.MulMod` | crates/qubitcoin-crypto/src/muhash.rs:135-152 | the limb loops compute the exact product within 64 bits and return its reduction |
| `ModInversion.TopBitsStep` | crates/qubitcoin-crypto/src/muhash.rs:245-255 | moving down one bit doubles the exponent read so far and adds the bit that the limb test reads |
| `ModInversion.Power` | crates/qubitcoin-crypto/src/muhash.rs:242-257 | square and multiply from the bit below the top one down, for any exponent whose top bit is set |
| `ModInversion.ModInverse` | crates/qubitcoin-crypto/src/muhash.rs:202-258 | square and multiply over the bits of p - 2, with the multiplication as it is |
| `ModInversion.CleanPowerIsPower` | crates/qubitcoin-crypto/src/muhash.rs:202-258 | in a run without dropped carries the result is the power modulo p |
| `ModInversion.CleanInverse` | crates/qubitcoin-crypto/src/muhash.rs:202-258 | and, p being prime, the inverse: the product with the operand is 1 modulo p |
| `Modular.Fermat` | crates/qubitcoin-crypto/src/muhash.rs:195-201 | a^(p-1) is 1 modulo every prime p for a not divisible by p, proved here rather than assumed |
| `MuHash.HistoryIsProduct` | crates/qubitcoin-crypto/src/muhash.rs:314-337 | in every history of insertions, removals and combinations without dropped carries, numerator and denominator are the products of all inserted and all removed elements modulo p |
| `MuHash.HashIsQuotient` | crates/qubitcoin-crypto/src/muhash.rs:340-348 | the final number times the removed elements is the inserted elements modulo p |
| `MuHash.OrderDoesNotMatter` | crates/qubitcoin-crypto/src/muhash.rs:260-272 | two histories with the same insertions and removals, in any order and grouping, end in the same number |
| `MuHash.InsertThenRemoveCancels` | crates/qubitcoin-crypto/src/muhash.rs:314-330 | elements both inserted and removed, wherever in the history, leave the final number as it was |
| `MuHash.ElementZeroIff` | crates/qubitcoin-crypto/src/muhash.rs:283-311 | the element is a residue, and is 0 if and only if the expansion equals p: the zero test comes before the subtraction |
| `MuHash.HashToNum` | crates/qubitcoin-crypto/src/muhash.rs:283-311 | limbs of the expansion, 0 replaced by 1, reduced once |
| `MuHash.BytesRoundTrip` | crates/qubitcoin-crypto/src/muhash.rs:51-75 | the byte form loses nothing |
| `MuHash.LimbsAreLittleEndian` | crates/qubitcoin-crypto/src/muhash.rs:51-62 | the limbs read from bytes stand for the little-endian number of these bytes |
| `MuHash.BytesAreLittleEndian` | crates/qubitcoin-crypto/src/muhash.rs:65-75 | and the bytes written stand for the number of the limbs |
| `MuHash.LimbsOfValue` | crates/qubitcoin-crypto/src/muhash.rs:51-75 | limbs, and hence the bytes hashed at the end, are determined by the number |
| `MuHash.MuHash.Insert` | crates/qubitcoin-crypto/src/muhash.rs:314-319 | numerator of the history extended by the element |
| `MuHash.MuHash.Remove` | crates/qubitcoin-crypto/src/muhash.rs:324-328 | denominator of the history extended by the element |
| `MuHash.MuHash.Combine` | crates/qubitcoin-crypto/src/muhash.rs:332-337 | the two histories combined |
| `MuHash.MuHash.Finalize` | crates/qubitcoin-crypto/src/muhash.rs:340-348 | the digest of the bytes of the final number of the history, so histories with equal final numbers hash alike |
| `Pow.NextWorkIsPermitted` | crates/qubitcoin-common/src/pow.rs:46-232 | on every network without the min-difficulty rule, for all times and heights, the required bits pass the transition check from any bits that pass the range check |
| `Pow.RetargetFormula` | crates/qubitcoin-common/src/pow.rs:113-157 | at a boundary, for a period between a quarter and four timespans, the new target is the old one times the time taken over the timespan, capped by the limit and rounded down; the old one is that of the period's first block under BIP94, else of its last |
| `Pow.RetargetExtremes` | crates/qubitcoin-common/src/pow.rs:129-139 | a shorter period counts as a quarter of the timespan, a longer one quadruples the target, capped and rounded |
| `Pow.SlowerIsEasier` | crates/qubitcoin-common/src/pow.rs:113-157 | the new target does not fall as the time taken grows |
| `Pow.RetargetDirection` | crates/qubitcoin-common/src/pow.rs:113-157 | it is at least the old one after a period of at least the timespan and at most the old one after a period of at most that |
| `Pow.BetweenBoundaries` | crates/qubitcoin-common/src/pow.rs:60-77 | between boundaries: the last bits; with the min-difficulty rule, more than two spacings after the last block, bits for the rounded limit, above which no bits in range decode, and otherwise the last bits that were not given away |
| `Pow.PermittedIff` | crates/qubitcoin-common/src/pow.rs:172-232 | at a boundary exactly the bits between the results after the fastest and the slowest period are permitted; elsewhere only the same bits |
| `Pow.MainnetLimitBits` | crates/qubitcoin-consensus/src/params.rs:216-450 | the limit of mainnet encodes to 0x1d00ffff, which passes the range check |
| `Pow.NextWorkStaysWithinLimit` | crates/qubitcoin-common/src/pow.rs:46-157 | on every network the required bits decode without sign or overflow to a target within the limit |
| `Pow.ScaleIsExact` | crates/qubitcoin-common/src/pow.rs:136-150 | within the limit no 256-bit product wraps: the scaled target is the exact quotient |
| `Pow.RetargetingNetworksHaveHeadroom` | crates/qubitcoin-consensus/src/params.rs:216-450 | limit × 4 × timespan is below 2^256 on all four retargeting networks; regtest has no such room and never retargets |
| `Pow.SignetIsTight` | crates/qubitcoin-consensus/src/params.rs:375-380 | on signet less than five parts per million are left, and a limit higher by that much would wrap |
| `Pow.ReachableBetween` | crates/qubitcoin-common/src/pow.rs:172-232 | a target reached by a clamped timespan lies between the targets of the extreme timespans, after capping and rounding |
| `Pow.UnchangedTarget` | crates/qubitcoin-common/src/pow.rs:113-157 | keeping the time keeps the target bit for bit |
| `Compact.CompactRounds` | crates/qubitcoin-primitives/src/arith_uint256.rs:164-212 | decoding an encoded target gives it rounded down to its leading 23 bits, without sign or overflow, for every 256-bit target |
| `Compact.RoundDownMonotone` | crates/qubitcoin-primitives/src/arith_uint256.rs:190-212 | the rounding preserves order |
| `Compact.DecodedIsExact` | crates/qubitcoin-primitives/src/arith_uint256.rs:164-188 | a target decoded without overflow is its own rounding |
| `Compact.CompactLayout` | crates/qubitcoin-primitives/src/arith_uint256.rs:164-188 | size in the top byte, then the sign, then 23 bits of mantissa in units of 256^(size - 3); overflow is reported exactly when the number does not fit 256 bits, the sign exactly when what is kept is not zero |
| `Compact.EncodingIsBest` | crates/qubitcoin-primitives/src/arith_uint256.rs:164-212 | no bits decode to a target closer to a number from below than its own encoding |
| `Compact.NormalFormRoundTrip` | crates/qubitcoin-primitives/src/arith_uint256.rs:190-212 | bits whose mantissa fills its three bytes with the top bit clear are what their target encodes to |
| `Merkle.ComputeMerkleRoot` | crates/qubitcoin-consensus/src/merkle.rs:14-44 | the loop returns the root of the level-by-level definition, zero for no hashes, and sets the flag exactly when some level has two equal siblings that are both present |
| `Merkle.TreeOfSubtrees` | crates/qubitcoin-consensus/src/merkle.rs:14-44 | the root over 2^k hashes followed by at most as many others is the pair hash of the root of the first and the root of the others, the latter paired with itself up to the same height; the flag is set exactly when it is set for a part or both nodes are equal |
| `Merkle.RootOfHalves` | crates/qubitcoin-consensus/src/merkle.rs:14-44 | the same of two full halves: the pair hash of their roots, in order |
| `Merkle.LevelsIsLeast` | crates/qubitcoin-consensus/src/merkle.rs:14-44 | a list has at most k levels exactly when it has at most 2^k hashes |
| `Merkle.FindTwins` | crates/qubitcoin-consensus/src/merkle.rs:22-29 | the scan sees complete pairs only, before padding |
| `Merkle.EqualRootsCollide` | crates/qubitcoin-consensus/src/merkle.rs:14-44 | two different lists of equally many levels with equal roots, neither flagged, yield two different pairs of siblings with the same hash, one from a level of each tree |
| `Merkle.RootDeterminesList` | crates/qubitcoin-consensus/src/merkle.rs:14-44 | so with a pair hash that never collides such lists are equal |
| `Merkle.RepeatedTailIsFlagged` | crates/qubitcoin-consensus/src/merkle.rs:14-44 | repeating the last hash of an odd list keeps the root and is always flagged |
| `Merkle.DistinctIsNotFlagged` | crates/qubitcoin-consensus/src/merkle.rs:22-32 | padding alone never sets the flag, at any level |
| `TxCodec.TxRoundTripIff` | crates/qubitcoin-consensus/src/transaction.rs:391-494 | decoding an encoding with witness, followed by anything, returns the transaction and the rest if and only if its fields fit and it has inputs or has neither inputs nor outputs |
| `TxCodec.TxRoundTrip` | crates/qubitcoin-consensus/src/transaction.rs:391-494 | the direct half of it |
| `TxCodec.TxCanonical` | crates/qubitcoin-consensus/src/transaction.rs:438-494 | any accepted byte string is the encoding of the transaction it decodes to, followed by the rest |
| `TxCodec.StrippedRoundTrip` | crates/qubitcoin-consensus/src/transaction.rs:391-494 | without witness every transaction whose fields fit comes back less its witness |
| `TxCodec.StrippedLayout` | crates/qubitcoin-consensus/src/transaction.rs:391-435 | the first four bytes are the version and the last four the lock time, little-endian; between them the input count, the inputs, the output count and the outputs |
| `TxCodec.ExtendedLayout` | crates/qubitcoin-consensus/src/transaction.rs:391-435 | with witness the bytes 0 and 1 follow the version and one stack per input precedes the lock time; everything else is the stripped form |
| `TxCodec.TxInLayout` | crates/qubitcoin-consensus/src/transaction.rs:177-184 | 32 bytes of hash, four of index, the script after its length, four of sequence number |
| `TxCodec.TxOutLayout` | crates/qubitcoin-consensus/src/transaction.rs:242-248 | eight bytes of amount in two's complement, the script after its length |
| `TxCodec.CoinbaseBytes` | crates/qubitcoin-consensus/src/transaction.rs:308-310 | a transaction with one input is a coinbase exactly when that input's encoding starts with 32 zero bytes and four bytes 0xff |
| `TxCodec.SerializeTransaction` | crates/qubitcoin-consensus/src/transaction.rs:391-435 | the writer produces the specified encoding |
| `TxCodec.WriteStacks` | crates/qubitcoin-consensus/src/transaction.rs:421-431 | the witness loop writes one stack per input |
| `TxCodec.DeserializeTransaction` | crates/qubitcoin-consensus/src/transaction.rs:438-494 | the reader computes the specified decoding, errors included |
| `TxCodec.ReadWitness` | crates/qubitcoin-consensus/src/transaction.rs:464-489 | the witness loop attaches one stack per input, and refuses an all-empty witness and unknown flags |
| `TxCodec.TxInLawful` | crates/qubitcoin-consensus/src/transaction.rs:177-200 | inputs round-trip and each accepted byte string is canonical |
| `TxCodec.TxOutLawful` | crates/qubitcoin-consensus/src/transaction.rs:242-262 | outputs likewise, with signed 64-bit amounts |
| `TxCodec.StackLawful` | crates/qubitcoin-consensus/src/transaction.rs:421-431 | witness stacks likewise |
| `Codec.SizeRoundTrip` | crates/qubitcoin-serialize/src/compact_size.rs:33-103 | every allowed size is read back, whatever follows |
| `Codec.SizeCanonical` | crates/qubitcoin-serialize/src/compact_size.rs:57-103 | each accepted size has one encoding, and overlong forms and sizes above the limit are refused |
| `Codec.SizeLayout` | crates/qubitcoin-serialize/src/compact_size.rs:33-50 | one byte below 253, else a marker byte 253, 254 or 255 and the size in two, four or eight bytes |
| `Codec.LeByte` | crates/qubitcoin-serialize/src/encode.rs:119-200 | byte i of a little-endian number carries the weight 256^i |
| `Codec.ItemsInOrder` | crates/qubitcoin-serialize/src/encode.rs:392-401 | the items of a joined list are encoded one after the other, in order |
| `Codec.VecRoundTrip` | crates/qubitcoin-serialize/src/encode.rs:392-415 | a vector over a lawful codec round-trips |
| `Codec.VecCanonical` | crates/qubitcoin-serialize/src/encode.rs:404-415 | and each accepted byte string is canonical |
| `Codec.WriteVec` | crates/qubitcoin-serialize/src/encode.rs:392-401 | the writing loop |
| `Codec.ReadVec` | crates/qubitcoin-serialize/src/encode.rs:404-415 | the reading loop, errors included |
| `Codec.BytesRoundTrip` | crates/qubitcoin-serialize/src/encode.rs:287-306 | length-prefixed bytes round-trip |
| `Codec.BytesCanonical` | crates/qubitcoin-serialize/src/encode.rs:296-306 | and each accepted byte string is canonical |
| `CoinCodec.CoinRoundTripIff` | crates/qubitcoin-common/src/coins.rs:358-401 | a stored coin comes back, whatever follows, if and only if its height is below 2^31 and its script is preserved |
| `CoinCodec.ScriptRoundTripIff` | crates/qubitcoin-common/src/coins.rs:98-273 | a script comes back if and only if it has at most 10,000 bytes and, when it pays to an uncompressed key, that key is recovered from its compressed form |
| `CoinCodec.HashScriptLayout` | crates/qubitcoin-common/src/coins.rs:98-127 | scripts that pay to a key hash or a script hash are stored as tag 0 or 1 and the hash |
| `CoinCodec.CompressedKeyLayout` | crates/qubitcoin-common/src/coins.rs:129-139 | one that pays to a compressed key as the key |
| `CoinCodec.UncompressedKeyLayout` | crates/qubitcoin-common/src/coins.rs:141-151 | one that pays to an uncompressed key as 4 or 5, by the parity of the second coordinate, and the first |
| `CoinCodec.PlainScriptLayout` | crates/qubitcoin-common/src/coins.rs:230-241 | any other after its length plus six |
| `CoinCodec.StorageKeepsSpendability` | crates/qubitcoin-common/src/coins.rs:230-273 | a script read back from storage is provably unspendable exactly when the stored one was, overlong scripts included |
| `CoinCodec.CoinLayout` | crates/qubitcoin-common/src/coins.rs:358-380 | twice the height plus the coinbase flag, the compressed amount, the compressed script |
| `CoinCodec.AmountRoundTrip` | crates/qubitcoin-common/src/coins.rs:37-78 | decompression inverts compression on every natural number |
| `CoinCodec.CompressedRoundTrip` | crates/qubitcoin-common/src/coins.rs:37-78 | compression inverts decompression on every natural number: together a bijection |
| `CoinCodec.AmountFits` | crates/qubitcoin-common/src/coins.rs:37-55 | no amount up to MAX_MONEY overflows 64 bits |
| `CoinCodec.RoundAmount` | crates/qubitcoin-common/src/coins.rs:37-55 | for m times 10^e, with all trailing zeros up to nine in e, the compressed form less one ends in the digit e and is at most 10 m + 10 |
| `CoinCodec.RoundAmountGrows` | crates/qubitcoin-common/src/coins.rs:37-55 | and for fixed e it grows with m |
| `CoinCodec.WholeCoins` | crates/qubitcoin-common/src/coins.rs:37-55 | one coin compresses to 9, fifty coins to 50 |
| `CoinCodec.CompressAmount` | crates/qubitcoin-common/src/coins.rs:37-55 | the loop computes the compression, wrapping at 64 bits |
| `CoinCodec.DecompressAmount` | crates/qubitcoin-common/src/coins.rs:60-78 | the loop computes the decompression, wrapping at 64 bits |
| `CoinCodec.VarIntRoundTrip` | crates/qubitcoin-serialize/src/varint.rs:35-79 | every 64-bit number is read back, whatever follows |
| `CoinCodec.VarIntCanonical` | crates/qubitcoin-serialize/src/varint.rs:59-79 | each accepted byte string is the encoding of what it decodes to |
| `CoinCodec.VarIntLength` | crates/qubitcoin-serialize/src/varint.rs:35-37 | a 64-bit number takes at most the ten bytes of the buffer |
| `CoinCodec.VarIntLayout` | crates/qubitcoin-serialize/src/varint.rs:35-52 | a number below 128 is one byte; any other ends in its lowest seven bits, preceded by the encoding of one less than the rest with a continuation bit added |
| `CoinCodec.WriteVarIntDigits` | crates/qubitcoin-serialize/src/varint.rs:35-52 | digits from the low end, written in reverse, are that encoding, within ten bytes |
| `CoinCodec.ReadVarIntDigits` | crates/qubitcoin-serialize/src/varint.rs:59-79 | the reading loop with both overflow checks |
| `Indexing.IndexThenRollback` | crates/qubitcoin-indexer/src/rollback.rs:150-201 | rollback undoes indexing: after any run of blocks above the target, with or without pairs, every list is as it was before the run and exactly the run's entries were removed |
| `Indexing.IndexerStorage.AppendBatch` | crates/qubitcoin-indexer/src/storage.rs:154-220 | each list is the old one followed by the block's values, in order; heights stay in order if and only if no list named ends above the block's; with all entries below it, cutting the new store below the height gives back the old lists and the key sets stay right; a block without pairs writes nothing |
| `Indexing.SealedNamesBlock` | crates/qubitcoin-indexer/src/storage.rs:172-214 | each entry's height record is the height and the first eight bytes of the block hash, which are also stored under the height |
| `Indexing.BlockOrder` | crates/qubitcoin-indexer/src/storage.rs:184-200 | the lists stay in height order exactly when none that the block names ends above it |
| `Indexing.PushAll` | crates/qubitcoin-indexer/src/storage.rs:184-200 | a key that comes twice in a block sees the length left by the first time |
| `Indexing.PushExtends` | crates/qubitcoin-indexer-web/src/storage.rs:174-195 | one append puts the value at the end of its list with its height and touches no other list |
| `Indexing.IndexerStorage.RollbackToHeight` | crates/qubitcoin-indexer/src/rollback.rs:150-201 | in every well-formed store, whatever its key sets: each list is cut by as often as the key sets walked over list it, and after a gap to its entries at or below the target; the result counts the entries removed; which key sets are left; right for a list exactly when it is listed right, and for all lists when the key sets are right |
| `Indexing.RollbackRightIff` | crates/qubitcoin-indexer/src/rollback.rs:150-201 | a list keeps exactly its entries at or below the target if and only if the key sets walked over list it as often as it has entries above the target, or, with a gap, no more often; a list that is to go entirely may also be listed more often |
| `Indexing.RightKeysetsCutAll` | crates/qubitcoin-indexer/src/rollback.rs:150-201 | with every key set present right, all lists do, gap or not |
| `Indexing.KeysetsRightIff` | crates/qubitcoin-indexer/src/rollback.rs:181-196 | after a rollback all key sets are right if and only if every one stranded below a gap was empty |
| `Indexing.StaleKeysetTakesEntry` | crates/qubitcoin-indexer/src/rollback.rs:164-199 | from an empty store, for all keys and heights, with the stores in between: two blocks with k, a gap, a block with j, a right rollback, one more block with j, and the same rollback, for which k is not listed right and which removes k's entry at the target height |
| `Rollback.LeftBehindIsStale` | crates/qubitcoin-indexer/src/rollback.rs:181-196 | a key set left above the target is right only if it is empty |
| `Rollback.KeysetPass` | crates/qubitcoin-indexer/src/rollback.rs:158-189 | the walk down stops at the first height without a key set and cuts each list by as often as the key sets passed list it, right or wrong |
| `Rollback.PopEachCuts` | crates/qubitcoin-indexer/src/rollback.rs:169-185 | popping by any list of keys leaves prefixes and removes as many entries as it counts |
| `Rollback.PopEachLength` | crates/qubitcoin-indexer/src/rollback.rs:169-185 | each list loses one entry for every time it is named, down to none |
| `Rollback.RightKeysetsListRight` | crates/qubitcoin-indexer/src/rollback.rs:158-189 | right key sets list every key as often as it has entries above the height reached |
| `Rollback.PopKeys` | crates/qubitcoin-indexer/src/rollback.rs:169-185 | pending lengths are those of the batch, so repeated keys lose one entry each time |
| `Rollback.KeysetCuts` | crates/qubitcoin-indexer/src/rollback.rs:169-185 | a right key set takes off exactly its height's entries |
| `Rollback.CutList` | crates/qubitcoin-indexer/src/rollback.rs:227-252 | the backward scan of one list stops at the first entry that stays and has then dropped exactly those above the target |
| `Rollback.RollbackLegacy` | crates/qubitcoin-indexer/src/rollback.rs:207-257 | the scan over all lists, in whatever order, cuts every one |
| `Rollback.ScanFindsLists` | crates/qubitcoin-indexer/src/rollback.rs:214-224 | in a store of usable keys the byte test of the scan finds exactly the lists, by their logical keys |
| `IndexerKeys.LengthRecognised` | crates/qubitcoin-indexer/src/rollback.rs:214-222 | the test finds exactly the keys numbered by the sentinel, and the rest of their bytes is their name; no list entry passes |
| `IndexerKeys.KeyFamiliesNeverAlias` | crates/qubitcoin-indexer/src/state.rs:23-77 | the bytes of usable keys of all families differ when the keys differ |
| `IndexerKeys.ReservedNamesAlias` | crates/qubitcoin-indexer/src/state.rs:23-77 | the excluded names do collide, each with its family |
| `IndexerKeys.KeySetRoundTrip` | crates/qubitcoin-indexer/src/state.rs:80-113 | decoding a key set gives back every key in order, repetitions included |
| `IndexerKeys.KeySetLayout` | crates/qubitcoin-indexer/src/state.rs:80-89 | the count in the first four bytes; key i after its length in four bytes, behind the records of the keys before it |
| `IndexerKeys.DecodeKeySetLoop` | crates/qubitcoin-indexer/src/state.rs:92-113 | the loop with a moving position, truncated records included |
| `Subsidy.SubsidyHalves` | crates/qubitcoin-consensus/src/check.rs:157-169 | the full subsidy for the first interval, then half of that one interval earlier, and none after sixty-four halvings |
| `Subsidy.SupplyCap` | crates/qubitcoin-consensus/src/check.rs:157-169 | for every n and interval the subsidies below height n add up to at most 9,999,999,989 × interval, exactly that from 33 × interval on, hence less than 2 × 50 coins × interval |
| `Subsidy.MainnetSupply` | crates/qubitcoin-consensus/src/params.rs:261 | on mainnet to at most 20,999,999.9769 coins, reached at height 6,930,000, below MAX_MONEY |

## Left out

- Num3072.MulMod: the number of limbs is any n from two up instead of 96; the source's case is n = 96. Multiplication within a limb is arithmetic on integers bounded to 64 bits, so overflow is excluded rather than wrapped.
- MuHash.HashIsQuotient: p is assumed prime, as the source does, and no carry is dropped in the run; the elements are assumed non-zero.
- VersionBitsCache.Replay: deployments are a list; the source has one. The names and masks that `gbt_status` and `info` attach are not modelled.
- VersionBitsStats.GetStateStatisticsFor: the unsigned subtraction wraps, as in a release build; a build with overflow checks stops there instead.
- Chain.AppendBlock: the hash index, chain work and status of a block are not modelled, and the header rule appears as the median condition only.
- ActiveChain.ActiveChain.SetTipWith: asks that block 0 of the arena has height 0, since missing entries are padded with 0; the callback is the arena itself. `set_tip` and `find_earliest_at_least` are not modelled.
- CoinsViewCache.CoinsViewCache.FlushTo: flushing into a store other than the base leaves the object over its old base, about which nothing is promised then.
- CoinsViewCache.CoinsViewCache.AddCoins: the transaction id is a parameter.
- CoinsViewCache.CoinsViewDb.BatchWrite: whether the database takes the batch is a parameter; failures to serialise a coin are not modelled.
- CoinsRuns.EnabledIffHarmless: a step is a critical section or a base read; the locks that make it atomic are taken as given. A thread that stops at a refused add is gone, and the others go on.
- VersionBitsCache.VersionBitsCache.GetGbtStatus: lists positions; the name, bit, mask and rule flag of each deployment are not modelled.
- CoinCodec.ScriptRoundTripIff: recovering an uncompressed key from its compressed form is a parameter, so script types 4 and 5 are covered up to secp256k1, and `Preserved` is stated with it.
- Pow.NextWorkIsPermitted: the network has the headroom that all networks without the min-difficulty rule have, and under BIP94 the first and last bits of a period agree, as they do without that rule.
- Pow.RetargetFormula: the network has the headroom that all retargeting networks have; without it the 256-bit product may wrap.
- Merkle.RootDeterminesList: assumes a pair hash that never collides, which no hash of fixed size is; `Merkle.EqualRootsCollide` finds the collision in the two trees instead. Hashes are numbers.
- Indexing.IndexerStorage.AppendBatch: asks for keys and lists shorter than 2^32, which the source does not check. The store is keyed by what a key means; `IndexerKeys.KeyFamiliesNeverAlias` and `Rollback.ScanFindsLists` justify that for usable keys.
- Indexing.IndexerStorage.RollbackToHeight: database errors between its writes are not modelled.
- Subsidy.SupplyCap: heights are natural numbers; the initial subsidy is passed to the helper functions as an argument.
- Heights, indices and times are unbounded; 32-bit overflow of a height is not modelled.
- The `usage` counter of the UTXO cache, which is not an exact sum, and `flush`, which only clears the cache.
- `rollback_deferred`, `prune_orphaned` and reads that check canonical hashes.
- The web store's diagnostic panics, import and export.
- `check_transaction`, sigop counting, sighash, signing, signet challenges and script execution.
- SHA-256, double SHA-256 and the expansion of MuHash elements: functions given from outside.
- The sparse Merkle tree, batch flushing, SipHash, validation states, peers, RPC, WASM runtimes, command line and scripts.
