# Verified model of kaspad's hard core

kaspad is a full node for the Kaspa block DAG. This project models six of its parts in Dafny and
proves what they keep over every run, or compute for every input.

- **Mempool** (`Transactions`, `Reachability`, `Redeemers`, `MempoolUtxoSet`, `FeeRateIndex`,
  `OrphanPool`, `TxChains`, `MempoolInvariant`, `Validation`, `OrphanProcessing`, `BlockProcessing`,
  `Mempool`). The constructor establishes one invariant, and both public operations keep it: the pool
  and the chained transactions are disjoint, the double-spend index and the set of unspent mempool
  outputs are exact, the fee-rate list is a strictly sorted permutation, the orphans are indexed
  exactly, stay within their limit and apart from the mempool, and the mempool holds at most 1,000,000
  transactions, each within the policy's bounds on mass, fee and inputs. From it follow exact statements about removals (a transaction goes with exactly its
  transitive redeemers). What orphan processing and a new block do is told step by step: which output
  is looked up, which orphan is asked about, what the rules decide about it, and what then goes and
  stays. Descriptors are heap objects, because the map of pools and the map of records alias them and
  count them down.
- **Bech32 addresses** (`Checksum`, `BitRegrouping`, `Bech32`). The checksum is linear and its step
  injective, so every burst of up to eight symbols is detected, at any length, in symbols and in
  strings. Regrouping bits is
  proved for every pair of widths, and encoding followed by decoding for every prefix; every string
  that is accepted is the formatted form of what it is parsed into.
- **UTXO index** (`UtxoIndexCodec`, `UtxoIndexDatabase`, `UtxoIndexStore`, `UtxoIndex`). The staged
  index refines the virtual UTXO set over every run of changes, every database state that a crash can
  leave is either correct or visibly unfinished, and starting up gives the index of virtual parents
  that consensus named.
- **Notifications** (`Notifications`). A client that asked for the UTXOs of its addresses and replays
  what it is sent knows exactly their UTXOs, over every run of changes.
- **Orphan blocks** (`OrphanBlocks`). The two worklist algorithms over the DAG of orphans terminate,
  are sound and complete.
- **Difficulty and transaction selection** (`Difficulty`, `TxSelection`). The compact encoding of
  targets and the random selection of the transactions of a block.

`Options` and `Powers` hold an option type and powers of 256, and `Failures` says what it means that an
error reports exactly the failure of an outside call.

## What is assumed

- Consensus is an oracle. It may answer anything at every call, within a law stated next to it:
  an accepted transaction has no duplicate inputs and gets the fee and mass its content determines,
  with a positive mass (`Validation`); only an inserted block gains a body (`OrphanBlocks`); the
  virtual UTXO set is a function of the virtual parents and is enumerated without repetition
  (`UtxoIndices`). Nothing is assumed about which answer comes when, and the virtual block may move
  between any two calls.
- Hashes are ideal: an ID names one transaction, and a transaction spends only outputs of
  transactions hashed before it.
- The minimum relay fee is positive, as the mempool's own constructor sets it.
- The database writes single keys and transactions atomically, and every read and write may fail.
- Fee rates come from an arbitrary function, so floating-point rounding of a rate is covered.
  Selection weights are real numbers.
- Time and random draws are parameters.

## Where a stated property does not hold as it stands

- The bookkeeping of chained transactions after a block is exact if and only if the block holds, for
  each of its transactions that was chained, every mempool parent it waited for. The order inside the
  block does not matter (`TxChains.ExactAfterBlock`, `TxChains.StaleAfterBlock`, with a concrete block
  in `TxChains.StaleExample`).
- Update of the UTXO index gives the index of the new UTXO set if and only if no outpoint comes back
  under its stored script with another entry. Otherwise the old entry stays, and over every run of
  changes outpoints and scripts stay right (`UtxoIndices.UTXOIndex.Update`,
  `UtxoIndices.ReaddedEntryIsStale`, `UtxoIndices.StoredAllFollows`).
- Decoding an address undoes encoding if and only if the prefix is not empty, printable and free of
  upper-case letters. Decoding reads out of range exactly on formatted strings with at most one data
  symbol, and every prefix has such strings (`Bech32.RoundTrip`, `Bech32.OutOfRangeExactly`,
  `Bech32.ShortIsOutOfRange`).
- The compact form of a target is precise if and only if its exponent fits into 8 bits. The order of
  compact numbers is that of their targets for those that conversion yields, not for others. A greater
  target means no more work, except that target zero means none
  (`Difficulty.Precision`, `Difficulty.OrderNeedsCanonical`, `Difficulty.WorkAntitone`). For a negative
  number the right shift rounds its magnitude up. It is precise if and only if its exponent fits and its
  three leading bytes are not all ones with something behind them; then it becomes zero
  (`Difficulty.NegativePrecision`, `Difficulty.NegativeLostExample`).
- Orphan processing does not repeat until no acceptable orphan is left. When an output is looked up and
  consensus answers alike throughout, an orphan that would be accepted is accepted by every look if and
  only if every other orphan that redeems the output still misses something
  (`OrphanProcessing.AcceptedExactly`, with two orphans in `OrphanProcessing.PassedOverExample`).
- That pool transactions have no mempool parents is not kept by itself. It is kept together with a second
  property: every mempool output that a chained transaction spends is recorded as one it waits for. Entry
  keeps both if and only if nothing in the mempool, in the pool or chained, redeems the new transaction;
  removals keep both, and so does every block that meets exact bookkeeping
  (`Mempools.Mempool.AddTransaction`, `TxChains.RecordedAfterRemoval`, `TxChains.RecordedAfterBlock`). If
  a transaction enters that a chained one redeems, a block may move the chained one to the pool beside its
  parent (`TxChains.RedeemedEntryExample`, `TxChains.PromotedWithParentExample`).
- No orphan block is left behind with all parents present, but a parent that consensus found invalid
  does not count as present (`OrphanBlocks.FlowContext.UnorphanBlocks`,
  `OrphanBlocks.InvalidParentLeavesOrphan`).

The code is followed where a comment says something else: bech32.go names a limit of 90 characters
that is not checked; txselection.go speaks of a chance of 1 in 20 for a collision, but candidates
already drawn may hold almost 0.95 of the weight; mempool.go says that orphan processing repeats
until there are no more acceptable orphans, but for each output it stops at the first invalid one.

## Model

| member | source | states |
|---|---|---|
| MempoolUtxoSets.MempoolUTXOSet.PopulateUTXOEntries | domain/miningmanager/mempool/mempool_utxoset.go:28-36 | fills in exactly the entries of mempool outputs that the inputs spend; the parents are those inputs, without repetition if the inputs have none |
| MempoolUtxoSets.MempoolUTXOSet.AddTx | domain/miningmanager/mempool/mempool_utxoset.go:59-76 | succeeds if and only if no input is spent or repeated and no output exists, which is what checkExists tells; then exactly the spends and outputs of the transaction are added |
| MempoolUtxoSets.MempoolUTXOSet.RemoveTx | domain/miningmanager/mempool/mempool_utxoset.go:80-98 | succeeds if and only if all inputs are spent, without repetition, and all outputs exist; then exactly these go |
| FeeRateIndices.FeeRateIndex.FindTxIndex | domain/miningmanager/mempool/mempool.go:552-572 | fails if and only if fee or mass is zero; otherwise the binary search finds the slot before which every rate is at most, and from which every rate is at least, that of the transaction |
| FeeRateIndices.SortedByRate | domain/miningmanager/mempool/mempool.go:552-572 | a list is strictly sorted exactly if the rates, as real numbers, ascend and the IDs order equal rates |
| FeeRateIndices.FeeRateIndex.SlotIsExact | domain/miningmanager/mempool/mempool.go:586-596 | in a sorted list, the slot of a listed transaction is where it stands |
| FeeRateIndices.FeeRateIndex.InsertKeepsAscending | domain/miningmanager/mempool/mempool.go:574-584 | insertion at the slot keeps the list strictly sorted by rate and ID |
| FeeRateIndices.FeeRateIndex.RemoveKeepsAscending | domain/miningmanager/mempool/mempool.go:597-598 | removal keeps it sorted and removes exactly that element |
| FeeRateIndices.FeeRateIndex.Add | domain/miningmanager/mempool/mempool.go:574-584 | the list gains exactly the transaction; its rates ascend as real numbers, and equal rates are ordered by ID |
| FeeRateIndices.FeeRateIndex.Remove | domain/miningmanager/mempool/mempool.go:586-599 | a listed transaction is found and exactly it goes; the rates of the rest still ascend; removal neither fails nor indexes past the end |
| OrphanPools.OrphanPool.Unindex | domain/miningmanager/mempool/mempool.go:189-201 | the orphan leaves every bucket of its inputs, and empty buckets go |
| OrphanPools.OrphanPool.RemoveOrphan | domain/miningmanager/mempool/mempool.go:181-216 | removes exactly the orphan and, if asked, its transitive redeemers among the orphans; it terminates on any redeeming relation, also a cyclic one |
| OrphanPools.OrphanPool.RemoveOrphanAndRedeemers | domain/miningmanager/mempool/mempool.go:181-216 | the same for a whole call: the index stays the exact inverse of the orphans |
| OrphanPools.OrphanPool.RemoveOrphanDoubleSpends | domain/miningmanager/mempool/mempool.go:334-340 | exactly the orphans that spend an input of the transaction go, with their transitive redeemers |
| OrphanPools.OrphanPool.ExpireOrphans | domain/miningmanager/mempool/mempool.go:226-239 | exactly the expired orphans go, with their transitive redeemers |
| OrphanPools.OrphanPool.LimitNumOrphans | domain/miningmanager/mempool/mempool.go:222-267 | when a scan is due the expired orphans go with their redeemers and the next scan is due 300,000 ms later; then at most one other orphan goes, and there is room for one more |
| OrphanPools.OrphanPool.AddOrphan | domain/miningmanager/mempool/mempool.go:272-297 | unless none are allowed the orphan is stored, to expire after 900,000 ms, and of the others exactly those go that the scan and the limit remove; the next scan moves exactly if one was due; the limit and the exact index are kept |
| OrphanPools.NoSpenderLeft | domain/miningmanager/mempool/mempool.go:334-340 | with the buckets of some outpoints gone, no orphan spends one of them |
| Redeemers.PruningEnds | domain/miningmanager/mempool/mempool.go:412-435 | pruning redeemers one closure at a time, in any order and through diamonds, ends with exactly the closure removed |
| Redeemers.ClosureStep | domain/miningmanager/mempool/mempool.go:503-512 | removing the closures of several seeds one after another removes exactly the closure of all of them |
| Redeemers.ClosureThen | domain/miningmanager/mempool/mempool.go:865-871 | removing the closure of some seeds and then of others, in what is left, removes exactly the closure of all |
| MempoolInvariant.NoDoubleSpend | domain/miningmanager/mempool/mempool_utxoset.go:59-65 | under the invariant no two mempool transactions spend one outpoint |
| MempoolInvariant.CoreAdd | domain/miningmanager/mempool/mempool.go:521-550 | the exact indexes stay exact when a transaction that double spends nothing enters |
| MempoolInvariant.CoreRemove | domain/miningmanager/mempool/mempool.go:441-452 | and when a transaction leaves |
| MempoolInvariant.RankRises | domain/miningmanager/mempool/mempool.go:415-423 | what transitively redeems a transaction ranks above it, the measure of the recursion |
| MempoolInvariant.RedeemerGone | domain/miningmanager/mempool/mempool.go:415-423 | after the redeemer of an output is removed, nothing spends the outputs handled so far, and the root is still there |
| MempoolInvariant.NoDoubleSpenderLeft | domain/miningmanager/mempool/mempool.go:501-514 | when only the transaction itself spends its inputs, no double spender is left |
| TxChains.CountDown | domain/miningmanager/mempool/mempool.go:469 | counting a descriptor down changes its count by one and no other count |
| TxChains.LinksAfterRemoval | domain/miningmanager/mempool/mempool.go:487-492 | the records of chained transactions stay exact when one without redeemers is removed with its records |
| TxChains.ChainAfterAddition | domain/miningmanager/mempool/mempool.go:524-537 | records and counts stay exact when a transaction enters with its mempool parents |
| TxChains.MinedStep | domain/miningmanager/mempool/mempool.go:461-481 | when a record is dropped, every count is the number of its remaining records, and a chained transaction has moved to the pool exactly if none remains |
| TxChains.ExactAfterBlock | domain/miningmanager/mempool/mempool.go:389-407 | if the block holds the parents of its chained transactions, the bookkeeping after it is exact |
| TxChains.StaleAfterBlock | domain/miningmanager/mempool/mempool.go:389-407 | if it does not, the bookkeeping is not exact |
| TxChains.StaleExample | domain/miningmanager/mempool/mempool.go:389-407 | from exact records and counts, mining a child without its parent leaves records that are not exact; mined with the parent, or after it, it does not |
| TxChains.RecordedIfUnredeemed | domain/miningmanager/mempool/mempool.go:521-550 | pool transactions stay without mempool parents, and chained ones wait for all of theirs, when a transaction enters that nothing in the mempool redeems |
| TxChains.UnredeemedIfRecorded | domain/miningmanager/mempool/mempool.go:521-550 | and only then |
| TxChains.RecordedAfterRemoval | domain/miningmanager/mempool/mempool.go:412-452 | the same is kept when a transaction is removed with its records |
| TxChains.RecordedAfterBlock | domain/miningmanager/mempool/mempool.go:389-407 | and by every block, from exact records: what moves to the pool has no mempool parent left |
| TxChains.RedeemedEntryExample | domain/miningmanager/mempool/mempool.go:524-537 | a parent that enters after a chained child: exact records and counts, a pool without mempool parents, and an unrecorded wait |
| TxChains.PromotedWithParentExample | domain/miningmanager/mempool/mempool.go:461-481 | a block that holds the other parent then moves the child to the pool beside this one |
| Validation.MinRequiredTxRelayFee | domain/miningmanager/mempool/policy.go:57-75 | in signed integers of 64 bits the fee is at most the maximum amount, and zero only if the relay fee is zero |
| Validation.RelayFeeExact | domain/miningmanager/mempool/policy.go:57-75 | within 63 bits it is the relay fee for every thousand bytes, at least the relay fee and at most the maximum |
| Validation.RelayFeeWrapped | domain/miningmanager/mempool/policy.go:57-75 | for every size and relay fee, from what 64 bits keep of their product: the relay fee if that is below a thousand either way, the maximum if it is negative otherwise, and else a thousandth, at most the maximum |
| Validation.OneSompiPerByte | domain/miningmanager/mempool/policy.go:57-75 | with the relay fee the mempool is made with it is one sompi for each byte, up to the maximum, for every size up to 2^63 / 1000 bytes |
| OrphanProcessing.SettledDecides | domain/miningmanager/mempool/mempool.go:822-861 | a look at an output for which some orphan does not miss anything settles such an orphan, as the rules decide about it |
| OrphanProcessing.PassedOver | domain/miningmanager/mempool/mempool.go:823-838 | any orphan of the output that does not miss anything may be the one that a look settles, and then every other one is left out of the mempool |
| OrphanProcessing.AcceptedExactly | domain/miningmanager/mempool/mempool.go:816-861 | an orphan that would be accepted is accepted by every look at its output, if and only if every other orphan of that output still misses something |
| OrphanProcessing.PassedOverExample | domain/miningmanager/mempool/mempool.go:823-838 | an orphan that breaks a rule and one that would be accepted, where a look ends without accepting the second |
| OrphanProcessing.TraceAdvances | domain/miningmanager/mempool/mempool.go:793-863 | over every run of looks orphans only go, at least one for each accepted; what is accepted was an orphan that redeems an output looked up, and nothing else enters; with room for all orphans nothing is evicted; it fails once exactly if consensus did |
| OrphanProcessing.ClearedMore | domain/miningmanager/mempool/mempool.go:865-871 | clearing the spenders of some outpoints and then of others clears exactly the spenders of all, with their redeemers |
| OrphanProcessing.ProcessedAdvances | domain/miningmanager/mempool/mempool.go:792-874 | the same as for a run of looks holds of the whole of processOrphans |
| BlockProcessing.RunKeeps | domain/miningmanager/mempool/mempool.go:1004-1018 | over every run of block transactions, with room for all orphans every transaction stays that neither double spends the block nor transitively redeems what does; nothing enters but accepted orphans |
| BlockProcessing.RunSpares | domain/miningmanager/mempool/mempool.go:1004-1018 | every orphan stays that is not in the block, not accepted, and not reached from one found invalid or one that spends what the block or an accepted transaction spends |
| BlockProcessing.BlockKeeps | domain/miningmanager/mempool/mempool.go:987-1021 | both for a whole block, after its transactions left the mempool; it fails exactly if consensus did |
| Mempools.Mempool.constructor | domain/miningmanager/mempool/mempool.go:99-120 | a new mempool is empty, satisfies every invariant, rates by the given fee rate and scans its orphans first after 300,000 ms |
| Mempools.Mempool.FetchTxDesc | domain/miningmanager/mempool/mempool.go:638-644 | finds the descriptor of every mempool transaction, chained or not, and none otherwise |
| Mempools.Mempool.RemoveChainTransaction | domain/miningmanager/mempool/mempool.go:487-492 | the chained transaction goes with the records of its inputs |
| Mempools.Mempool.CleanTransactionFromSets | domain/miningmanager/mempool/mempool.go:441-452 | never fails on a mempool transaction and removes it from every structure, keeping all exact |
| Mempools.Mempool.RemoveTransactionAndItsChainedTransactions | domain/miningmanager/mempool/mempool.go:412-435 | removes exactly the transaction and its transitive redeemers, never fails, restores the invariant, keeps the chained bookkeeping exact and every wait recorded |
| Mempools.Mempool.AddTransaction | domain/miningmanager/mempool/mempool.go:521-550 | never fails; the transaction is in the pool if it has no mempool parent and chained otherwise, and all invariants are kept; pool transactions stay without mempool parents and all waits recorded if and only if nothing in the mempool redeems it |
| Mempools.Mempool.Promote | domain/miningmanager/mempool/mempool.go:475-478 | a chained transaction moves to the pool and stays in the mempool |
| Mempools.Mempool.UpdateBlockTransactionChainedTransactions | domain/miningmanager/mempool/mempool.go:459-482 | exactly the records on outputs of the mined transaction are dropped, with counts and places following |
| Mempools.Mempool.RemoveTransactionsFromPool | domain/miningmanager/mempool/mempool.go:389-407 | never fails; exactly the block's transactions after the coinbase leave; chained ones move to the pool when they wait for nothing; exact bookkeeping stays exact if and only if the block holds the parents of its chained transactions; pool transactions stay without mempool parents and all waits recorded |
| Mempools.Mempool.EnforceTransactionLimit | domain/miningmanager/mempool/mempool.go:601-613 | above 1,000,000 transactions, one whose rate, as a real number, is at most every other rate goes with exactly its transitive redeemers; otherwise nothing changes |
| OrphanProcessing.AddedWithinBounds | domain/miningmanager/mempool/mempool.go:732-764 | a transaction that consensus accepts is added if and only if no bound of the policy speaks against it: mass, relay fee for its size, standard inputs |
| OrphanProcessing.BoundsAfterEntry | domain/miningmanager/mempool/mempool.go:601-613 | every transaction stays within these bounds when one that is enters and the limit is enforced |
| Mempools.Mempool.Ask | domain/miningmanager/mempool/mempool.go:706-717 | the check for existing outputs never fires; consensus is asked once, with the mempool outputs that are spent |
| Mempools.Mempool.MaybeAcceptTransaction | domain/miningmanager/mempool/mempool.go:657-780 | the transaction is added, reported missing, rejected or failed exactly as checks, verdict and policy say; nothing changes unless it is added, and the limit and the bounds of the policy are kept |
| Mempools.Mempool.DecisionIs | domain/miningmanager/mempool/mempool.go:657-780 | checks and verdict depend on the mempool only through its transactions, because the indexes are exact |
| Mempools.Mempool.RemoveDoubleSpends | domain/miningmanager/mempool/mempool.go:501-514 | exactly the other spenders of its inputs go, with their transitive redeemers |
| Mempools.Mempool.TryOrphan | domain/miningmanager/mempool/mempool.go:824-860 | what the rules decide about the orphan, from checks, verdict and policy, happens: it enters and leaves the orphans, leaves them as invalid with exactly its redeemers, or stays; consensus is asked once or not at all |
| Mempools.Mempool.ProcessOutput | domain/miningmanager/mempool/mempool.go:816-861 | the orphans that spend the output are tried until one is accepted, invalid or fails; those before it were asked about and miss something, and if none is settled that holds of all of them |
| Mempools.Mempool.ProcessItem | domain/miningmanager/mempool/mempool.go:803-862 | every output is looked up in order, each look starting where the one before ended; a failure cuts it short |
| Mempools.Mempool.DrainOrphans | domain/miningmanager/mempool/mempool.go:793-863 | terminates by twice the orphans plus the list; the looks are those at every output of the transaction and of all that is accepted, in the order of acceptance, and what they accept is returned |
| Mempools.Mempool.ClearDoubleSpends | domain/miningmanager/mempool/mempool.go:865-871 | exactly the orphans that spend an input of the given transactions go, with their transitive redeemers |
| Mempools.Mempool.ProcessOrphans | domain/miningmanager/mempool/mempool.go:792-874 | the looks and then the clearing, unless consensus failed; every invariant is kept |
| Mempools.Mempool.MaybeAddOrphan | domain/miningmanager/mempool/mempool.go:302-325 | stored if and only if it is not too large; the next scan moves exactly if it is stored and a scan was due |
| Mempools.Mempool.ValidateAndInsertTransaction | domain/miningmanager/mempool/mempool.go:887-940 | keeps every invariant; inserted, orphaned, refused or broken exactly as checks, verdict, policy and orphan rules say, and broken exactly if consensus failed; a transaction that enters is followed by its orphans, and otherwise nothing changes but what is stored as an orphan; an inserted transaction leaves no orphan that double spends it and is in the mempool if there was room; of what consensus accepts, exactly what exceeds the maximum mass, pays less than the relay fee or has non-standard inputs against the policy is refused; the next orphan scan moves exactly if one was due |
| Mempools.Mempool.SettleTransaction | domain/miningmanager/mempool/mempool.go:1004-1018 | exactly the double spenders of the block transaction leave with their redeemers, it is no orphan any more, and the orphans are processed; afterwards neither mempool nor orphans hold a spender of its inputs, unless consensus accepted one meanwhile |
| Mempools.Mempool.HandleNewBlockTransactions | domain/miningmanager/mempool/mempool.go:987-1021 | keeps every invariant for every block; the steps of its transactions tell what goes, enters and stays; with room for all orphans every transaction stays that is not in the block and does not depend on a double spend of it, and every orphan stays that nothing removes; it fails exactly if consensus did; on success no mempool transaction and no orphan spends what the block spends unless consensus accepted that meanwhile, and no block transaction is an orphan; waits stay recorded if no accepted orphan was redeemed before it entered |
| Checksums.StepLinear | util/bech32/bech32.go:285-291 | a step of the checksum is linear over exclusive or |
| Checksums.StepInjective | util/bech32/bech32.go:285-291 | and injective for every symbol |
| Checksums.FoldLinear | util/bech32/bech32.go:282-294 | the checksum of any two sequences of one length differs by the checksum of their difference |
| Checksums.FoldWindow | util/bech32/bech32.go:282-294 | up to eight symbols taken in from zero are kept as they are |
| Checksums.BurstDetected | util/bech32/bech32.go:223-227 | for every length and every place, two sequences that differ only within eight consecutive symbols have different checksums |
| Checksums.ComputePolyMod | util/bech32/bech32.go:282-295 | the loop over 40-bit integers computes the remainder of the polynomial |
| Checksums.KnownRemainder | util/bech32/bech32_test.go:20 | the remainder behind a:0qf6jrhtdq |
| Checksums.UnpackZero | util/bech32/bech32.go:257 | the integer is zero exactly if the remainder is |
| BitRegrouping.ExtractBits | util/bech32/bech32.go:181-209 | one turn moves the next bits of the input behind the bits taken in so far |
| BitRegrouping.RegroupBits | util/bech32/bech32.go:166-221 | for all widths, with and without padding, the result is the bits of the input cut into groups |
| BitRegrouping.FlattenGroups | util/bech32/bech32.go:166-221 | groups put one after another are the bits they were cut from |
| BitRegrouping.EightToFiveToEight | util/bech32/bech32.go:24-26 | from eight bits to five and back is the identity on every byte string |
| BitRegrouping.FirstSymbol | util/bech32/bech32.go:166-226 | the first symbol of regrouped bytes is the upper five bits of the first byte |
| BitRegrouping.FiveToEightIsEmpty | util/bech32/bech32.go:48-49 | regrouping five-bit symbols gives nothing exactly for at most one symbol |
| Bech32.ComputeBase32 | util/bech32/bech32.go:153-162 | the character of every symbol, and nothing if one is out of range |
| Bech32.ParseBase32 | util/bech32/bech32.go:135-146 | the symbols of the characters, or an error if one is none of them |
| Bech32.Base32RoundTrip | util/bech32/bech32.go:133-162 | decoding undoes encoding |
| Bech32.Base32Inverse | util/bech32/bech32.go:133-162 | encoding undoes decoding |
| Bech32.ComputeChecksum | util/bech32/bech32.go:228-245 | the eight symbols of the remainder, highest first |
| Bech32.VerifyChecksum | util/bech32/bech32.go:249-258 | true exactly if the remainder is zero |
| Bech32.ChecksumVerifies | util/bech32/bech32.go:228-258 | a payload followed by its checksum verifies |
| Bech32.VerifiedIsChecksum | util/bech32/bech32.go:228-258 | verified data ends with the checksum of what comes before, so a checksum is unique |
| Bech32.CorruptionDetected | util/bech32/bech32.go:223-258 | verified data does not verify after a corruption within eight consecutive symbols |
| Bech32.ColonDetected | util/bech32/bech32.go:84-115 | a colon written within eight positions of the separator makes the string refused |
| Bech32.StringCorruption | util/bech32/bech32.go:57-115 | if at most eight consecutive characters behind the separator of an accepted string are replaced, the result is refused unless only cases changed or a colon was written; a colon becomes the separator and the old one a part of the prefix, and near the old one that is refused too |
| Bech32.ParseFormat | util/bech32/bech32.go:57-131 | decode undoes encode, in lower and in upper case |
| Bech32.ParsedIsGood | util/bech32/bech32.go:57-94 | a decoded prefix is not empty, printable and without upper case |
| Bech32.AcceptedCharacters | util/bech32/bech32.go:57-80 | an accepted string has at least ten characters, all printable, and letters of one case only |
| Bech32.ParsedIsFormatted | util/bech32/bech32.go:57-131 | every accepted string is the formatted form of what it is parsed into, in lower or in upper case |
| Bech32.ParseExactly | util/bech32/bech32.go:57-131 | a string is parsed into a prefix and data if and only if it is their formatted form |
| Bech32.RoundTrip | util/bech32/bech32.go:30-53 | Decode of Encode gives back prefix, payload and version if and only if the prefix is good |
| Bech32.EncodedStarts | util/bech32/bech32.go:31-39 | an encoded string starts with the prefix and a colon, and the next character is that of the upper five bits of the version |
| Bech32.EncodeExample | util/bech32/bech32_test.go:20 | prefix a, version 120 and no payload are written a:0qf6jrhtdq |
| Bech32.OutOfRangeExactly | util/bech32/bech32.go:48-50 | Decode indexes past the end exactly on the formatted strings with at most one data symbol |
| Bech32.ShortIsOutOfRange | util/bech32/bech32.go:48-50 | every prefix has such strings |
| Difficulty.CompactToBigWithDestination | util/difficulty/difficulty.go:47-70 | the destination holds the number that the compact form stands for |
| Difficulty.CompactToBig | util/difficulty/difficulty.go:37-41 | the same for a new number |
| Difficulty.CompactExamples | util/difficulty/difficulty_test.go:75-100 | known compact numbers, positive, negative and truncated, and the numbers they stand for, and two encodings |
| Difficulty.BigToCompact | util/difficulty/difficulty.go:76-112 | exponent and mantissa are the length with a sign bit and the leading 23 bits, in 32 bits; for a negative number the sign bit and the leading bits of its magnitude, rounded up |
| Difficulty.Precision | util/difficulty/difficulty.go:47-112 | there and back loses at most the last of 23 bits, never gains, if and only if the exponent fits |
| Difficulty.NegativePrecision | util/difficulty/difficulty.go:76-112 | a negative number there and back keeps a precision of 2^-15, if and only if its exponent fits and its leading bytes do not round over |
| Difficulty.NegativeLostExample | util/difficulty/difficulty.go:93-110 | a negative number that becomes zero |
| Difficulty.ShortNumbersFit | util/difficulty/difficulty.go:86-107 | every number of at most 254 bytes fits |
| Difficulty.ExactWhenSmall | util/difficulty/difficulty.go:72-75 | there and back is exact below 2^23 |
| Difficulty.ReEncode | util/difficulty/difficulty.go:47-112 | a compact number comes back from a target that is not negative if and only if it is canonical |
| Difficulty.EncodeMonotone | util/difficulty/difficulty.go:76-112 | a greater number has no smaller compact form |
| Difficulty.CanonicalOrder | util/difficulty/difficulty.go:47-70 | canonical compact numbers are ordered as their targets |
| Difficulty.OrderNeedsCanonical | util/difficulty/difficulty.go:47-70 | others need not be |
| Difficulty.GreatestBelow | util/difficulty/difficulty.go:72-112 | there and back gives the greatest representable number not above the original |
| Difficulty.NoWork | util/difficulty/difficulty.go:123-135 | the work is zero exactly for target zero and for targets of 2^256 and more |
| Difficulty.WorkAmount | util/difficulty/difficulty.go:123-135 | for a positive target t the work w is the quotient: w * (t + 1) <= 2^256 < (w + 1) * (t + 1) |
| Difficulty.TwoTo256 | util/difficulty/difficulty.go:13-15 | the numerator is the 32nd power of 256 |
| Difficulty.WorkExample | util/difficulty/difficulty.go:114-135 | the target of 0x207fffff is worth two |
| Difficulty.WorkAntitone | util/difficulty/difficulty.go:114-135 | the work through the encoding falls with the target, exactly unless the smaller target is zero and the greater has work |
| TxSelection.FindTx | domain/miningmanager/blocktemplatebuilder/txselection.go:198-213 | the search stops, in bounds, on a candidate whose range holds the draw |
| TxSelection.DropMarked | domain/miningmanager/blocktemplatebuilder/txselection.go:171-178 | the unmarked candidates in their order |
| TxSelection.AssignRanges | domain/miningmanager/blocktemplatebuilder/txselection.go:180-188 | the ranges are as wide as the weights and lie one after another |
| TxSelection.RebalanceCandidates | domain/miningmanager/blocktemplatebuilder/txselection.go:166-190 | exactly the unmarked candidates, laid out by the cubes of their values |
| TxSelection.MarkForDeletion | domain/miningmanager/blocktemplatebuilder/txselection.go:71-75 | count and weight of the used candidates are those of the marked ones |
| TxSelection.MarkOne | domain/miningmanager/blocktemplatebuilder/txselection.go:71-75 | marking one candidate adds one to the count and its weight to the weight |
| TxSelection.RebalanceIfDue | domain/miningmanager/blocktemplatebuilder/txselection.go:79-88 | rebalancing drops the marked candidates, exactly when they hold 0.95 of the weight; before a draw nothing is marked, or what is marked holds less |
| TxSelection.RelaidByMarks | domain/miningmanager/blocktemplatebuilder/txselection.go:79-88 | the running sums decide about rebalancing as the cubes of the values of the selected candidates do |
| TxSelection.MassCheck | domain/miningmanager/blocktemplatebuilder/txselection.go:104-105 | the check in 64 bits is the check without a bound |
| TxSelection.Tally | domain/miningmanager/blocktemplatebuilder/txselection.go:104-147 | a candidate fits if and only if the unbounded sum of masses stays within the limit; then the totals are those sums |
| TxSelection.Advance | domain/miningmanager/blocktemplatebuilder/txselection.go:78-153 | the candidates are laid out again if that is due; the draw, scaled to their total weight, falls into the share of the candidate it hits; that is selected unless it was hit before or does not fit |
| TxSelection.Run | domain/miningmanager/blocktemplatebuilder/txselection.go:78-153 | every draw hits the candidate into whose share it falls in the layout that the earlier hits determine; the selected candidates are those hit, each once, in the order of their first hit; every draw is used unless nothing is left or one falls on a candidate without room |
| TxSelection.SortBySubnetwork | domain/miningmanager/blocktemplatebuilder/txselection.go:155-157 | a sorted permutation |
| TxSelection.SelectTransactions | domain/miningmanager/blocktemplatebuilder/txselection.go:59-164 | each candidate is selected at most once and marked exactly then; the selected ones are those the draws fall on, in the layouts that earlier hits determine; total mass is the unbounded sum and within the limit, total fees are the sum modulo 2^64; all are selected, a draw falls on one without room, or the draws ran out |
| OrphanBlocks.FlowContext.AddOrphan | app/protocol/flowcontext/orphans.go:25-48 | the block is added and, above 600, exactly one block is evicted |
| OrphanBlocks.FlowContext.FindChildOrphansOfBlock | app/protocol/flowcontext/orphans.go:133-144 | exactly the orphans with the block as a parent, each once |
| OrphanBlocks.FlowContext.AddChildOrphansToProcessQueue | app/protocol/flowcontext/orphans.go:114-131 | the queue continues with exactly these, without duplicates |
| OrphanBlocks.FlowContext.CanBeUnorphaned | app/protocol/flowcontext/orphans.go:78-91 | true exactly if every parent has a status that is not header-only; an error exactly if a lookup failed |
| OrphanBlocks.FlowContext.UnorphanBlock | app/protocol/flowcontext/orphans.go:146-164 | the orphan leaves and is handed to consensus once |
| OrphanBlocks.FlowContext.ProcessNext | app/protocol/flowcontext/orphans.go:70-105 | one turn keeps the queue duplicate-free, inside the orphans and complete, and shrinks the orphans or the queue; an error exactly if a lookup or the insertion failed |
| OrphanBlocks.AfterAttempt | app/protocol/flowcontext/orphans.go:92-104 | queue and completeness after an insertion, whatever consensus answers |
| OrphanBlocks.FlowContext.UnorphanBlocks | app/protocol/flowcontext/orphans.go:60-108 | terminates; only orphans with known parents that descend from the root are handed over, each once; without an error no orphan child of the root or of an inserted block is left whose parents all have bodies; an error exactly if a lookup or an insertion failed; at each attempt every parent has a status that is not header-only |
| OrphanBlocks.SoundParents | app/protocol/flowcontext/orphans.go:78-91 | every block handed over has, at that moment, only parents with a status that is not header-only |
| OrphanBlocks.InvalidParentLeavesOrphan | app/protocol/flowcontext/orphans.go:84-105 | blocks for which an orphan is left though all its parents are known, one of them as invalid |
| OrphanBlocks.FlowContext.GetOrphanRoots | app/protocol/flowcontext/orphans.go:167-213 | terminates and returns, each once, exactly the non-orphans reached by parent links through orphans that have no status or only a header; an error exactly if a lookup failed |
| UtxoIndexCodec.KeyStringRoundTrip | domain/utxoindex/model.go:26-43 | the two conversions are inverse in both directions |
| UtxoIndexCodec.KeyStringLayout | domain/utxoindex/model.go:26-34 | the string is the version in two bytes, the lower first, and then the script |
| UtxoIndexCodec.HashesRoundTrip | domain/utxoindex/serialization.go:40-72 | deserializing gives the hashes again, and every truncation is refused |
| UtxoIndexCodec.SerializedLayout | domain/utxoindex/serialization.go:40-52 | the bytes are the count in eight bytes, the lowest first, and then each hash in 32 bytes |
| UtxoIndexCodec.SerializeHashes | domain/utxoindex/serialization.go:42-51 | the buffer is the length in eight bytes and the hashes |
| UtxoIndexCodec.DeserializeHashes | domain/utxoindex/serialization.go:53-72 | the announced hashes, or the error; no wrapped position is used |
| UtxoIndexStores.AddedView | domain/utxoindex/store.go:29-62 | adding what is not in view never fails and brings it, or the entry still stored there, into view |
| UtxoIndexStores.RemovedView | domain/utxoindex/store.go:64-96 | removing what is in view never fails and takes it out of view |
| UtxoIndexStores.BucketForKey | domain/utxoindex/store.go:119-120 | a staged script is written to its own bucket |
| UtxoIndexStores.CommitOrderIrrelevant | domain/utxoindex/store.go:108-165 | whatever is staged, a commit may delete and put in either order |
| UtxoIndexStores.UtxoIndexStore.Add | domain/utxoindex/store.go:29-62 | the staging after add, and an error exactly if the outpoint is being added already |
| UtxoIndexStores.UtxoIndexStore.Remove | domain/utxoindex/store.go:64-96 | the staging after remove, and an error exactly if the outpoint is being removed already |
| UtxoIndexStores.UtxoIndexStore.Discard | domain/utxoindex/store.go:102-106 | nothing is staged |
| UtxoIndexStores.UtxoIndexStore.Commit | domain/utxoindex/store.go:108-165 | the index becomes the view and the marker the virtual parents in one step, or nothing changes, exactly if a database call failed |
| UtxoIndexStores.UtxoIndexStore.AddAndCommitOutpointsWithoutTransaction | domain/utxoindex/store.go:167-185 | the pairs are written; without a marker every state on the way is coherent; an error exactly if a write failed |
| UtxoIndexStores.UtxoIndexStore.UpdateAndCommitVirtualParentsWithoutTransaction | domain/utxoindex/store.go:187-190 | only the marker is written |
| UtxoIndexStores.UtxoIndexStore.GetUTXOOutpointEntryPairs | domain/utxoindex/store.go:242-274 | exactly the entries of the script; refused if something is staged, and otherwise an error exactly if the cursor failed |
| UtxoIndexStores.UtxoIndexStore.GetVirtualParents | domain/utxoindex/store.go:276-287 | the parents the marker names, or none; refused if something is staged, and otherwise an error exactly if the read failed or the marker holds no hashes |
| UtxoIndexStores.UtxoIndexStore.DeleteAll | domain/utxoindex/store.go:289-315 | the marker goes first, so every state on the way is coherent; on success nothing is left; an error exactly if a database call failed |
| UtxoIndices.KeepsEntriesOfDiff | domain/utxoindex/utxoindex.go:97-148 | with nothing staged the condition for an exact update is one on the diff alone |
| UtxoIndices.ReaddedEntryIsStale | domain/utxoindex/store.go:35-43 | a diff for which the index keeps the old entry |
| UtxoIndices.StoredFollows | domain/utxoindex/utxoindex.go:97-148 | after a change of the virtual set the index has its outpoints and scripts, and is its index exactly if what comes back is unchanged |
| UtxoIndices.StoredAllFollows | domain/utxoindex/utxoindex.go:97-148 | the same over every run of changes |
| UtxoIndices.WithPairsIndexes | domain/utxoindex/store.go:167-185 | a list written into an empty index gives the index of its set |
| UtxoIndices.UTXOIndex.RemoveUTXOs | domain/utxoindex/utxoindex.go:150-166 | never fails on what is there, and the view follows |
| UtxoIndices.UTXOIndex.AddUTXOs | domain/utxoindex/utxoindex.go:132-148 | never fails on what is absent, and the view follows |
| UtxoIndices.UTXOIndex.Update | domain/utxoindex/utxoindex.go:97-130 | an error exactly if the database failed; the view is the index of the changed set if and only if no outpoint comes back with another entry; the reported additions are exactly the new slots with their entries, and the reported removals exactly the old slots that are gone; the database stays recoverable |
| UtxoIndexStores.StagedIsDifference | domain/utxoindex/store.go:212-236 | what is staged to be added is exactly what the new index has and the old has not, with its entry in the new; what is staged to be removed is exactly what the old has and the new has not |
| UtxoIndices.UTXOIndex.WritePages | domain/utxoindex/utxoindex.go:55-73 | pages of 1000 cover the list exactly, each behind the last outpoint; an error exactly if a call failed or found other virtual parents |
| UtxoIndices.UTXOIndex.Reset | domain/utxoindex/utxoindex.go:43-77 | every state on the way is coherent, whatever fails and however the virtual block moves; it succeeds exactly if no call fails and consensus names the same parents throughout; the marker then names them and the index holds their UTXO set |
| UtxoIndices.UTXOIndex.IsSynced | domain/utxoindex/utxoindex.go:79-94 | synced exactly if the marker names the parents that consensus names now, and then the index holds their UTXO set; with nothing staged an error exactly if a call failed |
| UtxoIndices.New | domain/utxoindex/utxoindex.go:22-41 | on success no call failed, and the index holds the UTXO set of parents that consensus named during the call, the marker says so, and nothing is staged; an error only if a call failed or the parents changed meanwhile |
| UtxoIndices.Restart | domain/utxoindex/utxoindex.go:22-41 | the same after a crash, from any state that a write may have left |
| UtxoIndices.UTXOIndex.UTXOs | domain/utxoindex/utxoindex.go:168-177 | exactly the UTXOs of the script; refused if something is staged, and otherwise an error exactly if the database failed |
| Notifications.ConvertPairs | app/rpc/rpccontext/utxos_by_addresses.go:15-33 | every pair once, with the address |
| Notifications.ConvertOutpoints | app/rpc/rpccontext/utxos_by_addresses.go:37-49 | every outpoint once, with the address |
| Notifications.NotificationListener.PropagateUTXOsChangedNotifications | app/rpc/rpccontext/notificationmanager.go:261-271 | the addresses are subscribed under their scripts, the last of several for a script |
| Notifications.NotificationListener.StopPropagatingUTXOsChangedNotifications | app/rpc/rpccontext/notificationmanager.go:276-284 | exactly the scripts of the addresses go |
| Notifications.NotificationListener.ConvertByAddresses | app/rpc/rpccontext/notificationmanager.go:309-319 | going through the addresses tells every change at a subscribed address once |
| Notifications.NotificationListener.ConvertUTXOChangesToUTXOsChangedNotification | app/rpc/rpccontext/notificationmanager.go:286-323 | so does whichever way is chosen |
| Notifications.OneNotification | app/rpc/rpccontext/notificationmanager.go:289-320 | the two ways give the same notification but for its order |
| Notifications.TellingMirrors | app/rpc/rpccontext/notificationmanager.go:286-323 | a client that mirrors the index at its addresses mirrors it again after replaying a notification |
| Notifications.DeliveryMirrors | app/rpc/rpccontext/notificationmanager.go:142-164 | also if empty notifications are not sent |
| Notifications.NotificationManager.NotifyUTXOsChanged | app/rpc/rpccontext/notificationmanager.go:142-164 | every listener that propagates is sent exactly what tells of the changes, and the others nothing; if a route takes nothing, some listeners were told so, and the others were sent nothing |
| Notifications.UpdateAndNotify | app/rpc/manager.go:120-129 | end to end for one change: every subscribed client that mirrored the stored index mirrors it again, unless a route takes nothing; the index follows the changed set as Update says; on an error a database call failed, or none did and a route takes nothing; each message tells a subscriber exactly the difference between the old and the new index at its addresses, nothing on both sides |
| Notifications.ToldDifference | app/rpc/rpccontext/notificationmanager.go:286-323 | a subscribed client is told of exactly the additions and removals of its addresses: what was not there before and is now, with its entry, and what was and is no more |
| Notifications.UpdateAndNotifyAll | app/rpc/manager.go:51-60 | over every run of changes, which stops at the first error: the index follows the changes so far, has the outpoints and scripts of the virtual set they lead to, and is its index if nothing came back changed; every subscribed client that mirrored the stored index at the start mirrors it at the end, unless a route takes nothing; an error has one of these two causes |
| Notifications.GetUTXOsByAddresses | app/rpc/rpchandlers/get_utxos_by_addresses.go:12-45 | exactly the UTXOs of the addresses, or the answer that one cannot be decoded, exactly if one cannot |
| Notifications.AnswerKnown | app/rpc/rpchandlers/get_utxos_by_addresses.go:21-44 | a client that takes over the answer knows exactly the UTXOs of its addresses |
| Notifications.MirrorsExactly | app/rpc/rpccontext/notificationmanager.go:286-323 | to mirror the index at the subscribed addresses is to know exactly their UTXOs |
| Notifications.SubscriberKnows | app/rpc/rpccontext/notificationmanager.go:142-164 | a client that asked for its subscribed addresses and replayed whatever it was sent since knows exactly the UTXOs of these addresses in the set the index holds now |

## Left out

- GetBlockTemplate and RemoveTransactions: removal skips the first of its transactions, so nothing is claimed about the retry.
- TxSelection.SelectTransactions: candidates are native, because other subnetworks panic before; a candidate of mass zero, for which a trace message divides by zero, is not told apart; the unstable sort is a stable one here; the draws are a finite list, so whether the loop ends for random draws is not stated.
- OrphanProcessing.AcceptedExactly: consensus answers a question alike whenever it is asked; the runs of looks do not assume that.
- Bech32.StringCorruption: a colon written more than eight positions behind the separator is only shown to change the prefix.
- Bech32.CorruptionDetected: only bursts; the claim about six errors anywhere needs the minimum distance of the code.
- Mempools.Mempool.ValidateAndInsertTransaction: entries that a failed attempt leaves in the inputs of a transaction object are not modelled, and output indexes do not wrap at 2^32.
- UtxoIndices.UTXOIndex.Reset: changes staged by an update whose commit failed stay staged, as in the code; the statement is about the database.
- Notifications.UpdateAndNotifyAll: subscriptions do not change during the run, and a reset of the index, after which clients are told to ask again, ends it.
- Notifications.SubscriberKnows: the client asks for the addresses as it subscribed them; of two spellings of one address only the last subscribed one is told of changes.
- UtxoIndexCodec.DeserializeHashes: the allocation for an announced length that no memory can hold is not modelled.
- The bytes of database keys: buckets are assumed distinct, and outpoints and entries are stored by faithful codecs.
- The rules behind the oracles: script standardness, signatures, hashing, proof of work, block validation.
- Locks: every operation runs alone, as under its mutex.
- The mempool's struct is split into objects for its UTXO set, its fee-rate list and its orphans; the constants of its policy are parameters.
- Other notifications, flags and listeners' routes, hash rates and logging, which would only add easy members.
