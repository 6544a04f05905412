# Klayr Service in Dafny

A model of the parts of Klayr Service that keep derived data in step with something that moves
under them, and proofs about whole runs of it.

`dafny verify dfyconfig.toml` checks everything.

## What is modelled

**The block index.** The indexer keeps a copy of a chain that can fork. `Blocks` has the blocks and
what one block adds to the aggregates, `BlockIndex` the tables and the two kinds of jobs,
`IndexRuns` the invariant of all runs, `Convergence` the catching up with a node, `RoundTrip`
indexing followed by deletion, `DeleteQueue` the pause protocol between the two queues, `RowRuns`
the rows of transactions and events, `BlockLaws` what one block changes, `GenesisAssets` the base
value of the locked totals. A run is any list of index jobs (each with whatever valid chain the
node has at that moment) and deletion jobs above genesis, each of which may fail and be rolled
back. Ids determine blocks, and all node chains share the genesis block.

**The search for missing blocks.** `GapQuery` states the SQL query declaratively and proves the
batch loop against it; `Scheduler` is the coordinator's side.

**The dynamic fee estimator.** `FeeWindow`, `FeeLevels`, `FeeEstimator` and `FeeCache`, over
`real`. The smoothing factor and the decay factor are parameters.

**The application registry.** `MetadataIndex` is the index of metadata files and its rebuild,
`RegistrySync` the incremental sync, `FileGroups` the grouping of its diff. Both tables are one map
whose keys tell them apart.

**Smaller pieces.** `SchemaCodec` (with `Literals`) is the schema parser and JSON printer,
`LikePattern` the escaping of search text, `ExportCache` the per-day export cache, `Pagination` the
two-query paging, `BalanceQueue` the set of pending balance updates. `Sorting` is a stable sort,
`Options` the optional values.

## Where the code does not do what it promises

The modules named prove when it goes wrong and when it does not.

- Locked totals drift. The totals are read outside the transaction that writes them
  (`services/blockchain-indexer/shared/indexer/utils/blockchainIndex.js:35`), so when one deletion
  removes several blocks that mention a token, only the last write counts. The same happens to a
  token that both the genesis assets and the genesis events mention. See `LockedTotals`.
- A failed deletion logs that it will be retried. But the wrapper swallows the error, so the queue
  never retries it, and it is put back only on a last attempt, which with five attempts configured
  is never the case. Exactly the deletions for which a call failed are lost (`DeleteQueue`);
  indexing repairs them when the node is ahead (`Convergence`).
- An index without genesis is repaired only if all its blocks turn out to be forked. On empty
  tables a job indexes the block above genesis without asking for a parent, and the height that is
  queued again after a deletion can be just that one. `Convergence.ConvergesIff` covers these
  states.
- A missing tail of more than 100 blocks is not scheduled by the tail re-check (`Scheduler`).
- A renamed chain keeps stale token rows when its token list is untouched (`RegistrySync`).
- A 64-bit zero at the root or in an array is not printed (`SchemaCodec`).
- Backslashes in search text are not escaped (`LikePattern`).
- Exporting an interval beyond today stores days that have not happened yet (`ExportCache`).
- A limit of zero lists all default applications (`Pagination`).
- Balance jobs are started by a timer that does not wait for the last one; overlapping jobs can
  store an old balance last (`BalanceQueue`).

## Model

| member | source | states |
|---|---|---|
| `Blocks.LockedChange` | services/blockchain-indexer/shared/indexer/blockchainIndex.js:340-358 | the accumulation loop (and its sign-flipped copy on deletion) computes the change map of an event list |
| `Blocks.ChangeIsNet` | services/blockchain-indexer/shared/indexer/blockchainIndex.js:618-638 | the change map has an entry for exactly the tokens some lock or unlock event names, and the entry is locks minus unlocks, negated when undoing |
| `BlockIndex.UpdateTotalLockedAmounts` | services/blockchain-indexer/shared/indexer/utils/blockchainIndex.js:30-41 | every changed token gets its committed total (read outside the transaction) plus its change; all other totals of the transaction stay |
| `BlockIndex.HeightToIndexIsFree` | services/blockchain-indexer/shared/indexer/blockchainIndex.js:156-162 | the height an index job picks is never in the index, so the branches that compare the node with an indexed block at the same height are dead |
| `BlockIndex.Database.IndexBlock` | services/blockchain-indexer/shared/indexer/blockchainIndex.js:135-447 | one index job: skip, fail, schedule the deletion of a parent with the wrong id, or extend all tables in one transaction; any fault leaves the tables as they were |
| `BlockIndex.Database.ExtendWith` | services/blockchain-indexer/shared/indexer/blockchainIndex.js:226-379 | the statements of the indexing transaction give the tables of the specification |
| `BlockIndex.Database.CreditGenerator` | services/blockchain-indexer/shared/indexer/blockchainIndex.js:263-323 | the generator row is created if missing, counts one more block, and gains the commission of a non-zero reward |
| `BlockIndex.DebitGenerator` | services/blockchain-indexer/shared/indexer/blockchainIndex.js:537-598 | the exact opposite on deletion, for an existing row |
| `BlockLaws.FirstRewardIsCredited` | services/blockchain-indexer/shared/indexer/blockchainIndex.js:291-323 | wherever the first reward event stands among the events, the generator gains one block and the commission for its amount, none for zero, and no other validator gains anything |
| `BlockLaws.WithoutRewardNoCommission` | services/blockchain-indexer/shared/indexer/blockchainIndex.js:291-299 | without a reward event the generator gains the block alone |
| `BlockLaws.FirstRewardIsDebited` | services/blockchain-indexer/shared/indexer/blockchainIndex.js:568-598 | the same amounts are taken off when the block is reverted |
| `BlockLaws.WithoutRewardNoDebit` | services/blockchain-indexer/shared/indexer/blockchainIndex.js:568-577 | and the block alone without a reward event |
| `BlockLaws.EventMovesTotal` | services/blockchain-indexer/shared/indexer/blockchainIndex.js:342-357 | one more event of a block moves the total of its own token, up by a lock and down by an unlock, and no other |
| `BlockLaws.RevertedTotal` | services/blockchain-indexer/shared/indexer/blockchainIndex.js:618-639 | reverting a block takes its net amount off the committed total of every token it mentions |
| `BlockIndex.Database.Undo` | services/blockchain-indexer/shared/indexer/blockchainIndex.js:490-651 | what the deletion transaction does for one block, with reads that see the committed tables |
| `BlockIndex.Database.DeleteIndexedBlocks` | services/blockchain-indexer/shared/indexer/blockchainIndex.js:474-689 | one deletion job: everything from the lowest height up, highest first, all or nothing |
| `IndexRuns.LowestIsMinimum` | services/blockchain-indexer/shared/indexer/blockchainIndex.js:456-456 | a deletion goes by the lowest of its heights |
| `IndexRuns.RowsFromTop` | services/blockchain-indexer/shared/indexer/blockchainIndex.js:450-472 | on a contiguous index the rows to delete are the suffix from the lowest requested height, in reverse |
| `IndexRuns.DeletionTruncates` | services/blockchain-indexer/shared/indexer/blockchainIndex.js:655-656 | deleting by block id removes exactly that suffix and nothing below it |
| `IndexRuns.IndexedBlockFits` | services/blockchain-indexer/shared/indexer/blockchainIndex.js:172-207 | a block that an index job accepts sits directly on top of the index and names its top block as parent |
| `IndexRuns.IndexStepKeepsChain` | services/blockchain-indexer/shared/indexer/blockchainIndex.js:135-207 | an index job keeps one contiguous, parent-linked interval of heights |
| `IndexRuns.DeleteStepKeepsChain` | services/blockchain-indexer/shared/indexer/blockchainIndex.js:450-472 | so does a deletion job |
| `IndexRuns.DeletionKeepsCounts` | services/blockchain-indexer/shared/indexer/blockchainIndex.js:537-551 | block counts and commissions stay exact under deletion |
| `IndexRuns.DeletionTotals` | services/blockchain-indexer/shared/indexer/blockchainIndex.js:618-639 | the exact effect of a deletion on a locked total: it is off by the changes that later writes of the same transaction overwrite |
| `IndexRuns.EveryRunKeepsTheIndex` | services/blockchain-indexer/shared/indexer/blockchainIndex.js:135-689 | in every state of every run of index jobs, deletion jobs, faults and reorganised nodes: one contiguous interval of parent-linked blocks, exact block counts and commissions, and each locked total equal to genesis amount plus locks minus unlocks plus the accumulated drift |
| `Convergence.AgreementIsAPrefix` | services/blockchain-indexer/shared/indexer/blockchainIndex.js:199-207 | if the top indexed block is on the node chain, the whole index is a prefix of it |
| `Convergence.ParentCheck` | services/blockchain-indexer/shared/indexer/blockchainIndex.js:172-207 | next to a taller chain the job indexes the next block if the top indexed block is on the chain, and schedules its deletion if not, whether the index starts at genesis or right above |
| `Convergence.CycleMakesProgress` | services/blockchain-indexer/shared/indexer/blockchainIndex.js:199-207 | on an index that starts at genesis, one index job with the deletion it schedules lowers (missing heights) + 2 (forked blocks) by one |
| `Convergence.ConvergesInExactly` | services/blockchain-indexer/shared/indexer/blockchainIndex.js:156-207 | from every reachable index and for every number n of cycles: the node chain is reached by then if and only if the condition of ConvergesIff holds and n is at least (H - last) + 2m, plus one when genesis has to be added |
| `Convergence.StuckUnlessTaller` | services/blockchain-indexer/shared/indexer/blockchainIndex.js:160-162 | with a node chain that is not taller, index jobs do nothing |
| `Convergence.ConvergesIff` | services/blockchain-indexer/shared/indexer/blockchainIndex.js:156-207 | repeated index jobs reach the node chain if and only if the index is empty and the job names genesis; or it starts at genesis and the chain is taller or equal; or it starts right above genesis, the chain is taller with another block there, and the job that meets the emptied index names genesis |
| `Convergence.SkippedGenesisIsNeverIndexed` | services/blockchain-indexer/shared/indexer/blockchainIndex.js:156-181 | a run of one job on empty tables that indexes the block above genesis; no taller chain with that block is ever reached |
| `LockedTotals.DeletionKeepsTotalsExactIff` | services/blockchain-indexer/shared/indexer/blockchainIndex.js:618-639 | a deletion keeps exact locked totals exact if and only if, per token, the removed blocks net to what the lowest of them mentioning the token nets to |
| `LockedTotals.MentionedOnceLosesNothing` | services/blockchain-indexer/shared/indexer/utils/blockchainIndex.js:30-41 | nothing is lost for a token that at most one removed block mentions, so single-block deletions are exact |
| `LockedTotals.GenesisTotalsExactIff` | services/blockchain-indexer/shared/indexer/blockchainIndex.js:228-230 | indexing genesis is exact if and only if its events mention no token that its assets lock |
| `LockedTotals.DeletedLocksStayCounted` | services/blockchain-indexer/shared/indexer/utils/blockchainIndex.js:34-38 | a concrete legal run after which a total is 7 although nothing is locked |
| `RoundTrip.BlocksRestored` | services/blockchain-indexer/shared/indexer/blockchainIndex.js:655-656 | indexing k further blocks and deleting from the lowest of them restores the block table |
| `RoundTrip.CountsRestored` | services/blockchain-indexer/shared/indexer/blockchainIndex.js:537-598 | ... every block count and commission |
| `RoundTrip.TotalsRestoredIff` | services/blockchain-indexer/shared/indexer/blockchainIndex.js:618-639 | ... every locked total, if and only if no change was overwritten |
| `RoundTrip.RowsRestoredIff` | services/blockchain-indexer/shared/indexer/blockchainIndex.js:517-565 | ... and the transaction and event rows, if and only if no new row has an old id and no old row names a new block |
| `RoundTrip.DexRestored` | services/blockchain-indexer/shared/indexer/blockchainIndex.js:648-650 | ... and the DEX effects: each cancels only as the latest one, which highest-first and swap-before-price deletion achieves |
| `RowRuns.EveryRunKeepsRows` | services/blockchain-indexer/shared/indexer/blockchainIndex.js:235-288 | in every state of every run whose node chains have no transaction or event twice, the rows are exactly those of the indexed blocks, each naming its block |
| `RowRuns.DeletionKeepsRows` | services/blockchain-indexer/shared/indexer/blockchainIndex.js:517-565 | a deletion removes exactly the rows of the removed blocks |
| `RowRuns.ReachableRoundTrip` | services/blockchain-indexer/shared/indexer/blockchainIndex.js:517-565 | so in such a state the round trip restores all rows |
| `DeleteQueue.EveryInterleavingIsSafe` | services/blockchain-indexer/shared/indexer/blockchainIndex.js:691-709 | in every interleaving of enqueued deletions and succeeding or failing calls, blocks are deleted only while the index queue is paused, and a drained idle deletion queue means a running index queue |
| `DeleteQueue.PauseOutlastsTheBody` | services/blockchain-indexer/shared/indexer/blockchainIndex.js:694-706 | no step between the start of a deletion and the waiting count resumes the index queue |
| `DeleteQueue.ResumedOnlyAfterEmptyCount` | services/blockchain-indexer/shared/indexer/blockchainIndex.js:704-706 | one step alone resumes the index queue, and only if the count of waiting deletions was zero |
| `DeleteQueue.CountIsOfTheRun` | services/blockchain-indexer/shared/indexer/blockchainIndex.js:748-752 | the count is that of an earlier step of the run, after which deletions were enqueued at most |
| `DeleteQueue.DrainedQueueResumesIndexing` | services/blockchain-indexer/shared/indexer/blockchainIndex.js:702-707 | from every such state, if calls succeed from then on, the worker drains its queue and leaves the index queue running |
| `DeleteQueue.EveryDeletionIsAccountedFor` | services/blockchain-indexer/shared/indexer/blockchainIndex.js:691-709 | every deletion is waiting, in hand, carried out or dropped as often as it was enqueued |
| `DeleteQueue.LostDeletionsAreTheFailedOnes` | services/blockchain-indexer/shared/indexer/blockchainIndex.js:698-701 | with several attempts configured the dropped deletions are exactly those for which a call failed, in that order; with one attempt none is dropped |
| `DeleteQueue.DeletionIsLostIff` | services/blockchain-indexer/shared/indexer/blockchainIndex.js:698-701 | a deletion is lost if and only if several attempts are configured and some call failed |
| `DeleteQueue.FailedDeletionIsLost` | framework/src/queue.js:29-38 | a concrete run, with the configured five attempts, that ends idle and drained with the deletion neither done nor waiting |
| `DeleteQueue.DeletionsAreTakenInTurn` | services/blockchain-indexer/shared/indexer/blockchainIndex.js:691-709 | with several attempts configured every deletion is taken up once and in the order of arrival |
| `GenesisAssets.IndexTokenModuleAssets` | services/blockchain-indexer/shared/indexer/genesisBlock.js:100-128 | the nested loops give, per token, the sum of all locked amounts (an entry exactly for tokens with one), and per user the available plus locked balance |
| `GenesisAssets.BalancesAddUp` | services/blockchain-indexer/shared/indexer/genesisBlock.js:105-117 | the balances of a token add up to what is available and what is locked of it |
| `GenesisAssets.LockedAdds` | services/blockchain-indexer/shared/indexer/genesisBlock.js:119-125 | what one more user locks counts for the token of that user alone |
| `GenesisAssets.TotalAdds` | services/blockchain-indexer/shared/indexer/genesisBlock.js:106-109 | the locked amounts of a user are summed up |
| `GenesisAssets.GenesisTotalIsLockedBalance` | services/blockchain-indexer/shared/indexer/genesisBlock.js:128-128 | after indexing a genesis block without lock events each stored total is what the genesis users have locked |
| `GapQuery.QueryRowsReport` | services/blockchain-indexer/shared/indexer/blockchainIndex.js:824-832 | the SQL query reports a height exactly when it lies in the gap below an indexed height strictly inside the batch, not reaching below the batch start when nothing lower is indexed |
| `GapQuery.BatchesCoverRange` | services/blockchain-indexer/shared/indexer/blockchainIndex.js:817-822 | every height of the range lies strictly inside a batch, but for its ends and the heights where two batches meet |
| `GapQuery.ShouldReportIff` | services/blockchain-indexer/shared/indexer/blockchainIndex.js:820-832 | the criterion without batches: missing, with a next indexed height m inside the range and not at a multiple of 25000 above its start, and above an indexed height or not below the batch of m |
| `GapQuery.FindMissingBlocksInRange` | services/blockchain-indexer/shared/indexer/blockchainIndex.js:801-851 | fewer than three indexed heights: the whole range; otherwise a height is reported if and only if it should be, and each range is a gap that ends below an indexed height of its own |
| `GapQuery.RangesAreDisjoint` | services/blockchain-indexer/shared/indexer/blockchainIndex.js:820-843 | ranges of all batches are pairwise disjoint |
| `GapQuery.GetMissingBlocks` | services/blockchain-indexer/shared/indexer/blockchainIndex.js:853-859 | the flattened list has exactly the reported heights, each once, and only un-indexed ones when at least three heights are indexed |
| `Scheduler.ScheduleBlocksIndexing` | services/blockchain-coordinator/shared/scheduler.js:114-148 | the jobs are an ascending permutation of the heights, cut into non-empty batches of at most 15000 |
| `Scheduler.QueriesCover` | services/blockchain-coordinator/shared/scheduler.js:257-265 | the query batches cover every height of the range and neighbours share exactly one |
| `Scheduler.MissingBlocksToSchedule` | services/blockchain-coordinator/shared/scheduler.js:243-292 | the scheduled heights are those some query reports, and as many from the top of the chain as the count says are still missing when these are 1 to 100 |
| `Scheduler.GapsAreFound` | services/blockchain-coordinator/shared/scheduler.js:251-279 | the gaps in terms of heights alone: what queries of 10000 heights find, up to the height of the chain or the most blocks one run may schedule |
| `Scheduler.SearchIsCapped` | services/blockchain-coordinator/shared/scheduler.js:252-255 | the search ends at the smaller of the two |
| `Scheduler.NothingReportedIff` | services/blockchain-coordinator/shared/scheduler.js:257-279 | on an index contiguous from genesis nothing is reported if and only if every query finds at least three indexed heights |
| `Scheduler.SparseQueriesAreReported` | services/blockchain-coordinator/shared/scheduler.js:257-279 | otherwise exactly the heights of the queries that find fewer are reported, indexed ones among them |
| `Scheduler.TailIsScheduledExactlyUpTo100` | services/blockchain-coordinator/shared/scheduler.js:281-292 | when nothing is reported the re-check schedules exactly the un-indexed heights if there are at most 100, and none otherwise |
| `Scheduler.TailOf101IsNotScheduled` | services/blockchain-coordinator/shared/scheduler.js:285-291 | a concrete index with 101 heights missing, for which nothing at all is scheduled |
| `Scheduler.AnyOrderIndexesTheTail` | services/blockchain-indexer/shared/indexer/blockchainIndex.js:156-162 | running as many jobs as heights are missing, whatever heights they name and in any order, indexes exactly the missing heights when the node agrees |
| `FeeWindow.CalculateAvgFeePerByte` | services/fee-estimator/shared/utils/dynamicFeesLIP.js:59-103 | the loop over the byte positions computes the window average |
| `FeeWindow.CountIsOverlapIff` | services/fee-estimator/shared/utils/dynamicFeesLIP.js:77-96 | when the counted bytes are the bytes in the window, and by how much they differ otherwise |
| `FeeWindow.AverageSeesItsWindow` | services/fee-estimator/shared/utils/dynamicFeesLIP.js:76-102 | the average depends on nothing but the sizes up to the end of the window and the priorities of the transactions that reach into it |
| `FeeWindow.ZeroAverage` | services/fee-estimator/shared/utils/dynamicFeesLIP.js:76-102 | it is zero when those have no priority |
| `FeeWindow.AverageIsAtMostTriple` | services/fee-estimator/shared/utils/dynamicFeesLIP.js:76-102 | the window average is between 0 and three times the highest priority, despite overlapping branches |
| `FeeWindow.TripleIsAttained` | services/fee-estimator/shared/utils/dynamicFeesLIP.js:76-102 | a block for which it is exactly three times |
| `FeeEstimator.CalculateFeePerByte` | services/fee-estimator/shared/utils/dynamicFeesLIP.js:124-143 | the three fee levels of a block, which keep the fee bounds for every P, with high at least 1.3 med + 1 |
| `FeeLevels.LevelsOfSorted` | services/fee-estimator/shared/utils/dynamicFeesLIP.js:126-131 | a block has the levels of its transactions in ascending order of (fee - minFee) / size |
| `FeeLevels.LevelsInPercent` | services/fee-estimator/shared/utils/dynamicFeesLIP.js:63-72 | the windows are 25 to 75 percent and 80 to 100 percent of 15 KiB |
| `FeeLevels.MedSeesItsWindow` | services/fee-estimator/shared/utils/dynamicFeesLIP.js:136-136 | the medium level does not change when transactions outside 25 to 75 percent pay differently, or those above change altogether |
| `FeeLevels.FreeMiddleIsFree` | services/fee-estimator/shared/utils/dynamicFeesLIP.js:136-136 | it is zero when all transactions in that window pay the minimum |
| `FeeLevels.HighSeesItsWindow` | services/fee-estimator/shared/utils/dynamicFeesLIP.js:137-140 | the same for the high level with 80 to 100 percent, given the medium level |
| `FeeLevels.FreeTopIsMargin` | services/fee-estimator/shared/utils/dynamicFeesLIP.js:137-140 | it is 1.3 med + 1 when all transactions in its window pay the minimum |
| `FeeLevels.LowLevelIsFirst` | services/fee-estimator/shared/utils/dynamicFeesLIP.js:135-135 | the low level is the priority of the first transaction in order from 12.5 KiB on, and zero below |
| `FeeLevels.ThreeTxLevels` | services/fee-estimator/shared/utils/dynamicFeesLIP.js:124-143 | the exact levels of a block of three transactions |
| `FeeEstimator.LowLevelIsLowest` | services/fee-estimator/shared/utils/dynamicFeesLIP.js:131-135 | the low level of a block of at least 12.5 KiB is the lowest priority in it |
| `FeeEstimator.CalculateWeightedAvg` | services/fee-estimator/shared/utils/dynamicFeesLIP.js:105-122 | the reducer computes the decaying weighted average |
| `FeeEstimator.WeightedAverageIsBetween` | services/fee-estimator/shared/utils/dynamicFeesLIP.js:113-121 | it lies between the smallest and the largest block |
| `FeeEstimator.WeightsAreGeometric` | services/fee-estimator/shared/utils/dynamicFeesLIP.js:109-121 | the i-th block from the newest has the weight decay^i: the average is a quotient of two polynomials in the decay factor |
| `FeeEstimator.FeePerByteIsBounded` | services/fee-estimator/shared/utils/dynamicFeesLIP.js:124-143 | the fee levels of a block keep the bounds, with high at least 1.3 med + 1 |
| `FeeEstimator.GapShrinks` | services/fee-estimator/shared/utils/dynamicFeesLIP.js:41-43 | over n equal blocks a deviation of the moving average shrinks by (1 - alpha)^n |
| `FeeEstimator.BatchKeepsShare` | services/fee-estimator/shared/utils/dynamicFeesLIP.js:30-33 | with the exact root as smoothing factor one batch keeps the share 1 - rate of a deviation |
| `FeeEstimator.RoundedBatchKeepsAbout` | services/fee-estimator/shared/utils/dynamicFeesLIP.js:30-33 | with the root rounded to five digits, as the code has it, the share is off by at most n half digits of the fifth place |
| `FeeEstimator.EmaIsBounded` | services/fee-estimator/shared/utils/dynamicFeesLIP.js:29-51 | smoothing keeps 0 <= low <= P, 0 <= med <= 3P, 1.3 med <= high <= 3.9P + 1 |
| `FeeEstimator.EstimateForBlock` | services/fee-estimator/shared/utils/dynamicFeesLIP.js:145-168 | the moving average under busy traffic, zero otherwise; bounds of the estimate before carry over |
| `FeeEstimator.QuietBatchIsFree` | services/fee-estimator/shared/utils/dynamicFeesLIP.js:151-161 | if no block of the batch has more than 12.5 KiB the estimate is zero |
| `FeeEstimator.BusyBatchIsSmoothed` | services/fee-estimator/shared/utils/dynamicFeesLIP.js:151-156 | if every block of the batch has more than 12.5 KiB, or the newest alone more than 14.8 KiB, the estimate is the moving average |
| `FeeEstimator.TrafficDecides` | services/fee-estimator/shared/utils/dynamicFeesLIP.js:151-161 | for every batch: the moving average exactly when the sizes weighted by powers of the decay factor average above 12.5 KiB, or the newest block is above 14.8 KiB |
| `FeeEstimator.TwoBlocksDecide` | services/fee-estimator/shared/utils/dynamicFeesLIP.js:151-161 | the same written out for two blocks |
| `FeeCache.BatchStaysAboveGenesis` | services/fee-estimator/shared/utils/dynamicFees.js:63-75 | a batch is never empty, has min(configured size, blocks above genesis) entries and reads no height at or below genesis |
| `FeeCache.StartIsLargest` | services/fee-estimator/shared/utils/dynamicFees.js:42-44 | a call starts at the largest of the configured height, the height above genesis and the one asked for |
| `FeeCache.BatchEntry` | services/fee-estimator/shared/utils/dynamicFees.js:70-77 | entry i of a batch is the block i heights below the newest |
| `FeeCache.ReadableIff` | services/fee-estimator/shared/utils/dynamicFees.js:63-79 | a pass needs the blocks of its batch and no other |
| `FeeCache.Pass` | services/fee-estimator/shared/utils/dynamicFees.js:70-84 | one pass advances by exactly one height and yields the fold of the one-block estimator |
| `FeeCache.Cache.EstimateBatch` | services/fee-estimator/shared/utils/dynamicFees.js:36-100 | the loop ends; the cache afterwards is the fold up to the height reached, for finished and for aborted calls; a call succeeds exactly when it gets to max(toHeight, previous height + 1) |
| `FeeCache.LivingCallReaches` | services/fee-estimator/shared/utils/dynamicFees.js:48-90 | a call that lives and can read goes on from the cached height, in quick mode from the start, to the height asked for or one further |
| `FeeCache.EveryEstimateIsBounded` | services/fee-estimator/shared/utils/dynamicFeesLIP.js:145-168 | every estimate of every run keeps the fee bounds |
| `FeeCache.AfterCallIsSound` | services/fee-estimator/shared/utils/dynamicFees.js:46-54 | a call keeps the cache equal to a value of the fold, and a full-mode call never moves it back |
| `FeeCache.EveryRunCachesTheFold` | services/fee-estimator/shared/utils/dynamicFees.js:36-93 | after any sequence of calls, dead ones included, the cached estimate is what one call from an empty cache would compute for its height |
| `MetadataIndex.TokenRowsHaveTokenKeys` | services/blockchain-app-registry/shared/metadataIndex.js:45-63 | a token list is upserted under exactly its lower-cased ids, with the chain name given |
| `MetadataIndex.DeleteFileRemovesItsRows` | services/blockchain-app-registry/shared/metadataIndex.js:152-187 | deleting a live file removes exactly the rows it stands for |
| `MetadataIndex.IndexFileAddsItsRows` | services/blockchain-app-registry/shared/metadataIndex.js:81-126 | indexing a file adds exactly the rows it stands for, given which app.json is read |
| `MetadataIndex.IndexAll` | services/blockchain-app-registry/shared/metadataIndex.js:189-223 | the rebuild, over the files in any order, gives an index that describes the tree |
| `MetadataIndex.AppIsIndexed` | services/blockchain-app-registry/shared/metadataIndex.js:65-78 | such an index has for every app.json a row under its network type and chain name, with chain ID, display name, directory, and whether the chain name is a default one |
| `MetadataIndex.TokenIsIndexed` | services/blockchain-app-registry/shared/metadataIndex.js:45-63 | and for every token that no later one in its list repeats a row under its id with A-Z turned to a-z, with chain name, network and token name |
| `MetadataIndex.EveryRowHasAFile` | services/blockchain-app-registry/shared/metadataIndex.js:189-223 | and no other rows |
| `MetadataIndex.DescriptionIsUnique` | services/blockchain-app-registry/shared/metadataIndex.js:189-223 | and there is only one such index |
| `RegistrySync.NewAppIsRead` | services/blockchain-app-registry/shared/metadataIndex.js:89-102 | when a token list is indexed the app.json read is the new one, and it exists |
| `RegistrySync.StepKeepsInv` | services/blockchain-app-registry/shared/utils/downloadRepository.js:309-365 | in every interleaving every step finds the files it reads, and the index is the union of the old rows of files not yet cleared and the new rows of files done |
| `RegistrySync.SomeFileCanMove` | services/blockchain-app-registry/shared/utils/downloadRepository.js:319-321 | until all files are done some file can move |
| `RegistrySync.SyncRefinesRebuildIff` | services/blockchain-app-registry/shared/utils/downloadRepository.js:298-368 | the incremental index is the one of the new tree if and only if no app with an untouched, non-empty token list changed its chain name |
| `RegistrySync.RenamedChainKeepsStaleTokens` | services/blockchain-app-registry/shared/metadataIndex.js:113-117 | a concrete sync of three steps after which the token row still has the old chain name |
| `RegistrySync.LiveIsRemote` | services/blockchain-app-registry/shared/utils/downloadRepository.js:370-384 | the deferred deletions and moves turn the old live tree into the new one |
| `RegistrySync.Registry.SyncWithRemote` | services/blockchain-app-registry/shared/utils/downloadRepository.js:266-401 | a sync that completes leaves the new tree and (under that condition) its index; one that fails before the commit changes neither |
| `FileGroups.GroupFiles` | services/blockchain-app-registry/shared/utils/downloadRepository.js:231-250 | the groups hold exactly the metadata files of the supported networks, each under its directory, and are sorted |
| `FileGroups.WantedIff` | services/blockchain-app-registry/shared/utils/downloadRepository.js:216-243 | a file is wanted if its network is supported and its name ends in app.json or nativetokens.json |
| `FileGroups.AppJsonComesFirst` | services/blockchain-app-registry/shared/utils/downloadRepository.js:235-237 | so in every group the app.json comes before the token list |
| `Literals.DecimalRoundTripIff` | services/blockchain-connector/shared/utils/parser.js:56-56 | reading and writing a decimal literal gives it back if and only if it is canonical |
| `Literals.ReadDigits` | services/blockchain-connector/shared/utils/parser.js:55-56 | the value of a decimal literal, digit by digit, with a sign or without, and of the empty one |
| `Literals.ReadableIff` | services/blockchain-connector/shared/utils/parser.js:55-56 | what is a decimal literal |
| `Literals.WrittenDigits` | services/blockchain-connector/shared/utils/parser.js:25-25 | how an integer is written, digit by digit |
| `Literals.HexRoundTripIff` | services/blockchain-connector/shared/utils/parser.js:53-53 | reading and writing hex gives it back if and only if it is lower-case and of even length |
| `Literals.WrittenByte` | services/blockchain-connector/shared/utils/parser.js:24-24 | a byte is written high half first |
| `Literals.WrittenBytes` | services/blockchain-connector/shared/utils/parser.js:24-24 | and bytes one after the other |
| `Literals.ReadingStops` | services/blockchain-connector/shared/utils/parser.js:53-53 | reading hex ends at the first pair that is no byte |
| `Literals.ReadingIgnoresCase` | services/blockchain-connector/shared/utils/parser.js:53-53 | and does not tell upper from lower case |
| `SchemaCodec.RoundTripIff` | services/blockchain-connector/shared/utils/parser.js:20-83 | for every JSON value and schema, printing the parsed value gives the value back if and only if it is in stable form: canonical literals of the right kinds, no klayr32 address, no 64-bit zero at the root or directly in an array, no object under an unknown key |
| `SchemaCodec.IntegersParse` | services/blockchain-connector/shared/utils/parser.js:47-57 | what integers parse to under every type, as numbers and as texts |
| `SchemaCodec.OtherTextsAreNoIntegers` | services/blockchain-connector/shared/utils/parser.js:55-56 | a text that is no integer becomes NaN under 32 bits and throws under 64 |
| `SchemaCodec.BooleansParse` | services/blockchain-connector/shared/utils/parser.js:47-57 | what booleans parse to, and what counts as true |
| `SchemaCodec.TextsParse` | services/blockchain-connector/shared/utils/parser.js:47-57 | texts stay texts, and an unknown type changes nothing |
| `SchemaCodec.BytesParse` | services/blockchain-connector/shared/utils/parser.js:53-53 | bytes in lower and upper case, and with something else behind them |
| `SchemaCodec.AddressesParse` | services/blockchain-connector/shared/utils/parser.js:50-53 | under the klayr32 format an address parses to its decoded bytes, as does their hex form, and a text that only looks like one throws |
| `SchemaCodec.AddressesInContainers` | services/blockchain-connector/shared/utils/parser.js:60-78 | the same in arrays and properties |
| `SchemaCodec.BadAddressesInContainers` | services/blockchain-connector/shared/utils/parser.js:60-78 | and what only looks like an address throws there too |
| `SchemaCodec.ArrayParsesElements` | services/blockchain-connector/shared/utils/parser.js:75-78 | an array is parsed element by element, and throws if an element does |
| `SchemaCodec.ObjectParsesProperties` | services/blockchain-connector/shared/utils/parser.js:60-73 | an object is parsed property by property under the same keys; an array property must be an array and an unknown one primitive |
| `SchemaCodec.LookupFindsFirst` | services/blockchain-connector/shared/utils/parser.js:62-62 | by the schema given for the key |
| `SchemaCodec.MismatchIsNotRestored` | services/blockchain-connector/shared/utils/parser.js:60-78 | an array under an object schema turns into an object; other mismatches throw |
| `SchemaCodec.PrintKeepsJson` | services/blockchain-connector/shared/utils/parser.js:20-41 | printing leaves JSON alone |
| `SchemaCodec.PrintedParsesBack` | services/blockchain-connector/shared/utils/parser.js:20-83 | parsing a printed typed value gives it back, zero included |
| `SchemaCodec.ZeroInArrayIsNotPrinted` | services/blockchain-connector/shared/utils/parser.js:21-28 | a 64-bit zero in an array comes back as a big integer |
| `LikePattern.ContainsIffNoBackslash` | framework/src/database/util.js:370-370 | the pattern matches exactly the texts that contain the search text, if and only if that has no backslash |
| `LikePattern.StartsIffNoBackslash` | framework/src/database/util.js:371-371 | the same for a beginning |
| `LikePattern.EndsIffNoInnerBackslash` | framework/src/database/util.js:372-372 | the same for an end, where a final backslash is harmless |
| `LikePattern.EscapedIsLiteral` | framework/src/database/util.js:26-29 | an escaped text without a backslash matches only itself |
| `LikePattern.WildcardMeaning` | framework/src/database/util.js:365-368 | with wildcards allowed, and no backslash, the patterns select texts of which a part, the start or the end matches |
| `LikePattern.BuildQuery` | framework/src/database/util.js:360-375 | for searches without backslashes the conditions select exactly the rows that meet all of them, with and without wildcards; an empty text adds no condition |
| `ExportCache.Exporter.Export` | services/export/shared/transactionsExport.js:851-904 | the day loop lists what cache and queries give and stores every day but today |
| `ExportCache.EveryRunIsTransparent` | services/export/shared/transactionsExport.js:855-904 | after any run of exports up to the current day, expiries and passing time, stored days are true and every export equals the freshly computed entries |
| `ExportCache.ExportKeepsSound` | services/export/shared/transactionsExport.js:893-901 | an export up to the current day stores only true, past days |
| `ExportCache.ExportStoresDays` | services/export/shared/transactionsExport.js:893-901 | an export stores every day of its interval but the current one, as a file if there is history and as a flag if not |
| `ExportCache.FreshSplits` | services/export/shared/transactionsExport.js:856-903 | the days are listed in order |
| `ExportCache.SafeForeverIff` | services/export/shared/transactionsExport.js:893-901 | an export keeps the cache right for every future if and only if it does not go beyond the current day |
| `Pagination.GetMetaList` | services/blockchain-app-registry/shared/metadata.js:82-107 | the two queries give one slice of default apps followed by the others, if and only if the limit is positive or no default app is left |
| `Pagination.SelectFilters` | services/blockchain-app-registry/shared/metadata.js:83-102 | what a query goes through is found part by part, in the order of the table |
| `Pagination.SelectOne` | services/blockchain-app-registry/shared/metadata.js:83-102 | and of a single application exactly if it is of the kind asked for |
| `Pagination.SliceEntries` | services/blockchain-app-registry/shared/metadata.js:82-107 | a slice has as many entries as there are, up to the limit, from the offset on |
| `Pagination.GetMetadata` | services/blockchain-app-registry/shared/metadata.js:189-222 | the over-fetching endpoint always gives that slice |
| `Pagination.PagesShowEveryAppOnce` | services/blockchain-app-registry/shared/metadata.js:82-107 | reading page after page shows every application exactly once |
| `BalanceQueue.WorkSet.Schedule` | services/blockchain-indexer/shared/indexer/accountBalanceIndex.js:62-66 | adds the entries to the set |
| `BalanceQueue.WorkSet.Trigger` | services/blockchain-indexer/shared/indexer/accountBalanceIndex.js:93-120 | every entry taken out of the set is refreshed or back in it |
| `BalanceQueue.PopKeepsInvIff` | services/blockchain-indexer/shared/indexer/accountBalanceIndex.js:93-97 | taking a batch keeps every out-of-date balance accounted for if and only if no out-of-date reading of one of its entries is under way |
| `BalanceQueue.RunKeepsInvIff` | services/blockchain-indexer/shared/indexer/accountBalanceIndex.js:93-120 | so it is all along a run, with any number of jobs side by side and any failures, if and only if every batch is taken like that |
| `BalanceQueue.NoUpdateIsLost` | services/blockchain-indexer/shared/indexer/accountBalanceIndex.js:93-120 | then, when all jobs are over, every entry whose stored balance is out of date is in the set |
| `BalanceQueue.OneAtATimeIsUndisturbed` | framework/src/microservice.js:178-182 | jobs that run one at a time are of that kind |
| `BalanceQueue.DisturbedBatchLosesAnUpdate` | services/blockchain-indexer/shared/indexer/accountBalanceIndex.js:102-108 | from every other batch, when no third job has the entry, the new job can go on to store first: the older balance is stored last, with the entry in no hands |
| `BalanceQueue.OverlapLosesAnUpdate` | services/blockchain-indexer/shared/indexer/accountBalanceIndex.js:103-107 | a concrete run of two overlapping jobs that ends with an old balance stored and an empty set |

## Left out

- Redis, Bull, knex, MySQL, sockets, HTTP, the file system, timers and logging: tables, sets,
  caches and files are maps and sets, a database transaction is all or nothing, and a job is one
  step (deletion jobs also in finer steps, for the pause protocol).
- The index job that is running when the index queue is paused: it is taken to be finished.
- Job timeouts, and failures inside the `finally` part of the deletion wrapper.
- Commands of transactions (`applyTransaction`, `revertTransaction`), event topics, public keys,
  finality flags, and the self-stake rewards, which are computed after transactions were reverted.
- The bodies of the price and swap bookkeeping: an effect and its inverse are opaque, and an
  inverse cancels only the latest effect.
- Events are part of a block: that deletion sees the events that were indexed, although they are
  fetched or cached separately, is assumed, and the commission is a fixed function of address,
  height and reward.
- The balance updates that a deletion schedules (the list is overwritten for each block).
- IEEE rounding in the fee estimator, and the time stamp of an estimate. Transactions without bytes
  are excluded, as they have no fee priority.
- Mutual exclusion of fee runs and the choice between quick and full estimates: the flags are
  frozen, and the two getters read each other's keys.
- BlockIndex.Database.IndexBlock: the height queued again with a deletion, and the balance updates
  a job schedules, are not part of its result.
- BlockIndex.Database.ExtendWith: no transaction commands, event topics or self-stake rewards.
- BlockIndex.Database.CreditGenerator: no self-stake rewards, for the reason above.
- BlockIndex.DebitGenerator: no self-stake rewards, for the reason above.
- BlockIndex.Database.Undo: no transaction commands or event topics.
- BlockIndex.Database.DeleteIndexedBlocks: no transaction commands, and no balance updates.
- Convergence.ConvergesIff: all jobs that meet an empty index name one height.
- MetadataIndex.IndexAll: two files never have a row with the same key; with shared keys the result
  depends on the order of the files. The same goes for the sync.
- RegistrySync.StepKeepsInv: in the old and the new tree every file has keys of its own and every
  nativetokens.json has an app.json beside it.
- RegistrySync.SyncRefinesRebuildIff: the same assumption on keys.
- RegistrySync.Registry.SyncWithRemote: the diff is exact, without renamed or copied files, and has
  no file whose name merely ends in app.json or nativetokens.json; failures after the commit, while
  files are moved, are left out.
- SchemaCodec.RoundTripIff: numbers are integers, property names are not those every object has,
  number literals other than signed digits are left out, the decoding of klayr32 addresses is a
  parameter, and the printer returns a new value where the original rewrites its argument.
- LikePattern.BuildQuery: characters compare exactly, where a database collation may ignore case.
- ExportCache.Exporter.Export: the day does not change during a call, and a day file is there as
  soon as it is written; the entries of a day are given (`getEntriesByChronology` is not modelled).
- Pagination.GetMetadata: requests for non-default applications only, whose offset is not a number;
  the rows of a query keep one order.
- GapQuery.GetMissingBlocks: a range whose end lies more than one below its start, for which the
  original throws, is excluded.
- BalanceQueue.NoUpdateIsLost: a change of a balance and its scheduling are one step.
- FeeCache.Cache.EstimateBatch: the chain is fixed during a run of calls.
- The gateway, the API client pool, subscriptions, parameter validation, response mappers, market
  prices and transaction statistics: they pass data on, or fetch it from outside, and keep no state
  that has to agree with something else.
- The merging of pending transactions (its pages can be short) and the encoding of the key-value
  store (a stored false reads back as true): neither keeps a simple law.
