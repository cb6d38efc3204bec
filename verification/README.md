# Verified model of a Badger fork with a hot tier

The repository is an MVCC key-value store: transactions over a log-structured merge tree, with
large values in a separate value log. The fork adds a hot tier next to the tree (levels 98 and
99), hot value-log files beside the cold ones, and a heat tree that tells hot keys from cold ones.

This project models the parts of it whose correctness is hard to see from the code, and proves for
all inputs and all runs what they are for:

- **Transactions.** Any interleaving of point-read and write transactions, with the two watermarks
  running behind their channels, is serializable in commit-timestamp order, and dropping old
  commits never changes a conflict verdict (`Oracle`, `Transactions`, `Serializability`, on top of
  `Watermark` and `WatermarkRuns`). A commit is refused only for a cause, the commit mark arrives, and
  from every reachable state a waiting transaction can be let go (`TxnProgress`).
- **The tree.** The version and tombstone filter keeps every answer that a reader may still ask
  for, and splitting a compaction changes nothing (`Compaction`, `Snapshots`); `Retention` says exactly
  which versions it keeps. Over any run of
  writes, flushes, compactions of both tiers, evictions and expiring entries the tree answers every
  read like the full history of writes if and only if each compaction was lossless, which can be
  told from the tables before it (`Lsm`, `LsmSafety`). Without eviction and expiry every compaction
  is, whatever base level is chosen; with them it is as long as nothing is moved past its own keys
  and what expires has nothing older in the way (`LsmReads`); and two runs from an empty tree, with
  the base levels that `levelTargets` gives, bring a key back when it is not (`LsmHarm`).
  `BaseLevel` has the choice of the base level itself.
- **Concurrent compactions.** What the admission table guarantees in any interleaving of compactions
  that finish or fail, and exactly what it does not (`Admission`, `AdmissionRuns`, `AdmissionHarm`,
  over the table lists of `Levels`).
- **Reads.** Point lookup through memtables, hot tier and levels, and iteration from the child
  iterators of every level through a tree of merge iterators and the snapshot filter, each against a
  specification over the union of all entries, and both against the history of writes (`Lookup`,
  `Children`, `Merge`, `MergeIterator`, `TxnIterator`, `Views`, `Agreement`).
- **Memtable, log and value log.** The compare-and-swap skiplist under any interleaving of Puts, and
  of Puts with a search or a Get; each of them ends when it goes on alone; replay of a log cut at any byte, and value pointers that read back
  after any later writes and rotations (`Skiplist`, `SkiplistSafety`, `SkiplistReads`, `SkiplistGets`,
  `SkiplistProgress`, `SkiplistTowers`, `Wal`, `VLogFormat`, `VLog`).
- **Table blocks.** Entries packed against the first key of their block, rebuilt by visits in any
  order, and searched across blocks (`Table`).
- **Heat tree and trie.** A self-splitting range tree over a pool of slots, exactly when a split
  routes every key, and the subscription trie (`HeatRouting`, `HeatTree`, `HeatGroups`, `Trie`).

`Keys` holds the one order that everything uses. Internal keys are byte strings ordered by user key
ascending, then version descending; `Keys.RankPreservesOrder` shows that replacing each user key by
the number of known keys below it keeps every comparison, and most modules then work with such
ranks. `HeatRouting`, `HeatTree`, `HeatGroups`, `Table`, `Trie`, `VLogFormat` and `VLog` work on bytes.

Code that changes state in place is modelled by classes and methods with the same fields, branches
and loops, proved against functions on values; the theorems about runs are lemmas about those
functions. Choices the code leaves to chance or to statistics (tower heights, which keys are hot,
which node has gone cold, which candidate a heuristic tries first) are arbitrary in the model. The
load of the read watermark during clean-up is a parameter, so the theorems hold for whatever the
concurrent load returns.

Where a promise of the code does not hold on all its inputs, the project gives an input that shows
it and proves exactly when it does hold:

- The comment above `levelTargets` (levels.go:412-427) says that the base level is the first
  non-empty level from the top. The code can pass over a level with data when the last level
  shrinks (`BaseLevel.BasePassesOver`), and does exactly under the condition of
  `BaseLevel.BaseIsFirstExactly`. `BaseLevel.OrderKeptExactly` says when a compaction of level 0 past
  other levels leaves upper levels newer than lower ones. For reads alone it does no harm:
  tombstones are written to both tiers, and `LsmReads.CalmIsTwinned` shows that this keeps every
  compaction lossless.
- Together with eviction from L99 it does: a run from an empty tree brings a deleted key back
  (`LsmHarm.EvictionBringsBack`). An entry that expires after its flush has no copy in the other
  tier, so an expired key can come back without any eviction (`LsmHarm.ExpiryBringsBack`). In both
  runs each base level is the one that the default options give for the sizes at that moment.
  `LsmSafety.ExactlyLossless` says for every run when reads stay exact, and `LsmReads.TidyIsSheltered`
  that they do with eviction and expiry as long as nothing passes over a level that holds one of its
  keys, and nothing older than an expiring entry lies in the other tier or above it.
- Two compactions into one level from two source levels can be admitted together and write tables
  that overlap, as level 0 and L99 both feed the base level (`AdmissionRuns.TwoSourcesCollide`), and
  a run in which they do leaves the level unsorted (`AdmissionHarm.SourcesCollide`); they overlap
  exactly when what they take from above is not apart (`AdmissionRuns.CollideExactly`).
- `validateWrites` accepts requests that run a file past 32 bits (`VLog.AcceptedIsNotEnough`). What it
  accepts always fits exactly for the requests that fit behind a whole file
  (`VLog.AcceptedFitsExactly`).
- A split of the heat tree on one prefix sends some key of the node to a child that does not take it
  exactly when a key of the node slips through the end of the prefix's range
  (`HeatRouting.SingleSplitRoutesExactly`); there are such keys exactly for prefixes that end in 0xFF
  and have another byte (`HeatRouting.SlipsWhen`). For a split on any number of prefixes, in
  whatever order the split keys come out, `HeatRouting.RoutesExactly` gives the finite condition.
- Subcompactions put out what a single pass would exactly if no version 0 of a split boundary is put
  out behind a newer one (`Snapshots.SplitsAreExactly`, `Snapshots.VersionZeroIsDuplicated`); commit
  timestamps start at 1.
- A value-log entry reads back exactly if key, value and checksum together fit 32 bits
  (`VLogFormat.EntryRoundTrip`), as those in a file within 32 bits do (`VLog.ValueLog.Read`).
- A key with an empty user part reads back as timestamp 0 (`Keys.ParseTsRoundTrip`).

## Model

| member | source | states |
|---|---|---|
| Keys.CompareKeysOrder | y/y.go:109-152 | Comparing two timestamped byte keys orders by user key, then by descending version; SameKey holds exactly for equal user keys |
| Keys.ParseTsRoundTrip | y/y.go:109-143 | User key and timestamp read back from the encoded key, the timestamp exactly when the user key is not empty or the timestamp is 0 |
| Keys.RankPreservesOrder | y/y.go:129-152 | On any finite set of user keys, comparison and key equality of byte keys are those of the abstract keys used elsewhere |
| Watermark.WaterMark.ProcessOne | y/watermark.go:137-203 | One mark changes counts, mark and waiters as specified: the new mark is the largest index whose predecessors are all finished, and exactly the waiters up to it are released |
| Watermark.WaterMark.Notify | y/watermark.go:176-202 | Both notification loops release the same waiters |
| Watermark.WaterMark.ProcessWait | y/watermark.go:205-220 | A waiter is released at once exactly when the mark has reached its index, otherwise kept |
| Watermark.AfterPop | y/watermark.go:156-171 | Popping finished indices leaves only indices above the new mark and never moves it back |
| WatermarkRuns.OpenedByDone | db.go:433-450 | The single Done sent on opening puts the mark at the largest version found |
| WatermarkRuns.RunInvariant | y/watermark.go:127-230 | In every legal run the assertion in processOne never fires, and heap and pending counts agree with the marks sent |
| WatermarkRuns.Monotone | y/watermark.go:150-175 | doneUntil never decreases |
| WatermarkRuns.NeverPasses | y/watermark.go:127-175 | With any number of marks still queued, doneUntil never passes an index whose Done has not been sent |
| WatermarkRuns.Reaches | y/watermark.go:156-175 | doneUntil reaches an index once everything up to it is done |
| WatermarkRuns.WaiterReleased | y/watermark.go:176-220 | A waiter is released by the very mark that first brings doneUntil to its index |
| Oracle.Orc.ReadTs | txn.go:82-97 | Hands out the timestamp below the next one and sends the Begin to the read mark |
| Oracle.Orc.FindConflict | txn.go:138-163 | Reports a conflict exactly when a retained commit after the snapshot wrote a fingerprint that was read |
| Oracle.Orc.NewCommitTs | txn.go:165-202 | Conflict verdict, clean-up, new timestamp and retained commit, all in one state change |
| Oracle.Orc.CleanupCommitted | txn.go:213-246 | Keeps exactly the commits above the read mark, in order |
| Oracle.Txn.Modify | txn.go:353-417 | Takes the write and its conflict key exactly when the transaction may write, key and value are within the limits and allowed, and the batch has room; otherwise the error says why and nothing changes |
| Oracle.Txn.Get | txn.go:473-532 | A transaction sees its own write first, and records a read that goes to the store; an empty key, a discarded transaction and a banned key are errors that record nothing |
| Oracle.Retain | txn.go:232-245 | The in-place clean-up keeps an entry exactly when it is above the mark |
| Serializability.RunsKeepInvariant | txn.go:82-254 | Every run of transactions keeps the invariant that ties oracle, channels, store and transactions together |
| Serializability.OpenReader | txn.go:82-105 | While a reader's Done has not been sent, the read mark stays at or below its snapshot, with any marks still queued |
| Serializability.CleanupBounds | txn.go:213-231 | The two assertions of newCommitTs hold in every reachable state |
| Serializability.CleanupIsInvisible | txn.go:138-246 | In every run the retained commits give each open transaction the verdict that the full history of commits would give |
| Serializability.Serializable | txn.go:82-661 | Serializability: run alone on the serial database at its place in commit order, each transaction, read-only ones included, returns exactly what its reads returned in the concurrent run; commit timestamps are unique |
| Serializability.FinalStatesAgree | txn.go:567-661 | Once no commit is in flight, the store answers every lookup at every timestamp like the serial execution |
| Serializability.SnapshotUntilCommit | txn.go:138-202 | Nobody wrote, between a transaction's snapshot and its commit, what it read |
| TxnProgress.MarkIsExact | txn.go:82-105 | In every run, with the queue of the commit mark empty, the mark has reached a timestamp given out exactly if no commit up to there is in flight |
| TxnProgress.AllCanStart | txn.go:82-105 | With no commit in flight besides, it stands at the last timestamp given out, and every waiting transaction can start |
| TxnProgress.WaitEnds | txn.go:82-254 | From every reachable state a waiting transaction can be let go by commits in flight coming to their end and marks being worked off, and nothing else |
| TxnProgress.ReadMarkReaches | txn.go:204-246 | With the queue of the read mark empty, it has reached the snapshot of every transaction that no open reader is at or below |
| TxnProgress.RefusedExactly | txn.go:138-202 | In every run a commit is refused exactly when a transaction stamped since its snapshot wrote a key with the fingerprint of one that it read from the store |
| TxnProgress.CleanupForgets | txn.go:165-246 | A granted commit leaves exactly the commits above the read mark as loaded, and its own |
| Compaction.AddKeys | levels.go:1093-1261 | One output table is exactly what the filter specification puts out from where the last one stopped, and ends between user keys; no key is begun in a table at its capacity, and a table ends early only then or for a wide overlap |
| Compaction.SeekFrom | levels.go:1264-1269 | Where a subcompaction starts: at the first entry not before its left end |
| Compaction.Subcompact | levels.go:1044-1341 | However the tables are cut, together they hold the filtered range, all versions of a user key lie in one table, and each table but the last was ended for a reason |
| Snapshots.FilterIsSublist | levels.go:1107-1233 | The output is a sorted part of the input |
| Snapshots.Removed | levels.go:1186-1233 | Why a version may be removed: a newer one at or below the discard timestamp survives, or it is dead and so is all above it, and nothing lies below |
| Snapshots.SnapshotsPreserved | levels.go:1093-1261 | For any number of versions to keep, discard bits and merge bits, no read at or above the discard timestamp changes its answer |
| Retention.KeptExactly | levels.go:1107-1233 | For any number K of versions to keep (0 for no limit): a version comes out exactly if it is not dropped, fewer than K versions of its key above it count, none of them deleted, expired or marked to discard what is below, and it is not itself dead and counting unless something overlaps; versions above the discard timestamp and merge versions do not count |
| Retention.StaleExactly | levels.go:1141-1257 | What comes out is counted as stale exactly if it is dead, or the newest version of its key discards what is below |
| Snapshots.AddSplits | levels.go:1543-1588 | The splits follow each other from the left end on at the biggest keys of the last table of each full round, the last table of all excepted, and the last one is open; at most five |
| Snapshots.FilterSplits | levels.go:1107-1233 | The filter distributes over a cut between user keys |
| Snapshots.SplitsAreExact | levels.go:1543-1588 | Subcompactions over the splits put out exactly the entries of one pass over the whole range |
| Snapshots.SplitsAreExactly | levels.go:1543-1588 | With versions 0 allowed: exactly when no version 0 of a bound is put out behind a newer version of it |
| Snapshots.RunSubcompactions | levels.go:1044-1451 | Each subcompaction with the discard timestamp it reads: the tables together hold what the splits put out, which is what one pass puts out if all read the same, and all versions of a user key lie in one table |
| Snapshots.EachSplitPreserves | levels.go:1044-1061 | Whatever discard timestamps the subcompactions read, no read at or above all of them changes its answer |
| Snapshots.VersionZeroIsDuplicated | levels.go:1566-1585 | A version 0 at a boundary would be put out twice |
| LsmSafety.CompactionIsExact | levels.go:1186-1233 | A compaction changes an answer at or above the discard timestamp exactly when nothing is found to overlap and a key whose newest version goes dead has a live older one elsewhere |
| LsmSafety.ColdMoveExact | levels.go:940-1032 | For the tables of a cold compaction: exactly when checkOverlap finds nothing and such a key lies in the cold tree outside them |
| LsmSafety.L0Step | levels.go:1751-1818 | Level 0 to any base level keeps the structure of the tree, and reads exactly when it is lossless |
| LsmSafety.LevelStep | levels.go:2279-2336 | Level n to n + 1 likewise |
| LsmSafety.HotStep | levels.go:1822-1882 | L98 to L99 keeps structure and reads |
| LsmSafety.EvictStep | levels.go:2059-2125 | Eviction from L99 to any base level keeps structure and reads |
| LsmSafety.ExpireStep | levels.go:1180-1233 | When entries expire, tree and history of writes go on to agree, and the structure stays |
| LsmReads.UntouchedIsNewer | levels.go:940-1032 | Where upper levels are newer, unless checkOverlap reports an overlap, everything of a key that a compaction leaves alone in the cold tree is newer than what it rewrites |
| LsmSafety.FlushKeeps | db.go:1267-1310 | A flush splits a memtable over both tiers, tombstones to both, and changes neither contents nor structure |
| LsmSafety.OutsideBottom | level_handler.go:438-450 | A table of the target outside the overlapping ones shares no user key with them and lies to one side |
| LsmSafety.ExactlyLossless | levels.go:940-1341 | In every run of writes, flushes, compactions, evictions and expiry, with any base levels, all reads still in use are answered like the full history of writes all along if and only if every compaction was lossless |
| LsmReads.OrdersHold | levels.go:1751-1882 | In every run memtables are newer than tables, level 0 and L98 are in order of age, L98 is newer than L99 and tables of a sorted level are separate; upper cold levels are newer where nothing is evicted or moved past its own keys |
| LsmReads.CalmIsTwinned | db.go:1267-1310 | In every run without eviction and expiry each dead cold version is covered in the hot tier, whatever the base levels, so every compaction is lossless |
| LsmReads.TidyIsSheltered | levels.go:2059-2125 | With eviction and expiry every compaction is lossless as long as nothing is moved past a level that holds one of its keys, and nothing older than an expiring entry lies in the other tier or above it |
| LsmReads.ReadsAreExact | levels.go:940-1341 | In these runs, and in all others whose compactions were lossless, a read at any timestamp still in use is answered from the tree as from the full history of writes |
| LsmHarm.EvictionBringsBack | levels.go:2059-2125 | A run from an empty tree, each base level the one of levelTargets under the default options for the sizes at that step, with an eviction past a level; after it a deleted key is read again |
| LsmHarm.ExpiryBringsBack | levels.go:940-1032 | A run from an empty tree with such base levels, without eviction, after which an expired key is read again |
| BaseLevel.LevelTargets | levels.go:435-500 | The loops compute the specified base level and target sizes |
| BaseLevel.ScaledIs | levels.go:456-465 | The size a level should have: the last level's, divided by the multiplier once for each level between |
| BaseLevel.BaseIsExactly | levels.go:456-500 | The base level over the sizes: from the deepest level whose scaled size is within the base size down past all empty levels, until the next one has data or is the last, and one more if that one is empty and the next too small |
| BaseLevel.BaseIsZeroExactly | levels.go:456-500 | When level 0 itself comes out as the base |
| BaseLevel.BaseIsFirstExactly | levels.go:456-500 | The base level is below a level with data exactly when some level with data has below it a level small enough to be a candidate, or is one itself above an empty level |
| BaseLevel.BasePassesOver | levels.go:484-500 | Sizes for which the base level is below a level with data |
| BaseLevel.OrderKeptExactly | levels.go:1751-1818 | Level 0 to the base level keeps upper levels newer exactly when, for each key on level 0 that a level between holds too, its newest version goes dead, is old enough and checkOverlap finds nothing |
| BaseLevel.OrderByArrivals | levels.go:1751-1818 | The same in terms of what arrives: no level passed over holds a version of a key that does |
| Levels.GetKeyRange | compaction.go:95-116 | The hull of the tables' ranges |
| Levels.SeekFinds | table/iterator.go:263-314 | What a seek lands on, if of the same user key, is the newest version at or below the timestamp |
| Levels.OnlyTableForKey | level_handler.go:349-361 | In a sorted level only the first table that ends at or after the key can hold a version the reader may see |
| Levels.LevelHandler.OverlappingTables | level_handler.go:438-450 | The tables that meet a key range are exactly one stretch of a sorted level |
| Levels.LevelHandler.GetTableForKey | level_handler.go:322-361 | Level 0 and L98: all tables newest first; a sorted level: at most one, and no other can hold the key |
| Levels.LevelHandler.Get | level_handler.go:365-393 | The newest version at or below the timestamp of everything in the level |
| Levels.LevelHandler.ReplaceTables | level_handler.go:109-212 | The list loses the old tables, gains the new, and comes back in id order for L98 and key order otherwise |
| Levels.LevelHandler.DeleteTables | level_handler.go:80-103 | Exactly the tables with the given ids go, the order stays |
| Levels.SortTables | level_handler.go:186-206 | A permutation in the order asked for |
| Levels.ApartAndOrdered | level_handler.go:195-206 | Sorted by smallest key, tables that are pairwise apart form a sorted level |
| Levels.KeptSorted | level_handler.go:80-103 | Deleting tables keeps a level sorted |
| Lookup.Controller.GetHotTier | levels.go:2738-2765 | The newest version in L98 and L99, where a hit in L98 ends the search |
| Lookup.Controller.Get | levels.go:2676-2734 | The newest version over what was seen and all levels |
| Lookup.DB.Get | db.go:893-921 | The newest version at or below the timestamp of everything stored, in memory, hot tier and levels |
| Lookup.FindsAbove | levels.go:2738-2765 | When L98 has a readable version, nothing newer is in L99 |
| Lookup.ReachableReady | levels.go:2676-2765 | Every reachable tree meets the conditions of the point lookup |
| Lookup.ReadInRun | db.go:893-921 | A lookup in any reachable tree is answered exactly from the full history of writes |
| SkiplistSafety.StepKeeps | skl/skl.go:247-335 | No step of a Put fails an assertion or leaves a level out of order |
| SkiplistSafety.OtherStays | skl/skl.go:295-335 | A step of one Put leaves intact what another has found out so far |
| SkiplistSafety.NeverStuck | skl/skl.go:273-335 | However the Puts interleave, no assertion fails and every writer can take its next step |
| SkiplistSafety.EachPutOnce | skl/skl.go:301-335 | Each Put takes effect at most once, and before it returns |
| SkiplistSafety.PutsLinearize | skl/skl.go:273-335 | The base list holds the map that the Puts build one at a time in the order in which they took effect |
| SkiplistSafety.WalkVisits | skl/skl.go:175-241 | Following a level's pointers visits each node linked there once, in key order |
| SkiplistSafety.LevelsAreSublists | skl/skl.go:295-335 | In every state of every run each level is strictly sorted and a part of the one under it |
| SkiplistProgress.FinishesAlone | skl/skl.go:273-335 | From any state of any run a Put that goes on alone returns |
| SkiplistTowers.HeightIsTallest | skl/skl.go:290-310 | In every state of every run no linked node is taller than the list, and some node has its height unless that is 1 |
| SkiplistTowers.WholeTower | skl/skl.go:310-335 | A Put that has returned has linked its node on every level of its tower, or not at all |
| SkiplistTowers.TowerIsDrawn | skl/skl.go:290-300 | The tower is as high as was drawn when the node was made |
| SkiplistReads.FindNear | skl/skl.go:175-241 | The nearest node on the side asked for, or none, and whether it is the key |
| SkiplistReads.FindLast | skl/skl.go:344-361 | The node with the largest key |
| SkiplistReads.Get | skl/skl.go:365-380 | The newest version of a user key at or below the timestamp in the map the Puts built |
| SkiplistGets.ReaderNeverStuck | skl/skl.go:175-241 | However Puts and a search interleave, the reader can take its next step |
| SkiplistGets.SearchLinearizes | skl/skl.go:175-241 | What a search returns was the nearest node on the side asked for at some moment between its first and its last step, whatever Puts go on meanwhile |
| SkiplistGets.GetLinearizes | skl/skl.go:365-380 | A Get during Puts returns the version that was the newest at some moment of its search, with the value of some moment from then on |
| SkiplistGets.GetIsAtomic | skl/skl.go:365-380 | Where no internal key is put twice, both at one moment: the Get answers as if it had run there alone |
| SkiplistProgress.ReturnsAlone | skl/skl.go:175-241 | From any state of any run a search that goes on alone ends |
| Merge.UnionMerged | table/merge_iterator.go:87-120 | Merging two unions gives the union of all the lists, the left one winning on equal keys |
| Merge.MergedAllIsUnion | table/merge_iterator.go:198-222 | Each key of any list once, in strict order, with the value of the leftmost list that has it, for any number of lists |
| Merge.FromMerged | table/merge_iterator.go:165-170 | Seeking in a merge is merging what seeking leaves of each side |
| Merge.ReverseMerge | table/merge_iterator.go:87-120 | Merging the reversed lists gives the reversed merge |
| MergeIterator.Iter.Fix | table/merge_iterator.go:87-120 | The smaller child wins and the other is past the current key |
| MergeIterator.Iter.Next | table/merge_iterator.go:141-150 | Takes exactly the current item off the merge |
| MergeIterator.Iter.Rewind | table/merge_iterator.go:157-162 | Back to the whole merge, from any state |
| MergeIterator.Iter.Seek | table/merge_iterator.go:165-170 | On to the rest of the merge from the key on, from any state |
| MergeIterator.NewMergeIterator | table/merge_iterator.go:198-222 | The tree halved at each node delivers the merge of all lists |
| MergeIterator.Drain | table/merge_iterator.go:141-170 | A full pass gives each key of the union once, in order |
| TxnIterator.Iterator.ParseItem | iterator.go:637-736 | One step of the goto loop, forward and reverse, against the stream specification |
| TxnIterator.Iterator.Prefetch | iterator.go:768-786 | Filling the queue never changes what is still to be delivered |
| TxnIterator.Iterator.Seek | iterator.go:793-822 | Starts the stream at the key, at the newest version the reader may see |
| TxnIterator.Iterator.Next | iterator.go:593-613 | Takes exactly the current item off the stream |
| TxnIterator.Collect | iterator.go:593-822 | Whatever the prefetch size, a pass from a key delivers the stream of the entries there |
| Views.StreamIsView | iterator.go:637-736 | A pass in either direction delivers exactly the newest live version at or below the read timestamp of every key, each once and in order |
| Views.ViewUnique | iterator.go:637-736 | There is only one such list, so forward passes, reverse passes and any prefetch size agree |
| Views.ReverseIsReversed | iterator.go:637-736 | Reverse iteration delivers the reversed list |
| Views.AllVersionsStream | iterator.go:660-675 | With all versions asked for, every visible one is delivered |
| Views.IterationAgreesWithGet | iterator.go:637-736 | Iteration delivers a key exactly when the point lookup finds it live, and the same version |
| Views.PendingShadows | txn.go:277-351 | A transaction's own writes shadow stored ones |
| Views.SeekView | iterator.go:793-822 | Seeking a key delivers the same live entries as seeking its newest readable version |
| Agreement.MergedCovers | levels.go:2779-2796 | Copies of an entry in several places are merged into one and nothing is lost |
| Children.ConcatIterator.Seek | table/iterator.go:517-538 | The two binary searches and the table's own seek: on to the rest of the level from the key |
| Children.ConcatIterator.Next | table/iterator.go:541-562 | Takes the current entry off, across the end of a table, in both directions |
| Children.ConcatIterator.Rewind | table/iterator.go:486-497 | Back to all entries of the level |
| Children.FlatHas | table/iterator.go:440-561 | What such an iterator goes through is strictly ordered and holds exactly what the level holds |
| Children.AppendIterators | level_handler.go:400-429 | One iterator for each table of level 0 and L98, newest first, and one for all tables of another level |
| Children.NewIterators | levels.go:2769-2796 | The children of an iteration are ordered and hold between them exactly what the database holds |
| Agreement.IterationInRun | iterator.go:472-508 | What merged children deliver that hold the tree of a run between them: for every key what a read of the full history of writes answers |
| Agreement.IterateInRun | iterator.go:472-508 | A full pass over the database, from its lists of tables on, delivers in key order and once for every key what a read of the full history of writes answers |
| Wal.Iterate | memtable.go:450-550 | Replay hands over exactly the records of the complete units at the front of the log that are not finish markers, all of them in log order, and returns where these units end |
| Wal.ParseIsLongest | memtable.go:495-540 | No reading of whole units off the front goes further than replay |
| Wal.CutFindsWholeUnits | memtable.go:450-550 | Cut a log of whole units anywhere: replay finds exactly the units that end at or before the cut, never part of a transaction |
| Wal.TransactionsAreWhole | memtable.go:450-550 | After a cut at any byte the units that end before it are handed over, entry by entry and in order, and nothing else: each transaction with all its entries or none |
| Wal.TruncateIsStable | memtable.go:209-221 | Truncating at the returned offset and replaying again gives the same units and offset |
| Wal.AppendAfterRecovery | memtable.go:176-221 | Writing on after a recovery: the recovered units, then the new ones |
| Admission.CompactStatus.OverlapsWith | compaction.go:131-138 | Whether some registered range on the level is not apart from the given one |
| Admission.CompactStatus.CompareAndAdd | compaction.go:203-235 | Registers ranges and tables, and adds the size to that of the source level, exactly when no registered range overlaps; otherwise changes nothing |
| Admission.CompactStatus.Delete | compaction.go:237-275 | Takes the ranges and tables of a compaction away and its size off the source level, and says whether all were there |
| Admission.PickTop | levels.go:1788-1802 | Oldest tables first, as long as each meets the range so far |
| Admission.FillFromUnordered | levels.go:1751-1882 | The one plan for level 0 or L98: oldest connected tables, or all when prefixes are dropped, with the target's tables that meet them; registered exactly when admitted |
| Admission.FillL0ToLbase | levels.go:1751-1818 | The same behind the gates: no compaction for an adjusted score between 0 and 1, nor while the oldest table is below four fifths of the file size |
| Admission.FillFromOrdered | levels.go:2279-2336 | The first candidate whose compaction is admitted, with its target tables and ranges; none exactly when no candidate's is |
| AdmissionRuns.RunningApart | compaction.go:203-275 | In every interleaving of compactions that finish or fail, from whatever sources, registered ranges on a level are pairwise apart and running compactions share no table |
| AdmissionRuns.DeleteFinds | compaction.go:237-275 | delete always finds the ranges and tables of a running compaction |
| AdmissionRuns.SizesAddUp | compaction.go:203-275 | In every run the size noted for a level is the sum of the sizes of the compactions running from it |
| AdmissionRuns.LevelsStaySorted | levels.go:2339-2511 | Every ordered level stays sorted in all interleavings in which what running compactions take into one level is apart |
| AdmissionRuns.ReachApartExactly | compaction.go:203-235 | Two plans into one level may write apart stretches exactly when what they take from above is apart |
| AdmissionRuns.OneSourceIsApart | compaction.go:203-235 | What compactions take from one source into one target is always apart |
| AdmissionRuns.CollideExactly | compaction.go:203-235 | Two admitted compactions into one level that write what they read: their tables overlap exactly when what they take from above is not apart |
| AdmissionRuns.TwoSourcesCollide | compaction.go:203-235 | Compactions from level 0 and from L99 into the base level that are both admitted and write overlapping tables |
| AdmissionHarm.SourcesCollide | levels.go:2339-2511 | A run from an empty tree in which a compaction from level 0 and an eviction from L99 into one level are both admitted and both finish, and the level is no longer sorted |
| VLogFormat.PutUvarint | structs.go:76-83 | The loop writes the specified bytes |
| VLogFormat.GetUvarint | structs.go:87-98 | The loop reads value and length; a count of 0 when the bytes end too early, a negative one when the number does not fit 64 bits |
| VLogFormat.UvarintRoundTrip | structs.go:76-98 | A number reads back whatever follows it |
| VLogFormat.HeaderRoundTrip | structs.go:76-98 | Any header reads back, whatever follows it, and takes at most 22 bytes |
| VLogFormat.EntryRoundTrip | memtable.go:295-334 | An encoded entry gives its value back, checksum verified or not, exactly when key, value and checksum together fit 32 bits |
| VLog.ValueLog.CreateVlogFile | value.go:555-610 | A new file under an id that no file has had, in the tier asked for |
| VLog.ValueLog.Append | value.go:1022-1056 | Writes the entry at the end of the active file of its tier and changes no other log |
| VLog.ValueLog.ToDisk | value.go:1059-1086 | Rotates exactly the tiers whose file is full |
| VLog.ValueLog.WriteRequest | value.go:1090-1152 | Each large entry goes to the file of its tier, in order, with its own key, value, expiry and user meta, its meta without the two transaction bits, and a pointer to it; the others get none; works exactly when both files stay within 32 bits |
| VLog.ValueLog.Write | value.go:997-1162 | Rejected, overrun or done, each exactly when; when done, after all rotations, every pointer handed out is in a file of its tier and is answered with the value of the entry that was given |
| VLog.ValueLog.Read | value.go:1300-1382 | A pointer that was handed out reads back its entry's value, in active and rotated files alike |
| VLog.PointsStill | value.go:997-1162 | A pointer stays good whatever is written later, in whichever file |
| VLog.PointersApart | value.go:1022-1056 | Stretches of different pointers into one file do not overlap |
| VLog.PointersInOrder | value.go:1022-1056 | The entries of a file follow each other without gaps |
| VLog.ValidateWrites | value.go:915-953 | The loop accepts exactly what the specification accepts |
| VLog.RoomIsEnough | value.go:915-994 | Requests of at most 2 GiB each are accepted and fit |
| VLog.AcceptedFitsExactly | value.go:915-994 | A request fits wherever it is accepted exactly when what it sends to either tier fits behind a whole file |
| VLog.AcceptedIsNotEnough | value.go:915-953 | A small value and then four of just under 1 GiB: accepted, and past 32 bits |
| Table.KeyDiff | table/builder.go:200-208 | The rest of a key behind the longest beginning that it shares with the block's first key |
| Table.Builder.Add | table/builder.go:210-351 | The entry is added behind all others, in a new block exactly when it is estimated too much for this one; so blocks of more than one entry are never larger than configured |
| Table.Builder.FinishBlock | table/builder.go:263-293 | Closes the block without changing what was added |
| Table.BlockIterator.SetIdx | table/iterator.go:54-106 | Shows the entry asked for, with its whole key, whichever entries were visited before |
| Table.BlockIterator.Seek | table/iterator.go:127-148 | The first entry of the block at or after the key |
| Table.FirstFromSplits | table/iterator.go:127-148 | In a sorted list the entries before that place are below the key and all others are not |
| Table.Iterator.Seek | table/iterator.go:263-319 | The first entry of the table at or after the key, across blocks, or past the end |
| Table.Iterator.SeekForPrev | table/iterator.go:322-328 | The last entry at or before the key, or before the beginning |
| Table.Iterator.SeekToLast | table/iterator.go:227-244 | The last entry of the table |
| Table.LastUpToSplits | table/iterator.go:322-328 | The entries up to that place are those not above the key |
| Table.Iterator.Next | table/iterator.go:330-359 | One entry on, across the end of a block |
| Table.Iterator.Prev | table/iterator.go:361-389 | One entry back, across the beginning of a block |
| Table.FoundIn | table/iterator.go:263-314 | What is found in the right block is what is to be found in the table |
| Table.WriteAndRead | table/builder.go:210-351 | A scan of a finished table gives exactly the entries added, whatever the block size |
| HeatRouting.NextKeySameLength | heatLSM/common.go:199-227 | The loop computes the next key with carries and wrap-around |
| HeatRouting.PrefixRange | heatLSM/common.go:199-227 | The keys from a prefix up to the next key are exactly those that start with it, if it does not end in 0xFF |
| HeatRouting.Layout | heatLSM/builder.go:424-579 | The loop makes the front gap, each group's range and the gap behind it, with their split keys: whatever the prefixes, one range for each in their order and gaps besides |
| HeatRouting.GroupsAreReached | heatLSM/builder.go:424-579 | For good prefixes a key of the node that starts with one goes to the child with that path, and any other to a gap |
| HeatRouting.GoodTiles | heatLSM/builder.go:424-579 | For good prefixes the children's ranges tile the node |
| HeatRouting.TilesRoute | heatLSM/builder.go:866-923 | Whatever tiles a node's keys routes each of them to a child that takes it |
| HeatRouting.FindCell | heatLSM/builder.go:899-911 | The probes of the binary search, in whatever order the split keys are |
| HeatRouting.RoutesExactly | heatLSM/builder.go:424-923 | Every key of a node is sent to a child that takes it exactly when the search does so at the start of the node and at each split key, up to the next |
| HeatTree.HeatmapManager.AllocateStats | heatLSM/builder.go:165-206 | A slot that was not in use, from the free list or new; every other slot stays in the free list once |
| HeatTree.HeatmapManager.FreeStats | heatLSM/builder.go:209-217 | The slot goes back and no other changes |
| HeatTree.HeatmapManager.SearchLeaf | heatLSM/builder.go:866-923 | The leaf reached is at the end of a chain of nodes whose paths begin the key, each of which hands the rest on to the child that its split keys pick, and its range holds the rest; where every split routes, a leaf is always reached |
| HeatTree.HeatmapManager.Evolve | heatLSM/builder.go:361-579 | A split keeps the tree and the ownership of slots, and routing exactly when the finite condition on its prefixes holds; each prefix is the path of one child, and for good prefixes gets exactly the keys that start with it |
| HeatTree.GoodSplitsWell | heatLSM/builder.go:424-923 | Good prefixes meet that condition for any node |
| HeatTree.HeatmapManager.Collapse | heatLSM/builder.go:711-767 | A fold gives the children's slots back and keeps the tree, ownership and routing |
| HeatTree.HeatmapManager.Decay | heatLSM/builder.go:590-767 | Folds from below as far as it goes: below the node no cold node is left whose children are all leaves, only cold nodes were folded, and everything outside stays as it was |
| HeatTree.HeatmapManager.Run | heatLSM/builder.go:315-767 | Any run of samples, splits and decays keeps the tree and the ownership of slots, and routing when all prefixes are good |
| HeatRouting.SingleSplitRoutesExactly | heatLSM/builder.go:424-579 | A split on one prefix, of a node with any path and bounds, sends every key to a child that takes it exactly when no key of the node slips through the end of the prefix's range |
| HeatRouting.SlipsWhen | heatLSM/common.go:199-227 | There are such keys exactly for prefixes that end in 0xFF and have another byte |
| HeatGroups.CalcCommonPrefix | heatLSM/common.go:39-57 | The longest common prefix |
| HeatGroups.CommonIsLongest | heatLSM/common.go:39-57 | It begins every key, and every common prefix begins it |
| HeatGroups.FindGroups | heatLSM/common.go:79-118 | The groups follow each other and hold the keys with the same byte behind the common prefix |
| HeatGroups.ChoiceIsGoodExactly | heatLSM/common.go:79-140 | Whichever groups are chosen, their prefixes are good, and so enough for routing, exactly when none is empty or ends in 0xFF and the group of the bare common prefix is not chosen with others |
| Trie.Trie.AddMatch | trie/trie.go:112-173 | Registers the id under the pattern and changes nothing else |
| Trie.Trie.DeleteMatch | trie/trie.go:210-240 | Takes the id away from the pattern, and leaves no empty node below the root |
| Trie.Trie.Get | trie/trie.go:175-208 | Exactly the ids with a registered pattern that fits the beginning of the key |
| Trie.Trie.RemoveEmpty | trie/trie.go:210-225 | Pruning changes no registration and leaves nothing empty below the node |
| Trie.BelowSplits | trie/trie.go:180-208 | One step of a search: the node's own ids, those behind the hole and those behind the byte |

## Left out

- Serializability.Serializable: point reads and writes with conflict detection on; keys returned by an iterator are not tracked as ranges by the code either, and timestamps supplied from outside (managed mode) are not covered. Hash collisions of fingerprints are allowed, they only add conflicts.
- Oracle.Orc.NewCommitTs: the two assertions of the code are its preconditions; `Serializability.CleanupBounds` proves them for every run.
- LsmSafety.ExactlyLossless: a compaction takes effect in one step here, and a flush follows the order of the memtables; compactions that run at the same time are the subject of `AdmissionRuns`. Compactions within level 0 (their tables come back in key order, so age order is lost) and within the last level are not steps. Subcompactions of a step read one discard timestamp; `Snapshots.EachSplitPreserves` has one for each.
- LsmReads.TidyIsSheltered: gives conditions that are enough, on what is moved and what expires; what is needed as well is in `LsmSafety.ExactlyLossless`.
- LsmHarm.EvictionBringsBack: sizes are those of the stored values, and one large value stands for the many entries of a table; the thresholds of number and size at which level 0 and L98 are compacted are not checked.
- LsmSafety.FlushKeeps: which keys of a memtable are hot is an arbitrary choice; prefixes being dropped during a flush are not modelled.
- AdmissionRuns.LevelsStaySorted: source and target differ; same-level jobs leave a range behind in the code. The new tables and the end of the old ones on the source level are one step, without the moment between replaceTables and deleteTables, when a read finds some entries twice.
- Lookup.DB.Get: the bloom filter of a table is any test that never denies a key the table has; reference counts and locks are not modelled.
- Levels.SortTables: sort.Slice is modelled as an insertion sort, that is, as some sort.
- Watermark.WaterMark.ProcessOne: container/heap is modelled as a sorted sequence; channels of marks are sequences in order of sending.
- SkiplistReads.Get: the lists do not change during this read; `SkiplistGets` has a search and a Get while Puts go on.
- SkiplistGets.GetLinearizes: where one internal key is put twice, the version and the value may be those of two moments; the value word is loaded in one step. The walk to the last node and iterators over a memtable that changes are not modelled.
- SkiplistSafety.PutsLinearize: the arena is a map from references to nodes, without its alignment and size arithmetic; values are single words, as a value offset and size are in the code.
- MergeIterator.NewMergeIterator: children are strictly sorted, as tables and memtables are; closing iterators is not modelled.
- Agreement.IterateInRun: no prefix, so every table is picked, no SinceTs, no writes of the transaction itself; `Views` covers SinceTs and pending writes for the filter itself.
- Children.ConcatIterator.Seek: the place that a table's own iterator finds is a function here; `Table.Iterator.Seek` is about that iterator.
- Views.StreamIsView: the clock is fixed, so whether an entry has expired does not change during a pass, nor during one compaction.
- Wal.Iterate: a record is what can be read of the file up to the first checksum error or short read; bytes and checksums are abstract there. Encryption is not modelled.
- VLogFormat.EntryRoundTrip: the checksum is any function to four bytes.
- VLog.AcceptedFitsExactly: the state before is any offsets within the file size, whether or not entries of these lengths add up to them.
- VLog.ValueLog.Write: the value log is opened empty, ids stay within their 31 bits, and keys and values fit the 32-bit header; garbage collection, which writes old versions back, the discard statistics and reopening are not modelled.
- VLog.ValueLog.Read: promises something about pointers that were handed out; for others the method follows the code, and reports a slice out of bounds as stopped.
- Table.Iterator.Seek: the table has a block, keys are sorted and carry a timestamp; loading a block cannot fail. The index, checksums, compression and the bloom filter of a table are not modelled, nor is stepping back after the end was passed by stepping forward, which the code cannot do either.
- BaseLevel.LevelTargets: the file sizes that levelTargets computes besides are not modelled.
- SkiplistProgress.FinishesAlone: says nothing about Puts that keep getting in each other's way; whether the scheduler lets one go on is not up to the code.
- TxnProgress.WaitEnds: says that there is a way on, which the commits in flight and the mark can take by themselves; that they do is up to the scheduler.
- HeatTree.HeatmapManager.Run: the statistics in a slot, the sampling reservoir, scores, locks and the hot zones built from a snapshot are not modelled; which prefixes a full leaf splits on and which node is cold are arbitrary. For routing the run is given good prefixes, which is enough but not needed; `HeatTree.HeatmapManager.Evolve` has what is needed for each split.
- HeatGroups.ChoiceIsGoodExactly: is about good prefixes; which other choices route is decided by `HeatRouting.RoutesExactly`.
- Oracle.Txn.Modify: lengths, limits and bans are inputs; duplicate writes of managed mode are not kept.
- Trie.Trie.AddMatch: the text form of the ignored positions is parsed by code that is not part of this model.
- The manifest, the discard statistics file, bloom filter bits, the arena, value threshold and the page buffer are not modelled: they would add simpler members.
- Files, memory maps, syncing, directory locks, protobuf and FlatBuffers encodings, caches, metrics, logging, options and command-line tools are not modelled.
