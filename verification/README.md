# LevelDB and nanopb, verified

A Dafny model of the two libraries vendored under `TinderDinner/Pods`: LevelDB, a log-structured merge tree, and nanopb, a
descriptor-driven encoder and decoder for Protocol Buffers. `dafny verify dfyconfig.toml` checks everything.

## What is modelled

**LevelDB.** A write joins a queue, is grouped with others, is appended to a block-framed log, and is inserted in a skip list. Full
memtables become tables; a background thread merges tables down seven levels. A read looks at the memtables, at level 0 newest file
first, and at one file of each deeper level. All of it is to behave like a flat history of puts and deletes in which a reader at a
snapshot sees, for each key, the newest entry at or below it. The main results say that it does:

- *Reads.* `FileSearch.Get` answers like a scan of everything stored; `LsmInvariant.Get` answers like the flat history, after every
  run of inserts, switches, flushes, moves, compactions and snapshots (`LsmInvariant.RunsKeepInv`). The steps are not only assumed:
  `DbImpl` and `CompactionRun` show that the code's own selection, merging, dropping and edits make exactly such steps.
- *Snapshots.* Over every later run a live snapshot reads as when it was taken, and a published write is read (`SnapshotReads`).
- *One place where it does not.* In this version of LevelDB `SetupOtherInputs` looks for files that go on with the last user key of the
  inputs only at the upper level. `HazardRun` is a run in which a deleted key comes back. `BoundaryHazard` proves that installing a compaction keeps
  the live reads right if and only if no dropped tombstone uncovers a value left behind to the oldest live read, that this needs a boundary file beside
  `inputs_[1]` in the version that was picked from, and that runs whose picks are tested for one are right without any other condition.
- *Iterators.* Blocks, two-level iterators, merging iterators and the user-facing iterator each behave as one cursor over one sorted
  run, for any mix of moves; over a reachable database that run is what is stored (`IteratorOverDb`).
- *Durability.* Log and crash prefix (`LogFormat`), a log with damage anywhere (`LogDamage`), group commit (`GroupCommit`, `CommitHistory`), MANIFEST records (`VersionEdits`), recovery
  from a MANIFEST cut off at any byte (`Manifest.CrashRecovery`), which files may be deleted
  (`FileGc.NothingIsEverLost`) and that all others are (`FileGc.NothingIsKeptForever`).
- *Tables.* From the bytes that `TableBuilder` writes, with prefix compression, shortened index keys and Bloom filters, through
  its footer (`Tables.Table.Open`) to `TableReader.InternalGet`.
- *Structures in memory.* The skip list with searches between the single stores of an insert, and the LRU cache with its hash
  table, reference counts and two lists, in which every entry ever made is still about or has been deleted exactly once,
  and what is evicted was given back longest ago (`LruRecency`).

**nanopb.** Sizing agrees with writing (`NanopbEncode.OStream.Encode`), the decoder computes the wire format on all inputs
(`NanopbDecode`), and decoding undoes encoding exactly where no proto3 field has a default other than zero (`NanopbRoundTrip.RoundTripIff`).
Reader and writer may have different descriptors (`NanopbEvolution`), and whatever is decoded fits its struct (`NanopbSafety`). The format is that of the Protocol Buffers
Encoding guide, sections "Base 128 Varints" and "Message Structure".

A user key is a real number in the modules about levels and runs: its position in the comparator's order.
`BytewiseComparator.PositionOrder` shows that byte strings under the default comparator have such positions.

Oddities of the code are kept: `Clear` of an edit leaves its compaction keys, a log fragment of type 5 ends the log, a nanopb message without fields reads a bool where a tag says field 0, and
the 32-bit varint decoder drops some high bits that it does not reject.

## Files

| files | about |
|---|---|
| Options, Circles | missing values; sequences without repetition |
| Keys, Store, FileSearch | entries, tables, versions; point lookup |
| InputSelection, CompactionPick, SetupInputs | choosing the inputs of a compaction, the level of a flush |
| CompactionWork, VersionBuilder, DbImpl, CompactionRun | the drop loop; edits and versions; flush and compaction as steps |
| Lsm, VersionSteps, ReplaceSteps, LsmInvariant, SnapshotReads, BoundaryHazard, HazardRun | the database as a state machine, its invariant, what snapshots promise, and the one exception |
| Cursor, MergingIterator, TwoLevelIterator, DbIter, IteratorOverDb | iterators |
| WriteBatch, GroupCommit, CommitHistory, SkipList, SnapshotList | the write path, the memtable, snapshots |
| Coding, Crc32c, LogFormat, LogDamage, LogWriter, LogReader, VersionEdit, Manifest | byte formats, the log whole and damaged, the MANIFEST and recovery from it |
| BytewiseComparator, InternalKeyCodec, BlockFormat, BlockBuilder, BlockIterator, Bloom, FilterBlock, TableSearch, TableFormat, TableBuilder, TableReader, Table | tables |
| FileGc | file deletion, reference counts, crashes |
| HandleTable, LruList, LruCache, LruRecency | the cache |
| NanopbFormat, NanopbIter, NanopbEncode, NanopbDecode, NanopbRoundTrip, NanopbEvolution, NanopbSafety | nanopb: the format, its code, round trips, differing descriptors, arbitrary bytes |

## Model

| member | source | states |
|---|---|---|
| Keys.LookupKeySeparates | TinderDinner/Pods/leveldb-library/db/dbformat.cc:51-67 | For one user key, the lookup key stands at or before exactly the entries whose sequence number the snapshot may see. |
| FileSearch.FindFile | TinderDinner/Pods/leveldb-library/db/version_set.cc:88-106 | Binary search over sorted, disjoint files returns the exact split: every file before the result ends before the key, no file from it on does. |
| FileSearch.SaveValueFindsNewest | TinderDinner/Pods/leveldb-library/db/version_set.cc:263-276 | The first entry at or after the lookup key of a sorted run is the newest visible one of that user key, or there is none. |
| FileSearch.SearchLevel0 | TinderDinner/Pods/leveldb-library/db/version_set.cc:343-363 | Trying the overlapping level-0 files newest number first answers like the newest visible entry of the whole level. |
| FileSearch.SearchSortedLevel | TinderDinner/Pods/leveldb-library/db/version_set.cc:364-380 | On a sorted level the one file that FindFile gives answers for the whole level. |
| FileSearch.Get | TinderDinner/Pods/leveldb-library/db/version_set.cc:326-421 | Level by level with early exit gives the answer of a scan of all entries of all files for the newest one at or below the snapshot; a tombstone reads as absent, and the three outcomes are told apart. |
| InputSelection.SomeFileOverlapsRange | TinderDinner/Pods/leveldb-library/db/version_set.cc:122-157 | True if and only if some file overlaps the user key range, by scan or by one binary search, with open ends allowed. |
| InputSelection.GetOverlappingInputs | TinderDinner/Pods/leveldb-library/db/version_set.cc:519-559 | The restarts at level 0 end, at the least range that contains the one asked for and is closed under overlap; the inputs are exactly the files that overlap it. Other levels: exactly the files that overlap the range. |
| CompactionPick.FindSmallestBoundaryFile | TinderDinner/Pods/leveldb-library/db/version_set.cc:1344-1360 | Finds the smallest file that goes on with the user key that the selection ends in, or proves there is none. |
| CompactionPick.AddBoundaryInputs | TinderDinner/Pods/leveldb-library/db/version_set.cc:1378-1401 | Ends with a chain of boundary files appended, after which the level holds no older version of the last selected user key outside the selection. |
| CompactionPick.SortedLevelClosed | TinderDinner/Pods/leveldb-library/db/version_set.cc:1362-1401 | A contiguous part of a sorted level with no boundary file left is closed: every other file lies before it in key order or strictly after it in user keys. |
| CompactionPick.Level0Closed | TinderDinner/Pods/leveldb-library/db/version_set.cc:1304-1318 | The overlap-closed set that level 0 is scanned for shares no user key with the files left out. |
| SetupInputs.Expand | TinderDinner/Pods/leveldb-library/db/version_set.cc:1419-1446 | The grown inputs_[0] is admissible, leaves no gap, and expanded1 is the old inputs_[1]; it is taken if and only if the sizes and counts tested by the code say so. |
| SetupInputs.SetupOtherInputs | TinderDinner/Pods/leveldb-library/db/version_set.cc:1403-1462 | The chosen inputs are closed at their own level, inputs_[1] is exactly what overlaps them below, together they leave no gap in their hull, and inputs_[0] has grown exactly when that was worthwhile; also the grandparents and the new compaction key. |
| SetupInputs.PickCompaction | TinderDinner/Pods/leveldb-library/db/version_set.cc:1270-1322 | A size compaction starts with the first file past the last compaction key, or with the first file of the level; what that file grows to holds it, and the inputs below and the grandparents are exactly those it overlaps. |
| SetupInputs.PickLevelForMemTableOutput | TinderDinner/Pods/leveldb-library/db/version_set.cc:491-516 | The level is the first, from 0 on, at which one of the two reasons of the code to go no deeper holds, or 2; no level down to it overlaps the new table. |
| VersionBuilder.Builder.Apply | TinderDinner/Pods/leveldb-library/db/version_set.cc:650-692 | One more edit is accounted for: the builder stands for the base and the list of edits applied so far. |
| VersionBuilder.SaveLevel | TinderDinner/Pods/leveldb-library/db/version_set.cc:695-739 | The merge of base files and added files with the dead ones left out is sorted by smallest key and has exactly the right members. |
| VersionBuilder.Builder.SaveTo | TinderDinner/Pods/leveldb-library/db/version_set.cc:695-754 | Every level of the new version is the replay of all applied edits over the base. |
| VersionBuilder.OneEdit | TinderDinner/Pods/leveldb-library/db/version_set.cc:650-754 | After one edit a level holds a file if and only if it was there or is added, and is not deleted, where an added number cancels its deletion. |
| VersionBuilder.ReplayIsLastInstalled | TinderDinner/Pods/leveldb-library/db/version_set.cc:924-1000 | Applying all edits of a MANIFEST through one builder gives, level by level, the version that installing them one at a time ended with, if no number is added twice to a level. |
| CompactionWork.Compaction.IsBaseLevelForKey | TinderDinner/Pods/leveldb-library/db/version_set.cc:1533-1552 | With level_ptrs_ kept between calls on non-decreasing keys, the answer is true if and only if no file of a deeper level has the user key in its range. |
| CompactionWork.DoCompactionWork | TinderDinner/Pods/leveldb-library/db/db_impl.cc:890-1001 | The outputs, wherever they are cut, hold together exactly the entries of the merged input that are neither hidden by a newer one at or below the smallest snapshot nor tombstones at or below it with nothing deeper; no output is empty. |
| CompactionWork.RemovesExactly | TinderDinner/Pods/leveldb-library/db/db_impl.cc:930-963 | Without regard to the order of the loop: an entry is removed if and only if a newer one of its key is at or below the smallest snapshot, or it is a deletion at or below it and no file of a deeper level has its key in its range. |
| CompactionWork.CompactionPreservesReads | TinderDinner/Pods/leveldb-library/db/db_impl.cc:930-963 | For every live snapshot from the smallest one of the compaction on, wherever that has moved to since: all reads from it on agree before and after dropping if and only if no dropped tombstone is the newest entry of its key there with a value behind it outside the inputs. |
| CompactionRun.MakeInputIterator | TinderDinner/Pods/leveldb-library/db/version_set.cc:1237-1268 | The merging iterator over the level-0 tables, or one concatenation per level, runs over the sorted merge of exactly the entries of all inputs. |
| CompactionRun.MergeInputs | TinderDinner/Pods/leveldb-library/db/db_impl.cc:900-1003 | Reading it to the end gives that merge. |
| CompactionRun.BackgroundCompaction | TinderDinner/Pods/leveldb-library/db/db_impl.cc:688-767 | Picks inputs around the given table, with the inputs below and the grandparents that this gives. The compaction is a move if and only if it has one file above, none below, and grandparents within the limit; a move or a begun compaction is an enabled step of the state machine that keeps its invariant, and the version installed is that step's. |
| CompactionRun.CompactInputs | TinderDinner/Pods/leveldb-library/db/db_impl.cc:878-1001 | Running the loop over the merged inputs gives the contents that the state machine demands of a finished compaction. |
| CompactionRun.InstallCompactionResults | TinderDinner/Pods/leveldb-library/db/db_impl.cc:860-876 | The tables built from those contents form valid outputs, the edit makes the version of the state machine, and the step is enabled. |
| DbImpl.LogAndApply | TinderDinner/Pods/leveldb-library/db/version_set.cc:801-832 | The version built is the replay of the one edit over the current version. |
| DbImpl.CompactMemTable | TinderDinner/Pods/leveldb-library/db/db_impl.cc:491-566 | Flushing the immutable memtable is an enabled step, keeps the invariant, and installs that step's version; the table goes to the first level, from 0 on, at which a reason to go no deeper holds, or to level 2. |
| DbImpl.ReplacedByEdit | TinderDinner/Pods/leveldb-library/db/version_set.cc:1525-1531 | Deleting the inputs and adding the outputs by an edit is replacing them in the version. |
| VersionSteps.PickIsClosed | TinderDinner/Pods/leveldb-library/db/version_set.cc:1403-1447 | A valid pick of a well-formed version is closed: what stays behind in its level is newer, and what stays beside inputs_[1] is apart from the output range. |
| VersionSteps.FlushMissesHull | TinderDinner/Pods/leveldb-library/db/version_set.cc:1270-1322 | A flush in the middle of a compaction to the output level or deeper never overlaps the range of its inputs, because the inputs leave no gap in their hull. |
| VersionSteps.FlushKeepsInputsClosed | TinderDinner/Pods/leveldb-library/db/db_impl.cc:907-917 | So the running compaction's inputs are still closed in the new version. |
| VersionSteps.FlushKeepsVersionOk | TinderDinner/Pods/leveldb-library/db/version_set.cc:491-516 | A flush keeps level 0 ordered by number, deeper levels sorted and disjoint, and shallower entries of a user key newer than deeper ones. |
| ReplaceSteps.ReplaceKeepsVersionOk | TinderDinner/Pods/leveldb-library/db/db_impl.cc:860-876 | So does replacing closed inputs by the outputs of the compaction; a trivial move is the case of one output. |
| LsmInvariant.StepKeeps | TinderDinner/Pods/leveldb-library/db/db_impl.cc:688-728 | Every step (insert, memtable switch, flush, move, begin and finish of a compaction, taking and releasing snapshots) keeps the invariant, except for finishing a compaction that brings a deleted value back to a read that is still live. |
| LsmInvariant.RunsKeepInv | TinderDinner/Pods/leveldb-library/db/db_impl.cc:688-963 | Level order, file order and the agreement of all live reads with the flat history hold after every run from the empty database; the runs left out are exactly those with a finish that brings a deleted value back to a live read (BoundaryHazard.FinishKeepsReadsIff). |
| LsmInvariant.Get | TinderDinner/Pods/leveldb-library/db/db_impl.cc:1100-1145 | Memtable, immutable memtable, then the version: the answer is that of the flat history at the snapshot, even if newer entries have since come into the memtable. |
| LsmInvariant.FlatReadIs | TinderDinner/Pods/leveldb-library/db/db_impl.cc:1100-1145 | Scanning the history for the last matching write is reading the newest entry. |
| BoundaryHazard.FinishKeepsReadsIff | TinderDinner/Pods/leveldb-library/db/version_set.cc:1403-1447 | Whatever was written, flushed, snapshot or released while a compaction worked, installing it keeps all live reads right, and with them the whole invariant, if and only if no dropped tombstone uncovers a value left outside the inputs to the oldest live read. |
| BoundaryHazard.ResurrectionNeedsBoundary | TinderDinner/Pods/leveldb-library/db/version_set.cc:1407-1422 | That happens only if the last user key of inputs_[1] goes on in an unselected file of that level in the version that was picked from, which this version of the code does not look for. |
| BoundaryHazard.NoBoundaryIsSafe | TinderDinner/Pods/leveldb-library/db/version_set.cc:1407-1422 | Without such a file, which can be tested before the compaction, finishing keeps the whole invariant. |
| BoundaryHazard.TestedRunsKeepInv | TinderDinner/Pods/leveldb-library/db/version_set.cc:1407-1422 | Runs whose picks all pass that test keep the invariant with no other condition on how compactions finish. |
| BoundaryHazard.ResurrectedRead | TinderDinner/Pods/leveldb-library/db/db_impl.cc:936-958 | Where the condition fails, the key read as absent before the outputs were installed, and reads as the old value afterwards. |
| HazardRun.DeletedKeyComesBack | TinderDinner/Pods/leveldb-library/db/version_set.cc:1407-1422 | It can happen: a run of 21 steps from the empty database, after which the code can install an output that makes a read of a deleted key return its old value. |
| HazardRun.HazardReachable | TinderDinner/Pods/leveldb-library/db/db_impl.cc:688-963 | The state is reached by writes, flushes, a snapshot, and a compaction whose output is cut inside one user key. |
| Merger.MergingIterator.SeekToFirst | TinderDinner/Pods/leveldb-library/table/merger.cc:31-37 | Stands at the first entry of the one sorted merge of all children. |
| Merger.MergingIterator.SeekToLast | TinderDinner/Pods/leveldb-library/table/merger.cc:39-45 | Stands at its last entry. |
| Merger.MergingIterator.Seek | TinderDinner/Pods/leveldb-library/table/merger.cc:47-53 | Stands at the first entry of the merge at or after the target. |
| Merger.MergingIterator.Next | TinderDinner/Pods/leveldb-library/table/merger.cc:55-79 | One entry further in the merge, also after a step backwards, when the other children are brought past the key. |
| Merger.MergingIterator.Prev | TinderDinner/Pods/leveldb-library/table/merger.cc:81-108 | One entry back in the merge, also after a step forwards, when the other children are brought before the key. |
| TwoLevel.SeekLands | TinderDinner/Pods/leveldb-library/table/two_level_iterator.cc:82-87 | The block that the index finds, and the position in it, are the position of the target in the whole run. |
| TwoLevel.TwoLevelIterator.SkipEmptyDataBlocksForward | TinderDinner/Pods/leveldb-library/table/two_level_iterator.cc:115-126 | From behind a block to the next entry there is, over empty blocks, at the same position of the run. |
| TwoLevel.TwoLevelIterator.SkipEmptyDataBlocksBackward | TinderDinner/Pods/leveldb-library/table/two_level_iterator.cc:128-139 | From before a block to the last entry before it, or to no position. |
| TwoLevel.TwoLevelIterator.Seek | TinderDinner/Pods/leveldb-library/table/two_level_iterator.cc:82-87 | Stands at the first entry of the concatenation of all blocks at or after the target. |
| TwoLevel.TwoLevelIterator.SeekToFirst | TinderDinner/Pods/leveldb-library/table/two_level_iterator.cc:89-94 | Stands at the first entry of the concatenation, if there is one. |
| TwoLevel.TwoLevelIterator.CurrentIs | TinderDinner/Pods/leveldb-library/table/two_level_iterator.cc:31-39 | key and value are those of the entry at the position in the concatenation. |
| TwoLevel.TwoLevelIterator.SeekToLast | TinderDinner/Pods/leveldb-library/table/two_level_iterator.cc:96-101 | Stands at the last entry of the concatenation, if there is one. |
| TwoLevel.TwoLevelIterator.Next | TinderDinner/Pods/leveldb-library/table/two_level_iterator.cc:103-107 | One entry further in the concatenation, across the end of a block. |
| TwoLevel.TwoLevelIterator.Prev | TinderDinner/Pods/leveldb-library/table/two_level_iterator.cc:109-113 | One entry back in the concatenation, across the start of a block. |
| TwoLevel.TableIndex | TinderDinner/Pods/leveldb-library/table/table_builder.cc:94-123 | The index keys that the table builder writes are such that all this applies to tables. |
| DbIterator.ViewIsSnapshot | TinderDinner/Pods/leveldb-library/db/db_iter.cc:168-198 | The live entries at a sequence number are exactly the user keys with a visible value, each with what a point read gives. |
| DbIterator.LiveEntriesAscend | TinderDinner/Pods/leveldb-library/db/db_iter.cc:168-198 | Each user key occurs once, in ascending order. |
| DbIterator.DBIter.ShowsView | TinderDinner/Pods/leveldb-library/db/db_iter.cc:63-71 | key and value are those of the entry of that view at the iterator's position, in either direction. |
| DbIterator.DBIter.SeekToFirst | TinderDinner/Pods/leveldb-library/db/db_iter.cc:283-292 | Stands at the first entry of the view. |
| DbIterator.DBIter.SeekToLast | TinderDinner/Pods/leveldb-library/db/db_iter.cc:294-299 | Stands at its last entry. |
| DbIterator.DBIter.Seek | TinderDinner/Pods/leveldb-library/db/db_iter.cc:269-281 | Stands at its first entry with a user key at or after the target. |
| DbIterator.DBIter.Next | TinderDinner/Pods/leveldb-library/db/db_iter.cc:141-166 | One entry further in the view, from either direction. |
| DbIterator.DBIter.Prev | TinderDinner/Pods/leveldb-library/db/db_iter.cc:200-225 | One entry back in the view, from either direction. |
| DbIterator.DBIter.FindNextUserEntry | TinderDinner/Pods/leveldb-library/db/db_iter.cc:168-198 | Stops at the first wanted entry from here on: visible, newest of its key, no tombstone, not to be skipped. |
| DbIterator.DBIter.FindPrevUserEntry | TinderDinner/Pods/leveldb-library/db/db_iter.cc:227-267 | Saves the value of the last live entry before the starting point, and stops before all entries of its key. |
| IteratorOverDb.NewInternalIterator | TinderDinner/Pods/leveldb-library/db/db_impl.cc:1062-1087 | The merging iterator over the memtables, each level-0 table and a concatenation for each deeper level runs over exactly what is stored, each entry once. |
| IteratorOverDb.IteratorShowsHistory | TinderDinner/Pods/leveldb-library/db/db_impl.cc:1062-1087 | Over everything that is stored in a reachable database, that view is the flat history at the snapshot. |
| IteratorOverDb.IteratorStaysAtSnapshot | TinderDinner/Pods/leveldb-library/db/db_impl.cc:1147-1157 | Whatever is written, flushed or compacted later, at a live snapshot that view is still the history as it was. |
| SnapshotReads.SnapshotIsolation | TinderDinner/Pods/leveldb-library/db/db_impl.cc:1166-1174 | From a reachable state, whatever run of writes, flushes, moves and compactions follows: as long as the snapshot is live, every read at it finds in what is stored what the history held when it was taken. |
| SnapshotReads.PublishedWriteIsRead | TinderDinner/Pods/leveldb-library/db/db_impl.cc:1097-1145 | Once a write is published, and in every later state until another write of its key, a read without a snapshot gives its value, or nothing if it was a deletion. |
| WriteBatches.WriteBatch.Put | TinderDinner/Pods/leveldb-library/db/write_batch.cc:98-103 | Appends one put; count and bytes agree with the list of operations. |
| WriteBatches.WriteBatch.Append | TinderDinner/Pods/leveldb-library/db/write_batch.cc:144-147 | Appends the operations of the other batch, and keeps the sequence number. |
| WriteBatches.Iterate | TinderDinner/Pods/leveldb-library/db/write_batch.cc:42-80 | Handles the operations before the first malformed one in order; succeeds if and only if the bytes are clean and as many as the header says. |
| WriteBatches.BadRecordStops | TinderDinner/Pods/leveldb-library/db/write_batch.cc:49-74 | Behind good records, which are handed over, a record cut off anywhere or with another tag ends the iteration with an error. |
| WriteBatches.BatchRoundTrip | TinderDinner/Pods/leveldb-library/db/write_batch.cc:42-147 | A batch read back gives its sequence number, its count and its operations. |
| GroupCommit.BuildBatchGroup | TinderDinner/Pods/leveldb-library/db/db_impl.cc:1260-1306 | The group is the longest prefix of the queue that the size limit and the sync rule allow, null batches going along, and the result is its operations in queue order. |
| GroupCommit.RunsKeepInv | TinderDinner/Pods/leveldb-library/db/db_impl.cc:1185-1256 | What the steps of writers at their lock and wait points keep, over every interleaving. |
| GroupCommit.LoggedOnce | TinderDinner/Pods/leveldb-library/db/db_impl.cc:1185-1256 | Each write that succeeded is in exactly one log record, which was applied; if it asked for sync, the record was synced and led by a sync writer. |
| GroupCommit.NumbersFollowArrival | TinderDinner/Pods/leveldb-library/db/db_impl.cc:1198-1235 | Operations of logged writes have strictly increasing sequence numbers in the order in which the writes arrived, so none is used twice. |
| GroupCommit.NothingAfterError | TinderDinner/Pods/leveldb-library/db/db_impl.cc:1185-1256 | Once the background error is set, then in every continuation no group is logged or applied except the one being logged at that moment, and every other write that returns has failed. |
| GroupCommit.FailedSyncStopsWrites | TinderDinner/Pods/leveldb-library/db/db_impl.cc:1213-1232 | A failed sync sets it: from any reachable state, after a group ends with a failed sync no group is ever logged or applied again, and every later write fails. |
| CommitHistory.GroupInserts | TinderDinner/Pods/leveldb-library/db/write_batch.cc:118-137 | Inserting a logged group is a run of insert steps that extends the history by its operations under consecutive numbers. |
| CommitHistory.GroupIsAtomic | TinderDinner/Pods/leveldb-library/db/db_impl.cc:1213-1237 | A reader at or below the number before the group sees none of it, one at or past its last number all of it, with the last write of a key winning. |
| SkipLists.SkipList.FindGreaterOrEqual | TinderDinner/Pods/leveldb-library/db/skiplist.h:260-281 | Finds the first node at or after the key, and the predecessor at every level. |
| SkipLists.SkipList.FindLessThan | TinderDinner/Pods/leveldb-library/db/skiplist.h:284-302 | Finds the last node before the key, or the head. |
| SkipLists.SkipList.FindLast | TinderDinner/Pods/leveldb-library/db/skiplist.h:304-322 | Finds the last node, or the head. |
| SkipLists.SkipList.Link | TinderDinner/Pods/leveldb-library/db/skiplist.h:357-363 | After each single store of a link every level is a sorted subsequence of the level below it. |
| SkipLists.SkipList.Insert | TinderDinner/Pods/leveldb-library/db/skiplist.h:336-368 | For any height, the contents are the old ones with the entry inserted in key order. |
| SkipLists.SearchNeverSkips | TinderDinner/Pods/leveldb-library/db/skiplist.h:260-281 | A search whose reads interleave with the stores of inserts, at any heights, ends at the first node at or after its key of the list as it is then, so it never misses one that was there when it began. |
| SkipLists.SkipList.Get | TinderDinner/Pods/leveldb-library/db/memtable.cc:100-134 | A lookup in the skip list answers like a search of the sorted contents. |
| Coding.GetVarint | TinderDinner/Pods/leveldb-library/util/coding.cc:112-157 | The decoding loops compute what the bytes denote, and fail exactly on what is cut off or too long. |
| Coding.PutVarint | TinderDinner/Pods/leveldb-library/util/coding.cc:47-96 | The encoding loop writes seven bits to a byte, least significant first. |
| Coding.VarintRoundTrip | TinderDinner/Pods/leveldb-library/util/coding.cc:47-157 | Decoding undoes encoding, whatever follows. |
| Coding.Fixed64RoundTrip | TinderDinner/Pods/leveldb-library/util/coding.cc:20-33 | The same for eight little-endian bytes. |
| Coding.LowByteFirst | TinderDinner/Pods/leveldb-library/util/coding.cc:9-33 | Fixed-width numbers have their low byte first. |
| Coding.LengthPrefixedRoundTrip | TinderDinner/Pods/leveldb-library/util/coding.cc:98-192 | The same for length-prefixed slices. |
| Crc32c.UnmaskMask | TinderDinner/Pods/leveldb-library/util/crc32c.h:24-39 | Unmask inverts Mask on all 32-bit values. |
| LogWriter.Writer.AddRecord | TinderDinner/Pods/leveldb-library/db/log_writer.cc:34-80 | Appends exactly the fragments of the record for the block offset at hand, with the trailer filled where no header fits; an empty record too. |
| LogReader.Reader.ReadPhysicalRecord | TinderDinner/Pods/leveldb-library/db/log_reader.cc:189-271 | Returns and reports what the bytes at this position hold: a fragment, the end of the file, or one of the kinds of damage, with the bytes it complains about. |
| LogReader.Reader.ReadRecord | TinderDinner/Pods/leveldb-library/db/log_reader.cc:56-174 | Assembles fragments to the next record, with the reports of the code for every order of types; type bytes 5 and 6 act as its own marks for the end of the file and for a bad record. |
| LogReader.ReplayLog | TinderDinner/Pods/leveldb-library/db/log_reader.cc:56-174 | Reading to the end gives the records and reports of the whole file. |
| LogFormat.LogRoundTrip | TinderDinner/Pods/leveldb-library/db/log_writer.cc:34-108 | Reading back what was written gives exactly the records, and no report, for all lengths and offsets. |
| LogFormat.FillsBlocks | TinderDinner/Pods/leveldb-library/db/log_writer.cc:34-82 | A record that fits the rest of the block is one fragment; of a longer one the first fragment fills the block; a rest shorter than a header is zeros. |
| LogFormat.CrashPrefix | TinderDinner/Pods/leveldb-library/db/log_reader.cc:137-150 | Reading any truncated prefix gives a prefix of the records, and no report. |
| LogFormat.CompleteIsLargest | TinderDinner/Pods/leveldb-library/db/log_reader.cc:137-150 | That prefix is as long as it can be: a record is given back if and only if all its bytes are there. |
| LogDamage.ReadIsIntact | TinderDinner/Pods/leveldb-library/db/log_reader.cc:189-271 | Whatever the bytes of the file are, a fragment that is read is one that a writer writes: checksum, length and type are in front of its data, inside one block. |
| LogDamage.RecordIsUnbroken | TinderDinner/Pods/leveldb-library/db/log_reader.cc:56-187 | A record that comes back out of arbitrary bytes is an unbroken run of such fragments, from one that begins a record to one that ends it: what is before damage never joins what is behind it. |
| LogDamage.UnbrokenIsRead | TinderDinner/Pods/leveldb-library/db/log_reader.cc:56-187 | Conversely, where the reader meets such a run it returns its record, and reports exactly the bytes of a record begun before. |
| LogDamage.DamageIsContained | TinderDinner/Pods/leveldb-library/db/log_reader.cc:56-271 | Whatever is before a block boundary at which a record begins, that record and all that is read after it come back, unless an intact fragment has the type that the reader takes for the end of the file. |
| LogDamage.ReportsAccount | TinderDinner/Pods/leveldb-library/db/log_reader.cc:94-184 | The bytes of all fragments and broken blocks that are passed on the way to a record are in the record or in the reports, each once. |
| BytewiseComparator.PositionOrder | TinderDinner/Pods/leveldb-library/util/comparator.cc:25-27 | The order of byte strings embeds in the real numbers, which is what user keys are in the other modules. |
| BytewiseComparator.FindShortestSeparator | TinderDinner/Pods/leveldb-library/util/comparator.cc:29-50 | Shortens to a string strictly between the two exactly when the first byte that differs leaves room, else keeps the start. |
| BytewiseComparator.FindShortSuccessor | TinderDinner/Pods/leveldb-library/util/comparator.cc:52-64 | Bumps the first byte that is not 0xff; only a run of 0xff is kept. |
| BytewiseComparator.SeparateInternalKeys | TinderDinner/Pods/leveldb-library/db/dbformat.cc:69-86 | The separator is the start, or shorter, after it, and for a user key strictly below that of the limit. |
| BytewiseComparator.SucceedInternalKey | TinderDinner/Pods/leveldb-library/db/dbformat.cc:88-101 | The successor is the key itself, or shorter and after it. |
| InternalKeyCodec.KeyRoundTrip | TinderDinner/Pods/leveldb-library/db/dbformat.h:165-175 | Parsing undoes appending, for sequence numbers up to the maximum. |
| InternalKeyCodec.ParsesOnlyKeys | TinderDinner/Pods/leveldb-library/db/dbformat.h:165-175 | Bytes parse only if they are what appending writes for the parsed key: short ones and unknown type bytes do not. |
| InternalKeyCodec.KeyLessIsOrder | TinderDinner/Pods/leveldb-library/db/dbformat.cc:51-67 | Comparing encoded keys is comparing user key, then number and type. |
| BlockBuilders.BlockBuilder.Add | TinderDinner/Pods/leveldb-library/table/block_builder.cc:72-106 | Appends the pair, sharing the prefix with the last key unless a restart is due. |
| BlockBuilders.BlockBuilder.Finish | TinderDinner/Pods/leveldb-library/table/block_builder.cc:62-70 | The finished block is the body, the restart array and its length. |
| BlockFormat.EntryRoundTrip | TinderDinner/Pods/leveldb-library/table/block.cc:54-77 | Decoding an entry finds the three lengths, the rest of the key and the value. |
| BlockFormat.StartsOk | TinderDinner/Pods/leveldb-library/table/block_builder.cc:76-83 | Restart r is the offset of an entry that shares nothing, at least an interval after the one before. |
| BlockFormat.RestartEvery | TinderDinner/Pods/leveldb-library/table/block_builder.cc:71-83 | Restart points are exactly the entries whose number is a multiple of the interval. |
| BlockFormat.SharesMost | TinderDinner/Pods/leveldb-library/table/block_builder.cc:71-92 | An entry at a restart point has its whole key; every other leaves out the longest prefix that its key has in common with the one before. |
| BlockIterator.BlockIter.ShownPair | TinderDinner/Pods/leveldb-library/table/block.cc:126-135 | key and value are those of the pair at the position, whatever moves led there. |
| BlockIterator.BlockIter.Seek | TinderDinner/Pods/leveldb-library/table/block.cc:163-201 | Binary search over the restarts and a scan stand at the first key at or after the target. |
| BlockIterator.BlockIter.Next | TinderDinner/Pods/leveldb-library/table/block.cc:137-140 | One pair further. |
| BlockIterator.BlockIter.Prev | TinderDinner/Pods/leveldb-library/table/block.cc:142-161 | The exact predecessor, found by going back to a restart, or no position. |
| BlockIterator.BlockIter.SeekToLast | TinderDinner/Pods/leveldb-library/table/block.cc:208-213 | Stands at the last pair. |
| BlockIterator.ReadForward | TinderDinner/Pods/leveldb-library/table/block.cc:203-252 | Iterating a finished block gives back the added pairs, for every restart interval from 1 on. |
| Bloom.FilterPolicy.CreateFilter | TinderDinner/Pods/leveldb-library/util/bloom.cc:28-54 | A bit of the filter is set if and only if some probe of some key touches it; what was there before stays. |
| Bloom.EnoughBits | TinderDinner/Pods/leveldb-library/util/bloom.cc:28-36 | A filter has as many whole bytes as its keys ask for, and at least 64 bits. |
| Bloom.FilterPolicy.KeyMayMatch | TinderDinner/Pods/leveldb-library/util/bloom.cc:56-79 | True if and only if all probed bits are set; filters too short say no, unknown encodings say yes. |
| Bloom.FilterMatchesItsKeys | TinderDinner/Pods/leveldb-library/util/bloom.cc:28-79 | No false negatives. |
| FilterBlock.FilterBlockBuilder.StartBlock | TinderDinner/Pods/leveldb-library/table/filter_block.cc:21-27 | Filters are generated up to the index of the block's offset, and those there are still match their keys. |
| FilterBlock.FilterBlockBuilder.Finish | TinderDinner/Pods/leveldb-library/table/filter_block.cc:35-49 | Filter i is one for exactly the keys that were added for blocks in range i, empty if there are none, and the offsets are where the reader looks for them. |
| FilterBlock.FilterBlockReader.KeyMayMatch | TinderDinner/Pods/leveldb-library/table/filter_block.cc:90-104 | Decides by the filter of the block's offset; anything malformed matches. |
| FilterBlock.NeverRulesOut | TinderDinner/Pods/leveldb-library/table/filter_block.cc:21-104 | A key that was added for a block is never ruled out when that block is asked about. |
| FilterBlock.RulesOutIff | TinderDinner/Pods/leveldb-library/table/filter_block.cc:51-104 | Of a finished block a key is ruled out if and only if the data block lies in a range with a filter, and that range has no keys or some probe of the key misses all probes of its keys. |
| TableSearch.OneBlockSuffices | TinderDinner/Pods/leveldb-library/table/table.cc:216-244 | Looking in the one block that the index finds answers for the whole table. |
| TableSearch.NextBlockIsOther | TinderDinner/Pods/leveldb-library/table/table_builder.cc:98-108 | A lookup that falls between the last key of a block and its shortened separator is for another user key than the first of the next block. |
| TableFormat.HandleRoundTrip | TinderDinner/Pods/leveldb-library/table/format.cc:15-29 | Block handles read back. |
| TableFormat.ReadsStoredBlock | TinderDinner/Pods/leveldb-library/table/format.cc:64-141 | A stored block reads back, with its checksum. |
| TableFormat.ReadBlockIff | TinderDinner/Pods/leveldb-library/table/format.cc:64-141 | Reading gives certain contents if and only if they are stored at the handle with their type and checksum. |
| TableBuilders.TableBuilder.Add | TinderDinner/Pods/leveldb-library/table/table_builder.cc:94-123 | Appends the entry; the pending index entry is written with a key that separates the blocks; and the open block, with the entry, is written if and only if its size has reached the block size. |
| TableBuilders.BlockSizeIs | TinderDinner/Pods/leveldb-library/table/block_builder.cc:56-60 | The size that is tested is the length that the block would have if it were finished. |
| TableBuilders.TableBuilder.Flush | TinderDinner/Pods/leveldb-library/table/table_builder.cc:125-139 | Writes the block; the entries of the table stay the same. |
| TableBuilders.TableBuilder.Finish | TinderDinner/Pods/leveldb-library/table/table_builder.cc:197-250 | With or without a filter policy the file holds blocks, filter, metaindex, index and footer, each where the one before says, and the blocks together hold exactly the added entries. |
| TableFormat.FooterRoundTrip | TinderDinner/Pods/leveldb-library/table/format.cc:31-62 | The padded footer gives back both handles, and its magic number is checked. |
| TableFormat.FooterHasMagic | TinderDinner/Pods/leveldb-library/table/format.cc:42-50 | A footer is read only if it ends with the magic number. |
| Tables.Table.Open | TinderDinner/Pods/leveldb-library/table/table.cc:38-139 | From the bytes of a finished table alone: the footer leads to the index, and through the metaindex to the filter if and only if the reader's policy has the name of the writer's. |
| Tables.Table.ReadMeta | TinderDinner/Pods/leveldb-library/table/table.cc:84-111 | Finds the filter in the metaindex by the key of the policy, and leaves it out where the key differs. |
| TableReader.InternalGet | TinderDinner/Pods/leveldb-library/table/table.cc:216-244 | On the bytes of a finished table, with or without its filter, the lookup answers like a search of all its entries; it reads the one block of the first separator at or after the key, and none if there is no such block or the filter rules the key out. |
| VersionEdits.VersionEdit.EncodeTo | TinderDinner/Pods/leveldb-library/db/version_edit.cc:41-85 | Writes the fields that are set, in the order of the code. |
| VersionEdits.VersionEdit.DecodeFrom | TinderDinner/Pods/leveldb-library/db/version_edit.cc:107-205 | Takes tagged items until the end or a corruption, and says which. |
| VersionEdits.EditRoundTrip | TinderDinner/Pods/leveldb-library/db/version_edit.cc:41-205 | Decoding an encoded edit into a fresh one gives the edit. |
| VersionEdits.UnknownIsCorrupt | TinderDinner/Pods/leveldb-library/db/version_edit.cc:92-205 | Behind any items, a tag that is not known or a level that does not exist is a corruption. |
| VersionEdits.CutIsCorrupt | TinderDinner/Pods/leveldb-library/db/version_edit.cc:107-205 | An encoded edit that is cut off is taken for an edit, of the items before the cut, if and only if it is cut between two items. |
| VersionEdits.ReusedEditIff | TinderDinner/Pods/leveldb-library/db/version_edit.cc:26-39 | Into a used one it does so if and only if that held no compaction keys, because Clear keeps them. |
| Manifest.VersionSet.LogAndApply | TinderDinner/Pods/leveldb-library/db/version_set.cc:801-884 | Appends the record of the edit to the MANIFEST, and installs the version with it built in if the sync succeeds, else nothing. An edit without a log number, or a previous log number, is written with the current one and leaves it as it was; one with a number installs that. The file stays the log of the edits, each with its version and with the numbers last set when it was written. |
| Manifest.VersionSet.Recover | TinderDinner/Pods/leveldb-library/db/version_set.cc:886-1011 | Succeeds if and only if the log reads without a complaint, every record decodes into a fresh edit for this comparator, and the three numbers occur; then the version is the replay of the edits and the numbers are the last ones. |
| Manifest.CrashRecovery | TinderDinner/Pods/leveldb-library/db/version_set.cc:924-1000 | Cut off at any byte, the MANIFEST gives back the edits whose records are complete, and their replay, on all levels, is the version that was installed with the last of them. |
| Manifest.VersionSet.RecoveredState | TinderDinner/Pods/leveldb-library/db/version_set.cc:985-996 | After recovery the current version and the numbers are those of that last edit. |
| Manifest.VersionSet.RecoveredNumbers | TinderDinner/Pods/leveldb-library/db/version_set.cc:938-996 | The recovered log number and previous log number are the last that a caller had set, up to the last call whose record is there, or those before all calls; the other two numbers are those of that call. |
| FileGc.NothingIsEverLost | TinderDinner/Pods/leveldb-library/db/db_impl.cc:223-278 | In every reachable state: no table of a referenced version, no input or output of a running compaction, no table being written or logged, and no log of an unflushed memtable has been deleted; and whatever the MANIFEST may hold after a crash, its tables exist and every log ever written is in them or is replayed. |
| FileGc.StepKeeps | TinderDinner/Pods/leveldb-library/db/db_impl.cc:491-566 | Each step of readers, writers and the background thread keeps references counted exactly, live tables present, and the MANIFEST in agreement with the current version unless an error is recorded. |
| FileGc.CollectKeeps | TinderDinner/Pods/leveldb-library/db/db_impl.cc:223-278 | Deleting obsolete files deletes nothing that is in use. |
| FileGc.EndCompactionKeeps | TinderDinner/Pods/leveldb-library/db/db_impl.cc:769-784 | Neither does the end of a compaction, successful or not. |
| FileGc.AddLiveFiles | TinderDinner/Pods/leveldb-library/db/version_set.cc:1167-1177 | Collects the numbers of all files of all listed versions. |
| FileGc.CollectGarbage | TinderDinner/Pods/leveldb-library/db/db_impl.cc:223-278 | Without a background error the loop over the directory keeps a file if and only if it is in use: a table that is pending or in a listed version, a log from the version's log number on or the previous log, a MANIFEST from the current one on, or a file of a kind that is always kept. With an error it keeps everything. |
| FileGc.QuietIsClean | TinderDinner/Pods/leveldb-library/db/db_impl.cc:223-278 | A collection in a state that keeps the rules, with no reader, flush, compaction or logging under way, leaves exactly the tables of the current version, the log in use and the MANIFEST in use. |
| FileGc.NothingIsKeptForever | TinderDinner/Pods/leveldb-library/db/db_impl.cc:223-278 | So it is over every run: at the end of a flush or a compaction, if nothing else goes on, no other file is left. |
| HandleTables.HandleTable.FindPointer | TinderDinner/Pods/leveldb-library/util/cache.cc:114-120 | Finds the slot of the entry with the key and hash, or the end of its bucket when there is none. |
| HandleTables.HandleTable.Insert | TinderDinner/Pods/leveldb-library/util/cache.cc:78-92 | Adds the entry in place of the one with its key and hash, which is returned; nothing else changes. |
| HandleTables.HandleTable.Remove | TinderDinner/Pods/leveldb-library/util/cache.cc:94-102 | Takes out the entry with the key and hash, if there is one. |
| HandleTables.HandleTable.Resize | TinderDinner/Pods/leveldb-library/util/cache.cc:122-147 | Rehashing in place keeps the entries, and there are at least as many buckets as entries. |
| LruLists.LRU_Remove | TinderDinner/Pods/leveldb-library/util/cache.cc:239-242 | The list without the entry is a circle again. |
| LruLists.LRU_Append | TinderDinner/Pods/leveldb-library/util/cache.cc:244-250 | The list with the entry as the newest is a circle again. |
| LruCaches.LRUCache.Lookup | TinderDinner/Pods/leveldb-library/util/cache.cc:252-259 | Finds the cached entry of the key or says there is none; an unused one moves to those in use. |
| LruCaches.LRUCache.Release | TinderDinner/Pods/leveldb-library/util/cache.cc:261-264 | The last handle of a cached entry makes it the newest unused one; the last of an uncached one calls the deleter. |
| LruCaches.LRUCache.Insert | TinderDinner/Pods/leveldb-library/util/cache.cc:266-303 | Replaces the entry of the key, hands out a handle, and evicts the oldest unused entries; with capacity 0 nothing is cached. Reference counts are those of clients plus one if cached, usage is the sum of the charges, and lists and table hold the same entries. |
| LruCaches.LRUCache.Erase | TinderDinner/Pods/leveldb-library/util/cache.cc:318-321 | Drops the entry of the key, if there is one. |
| LruCaches.LRUCache.Prune | TinderDinner/Pods/leveldb-library/util/cache.cc:323-333 | Drops all unused entries, oldest first. |
| LruCaches.EvictedIs | TinderDinner/Pods/leveldb-library/util/cache.cc:293-300 | Eviction deletes the oldest unused entries in order, no more than necessary, until the rest fits or nothing unused is left. |
| LruRecency.RunRecency | TinderDinner/Pods/leveldb-library/util/cache.cc:225-303 | After every run of inserts, lookups, releases, erases and prunes, the unused entries stand in the order in which clients last gave them back. |
| LruRecency.EvictsLeastRecent | TinderDinner/Pods/leveldb-library/util/cache.cc:293-300 | So what an insert evicts was last given back before everything unused that stays. |
| LruCaches.InsertedConsistent | TinderDinner/Pods/leveldb-library/util/cache.cc:266-303 | After an insert the usage is within the capacity or nothing unused is left, and the deleter has been called at most once for any entry, never for one in use. |
| LruCaches.InsertedCaches | TinderDinner/Pods/leveldb-library/util/cache.cc:266-303 | With capacity 0 an insert caches nothing and the entry is the client's alone; otherwise the entry is cached and in use, and no other entry of its key is cached. |
| LruCaches.InsertedKnown | TinderDinner/Pods/leveldb-library/util/cache.cc:266-303 | Of the entries cached, held by clients or deleted, an insert loses none and adds its own. |
| LruCaches.DroppedKnown | TinderDinner/Pods/leveldb-library/util/cache.cc:305-316 | Dropping an entry loses none of them: it is deleted then or still held. |
| LruCaches.LRUCache.DeleterCalledOnce | TinderDinner/Pods/leveldb-library/util/cache.cc:225-237 | In every state of the cache each entry ever made is cached or held by a client and has not been deleted, or the deleter has been called for it exactly once. |
| LruCaches.ReleasedConsistent | TinderDinner/Pods/leveldb-library/util/cache.cc:225-237 | Releasing keeps the rules of the lists, the usage and the set of cached entries. |
| LruCaches.DroppedConsistent | TinderDinner/Pods/leveldb-library/util/cache.cc:305-316 | Dropping an entry takes its charge off the usage and calls the deleter only if no client holds it. |
| SnapshotLists.SnapshotList.New | TinderDinner/Pods/leveldb-library/db/snapshot.h:57-72 | Appends a snapshot at the end of the list. |
| SnapshotLists.SnapshotList.Delete | TinderDinner/Pods/leveldb-library/db/snapshot.h:79-86 | Takes out that snapshot, and keeps the others in their order. |
| SnapshotLists.SnapshotList.SmallestSnapshot | TinderDinner/Pods/leveldb-library/db/db_impl.cc:890-894 | The oldest snapshot, or the last sequence number: no live snapshot is below it. |
| NanopbIter.FieldIter.Next | TinderDinner/Pods/nanopb/pb_common.c:20-76 | Goes to the next field, or around to the first, with required_field_index the number of required fields before it. |
| NanopbIter.FieldIter.Find | TinderDinner/Pods/nanopb/pb_common.c:78-97 | Finds the field with the tag from wherever the iterator stands, or comes back to where it was; in an empty message the terminator matches tag 0. |
| NanopbEncode.OStream.Write | TinderDinner/Pods/nanopb/pb_encode.c:103-126 | Counts the bytes, and hands them to the callback if there is room. |
| NanopbEncode.OStream.EncodeVarint | TinderDinner/Pods/nanopb/pb_encode.c:608-628 | Writes the base 128 varint of the value. |
| NanopbEncode.OStream.EncodePackedArray | TinderDinner/Pods/nanopb/pb_encode.c:161-206 | Tag, size and elements of a packed array; the size is that of a sizing run, or count times width. |
| NanopbEncode.OStream.EncodeArray | TinderDinner/Pods/nanopb/pb_encode.c:147-236 | Fails if and only if there are too many elements, one is not in its limits, or there is no room. |
| NanopbEncode.CheckProto3DefaultValue | TinderDinner/Pods/nanopb/pb_encode.c:240-337 | True exactly for what proto3 leaves out, through all submessages. |
| NanopbEncode.OStream.EncodeBasicField | TinderDinner/Pods/nanopb/pb_encode.c:341-426 | Writes the field in the way of its kind, or nothing if it is absent. |
| NanopbEncode.OStream.EncodeSubmessage | TinderDinner/Pods/nanopb/pb_encode.c:717-765 | The second run writes exactly as many bytes as the first counted: the error for a changed size never occurs. |
| NanopbEncode.OStream.Encode | TinderDinner/Pods/nanopb/pb_encode.c:528-550 | Sizing and writing agree: both succeed if and only if the message is in its limits (and there is room), one counts and the other writes the same bytes; a failed run has written some first part of them. |
| NanopbEncode.GetEncodedSize | TinderDinner/Pods/nanopb/pb_encode.c:567-577 | The size is the number of bytes that encoding writes. |
| NanopbDecode.IStream.DecodeVarint32 | TinderDinner/Pods/nanopb/pb_decode.c:187-252 | On all inputs: the value, sign extension, the bits that the code drops or rejects, and the wrap of its 8-bit bit position included. |
| NanopbDecode.IStream.DecodeVarint | TinderDinner/Pods/nanopb/pb_decode.c:255-276 | The low 64 bits of what at most ten bytes denote. |
| NanopbDecode.IStream.SkipField | TinderDinner/Pods/nanopb/pb_decode.c:321-331 | Computes what skipping by the wire type means on all inputs; what that is for encoded values is in NanopbEvolution.SkipsValue. |
| NanopbDecode.IStream.MakeStringSubstream | TinderDinner/Pods/nanopb/pb_decode.c:372-385 | The substream is the delimited part, the stream what is left after it; fails exactly on what is cut off. |
| NanopbDecode.IStream.CloseStringSubstream | TinderDinner/Pods/nanopb/pb_decode.c:387-400 | The stream goes on behind the substream, even if that was not read to its end. |
| NanopbDecode.IStream.DecodeData | TinderDinner/Pods/nanopb/pb_decode.c:1318-1548 | The decoders of all types, with their range checks, agree with the wire format on all inputs. |
| NanopbDecode.IStream.DecodeStaticField | TinderDinner/Pods/nanopb/pb_decode.c:406-480 | Gives the new contents of the field's place: replaced, merged, appended, or the alternative of a oneof chosen. |
| NanopbDecode.IStream.DecodeNoInit | TinderDinner/Pods/nanopb/pb_decode.c:925-1073 | The loop over the fields merges them into the message, skips unknown ones, stops at a zero tag, and fails if a tracked required field is missing. |
| NanopbDecode.IStream.Decode | TinderDinner/Pods/nanopb/pb_decode.c:1075-1087 | Defaults first, then the loop. |
| NanopbDecode.CheckRequired | TinderDinner/Pods/nanopb/pb_decode.c:1027-1070 | Looks at exactly the bits of the required fields, of the first 64. |
| NanopbDecode.CheckedIsAllSeen | TinderDinner/Pods/nanopb/pb_decode.c:1027-1070 | Those bits are all set if and only if every required field has been seen. |
| NanopbDecode.SetToDefaults | TinderDinner/Pods/nanopb/pb_decode.c:836-919 | Every field gets its default in turn: the value of the descriptor, or zeros, and a submessage those of its fields. |
| NanopbRoundTrip.VarintReads | TinderDinner/Pods/nanopb/pb_decode.c:187-276 | Both varint decoders undo the encoder. |
| NanopbRoundTrip.PackedRoundTrip | TinderDinner/Pods/nanopb/pb_decode.c:419-448 | A packed array reads back. |
| NanopbRoundTrip.FieldStep | TinderDinner/Pods/nanopb/pb_decode.c:406-480 | A field, however encoded, takes the decoder from one good state to the next. |
| NanopbRoundTrip.MessageRoundTrip | TinderDinner/Pods/nanopb/pb_decode.c:925-1087 | For every descriptor tree with distinct tags, decoding what the encoder writes succeeds and gives present data back; a proto3 field left out for being zero comes back as its default. |
| NanopbRoundTrip.RoundTripIff | TinderDinner/Pods/nanopb/pb_decode.c:836-889 | So the message itself comes back, up to the data of absent fields, if and only if no proto3 field left out for being zero has another default. |
| NanopbRoundTrip.ZeroDefaultsRoundTrip | TinderDinner/Pods/nanopb/pb_decode.c:836-1087 | It always does for descriptors without such defaults on proto3 fields, at any depth. |
| NanopbEvolution.SkipsValue | TinderDinner/Pods/nanopb/pb_decode.c:278-331 | Skipping by its wire type takes exactly the encoded value of any type, whatever follows. |
| NanopbEvolution.UnknownFieldSkipped | TinderDinner/Pods/nanopb/pb_decode.c:958-992 | An encoded field whose tag the reader does not know leaves the message and the required fields seen as they are. |
| NanopbEvolution.SmallerReaderReads | TinderDinner/Pods/nanopb/pb_decode.c:925-1073 | What a larger descriptor writes, one with any part of its fields reads as its part of the message, within the limits of that part. |
| NanopbEvolution.LargerReaderReads | TinderDinner/Pods/nanopb/pb_decode.c:925-1073 | What a smaller descriptor writes, a larger one reads if and only if no tracked required field is missing, with defaults for the fields that the writer did not have. |
| NanopbSafety.DecodedIsStorable | TinderDinner/Pods/nanopb/pb_decode.c:1318-1548 | Whatever the bytes are, a decoded message fits its struct: numbers in the range of their type, strings, byte arrays and repeated fields within their space, and a union as its tag says. |
| NanopbSafety.WiderWriter | TinderDinner/Pods/nanopb/pb_decode.c:1329-1412 | A 64-bit integer is read into a narrower field if and only if it fits; plain signed ones are cut to 32 bits first. |
| NanopbSafety.Varint32Iff | TinderDinner/Pods/nanopb/pb_decode.c:187-252 | Of all 64-bit numbers the 32-bit decoder reads those below 2^32, and of the others exactly those whose bit 31 is set and whose groups of seven bits from bit 35 on are all ones or zero up to bit 63. |
| NanopbSafety.Varint32Drops | TinderDinner/Pods/nanopb/pb_decode.c:187-252 | So it does not reject all that do not fit: 2^63 + 2^31 is read as 2^31. |
| NanopbSafety.UnpackedReads | TinderDinner/Pods/nanopb/pb_decode.c:419-465 | The elements of a packable field are also read one by one, each behind its own tag. |
| NanopbSafety.LastWins | TinderDinner/Pods/nanopb/pb_decode.c:406-418 | Of a field that comes twice the last value stays. |
| NanopbSafety.GuideExamples | TinderDinner/Pods/nanopb/pb_encode.c:341-426 | Examples of the Encoding guide, byte for byte. |

## Left out

- The app itself (view controllers, Firestore, Core Data): user interface and calls to libraries whose source is not here.
- File system errors: a failed append shows as a prefix of the file (LogFormat), a failed MANIFEST sync as a record that is there and a version that is not installed (Manifest), or an edit that may or may not be there (FileGc), a failed log write or sync as a status (GroupCommit).
- Threads and memory order: a step is what happens under the mutex, and the stores of the skip list are sequentially consistent.
- Recovery as a whole (`DBImpl::Recover`, `RecoverLogFile`): its parts are, `VersionSet::Recover`, the log reader and what FileGc proves about what they find. The start is the empty database, or in FileGc a freshly opened one.
- Exhausting 56-bit sequence numbers: snapshots are below the maximum.
- Internal keys too short to parse, and DBIter's handling of them.
- Compaction scores, seek statistics and read sampling: which level is compacted, and where, is any choice. `ShouldStopBefore` and size limits: outputs are cut anywhere.
- Manual `CompactRange`, `repair.cc`, approximate sizes, properties, the POSIX environment.
- `MakeRoomForWrite`'s delays and waits; the switch of memtables is a step of Lsm and of FileGc, not of GroupCommit.
- Log reader with `initial_offset > 0` and resyncing: every caller shown passes 0.
- CRC32C as arithmetic: a checksum is an unknown function of the bytes.
- Snappy, and the block cache between table and blocks. Checksums are always verified.
- Damaged blocks: block iterators are proved on finished blocks; the 32-bit wrap of sums in `DecodeEntry` does not occur there.
- The hash functions of Bloom filter and cache, and the number of probes that a floating-point product gives: parameters. The random heights of the skip list: a parameter.
- The memtable's own length-prefixed encoding of entries, arenas and memory usage.
- Iterators are put together by their contracts: a child is any cursor over its run, and no theorem has the bytes of blocks under a merging iterator.
- MergingIterator's shortcuts for no child and one child; the sharding of the cache; the cache's destructor; `hash & (length - 1)` is written as the remainder, which it is for powers of two.
- nanopb: callbacks, extensions, pointer fields, fixed-count arrays, `size_t` overflow, and platforms without 64-bit integers. `uint_fast8_t` has eight bits, as on the app's platforms. The bitmap of required fields is an array of booleans. Structs in memory are maps from places to values, the alternatives of a oneof sharing a place; strings are terminated.
- NanopbRoundTrip.MessageRoundTrip: for encodings shorter than 4 GB, the range of the decoder's lengths.
- LsmInvariant.RunsKeepInv: for runs whose compactions bring no deleted value back to a live read, because the code does not exclude that; BoundaryHazard has the exact condition.
- NanopbSafety.Varint32Iff: for numbers in their shortest encoding.
- NanopbSafety.LastWins: for fields other than submessages, which are merged.
- NanopbSafety.DecodedIsStorable: for descriptors whose own defaults fit.
- CompactionRun.BackgroundCompaction: the table it starts from is a parameter, any of the level; manual compactions are not in it.
- DbImpl.LogAndApply: builds the version only; its record, its failure and the log numbers are in Manifest.VersionSet.LogAndApply, on versions from the edits' bytes.
- Manifest.VersionSet.LogAndApply: onto an open MANIFEST, as with `reuse_logs`; starting a new one with a snapshot of the version, and the CURRENT file, are left out, and so is a record that is written in part before an error.
- Manifest.CrashRecovery: for edits that add no file number to a level twice, which holds where every file gets a new number and moves only down.
- BlockBuilders.BlockBuilder.Finish: the layout is claimed for blocks whose sizes fit the 32-bit fields.
- FilterBlock.FilterBlockBuilder.Finish: the filters are claimed to be found again when together they are shorter than 4 GB, for the same reason.
- TableReader.InternalGet: for tables whose blocks and offsets fit the fields that hold them.
- Tables.Table.Open: for the bytes of such tables; of other files only the errors of a short file, a wrong magic number and unreadable handles are in the code. Policies of one name are taken to be one policy.
