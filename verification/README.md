# A verified model of LevelDB and nanopb

Two libraries vendored under `Capital Cycle/Pods` are modelled here in Dafny: LevelDB 1.22, a log-structured merge
store (`leveldb-library`), and the message codec nanopb 0.3.9.9 (`nanopb`). `dafny verify dfyconfig.toml` checks
everything.

## What is modelled

The store keeps recent writes in a memtable, older ones in an immutable memtable and in table files on seven levels.
Deletes are writes of tombstones. A read at sequence number `s` wants the newest write of its key among the first `s`.
The reference for all of this is a plain map, built by replaying the history of writes (`Database.Store`).

* **The store.** `Database` is the state, its invariant and its steps; `Runs` is about whole runs; `DBImpl` is the class
  whose methods take these steps by calling the code that picks, merges, filters and installs. Below it are keys and
  sorted runs (`InternalKeys`, `SortedRuns`), the read path of a version (`Version`), the selection of compaction inputs
  (`InputSelection`), the compaction loop and where it ends its outputs (`Compaction`, `OutputCuts`, `CompactionReads`,
  `MergeDown`), flushes (`MemTableFlush`), version edits (`VersionBuilder`) and snapshots (`SnapshotList`).
* **Iterators.** `MergingIterator`, `DBIter`, `TwoLevelIterator` and `Block.Iter` are cursors with a direction; each is
  proved to stay at one position of one simple sequence, whatever calls are mixed. `ChildRuns` connects them to levels.
* **The log and recovery.** `LogWriter`, `LogReader` on cut and on damaged files (`DamagedLog`), `WriteBatch`, `Recovery`,
  and the group commit protocol as a state machine of interleaved steps (`WriteQueue`). `DurableRuns` adds to a run what is
  on disk at each of its points, failed writes of the log included (`TornLog`); `SyncedRuns` is about what a sync buys over
  whole runs; `ManifestLink` steps the store and its manifest together; `CrashRecovery` opens the store from what a crash
  left.
* **File formats.** `Coding`, `BlockBuilder`, `Block`, `Bloom`, `FilterBlock`, `Comparator`, `TableFormat`,
  `TableOrder`, `TableBuilder`, `Table`, `TableLookups`, `VersionEdit`, `Manifest`, `VersionSet`.
* **Memory structures.** `SkipList` (one caller) and `SkipListReaders` (one writer and any number of readers, every
  load and store a step of its own); `HandleTable`, `LRUCache` and the histories of its calls (`LRUOrder`).
* **nanopb.** `PbVarint`, `PbMessage` (descriptors, encoding, the sizing pass), `PbDecode`, `PbStrings`, and messages
  between programs with different descriptors (`PbEvolution`).

## Main results

* `Runs.RunReadsReplayedHistory`: at every state of every run whose compactions are guarded, reads at the last sequence
  number or at a live snapshot give what replaying the writes gives. `Runs.ReadsExact` shows that the guard is the exact
  condition, and `DBImpl` that the code's own operations are steps of these runs.
* `CompactionReads.DropRulesExact`, `InputSelection.SetupOtherInputs`, `Version.Get`,
  `VersionBuilder.ReplayMatchesInstalls`: the parts this rests on. `DBImpl.DBImpl.BackgroundCompaction` and
  `DBImpl.DBImpl.CompactLevelRange` also say which inputs are taken, `Compaction.Compaction.DoCompactionWork` where outputs
  end.
* `DBIter` with `DBIter.ViewHoldsNewest`, `MergingIterator.WalkForward`, `Block.NewIterator`, `Table.Table.NewIterator`:
  what each cursor walks over.
* `LogReader.CutLogReads`, `Recovery.RecoverLogFile`, `VersionSet.Reopen`: what a crash at any byte leaves of a log or of a
  manifest. `CrashRecovery.OpenAfterCrash` puts them together, for every point of a run (`DurableRuns.RunIsDurable`,
  `ManifestLink.Install`) whose live logs were not written on behind a failed append: reads after a crash give the replay
  of the writes whose batches are complete in the two logs. Everything that was synced is among them
  (`CrashRecovery.SyncedSurvives`): over whole runs a write with `sync` set, and all that went to its log before it, is there
  after every later crash (`SyncedRuns.SyncedWriteSurvives`). They are a prefix of all writes exactly when the older log lost no update or the newer
  one kept none (`CrashRecovery.SurvivorsExact`), so for every crash exactly when the log of the immutable memtable has no
  update behind its last sync, or nothing was written since (`CrashRecovery.EveryCrashExact`).
* `WriteQueue.ReadsSeeWholeGroups`, `SkipListReaders.SearchIsAtomic`, `SkipListReaders.InsertionInserts`: statements over
  every interleaving, with `WriteQueue.WriterIsServed`, `SkipListReaders.SearchEnds` and `SkipListReaders.WriterCanStep` for
  what must get done.
* `LRUOrder.EvictedWasReleasedEarlier`, `LRUOrder.AnswersLastInsert`: over whole histories of calls, which entries an LRU
  cache evicts and what a lookup finds.
* `DamagedLog.ReturnedWasWritten`, `DamagedLog.DamageEnds`: what is read of a log with arbitrary damage.
* `TableLookups.LookupIsRead`: a lookup in the bytes of a table, through shortened index keys and filters, is the read that
  the store's model makes of the table's entries; `TableLookups.BytewiseShortens` leaves nothing to assume for it.
* `PbStrings.MessageRoundTripExact`: exactly which nested messages come back from their encoding.
  `PbEvolution.OlderReceiver` and `PbEvolution.NewerReceiver`: what a receiver with fewer or more fields makes of them.

## Where the code and its documentation differ

* **Boundary files.** The comment on `AddBoundaryInputs` (`version_set.cc:1364-1377`) explains why all files that
  continue a user key belong in one compaction. The code calls it for the inputs of the compacted level only
  (`version_set.cc:1407` and `:1422`), not for those of the output level. So a tombstone in the output level's inputs can
  be dropped while the file behind it, which continues the same user key, stays. The guard of a run is that this does
  not happen. `CompactionReads.DropRulesExact`, `Database.CompactionExact` and `Runs.ReadsExact` show that a compaction
  is right if and only if it is guarded; `BoundaryGuard.SelectionCanResurrect` gives a state in which the code has no other
  selection; `ResurrectingRun.DeletedKeyComesBack` gives a run of writes, flushes and compactions of the whole key range
  from the empty store that ends with the deleted key back; and `BoundaryGuard.ClosedOutputLevelGuards` shows that adding
  boundary files on the output level too would always be enough.
* **Separators.** `include/leveldb/comparator.h:45-49` promises less of `FindShortestSeparator` than table files need:
  `Comparator.DocumentedLawIsTooWeak`. `Comparator.SeparatorExact` is what they need, and
  `Comparator.BytewiseStaysBelow` shows that the bytewise comparator keeps it.
* **Cleared edits.** `VersionEdit::Clear` leaves the compaction pointers (`version_edit.cc:26-39`), so an edit that is
  used again does not always decode to what was encoded: `VersionEdit.ReusedEditKeepsPointers` says exactly when.
* **Failed log writes** still use up their sequence numbers (`db_impl.cc:1236`), so the blocks of successful batches are
  not always gap-free: `WriteQueue.FailedGroupLeavesGap` is a run with a gap, and `WriteQueue.GapFree` says exactly when
  there is none. In histories such a number is `Unused`.
* **The older log.** `MakeRoomForWrite` closes the log of a full memtable without a sync (`db_impl.cc:1356-1361`), and
  `Recover` takes a torn older log for a complete one (`db_impl.cc:352-363`). So a crash of the machine can leave a newer
  write, even a synced one, without an older one, although `include/leveldb/options.h:178-181` compares a synced write to
  an `fsync`: `CrashRecovery.OlderLogLost` is such a run. `CrashRecovery.EveryCrashExact` is the exact condition. It holds
  when the last write before each switch is synced, and while there is no immutable memtable.
* **Failed appends.** After a failed append later writes go to the same log (`db_impl.cc:1214`), though a part of the
  record may be in the file and the writer's offset has moved on (`log_writer.cc:106`). A record written behind it, and
  synced, can be lost without a report: `TornLog.LostBehindFailure`. `DurableRuns.CleanSince` says when a run is safe from
  this. After a failed sync there are no later writes, and the batch may or may not come back (`db_impl.cc:1226-1232`).
* **Records of type 5.** The reader uses the number behind the last record type for the end of the file
  (`log_reader.h:66`) and takes a record of that type for it. So a log ends at such a record without a report, although
  records of other unknown types are reported and passed over (`log_reader.cc:161-170`). `DamagedLog.DamageEnds` shuts out
  just this case, `DamagedLog.FalseEnd`.
* **32-bit varints.** nanopb's 32-bit decoder cuts some larger numbers without reporting it (`PbVarint.UnreportedOverflow`)
  and accepts padding of any length (`PbVarint.LongPadding`). `PbVarint.Decode32Exact` says exactly what it accepts, and
  `PbVarint.Decode32Agrees` exactly which inputs it treats like the 64-bit decoder.
* **Full char arrays.** nanopb sends a char array without a terminating zero whole, and then refuses to decode it into an
  array of the same size (`pb_encode.c:873-898`, `pb_decode.c:1487-1524`): `PbStrings.FullStringMessage`.
  `PbStrings.MessageRoundTripExact` says exactly which messages come back.

## Conventions

* A user key is its rank in the user comparator's order, a `real`. A comparator orders a countable set of strings, and
  every countable strict total order embeds in the reals; nothing but `<` and `==` is used of them. Skip-list keys and
  the table's keys are treated alike; where bytes matter, an arbitrary function ranks them.
* Checksums and hash functions are arbitrary function parameters. Files are byte sequences. Cache handles have ids.
* Fixed widths are written out where the code depends on them: 32 and 64-bit varints, masks, shifts, sequence numbers of
  56 bits, file offsets.
* Choices that only affect speed are left open where the code measures or draws lots, so the results cover all of them:
  which level to compact, when an output file is full, how high a skip-list node is.

## Model

| member | source | states |
|---|---|---|
| Runs.RunReadsReplayedHistory | Capital Cycle/Pods/leveldb-library/db/db_impl.cc:1100-1145 | At every state of every guarded run of writes, memtable switches, flushes, trivial moves, compactions and snapshot steps, a read at the last sequence number or at any live snapshot gives what replaying all writes up to that number into a plain map gives |
| Runs.RunExact | Capital Cycle/Pods/leveldb-library/db/db_impl.cc:878-1036 | The invariant holds up to a point of a run exactly when every compaction before it was guarded (dropped no tombstone over a value that stayed behind) |
| Runs.ReadsExact | Capital Cycle/Pods/leveldb-library/db/db_impl.cc:878-1036 | All reads at all states of a run so far, at the last sequence number and at every live snapshot, give what the replay gives if and only if every compaction so far was guarded |
| Runs.StepExact | Capital Cycle/Pods/leveldb-library/db/db_impl.cc:535-566 | Each single step keeps the invariant if and only if it is guarded; every step other than a compaction always does |
| Runs.SnapshotIsStable | Capital Cycle/Pods/leveldb-library/db/snapshot.h:19-37 | A snapshot live at two points of a guarded run reads the same for every key at both, whatever happened between |
| Runs.SnapshotHolds | Capital Cycle/Pods/leveldb-library/db/db_impl.cc:1166-1174 | A snapshot reads as the store did when it was taken, until it is released, whatever happens in between |
| Runs.WriteIsRead | Capital Cycle/Pods/leveldb-library/db/db_impl.cc:1204-1236 | Right after a write a reader finds, for each key, what the last operation of the batch on it left, and for other keys what was there before |
| Runs.HistoryGrows | Capital Cycle/Pods/leveldb-library/db/db_impl.cc:1185-1256 | The history of writes is only ever extended |
| DBImpl.DBImpl.constructor | Capital Cycle/Pods/leveldb-library/db/db_impl.cc:127-151 | A new store satisfies the invariant with an empty history |
| DBImpl.DBImpl.Get | Capital Cycle/Pods/leveldb-library/db/db_impl.cc:1100-1145 | Looking in memtable, immutable memtable and version, in this order and stopping at the first answer, returns the replayed history's value, or nothing for a missing or deleted key |
| DBImpl.DBImpl.NewIterator | Capital Cycle/Pods/leveldb-library/db/db_impl.cc:1147-1157 | The iterator over all of memory and disk shows exactly the keys and values of the replayed map at its sequence number, each key once and in order |
| DBImpl.ViewIsStore | Capital Cycle/Pods/leveldb-library/db/db_impl.cc:1062-1087 | For any sorted sequence of all stored entries and any readable sequence number, the snapshot view lists the replayed map |
| DBImpl.DBImpl.Write | Capital Cycle/Pods/leveldb-library/db/db_impl.cc:1204-1236 | A batch takes the next consecutive sequence numbers and keeps the invariant for the longer history |
| DBImpl.DBImpl.FailedWrite | Capital Cycle/Pods/leveldb-library/db/db_impl.cc:1219-1236 | A write whose log record fails stores nothing and keeps the invariant; its sequence numbers are used up |
| DBImpl.DBImpl.SwitchMemTable | Capital Cycle/Pods/leveldb-library/db/db_impl.cc:1310-1370 | The full memtable becomes the immutable one; all reads stay the same |
| DBImpl.DBImpl.GetSnapshot | Capital Cycle/Pods/leveldb-library/db/db_impl.cc:1166-1169 | The snapshot is the last sequence number, which stays readable from then on |
| DBImpl.DBImpl.ReleaseSnapshot | Capital Cycle/Pods/leveldb-library/db/db_impl.cc:1171-1174 | Releasing a snapshot keeps the invariant for the last sequence number and the snapshots that stay |
| DBImpl.DBImpl.CompactMemTable | Capital Cycle/Pods/leveldb-library/db/db_impl.cc:535-566 | The immutable memtable becomes one table, at the level that the rule picks for its range, where nothing newer hides below and nothing overlaps it; every read stays the same |
| DBImpl.WriteLevel0Table | Capital Cycle/Pods/leveldb-library/db/db_impl.cc:491-533 | The edit adds one table with the memtable's contents at the level picked for it, where it fits, or nothing for an empty memtable |
| DBImpl.FlushTable | Capital Cycle/Pods/leveldb-library/db/db_impl.cc:491-566 | Writing and installing the table is the flush step of the state machine and keeps the invariant |
| DBImpl.DBImpl.BackgroundCompaction | Capital Cycle/Pods/leveldb-library/db/db_impl.cc:688-767 | The inputs come from the file whose seeks ran out, or from the first file behind the compaction pointer; they are moved exactly when it is a single file with nothing to merge and not too much below it, and merged otherwise; the store satisfies its invariant afterwards exactly when that step was guarded, and the compaction pointer moves to the largest key of the inputs |
| DBImpl.DBImpl.CompactLevelRange | Capital Cycle/Pods/leveldb-library/db/db_impl.cc:585-622 | Nothing happens exactly when no file of the level meets the range; otherwise one compaction step is taken whose inputs come from the requested files, cut at the size limit, and the compaction pointer moves to the largest key of the inputs |
| DBImpl.DBImpl.MergeSelected | Capital Cycle/Pods/leveldb-library/db/db_impl.cc:878-1036 | Merging selected inputs, filtering, writing tables and installing the result is one compaction step, keeps the invariant exactly when it is guarded, and leaves no output that reaches over too many bytes of grandparents |
| DBImpl.MoveFile | Capital Cycle/Pods/leveldb-library/db/db_impl.cc:718-728 | Moving a lone input file down one level changes no read |
| DBImpl.MergeFiles | Capital Cycle/Pods/leveldb-library/db/db_impl.cc:860-876 | The new version is the input version with the inputs replaced by tables of exactly the entries that survive the two drop rules |
| DBImpl.WriteTables | Capital Cycle/Pods/leveldb-library/db/db_impl.cc:786-858 | The tables have fresh numbers, hold the surviving entries in order, and are split just where the loop is told to |
| DBImpl.InsertInto | Capital Cycle/Pods/leveldb-library/db/write_batch.cc:119-136 | Adding the operations of a batch one by one is adding them as a whole with consecutive sequence numbers |
| Database.LayeredAnswer | Capital Cycle/Pods/leveldb-library/db/db_impl.cc:1117-1136 | If each layer's answer is its newest visible entry, the first one found in the order of recency is the replayed value |
| Database.WriteKeepsInv | Capital Cycle/Pods/leveldb-library/db/write_batch.cc:107-136 | Writing any batch keeps the invariant: structure, recency between layers, and agreement with the replayed history at every readable sequence number |
| Database.FailedStoresNothing | Capital Cycle/Pods/leveldb-library/db/db_impl.cc:1219-1236 | After a failed write a reader at the new last sequence number sees what one at the old one saw |
| Database.SwitchKeepsInv | Capital Cycle/Pods/leveldb-library/db/db_impl.cc:1349-1366 | Making the memtable the immutable one keeps the invariant |
| Database.FlushKeepsInv | Capital Cycle/Pods/leveldb-library/db/db_impl.cc:535-566 | A flush at any level it fits keeps the invariant and the set of stored entries |
| Database.MoveKeepsInv | Capital Cycle/Pods/leveldb-library/db/db_impl.cc:718-728 | A trivial move keeps the invariant |
| Database.SnapshotKeepsInv | Capital Cycle/Pods/leveldb-library/db/snapshot.h:56-70 | Taking a snapshot keeps the invariant |
| Database.ReleaseKeepsInv | Capital Cycle/Pods/leveldb-library/db/snapshot.h:72-86 | Releasing any snapshot keeps the invariant |
| Database.CompactionStructure | Capital Cycle/Pods/leveldb-library/db/db_impl.cc:860-876 | A compaction of selected inputs always leaves a well-formed version, sorted and disjoint below level 0 and ordered by recency, that holds exactly the entries not dropped |
| Database.CompactionExact | Capital Cycle/Pods/leveldb-library/db/db_impl.cc:929-996 | A compaction keeps the invariant if and only if no tombstone that it drops still covers a value in a file of the output level that stays |
| Database.InsertAllSnoc | Capital Cycle/Pods/leveldb-library/db/write_batch.cc:107-129 | Entry-by-entry insertion of a batch from the front equals inserting the last operation behind all others |
| InternalKeys.PackRoundTrip | Capital Cycle/Pods/leveldb-library/db/dbformat.cc:14-18 | Sequence number and type survive packing into 64 bits for every sequence number up to the largest |
| InternalKeys.SeekKeySplits | Capital Cycle/Pods/leveldb-library/db/dbformat.h:54-63 | The seek key of a read sorts after exactly the entries of its user key that are too new for the read |
| InternalKeys.RunGetFindsNewest | Capital Cycle/Pods/leveldb-library/db/memtable.cc:100-134 | Seeking in a sorted run and comparing the user key returns the newest visible entry of the key, or none if there is none |
| InternalKeys.NewestOfLayers | Capital Cycle/Pods/leveldb-library/db/db_impl.cc:1117-1136 | A newer layer's answer wins over an older layer's, and together they answer for the union |
| SortedRuns.InsertSorts | Capital Cycle/Pods/leveldb-library/db/memtable.cc:75-98 | Adding an entry with a new key keeps a memtable sorted and adds exactly that entry |
| Version.FindFile | Capital Cycle/Pods/leveldb-library/db/version_set.cc:88-106 | Binary search gives the first file whose largest key is at or after the key |
| Version.OneFileSuffices | Capital Cycle/Pods/leveldb-library/db/version_set.cc:340-421 | In a sorted disjoint level the one file that FindFile selects decides a read: if it has no visible entry of the key, no file of the level does |
| Version.GetFromSortedLevel | Capital Cycle/Pods/leveldb-library/db/version_set.cc:360-376 | A read of one deeper level returns the newest visible entry over all files of the level |
| Version.CollectNewestFirst | Capital Cycle/Pods/leveldb-library/db/version_set.cc:345-359 | The level-0 files that meet the key, and only these, come out ordered from the newest file to the oldest |
| Version.FirstFileDecides | Capital Cycle/Pods/leveldb-library/db/version_set.cc:263-280 | The first hit in newest-first order is the newest visible entry over all level-0 files |
| Version.GetFromLevelZero | Capital Cycle/Pods/leveldb-library/db/version_set.cc:345-359 | Reading level 0 newest-first returns the newest visible entry over all its files |
| Version.Get | Capital Cycle/Pods/leveldb-library/db/version_set.cc:326-421 | The level-by-level search returns the newest visible entry over all entries of all files, or none if there is none |
| InputSelection.GetOverlappingInputs | Capital Cycle/Pods/leveldb-library/db/version_set.cc:519-559 | It terminates despite its restarts; below level 0 it returns the files that meet the range, in level 0 exactly the files that meet the least range around it that no file straddles |
| InputSelection.LeastClosedIsUnique | Capital Cycle/Pods/leveldb-library/db/version_set.cc:541-556 | There is only one least closed range, so the level-0 result does not depend on the order of the files |
| InputSelection.WideningLowersOutside | Capital Cycle/Pods/leveldb-library/db/version_set.cc:541-556 | Each restart lowers the number of files that stick out of the range |
| InputSelection.GetRange | Capital Cycle/Pods/leveldb-library/db/version_set.cc:1205-1224 | The smallest and largest key over a set of files |
| InputSelection.FindSmallestBoundaryFile | Capital Cycle/Pods/leveldb-library/db/version_set.cc:1344-1362 | It returns the boundary file with the smallest key behind the given key, and nothing exactly when there is no boundary file |
| InputSelection.AddBoundaryInputs | Capital Cycle/Pods/leveldb-library/db/version_set.cc:1378-1401 | It terminates and appends a chain of boundary files, each continuing the user key at the end so far, after which no boundary file is left |
| InputSelection.BoundaryIsNext | Capital Cycle/Pods/leveldb-library/db/version_set.cc:1344-1362 | In a sorted disjoint level a boundary file is the file directly behind |
| InputSelection.BoundaryCloses | Capital Cycle/Pods/leveldb-library/db/version_set.cc:1364-1401 | After adding boundary files the inputs are still adjacent (a closed set in level 0), and files left out hold only newer entries of the inputs' user keys |
| InputSelection.SliceLeavesNewer | Capital Cycle/Pods/leveldb-library/db/version_set.cc:1364-1401 | Files outside an adjacent run without a boundary file behind it hold only newer entries of the user keys in the run |
| InputSelection.ClosedRangeLeavesNewer | Capital Cycle/Pods/leveldb-library/db/version_set.cc:519-559 | Level-0 files outside a closed range share no user key with the files inside |
| InputSelection.SetupOtherInputs | Capital Cycle/Pods/leveldb-library/db/version_set.cc:1403-1462 | The selection is closed: no file left out of the level holds an older entry of an input user key, and every file of the next level that meets the inputs' user-key range is included. It is the start set with its boundary files, grown to the range of both levels exactly when that adds files, stays below the byte limit and pulls in no more of the next level |
| InputSelection.Expand | Capital Cycle/Pods/leveldb-library/db/version_set.cc:1416-1447 | Growing the inputs to the range of both levels keeps all of them and the closure property |
| InputSelection.FindGrandparents | Capital Cycle/Pods/leveldb-library/db/version_set.cc:1449-1454 | The files two levels down that meet the range of all inputs, or none below the last level |
| InputSelection.PickFile | Capital Cycle/Pods/leveldb-library/db/version_set.cc:1290-1304 | The first file whose largest key is behind the compaction pointer, or the first file of the level when there is no pointer or nothing behind it |
| InputSelection.PickCompaction | Capital Cycle/Pods/leveldb-library/db/version_set.cc:1270-1322 | The inputs come from the file picked by seeks or in turn, in level 0 with all that the least closed range around it meets, and the selection is closed |
| InputSelection.CutToSize | Capital Cycle/Pods/leveldb-library/db/version_set.cc:1476-1488 | The shortest front of the files that reaches the size limit, or all of them |
| InputSelection.RequestedFiles | Capital Cycle/Pods/leveldb-library/db/version_set.cc:1464-1488 | Nothing exactly when no file meets the range; else the files that meet it, in level 0 with all of the least closed range, below it cut to size |
| InputSelection.CompactRange | Capital Cycle/Pods/leveldb-library/db/version_set.cc:1464-1495 | No compaction exactly when no file meets the range; otherwise the selection is closed and comes from the files that meet the range, below level 0 from the shortest front of them that reaches the size limit, and the next compaction starts behind the largest key of the inputs |
| InputSelection.RequestReaches | Capital Cycle/Pods/leveldb-library/db/version_set.cc:1464-1495 | The first file that meets the requested range, and in level 0 every one, is among the inputs |
| BoundaryGuard.SelectionCanResurrect | Capital Cycle/Pods/leveldb-library/db/version_set.cc:1403-1424 | A proper state in which the only selection possible for level 1 drops a tombstone whose older value stays in level 2: boundary files are added to the inputs of the upper level only |
| BoundaryGuard.SplitStoreSelectionIsForced | Capital Cycle/Pods/leveldb-library/db/version_set.cc:1403-1414 | In that state every finished selection is the one upper file and the left one of the two files below it |
| ResurrectingRun.TraceIsRun | Capital Cycle/Pods/leveldb-library/db/db_impl.cc:888-1036 | Each of the thirteen steps of that run is one that the state machine allows, from the state that the step before left |
| ResurrectingRun.DeletedKeyComesBack | Capital Cycle/Pods/leveldb-library/db/db_impl.cc:954-967 | The guard is needed: a whole run from the empty store, guarded up to its last compaction, after which a deleted key reads as its old value |
| BoundaryGuard.ClosedOutputLevelGuards | Capital Cycle/Pods/leveldb-library/db/version_set.cc:1533-1552 | If no boundary file continues the output-level inputs, no compaction resurrects a key: the check that adding boundary files to the second input set would establish |
| VersionBuilder.Builder.Apply | Capital Cycle/Pods/leveldb-library/db/version_set.cc:659-692 | One builder takes in the file changes of edit after edit: deleted numbers and added files, per level and in key order |
| VersionBuilder.Builder.SaveTo | Capital Cycle/Pods/leveldb-library/db/version_set.cc:695-739 | Each level comes out sorted by smallest key and holds base and added files without the deleted ones |
| VersionBuilder.SaveLevel | Capital Cycle/Pods/leveldb-library/db/version_set.cc:699-739 | Merging base and added files in order, skipping deleted ones, gives the sorted union |
| VersionBuilder.LogAndApply | Capital Cycle/Pods/leveldb-library/db/version_set.cc:819-824 | A builder on the current version gives the version whose levels are the old files plus the added minus the deleted ones, sorted |
| VersionBuilder.ReplayMatchesInstalls | Capital Cycle/Pods/leveldb-library/db/version_set.cc:924-995 | One builder that takes in all edits reaches the same files of every level as installing the edits one after the other, if a number is added to a level at most once |
| VersionBuilder.BuiltIsReplayed | Capital Cycle/Pods/leveldb-library/db/version_set.cc:650-739 | The files that one builder for all edits keeps are those that applying the edits one after the other leaves, if a number is added to a level at most once |
| VersionBuilder.RunReplays | Capital Cycle/Pods/leveldb-library/db/version_set.cc:801-884 | A run of installs from the empty version ends in the one version that has the files of the replayed edits, also for no edits |
| VersionBuilder.Recover | Capital Cycle/Pods/leveldb-library/db/version_set.cc:924-995 | For any edits, none included, each level of the result is sorted and has exactly the files of the replayed edits; it is the version that installing them one by one ends in |
| VersionBuilder.SnapshotRebuilds | Capital Cycle/Pods/leveldb-library/db/version_set.cc:1104-1111 | The files that WriteSnapshot lists of a version, applied to the empty version, give the version back |
| VersionBuilder.ManifestDescribesRun | Capital Cycle/Pods/leveldb-library/db/version_set.cc:1104-1111 | A snapshot of the files followed by the edits installed since is itself a run of installs from the empty version to the current one, with all file numbers added once |
| VersionEdit.ItemsRoundTrip | Capital Cycle/Pods/leveldb-library/db/version_edit.cc:41-205 | Any list of fields decodes from its tagged encoding as it was |
| VersionEdit.ItemExamples | Capital Cycle/Pods/leveldb-library/db/version_edit.cc:14-24 | The fields that hold a name or a number, byte by byte behind their tags |
| VersionEdit.LevelExamples | Capital Cycle/Pods/leveldb-library/db/version_edit.cc:14-24 | A compaction pointer and a deleted file byte by byte |
| VersionEdit.NewFileExample | Capital Cycle/Pods/leveldb-library/db/version_edit.cc:14-24 | A new file byte by byte |
| VersionEdit.EditRoundTrip | Capital Cycle/Pods/leveldb-library/db/version_edit.cc:41-205 | An edit decodes from its encoding as it was, whatever order its deleted files are written in |
| VersionEdit.DecodedFit | Capital Cycle/Pods/leveldb-library/db/version_edit.cc:96-105 | Whatever the input, each decoded field can be encoded again: levels are in range |
| VersionEdit.UnknownTag | Capital Cycle/Pods/leveldb-library/db/version_edit.cc:188-194 | A field of an unknown tag makes the edit malformed |
| VersionEdit.ItemsRebuild | Capital Cycle/Pods/leveldb-library/db/version_edit.cc:120-194 | Applying the fields of an edit to a cleared one rebuilds it |
| VersionEdit.VersionEdit.Clear | Capital Cycle/Pods/leveldb-library/db/version_edit.cc:26-39 | Every field is reset, except that compaction pointers stay |
| VersionEdit.VersionEdit.EncodeTo | Capital Cycle/Pods/leveldb-library/db/version_edit.cc:41-85 | The bytes appended are the encoding of exactly the fields that are present |
| VersionEdit.VersionEdit.DecodeFrom | Capital Cycle/Pods/leveldb-library/db/version_edit.cc:107-205 | The result says whether all input was well-formed, and the fields are those decoded up to the first error |
| VersionEdit.ReusedEditKeepsPointers | Capital Cycle/Pods/leveldb-library/db/version_edit.cc:26-39 | Decoding into an edit that has compaction pointers gives the encoded edit exactly when it had none: otherwise the old ones stay in front |
| Manifest.TakePointers | Capital Cycle/Pods/leveldb-library/db/version_set.cc:650-657 | For each level the last compaction pointer of an edit replaces the one before |
| Manifest.ReplayEdits | Capital Cycle/Pods/leveldb-library/db/version_set.cc:924-968 | Reading a manifest cut off at any byte takes in exactly the edits whose records are complete, with the latest counters and compaction pointers, and stops exactly at a comparator that does not match |
| Manifest.Recover | Capital Cycle/Pods/leveldb-library/db/version_set.cc:886-1011 | It succeeds exactly when comparators match and the three required counters occur, and then yields the version of the replayed edits, with the latest counters and compaction pointers |
| VersionSet.SnapshotStandsFor | Capital Cycle/Pods/leveldb-library/db/version_set.cc:1088-1116 | The edit in the snapshot record, read back, adds exactly the files of the version |
| VersionSet.RecordStandsFor | Capital Cycle/Pods/leveldb-library/db/version_set.cc:650-692 | Any change of levels is what its recorded fields stand for, deleted and added files level by level |
| VersionSet.VersionSet.WriteSnapshot | Capital Cycle/Pods/leveldb-library/db/version_set.cc:1088-1116 | The first record of a manifest encodes the comparator name, the compaction pointers that are set and all files |
| VersionSet.VersionSet.LogAndApply | Capital Cycle/Pods/leveldb-library/db/version_set.cc:801-884 | The version after the edit becomes current, the edit is recorded with the numbers of the moment, behind a snapshot if the manifest is new, and the manifest describes exactly the state reached |
| VersionSet.Reopen | Capital Cycle/Pods/leveldb-library/db/version_set.cc:886-1011 | Recovering from the manifest, with the next record torn at any byte, gives back version, numbers and compaction pointers as of the last installed edit |
| Compaction.Compaction.IsBaseLevelForKey | Capital Cycle/Pods/leveldb-library/db/version_set.cc:1533-1552 | With cursors that only move forward the answer equals a full scan of all deeper levels, for keys that do not decrease |
| Compaction.Compaction.ShouldDrop | Capital Cycle/Pods/leveldb-library/db/db_impl.cc:938-967 | The loop's test with the last sequence number of the key decides exactly the two drop rules |
| Compaction.Compaction.DoCompactionWork | Capital Cycle/Pods/leveldb-library/db/db_impl.cc:906-1006 | Together the outputs hold the input without the dropped entries, in order; none is empty or reaches over more bytes of grandparents than the limit; and two kept neighbours go to different outputs exactly when the file is full or a look at one of the entries up to the second says stop |
| Compaction.Compaction.ShouldStopBefore | Capital Cycle/Pods/leveldb-library/db/version_set.cc:1554-1575 | With a cursor that only moves forward the answer is whether the bytes of grandparents passed since the first entry or the last stop exceed the limit |
| OutputCuts.BetweenMeans | Capital Cycle/Pods/leveldb-library/db/version_set.cc:1554-1575 | The bytes that an output reaches over are those of the grandparents that end within its range |
| Compaction.OneVersionLeft | Capital Cycle/Pods/leveldb-library/db/db_impl.cc:945-963 | Of the entries of a user key at or below the smallest snapshot at most one is kept, and no tombstone where no deeper level can have the key |
| Compaction.HiddenByPredecessor | Capital Cycle/Pods/leveldb-library/db/db_impl.cc:940-952 | An entry is hidden by a newer one at or below the smallest snapshot exactly when its predecessor in the merged input is such an entry of the same user key |
| Compaction.KeptEntries | Capital Cycle/Pods/leveldb-library/db/db_impl.cc:929-996 | What is kept is sorted and is exactly the input entries that neither rule drops |
| CompactionReads.ReadsKept | Capital Cycle/Pods/leveldb-library/db/db_impl.cc:929-967 | Without a resurrected key, every read of every user key at or above the smallest snapshot is the same before and after the drop rules |
| CompactionReads.ResurrectedReadChanges | Capital Cycle/Pods/leveldb-library/db/db_impl.cc:954-967 | With a resurrected key, its read at the smallest snapshot changes from nothing to an old value |
| CompactionReads.DropRulesExact | Capital Cycle/Pods/leveldb-library/db/db_impl.cc:929-967 | The drop rules preserve every read at or above the smallest snapshot if and only if no key is resurrected |
| MergeDown.InstalledReplaces | Capital Cycle/Pods/leveldb-library/db/db_impl.cc:860-876 | Installing a compaction's edit removes exactly the inputs and adds exactly the outputs |
| MergeDown.ReplacedIsValid | Capital Cycle/Pods/leveldb-library/db/db_impl.cc:860-876 | Replacing closed inputs by sorted, disjoint outputs with a subset of their entries keeps levels disjoint and ordered by recency |
| MemTableFlush.SomeFileOverlapsRange | Capital Cycle/Pods/leveldb-library/db/version_set.cc:122-157 | The answer is whether some file meets the user-key range, by scan in level 0 and by one binary search in sorted levels |
| MemTableFlush.PickLevelForMemTableOutput | Capital Cycle/Pods/leveldb-library/db/version_set.cc:491-516 | Level 0 if something there meets the range; otherwise as far down, to level 2 at most, as nothing on the next level meets the range and not too many bytes on the one after it do |
| MemTableFlush.AddedIsValid | Capital Cycle/Pods/leveldb-library/db/version_set.cc:491-516 | Adding the newest data at a level it fits keeps the version well-formed |
| ChildRuns.MergeInputs | Capital Cycle/Pods/leveldb-library/db/version_set.cc:1237-1268 | Walking a merging iterator over one child per level-0 input and one per deeper level gives the sorted union of the inputs |
| ChildRuns.InputRunsGood | Capital Cycle/Pods/leveldb-library/db/version_set.cc:1237-1268 | The children of a compaction are sorted and share no internal key |
| ChildRuns.ConcatenationSorted | Capital Cycle/Pods/leveldb-library/db/version_set.cc:223-228 | The files of a disjoint level one after the other are one sorted run of all its entries |
| ChildRuns.StoreRunsGood | Capital Cycle/Pods/leveldb-library/db/db_impl.cc:1062-1087 | The children of the iterator over the store are sorted, share no internal key, and hold exactly all stored entries |
| MergingIterator.MergingIterator.constructor | Capital Cycle/Pods/leveldb-library/table/merger.cc:19-25 | Over sorted children without common keys the iterator starts out not valid |
| MergingIterator.MergingIterator.SeekToFirst | Capital Cycle/Pods/leveldb-library/table/merger.cc:31-37 | At the first entry of the sorted union |
| MergingIterator.MergingIterator.SeekToLast | Capital Cycle/Pods/leveldb-library/table/merger.cc:39-45 | At the last entry of the sorted union |
| MergingIterator.MergingIterator.Seek | Capital Cycle/Pods/leveldb-library/table/merger.cc:47-53 | At the first entry of the union at or after the target |
| MergingIterator.MergingIterator.Next | Capital Cycle/Pods/leveldb-library/table/merger.cc:55-79 | One position further in the union, also right after moving backward |
| MergingIterator.MergingIterator.Prev | Capital Cycle/Pods/leveldb-library/table/merger.cc:81-108 | One position back in the union, also right after moving forward |
| MergingIterator.MergingIterator.PlaceOthersAfter | Capital Cycle/Pods/leveldb-library/table/merger.cc:61-74 | Switching to forward re-establishes that every other child stands behind the current key |
| MergingIterator.MergingIterator.PlaceOthersBefore | Capital Cycle/Pods/leveldb-library/table/merger.cc:88-103 | Switching to backward re-establishes that every other child stands before the current key |
| MergingIterator.MergingIterator.FindSmallest | Capital Cycle/Pods/leveldb-library/table/merger.cc:148-161 | The child with the smallest current key holds the next entry of the union |
| MergingIterator.MergingIterator.FindLargest | Capital Cycle/Pods/leveldb-library/table/merger.cc:163-176 | The child with the largest current key holds the previous entry of the union |
| MergingIterator.WalkForward | Capital Cycle/Pods/leveldb-library/table/merger.cc:31-79 | Walking from the first entry to the end visits the sorted union, each entry once |
| DBIter.DBIter.Next | Capital Cycle/Pods/leveldb-library/db/db_iter.cc:141-166 | One key further in the snapshot view, also across a change of direction |
| DBIter.DBIter.Prev | Capital Cycle/Pods/leveldb-library/db/db_iter.cc:200-225 | One key back in the snapshot view, also across a change of direction |
| DBIter.DBIter.Seek | Capital Cycle/Pods/leveldb-library/db/db_iter.cc:269-281 | At the first key of the view at or after the target: all keys before the position are smaller, all others are not |
| DBIter.DBIter.SeekToFirst | Capital Cycle/Pods/leveldb-library/db/db_iter.cc:283-292 | At the first key of the view |
| DBIter.DBIter.SeekToLast | Capital Cycle/Pods/leveldb-library/db/db_iter.cc:294-299 | At the last key of the view |
| DBIter.DBIter.Current | Capital Cycle/Pods/leveldb-library/db/db_iter.cc:64-71 | Key and value are those of the view at the current position, in both directions |
| DBIter.DBIter.FindNextUserEntry | Capital Cycle/Pods/leveldb-library/db/db_iter.cc:168-198 | It stops at the first entry that the reader sees, hiding deleted and overwritten keys, and skips nothing the reader sees |
| DBIter.DBIter.FindPrevUserEntry | Capital Cycle/Pods/leveldb-library/db/db_iter.cc:227-267 | It stops at the last entry before the start that the reader sees, with the inner iterator in front of that key |
| DBIter.ViewAscends | Capital Cycle/Pods/leveldb-library/db/db_iter.cc:141-299 | The view has each user key at most once, in order |
| DBIter.ViewHoldsNewest | Capital Cycle/Pods/leveldb-library/db/db_iter.cc:168-198 | A key is in the view with a value exactly when its newest visible entry is that value |
| LogWriter.Writer.AddRecord | Capital Cycle/Pods/leveldb-library/db/log_writer.cc:34-80 | The file grows by the fragments of the record, trailer included, as they belong at its current length |
| LogWriter.Writer.EmitPhysicalRecord | Capital Cycle/Pods/leveldb-library/db/log_writer.cc:82-108 | One physical record is appended, which never crosses a block |
| LogWriter.Writer.Resume | Capital Cycle/Pods/leveldb-library/db/log_writer.cc:27-30 | A writer that goes on behind an existing file is in step with its blocks |
| LogWriter.Writer.TryAddRecord | Capital Cycle/Pods/leveldb-library/db/log_writer.cc:34-108 | On a file that takes only so many more bytes, just the first bytes of the record's encoding arrive, success means that all did, and the offset in the block advances either way |
| LogWriter.SamePlace | Capital Cycle/Pods/leveldb-library/db/log_writer.cc:40-56 | The bytes of a record depend on its place in the block only |
| TornLog.LostBehindFailure | Capital Cycle/Pods/leveldb-library/db/log_writer.cc:82-108 | After a failed append of which one byte arrived, the next record is written with success and read by nobody: no record and no report |
| TornLog.ShiftedRecordLost | Capital Cycle/Pods/leveldb-library/db/log_reader.cc:216-236 | A short record one byte out of place is taken for the end of the file, whatever the checksum function |
| LogWriter.WriteLog | Capital Cycle/Pods/leveldb-library/db/log_writer.cc:23-80 | Writing records with one writer, or with a second one that takes over at any record, gives the same file |
| LogWriter.ShortRecord | Capital Cycle/Pods/leveldb-library/db/log_format.h:14-30 | The bytes of a record that fits into the first block: masked checksum, length, type 1, payload |
| LogWriter.LongRecord | Capital Cycle/Pods/leveldb-library/db/log_format.h:14-30 | The bytes of one that does not: a piece of type 2 up to the end of the block and one of type 4 |
| LogWriter.LogAppend | Capital Cycle/Pods/leveldb-library/db/log_writer.cc:34-80 | A log of two lists is the log of the first followed by the log of the second from there on |
| LogReader.CutLogReads | Capital Cycle/Pods/leveldb-library/db/log_reader.cc:56-174 | A log cut off at any byte reads as exactly the records that lie wholly before the cut, with no corruption reported, with or without checksum verification |
| LogReader.LogRoundTrip | Capital Cycle/Pods/leveldb-library/db/log_reader.cc:56-174 | A whole log of records of any sizes, empty ones included, reads as these records |
| LogReader.CompleteIsLast | Capital Cycle/Pods/leveldb-library/db/log_reader.cc:205-234 | The number of records read is the largest whose encoding ends at or before the cut |
| LogReader.RecordRead | Capital Cycle/Pods/leveldb-library/db/log_reader.cc:73-174 | A record at the reader's position is returned whole, or the end of the file is if it was cut |
| LogReader.CutStep | Capital Cycle/Pods/leveldb-library/db/log_reader.cc:216-234 | Where the file ends in a header or a payload the reader sees the end and reports nothing |
| LogReader.WholeStep | Capital Cycle/Pods/leveldb-library/db/log_reader.cc:189-271 | The physical record behind the position, trailer skipped, is returned with its type |
| LogReader.Reader.ReadPhysicalRecord | Capital Cycle/Pods/leveldb-library/db/log_reader.cc:189-271 | On any file the reader returns what the specification of one physical read gives: record, end, or bad record with its report |
| LogReader.Reader.ReadRecord | Capital Cycle/Pods/leveldb-library/db/log_reader.cc:56-174 | On any file the fragments are put together, and errors reported, as the specification says |
| DamagedLog.ReturnedWasWritten | Capital Cycle/Pods/leveldb-library/db/log_reader.cc:236-256 | Whatever the bytes, with checksums verified every record returned stands in the file piece by piece, each piece with its checksum |
| DamagedLog.DamageEnds | Capital Cycle/Pods/leveldb-library/db/log_reader.cc:73-174 | Whatever stands in the blocks before, all records of a log that goes on at a block boundary are read, and read last, unless a record of a type the format does not use ends the reading |
| Coding.Fixed32RoundTrip | Capital Cycle/Pods/leveldb-library/util/coding.cc:9-19 | Every 32-bit number decodes from its little-endian bytes, whatever follows |
| Coding.Fixed32Unique | Capital Cycle/Pods/leveldb-library/util/coding.cc:9-19 | Four bytes are the encoding of the number they decode to |
| Coding.Fixed64RoundTrip | Capital Cycle/Pods/leveldb-library/util/coding.cc:21-35 | Every 64-bit number decodes from its little-endian bytes |
| Coding.Varint32Agrees | Capital Cycle/Pods/leveldb-library/util/coding.cc:47-73 | The five cases of the 32-bit encoder give the same bytes as the general loop |
| Coding.Varint32RoundTrip | Capital Cycle/Pods/leveldb-library/util/coding.cc:112-140 | Every 32-bit number decodes from its varint and leaves the rest |
| Coding.Varint64RoundTrip | Capital Cycle/Pods/leveldb-library/util/coding.cc:142-169 | Every 64-bit number decodes from its varint and leaves the rest |
| Coding.LengthPrefixedRoundTrip | Capital Cycle/Pods/leveldb-library/util/coding.cc:181-190 | A string decodes from its length-prefixed form and leaves the rest |
| Coding.MaskRoundTrip | Capital Cycle/Pods/leveldb-library/util/crc32c.h:29-38 | Unmask undoes Mask on every 32-bit checksum |
| Coding.UnmaskRoundTrip | Capital Cycle/Pods/leveldb-library/util/crc32c.h:29-38 | Mask undoes Unmask, so no two checksums are masked alike |
| Coding.MaskExample | Capital Cycle/Pods/leveldb-library/util/crc32c.h:22-32 | The mask of three checksums |
| WriteBatch.ContentsRoundTrip | Capital Cycle/Pods/leveldb-library/db/write_batch.cc:42-78 | A batch reads back with its sequence number, its count and all its updates in order |
| WriteBatch.BatchExample | Capital Cycle/Pods/leveldb-library/db/write_batch.cc:5-15 | A batch byte by byte |
| WriteBatch.WriteBatch.Put | Capital Cycle/Pods/leveldb-library/db/write_batch.cc:98-103 | One put more, count and bytes in step |
| WriteBatch.WriteBatch.Delete | Capital Cycle/Pods/leveldb-library/db/write_batch.cc:105-109 | One delete more, count and bytes in step |
| WriteBatch.WriteBatch.Append | Capital Cycle/Pods/leveldb-library/db/write_batch.cc:143-148 | The updates of the other batch follow, and the counts add up |
| WriteBatch.WriteBatch.SetSequence | Capital Cycle/Pods/leveldb-library/db/write_batch.cc:94-96 | Only the number in the header changes, and the bytes stay those of the batch |
| WriteBatch.Iterate | Capital Cycle/Pods/leveldb-library/db/write_batch.cc:42-78 | The handler gets the updates up to the first malformed one, and the status is good exactly when the input is well-formed and their number is the stored count |
| WriteBatch.UnknownType | Capital Cycle/Pods/leveldb-library/db/write_batch.cc:49-72 | An update of an unknown type ends the batch as malformed |
| Recovery.RecoverLogFile | Capital Cycle/Pods/leveldb-library/db/db_impl.cc:371-489 | After a crash that cut the log at any byte the store holds exactly the updates of the batches that were complete in it, under their own numbers, whether or not tables were written on the way; the last sequence number is the larger of the manifest's counter, which may be ahead of the log, and the last one recovered; full memtables are written to tables, and the last one too unless its log is reused and nothing was written before |
| Recovery.RecoverRecord | Capital Cycle/Pods/leveldb-library/db/db_impl.cc:418-443 | One record adds exactly its batch to the history, behind the numbers that failed writes left unused |
| Recovery.RecoveredBatch | Capital Cycle/Pods/leveldb-library/db/db_impl.cc:433-443 | A batch behind a gap in the numbers keeps the invariant and enters the memtable under its own numbers |
| DurableRuns.DStepExact | Capital Cycle/Pods/leveldb-library/db/db_impl.cc:1204-1236 | For each step, failed appends and syncs of the log among them, store, logs and tables stay right if and only if a compaction brings nothing back in the tables alone |
| DurableRuns.FileInDoubt | Capital Cycle/Pods/leveldb-library/db/db_impl.cc:1214-1232 | After a failed append or sync the log says the same of the history, and holds the failed batch in doubt behind all that was acknowledged |
| DurableRuns.RunIsDurable | Capital Cycle/Pods/leveldb-library/db/db_impl.cc:1337-1366 | At every point of a run guarded in this way the tables hold the history up to the last flush, and a log that was not written on behind a failed append holds its part of the rest by its acknowledged batches, each write once and in order |
| DurableRuns.CleanSince | Capital Cycle/Pods/leveldb-library/db/db_impl.cc:1219-1232 | As long as no write fails, a log stays clean from the moment it is begun, and so does the older one that it becomes; nothing is in doubt then and nothing torn |
| DurableRuns.CompactionExactOnDisk | Capital Cycle/Pods/leveldb-library/db/db_impl.cc:929-967 | A compaction keeps the tables readable by themselves exactly when it drops no tombstone over a value that stays behind in them |
| DurableRuns.DiskGuardIsStronger | Capital Cycle/Pods/leveldb-library/db/db_impl.cc:929-967 | A compaction that brings a key back for readers brings it back in the tables alone; the guard that survives a crash is the stronger one |
| CrashRecovery.AttemptedWrites | Capital Cycle/Pods/leveldb-library/db/db_impl.cc:1226-1236 | The history with the writes in doubt as if they had gone through has every acknowledged write under its number, and is the history itself when no write is in doubt |
| CrashRecovery.SurvivorsExact | Capital Cycle/Pods/leveldb-library/db/db_impl.cc:345-362 | When the logs are cut, what survives is a prefix of the numbered writes if and only if the older log lost no update or the newer one kept none |
| CrashRecovery.EveryCrashExact | Capital Cycle/Pods/leveldb-library/db/db_impl.cc:1348-1361 | Before any crash: every crash of the machine leaves a prefix of the writes if and only if the log of the immutable memtable has no update behind its last sync, or the newest log has no update |
| CrashRecovery.OlderLogLost | Capital Cycle/Pods/leveldb-library/db/db_impl.cc:1348-1361 | A run of two writes around a memtable switch, the second one synced, and a crash after which the second is there without the first; no prefix of the writes reads like that |
| CrashRecovery.SyncedSurvives | Capital Cycle/Pods/leveldb-library/include/leveldb/options.h:168-181 | No crash takes away a write in a table or one that the log's record of syncs covers; what a write with sync set does to that record is SyncedRuns.SyncedWriteSurvives |
| SyncedRuns.SyncedWriteSurvives | Capital Cycle/Pods/leveldb-library/include/leveldb/options.h:168-181 | Over whole runs: after a write with sync set to a log in good order, at every later point without a damaged live log and after every crash there, the updates of the write and all that went to the same log before it are there under their numbers |
| SyncedRuns.NothingAfterFailedSync | Capital Cycle/Pods/leveldb-library/db/db_impl.cc:1226-1232 | After a failed sync nothing is written for the rest of the run, and no number is used up |
| SyncedRuns.FailedWriteMayReturn | Capital Cycle/Pods/leveldb-library/db/db_impl.cc:1226-1236 | After a failed append or sync there is a crash after which the write is there, and one after which it is not |
| CrashRecovery.WholeFilesKeepAll | Capital Cycle/Pods/leveldb-library/include/leveldb/options.h:174-176 | When only the process goes down, all writes are there afterwards |
| CrashRecovery.SameWritesReadSame | Capital Cycle/Pods/leveldb-library/db/db_impl.cc:1100-1145 | Histories with the same writes under the same numbers, whatever unused numbers stand at their ends, read the same |
| CrashRecovery.CutReads | Capital Cycle/Pods/leveldb-library/db/db_impl.cc:1100-1145 | A history that is a cut of another one reads as the replay of a prefix of it |
| CrashRecovery.Recover | Capital Cycle/Pods/leveldb-library/db/db_impl.cc:280-369 | With both logs cut at any byte behind their last syncs, every read of the recovered store is the replay of the surviving writes, the synced ones among them, which are a prefix of all writes exactly when the older log lost no update or the newer one kept none; with all of it in tables, the store can run on |
| CrashRecovery.OpenAfterCrash | Capital Cycle/Pods/leveldb-library/db/db_impl.cc:280-369 | The same from the bytes on disk at every point that the running store and its manifest reach together: a manifest with its last record torn, and both logs cut |
| ManifestLink.Install | Capital Cycle/Pods/leveldb-library/db/version_set.cc:801-884 | A flush, a move or a compaction installed through LogAndApply is that step of the state machine, keeps store, logs and tables right exactly when it is guarded, and leaves set of versions, manifest and store linked |
| ManifestLink.Advance | Capital Cycle/Pods/leveldb-library/db/db_impl.cc:1236-1236 | Every other step moves the counters only, and the link stays |
| ManifestLink.Begin | Capital Cycle/Pods/leveldb-library/db/db_impl.cc:1498-1502 | The first edit after opening, with the tables written from the logs or without any, links the store with a manifest that begins as a snapshot |
| ManifestLink.StepAddsFresh | Capital Cycle/Pods/leveldb-library/db/version_set.cc:672-693 | What a step adds to a level was never in that level before: files only move down and numbers are given out once |
| WriteQueue.BuildBatchGroup | Capital Cycle/Pods/leveldb-library/db/db_impl.cc:1258-1306 | The group is the longest front of the queue in which every writer may join, and its batch is their batches in order |
| WriteQueue.GroupIsUnique | Capital Cycle/Pods/leveldb-library/db/db_impl.cc:1258-1306 | There is only one such group |
| WriteQueue.GroupIsBounded | Capital Cycle/Pods/leveldb-library/db/db_impl.cc:1265-1303 | A group that takes in other batches stays within 1 MB, one with a small leader grows by 128 KB at most, and no sync writer joins a leader without sync |
| WriteQueue.StepKeepsInv | Capital Cycle/Pods/leveldb-library/db/db_impl.cc:1185-1256 | Every interleaved step of arriving writers, the leader, the log and the memtable keeps the protocol's invariant |
| WriteQueue.FirstInFirstOut | Capital Cycle/Pods/leveldb-library/db/db_impl.cc:1239-1248 | At every point of every run those who left, followed by those who wait, are the arrivals in order, each once |
| WriteQueue.WriterIsServed | Capital Cycle/Pods/leveldb-library/db/db_impl.cc:1185-1256 | A writer that arrived is in just the place of its arrival, among those who left or among those who wait |
| WriteQueue.OkIsStored | Capital Cycle/Pods/leveldb-library/db/db_impl.cc:1219-1236 | Each update of a writer that was told of success is stored under its number, which is visible |
| WriteQueue.FailedIsNotStored | Capital Cycle/Pods/leveldb-library/db/db_impl.cc:1219-1236 | Nothing is stored under the numbers of a group that failed |
| WriteQueue.AcknowledgedIsLogged | Capital Cycle/Pods/leveldb-library/db/db_impl.cc:1213-1223 | Before a group enters the memtable its log step was taken, and only arrivals and insertions come between that and its end |
| WriteQueue.SequenceBlocks | Capital Cycle/Pods/leveldb-library/db/db_impl.cc:1207-1236 | Each group's sequence numbers start directly behind the group before, also when a log write failed and its numbers went unused |
| WriteQueue.GapFree | Capital Cycle/Pods/leveldb-library/db/db_impl.cc:1207-1236 | The numbers of two groups are adjacent if and only if no group between them had operations; otherwise they are further apart |
| WriteQueue.FailedGroupLeavesGap | Capital Cycle/Pods/leveldb-library/db/db_impl.cc:1219-1236 | A run in which a group with operations fails and the next one succeeds: the number of the failed one belongs to nothing |
| WriteQueue.SyncIsSynced | Capital Cycle/Pods/leveldb-library/db/db_impl.cc:1282-1285 | A sync writer is never served by a leader that does not sync |
| WriteQueue.VisibleIsWholeGroups | Capital Cycle/Pods/leveldb-library/db/db_impl.cc:1219-1236 | At any moment what is visible at the last sequence number is whole successful groups, also while one is being inserted |
| WriteQueue.ReadsSeeWholeGroups | Capital Cycle/Pods/leveldb-library/db/db_impl.cc:1219-1236 | At every point of every run a read at the last sequence number gives what replaying the successful groups gives |
| WriteQueue.LeaderCanStep | Capital Cycle/Pods/leveldb-library/db/db_impl.cc:1193-1256 | While a writer waits, the leader always has a step of its own to take |
| SnapshotList.SnapshotList.New | Capital Cycle/Pods/leveldb-library/db/snapshot.h:56-70 | The ring stays linked both ways and ordered, with the new snapshot at its end |
| SnapshotList.SnapshotList.Delete | Capital Cycle/Pods/leveldb-library/db/snapshot.h:72-86 | Exactly the given snapshot leaves the ring, which stays linked and ordered |
| SnapshotList.SnapshotList.Oldest | Capital Cycle/Pods/leveldb-library/db/snapshot.h:47-50 | The snapshot with the smallest sequence number |
| SnapshotList.SmallestSnapshot | Capital Cycle/Pods/leveldb-library/db/db_impl.cc:890-894 | The oldest snapshot's number, or the last sequence number when there is none; no snapshot has a smaller one |
| SkipList.SkipList.FindGreaterOrEqual | Capital Cycle/Pods/leveldb-library/db/skiplist.h:260-281 | The first node at or after the key, and on every level in use the last node before it |
| SkipList.SkipList.FindLessThan | Capital Cycle/Pods/leveldb-library/db/skiplist.h:283-302 | The last node before the key, or the head |
| SkipList.SkipList.FindLast | Capital Cycle/Pods/leveldb-library/db/skiplist.h:304-322 | The last node, or the head of an empty list |
| SkipList.SkipList.Insert | Capital Cycle/Pods/leveldb-library/db/skiplist.h:336-368 | The key is in its place on every level below the height, other levels are unchanged, and each level stays a part of the one below |
| SkipList.SkipList.Contains | Capital Cycle/Pods/leveldb-library/db/skiplist.h:370-378 | Whether the key is in the list |
| SkipList.Iterator.Seek | Capital Cycle/Pods/leveldb-library/db/skiplist.h:223-226 | At the first key at or after the target |
| SkipList.Iterator.Next | Capital Cycle/Pods/leveldb-library/db/skiplist.h:206-210 | From one key to the next, or to the end |
| SkipList.Iterator.Prev | Capital Cycle/Pods/leveldb-library/db/skiplist.h:212-221 | From one key to the one before, or to the end |
| SkipList.Iterator.SeekToFirst | Capital Cycle/Pods/leveldb-library/db/skiplist.h:228-231 | At the first key |
| SkipList.Iterator.SeekToLast | Capital Cycle/Pods/leveldb-library/db/skiplist.h:233-239 | At the last key |
| SkipList.PublishLinks | Capital Cycle/Pods/leveldb-library/db/skiplist.h:362-367 | Setting one predecessor's link to a prepared node makes that level the list with the key in its place |
| SkipListReaders.StepKeepsInv | Capital Cycle/Pods/leveldb-library/db/skiplist.h:336-368 | Every single load or store of the writer or of any reader keeps all levels sorted, each a part of the one below, and every search consistent; what the steps achieve is InsertionInserts and SearchEnds |
| SkipListReaders.LevelsAreSublists | Capital Cycle/Pods/leveldb-library/db/skiplist.h:16-28 | At every point of every interleaving each level is one sorted list and a part of the level below |
| SkipListReaders.KeysStay | Capital Cycle/Pods/leveldb-library/db/skiplist.h:16-28 | A key once in a level stays in it |
| SkipListReaders.InsertionInserts | Capital Cycle/Pods/leveldb-library/db/skiplist.h:336-368 | From the begin of an insertion to its end each level below the height gains just the key, in its place, and the others stay as they are, whatever readers do |
| SkipListReaders.InsertedForGood | Capital Cycle/Pods/leveldb-library/db/skiplist.h:336-368 | Ever after the key is in just these levels |
| SkipListReaders.InsertedIsFound | Capital Cycle/Pods/leveldb-library/db/skiplist.h:260-281 | A search for the key that starts after its insertion finds it |
| SkipListReaders.TurnProgresses | Capital Cycle/Pods/leveldb-library/db/skiplist.h:260-322 | Each load of a search takes it on along its level or down |
| SkipListReaders.SearchEnds | Capital Cycle/Pods/leveldb-library/db/skiplist.h:260-322 | A search that is given enough turns ends |
| SkipListReaders.WriterCanStep | Capital Cycle/Pods/leveldb-library/db/skiplist.h:336-368 | An insertion under way always has a next step, which brings it nearer to its end |
| SkipListReaders.SearchMissesNothing | Capital Cycle/Pods/leveldb-library/db/skiplist.h:260-322 | A finished search, for the first key from a target on, for the last one before it or for the last of all, found a key on the side it looks for, and no key present when it began is nearer |
| SkipListReaders.SearchIsAtomic | Capital Cycle/Pods/leveldb-library/db/skiplist.h:260-322 | Each of the three searches returns what a search of the list as it is at its last load would, whatever was inserted meanwhile |
| HandleTable.HandleTable.FindPointer | Capital Cycle/Pods/leveldb-library/util/cache.cc:114-120 | The slot of the key in its bucket, or the trailing one |
| HandleTable.HandleTable.Lookup | Capital Cycle/Pods/leveldb-library/util/cache.cc:74-76 | The handle stored under the key, or none |
| HandleTable.HandleTable.Insert | Capital Cycle/Pods/leveldb-library/util/cache.cc:78-92 | The map gains the handle, the one it replaces is returned, and there are never more handles than buckets between calls |
| HandleTable.HandleTable.Remove | Capital Cycle/Pods/leveldb-library/util/cache.cc:94-102 | The map loses the key, and its handle is returned |
| HandleTable.HandleTable.Resize | Capital Cycle/Pods/leveldb-library/util/cache.cc:122-146 | Moving all handles to a new array keeps the map, and the number moved is the number stored |
| HandleTable.NewLength | Capital Cycle/Pods/leveldb-library/util/cache.cc:123-126 | The least power of two from 4 on that is at least the number of entries |
| LRUCache.LRUCache.Insert | Capital Cycle/Pods/leveldb-library/util/cache.cc:266-303 | The state afterwards is the specified one, and the usage is within the capacity or no unused entry is left |
| LRUCache.LRUCache.SetCapacity | Capital Cycle/Pods/leveldb-library/util/cache.cc:155-156 | Only the capacity changes, and nothing is evicted by it |
| LRUCache.InsertedEntries | Capital Cycle/Pods/leveldb-library/util/cache.cc:266-303 | The new entry replaces the one under its key, and only the oldest unused entries are evicted, as few as make it fit; capacity 0 turns caching off |
| LRUCache.EvictedOldest | Capital Cycle/Pods/leveldb-library/util/cache.cc:293-300 | Eviction gives up unused entries from the front of their list, no more than needed, and leaves entries in use alone; the front is the one released first (LRUOrder.UnusedInOrder) |
| LRUCache.ErasedOldest | Capital Cycle/Pods/leveldb-library/util/cache.cc:293-300 | Erasing the oldest unused entry takes it out of table and list, lowers the usage by its charge and runs its deleter |
| LRUCache.LRUCache.Lookup | Capital Cycle/Pods/leveldb-library/util/cache.cc:252-259 | The entry under the key with one more reference, or nothing |
| LRUCache.LRUCache.Release | Capital Cycle/Pods/leveldb-library/util/cache.cc:261-264 | The handle's reference goes; the entry becomes the newest unused one, as LRUOrder.UnusedInOrder shows, or is freed if it has left the cache |
| LRUOrder.UnusedInOrder | Capital Cycle/Pods/leveldb-library/util/cache.cc:225-250 | Over whole histories of lookups, releases, insertions, erasures and prunes: of two unused entries the one in front was released earlier, and neither was used since |
| LRUOrder.EvictedWasReleasedEarlier | Capital Cycle/Pods/leveldb-library/util/cache.cc:293-300 | What an insertion evicts was released earlier than every unused entry that stays |
| LRUOrder.AnswersLastInsert | Capital Cycle/Pods/leveldb-library/util/cache.cc:252-303 | What a lookup finds is the value of the last insertion under its key, with no erasure since |
| LRUOrder.HeldIsFound | Capital Cycle/Pods/leveldb-library/util/cache.cc:266-303 | An inserted entry that a client holds all the time is found until its key is inserted again or erased |
| LRUOrder.InsertStores | Capital Cycle/Pods/leveldb-library/util/cache.cc:266-303 | The new entry has its key, value and charge, takes over its key if caching is on, and no other key changes but by eviction of what no client holds |
| LRUCache.LRUCache.Erase | Capital Cycle/Pods/leveldb-library/util/cache.cc:318-321 | The key leaves the cache; the entry lives on while clients hold it |
| LRUCache.LRUCache.Prune | Capital Cycle/Pods/leveldb-library/util/cache.cc:323-333 | All unused entries leave |
| LRUCache.LRUCache.Destroy | Capital Cycle/Pods/leveldb-library/util/cache.cc:205-215 | When no client holds a handle, every deleter has run exactly once afterwards |
| LRUCache.LRUCache.FinishErase | Capital Cycle/Pods/leveldb-library/util/cache.cc:307-316 | An entry that left the table leaves its list and loses the cache's reference |
| LRUCache.ReferredSound | Capital Cycle/Pods/leveldb-library/util/cache.cc:217-223 | Ref keeps the invariant: counts, the right list for each entry, table, usage |
| LRUCache.DroppedSound | Capital Cycle/Pods/leveldb-library/util/cache.cc:225-237 | Unref keeps the invariant, and deletes at zero references only |
| LRUCache.AddedSound | Capital Cycle/Pods/leveldb-library/util/cache.cc:272-292 | The new handle keeps the invariant up to the entry that it pushes out of the table |
| LRUCache.UncachedSound | Capital Cycle/Pods/leveldb-library/util/cache.cc:307-316 | Leaving the cache keeps counts, lists and usage right up to the reference still to be dropped |
| LRUCache.HeldIsAlive | Capital Cycle/Pods/leveldb-library/util/cache.cc:23-38 | An entry that a client holds is neither deleted nor on the list of unused entries |
| LRUCache.DestroyDeletesOnce | Capital Cycle/Pods/leveldb-library/util/cache.cc:205-215 | Without clients, deleted and unused entries together are all handles ever made, each once |
| BlockBuilder.BlockBuilder.Add | Capital Cycle/Pods/leveldb-library/table/block_builder.cc:72-106 | The block gains the entry, with its key compressed against all that it shares with the key before, except at every interval-th entry, which is listed as a restart point |
| BlockBuilder.SharesAll | Capital Cycle/Pods/leveldb-library/table/block_builder.cc:79-86 | Between restart points a key leaves out all that it shares with the one before |
| BlockBuilder.BlockBuilder.Finish | Capital Cycle/Pods/leveldb-library/table/block_builder.cc:62-70 | The bytes are the entries, the restart offsets and their number |
| BlockBuilder.RecordExample | Capital Cycle/Pods/leveldb-library/table/block_builder.cc:91-98 | An entry byte by byte |
| BlockBuilder.AddedRestarts | Capital Cycle/Pods/leveldb-library/table/block_builder.cc:79-89 | Restart points are the offsets of every interval-th entry |
| BlockBuilder.BlockBuilder.EstimateFits | Capital Cycle/Pods/leveldb-library/table/block_builder.cc:56-60 | The size estimate is the size of the finished block |
| Block.DecodeRecord | Capital Cycle/Pods/leveldb-library/table/block.cc:54-74 | An entry's lengths and bytes decode as they were written, whatever follows |
| Block.FastPathAgrees | Capital Cycle/Pods/leveldb-library/table/block.cc:61-68 | The fast path for short lengths decodes what the general path does |
| Block.OpenedBlock | Capital Cycle/Pods/leveldb-library/table/block.cc:24-39 | The restart array of a finished block is found where it was written |
| Block.EntryAt | Capital Cycle/Pods/leveldb-library/table/block.cc:224-251 | Each entry is decoded at its offset, and its value ends where the next one starts |
| Block.Iter.ParseNextKey | Capital Cycle/Pods/leveldb-library/table/block.cc:224-251 | The next entry with its full key, or the end |
| Block.Iter.Next | Capital Cycle/Pods/leveldb-library/table/block.cc:137-140 | One entry further |
| Block.Iter.Prev | Capital Cycle/Pods/leveldb-library/table/block.cc:142-161 | One entry back, through the last restart point before it |
| Block.Iter.Seek | Capital Cycle/Pods/leveldb-library/table/block.cc:163-201 | At the first entry at or after the target, or at the end, for keys in order |
| Block.Iter.SeekToFirst | Capital Cycle/Pods/leveldb-library/table/block.cc:203-206 | At the first entry |
| Block.Iter.SeekToLast | Capital Cycle/Pods/leveldb-library/table/block.cc:208-213 | At the last entry |
| Block.Iter.Current | Capital Cycle/Pods/leveldb-library/table/block.cc:126-135 | Valid exactly at an entry, with its key and value as they were added |
| Block.NewIterator | Capital Cycle/Pods/leveldb-library/table/block.cc:254-264 | Any built block opens as a cursor over its entries |
| Bloom.CreateFilter | Capital Cycle/Pods/leveldb-library/util/bloom.cc:28-54 | The filter has the requested number of bits per key, 64 at least and rounded up to bytes, says how many probes it was made with, and has a bit set exactly when some key probes it, for any hash function, any keys and any number of probes from 1 to 30 |
| Bloom.DeltaTurns | Capital Cycle/Pods/leveldb-library/util/bloom.cc:48 | The step between probes is the hash turned right by 17 bits |
| Bloom.ProbesAreEven | Capital Cycle/Pods/leveldb-library/util/bloom.cc:49-53 | Probe j is the hash and j such steps, modulo 2^32 |
| Bloom.KeyMayMatch | Capital Cycle/Pods/leveldb-library/util/bloom.cc:56-80 | The answer is whether all probed bits are set, with the special cases for short filters and reserved encodings |
| Bloom.NoFalseNegative | Capital Cycle/Pods/leveldb-library/util/bloom.cc:28-80 | A key that the filter was made for is never ruled out |
| Bloom.MatchesExactly | Capital Cycle/Pods/leveldb-library/util/bloom.cc:56-80 | A key is let through exactly when each of its probes is one of some key of the filter |
| FilterBlock.FilterBlockBuilder.StartBlock | Capital Cycle/Pods/leveldb-library/table/filter_block.cc:21-27 | Pending keys go to the filter of their 2 KB range, and empty filters fill the ranges skipped |
| FilterBlock.FilterBlockBuilder.AddKey | Capital Cycle/Pods/leveldb-library/table/filter_block.cc:29-33 | The key is recorded for the current block's offset |
| FilterBlock.FilterBlockBuilder.GenerateFilter | Capital Cycle/Pods/leveldb-library/table/filter_block.cc:51-75 | The pending keys, taken apart again, become one filter |
| FilterBlock.FilterBlockBuilder.Finish | Capital Cycle/Pods/leveldb-library/table/filter_block.cc:35-49 | The block holds the filters of all groups, and every key added is in the group of its block's offset |
| FilterBlock.BuiltAnswers | Capital Cycle/Pods/leveldb-library/table/filter_block.cc:77-104 | A reader of a built filter block answers as a filter of the group at the offset does, never no to one of its keys, no for an empty group, and yes beyond the last one |
| FilterBlock.FilterBlockReader.KeyMayMatch | Capital Cycle/Pods/leveldb-library/table/filter_block.cc:90-104 | On any bytes the answer is the specified one, with anything out of order counted as a match |
| Comparator.FindShortestSeparator | Capital Cycle/Pods/leveldb-library/util/comparator.cc:29-50 | The result is the start unchanged, or a string no longer than it, above it and below the limit |
| Comparator.FindShortSuccessor | Capital Cycle/Pods/leveldb-library/util/comparator.cc:52-64 | A string not below the key and no longer, unchanged exactly when all bytes are 0xff |
| Comparator.FirstDifference | Capital Cycle/Pods/leveldb-library/util/comparator.cc:25-27 | The bytewise order is decided at the first difference |
| Comparator.BytesTotal | Capital Cycle/Pods/leveldb-library/util/comparator.cc:25-27 | Of two strings exactly one is smaller, or they are equal |
| Comparator.BytesTransitive | Capital Cycle/Pods/leveldb-library/util/comparator.cc:25-27 | The bytewise order is transitive |
| Comparator.ByteRankIsOrder | Capital Cycle/Pods/leveldb-library/util/comparator.cc:25-27 | The bytewise order is that of real numbers with the bytes as digits |
| Comparator.SeparatorExact | Capital Cycle/Pods/leveldb-library/db/dbformat.cc:69-86 | Shortened internal keys stay below their limits, for all keys, if and only if every result of the user comparator that is taken up, being shorter and larger than a start not above the limit, is below the limit |
| Comparator.WhenDocumentedLawSuffices | Capital Cycle/Pods/leveldb-library/include/leveldb/comparator.h:45-49 | For a separator that keeps the documented promise, shortened internal keys stay below their limits if and only if nothing is taken up for equal keys |
| Comparator.BytewiseStaysBelow | Capital Cycle/Pods/leveldb-library/util/comparator.cc:29-50 | The bytewise comparator keeps the documented promise and what is needed beyond it |
| Comparator.SeparatorShortest | Capital Cycle/Pods/leveldb-library/util/comparator.cc:29-50 | The start is shortened exactly when both keys go on behind their first difference and the byte there can be raised below the limit's; the result ends with that byte, and no string between the two is shorter |
| Comparator.FindInternalSeparator | Capital Cycle/Pods/leveldb-library/db/dbformat.cc:69-86 | The result is the start, or a shorter key above it with the largest tag, as InternalSeparator says, of which SeparatorExact gives the law |
| Comparator.FindInternalSuccessor | Capital Cycle/Pods/leveldb-library/db/dbformat.cc:88-101 | A key not below the given one |
| Comparator.DocumentedLawIsTooWeak | Capital Cycle/Pods/leveldb-library/include/leveldb/comparator.h:45-49 | The documented promise of a separator is not enough: for two entries of one user key a comparator may keep it and still push the shortened key past the limit |
| Comparator.GapNeedsLargestTag | Capital Cycle/Pods/leveldb-library/table/table.cc:216-244 | A lookup key between the last key of a block and its index key, with an entry of its user key behind, has the largest possible tag |
| TableFormat.HandleRoundTrip | Capital Cycle/Pods/leveldb-library/table/format.cc:15-29 | A block handle decodes from its encoding and leaves the rest |
| TableFormat.FooterRoundTrip | Capital Cycle/Pods/leveldb-library/table/format.cc:31-62 | A footer decodes from its 48 bytes |
| TableFormat.FooterChecked | Capital Cycle/Pods/leveldb-library/table/format.cc:42-50 | What is accepted as a footer ends with the magic number |
| TableFormat.MagicNumber | Capital Cycle/Pods/leveldb-library/table/format.h:74-77 | The last eight bytes of every table file |
| TableFormat.BlockRoundTrip | Capital Cycle/Pods/leveldb-library/table/format.cc:64-139 | An uncompressed block is read back from where its handle says, with and without checksum verification |
| TableFormat.VerifiedBlock | Capital Cycle/Pods/leveldb-library/table/format.cc:85-96 | With verification on, a block is returned if and only if its contents, type and matching checksum stand where the handle says |
| TwoLevelIterator.FirstInBlocks | Capital Cycle/Pods/leveldb-library/table/two_level_iterator.cc:82-87 | With separating index keys the first entry at or after a target is in the block that the index names, or directly behind it |
| TwoLevelIterator.TwoLevelIterator.InitDataBlock | Capital Cycle/Pods/leveldb-library/table/two_level_iterator.cc:146-161 | The data iterator is over the block of the current index entry, opened anew or kept when the handle is the same |
| TwoLevelIterator.TwoLevelIterator.SkipEmptyDataBlocksForward | Capital Cycle/Pods/leveldb-library/table/two_level_iterator.cc:115-126 | Passing over empty blocks keeps the position among all entries |
| TwoLevelIterator.TwoLevelIterator.SkipEmptyDataBlocksBackward | Capital Cycle/Pods/leveldb-library/table/two_level_iterator.cc:128-139 | Passing back over empty blocks reaches the entry before, or the end |
| TwoLevelIterator.TwoLevelIterator.Seek | Capital Cycle/Pods/leveldb-library/table/two_level_iterator.cc:82-87 | At the first of all entries at or after the target |
| TwoLevelIterator.TwoLevelIterator.SeekToFirst | Capital Cycle/Pods/leveldb-library/table/two_level_iterator.cc:89-94 | At the first of all entries |
| TwoLevelIterator.TwoLevelIterator.SeekToLast | Capital Cycle/Pods/leveldb-library/table/two_level_iterator.cc:96-101 | At the last of all entries |
| TwoLevelIterator.TwoLevelIterator.Next | Capital Cycle/Pods/leveldb-library/table/two_level_iterator.cc:103-107 | One entry further over all blocks |
| TwoLevelIterator.TwoLevelIterator.Prev | Capital Cycle/Pods/leveldb-library/table/two_level_iterator.cc:109-113 | One entry back over all blocks |
| TwoLevelIterator.TwoLevelIterator.Current | Capital Cycle/Pods/leveldb-library/table/two_level_iterator.cc:31-39 | The entry at the position among all entries |
| TableOrder.AddIndexEntry | Capital Cycle/Pods/leveldb-library/table/table_builder.cc:102-109 | A held back index entry with any key from the block's last key on, below the next key, separates the blocks |
| TableOrder.OrderedSeparates | Capital Cycle/Pods/leveldb-library/table/table_builder.cc:50-59 | A finished table's index is in order and separates its blocks |
| TableBuilder.TableBuilder.Add | Capital Cycle/Pods/leveldb-library/table/table_builder.cc:94-123 | The table gains the entry; the index entry of the block before is written with a key that separates it from this one; the block ends exactly when it has reached the block size |
| TableBuilder.TableBuilder.Flush | Capital Cycle/Pods/leveldb-library/table/table_builder.cc:125-139 | The block being filled stands in the file as one block more, its handle has its size, its index entry is held back, and no entry is lost |
| TableBuilder.TableBuilder.WriteRawBlock | Capital Cycle/Pods/leveldb-library/table/table_builder.cc:177-194 | The block and its trailer stand at the offset that the handle names |
| TableBuilder.TableBuilder.Finish | Capital Cycle/Pods/leveldb-library/table/table_builder.cc:198-253 | The file is a table of exactly the entries added: footer, index, metaindex, data blocks and filter all stand where their handles say, and every index key is the separator of its block's last key and the next key, or the successor of the very last key |
| Table.Open | Capital Cycle/Pods/leveldb-library/table/table.cc:38-134 | A built table opens, with its filter exactly when the metaindex lists one under the policy's name |
| Table.Table.NewIterator | Capital Cycle/Pods/leveldb-library/table/table.cc:210-214 | The iterator is a cursor over all entries of the table |
| Table.Table.InternalGet | Capital Cycle/Pods/leveldb-library/table/table.cc:216-244 | The result is the first entry at or after the key exactly if the key is not behind the last key of the block that the index names and the filter, if one is used, admits it; otherwise nothing |
| Table.FilterIsRight | Capital Cycle/Pods/leveldb-library/table/table.cc:226-231 | The filter rules a block out only if no entry in it is like the key |
| Table.PresentIsFound | Capital Cycle/Pods/leveldb-library/table/table.cc:216-244 | A key that is in the table is found, whatever the filter |
| Table.IndexLeads | Capital Cycle/Pods/leveldb-library/table/table.cc:153-208 | Every index value leads to its own block, which can be read |
| TableLookups.ShortensExactly | Capital Cycle/Pods/leveldb-library/db/dbformat.cc:69-101 | The internal key comparator meets what a table needs of shortened keys if and only if the user comparator's results that are taken up stay below their limits |
| TableLookups.BytewiseShortens | Capital Cycle/Pods/leveldb-library/util/comparator.cc:29-64 | With the bytewise comparator nothing is left to assume: its internal keys are ordered by a ranking, and its shortened keys meet what a table needs |
| TableLookups.GapIsHarmless | Capital Cycle/Pods/leveldb-library/table/table.cc:216-244 | The entry behind the gap between a block's last key and its index key is not one of the user key looked up, for every sequence number that a snapshot can have |
| TableLookups.LookupIsRead | Capital Cycle/Pods/leveldb-library/db/version_set.cc:263-280 | In a built table, with or without a filter, the looked up entry, if it has the user key, is exactly what a read of the sorted run of all entries gives, for every sequence number below the largest |
| TableLookups.EntryStands | Capital Cycle/Pods/leveldb-library/db/dbformat.cc:14-23 | A user key followed by its packed number and type stands for its entry |
| TableLookups.Get | Capital Cycle/Pods/leveldb-library/db/table_cache.cc:100-113 | A lookup through index, filter and block with the comparison of user keys is the read of the table's entries |
| PbVarint.EncodeVarint | Capital Cycle/Pods/nanopb/pb_encode.c:608-628 | The buffer of ten bytes is enough for every 64-bit number and ends up holding its varint |
| PbVarint.Decode64 | Capital Cycle/Pods/nanopb/pb_decode.c:255-275 | The loop in 64-bit arithmetic decodes what the specification says, and fails beyond ten bytes |
| PbVarint.DecodeVarint32 | Capital Cycle/Pods/nanopb/pb_decode.c:187-247 | The loop with its overflow and sign-extension checks and its bit position of 8 bits is the 32-bit decoder of which Decode32Agrees speaks |
| PbVarint.Decode32Exact | Capital Cycle/Pods/nanopb/pb_decode.c:187-247 | On inputs of any length the 32-bit decoder succeeds exactly if the input ends, has only padding at positions beyond 32 bits, and no higher bits in a last byte that straddles them |
| PbVarint.Decode32Agrees | Capital Cycle/Pods/nanopb/pb_decode.c:187-247 | On every input: the two decoders agree on an encoding of up to ten bytes if and only if the number has at most 32 bits, and on any other input if and only if the 32-bit one does not accept it either |
| PbVarint.LongPadding | Capital Cycle/Pods/nanopb/pb_decode.c:227-234 | An input of eleven bytes that only the 32-bit decoder accepts |
| PbVarint.UnreportedOverflow | Capital Cycle/Pods/nanopb/pb_decode.c:219-240 | An encoding of a larger number is cut to 32 bits without an error when padding follows the fifth byte |
| PbVarint.Decode32RoundTrip | Capital Cycle/Pods/nanopb/pb_decode.c:187-247 | The 32-bit decoder reads back every 32-bit number and leaves the rest |
| PbVarint.ZigZagRoundTrip | Capital Cycle/Pods/nanopb/pb_decode.c:1285-1297 | Every signed 64-bit number survives zigzag coding |
| PbVarint.UnZigZagRoundTrip | Capital Cycle/Pods/nanopb/pb_encode.c:630-639 | Every 64-bit code is the zigzag code of a number |
| PbVarint.ZigZagAgrees | Capital Cycle/Pods/nanopb/pb_encode.c:630-639 | The shifts and complements in 64-bit arithmetic compute the zigzag code |
| PbMessage.PutMessage | Capital Cycle/Pods/nanopb/pb_encode.c:528-550 | Encoding succeeds exactly when all sizes are within the descriptor's and the stream has room, and then writes, or counts, the message's encoding |
| PbMessage.VarintExample | Capital Cycle/Pods/nanopb/pb_encode.c:608-637 | Keys, varints and zigzag byte by byte |
| PbMessage.FixedExample | Capital Cycle/Pods/nanopb/pb_encode.c:641-673 | Fixed words byte by byte, with their wire types |
| PbMessage.StringExample | Capital Cycle/Pods/nanopb/pb_encode.c:669-715 | A two-byte key, a length and the bytes of a string |
| PbMessage.ArrayExample | Capital Cycle/Pods/nanopb/pb_encode.c:146-236 | A packed array, and an array of byte strings that is not |
| PbMessage.PutSubmessage | Capital Cycle/Pods/nanopb/pb_encode.c:717-765 | The sizing pass counts exactly the bytes that the writing pass writes, so the length is right and a size change is never reported |
| PbMessage.PackedSize | Capital Cycle/Pods/nanopb/pb_encode.c:169-189 | The size of a packed array, computed or counted, is the number of bytes written for it |
| PbMessage.PutAll | Capital Cycle/Pods/nanopb/pb_encode.c:197-204 | The values of a packed array are written in order |
| PbMessage.PutTagged | Capital Cycle/Pods/nanopb/pb_encode.c:208-232 | The values of an unpacked array are written in order, each with its tag |
| PbMessage.PutField | Capital Cycle/Pods/nanopb/pb_encode.c:146-236 | A field is written as its rule demands, and too long an array is refused |
| PbMessage.CheckZero | Capital Cycle/Pods/nanopb/pb_encode.c:240-337 | A field without presence of its own counts as absent when it is zero, a message when all its fields are absent |
| PbMessage.ZeroIsWithin | Capital Cycle/Pods/nanopb/pb_encode.c:240-337 | What is left out as zero exceeds no size |
| PbMessage.StringLength | Capital Cycle/Pods/nanopb/pb_encode.c:873-898 | The length that is sent is up to the first zero in the array, or the whole array |
| PbDecode.MessageRoundTrip | Capital Cycle/Pods/nanopb/pb_decode.c:934-1096 | Every message within its sizes, with distinct tags and terminated strings, at any depth of nesting, decodes from its encoding as it was |
| PbStrings.MessageRoundTripExact | Capital Cycle/Pods/nanopb/pb_decode.c:1487-1524 | A message within its sizes comes back from its encoding if and only if every string in it has room for its terminating zero and no zero before it |
| PbStrings.FullStringRefused | Capital Cycle/Pods/nanopb/pb_decode.c:1487-1524 | The decoder refuses the encoding of a char array exactly if the array is full |
| PbStrings.FullStringMessage | Capital Cycle/Pods/nanopb/pb_encode.c:873-898 | For every full char array: the message that has it as its one field is encoded within its sizes and refused by the decoder |
| PbStrings.CutEncodes | Capital Cycle/Pods/nanopb/pb_encode.c:873-898 | A value encodes like the one with its strings cut at their first zero |
| PbStrings.DecodedFieldsShort | Capital Cycle/Pods/nanopb/pb_decode.c:1487-1524 | Whatever the input, strings in a decoded message leave room for the terminating zero |
| PbDecode.ZeroIsDefault | Capital Cycle/Pods/nanopb/pb_decode.c:845-929 | A field that is left out as zero is what the decoder starts from |
| PbDecode.FieldsRoundTrip | Capital Cycle/Pods/nanopb/pb_decode.c:952-1030 | Fields decode one after the other in place of their defaults, and exactly those that were sent count as seen |
| PbDecode.NumberRoundTrip | Capital Cycle/Pods/nanopb/pb_decode.c:1334-1446 | A number of every scalar type, integers of 8 to 64 bits included, passes the decoder's range check and decodes as it was encoded |
| PbDecode.PackedRoundTrip | Capital Cycle/Pods/nanopb/pb_decode.c:428-453 | A packed array within its size decodes as it was encoded |
| PbDecode.FieldIterFind | Capital Cycle/Pods/nanopb/pb_common.c:87-104 | The search around the descriptor finds the field with the tag wherever it starts, and returns to its start if there is none |
| PbDecode.ReadField | Capital Cycle/Pods/nanopb/pb_decode.c:406-483 | A field that is not repeated is overwritten, an array extended within its size, packed or not |
| PbDecode.DecodeNoinit | Capital Cycle/Pods/nanopb/pb_decode.c:934-1082 | On any input the loop gives the specified result, whose laws are OlderReceiver, NewerReceiver and UnknownField for other descriptors' messages, FullArrayRefuses and RangeChecked for what is refused, and MessageRoundTrip |
| PbEvolution.UnknownField | Capital Cycle/Pods/nanopb/pb_decode.c:963-998 | A field that the descriptor does not have, of any type, packed or not, is passed over, and nothing else changes |
| PbEvolution.SkipsValue | Capital Cycle/Pods/nanopb/pb_decode.c:321-333 | The wire type of a value tells how far it reaches, whatever its type |
| PbEvolution.UnknownWireType | Capital Cycle/Pods/nanopb/pb_decode.c:321-333 | An unknown field of a wire type that does not exist is refused |
| PbEvolution.CutField | Capital Cycle/Pods/nanopb/pb_decode.c:298-334 | A message that ends within a field, its key or its value, is refused, known field or not |
| PbEvolution.ZeroEnds | Capital Cycle/Pods/nanopb/pb_decode.c:298-319 | A zero in place of a key ends the message |
| PbEvolution.OlderReceiver | Capital Cycle/Pods/nanopb/pb_decode.c:934-1082 | A receiver with fewer fields, in any order, decodes all its own from a message of a sender with more |
| PbEvolution.NewerReceiver | Capital Cycle/Pods/nanopb/pb_decode.c:1039-1082 | A receiver with more fields decodes the sender's, with defaults for the others, exactly when none of the others is among its first 64 required ones; else it refuses the message |
| PbEvolution.PackedOrNot | Capital Cycle/Pods/nanopb/pb_decode.c:428-483 | An array decodes alike, packed or value by value |
| PbEvolution.FullArrayRefuses | Capital Cycle/Pods/nanopb/pb_decode.c:455-470 | One value more than an array can hold makes the message refused |
| PbEvolution.LastOneCounts | Capital Cycle/Pods/nanopb/pb_decode.c:410-427 | Of two values of a field that holds one, the last counts |
| PbEvolution.RangeChecked | Capital Cycle/Pods/nanopb/pb_decode.c:1345-1428 | Any number sent for an integer field of any width is decoded exactly if it is in its range; signed fields of up to 32 bits take it by its low half |
| PbEvolution.AnyNumberIsTrue | Capital Cycle/Pods/nanopb/pb_decode.c:1334-1343 | Every number but zero is true |
| PbEvolution.SizesChecked | Capital Cycle/Pods/nanopb/pb_decode.c:1447-1571 | A byte string is decoded exactly if it fits its array, or is just as long where the length is fixed |
| PbDecode.CheckRequired | Capital Cycle/Pods/nanopb/pb_decode.c:1039-1079 | The check is whether each of the first 64 required fields was seen |
| PbStrings.EncodeAndDecode | Capital Cycle/Pods/nanopb/pb_encode.c:528-550 | Encoding into a buffer succeeds exactly if the message fits, and decoding gives it back exactly if its strings are terminated |

## Left out

- Both apps in Swift, and everything around the two libraries.
- `Env`, files, renaming, deleting obsolete files, I/O errors other than failed appends and syncs of the log, the table cache, file names, the C interface, `repair.cc`, `dumpfile.cc`.
- The arithmetic of CRC, of `Hash` and of Snappy; blocks are stored uncompressed.
- Heuristics: `allowed_seeks`, read sampling, compaction scores, statistics; file sizes are parameters.
- Flushing `imm_` in the middle of `DoCompactionWork`, shutdown, background errors other than a failed sync of the log, waiting and slowing down in `MakeRoomForWrite`.
- Weak memory order: concurrent steps are sequentially consistent.
- Arena and the byte layout of memtable entries.
- ResurrectingRun.DeletedKeyComesBack: the number of bytes of keys is not modelled, so the run uses that a cut may be anywhere; a key of the size of an output file makes the code cut right behind its tombstone.
- BoundaryGuard.ClosedOutputLevelGuards: one direction only; an unclosed output level often does no harm. The exact condition is `Database.CompactionExact`.
- DBImpl.DBImpl.Get: memtables are sorted sequences here, not skip lists; `SkipList` is proved apart from it.
- DBImpl.DBImpl.GetSnapshot: the snapshots are a sequence in the store; the linked ring is `SnapshotList`.
- LRUCache.LRUCache.Insert: the two lists are sequences of handle ids, so splicing pointers is not modelled; neither are the mutex and the sharding.
- HandleTable.HandleTable.FindPointer: buckets are sequences and a slot is a position, so pointers into a chain are not modelled.
- LogReader.Reader.ReadRecord: reads from offset 0; resynchronizing after an initial offset and `LastRecordOffset` are not modelled.
- Recovery.RecoverLogFile: without paranoid checks; tables written on the way are installed one at a time, in the code in one edit at the end.
- DurableRuns.RunIsDurable: nothing is said about the bytes of a log that was written on behind a failed append, until a flush makes it obsolete. When a record behind a failure is read again has no exact condition here: the checksum of misread bytes may match by chance.
- CrashRecovery.OpenAfterCrash: the same logs are shut out. Table files and complete manifest records are taken to be on disk as written, as the code syncs them, and log files to be found by their numbers. With `reuse_logs` what is read is covered, but not going on to write to the reused log.
- LogWriter.Writer.TryAddRecord: a file takes a prefix of what is appended, and nothing more once it is full.
- ManifestLink.Install: the numbers that are handed out stay below 2^64, and writing the manifest succeeds.
- Manifest.Recover: the CURRENT file, `ReuseManifest` and `MarkFileNumberUsed` are not modelled; the counters are those that the manifest holds.
- VersionBuilder.Builder.Apply: the compaction pointers are taken over by `Manifest.TakePointers`, and `allowed_seeks` is a heuristic.
- VersionBuilder.LogAndApply: the version only; numbers, pointers and the record are in `VersionSet.VersionSet.LogAndApply`.
- VersionSet.VersionSet.LogAndApply: writing and syncing the manifest succeeds.
- VersionEdit.EditRoundTrip: the order in which deleted files are written is left open; the code uses the order of a set.
- Block.NewIterator: blocks that a builder made, below 4 GB; corrupted blocks and error iterators are not modelled.
- Table.Open: files that a builder made, below 2^63 bytes; the block cache and errors while reading blocks are not modelled.
- Bloom.CreateFilter: the number of probes is a parameter from 1 to 30; the code computes it from bits per key in floating point and clamps it to this range.
- FilterBlock.FilterBlockBuilder.Finish: filter data below 4 GB, as the 32-bit offsets require.
- WriteQueue.StepKeepsInv: inserting a group into the memtable does not fail here, later writes are not refused after a failed sync (`DurableRuns` does that), and the waiting inside `MakeRoomForWrite` is not modelled.
- PbVarint.DecodeVarint32: `uint_fast8_t` is taken to be 8 bits wide, as on the platforms of the apps.
- PbStrings.MessageRoundTripExact: callbacks, extensions, oneofs, pointers, fixed-count arrays, declared default values other than zero, and builds without 64-bit types are not modelled; neither is what stands in a char array behind the terminating zero.
