# LevelDB and nanopb, modelled and proved in Dafny

The project models two C and C++ libraries bundled with the BingePodcast application and proves what they
promise.

LevelDB (`BingePodcast/Pods/leveldb-library`) is an ordered key-value store on a log-structured merge tree. The
model follows a write from the queue of writers to the log and the memtable, through flushes and compactions
into table files, and back out through reads and iterators; it follows the files through crashes and recovery,
and the bytes of logs, tables and manifests through encoding and decoding.

nanopb (`BingePodcast/Pods/nanopb`) encodes and decodes Protocol Buffers messages described by tables of fields.

## Layout

- Reads and the level invariant: `DbFormat`, `Versions`, `Overlap`.
- Compaction: `CompactionInputs` (choosing files), `CompactionWork` (the merge loop), `CompactionSafety` (the
  invariant afterwards), `CompactionReads` (reads afterwards), `CompactionCounterexample`.
- Flushes, versions and the engine: `FlushSafety`, `VersionBuilder`, `VersionSet`, `Installs`, `MemTable`,
  `Layers`, `WriteBatch`, `Db`.
- Iterators: `Merger`, `InternalIterators`, `TwoLevel`, `DbIter`.
- Concurrency: `SkipList` (one writer, any number of readers), `GroupCommit` (the queue of writers), `GroupAnswers`
  (what writers are told).
- Durability: `RecordLog`, `CrashRecovery`, `CrashHistory` (the same told from the events), `RecoveredVersion`,
  `VersionEdit`, `Replay`, `ReplayExact`, `Manifest`.
- Table files, byte for byte: `Coding`, `Block`, `BlockIter`, `ByteKeys`, `Bloom`, `FilterBlock`, `TableFormat`,
  `Table` (building), `TableReader`.
- The cache: `HandleTable`, `LruCache`.
- nanopb: `PbMessage` (descriptions and messages), `PbEncode`, `PbDecode` (the parsing specification),
  `PbVarint` (where its varints are right), `PbParser` (the decoder), `PbRoundTrip`, `PbWire` (reading without a
  description), `PbCapacity` (what decoding can leave behind).

Methods with state are proved against functions and predicates on values; the theorems are lemmas about those.
`dafny verify dfyconfig.toml` checks the whole project.

## Model

| member | source | states |
|---|---|---|
| `Versions.Get` | BingePodcast/Pods/leveldb-library/db/version_set.cc:326-421 | For every version whose levels meet the invariant, every user key and every sequence number: searching level 0 newest file first and then one file per level returns what the flat set of all stored entries gives for the newest version at or below the sequence number. |
| `Overlap.GetOverlappingInputs` | BingePodcast/Pods/leveldb-library/db/version_set.cc:519-559 | Deeper levels: exactly the files that meet the range, in order. Level 0, with its restarting scan: the least set that contains every file meeting the range or the span of the set itself. |
| `Overlap.PickLevelForMemTableOutput` | BingePodcast/Pods/leveldb-library/db/version_set.cc:491-516 | The level is the deepest one, at most 2, reachable without meeting a file on the way and without more than the allowed bytes two levels below. |
| `CompactionInputs.AddBoundaryInputs` | BingePodcast/Pods/leveldb-library/db/version_set.cc:1326-1401 | The inputs followed by the chain of smallest boundary files, computed by repeated search. |
| `CompactionInputs.BoundaryRunClosesRun` | BingePodcast/Pods/leveldb-library/db/version_set.cc:1378-1401 | Behind any run of files of a level >= 1, that chain is the contiguous stretch that follows, and it ends where no user key straddles two files. |
| `CompactionInputs.SetupOtherInputs` | BingePodcast/Pods/leveldb-library/db/version_set.cc:1403-1462 | Whatever the seed: the upper inputs are its boundary closure or, exactly when that takes more upper files, no other lower file and stays under the byte limit, the closure of all the upper files the whole range meets; the lower inputs are exactly the files meeting the upper span, the grandparents those meeting both two levels down, and the pointer is the largest upper key. No older version of an input user key stays behind in the upper level. |
| `CompactionInputs.PickSeed` | BingePodcast/Pods/leveldb-library/db/version_set.cc:1270-1324 | The seed is built around the first file of the level behind the compaction pointer, or the first file of all if none is; on level 0 with every file its range draws in. |
| `CompactionInputs.RangeSeed` | BingePodcast/Pods/leveldb-library/db/version_set.cc:1464-1489 | A manual range takes the files that meet it: on level 0 all it draws in, deeper down a prefix cut where the size limit is first reached; nothing exactly when no file meets the range. |
| `CompactionWork.Compaction.IsBaseLevelForKey` | BingePodcast/Pods/leveldb-library/db/version_set.cc:1533-1552 | Asked about ascending user keys, the scan with its remembered positions answers true if and only if no deeper file covers the key. |
| `CompactionWork.DoCompactionWork` | BingePodcast/Pods/leveldb-library/db/db_impl.cc:878-998 | The concatenated outputs are the ascending list of exactly the entries that are neither hidden by a newer version every snapshot sees nor obsolete tombstones; no output spans more of the grandparents, or but for its last entry more bytes, than the limits allow; and one ends before the last only if it was long enough or the grandparents passed so far come to more than is allowed. |
| `CompactionWork.Compaction.ShouldStopBefore` | BingePodcast/Pods/leveldb-library/db/version_set.cc:1554-1576 | Passing the grandparents that end before the key, it says stop exactly if those passed since the last stop, or since the first key, come to more bytes than allowed. |
| `CompactionSafety.CompactionKeepsInvariant` | BingePodcast/Pods/leveldb-library/db/db_impl.cc:860-876 | Any set of inputs the selection code can choose, with any outputs made of their entries: the installed version again meets the whole level invariant. |
| `CompactionReads.CompactionPreservesReads` | BingePodcast/Pods/leveldb-library/db/db_impl.cc:929-998 | Reads of every user key at every snapshot from the smallest on are unchanged by the compaction if and only if no shielding tombstone is dropped; the condition is decided on the inputs before the compaction starts. |
| `CompactionReads.BoundaryClosedLowerInputsAreSafe` | BingePodcast/Pods/leveldb-library/db/version_set.cc:1403-1421 | If the lower inputs end at a user-key boundary too, no shielding tombstone can be dropped. |
| `CompactionReads.KeptIsLean` | BingePodcast/Pods/leveldb-library/db/db_impl.cc:946-960 | Nothing is kept that can go: of the versions every snapshot sees one of each user key, no tombstone among them that no deeper file needs; and every version above the smallest snapshot is kept. |
| `CompactionCounterexample.CompactionCanResurrect` | BingePodcast/Pods/leveldb-library/db/version_set.cc:1403-1421 | A concrete valid tree and compaction, with inputs the selection computes and outputs the drop rules keep, after which a deleted key reads as its old value. |
| `FlushSafety.FlushAtPickedLevelKeepsInvariant` | BingePodcast/Pods/leveldb-library/db/version_set.cc:491-516 | A flushed memtable newer than everything stored, put at the level the picker chooses, leaves a version that meets the invariant and holds exactly the old entries and the new ones. |
| `FlushSafety.FlushKeepsInvariant` | BingePodcast/Pods/leveldb-library/db/db_impl.cc:491-533 | The same for any level the table fits at: level 0 with the largest number, or a level with nothing in the way down to it. |
| `VersionBuilder.Builder.Apply` | BingePodcast/Pods/leveldb-library/db/version_set.cc:657-692 | Applies the deletions and additions of an edit to the pending changes of every level at once; an addition cancels a pending deletion of its number. |
| `VersionBuilder.Builder.SaveTo` | BingePodcast/Pods/leveldb-library/db/version_set.cc:694-754 | The merge of base and added files saves, for every level, the ordered list of exactly the base and added files whose numbers are not deleted. |
| `VersionBuilder.SavedIsApplied` | BingePodcast/Pods/leveldb-library/db/version_set.cc:649-754 | With fresh numbers, one edit through a builder yields exactly the files kept and the files added. |
| `ExactReplays.ReplayIsHistory` | BingePodcast/Pods/leveldb-library/db/version_set.cc:657-754 | For every run of edits from the empty version, as recovery replays it: one builder fed the whole run saves, level by level, the list the same edits install one at a time if and only if no file comes back - no first file of its number and smallest key is deleted behind its last addition and has its number added again by another file with no deletion behind that. |
| `Replays.ReplayEqualsHistory` | BingePodcast/Pods/leveldb-library/db/version_set.cc:886-1011 | A sufficient case, over any base version: no level and number is added twice. |
| `Replays.DrawnIsOnce` | BingePodcast/Pods/leveldb-library/db/version_set.cc:801-884 | Every run whose added files have fresh numbers or move to a deeper level is of that case. |
| `ExactReplays.ReusedNumberComesBack` | BingePodcast/Pods/leveldb-library/db/version_set.cc:657-692 | Add a file, delete it, add another under its number: the replay keeps both where the edits leave one. |
| `ExactReplays.ReaddedFileIsReplayed` | BingePodcast/Pods/leveldb-library/db/version_set.cc:657-692 | Add a file, delete it, add the same file again: its number is added twice and the replay is right all the same. |
| `Manifests.Manifest.LogAndApply` | BingePodcast/Pods/leveldb-library/db/version_set.cc:801-884 | Every edit the database logs installs the version it describes and appends exactly its record, behind a snapshot record if the manifest is new; the manifest stays one that recovers to the current state. If the write fails nothing is installed, a new manifest is gone, and an old one recovers to the state before the edit or, if the record got in, to exactly the state the edit describes. |
| `Manifests.Recover` | BingePodcast/Pods/leveldb-library/db/version_set.cc:886-1011 | On any list of records the loop and the checks behind it give the outcome of the record-by-record specification: every error, and otherwise version, pointers and counters. |
| `Manifests.FirstBadRecordDecides` | BingePodcast/Pods/leveldb-library/db/version_set.cc:924-973 | Reading a manifest fails exactly if some record does not decode or names another comparator, with the complaint of the first such record. |
| `Manifests.CountersAreTheLast` | BingePodcast/Pods/leveldb-library/db/version_set.cc:949-971 | Each recovered counter is the one of the last record that carries it. |
| `Manifests.RecoverRestoresCurrent` | BingePodcast/Pods/leveldb-library/db/version_set.cc:886-1011 | Recovering the manifest of any state reached by LogAndApply gives back the installed version, compaction pointers, log numbers and last sequence, and a next file number above every file in use. |
| `Manifests.Reopen` | BingePodcast/Pods/leveldb-library/db/version_set.cc:886-1011 | A set opened from that manifest is valid again, holds the same version and goes on from the recovered counters. |
| `VersionEdits.EditRoundTrip` | BingePodcast/Pods/leveldb-library/db/version_edit.cc:41-205 | Decoding the bytes of any edit in range gives back that edit and succeeds. |
| `VersionEdits.ReencodingIsFaithful` | BingePodcast/Pods/leveldb-library/db/version_edit.cc:41-205 | For every byte string the decoder accepts, the decoded edit encodes to bytes that decode to it again. |
| `VersionEdits.VersionEdit.DecodeFrom` | BingePodcast/Pods/leveldb-library/db/version_edit.cc:26-205 | Computes the decoding specification on any bytes, keeping the compaction pointers that Clear does not reset. |
| `VersionEdits.UsedEditDecodes` | BingePodcast/Pods/leveldb-library/db/version_edit.cc:26-39 | On any bytes, decoding into an edit used before gives what decoding into a fresh one gives if and only if the used edit held no compaction pointers. |
| `Db.DbImpl.Write` | BingePodcast/Pods/leveldb-library/db/db_impl.cc:1201-1237 | A logged group joins the history and what is stored under consecutive sequence numbers; of one whose append or sync failed nothing does, though its numbers are published; the engine invariant is kept. The queue, the log and the memtable switch are other members. |
| `Db.DbImpl.Get` | BingePodcast/Pods/leveldb-library/db/db_impl.cc:1100-1145 | At the present or any live snapshot, memtable, immutable memtable and tables together answer as all stored entries do; and as the full history of writes does while no compaction dropped a shield. |
| `Db.DbImpl.NewIterator` | BingePodcast/Pods/leveldb-library/db/db_impl.cc:1147-1157 | The iterator ranges over all stored entries at the chosen snapshot, whose reads are those of the full history while no shield was dropped. |
| `Db.DbImpl.CompactFiles` | BingePodcast/Pods/leveldb-library/db/db_impl.cc:860-1048 | Keeps the engine invariant. The inputs are gone from both levels, and the lower one has in their place tables of exactly the surviving rows, divided within the limits. The tables answer as before, at every snapshot from the oldest live one on, if and only if no shield is dropped; the ghost flag of intact history is kept exactly then too. That reads are those of the full history follows from the flag in one direction. |
| `Db.DbImpl.BackgroundCompaction` | BingePodcast/Pods/leveldb-library/db/db_impl.cc:688-767 | A waiting memtable goes first: it is gone, and its rows are one file at the level the picker chose. Otherwise, unless the level is empty or no file meets the manual range, the seed that pointer or range selects, with its closure, leaves its level: one file with nothing in its way moved whole, anything else merged with exactly the lower files its range meets. The pointer moves on, and only a merge can change an answer, if and only if it drops a shield. |
| `Db.WorkLeavesTheLevel` | BingePodcast/Pods/leveldb-library/db/db_impl.cc:713-739 | Compacting a level gets somewhere: the upper inputs, at least one, were files of the level and have left it; the outputs are in the level below, and of the lower inputs, exactly the files there that the upper ones meet, only those made again. |
| `Db.MovesStayCheap` | BingePodcast/Pods/leveldb-library/db/version_set.cc:1515-1523 | A file moved down whole meets no more bytes two levels further than the limit allows. |
| `Db.OutputsTouchLittle` | BingePodcast/Pods/leveldb-library/db/version_set.cc:1554-1576 | A later compaction of any output stays cheap: of the files two levels down that it touches, all but the last are within the limit together. |
| `Installs.InstallMerge` | BingePodcast/Pods/leveldb-library/db/db_impl.cc:860-998 | Merging, dropping and installing in one step on the version set: a valid version, no new entries, and unchanged answers if and only if no shield is dropped. |
| `DbIterators.DBIter.Seek` | BingePodcast/Pods/leveldb-library/db/db_iter.cc:269-281 | Lands on the first user key at or after the target that has a visible value, with that value, or is invalid if there is none. |
| `DbIterators.DBIter.Next` | BingePodcast/Pods/leveldb-library/db/db_iter.cc:141-198 | From either direction: the first visible user key above the current one, or invalid if there is none. |
| `DbIterators.DBIter.Prev` | BingePodcast/Pods/leveldb-library/db/db_iter.cc:200-267 | From either direction: the last visible user key below the current one, or invalid if there is none. |
| `Merger.MergingIterator.Next` | BingePodcast/Pods/leveldb-library/table/merger.cc:55-79 | Over any number of sorted children and after any change of direction: the least entry of their union behind the current one. |
| `Merger.MergingIterator.Prev` | BingePodcast/Pods/leveldb-library/table/merger.cc:81-108 | The greatest entry of the union before the current one, from either direction. |
| `TwoLevel.TwoLevelIterator.Seek` | BingePodcast/Pods/leveldb-library/table/two_level_iterator.cc:82-87 | Lands on the first row of the concatenated blocks at or behind the target, skipping empty blocks. |
| `TwoLevel.TwoLevelIterator.ShowsRow` | BingePodcast/Pods/leveldb-library/table/two_level_iterator.cc:32-39 | Wherever it stands, key and value are those of the row of the concatenation at its position. |
| `SkipLists.RunsKeepInv` | BingePodcast/Pods/leveldb-library/db/skiplist.h:255-368 | In every interleaving of one writer and any number of readers, one load or store a step, every level is a sorted list contained in the level below, and every finished search is free of omissions. |
| `SkipLists.SearchesAreLinearizable` | BingePodcast/Pods/leveldb-library/db/skiplist.h:260-321 | A finished search gives the exact answer for the contents at its last load, which include everything present when it began. |
| `SkipLists.LevelsChangeOnce` | BingePodcast/Pods/leveldb-library/db/skiplist.h:337-368 | Each level, and level 0 is the list, changes in one kind of step only: the store that links the new node there adds exactly its key. |
| `SkipLists.SkipList.Insert` | BingePodcast/Pods/leveldb-library/db/skiplist.h:337-368 | Run alone, an insert ends, whatever height is drawn, and adds its key to exactly the levels below that height. |
| `GroupCommit.BuildBatchGroup` | BingePodcast/Pods/leveldb-library/db/db_impl.cc:1260-1306 | The group is the longest prefix of the queue that the sync rule and the size limit - 128 KB above a small first batch, 1 MB otherwise - allow, and its operations are those of its members in order. |
| `GroupCommit.LogIsTheQueueInOrder` | BingePodcast/Pods/leveldb-library/db/db_impl.cc:1185-1258 | As long as every answer was a success, the log holds exactly the operations of the answered writers, in the order of their arrival. |
| `GroupAnswers.AnswersAreTheVerdict` | BingePodcast/Pods/leveldb-library/db/db_impl.cc:1218-1257 | In every run, told from its events alone: the members of a group are told OK exactly if its append, and its sync if it had one, went well, and all others of the failure; nobody else is answered. |
| `GroupAnswers.LogIsTheQueue` | BingePodcast/Pods/leveldb-library/db/db_impl.cc:1185-1258 | In every run in which nothing fails, every writer answered is told OK, and between two groups the log holds exactly the operations of the writers answered, in the order of their arrival, and the rest are still queued. |
| `GroupAnswers.QueueMoves` | BingePodcast/Pods/leveldb-library/db/db_impl.cc:1185-1258 | Whenever a write waits and no sync has failed, the next group can go through: it leaves the queue, all of it told OK, and its record ends the log. |
| `GroupCommit.SequencesAreConsecutive` | BingePodcast/Pods/leveldb-library/db/db_impl.cc:1201-1237 | The records settled so far run without gap from the first sequence number to the published one if and only if no append of a non-empty group failed. |
| `GroupCommit.FailedAppendLeavesAGap` | BingePodcast/Pods/leveldb-library/db/db_impl.cc:1201-1237 | A run of one write whose append fails: its numbers are published and the log holds none of them. |
| `GroupCommit.WithoutErrorsSequencesAreConsecutive` | BingePodcast/Pods/leveldb-library/db/db_impl.cc:1201-1237 | In every run in which no append fails, each record starts right behind the one before it, the first at the initial sequence number plus one and the last ending at the published one. |
| `GroupCommit.SequencesAreAccountedFor` | BingePodcast/Pods/leveldb-library/db/db_impl.cc:1201-1237 | In every run the numbers between the first and the published one that no record carries are exactly as many as the operations of failed appends. |
| `GroupCommit.PublishedSequenceSplitsNoGroup` | BingePodcast/Pods/leveldb-library/db/db_impl.cc:1185-1258 | At no moment of any run does the published sequence number lie inside a logged group. |
| `GroupCommit.AnswersAreHonest` | BingePodcast/Pods/leveldb-library/db/db_impl.cc:1218-1252 | Members of a group get one answer; a writer told OK had its batch logged, and synced if it asked for that. |
| `GroupCommit.FailedSyncStopsTheLog` | BingePodcast/Pods/leveldb-library/db/db_impl.cc:1226-1233 | Once a sync has failed, no step of any run logs anything, and every answer from then on is a failure. |
| `GroupAnswers.NothingIsLoggedAfterwards` | BingePodcast/Pods/leveldb-library/db/db_impl.cc:1226-1233 | In no run does a write to the log follow one whose sync failed. |
| `CrashRecovery.RunsKeepInv` | BingePodcast/Pods/leveldb-library/db/db_impl.cc:280-369 | In every state of every run of writes, switches, flushes, deletions of obsolete files, crashes and recoveries: tables and logs the manifest counts on make up the history exactly. |
| `CrashRecovery.AcknowledgedIsDurable` | BingePodcast/Pods/leveldb-library/db/db_impl.cc:223-278 | Every acknowledged batch is in a live table or a log that recovery reads, in every such state, up or down. |
| `CrashRecovery.RecoveryRestoresHistory` | BingePodcast/Pods/leveldb-library/db/db_impl.cc:280-489 | When recovery ends, the tables hold exactly the history, and the next write is numbered right behind it. |
| `CrashRecovery.RunningHoldsHistory` | BingePodcast/Pods/leveldb-library/db/db_impl.cc:491-566 | In every running state, through every stage of a flush, live tables and memtables together hold exactly the history. |
| `CrashRecovery.HistoryIsAcknowledgedOrCaught` | BingePodcast/Pods/leveldb-library/db/db_impl.cc:1185-1256 | Over every run: the acknowledged batches are a subsequence of the history, which holds beside them exactly the groups that crashes caught between append and acknowledgement, one a crash at most. What those batches contain is the next rows. |
| `CrashHistories.HistoryIsWhatWasAsked` | BingePodcast/Pods/leveldb-library/db/db_impl.cc:1201-1237 | Told from the events alone, over every run: each acknowledgement is for exactly the operations last asked for, and the history is exactly the groups acknowledged and those a crash caught in the log, with their operations, in order. |
| `CrashHistories.LastingWasAsked` | BingePodcast/Pods/leveldb-library/db/db_impl.cc:1201-1237 | What lasts is a subsequence of what clients asked for. |
| `CrashHistories.PublishedIsDurable` | BingePodcast/Pods/leveldb-library/db/db_impl.cc:223-278 | Every group of operations acknowledged is on disk, after any run, in the tables the manifest names or in a log recovery reads. |
| `CrashHistories.RecoveredIsWhatLasts` | BingePodcast/Pods/leveldb-library/db/db_impl.cc:280-489 | After any run of writes, flushes and crashes, recovery leaves in the tables exactly the operations of the groups that last, numbered from 1 without a gap: every one acknowledged, and none never asked for. |
| `CrashHistories.WritesGoThrough` | BingePodcast/Pods/leveldb-library/db/db_impl.cc:1201-1237 | Wherever the database runs with no group on its way, a write can be made, is acknowledged, and is in the memtable with its operations. |
| `CrashHistories.FlushesGoThrough` | BingePodcast/Pods/leveldb-library/db/db_impl.cc:535-566 | From every running state a waiting memtable can be flushed: its rows are in the live tables, it is gone, and once obsolete files are deleted just the current log and the live tables are left. |
| `CrashHistories.DeletedIsNotNeeded` | BingePodcast/Pods/leveldb-library/db/db_impl.cc:223-278 | Deleting obsolete files leaves exactly the logs of the memtables and the tables of the version, unchanged. |
| `CrashHistories.CrashesAreSurvived` | BingePodcast/Pods/leveldb-library/db/db_impl.cc:280-489 | After any run and a crash at any moment, recovery can be completed, with the history as it was. |
| `RecoveredVersions.RecoveredVersionHoldsHistory` | BingePodcast/Pods/leveldb-library/db/db_impl.cc:371-533 | The version any recovery installs, with its recovered tables on level 0, meets the level invariant and holds exactly the history. |
| `RecoveredVersions.ReadRecovered` | BingePodcast/Pods/leveldb-library/db/version_set.cc:326-421 | So a read from that version is the read of the recovered history. |
| `RecordLog.ReadAll` | BingePodcast/Pods/leveldb-library/db/log_reader.cc:56-270 | From a log of any records cut at any byte, exactly the records whose last byte precedes the cut come back, in order, and no corruption is reported. |
| `RecordLog.WriteAll` | BingePodcast/Pods/leveldb-library/db/log_writer.cc:23-80 | Written one by one, with the file closed and reopened at will, any records become the one encoding of the whole list that ReadAll undoes. |
| `RecordLog.Writer.AddRecord` | BingePodcast/Pods/leveldb-library/db/log_writer.cc:34-110 | Any record at any offset becomes the fragments of the format: padding, frames with checksum, type and length, none across a block boundary. |
| `RecordLog.TypesOnDisk` | BingePodcast/Pods/leveldb-library/db/log_format.h:14-30 | At the start of a block a record that fits is one fragment of type 1; a longer one fills the block with a fragment of type 2 and goes on with types 3 and 4. |
| `BlockIterators.ReadBack` | BingePodcast/Pods/leveldb-library/table/block.cc:137-250 | Building a block from any ascending rows, finishing, opening and stepping through it gives back exactly those rows, keys and values. |
| `BlockIterators.SeekBuilt` | BingePodcast/Pods/leveldb-library/table/block.cc:163-201 | Seeking in a built block gives the first row at or behind the target. |
| `BlockIterators.BlockIter.ShowsRow` | BingePodcast/Pods/leveldb-library/table/block.cc:128-135 | On a built block, current key and value are those of the row at the position. |
| `BlockIterators.BlockIter.Prev` | BingePodcast/Pods/leveldb-library/table/block.cc:142-161 | Stepping back through the restart points moves exactly one row back, or off the front. |
| `Blocks.BlockBuilder.Finish` | BingePodcast/Pods/leveldb-library/table/block_builder.cc:62-106 | The bytes lay out the rows, a restart point at every interval and in between each key without all it shares with the one before; opening them finds the restart array. |
| `Tables.TableBuilder.Add` | BingePodcast/Pods/leveldb-library/table/table_builder.cc:94-123 | The row joins the open data block, and the block is written exactly when its estimated size reaches the block size. |
| `Tables.TableBuilder.Finish` | BingePodcast/Pods/leveldb-library/table/table_builder.cc:94-253 | After any additions, and with or without compression: the file holds, byte for byte, data blocks of exactly the rows added, an index block whose separators fall between blocks and between user keys and lead to their handles, a filter block that denies none of the rows, a metaindex block and a footer. |
| `TableReaders.Open` | BingePodcast/Pods/leveldb-library/table/table.cc:38-134 | Opening such a file reads back its index block, and its filter if it was written under the policy in use. |
| `TableReaders.InternalGet` | BingePodcast/Pods/leveldb-library/table/table.cc:216-244 | On an opened file: the newest version at or behind the key among all the rows of the table, or that there is none; a data block is read exactly if the index leads to one and no filter rules the key out. |
| `TableReaders.GetFromBuilt` | BingePodcast/Pods/leveldb-library/table/table.cc:38-244 | From rows to bytes and back: any ascending rows, added, written, opened and searched under any filter policy, are answered as a scan of the rows would. |
| `TableFormat.SealedReadsBack` | BingePodcast/Pods/leveldb-library/table/format.cc:64-139 | A block read where it was appended gives back its contents, decompressed as its type says, whether or not the checksum is verified. |
| `TableFormat.FooterRoundTrip` | BingePodcast/Pods/leveldb-library/table/format.cc:15-62 | Any two handles of 64-bit numbers come back from the 48 bytes of the footer. |
| `TableFormat.FooterEndsInMagic` | BingePodcast/Pods/leveldb-library/table/format.h:74-77 | A table ends in the magic number 0xdb4775248b80fb57, little-endian. |
| `FilterBlocks.FilterBlockBuilder.Finish` | BingePodcast/Pods/leveldb-library/table/filter_block.cc:21-104 | As long as the bytes are fewer than 2^32: at an offset the reader of the finished bytes allows exactly the keys the Bloom filter of that group of keys stands for, all those added there among them. |
| `BloomFilters.CreateFilter` | BingePodcast/Pods/leveldb-library/util/bloom.cc:28-54 | The filter allows exactly the keys each of whose probes falls on a bit some key it was made from probes, those keys among them, for any hash and any number of probes. |
| `ByteKeys.FindShortestSeparator` | BingePodcast/Pods/leveldb-library/util/comparator.cc:29-50 | Where the first difference leaves room, a byte string strictly between key and limit, none between them being shorter; the key itself otherwise. |
| `ByteKeys.InternalSeparator` | BingePodcast/Pods/leveldb-library/db/dbformat.cc:69-86 | Where that is shorter than the user key it becomes the separator, with the largest trailer; otherwise the key stays. So the separator never falls between two versions of one user key. |
| `Coding.VarintRoundTrip` | BingePodcast/Pods/leveldb-library/util/coding.cc:81-157 | Parsing a varint in front of any bytes gives back the value and its length, within the bytes its size allows. |
| `LruCaches.LRUCache.Insert` | BingePodcast/Pods/leveldb-library/util/cache.cc:266-303 | The new handle holds key, value and charge and is the cached one for its key; a replaced one is dropped, and exactly the shortest prefix of the LRU list is evicted that brings usage to capacity or empties the list. The new usage and the charges of what was replaced and evicted are the old usage and the charge together; every other entry stays as it was. |
| `LruCaches.LRUCache.Release` | BingePodcast/Pods/leveldb-library/util/cache.cc:225-264 | Gives back one client reference: the entry is freed with the last reference, or joins the end of the LRU list with the last client reference, and nothing else changes. |
| `LruCaches.LRUCache.Erase` | BingePodcast/Pods/leveldb-library/util/cache.cc:305-321 | The key leaves the table; its entry is freed at once if no client holds it and with its last reference otherwise, and nothing else changes. |
| `LruCaches.LRUCache.Prune` | BingePodcast/Pods/leveldb-library/util/cache.cc:323-334 | Frees exactly the entries no client holds, oldest first. |
| `HandleTables.HandleTable.Insert` | BingePodcast/Pods/leveldb-library/util/cache.cc:78-140 | The chained hash table, which grows so that there are never more elements than chains, is a map: the key now leads to the handle, other keys to what they led to. |
| `HandleTables.MaskIsRemainder` | BingePodcast/Pods/leveldb-library/util/cache.cc:114-120 | For a power-of-two length, masking the hash and taking the remainder choose the same bucket. |
| `PbEncoder.Encode` | BingePodcast/Pods/nanopb/pb_encode.c:528-550 | Writing or sizing, with any buffer: the bytes put out are those of the printing specification, or a failure where the specification has none or the buffer is too small. What those bytes mean is the next rows and the round trip. |
| `PbWires.PrintedCanBeWalked` | BingePodcast/Pods/nanopb/pb_encode.c:671-709 | For every well-formed message: a walk that knows only the wire format - a varint, 8 bytes, a length and its bytes, or 4 bytes by the wire type 0, 1, 2 or 5 - ends exactly at the end of the print and meets exactly the fields present, in order, with their tags and payloads. |
| `PbWires.SilentIsLeftOut` | BingePodcast/Pods/nanopb/pb_encode.c:240-337 | A singular submessage is left out exactly if it would print nothing, unless it has an array of fixed length 0. |
| `PbEncoder.EncodeSubmessage` | BingePodcast/Pods/nanopb/pb_encode.c:717-765 | The two-pass encoding of a submessage writes the length and then the bytes of one sizing of it. |
| `PbEncoder.GetEncodedSize` | BingePodcast/Pods/nanopb/pb_encode.c:567-577 | The sizing stream gives exactly the number of bytes encoding would write, and fails where encoding would. |
| `PbParser.Decode` | BingePodcast/Pods/nanopb/pb_decode.c:934-1096 | Defaults, then the field loop with its field iterator, fixed-count check and required-field check: the result is that of the parsing specification on any bytes. |
| `PbWires.UnknownIsSkipped` | BingePodcast/Pods/nanopb/pb_decode.c:321-336 | A printed field that the description does not have changes nothing: the parser goes on right behind it. |
| `PbWires.RequiredMustBeMet` | BingePodcast/Pods/nanopb/pb_decode.c:1018-1078 | Decoding succeeds exactly if the field loop does, the fixed-count array under way is full, and the tag of every required field, of the first 64, was met; every fixed-count array left on the way was full. |
| `PbCapacities.DecodedFits` | BingePodcast/Pods/nanopb/pb_decode.c:1334-1570 | Whatever bytes come in, what is decoded from them is within the bounds of its struct, nested to any depth: no array, bytes or string longer than its buffer, no number out of the range of its type, no oneof set to what it does not have. |
| `PbParser.IStream.DecodeVarint32` | BingePodcast/Pods/nanopb/pb_decode.c:187-253 | The byte loop with its overflow rules computes the varint specification on any bytes; wherever that specification is right, the value the bytes stand for. |
| `PbVarints.Varint32IsRight` | BingePodcast/Pods/nanopb/pb_decode.c:187-247 | For every varint, with its value the sum of its seven-bit groups: the answer is the right one - the value below 2^32, the low half of a sign-extended negative number, or a refusal of any other value - if and only if the condition on its bytes holds. |
| `PbVarints.ShortIsRight` | BingePodcast/Pods/nanopb/pb_decode.c:187-247 | Up to five bytes the answer is the value if it is below 2^32 and a refusal otherwise. |
| `PbVarints.FifthByteIsCut` | BingePodcast/Pods/nanopb/pb_decode.c:230-241 | Six bytes worth 7 * 2^32 are accepted as 0. |
| `PbVarints.MixedFillPasses` | BingePodcast/Pods/nanopb/pb_decode.c:208-228 | Seven bytes that mix sign extension and zero padding, worth neither, are accepted. |
| `PbVarints.PaddedSignIsLost` | BingePodcast/Pods/nanopb/pb_decode.c:208-228 | A negative number with one byte of padding behind its ten is refused. |
| `PbVarints.PaddedVarintWraps` | BingePodcast/Pods/nanopb/pb_decode.c:187-247 | A padded varint of 38 bytes is accepted, its last byte landing on a low bit again. |
| `PbRoundTrips.ParserUndoesPrinter` | BingePodcast/Pods/nanopb/pb_decode.c:934-1096 | For every well-formed message description and message whose bytes are fewer than 2^32, nested to any depth: printing succeeds, and decoding the bytes into any storage gives the same message. |
| `PbCapacities.AcceptedPrintsBack` | BingePodcast/Pods/nanopb/pb_encode.c:528-550 | The message any accepted bytes give prints to bytes that give it again, if no string of it has a NUL inside and the print is below 2^32 bytes. |
| `PbRoundTrips.SamePrints` | BingePodcast/Pods/nanopb/pb_encode.c:528-550 | Messages that are the same up to the contents of absent fields print to the same bytes. |

## Findings

- A compaction can bring a deleted value back. `SetupOtherInputs` closes the upper inputs at a user-key
  boundary (`version_set.cc:1407`) but not the lower ones. If the last lower input ends with a tombstone whose
  older value begins the next file of the same level, the merge loop drops the tombstone - no deeper level holds
  the key - and the value next door becomes visible.
  - Input: `CompactionCounterexample`. Level 2 holds file 5 with a value of key 5 and the deletion of key 10
    at sequence 2, then file 6 with the value of key 10 at sequence 1; level 1 holds file 7 with a newer value of
    key 5. `FirstFlush`, `SecondFlush`, `FirstCompaction` and `ThirdFlush` reach this tree from the empty one.
    Compacting level 1 with the smallest snapshot at 4 turns the read of key 10 from "absent" to "old"
    (`CompactionCanResurrect`).
  - Exact condition: `CompactionPreservesReads` holds for all versions, inputs and snapshots; reads survive if and
    only if not `ShieldDropped`: the file right behind the lower inputs starts with a value of a user key whose
    newest version at the smallest snapshot is an input tombstone that nothing deeper keeps alive.
  - Remedy: closing the lower inputs the way the upper ones are closed rules the condition out for all inputs
    (`BoundaryClosedLowerInputsAreSafe`).
- A failed append leaves a gap in the sequence numbers: `Write` publishes the new last sequence even if the log
  append failed (`db_impl.cc:1236`).
  - Input: `FailedAppendLeavesAGap`, a single write.
  - Exact condition: `SequencesAreConsecutive`, for all runs; `SequencesAreAccountedFor` gives the size of the gaps.
- Replaying a manifest through one builder can bring a deleted table back: adding a file erases any pending deletion
  of its number (`version_set.cc:689`), the table deleted under it included.
  - Input: `ReusedNumberComesBack`. A number used again is not enough: `ReaddedFileIsReplayed`.
  - Exact condition: `ReplayIsHistory`, for all runs. `DrawnIsOnce` shows that the database, which draws every number
    once, makes no run that fails it.
- `pb_decode_varint32_eof` lets through some overlong varints that its overflow checks should stop, and stops one
  kind it should let through (`pb_decode.c:187-247`). The bits of the fifth byte beyond bit 31 are shifted out and
  checked only if that byte is the last; each later byte is compared with zero or a sign extension on its own, so that
  the two may be mixed; bit positions are counted in a `uint_fast8_t` (8 bits wide here) and wrap, the 38th byte
  landing on bit 3 again; and ten bytes of a negative number may not be followed by padding.
  - Inputs: `FifthByteIsCut`, `MixedFillPasses`, `PaddedVarintWraps`, `PaddedSignIsLost`.
  - Exact condition: `Varint32IsRight`, for all bytes. Varints of at most five bytes, which is what a printer writes for
    an unsigned 32-bit number, are right without exception (`ShortIsRight`).
- `VersionEdit::Clear` keeps the compaction pointers (`version_edit.cc:26-39`), so `DecodeFrom` on a used edit adds
  to them: `UsedEditDecodes` says that the result differs from a fresh edit's exactly if there were any.

## Left out

- User keys of the tree, engine and skip-list modules are integers: finitely many keys under any total order embed
  in them. The table, block and manifest modules use byte strings.
- A table file stands for its rows in the tree modules, as `TableReaders.GetFromBuilt` entitles it to for lookups.
  `TwoLevel` iterates over the rows of the blocks, not over their bytes. The size a version records for a file is any
  number.
- When a memtable is full, which level is due and which skip-list height is drawn are left open: the results hold
  for every choice. How many bytes a table takes, while it is built and in the end, is any function of its entries.
  Compaction scores and seek-triggered compactions only choose a level or a file and are not modelled.
- Sequence numbers stay below the 56-bit limit by precondition of writes; other 32- and 64-bit counters do not
  overflow, except where the formats or nanopb wrap them.
- What a manual compaction that stopped half-way goes on with (`db_impl.cc:753-766`): each step is given its range.
- A memtable flush that interrupts a running compaction is modelled as a separate install before or after it.
- Iterators read the runs as they were when created, as pinned versions and memtables give them.
- Writers that only force a memtable switch (null batch) and join another writer's group are answered without a
  switch, as in the code; the switch itself is not part of the group-commit machine.
- In the crash machine: compactions, `reuse_logs` and manifest reuse; an append persists if it returned, a torn one
  leaves nothing, the manifest changes in one step. Loss of appended but unsynced data is not modelled.
- Internal keys that do not parse (a corrupted type byte) and corrupted tables.
- CRC32C and the Bloom and cache hashes are arbitrary functions; undetected corruption is outside the model.
- The Bloom filter's number of probes, a rounded product with 0.69 in the code, is any number from 1 to 30.
- Table files of 2^64 bytes and more, filter blocks of 2^32 and more, and index blocks of 2^32 and more: the offsets
  of the formats do not hold them. Snappy is any lossless pair of functions. Write errors while a table is built and
  the wiring of table and block caches are not modelled.
- `initial_offset` above 0 in the log reader, and what a reader salvages from corruption other than truncation.
- C++ memory orders: a skip-list step is one atomic load or store in a single global order. Arena memory.
- The cache's linked lists are sequences, its chains sequences of nodes; sharding is not modelled.
- nanopb callbacks, extensions, pointer (malloc) fields, custom streams and delimited wrappers. Messages are values
  per field instead of structs in memory.
- Environment, file names, locking, repair, statistics, the C interface and the application's Swift code.
- PbParser.Decode: a fixed-count array has no count of its own, so `pb_field_set_to_default` clears the leading
  `sizeof(pb_size_t)` bytes of its first element (`pb_decode.c:872-877`); which values those bytes belong to depends
  on the C layout, and the model leaves the array as it was until the field is read.
- CrashRecovery.RunsKeepInv: a sync that fails after its append is not modelled; `GroupCommit` covers the answer the
  writers get.
