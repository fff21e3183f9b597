# LevelDB and nanopb, modelled and proved

TasksTracker ships two engines among its Pods: LevelDB, a log-structured key-value store, and nanopb, a
descriptor-driven Protocol Buffers codec. This project models both and proves what they are for. `dafny verify
dfyconfig.toml` checks everything. Nothing here runs the original code.

## What LevelDB has to agree with

The reference is in `History.dfy`: a set of writes (user key, sequence number, put or delete), and `Read(S, u, s)`, the
newest write of `u` with a sequence number of at most `s`, a deletion counting as absent. The rest refines it, or
refines a cursor over a sorted sequence.

* **Point reads.** `Versions.Get` opens at most one file for each level from 1 down and stops at the first hit, yet
  returns `Read` over the whole version. That rests on `Versions.Shape`: deeper levels are sorted and disjoint, and for
  every user key whatever is shallower (or has a higher number in level 0) is newer.
* **Every run keeps the shape and the reads.** `Engine.DBImpl` holds memtable, immutable memtable, version, snapshots
  and file numbers. Each of its methods (write, switch of memtables, flush, compaction, trivial move, snapshots) keeps
  `Valid`, and keeps `ReadsAgree`: every read that a live snapshot can make gives what the history of all writes gives.
  For a compaction that has one condition, described next.
* **What a compaction may drop.** The merge loop keeps exactly the entries that are not obsolete
  (`CompactionWork.SurvivorsAreTheRest`), although it only looks at the entry before and at a cursor that advances with
  the keys. Reads at the oldest snapshot and later are the same before and after *if and only if* no user key is
  resurrected (`Compactions.CompactionKeepsReads`). A key is resurrected when its visible entry is a deletion marker
  among the inputs, no level from `level + 2` down covers it, and a file of `level + 1` that was not picked as an input
  still holds a value for it. That can happen in this version of LevelDB, because `SetupOtherInputs` adds boundary files
  for `level` but not for `level + 1` (db/version_set.cc:1407, 1422): `Resurrection.DeletedKeyComesBack` gives a version,
  the only selection of inputs there is for it, and what the merge makes of it, and `Resurrection.VersionIsReached` the
  flushes and the compaction that lead from an empty database to that version. If no unread file of `level + 1` shares a
  user key with the inputs, nothing is resurrected (`Compactions.UnsharedKeysAreSafe`).
* **Iterators.** `DBIter`, `MergingIterator`, `TwoLevelIterator` and the block iterator are classes with the fields of
  the original. Each is a cursor over one sequence, whatever the calls and turns: the keys visible at a sequence number
  (`DBIterators.ViewIsAllReads` says that these are exactly the keys that a point read finds, with their values), the
  sorted merge, the entries of a table, the entries of a block. `UserIterators.NewIterator` puts them together for a
  database in any state: what the user walks through is what point reads find.
* **Durability.** The log reader returns exactly the complete records of any prefix of a log, with no corruption
  reported, and from any file at all only records that were stored there with their checksums
  (`LogSoundness.OnlyStoredIsRead`); a group commit numbers, logs and applies every queued batch once, in order, through
  any number of memtable switches and flushes; recovery from the logs in force, each cut anywhere, rebuilds from each a
  prefix of its memtable that ends between groups, on top of whatever older logs have given (`GroupCommit.TornLogsRecover`,
  `GroupCommit.WriteQueue.CrashRecovers`). The manifest goes through the same log: its edits are encoded, cut anywhere,
  read, decoded and replayed in one go, and give the version that was installed by the last complete one
  (`Recovery.TornManifestRecovers`).
* **Files.** `FileLifetimes` is a state machine with one step for each stretch of code that holds the mutex, and one for
  a crash with the recovery after it. In every reachable state no table that a listed version or a running compaction
  needs is missing, no new file takes the number of one, every write is in a table of the manifest or in a log that is
  kept, unless a compaction has dropped it, and collecting garbage keeps exactly the tables and logs that are needed.
  From every reachable state the background work can come to its end.
* **Structures.** The skip list is proved at every link store, with a reader that may begin and run on between any two of
  them; the LRU cache with its reference counts, two rings, hash chains and evictions, on linked heap objects; the block
  builder and its reader on bytes; the builder of a version against installing edits one by one; filters never lose a
  key.

## What nanopb has to agree with

`PbRoundTrip.RoundTrip`: for every well-formed descriptor and every structure that can be encoded, decoding what was
encoded succeeds *if and only if* every string that is written ends within its array and every submessage and packed
array has a length of 32 bits; then it uses up all bytes and gives the structure back, up to what is not set. A `char`
array that is full, without a NUL, is encoded but not decoded again (`PbRoundTrip.FullStringIsRejected`). The encoder and
the decoder are methods on stream objects, proved equal to functions on bytes that say what every input does. What was
decoded from any bytes can be encoded and decoded again (`PbRoundTrip.DecodedRoundTrips`). The reader may have another
descriptor than the writer: it skips what it does not know, keeps its defaults for what it does not find, and refuses
the message exactly if a required field is missing (`PbRoundTrip.CompatibleRoundTrip`, `PbRecords.DecodesExactly`).

## How things are represented

* User keys are real numbers. LevelDB takes the order of user keys from its user and only ever compares them, and every
  order on byte strings embeds in the reals; `Bytewise.RankEmbedsOrder` gives the embedding for the default comparator.
  Separators, which edit keys, work on bytes.
* In `Versions` and above, a table is its sorted entries. `Tables.InternalGet` and `TableBuilders.TableBuilder.Finish`
  justify that: one look at the filter and the index finds what a search of all the entries would. Blocks are bytes.
* `DBIter` moves a `Cursor` over the merge; `UserIterators.Lockstep` shows that a merging iterator is one.
* The checksum is any function with the streaming law of CRC-32C; the hash of the Bloom filter, the sizes that a table
  builder reports, the heights of the skip list, the schedule of its reader, the level that is too big and the file that
  was sought in vain are parameters.
* A file is a sequence of bytes. Integers are unbounded unless the width matters; then reduction and range are explicit
  (masks, varints, fixed-width words, counts and lengths of 32 bits).
* A nanopb structure has one cell for each field, the members of a union sharing one. `PbFields.OffsetsTellCellsApart`
  ties cells to the offsets that the field iterator computes. nanopb is built with PB_FIELD_32BIT, as the generated
  sources of the repository require.

Where a comment and the code differ, the model follows the code. `DBIter` in reverse is said to stand just before all
entries of the current key (db/db_iter.cc:41-45); it may stand further back, over entries that cannot be seen, and the
invariant `Behind` says so. `VersionEdit::Clear` does not clear the compaction pointers, so that decoding into a used
object appends to them (`VersionEdits.EditRoundTrip`).

## Model

| member | source | states |
|---|---|---|
| Bytewise.RankEmbedsOrder | TasksTracker/Pods/leveldb-library/util/comparator.cc:25-27 | bytewise order of strings is the order of their ranks, and equal ranks mean equal strings |
| InternalKeys.Compare | TasksTracker/Pods/leveldb-library/db/dbformat.cc:51-67 | the sign of the comparison is the order by user key ascending, then tag descending; 0 only for equal keys |
| InternalKeys.LookupKeySplits | TasksTracker/Pods/leveldb-library/db/dbformat.h:53-59 | seeking with the lookup key of (u, s) skips exactly the entries of u that are newer than s |
| History.ReadIsNewest | TasksTracker/Pods/leveldb-library/db/memtable.cc:100-134 | if keys are unique, any newest visible entry decides a read |
| History.ReadDependsOnVisible | TasksTracker/Pods/leveldb-library/db/memtable.cc:100-134 | stores that agree on the visible entries of a key answer a read of it alike |
| Versions.TableGetIsNewest | TasksTracker/Pods/leveldb-library/db/version_set.cc:263-276 | the entry a seek lands on is the newest visible one of the user key, or there is none |
| Versions.FindFile | TasksTracker/Pods/leveldb-library/db/version_set.cc:88-106 | binary search finds the first file whose largest key is not before the key sought |
| Versions.GetLevel0 | TasksTracker/Pods/leveldb-library/db/version_set.cc:347-363 | newest file first, stopping at the first hit, gives the newest visible entry of level 0 |
| Versions.GetSortedLevel | TasksTracker/Pods/leveldb-library/db/version_set.cc:364-382 | looking into a single file gives the newest visible entry of a sorted level, or says that there is none |
| Versions.HitIsNewest | TasksTracker/Pods/leveldb-library/db/version_set.cc:326-421 | the first level that answers has the newest entry of all levels |
| Versions.Get | TasksTracker/Pods/leveldb-library/db/version_set.cc:326-421 | level by level with early stop, the answer is that of a read over all entries of the version |
| Versions.ShapeKeysUnique | TasksTracker/Pods/leveldb-library/db/version_set.cc:326-421 | in a version of legal shape no two entries share an internal key |
| InputSelection.SomeFileOverlapsRange | TasksTracker/Pods/leveldb-library/db/version_set.cc:122-158 | one binary search answers exactly whether any file of a level overlaps a range |
| InputSelection.GetOverlappingInputs | TasksTracker/Pods/leveldb-library/db/version_set.cc:519-559 | deeper levels: the overlapping files in order; level 0: the restarts end in the least set of files that is closed under overlap and covers the range |
| InputSelection.PickLevelForMemTableOutput | TasksTracker/Pods/leveldb-library/db/version_set.cc:491-516 | the level picked and all above are free of overlap; it stops exactly where overlap or too many grandparent bytes begin |
| InputSelection.FindLargestKey | TasksTracker/Pods/leveldb-library/db/version_set.cc:1326-1339 | the largest of all largest keys, or nothing for no files |
| InputSelection.FindSmallestBoundaryFile | TasksTracker/Pods/leveldb-library/db/version_set.cc:1344-1368 | of the files that continue the user key, the one with the smallest start, or none exactly if there are none |
| InputSelection.AddBoundaryInputs | TasksTracker/Pods/leveldb-library/db/version_set.cc:1378-1401 | terminates; adds, one after the other, the smallest file that continues the last user key, until there is none; consecutive files stay consecutive |
| InputSelection.GetRange | TasksTracker/Pods/leveldb-library/db/version_set.cc:1205-1222 | the smallest and the largest key of the inputs |
| InputSelection.SetupOtherInputs | TasksTracker/Pods/leveldb-library/db/version_set.cc:1403-1462 | inputs of the level settled (closed and without boundary files), all files of the next level that touch them, and grandparents; the level inputs grow exactly if looking again finds more, within the size limit and with no further file of the next level; the compaction pointer is the largest key of the inputs |
| InputSelection.GrowInputs | TasksTracker/Pods/leveldb-library/db/version_set.cc:1417-1447 | more inputs of the level exactly if there are more, not too many bytes, and the same inputs of the next |
| InputSelection.PickCompaction | TasksTracker/Pods/leveldb-library/db/version_set.cc:1270-1322 | in a level that is too big the first file past the compaction pointer, else the first; without one, the file sought in vain; in level 0 with everything that overlaps it; nothing exactly if there is neither |
| InputSelection.CompactRange | TasksTracker/Pods/leveldb-library/db/version_set.cc:1464-1495 | the files in the range, cut short after the one that fills up a table, except in level 0; nothing only if nothing overlaps |
| Compactions.SelectionIsValid | TasksTracker/Pods/leveldb-library/db/version_set.cc:1403-1447 | the files that SetupOtherInputs picks are legal inputs: nothing left behind in the level is older, nothing left beside interleaves |
| Compactions.InstallKeepsShape | TasksTracker/Pods/leveldb-library/db/db_impl.cc:860-876 | taking out the inputs and putting in the outputs keeps the shape of every level and the order between levels |
| Compactions.CompactionKeepsReads | TasksTracker/Pods/leveldb-library/db/db_impl.cc:906-999 | all reads at the oldest snapshot or later stay the same if and only if no user key is resurrected |
| Compactions.ResurrectionChangesRead | TasksTracker/Pods/leveldb-library/db/db_impl.cc:906-999 | a resurrected key reads as absent before and as found after the compaction |
| Compactions.UnsharedKeysAreSafe | TasksTracker/Pods/leveldb-library/db/version_set.cc:1533-1552 | if no unread file of the next level shares a user key with the inputs, nothing is resurrected |
| Compactions.DroppedNewestIsMarker | TasksTracker/Pods/leveldb-library/db/db_impl.cc:935-963 | if the newest visible entry of a key is dropped, it is a deletion marker of a key that no deeper level covers |
| CompactionWork.Compaction.IsBaseLevelForKey | TasksTracker/Pods/leveldb-library/db/version_set.cc:1533-1552 | the pointers that only move on answer like a full scan of the deeper levels, because keys arrive in order |
| CompactionWork.Compaction.ShouldStopBefore | TasksTracker/Pods/leveldb-library/db/version_set.cc:1554-1576 | counts the grandparents passed since the output was started, and says stop exactly when they exceed the limit |
| CompactionWork.Compaction.CountEntry | TasksTracker/Pods/leveldb-library/db/version_set.cc:1554-1576 | called for one entry after the other, stops exactly where the grandparents that end between the last stop and this entry are too many |
| CompactionWork.ShouldDrop | TasksTracker/Pods/leveldb-library/db/db_impl.cc:930-963 | drops an entry exactly by the two rules: hidden by an entry old enough, or a needless deletion marker |
| CompactionWork.DoCompactionWork | TasksTracker/Pods/leveldb-library/db/db_impl.cc:878-1040 | the output tables hold exactly the entries not dropped, in order, under fresh numbers; each ends as soon as it is full or the grandparents passed since the last stop are too many, and for no other reason |
| CompactionWork.SurvivorsAreTheRest | TasksTracker/Pods/leveldb-library/db/db_impl.cc:906-999 | an entry survives if and only if it is an input and not obsolete, though the loop looks only at the entry before it |
| CompactionWork.AtMaxSequenceAllIsLost | TasksTracker/Pods/leveldb-library/db/db_impl.cc:901-946 | at the largest sequence number the sentinel for no previous entry would make the loop drop everything |
| CompactionWork.CutsAreDisjoint | TasksTracker/Pods/leveldb-library/db/db_impl.cc:974-996 | tables cut from sorted output are well-formed and disjoint |
| CompactionWork.WorkIsSound | TasksTracker/Pods/leveldb-library/db/db_impl.cc:878-1040 | the tables built are valid outputs that hold all but the obsolete entries |
| Resurrection.DeletedKeyComesBack | TasksTracker/Pods/leveldb-library/db/version_set.cc:1403-1447 | a version of legal shape, the selection of inputs, and the compaction after which a deleted key is found again |
| Resurrection.VersionIsReached | TasksTracker/Pods/leveldb-library/db/db_impl.cc:491-566 | three flushes, each to the level that is picked for it, and one compaction lead from the empty database to that version |
| Resurrection.SelectionIsForced | TasksTracker/Pods/leveldb-library/db/version_set.cc:1403-1462 | in that version the selection of inputs is the only one possible |
| Resurrection.OneEntrySurvives | TasksTracker/Pods/leveldb-library/db/db_impl.cc:906-999 | and its merge keeps one entry, not the deletion marker |
| Manifest.InsertFile | TasksTracker/Pods/leveldb-library/db/version_set.cc:592-605 | an ordered insert into the added files keeps them listed by smallest key |
| Manifest.Builder.Apply | TasksTracker/Pods/leveldb-library/db/version_set.cc:650-692 | after any number of edits the builder stands for installing them one by one |
| Manifest.Builder.SaveTo | TasksTracker/Pods/leveldb-library/db/version_set.cc:695-754 | each level comes out listed by smallest key with exactly the files that installing the edits one by one leaves |
| Manifest.ApplyEdit | TasksTracker/Pods/leveldb-library/db/version_set.cc:801-884 | the version installed for one edit |
| Manifest.ReplayEdits | TasksTracker/Pods/leveldb-library/db/version_set.cc:924-1000 | the version recovered from all edits at once |
| Manifest.ReplayIsStepwise | TasksTracker/Pods/leveldb-library/db/version_set.cc:924-1000 | replaying one more edit gives the very lists that installing it on top gives |
| Manifest.OneListing | TasksTracker/Pods/leveldb-library/db/version_set.cc:592-605 | a level is determined by its files: there is one listing by smallest key |
| VersionEdits.VersionEdit.Clear | TasksTracker/Pods/leveldb-library/db/version_edit.cc:26-39 | resets everything except the compaction pointers |
| VersionEdits.VersionEdit.EncodeTo | TasksTracker/Pods/leveldb-library/db/version_edit.cc:41-85 | appends the records of the edit in the order of the code |
| VersionEdits.VersionEdit.DecodeFrom | TasksTracker/Pods/leveldb-library/db/version_edit.cc:107-205 | reads records until the end or the first error, with the status of that error and the records before it kept |
| VersionEdits.BodyBack | TasksTracker/Pods/leveldb-library/db/version_edit.cc:107-205 | each kind of record, in front of other bytes, is read back with nothing else consumed |
| VersionEdits.TruncatedRecordFails | TasksTracker/Pods/leveldb-library/db/version_edit.cc:107-205 | a record that has lost its end is an error, and which one its kind tells |
| VersionEdits.BadLevelOrTag | TasksTracker/Pods/leveldb-library/db/version_edit.cc:87-205 | a level beyond the last and a tag of no record are errors |
| VersionEdits.BadTag | TasksTracker/Pods/leveldb-library/db/version_edit.cc:190-203 | and so are bytes in which no tag can be read |
| VersionEdits.BytesOfRecords | TasksTracker/Pods/leveldb-library/db/version_edit.cc:41-85 | the bytes of each kind of record, with its tag |
| VersionEdits.EditRoundTrip | TasksTracker/Pods/leveldb-library/db/version_edit.cc:41-205 | decoding an encoded edit gives that edit, its compaction pointers after those the object had |
| VersionEdits.FreshRoundTrip | TasksTracker/Pods/leveldb-library/db/version_edit.cc:41-205 | decoding into a fresh object gives exactly what was encoded |
| Recovery.VersionSet.LogAndApply | TasksTracker/Pods/leveldb-library/db/version_set.cc:801-884 | the edit, with its own log numbers where it has them and the current numbers otherwise, is logged, after a snapshot if the manifest is new; the version it leads to and its log numbers are in force |
| Recovery.VersionSet.WriteSnapshot | TasksTracker/Pods/leveldb-library/db/version_set.cc:1088-1116 | one record that leads from nothing to the current version |
| Recovery.VersionSet.Recover | TasksTracker/Pods/leveldb-library/db/version_set.cc:886-1000 | on any records, the first error, or the version and the numbers that all the edits lead to, ready for the next edit to be logged |
| Recovery.Reopen | TasksTracker/Pods/leveldb-library/db/version_set.cc:886-1000 | from a manifest cut anywhere, the version, log numbers and last sequence number in force after its last complete edit, and a next file number beyond the one then in use |
| Recovery.SnapshotLeads | TasksTracker/Pods/leveldb-library/db/version_set.cc:1088-1116 | an edit that adds every file of a version leads to exactly that version |
| Recovery.Stepwise | TasksTracker/Pods/leveldb-library/db/version_set.cc:801-884 | installing an edit on top of a version is replaying it after the edits that led there |
| Recovery.LeadsToOne | TasksTracker/Pods/leveldb-library/db/version_set.cc:695-754 | edits lead to one version only |
| Recovery.TornManifestRecovers | TasksTracker/Pods/leveldb-library/db/version_set.cc:886-1000 | from a manifest cut anywhere, recovery leads to the very version in force after its last complete record, with that record's numbers; it fails if no record is complete |
| Flushes.FlushKeepsShape | TasksTracker/Pods/leveldb-library/db/db_impl.cc:491-533 | a table newer than all others, put at a level with nothing in its range up to there, keeps the shape |
| Merging.MergeTablesSorted | TasksTracker/Pods/leveldb-library/table/merger.cc:148-161 | merging tables without common keys gives all their entries in order |
| Merging.OneSorting | TasksTracker/Pods/leveldb-library/table/merger.cc:148-161 | sorted sequences with the same entries are the same |
| Engine.DBImpl.Get | TasksTracker/Pods/leveldb-library/db/db_impl.cc:1100-1145 | memtable, immutable memtable, then version: the answer is the read over everything stored, and over the history while reads agree |
| Engine.MemAnswers | TasksTracker/Pods/leveldb-library/db/db_impl.cc:1112-1136 | a hit in the memtable is the newest of all; a miss leaves the read to the layers below |
| Engine.DBImpl.Write | TasksTracker/Pods/leveldb-library/db/db_impl.cc:1185-1256 | a batch adds its entries under the next sequence numbers, to the store and to the history alike |
| Engine.DBImpl.SwitchMemTable | TasksTracker/Pods/leveldb-library/db/db_impl.cc:1345-1367 | the full memtable becomes the immutable one; nothing stored changes |
| Engine.DBImpl.GetSnapshot | TasksTracker/Pods/leveldb-library/db/snapshot.h:57-72 | a snapshot of the last sequence number joins the list at its end |
| Engine.DBImpl.ReleaseSnapshot | TasksTracker/Pods/leveldb-library/db/snapshot.h:79-90 | one snapshot leaves the list; the oldest live one still bounds what compactions may hide |
| Engine.DBImpl.CompactMemTable | TasksTracker/Pods/leveldb-library/db/db_impl.cc:535-566 | the immutable memtable becomes a table at the level picked for it, or none if it is empty; everything stored and all reads stay |
| Engine.FlushKeepsAll | TasksTracker/Pods/leveldb-library/db/db_impl.cc:491-533 | a flush changes neither the layering nor what is stored |
| Engine.DBImpl.BackgroundCompaction | TasksTracker/Pods/leveldb-library/db/db_impl.cc:688-767 | first a flush if there is an immutable memtable, else a compaction from the files in the range asked for, or from those picked, which moves or merges and sets the compaction pointer; reads agree afterwards if nothing was resurrected |
| Engine.DBImpl.RunCompaction | TasksTracker/Pods/leveldb-library/db/db_impl.cc:712-748 | picks the other inputs, then moves exactly a single file without too many grandparents, and merges otherwise; shape and numbering are kept, and reads agree if nothing was resurrected |
| Engine.DBImpl.TrivialMove | TasksTracker/Pods/leveldb-library/db/db_impl.cc:718-728 | the one file moves down a level; nothing stored changes |
| Engine.DBImpl.MergeInputs | TasksTracker/Pods/leveldb-library/db/db_impl.cc:878-1040 | the merged inputs are replaced by the outputs of the merge at the smallest snapshot |
| Engine.DBImpl.InstallOutputs | TasksTracker/Pods/leveldb-library/db/db_impl.cc:860-876 | the version edit takes out the inputs and adds the outputs under fresh numbers |
| Engine.CompactionKeepsAll | TasksTracker/Pods/leveldb-library/db/db_impl.cc:906-999 | a compaction without resurrection keeps every read that a live snapshot can make equal to the history |
| Engine.MoveKeepsAll | TasksTracker/Pods/leveldb-library/db/db_impl.cc:718-728 | a trivial move keeps layering and contents |
| Engine.InputsMerge | TasksTracker/Pods/leveldb-library/db/version_set.cc:1229-1268 | the inputs of a compaction merge into one sorted sequence of exactly their entries |
| DBIterators.DBIter.Next | TasksTracker/Pods/leveldb-library/db/db_iter.cc:141-166 | from either direction, on to the next visible key, keeping the invariant of the direction |
| DBIterators.DBIter.FindNextUserEntry | TasksTracker/Pods/leveldb-library/db/db_iter.cc:168-198 | stops at the first entry that is shown past the skipped key, or finds that there is none |
| DBIterators.DBIter.Prev | TasksTracker/Pods/leveldb-library/db/db_iter.cc:200-225 | from either direction, back to the visible key before, or off the front |
| DBIterators.DBIter.FindPrevUserEntry | TasksTracker/Pods/leveldb-library/db/db_iter.cc:227-267 | leaves the saved key and value of the last entry shown at or before the start, having passed all its older entries |
| DBIterators.DBIter.Seek | TasksTracker/Pods/leveldb-library/db/db_iter.cc:269-281 | the first visible key at or after the one sought |
| DBIterators.DBIter.SeekToFirst | TasksTracker/Pods/leveldb-library/db/db_iter.cc:283-292 | the first visible key, if there is any |
| DBIterators.DBIter.SeekToLast | TasksTracker/Pods/leveldb-library/db/db_iter.cc:294-299 | the last visible key, if there is any |
| DBIterators.DBIter.Key | TasksTracker/Pods/leveldb-library/db/db_iter.cc:64-67 | the key shown is that of the cursor position in the visible keys |
| DBIterators.DBIter.Value | TasksTracker/Pods/leveldb-library/db/db_iter.cc:68-71 | and so is the value |
| DBIterators.ViewIsAllReads | TasksTracker/Pods/leveldb-library/db/db_iter.cc:168-198 | walking the visible keys meets a key with a value if and only if a point read finds that value |
| UserIterators.StoreMerges | TasksTracker/Pods/leveldb-library/db/db_impl.cc:1062-1087 | everything stored can be merged, into one sorted sequence of exactly what is stored |
| UserIterators.LevelIsIndexed | TasksTracker/Pods/leveldb-library/db/version_set.cc:222-246 | the files of a deeper level, with their largest keys as index, are one long table for a concatenating iterator |
| UserIterators.NewInternalIterator | TasksTracker/Pods/leveldb-library/db/db_impl.cc:1062-1087 | a merging iterator over exactly what is stored |
| UserIterators.Lockstep | TasksTracker/Pods/leveldb-library/table/merger.cc:31-128 | through any calls, a merging iterator stays where a cursor over the merge is |
| UserIterators.NewIterator | TasksTracker/Pods/leveldb-library/db/db_impl.cc:1147-1157 | the user's iterator shows exactly the keys and values that point reads find, in what is stored and, while reads agree, in the history |
| MergingIterators.MergingIterator.SeekToFirst | TasksTracker/Pods/leveldb-library/table/merger.cc:31-37 | at the first entry of the merge |
| MergingIterators.MergingIterator.SeekToLast | TasksTracker/Pods/leveldb-library/table/merger.cc:39-45 | at the last entry of the merge |
| MergingIterators.MergingIterator.Seek | TasksTracker/Pods/leveldb-library/table/merger.cc:47-53 | at the first entry of the merge at or after the target |
| MergingIterators.MergingIterator.Next | TasksTracker/Pods/leveldb-library/table/merger.cc:55-79 | one entry on in the merge, also after moving backwards |
| MergingIterators.MergingIterator.Prev | TasksTracker/Pods/leveldb-library/table/merger.cc:81-108 | one entry back in the merge, also after moving forwards |
| MergingIterators.MergingIterator.SwitchToForward | TasksTracker/Pods/leveldb-library/table/merger.cc:63-74 | turning round places every other child just after the current key; the position stays |
| MergingIterators.MergingIterator.SwitchToReverse | TasksTracker/Pods/leveldb-library/table/merger.cc:89-104 | turning round places every other child just before the current key; the position stays |
| MergingIterators.MergingIterator.FindSmallest | TasksTracker/Pods/leveldb-library/table/merger.cc:148-161 | the least of the children's entries is the entry of the merge just after the cut |
| MergingIterators.MergingIterator.FindLargest | TasksTracker/Pods/leveldb-library/table/merger.cc:163-176 | the greatest is the one just before the cut |
| MergingIterators.SplitsMove | TasksTracker/Pods/leveldb-library/table/merger.cc:55-108 | moving the cut over one entry of the merge moves only the child that holds it |
| SkipLists.SkipList.FindGreaterOrEqual | TasksTracker/Pods/leveldb-library/db/skiplist.h:260-282 | the first node at or after a key, and for each level the last node before it |
| SkipLists.SkipList.FindLessThan | TasksTracker/Pods/leveldb-library/db/skiplist.h:285-302 | the last node before a key, or the head |
| SkipLists.SkipList.FindLast | TasksTracker/Pods/leveldb-library/db/skiplist.h:305-322 | the last node, or the head of an empty list |
| SkipLists.SkipList.Contains | TasksTracker/Pods/leveldb-library/db/skiplist.h:371-378 | true exactly for the keys in the list |
| SkipLists.SkipList.PrepareLink | TasksTracker/Pods/leveldb-library/db/skiplist.h:362-366 | storing the new node's own link changes no list |
| SkipLists.SkipList.PublishLink | TasksTracker/Pods/leveldb-library/db/skiplist.h:362-366 | publishing it adds the node to the list of that level, which stays a sorted part of the one below |
| SkipLists.SkipList.LinkLevel | TasksTracker/Pods/leveldb-library/db/skiplist.h:362-366 | one round of linking, a reader running before each of its two stores |
| SkipLists.SkipList.Insert | TasksTracker/Pods/leveldb-library/db/skiplist.h:336-368 | for any height the list gains exactly the key; a reader's search stays right, whenever it began and however it runs between the link stores |
| SkipLists.Search.Step | TasksTracker/Pods/leveldb-library/db/skiplist.h:260-282 | one link load of a search: it stays right, and gets nearer to the end |
| SkipLists.Search.Survives | TasksTracker/Pods/leveldb-library/db/skiplist.h:260-282 | a search under way is still right after the lists have grown: it finds every key that was there when it began |
| HandleTables.HandleTable.Lookup | TasksTracker/Pods/leveldb-library/util/cache.cc:74-76 | the handle with the key and hash, if the table has one |
| HandleTables.HandleTable.FindPointer | TasksTracker/Pods/leveldb-library/util/cache.cc:114-120 | the slot that leads to the handle with the key, or the end of its chain if no chain has it |
| HandleTables.MaskIsRemainder | TasksTracker/Pods/leveldb-library/util/cache.cc:115-115 | the lengths being powers of two, the mask gives the remainder, so a hash leads to its bucket |
| HandleTables.HandleTable.Insert | TasksTracker/Pods/leveldb-library/util/cache.cc:78-92 | the handle replaces the one with its key, or is added, the table growing to the least power of two that has room exactly when it is full; nothing else changes |
| HandleTables.HandleTable.Remove | TasksTracker/Pods/leveldb-library/util/cache.cc:94-101 | takes out exactly the handle with the key |
| HandleTables.HandleTable.Resize | TasksTracker/Pods/leveldb-library/util/cache.cc:122-147 | all handles move to their buckets in the longer list; the set of handles stays |
| Caches.LRUCache.Ref | TasksTracker/Pods/leveldb-library/util/cache.cc:217-223 | one more reference; an entry that only the cache referred to moves to the in-use ring |
| Caches.LRUCache.Unref | TasksTracker/Pods/leveldb-library/util/cache.cc:225-237 | one reference less: the last runs the deleter, the last but one of a cached entry makes it the newest of the LRU ring |
| Caches.LRUCache.LRU_Remove | TasksTracker/Pods/leveldb-library/util/cache.cc:239-242 | splices the entry out of whichever ring it is on; both rings stay closed and apart |
| Caches.LRUCache.LRU_Append | TasksTracker/Pods/leveldb-library/util/cache.cc:244-250 | the entry becomes the newest of a ring |
| Caches.LRUCache.Lookup | TasksTracker/Pods/leveldb-library/util/cache.cc:252-259 | a new handle on the entry, or none exactly if the key is not cached; the entry leaves the LRU order |
| Caches.LRUCache.Release | TasksTracker/Pods/leveldb-library/util/cache.cc:261-264 | gives back one handle; the deleter runs exactly if it was the last reference |
| Caches.LRUCache.Insert | TasksTracker/Pods/leveldb-library/util/cache.cc:266-303 | a handle on the new entry, an older one of the key replaced, and the oldest unused entries evicted just until there is room; what clients hold under other keys stays |
| Caches.LRUCache.EvictSurplus | TasksTracker/Pods/leveldb-library/util/cache.cc:293-300 | evicts in order of age, stopping as soon as usage fits or nothing can go; what clients hold stays |
| Caches.LRUCache.FinishErase | TasksTracker/Pods/leveldb-library/util/cache.cc:307-316 | the entry leaves ring, cache and charge; it is freed exactly if no client holds it |
| Caches.LRUCache.Erase | TasksTracker/Pods/leveldb-library/util/cache.cc:318-321 | no entry with the key stays cached, all others do |
| Caches.LRUCache.Prune | TasksTracker/Pods/leveldb-library/util/cache.cc:323-333 | exactly the entries that clients hold stay cached |
| Caches.RingRemove | TasksTracker/Pods/leveldb-library/util/cache.cc:239-242 | the two stores take one node out of a circular list |
| Caches.RingAppend | TasksTracker/Pods/leveldb-library/util/cache.cc:244-250 | the four stores put one node before the head of a circular list |
| LogFormat.UnmaskMask | TasksTracker/Pods/leveldb-library/util/crc32c.h:29-38 | unmasking a masked checksum gives it back |
| LogWriter.Writer.AddRecord | TasksTracker/Pods/leveldb-library/db/log_writer.cc:34-80 | appends the fragments of the record, block trailers and empty first fragments included |
| LogWriter.Writer.EmitPhysicalRecord | TasksTracker/Pods/leveldb-library/db/log_writer.cc:82-108 | appends one header and its payload |
| LogWriter.Writer.Append | TasksTracker/Pods/leveldb-library/db/log_writer.cc:27-30 | a log that is reopened goes on where it ends |
| LogReader.Reader.ReadPhysicalRecord | TasksTracker/Pods/leveldb-library/db/log_reader.cc:189-271 | the fragment, end of file or bad record that the bytes call for, on any file |
| LogReader.Reader.ReadRecord | TasksTracker/Pods/leveldb-library/db/log_reader.cc:56-174 | the record, and the corruption reported, that the bytes call for, on any file |
| LogRoundTrip.TornLogReadsBack | TasksTracker/Pods/leveldb-library/db/log_reader.cc:56-271 | from any prefix of a log, exactly the complete records in order, and no corruption |
| LogSoundness.OnlyStoredIsRead | TasksTracker/Pods/leveldb-library/db/log_reader.cc:56-271 | from any file, damaged or not, each record read was stored there, in one piece or in a first, middle ones and a last, one behind the other, each with a right checksum |
| LogSoundness.WrongChecksumIsReported | TasksTracker/Pods/leveldb-library/db/log_reader.cc:244-262 | a fragment with a wrong checksum is refused with the rest of its block, and that is reported |
| LogRoundTrip.CompleteMeansWritten | TasksTracker/Pods/leveldb-library/db/log_writer.cc:34-80 | a record is complete in a prefix exactly if the log up to it fits |
| LogRoundTrip.LogicalReadsBack | TasksTracker/Pods/leveldb-library/db/log_reader.cc:56-174 | one record is read back if its last fragment is all there, else the file ends |
| LogFormat.LayoutAppends | TasksTracker/Pods/leveldb-library/db/log_writer.cc:34-80 | laying out more fragments continues at the block offset reached |
| Coding.DecodeEncodeFixed32 | TasksTracker/Pods/leveldb-library/util/coding.cc:9-18 | fixed 32-bit words come back |
| Coding.DecodeEncodeFixed64 | TasksTracker/Pods/leveldb-library/util/coding.cc:20-33 | fixed 64-bit words come back |
| Coding.EncodeVarint32 | TasksTracker/Pods/leveldb-library/util/coding.cc:47-73 | each of the five branches writes the seven-bit groups of the value |
| Coding.EncodeVarint64 | TasksTracker/Pods/leveldb-library/util/coding.cc:81-90 | the loop writes the same groups |
| Coding.GetVarint32PtrFallback | TasksTracker/Pods/leveldb-library/util/coding.cc:112-128 | reads at most five bytes, as the recursive definition says, for any input |
| Coding.GetVarint64Ptr | TasksTracker/Pods/leveldb-library/util/coding.cc:142-157 | reads at most ten bytes, as the recursive definition says, for any input |
| Coding.Varint32RoundTrip | TasksTracker/Pods/leveldb-library/util/coding.cc:47-140 | a 32-bit value in front of other bytes is read back with nothing else consumed |
| Coding.Varint64RoundTrip | TasksTracker/Pods/leveldb-library/util/coding.cc:81-169 | and so is a 64-bit value |
| Coding.TruncatedVarint | TasksTracker/Pods/leveldb-library/util/coding.cc:112-157 | a varint that has lost its end cannot be read |
| Coding.TruncatedSlice | TasksTracker/Pods/leveldb-library/util/coding.cc:181-190 | nor can a length-prefixed string that has lost its end |
| Coding.BytesOfNumbers | TasksTracker/Pods/leveldb-library/util/coding.cc:9-90 | fixed words are little-endian, and varints have their lowest seven bits first |
| Coding.LengthPrefixedRoundTrip | TasksTracker/Pods/leveldb-library/util/coding.cc:181-190 | and so is a length-prefixed string |
| WriteBatches.Iterate | TasksTracker/Pods/leveldb-library/db/write_batch.cc:42-80 | hands over the operations of a batch and ends in the status that its bytes call for, for any bytes |
| WriteBatches.WriteBatch.Add | TasksTracker/Pods/leveldb-library/db/write_batch.cc:98-109 | one more operation at the end, the count kept in step |
| WriteBatches.WriteBatch.Append | TasksTracker/Pods/leveldb-library/db/write_batch.cc:144-148 | the operations of another batch at the end |
| WriteBatches.WriteBatch.SetSequence | TasksTracker/Pods/leveldb-library/db/write_batch.cc:94-96 | only the sequence number changes |
| WriteBatches.OkMeansCounted | TasksTracker/Pods/leveldb-library/db/write_batch.cc:42-80 | a batch that is read without error has as many operations as it says |
| WriteBatches.TruncatedBatchFails | TasksTracker/Pods/leveldb-library/db/write_batch.cc:42-80 | a batch that has lost its end is never taken for whole |
| WriteBatches.BytesOfRecords | TasksTracker/Pods/leveldb-library/db/write_batch.cc:98-109 | the bytes of a put and of a deletion; any other first byte is refused |
| WriteBatches.BuiltBatchReadsBack | TasksTracker/Pods/leveldb-library/db/write_batch.cc:42-148 | a batch that was built reads back as the operations it was built from |
| GroupCommit.WriteQueue.Enqueue | TasksTracker/Pods/leveldb-library/db/db_impl.cc:1185-1202 | a writer joins the end of the queue |
| GroupCommit.WriteQueue.BuildBatchGroup | TasksTracker/Pods/leveldb-library/db/db_impl.cc:1260-1306 | the group is the longest run of writers up to 1 MB, or 128 KB more than a small leader; no sync writer joins a leader without sync; batches stay as they were |
| GroupCommit.WriteQueue.CommitGroup | TasksTracker/Pods/leveldb-library/db/db_impl.cc:1185-1256 | after a memtable switch if it is called for, the group is logged and applied once, in queue order, under the next sequence numbers, and leaves the queue |
| GroupCommit.WriteQueue.LogAndInsert | TasksTracker/Pods/leveldb-library/db/db_impl.cc:1205-1236 | log, memtable and last sequence number advance by the same operations |
| GroupCommit.WriteQueue.SwitchMemTable | TasksTracker/Pods/leveldb-library/db/db_impl.cc:1345-1367 | the memtable and its log become the immutable ones, and a new log goes on with the next number |
| GroupCommit.WriteQueue.FlushImm | TasksTracker/Pods/leveldb-library/db/db_impl.cc:535-566 | what was in the immutable memtable is in a table; every committed group is still in a table or in a log in force |
| GroupCommit.WriteQueue.CrashRecovers | TasksTracker/Pods/leveldb-library/db/db_impl.cc:334-365 | whatever a crash has left of the logs in force is rebuilt; without damage, both memtables and the last sequence number |
| GroupCommit.RecoverLogFile | TasksTracker/Pods/leveldb-library/db/db_impl.cc:418-453 | replays records as far as the status allows, each under the sequence number it carries, on top of what older logs have given |
| GroupCommit.RecoverLogs | TasksTracker/Pods/leveldb-library/db/db_impl.cc:334-365 | replays the logs in order up to the first failure, and raises the last sequence number to the largest found |
| GroupCommit.ReplayRebuilds | TasksTracker/Pods/leveldb-library/db/db_impl.cc:418-439 | replaying the first k records of any log adds the entries of its first k groups, and their last sequence number |
| GroupCommit.TornLogRecovers | TasksTracker/Pods/leveldb-library/db/db_impl.cc:371-489 | from a log cut anywhere, reading and replaying after older logs adds whole groups, a prefix of its memtable; all of it if nothing is cut |
| GroupCommit.TornLogsRecover | TasksTracker/Pods/leveldb-library/db/db_impl.cc:334-365 | from logs that follow one another, each cut anywhere, the complete groups of each are rebuilt under their numbers |
| GroupCommit.WholeLogsRecover | TasksTracker/Pods/leveldb-library/db/db_impl.cc:334-365 | from logs that are whole, all their operations are rebuilt under consecutive numbers, and the last number |
| FileLifetimes.StepKeepsInv | TasksTracker/Pods/leveldb-library/db/db_impl.cc:535-876 | every step of every interleaving, a crash with recovery included, keeps the invariant of versions, tables and what they hold, logs, manifest and file numbers |
| FileLifetimes.RunIsSafe | TasksTracker/Pods/leveldb-library/db/db_impl.cc:223-278 | along every run, through any number of crashes, held versions keep their tables, outputs are kept, new files get new numbers; the tables of the manifest hold what was flushed, the logs kept hold the rest, and the current version with the memtables holds every write, but for those that compactions have dropped |
| FileLifetimes.ReopenRecovers | TasksTracker/Pods/leveldb-library/db/db_impl.cc:284-489 | after a crash the database has what the manifest's tables have and what is left in the logs, in order and once; without damage, every write |
| FileLifetimes.ReplayIsUnflushed | TasksTracker/Pods/leveldb-library/db/db_impl.cc:371-489 | recovery replays exactly the writes that are not in a table of the manifest, in order |
| FileLifetimes.AFlush | TasksTracker/Pods/leveldb-library/db/db_impl.cc:535-566 | one write on its way into table 3, state by state |
| FileLifetimes.ACompaction | TasksTracker/Pods/leveldb-library/db/db_impl.cc:712-748 | and that table being compacted into table 4 |
| FileLifetimes.AMove | TasksTracker/Pods/leveldb-library/db/db_impl.cc:718-728 | or moved |
| FileLifetimes.OnlyCompactionsDrop | TasksTracker/Pods/leveldb-library/db/db_impl.cc:860-876 | a write is dropped only by a compaction, out of the tables of the current version |
| FileLifetimes.CanSettle | TasksTracker/Pods/leveldb-library/db/db_impl.cc:688-767 | the background work never gets stuck: from every state a run leads to where nothing is left to flush or compact |
| FileLifetimes.CollectsLogsExactly | TasksTracker/Pods/leveldb-library/db/db_impl.cc:243-246 | of the logs, just those of the memtables are left, as they are |
| FileLifetimes.CollectsExactly | TasksTracker/Pods/leveldb-library/db/db_impl.cc:223-278 | a table is kept exactly if a held version lists it or a compaction is writing it |
| FileLifetimes.DeleteObsoleteFiles | TasksTracker/Pods/leveldb-library/db/db_impl.cc:223-278 | of the names found, exactly the files that the rules keep are kept |
| FileLifetimes.RefCounts | TasksTracker/Pods/leveldb-library/db/version_set.cc:474-483 | a reference adds one holder to one version |
| FileLifetimes.UnrefCounts | TasksTracker/Pods/leveldb-library/db/version_set.cc:476-483 | the last reference takes the version off the list |
| FileLifetimes.AppendCounts | TasksTracker/Pods/leveldb-library/db/version_set.cc:784-799 | the new version is referenced, and the old current one let go |
| Blocks.BlockBuilder.Add | TasksTracker/Pods/leveldb-library/table/block_builder.cc:72-106 | one more entry, with its prefix shared and a restart point every interval |
| Blocks.BlockBuilder.Finish | TasksTracker/Pods/leveldb-library/table/block_builder.cc:62-70 | the entries, their restart array and its length, laid out as bytes |
| BlockIters.EntryAt | TasksTracker/Pods/leveldb-library/table/block_builder.cc:72-106 | where the bytes of entry i lie in the block |
| BlockFormat.DecodeHeader | TasksTracker/Pods/leveldb-library/table/block.cc:54-74 | the three lengths are read back, if there are as many bytes as they say, and refused otherwise |
| BlockIters.DecodeAt | TasksTracker/Pods/leveldb-library/table/block.cc:54-74 | decoding at the offset of entry i finds its lengths, the rest of its key and its value |
| BlockIters.Iter.Next | TasksTracker/Pods/leveldb-library/table/block.cc:137-140 | one entry on |
| BlockIters.Iter.Prev | TasksTracker/Pods/leveldb-library/table/block.cc:142-161 | one entry back, by way of the restart point before |
| BlockIters.Iter.Seek | TasksTracker/Pods/leveldb-library/table/block.cc:163-201 | the first entry at or after the target, by binary search over restart points and a scan |
| BlockIters.Iter.SeekToFirst | TasksTracker/Pods/leveldb-library/table/block.cc:203-206 | the first entry |
| BlockIters.Iter.SeekToLast | TasksTracker/Pods/leveldb-library/table/block.cc:208-214 | the last entry |
| BlockIters.Iter.ParseNextKey | TasksTracker/Pods/leveldb-library/table/block.cc:224-251 | the next entry's key put together from what it shares |
| BlockIters.Iter.Value | TasksTracker/Pods/leveldb-library/table/block.cc:132-135 | the value is that of the current entry |
| Separators.FindShortestSeparator | TasksTracker/Pods/leveldb-library/util/comparator.cc:29-50 | in between start and limit; changed exactly if there is room where they part, and then as short as anything in between can be |
| Separators.FindShortSuccessor | TasksTracker/Pods/leveldb-library/util/comparator.cc:52-64 | at or after the key; unchanged exactly for a run of 0xff, else as short as anything after the key can be |
| Separators.InternalSeparator | TasksTracker/Pods/leveldb-library/db/dbformat.cc:69-86 | the last key itself, or the earliest entry of a shorter user key that lies strictly between; which of the two is decided exactly |
| Separators.InternalSuccessor | TasksTracker/Pods/leveldb-library/db/dbformat.cc:88-101 | not before the key; the earliest entry of a shorter user key exactly if one can be had |
| Tables.SeekThroughIndex | TasksTracker/Pods/leveldb-library/table/two_level_iterator.cc:82-87 | seeking in the index and then in one block lands where seeking in all entries would |
| Tables.InternalGet | TasksTracker/Pods/leveldb-library/table/table.cc:216-244 | one look at the block that the index leads to, or none exactly if the filter hides it, gives what searching all entries of the table gives |
| Tables.HiddenHasNothing | TasksTracker/Pods/leveldb-library/table/table.cc:222-225 | a block that the filter hides has no entry of the user key sought |
| Tables.BloomIsLossless | TasksTracker/Pods/leveldb-library/db/dbformat.cc:105-119 | the Bloom policy on user keys loses none |
| Tables.TwoLevelIterator.Seek | TasksTracker/Pods/leveldb-library/table/two_level_iterator.cc:82-87 | at the first entry of the whole table at or after the target, empty blocks skipped |
| Tables.TwoLevelIterator.SeekToFirst | TasksTracker/Pods/leveldb-library/table/two_level_iterator.cc:89-94 | at the first entry of the whole table |
| Tables.TwoLevelIterator.SeekToLast | TasksTracker/Pods/leveldb-library/table/two_level_iterator.cc:96-101 | at the last entry of the whole table |
| Tables.TwoLevelIterator.Next | TasksTracker/Pods/leveldb-library/table/two_level_iterator.cc:103-107 | one entry on in the whole table |
| Tables.TwoLevelIterator.Prev | TasksTracker/Pods/leveldb-library/table/two_level_iterator.cc:109-113 | one entry back in the whole table |
| Tables.TwoLevelIterator.SkipEmptyDataBlocksForward | TasksTracker/Pods/leveldb-library/table/two_level_iterator.cc:115-126 | past blocks with nothing left, without losing the position |
| Tables.TwoLevelIterator.SkipEmptyDataBlocksBackward | TasksTracker/Pods/leveldb-library/table/two_level_iterator.cc:128-139 | and backwards |
| TableBuilders.TableBuilder.Add | TasksTracker/Pods/leveldb-library/table/table_builder.cc:94-123 | the entry joins the last block or starts a new one, deciding the index key of the block before; the block is closed exactly when it is big enough |
| TableBuilders.TableBuilder.Flush | TasksTracker/Pods/leveldb-library/table/table_builder.cc:125-139 | the block is closed, its index entry pending |
| TableBuilders.TableBuilder.Finish | TasksTracker/Pods/leveldb-library/table/table_builder.cc:198-253 | blocks that hold the entries in order, with an index that finds the right one and splits no user key, for any flush points |
| BloomFilters.BloomFilterPolicy.CreateFilter | TasksTracker/Pods/leveldb-library/util/bloom.cc:28-54 | appends the filter in which the probes of all keys are set |
| BloomFilters.BloomFilterPolicy.KeyMayMatch | TasksTracker/Pods/leveldb-library/util/bloom.cc:56-80 | true exactly if every probe of the key hits, or the filter is of a newer kind |
| BloomFilters.KeysSet | TasksTracker/Pods/leveldb-library/util/bloom.cc:43-53 | a bit of the filter is set if and only if a key asks for it |
| BloomFilters.FilterMatches | TasksTracker/Pods/leveldb-library/util/bloom.cc:28-80 | a key may match exactly if all its bits are asked for by the keys; so no key is ever lost |
| FilterBlocks.FilterBlockBuilder.StartBlock | TasksTracker/Pods/leveldb-library/table/filter_block.cc:21-27 | filters are made up to the 2 KB of the new block; every key added stays where the reader will look for it |
| FilterBlocks.FilterBlockBuilder.AddKey | TasksTracker/Pods/leveldb-library/table/filter_block.cc:29-33 | the key belongs to the current block |
| FilterBlocks.FilterBlockBuilder.GenerateFilter | TasksTracker/Pods/leveldb-library/table/filter_block.cc:51-75 | the keys waiting become one more filter |
| FilterBlocks.FilterBlockBuilder.Finish | TasksTracker/Pods/leveldb-library/table/filter_block.cc:35-49 | the filters, their offsets, the offset of those and the base; every key added has a filter |
| FilterBlocks.ReaderAsksFilter | TasksTracker/Pods/leveldb-library/table/filter_block.cc:77-104 | the reader asks exactly the filter that was made for the 2 KB of the offset, and past the end answers yes |
| FilterBlocks.NeverLosesAKey | TasksTracker/Pods/leveldb-library/table/filter_block.cc:21-104 | a key added to a block may match that block, if the policy loses none |
| FilterBlocks.BloomBlockNeverHides | TasksTracker/Pods/leveldb-library/db/dbformat.cc:105-119 | with Bloom filters on user keys, no block is passed over that holds an entry of the user key looked up |
| PbFields.FieldIter.Begin | TasksTracker/Pods/nanopb/pb_common.c:8-18 | at the first field; false for an empty descriptor |
| PbFields.FieldIter.Next | TasksTracker/Pods/nanopb/pb_common.c:20-76 | the next field with its offsets and its number among the required ones; false on coming round to the first |
| PbFields.FieldIter.Find | TasksTracker/Pods/nanopb/pb_common.c:78-95 | the field with the tag, wherever the search starts; if there is none it comes back to where it was |
| PbFields.UnionAndNext | TasksTracker/Pods/nanopb/pb_common.c:39-73 | where the members of a union lie, and the field after it |
| PbFields.OffsetsTellCellsApart | TasksTracker/Pods/nanopb/pb_common.c:39-73 | offsets are equal within a union, and past the end of the earlier field otherwise |
| PbWire.ZigzagRoundTrip | TasksTracker/Pods/nanopb/pb_encode.c:630-639 | zigzag numbers 0, -1, 1, -2 as 0, 1, 2, 3, and back |
| PbWire.Varint32Inverse | TasksTracker/Pods/nanopb/pb_decode.c:187-247 | what the encoder wrote is read back as 32 bits if and only if the value has 32 bits |
| PbWire.NumRoundTrip | TasksTracker/Pods/nanopb/pb_decode.c:1318-1429 | every scalar in the range of its field is read back, with nothing else consumed |
| PbSkipping.KeyOfRecord | TasksTracker/Pods/nanopb/pb_encode.c:663-715 | the key of a record: eight times the field number, plus 0 for varints, 1 for 64 bits, 2 for what has a length, 5 for 32 bits |
| PbSkipping.KeyOfPacked | TasksTracker/Pods/nanopb/pb_encode.c:147-236 | that of a packed array, which has a length |
| PbSkipping.SkipsValue | TasksTracker/Pods/nanopb/pb_decode.c:321-331 | a value is skipped by its wire type with nothing else consumed, exactly if its length has 32 bits |
| PbSkipping.SkipsField | TasksTracker/Pods/nanopb/pb_decode.c:925-1073 | a field that the descriptor lacks is skipped, however it was written |
| PbOutput.VarintBuffer | TasksTracker/Pods/nanopb/pb_encode.c:608-628 | the buffer loop writes the seven-bit groups of the value |
| PbOutput.OStream.Write | TasksTracker/Pods/nanopb/pb_encode.c:103-124 | fails exactly if the bytes do not fit; a sizing stream only counts |
| PbOutput.OStream.EncodeSubmessage | TasksTracker/Pods/nanopb/pb_encode.c:717-765 | length and bytes of the submessage; the second pass writes exactly as much as the first one counted |
| PbOutput.OStream.EncodeArray | TasksTracker/Pods/nanopb/pb_encode.c:147-236 | a packed array or one record for each item; an array that is too long fails |
| PbOutput.OStream.EncodeField | TasksTracker/Pods/nanopb/pb_encode.c:341-426 | the field if it is present, by has_, count, which_ or a value that is not zero |
| PbOutput.OStream.Encode | TasksTracker/Pods/nanopb/pb_encode.c:528-550 | succeeds exactly if the structure can be encoded and fits, and then appends its encoding |
| PbOutput.GetEncodedSize | TasksTracker/Pods/nanopb/pb_encode.c:567-576 | the number of bytes that encoding writes |
| PbOutput.CheckDefault | TasksTracker/Pods/nanopb/pb_encode.c:240-337 | whether a field is at its zero, looking into submessages |
| PbOutput.StringLength | TasksTracker/Pods/nanopb/pb_encode.c:875-899 | the string up to its NUL or the end of its array |
| PbInput.IStream.DecodeVarint32 | TasksTracker/Pods/nanopb/pb_decode.c:187-247 | on any bytes, the value or the failure of the definition, with just its bytes consumed |
| PbInput.IStream.DecodeVarint | TasksTracker/Pods/nanopb/pb_decode.c:255-275 | at most ten bytes, reduced to 64 bits |
| PbInput.IStream.MakeSubstream | TasksTracker/Pods/nanopb/pb_decode.c:372-385 | a stream over just the bytes of the length read, taken off the parent |
| PbInput.IStream.CloseSubstream | TasksTracker/Pods/nanopb/pb_decode.c:387-400 | the parent goes on after the substream, read to its end or not |
| PbInput.IStream.SkipField | TasksTracker/Pods/nanopb/pb_decode.c:321-331 | skips a field of any wire type, or fails |
| PbInput.IStream.DecodeScalar | TasksTracker/Pods/nanopb/pb_decode.c:1318-1429 | the scalar, clamped to its field or refused |
| PbInput.IStream.DecodeBytes | TasksTracker/Pods/nanopb/pb_decode.c:1431-1548 | the bytes or string if they fit the field |
| PbInput.IStream.DecodeField | TasksTracker/Pods/nanopb/pb_decode.c:406-480 | one record read into its cell: set, appended, or the new member of a union |
| PbInput.IStream.DecodeNoInit | TasksTracker/Pods/nanopb/pb_decode.c:925-1073 | on any bytes, the structure that the definition gives, or failure; required fields are checked as tracked |
| PbInput.IStream.Decode | TasksTracker/Pods/nanopb/pb_decode.c:1075-1087 | the same on top of the defaults |
| PbInput.CheckSeen | TasksTracker/Pods/nanopb/pb_decode.c:1030-1070 | whole words and remaining bits together say whether all tracked fields were seen |
| PbInput.SetToDefaults | TasksTracker/Pods/nanopb/pb_decode.c:908-919 | every field at its default, submessages too |
| PbDecoding.DecodeFields | TasksTracker/Pods/nanopb/pb_decode.c:925-1073 | from any bytes, a structure that keeps within the memory of its descriptor: counts, strings and byte arrays within their sizes |
| PbRecords.DecodesExactly | TasksTracker/Pods/nanopb/pb_decode.c:925-1073 | decoding succeeds exactly if the bytes are records that can be read, up to the end or a zero tag, and a record of each of the first 64 required fields is among them |
| PbRecords.EmptyIsRefused | TasksTracker/Pods/nanopb/pb_decode.c:1030-1070 | the empty message lacks a required field |
| PbRecords.MissingFieldIsRefused | TasksTracker/Pods/nanopb/pb_decode.c:1030-1070 | a message written without a required field of the reader is refused |
| PbRecords.TruncatedRecordFails | TasksTracker/Pods/nanopb/pb_decode.c:925-1073 | a record that has lost its end is refused, whether its field is known or not |
| PbRecords.BytesOfFields | TasksTracker/Pods/nanopb/pb_encode.c:608-715 | the bytes of a varint field, as in the specification's example, and of one with a length |
| PbRecords.BytesOfFixedFields | TasksTracker/Pods/nanopb/pb_encode.c:641-693 | and of fields of 32 and 64 bits |
| PbRoundTrip.ValueRoundTrip | TasksTracker/Pods/nanopb/pb_decode.c:1318-1548 | a value of any type is read back in front of other bytes, exactly if it fits |
| PbRoundTrip.FieldRoundTrip | TasksTracker/Pods/nanopb/pb_encode.c:341-426 | reading back one field sets just its cell and marks it seen, exactly if it fits |
| PbRoundTrip.AllDefaultIsInitial | TasksTracker/Pods/nanopb/pb_encode.c:240-337 | a submessage that is skipped as zero is what the decoder starts with |
| PbRoundTrip.CompatibleRoundTrip | TasksTracker/Pods/nanopb/pb_decode.c:925-1087 | between two descriptors of a message: decoding succeeds if and only if what both have fits, what the reader lacks can be skipped and its required fields are written; what both have comes over, the rest is initial |
| PbRoundTrip.RoundTrip | TasksTracker/Pods/nanopb/pb_decode.c:925-1087 | decoding an encoding succeeds if and only if strings end within their arrays and lengths have 32 bits, and then consumes everything and gives the structure back up to what is not set |
| PbRoundTrip.DecodedRoundTrips | TasksTracker/Pods/nanopb/pb_decode.c:925-1087 | whatever was decoded, from any bytes, can be encoded, and comes back if that takes no more bytes than 32 bits can count |
| PbRoundTrip.FullStringIsRejected | TasksTracker/Pods/nanopb/pb_decode.c:1468-1501 | an array of two chars holding ab is encoded, but not decoded again |

## Left out

* Flushes in the middle of a compaction are part of `FileLifetimes` only. In `Engine`, which keeps the shape of levels,
  flushes, compactions and moves are whole steps.
* `Engine` has its memtable as a sorted sequence; `SkipLists` shows that the skip list is one. Arena layout and the
  encoding of memtable entries are not modelled.
* Scores, the counting of seeks, and delays of writers (`MakeRoomForWrite` waiting or sleeping) are absent; which level
  is too big and which file was sought in vain are parameters.
* I/O errors, checksum mismatches other than by truncation, snappy compression, block trailers and footers, and the
  corruption branches of the block iterator.
* Reading a log from an initial offset other than 0; tables written during recovery when the memtable gets full; internal
  keys too short to parse.
* Sequence numbers that reach the largest one, and the snapshot at it: LevelDB does not guard against either.
* `DBIter` does not sample reads for compaction; `ReadOptions` and status propagation are absent.
* The cache is one shard; the sharded wrapper and the deleter's arguments are not modelled, nor is the store to
  `e->next` when the capacity is 0. Cached values are absent.
* Writers without a batch in the middle of a group are served with it, as in the code; condition variables and waiting
  are reduced to the order of the queue.
* `RepairDB`, `Finalize`, `ApproximateOffsetOf`, option changes, the file system and the C bindings.
* nanopb: callbacks, extensions, fields behind pointers, repeated fields of fixed count, error messages, and varints of
  more than 36 bytes in the 32-bit decoder, where a narrow bit counter may wrap. The structure decoded into is a value
  handed in and out, and `size_t` is wide enough for every size.
- Recovery.VersionSet.Recover: the CURRENT file is not modelled, no edit may add a file number to a level that has held it before, and the compaction pointers of the edits are not taken over.
- Recovery.VersionSet.LogAndApply: the case in which writing the manifest fails is not modelled, nor are the compaction pointers of the edit taken over.
- BloomFilters.BloomFilterPolicy.CreateFilter: the number of probes is a parameter, because the code computes it with a floating-point factor.
- FilterBlocks.NeverLosesAKey: for filter data of less than 4 GB, beyond which the code's 32-bit offsets wrap.
- FilterBlocks.ReaderAsksFilter: for filter data of less than 4 GB, as above.
- FilterBlocks.BloomBlockNeverHides: for filter data of less than 4 GB, as above.
- PbInput.IStream.DecodeVarint32: varints of more than 36 bytes, where the narrow bit counter may wrap, are not modelled.
- PbRoundTrip.RoundTrip: for encodings of less than 2 to the 63rd bytes, which is all that memory can hold.
- GroupCommit.WriteQueue.Enqueue: waiting for the front of the queue is reduced to the order of the queue.
- GroupCommit.WriteQueue.CommitGroup: the case in which logging or applying fails is not modelled.
- GroupCommit.WriteQueue.LogAndInsert: the case in which logging or applying fails is not modelled.
- CompactionWork.DoCompactionWork: a flush in the middle of the loop, shutting down and I/O errors are not modelled.
- Engine.DBImpl.Write: the queue and the log are in `GroupCommit`; failing writes are not modelled.
- Engine.DBImpl.SwitchMemTable: the new log is in `GroupCommit`; waiting for room is not modelled.
- PbRoundTrip.CompatibleRoundTrip: fields with the same number are the same field in both descriptors, and members of one union in the reader come from one union.
- Engine.DBImpl.BackgroundCompaction: a manual compaction that is cut short goes on as a new request.
- Resurrection.VersionIsReached: a run of versions; which writes, snapshots and table sizes lead to these tables is said in comments.
- UserIterators.NewIterator: an iterator shows the state at the time it was made; that its tables stay is in `FileLifetimes`.
- LogReader.Reader.ReadPhysicalRecord: an initial offset other than 0 is not modelled.
- LogReader.Reader.ReadRecord: an initial offset other than 0, and the resyncing that goes with it, are not modelled.
- FileLifetimes.StepKeepsInv: I/O failures are no steps; recovery is one step, so that a crash in the middle of it is not modelled.
- FileLifetimes.OnlyCompactionsDrop: which writes a compaction may drop is in `CompactionWork`, not here.
- FileLifetimes.RunIsSafe: as for `StepKeepsInv`; recovery puts what it replays into one table.
- BlockIters.Iter.Seek: the branch for a corrupt entry is not modelled.
- BlockIters.Iter.ParseNextKey: the branch for a corrupt entry is not modelled.
- TableBuilders.TableBuilder.Add: the filter block is in `FilterBlocks`; the size of a block is a parameter.
- TableBuilders.TableBuilder.Finish: the filter block is in `FilterBlocks`; the metaindex block and the footer are not modelled.
* The Swift apps and the other Pods.
