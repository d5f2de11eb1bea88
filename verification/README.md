# Verified models of the vendored storage, event-loop and message libraries

The app in this repository is a thin layer of screens over vendored C and C++ libraries. This
project models the parts of those libraries whose correctness is an argument rather than a
declaration, and proves what they are for:

- **LevelDB**, a multi-version sorted map in memtables and levels of table files. A store is a set
  of entries (user key, sequence number, type, value), and `Store.Read` says what a reader at a
  sequence number sees. Compaction, layered lookup, the bidirectional iterator stack and the
  one-block table lookup are each proved to agree with that plain reading. Its log, blocks, filters,
  version edits, write batches, skip list, cache and group commit are proved against their own
  specifications.
- **libuv**'s pointer-linked timer heap and timers, its thread pool as a protocol of critical
  sections, its intrusive queue, and its IPv4/IPv6 text conversion.
- **nanopb**'s encoder and decoder for nested messages of static fields.

Code that updates state in place is a class or a loop here, proved against functions of values;
the laws are lemmas about those functions. Concurrent protocols are state machines: each method is
one critical section or one unlocked store, `Valid` is what every step keeps, and the lemmas over
`Valid` hold in every reachable state of every interleaving. `dafny verify dfyconfig.toml` checks
everything.

| file | component |
|---|---|
| `Keys`, `Store`, `Version` | key order, the reference meaning of a read, files and levels |
| `Compaction`, `CompactionInputs` | drop rule and base-level test; choice of input files |
| `Get` | memtable, immutable memtable and version lookup |
| `Cursor`, `DbIter`, `InternalIterator`, `Merger`, `TwoLevel`, `Block` | the iterator contract; iterators, outermost first |
| `Separators`, `Bloom`, `FilterBlock`, `Table` | table format, index separators, filters, lookup |
| `SkipList` | the memtable's list under concurrent reads |
| `Coding`, `BitOps`, `WriteBatch`, `GroupCommit`, `Log` | codecs, bits, batches, the write queue, the log |
| `VersionEdit`, `VersionBuilder` | MANIFEST records and their replay |
| `LruCache`, `HandleTable` | the block cache |
| `Heap`, `Timers`, `ThreadPool`, `Queue`, `Inet` | libuv |
| `Nanopb`, `NanopbRoundTrip`, `NanopbSafety`, `NanopbStreams` | specification, laws, and the imperative code |

## Where the code differs from what one would expect

These results are about inputs on which the code does not do what its comments or names promise.
All but the last come with the exact condition under which the promise holds.

- The second input list of a compaction is never extended by boundary files, so a deleted key can
  come back (`CompactionInputs.BoundaryFileResurrects`, `CompactionInputs.ChosenReadsIff`).
- An unparsable key between a deletion marker and an older value makes the value come back
  (`CompactionWork.UnparsableKeyResurrects`, `CompactionWork.CompactionInvisibleIff`).
- A lookup reports corruption over the unparsable entry of another key that merely comes next in
  the file (`PointLookup.HealthyKeyFails`, `PointLookup.Get`).
- The log writer ignores whether the zeros before a new block were written, so a record that was
  reported as written may stand in the wrong place (`Log.LostTrailer`, `Log.Writer.AddRecord`).
- `VersionEdit::Clear` keeps the compaction pointers, so decoding into a used edit does not give
  the encoded edit (`VersionEdits.EditRoundTripIff`).
- When edits are replayed through one builder, a file number that a level uses twice survives its
  own deletion, and a second file that compares equal to the first is lost
  (`VersionBuilders.ReuseResurrects`, `VersionBuilders.SecondIgnored`,
  `VersionBuilders.ReplayIsStepwiseIff`).
- nanopb's decoder takes field number 0 of a message without fields for a bool
  (`NanopbRoundTrip.EmptyMessageReadsBool`, `NanopbRoundTrip.UnknownIsSkippedIff`).
- Its 32-bit varint reader drops bits of a long varint with padding
  (`NanopbRoundTrip.BitsLost`, `NanopbRoundTrip.Varint32Iff`).
- In the IPv6 printer the alternative for seven leading zero words is never reached
  (`Inet.SevenZerosStayHex`).

## Model

| member | source | states |
|---|---|---|
| Keys.Compare | collection/Pods/leveldb-library/util/comparator.cc:25-27 | Bytewise comparison is a total order on user keys: it agrees with an embedding of byte strings into the reals, and it is zero on equal keys only. |
| Keys.CompareInternal | collection/Pods/leveldb-library/db/dbformat.cc:51-67 | Internal keys sort by user key ascending, then by sequence number and type descending; zero means the same user key and tag. |
| Keys.Lexicographic | collection/Pods/leveldb-library/util/comparator.cc:25-27 | The order of byte strings spelled out: a proper prefix comes first, otherwise the first byte that differs decides. |
| Keys.TagPacks | collection/Pods/leveldb-library/db/dbformat.cc:14-18 | Every 64-bit number is the tag of exactly one sequence number and type byte, so packing loses nothing. |
| Store.ReadIs | collection/Pods/leveldb-library/db/db_iter.cc:33-37 | The reference meaning of a read: whichever newest visible version is found, it alone decides what a reader at a sequence number gets. |
| Version.EntryCovered | collection/Pods/leveldb-library/db/version_edit.h:18-26 | The smallest and largest keys recorded for a table file enclose every entry in it. |
| CompactionWork.Compaction.IsBaseLevelForKey | collection/Pods/leveldb-library/db/version_set.cc:1533-1552 | Asked for keys in non-decreasing order, the moving cursors never pass a file that covers a later key: the answer is exactly that no file two or more levels down has the key in its range. |
| CompactionWork.BaseIs | collection/Pods/leveldb-library/db/version_set.cc:1535-1549 | What that means for the bounds of the files, by the comparator: each lies wholly before or wholly behind the key. |
| CompactionWork.Compaction.DropRule | collection/Pods/leveldb-library/db/db_impl.cc:930-961 | The decision for one record, and the two loop variables after it: it is dropped if its predecessor is a version of the same key that every reader sees, or if it is a marker that every reader sees and no deeper level may hold the key; an unparsable key is kept and forgets both variables. |
| CompactionWork.Compaction.DoCompactionWork | collection/Pods/leveldb-library/db/db_impl.cc:890-1010 | When the work succeeds, the input iterator ended with a good status and the output tables concatenate to exactly the kept records in order, each with its right bounds. They are cut where they must be and nowhere else: behind every kept record that made its table big enough, and before every record at which the grandparent level asks to stop. It succeeds whenever every table can be created and finished, the inputs can be read and no shutdown is seen. |
| CompactionWork.AddToOutput | collection/Pods/leveldb-library/db/db_impl.cc:974-995 | A kept record goes to the end of what has been written, in a table that is opened for it when none is open, whose largest key becomes its own, and that is closed exactly when it is big enough. |
| CompactionWork.FinishOutput | collection/Pods/leveldb-library/db/db_impl.cc:811-858 | Finishing a table moves the open entries to the closed outputs unchanged exactly when the input's status, the builder, sync, close and the readback are all good, or fails. |
| CompactionWork.CompactionInvisible | collection/Pods/leveldb-library/db/db_impl.cc:890-999 | For every surrounding store, every user key and every sequence number at or above the smallest snapshot, a reader gets the same answer before and after the drop rule and tombstone elision, unless the input has, under a marker that may be elided, a value right after an unparsable key. |
| CompactionWork.CompactionInvisibleIff | collection/Pods/leveldb-library/db/db_impl.cc:930-961 | Exact condition, on the input alone: the compaction is invisible to all those readers in all admissible stores unless no deeper level may hold the key, the key's version at the smallest snapshot is a marker, and further down a value of the key stands right after an unparsable key. If and only if. |
| CompactionWork.ResurrectsIff | collection/Pods/leveldb-library/db/db_impl.cc:930-961 | The loop elides a marker and still rewrites a value underneath it exactly on inputs of that shape, whatever its two variables do in between. |
| CompactionWork.ResurrectionIsVisible | collection/Pods/leveldb-library/db/db_impl.cc:930-961 | When that happens, a reader at the smallest snapshot itself sees the deleted value again. |
| CompactionWork.ParsedKeysNeverResurrect | collection/Pods/leveldb-library/db/db_impl.cc:930-961 | It cannot happen for a user key all of whose input entries parse. |
| CompactionWork.UnparsableKeyResurrects | collection/Pods/leveldb-library/db/db_impl.cc:930-936 | Inputs of that shape exist: an unparsable key between a marker and an older value resets the rule, so the marker is dropped and the value kept. |
| CompactionWork.MaximalSnapshotDropsAll | collection/Pods/leveldb-library/db/db_impl.cc:890-894 | With the smallest snapshot at the very last sequence number the drop rule would discard every well-formed record, which is why the other results need a smaller one. |
| CompactionWork.NewestNotHidden | collection/Pods/leveldb-library/db/db_impl.cc:946-949 | The version a reader at or above the smallest snapshot sees is never dropped as hidden. |
| CompactionWork.HiddenIff | collection/Pods/leveldb-library/db/db_impl.cc:946-949 | What rule (A) amounts to for a user key whose entries parse: an entry goes if and only if the input has a newer version that every reader at or above the smallest snapshot sees. |
| CompactionWork.NothingOlderOutside | collection/Pods/leveldb-library/db/db_impl.cc:950-961 | Under an elided marker that is newest, nothing outside the inputs is visible. |
| CompactionWork.OnlyElisionMatters | collection/Pods/leveldb-library/db/db_impl.cc:890-999 | In any surrounding store, admissible or not, a reader of a parsable key loses at most an elided marker: if that is the version it saw it now gets what the surrounding store has, and otherwise its answer is unchanged. |
| CompactionInputs.GetOverlappingInputs | collection/Pods/leveldb-library/db/version_set.cc:519-559 | The restart loop terminates; the selection is every file overlapping a range that encloses the wanted one, equal to it above level 0; at level 0 no file straddles that range and it is the least such range. |
| CompactionInputs.WideningShrinks | collection/Pods/leveldb-library/db/version_set.cc:540-556 | Why the restarts end: each one widens the range to the end of a file, so fewer file ends stick out of it. |
| CompactionInputs.Widens | collection/Pods/leveldb-library/db/version_set.cc:540-556 | A file that sticks out must widen every closed range, so widening never leaves the least one. |
| CompactionInputs.FindLargestKey | collection/Pods/leveldb-library/db/version_set.cc:1326-1340 | The result is the largest key of some file and no file ends later; there is none exactly for no files. |
| CompactionInputs.FindSmallestBoundaryFile | collection/Pods/leveldb-library/db/version_set.cc:1344-1362 | Of the files that go on with older versions of the given last user key it is the one that starts first; none exactly when there is no such file. |
| CompactionInputs.AddBoundaryInputs | collection/Pods/leveldb-library/db/version_set.cc:1378-1401 | It terminates, adds next boundary files one after another, and afterwards no file of the level goes on with the last user key of the inputs. |
| CompactionInputs.AppendedAreNew | collection/Pods/leveldb-library/db/version_set.cc:1378-1401 | Each added file starts after everything already selected, so no file is added twice. |
| CompactionInputs.AppendedKeepsPicked | collection/Pods/leveldb-library/db/version_set.cc:1378-1401 | Boundary files extend a run of neighbouring files by its next neighbours, and at level 0 there are none to add. |
| CompactionInputs.SelectedAreNeighbours | collection/Pods/leveldb-library/db/version_set.cc:533-558 | In a sorted level the files that overlap a range are one run of neighbours, and exactly those. |
| CompactionInputs.GetRange | collection/Pods/leveldb-library/db/version_set.cc:1205-1225 | The results are the first and the last key of the files. |
| CompactionInputs.SetupOtherInputs | collection/Pods/leveldb-library/db/version_set.cc:1403-1448 | The second inputs are always the next level's files that overlap the picked files with their boundary files; the first are those, or all that overlaps both lists, with boundary files, exactly when that is more, stays below the size limit and brings in no further file of the next level. Nothing closes the second under boundary files. |
| CompactionInputs.TotalFileSizeAdds | collection/Pods/leveldb-library/db/version_set.cc:60-66 | The size that the limit is compared with is the sum over the files. |
| CompactionInputs.SameCount | collection/Pods/leveldb-library/db/version_set.cc:1426-1436 | Why counting is enough there: a wider range that selects as many files of a sorted level selects the same files. |
| CompactionInputs.LeftBehind | collection/Pods/leveldb-library/db/version_set.cc:1378-1401 | A file left behind at a picked level holds only newer versions of a user key it shares with the inputs, unless it is a boundary file. |
| CompactionInputs.SharedIsSelected | collection/Pods/leveldb-library/db/version_set.cc:1407-1411 | Every next-level file that shares a user key with the first inputs is among the second inputs. |
| CompactionInputs.ChosenIsAdmissible | collection/Pods/leveldb-library/db/version_set.cc:1403-1448 | If each boundary of the second inputs is backed by a deeper file that may hold the key, the chosen inputs meet the hypothesis of the compaction theorem. |
| CompactionInputs.BoundaryMatters | collection/Pods/leveldb-library/db/version_set.cc:1411-1422 | Otherwise they do not: the boundary file left behind holds an older version that the base-level test does not see. |
| CompactionInputs.ChosenIsAdmissibleIff | collection/Pods/leveldb-library/db/version_set.cc:1403-1448 | Both together: the hypothesis holds exactly when no next-level file goes on with the last user key of the second inputs while no deeper file covers that key. |
| CompactionInputs.ChosenCompactionInvisible | collection/Pods/leveldb-library/db/db_impl.cc:890-999 | From choosing the inputs to dropping records: with backed boundaries and parsable keys, every read at or above the smallest snapshot over memtables and all files is unchanged. |
| CompactionInputs.ChosenReadsIff | collection/Pods/leveldb-library/db/version_set.cc:1403-1448 | Exact condition for readers, from choosing the inputs to dropping records: every read of a parsable key at or above the smallest snapshot is unchanged if and only if these do not all hold: no deeper file may hold the key, the version seen at the smallest snapshot is an input marker, and the next level goes on with the key in a file left behind that starts with a value. |
| CompactionInputs.ExposedReads | collection/Pods/leveldb-library/db/version_set.cc:1407-1422 | When they do all hold, the reader at the smallest snapshot itself had no value and gets one. |
| CompactionInputs.BoundaryFileResurrects | collection/Pods/leveldb-library/db/version_set.cc:1407-1422 | A concrete layered store with distinct versions, the inputs the code chooses for it, and the one entry they leave behind: it meets the condition above, and the key that was deleted before has that entry's value afterwards. |
| IntrusiveQueue.SnapshotList.SmallestSnapshot | collection/Pods/leveldb-library/db/db_impl.cc:890-894 | The compaction's smallest snapshot is at or below every live snapshot and the last sequence, and is one of them. |
| IntrusiveQueue.SnapshotList.New | collection/Pods/leveldb-library/db/snapshot.h:57-73 | A new snapshot goes to the end of the linked list, which stays in sequence order. |
| IntrusiveQueue.SnapshotList.Delete | collection/Pods/leveldb-library/db/snapshot.h:81-88 | Any live snapshot can be unlinked; the others stay, in order. |
| PointLookup.SeekEntry | collection/Pods/leveldb-library/db/memtable.cc:100-103 | The first entry at or after the lookup key: the newest version visible at the sequence number if the user key has one, and no entry of the key is overlooked. |
| PointLookup.MemTableGet | collection/Pods/leveldb-library/db/memtable.cc:100-134 | The memtable answers with its newest visible version, a deletion included, and says nothing exactly when it has none. |
| PointLookup.FindFile | collection/Pods/leveldb-library/db/version_set.cc:88-106 | The binary search ends at the first file whose largest key is at or after the key, or past the last file. |
| PointLookup.SortNewestFirst | collection/Pods/leveldb-library/db/version_set.cc:278-280 | Level-0 candidates are put in order of descending file number, none lost. |
| PointLookup.Level0Candidates | collection/Pods/leveldb-library/db/version_set.cc:347-365 | At level 0 exactly the files whose range covers the user key are read, newest first. |
| PointLookup.Candidates | collection/Pods/leveldb-library/db/version_set.cc:343-384 | Reading the chosen files of a level in order and stopping at the first hit searches the whole level. |
| PointLookup.OneFileSuffices | collection/Pods/leveldb-library/db/version_set.cc:366-383 | In a sorted level the one file FindFile names decides, even when the user key goes on into the next file. |
| PointLookup.PlaceInLevel | collection/Pods/leveldb-library/db/version_set.cc:366-383 | Every entry of the user key at or after the lookup key is in that file or follows its last key, which then has the same user key. |
| PointLookup.ReadFiles | collection/Pods/leveldb-library/db/version_set.cc:386-420 | Files are read in order until one hands over an entry that is unparsable or of the user key: corruption exactly when the first such entry is unparsable, else the newest visible version in that file; without one, no file has a visible version. |
| PointLookup.HitDecides | collection/Pods/leveldb-library/db/db_impl.cc:1117-1132 | A hit below exhausted newer sources and above older ones is the newest version over all of them. |
| PointLookup.VersionGet | collection/Pods/leveldb-library/db/version_set.cc:326-421 | Level by level: corruption exactly when, in reading order, the first file that ends the lookup hands over an unparsable entry; otherwise the answer of a scan of all files. |
| PointLookup.Get | collection/Pods/leveldb-library/db/db_impl.cc:1100-1145 | Memtable, immutable memtable, then the files: corruption exactly when neither memtable has a visible version and the files fail in that way; otherwise the answer that a flat scan of all entries gives at the sequence number. |
| PointLookup.HealthyKeyFails | collection/Pods/leveldb-library/db/version_set.cc:386-420 | It does fail for healthy keys: in a valid store with distinct versions, the lookup of an absent key meets the unparsable entry of another key and reports corruption. |
| Cursors.Cursor.Seek | collection/Pods/leveldb-library/include/leveldb/iterator.h:43-46 | What every iterator promises of Seek: the first entry at or after the target. |
| Cursors.Cursor.Prev | collection/Pods/leveldb-library/include/leveldb/iterator.h:53-56 | Prev from the first entry makes the iterator invalid. |
| DbIterator.ViewIsSortedMap | collection/Pods/leveldb-library/db/db_iter.cc:27-38 | The bindings of the view strictly ascend by user key, each carried by the newest visible entry of its key. |
| DbIterator.YieldsIffRead | collection/Pods/leveldb-library/db/db_iter.cc:27-38 | A key has a value in the view exactly when a point read at the same sequence number returns that value. |
| DbIterator.StackReads | collection/Pods/leveldb-library/db/db_impl.cc:1062-1087 | The whole stack: a key has a value in the view of the merged sources exactly when reading all entries of all sources at the sequence number gives that value. |
| DbIterator.DBIter.constructor | collection/Pods/leveldb-library/db/db_iter.cc:46-61 | A new iterator is not valid and reads at its sequence number. |
| DbIterator.DBIter.Next | collection/Pods/leveldb-library/db/db_iter.cc:141-166 | From any binding, in either direction, Next shows the next binding of the view, or is not valid after the last. |
| DbIterator.DBIter.Prev | collection/Pods/leveldb-library/db/db_iter.cc:200-225 | From any binding, in either direction, Prev shows the previous binding of the view, or is not valid before the first. |
| DbIterator.DBIter.LeaveKey | collection/Pods/leveldb-library/db/db_iter.cc:203-222 | Turning backwards, the scan over the current key's entries stops at the entry before them and passes over no other binding. |
| DbIterator.DBIter.Seek | collection/Pods/leveldb-library/db/db_iter.cc:269-281 | Seek shows the first binding whose key is at or after the target, from any state. |
| DbIterator.DBIter.SeekToFirst | collection/Pods/leveldb-library/db/db_iter.cc:283-292 | Shows the first binding of the view. |
| DbIterator.DBIter.SeekToLast | collection/Pods/leveldb-library/db/db_iter.cc:294-299 | Shows the last binding of the view. |
| DbIterator.DBIter.FindNextUserEntry | collection/Pods/leveldb-library/db/db_iter.cc:168-198 | The forward scan stops at the first entry that carries a binding not to be skipped; deletions hide the rest of their key. |
| DbIterator.DBIter.FindPrevUserEntry | collection/Pods/leveldb-library/db/db_iter.cc:227-267 | The backward scan ends at the last binding below where it began, passing over none, and leaves the inner iterator before that key. |
| DbIterator.DBIter.ParseKey | collection/Pods/leveldb-library/db/db_iter.cc:122-139 | The status turns corrupt exactly when the key at hand does not parse, and stays corrupt. |
| DbIterator.SeekInView | collection/Pods/leveldb-library/db/db_iter.cc:269-281 | The internal seek target of a user key stands at the first binding that is not smaller. |
| Merger.MergingIterator.constructor | collection/Pods/leveldb-library/table/merger.cc:14-26 | Over sorted children without a common key the iterator stands for their sorted union. |
| Merger.MergeableIff | collection/Pods/leveldb-library/table/merger.cc:14-26 | Sorted runs have a sorted union without repetitions exactly when no two entries of different runs have the same key. |
| Merger.MergeIsOne | collection/Pods/leveldb-library/table/merger.cc:14-26 | That union is determined by the runs. |
| Merger.MergingIterator.Next | collection/Pods/leveldb-library/table/merger.cc:55-79 | From entry m of the sorted union to entry m + 1, whatever the direction was before. |
| Merger.MergingIterator.Prev | collection/Pods/leveldb-library/table/merger.cc:81-108 | From entry m of the sorted union to entry m - 1, whatever the direction was before. |
| Merger.MergingIterator.Seek | collection/Pods/leveldb-library/table/merger.cc:47-53 | Stands at the first entry of the union at or after the target. |
| Merger.MergingIterator.SeekToFirst | collection/Pods/leveldb-library/table/merger.cc:31-37 | Stands at the first entry of the union. |
| Merger.MergingIterator.SeekToLast | collection/Pods/leveldb-library/table/merger.cc:39-45 | Stands at the last entry of the union. |
| Merger.MergingIterator.TurnForward | collection/Pods/leveldb-library/table/merger.cc:58-73 | Turning from backward to forward moves every other child past the current key and keeps the current entry. |
| Merger.MergingIterator.TurnBackward | collection/Pods/leveldb-library/table/merger.cc:84-104 | Turning from forward to backward moves every other child before the current key and keeps the current entry. |
| Merger.MergingIterator.FindSmallest | collection/Pods/leveldb-library/table/merger.cc:148-161 | With every child at its first entry not before entry m, the child chosen is the one that holds entry m. |
| Merger.MergingIterator.FindLargest | collection/Pods/leveldb-library/table/merger.cc:163-176 | With every child at its last entry not after entry m, the child chosen is the one that holds entry m. |
| Merger.StepAhead | collection/Pods/leveldb-library/table/merger.cc:77-78 | Going past entry m moves only the child that holds it. |
| Merger.SeekIsAhead | collection/Pods/leveldb-library/table/merger.cc:47-53 | Seeking all children to one target puts every one at its first entry not before the same place of the union. |
| InternalIterators.InternalIterator.Seek | collection/Pods/leveldb-library/db/db_impl.cc:1062-1087 | The merging iterator over all sources keeps the iterator contract that DBIter relies on: here the first entry at or after the target. |
| InternalIterators.InternalIterator.Prev | collection/Pods/leveldb-library/db/db_impl.cc:1062-1087 | And backwards: one entry back, not valid from the first. |
| TwoLevel.TwoLevelIterator.Seek | collection/Pods/leveldb-library/table/two_level_iterator.cc:82-87 | For index keys that separate the blocks, the first entry of the concatenation at or after the target. |
| TwoLevel.TwoLevelIterator.SeekToFirst | collection/Pods/leveldb-library/table/two_level_iterator.cc:89-94 | The first entry of the concatenation, past any empty blocks. |
| TwoLevel.TwoLevelIterator.SeekToLast | collection/Pods/leveldb-library/table/two_level_iterator.cc:96-101 | The last entry of the concatenation, past any empty blocks. |
| TwoLevel.TwoLevelIterator.Next | collection/Pods/leveldb-library/table/two_level_iterator.cc:103-107 | From entry m of the concatenation to entry m + 1. |
| TwoLevel.TwoLevelIterator.Prev | collection/Pods/leveldb-library/table/two_level_iterator.cc:109-113 | From entry m of the concatenation to entry m - 1. |
| TwoLevel.TwoLevelIterator.SkipEmptyDataBlocksForward | collection/Pods/leveldb-library/table/two_level_iterator.cc:115-126 | Skipping forward terminates and ends at the entry that was next, or at no block. |
| TwoLevel.TwoLevelIterator.SkipEmptyDataBlocksBackward | collection/Pods/leveldb-library/table/two_level_iterator.cc:128-139 | Skipping backward terminates and ends at the entry that was before, or at no block. |
| TwoLevel.TwoLevelIterator.InitDataBlock | collection/Pods/leveldb-library/table/two_level_iterator.cc:146-161 | Afterwards the data iterator is over the index's block; the very same iterator, where it stands, when the handle has not changed, and none when the index is not valid. |
| TwoLevel.Located | collection/Pods/leveldb-library/table/two_level_iterator.cc:18-29 | Every entry of the concatenation is one entry of one block. |
| Separators.FindShortestSeparator | collection/Pods/leveldb-library/util/comparator.cc:29-50 | Where the keys first differ by more than one, the separator is the start cut off there with that byte one larger, strictly between the two; otherwise the start itself. |
| Separators.FindShortSuccessor | collection/Pods/leveldb-library/util/comparator.cc:52-63 | The first byte below 0xff is raised and the rest cut off, giving a larger key; only a run of 0xff stays as it is. |
| Separators.InternalSeparator | collection/Pods/leveldb-library/db/dbformat.cc:69-86 | The separator is at or after the first key and strictly before the second; it is shortened exactly when the user key gets shorter, and then sorts before every version of its user key. |
| Separators.InternalSuccessor | collection/Pods/leveldb-library/db/dbformat.cc:88-101 | The successor is at or after the key, and shortened exactly when the user key gets shorter. |
| SortedTable.OnlyThatBlock | collection/Pods/leveldb-library/table/table.cc:216-232 | Entries of the looked-up user key at or after the lookup key lie in the block the index names, or after it when that block ends in this very user key. |
| SortedTable.BlockDecides | collection/Pods/leveldb-library/table/table.cc:227-232 | The newest visible version in the named block is the newest in the table. |
| SortedTable.BlockExcludes | collection/Pods/leveldb-library/table/table.cc:222-238 | A named block without a version to hit, or no block, means that the table has none. |
| SortedTable.InternalGet | collection/Pods/leveldb-library/table/table.cc:216-244 | At most one data block is read, none exactly when the index names none or the filter for its offset does not match the key; what is handed over is exactly what a seek in that block finds, or nothing. It is at or after the lookup key and the table's newest visible version of the user key whenever the table holds one, which is what the layered lookup needs. |
| SortedTable.OneBlockHandsOver | collection/Pods/leveldb-library/table/table.cc:216-240 | A table of one block hands over its first entry at or after the lookup key even when that is unparsable or another key's, as in the failing lookup above. |
| SortedTable.TableBuilder.Add | collection/Pods/leveldb-library/table/table_builder.cc:94-123 | Strictly increasing keys are taken one by one: blocks, index separators, pending index entry and filter keep describing exactly the entries added, and a block goes out exactly when it is full; only a failed file operation turns the status bad, and then nothing changes. |
| SortedTable.TableBuilder.SettleIndexEntry | collection/Pods/leveldb-library/table/table_builder.cc:102-109 | The pending index entry is written once the next key is known, under a key at or after the old block and before that key. |
| SortedTable.TableBuilder.Flush | collection/Pods/leveldb-library/table/table_builder.cc:125-139 | The entries being built become the next block, whose index entry is pending, and the filter moves on to the next block offset. |
| SortedTable.TableBuilder.WriteBlock | collection/Pods/leveldb-library/table/table_builder.cc:141-194 | The block lands at the current offset under its handle, or the status turns bad. |
| SortedTable.TableBuilder.Finish | collection/Pods/leveldb-library/table/table_builder.cc:198-253 | The finished table holds exactly the entries added, in order, with an index and a filter that satisfy what InternalGet needs. |
| SortedTable.StateAdds | collection/Pods/leveldb-library/table/table_builder.cc:94-123 | A separator before the new key settles the pending entry without breaking the index. |
| FilterBlock.FilterBlockBuilder.AddKey | collection/Pods/leveldb-library/table/filter_block.cc:29-33 | The key is recorded for the filter of the current block offset. |
| FilterBlock.FilterBlockBuilder.StartBlock | collection/Pods/leveldb-library/table/filter_block.cc:21-27 | There is a filter for every 2048 bytes of offset up to the new block: the first of them holds exactly the pending keys, the others are empty. |
| FilterBlock.FilterBlockBuilder.GenerateFilter | collection/Pods/leveldb-library/table/filter_block.cc:51-75 | One more filter, of exactly the pending keys in order; none without keys. |
| FilterBlock.FilterBlockBuilder.Finish | collection/Pods/leveldb-library/table/filter_block.cc:35-49 | The block encodes the filters, their offsets and the base, as long as it fits in 32 bits. |
| FilterBlock.ReadsFilter | collection/Pods/leveldb-library/table/filter_block.cc:77-101 | Where the reader looks for filter i of an encoded block it finds exactly that filter's bytes. |
| FilterBlock.KeyMayMatch | collection/Pods/leveldb-library/table/filter_block.cc:77-104 | On an encoded block the answer is exactly that of the filter for the block offset, so an added key is never denied; without such a filter, and for a damaged table, it is a potential match. |
| FilterBlock.Promised | collection/Pods/leveldb-library/table/filter_block.cc:90-104 | A key added under a block offset is not denied under it. |
| Bloom.BloomFilterPolicy.CreateFilter | collection/Pods/leveldb-library/util/bloom.cc:28-54 | A bit of the filter is set exactly when some probe of some key lands on it; the filter has the smallest size of whole bytes for the number of keys, at least eight, and ends in the number of probes. |
| Bloom.BloomFilterPolicy.KeyMayMatch | collection/Pods/leveldb-library/util/bloom.cc:56-80 | A match exactly when the bits at all probe values are set, for the probe count the filter carries; a count above 30 always matches, a filter below two bytes never does. |
| Bloom.BloomFilterPolicy.AdmitsItsKeys | collection/Pods/leveldb-library/util/bloom.cc:28-80 | No false negatives: the filter of a list of keys matches each of them. |
| Bloom.BloomFilterPolicy.FilterBits | collection/Pods/leveldb-library/util/bloom.cc:43-53 | Bit for bit: one is set if and only if it is the probe value of some key, for one of the first k probes, modulo the number of bits. |
| Bloom.ProbeIs | collection/Pods/leveldb-library/util/bloom.cc:43-53 | The j-th probe value is h + j * delta in 32 bits. |
| Bloom.RotatesRight | collection/Pods/leveldb-library/util/bloom.cc:47-47 | Delta is the hash rotated right by 17 bits. |
| BitOps.WithBitIs | collection/Pods/leveldb-library/util/bloom.cc:50-50 | Setting a bit of a byte sets that bit and no other. |
| Coding.FixedRoundTrip | collection/Pods/leveldb-library/util/coding.cc:9-33 | Reading a fixed-width little-endian number back gives the number modulo 2 to the width. |
| Coding.EncodeVarint | collection/Pods/leveldb-library/util/coding.cc:81-90 | The loop writes the number's varint: seven bits a byte, low bits first. |
| Coding.DecodeVarint | collection/Pods/leveldb-library/util/coding.cc:112-157 | Decoding a varint, whatever follows it, gives the value and its length. |
| Coding.GetVarint | collection/Pods/leveldb-library/util/coding.cc:112-157 | The shifting loop computes the varint's value, reduced to its register, and its length; none when it does not end within five or ten bytes. |
| Coding.VarintLength | collection/Pods/leveldb-library/util/coding.cc:103-110 | The length the loop counts is that of the encoding. |
| Coding.VarintFits | collection/Pods/leveldb-library/util/coding.cc:47-90 | A number below 2 to the 7n needs at most n bytes. |
| Coding.PrefixedRoundTrip | collection/Pods/leveldb-library/util/coding.cc:98-101 | A length-prefixed slice is read back exactly, with what follows it. |
| Coding.Unterminated | collection/Pods/leveldb-library/util/coding.cc:112-162 | A varint that does not end within the bytes a reader takes is refused. |
| Block.HeadsApart | collection/Pods/leveldb-library/table/block_builder.cc:72-88 | Restart points are exactly the restart interval apart. |
| Block.BlockBuilder.SharedPrefix | collection/Pods/leveldb-library/table/block_builder.cc:79-84 | The number of bytes two keys have in common at the front, no more and no less. |
| Block.BlockBuilder.Add | collection/Pods/leveldb-library/table/block_builder.cc:72-106 | The builder's bytes, restarts and counter stay those of the list of pairs with the new pair at its end. |
| Block.BlockBuilder.Finish | collection/Pods/leveldb-library/table/block_builder.cc:62-70 | The block is the entries, the restart points and their number, for exactly the pairs added. |
| Block.DecodeLayout | collection/Pods/leveldb-library/table/block.cc:54-74 | The fast path for three short lengths and the slow one agree on what the builder writes. |
| Block.Decoded | collection/Pods/leveldb-library/table/block.cc:224-250 | Decoding at the offset of entry i gives the bytes it shares, the rest of its key, its value and the offset of entry i + 1. |
| Block.Places | collection/Pods/leveldb-library/table/block.cc:24-39 | The restart array and the entry count are where the reader looks for them. |
| Block.SharedOnDisk | collection/Pods/leveldb-library/table/block_builder.cc:5-27 | The bytes of a block of two keys that share a byte, with the default restart interval. |
| Block.RestartsOnDisk | collection/Pods/leveldb-library/table/block_builder.cc:5-27 | The bytes of the same block with a restart point at every entry. |
| Block.Iter.ParseNextKey | collection/Pods/leveldb-library/table/block.cc:224-250 | On a block the builder wrote, the next entry's key and value are the pair that was added; its corruption error cannot come up. |
| Block.Iter.Next | collection/Pods/leveldb-library/table/block.cc:137-140 | From pair i to pair i + 1, or past the end. |
| Block.Iter.Prev | collection/Pods/leveldb-library/table/block.cc:142-161 | From pair i to pair i - 1 by way of a restart point before it, or not valid from the first. |
| Block.Iter.Seek | collection/Pods/leveldb-library/table/block.cc:163-201 | For strictly increasing keys, binary search and scan end at the first pair at or after the target. |
| Block.Iter.SeekToFirst | collection/Pods/leveldb-library/table/block.cc:203-206 | The first pair. |
| Block.Iter.SeekToLast | collection/Pods/leveldb-library/table/block.cc:208-213 | The last pair, by way of the last restart point. |
| Block.Iter.SeekToRestartPoint | collection/Pods/leveldb-library/table/block.cc:104-110 | The next entry to be parsed is the one at the restart point. |
| SkipList.SkipList.FindGreaterOrEqual | collection/Pods/leveldb-library/db/skiplist.h:260-281 | The first linked node at or after the key, and at every level the node after which the key belongs. |
| SkipList.SkipList.FindLessThan | collection/Pods/leveldb-library/db/skiplist.h:283-302 | The last linked node before the key, or the head. |
| SkipList.SkipList.FindLast | collection/Pods/leveldb-library/db/skiplist.h:304-322 | The linked node with the largest key, or the head. |
| SkipList.SkipList.Insert | collection/Pods/leveldb-library/db/skiplist.h:336-368 | Levels below the new node's height gain exactly that node, in order; no other level changes and no node or key is lost. |
| SkipList.Inserter.Step | collection/Pods/leveldb-library/db/skiplist.h:336-368 | After every single store of an insertion, each level is a sorted sublist of the level below, nothing is unlinked, and the insertion comes closer to its end. |
| SkipList.LinkKeeps | collection/Pods/leveldb-library/db/skiplist.h:362-367 | The store that publishes a node at one level adds it to that level and changes no other. |
| SkipList.StoreLinks | collection/Pods/leveldb-library/db/skiplist.h:362-367 | Linking a prepared node after its place inserts it there in the level's list. |
| SkipList.AllocateElsewhere | collection/Pods/leveldb-library/db/skiplist.h:360-361 | A node that is allocated but not linked is not seen at any level. |
| SkipList.Reader.Step | collection/Pods/leveldb-library/db/skiplist.h:260-281 | Every pointer load of a search makes progress on the list as it is at that moment, and the last one names the first node at or after the target. |
| SkipList.StillOk | collection/Pods/leveldb-library/db/skiplist.h:8-28 | A list that grows under a search in progress leaves the search on track. |
| SkipList.SearchDuringInserts | collection/Pods/leveldb-library/db/skiplist.h:8-28 | Interleaved in any way with any insertions, store by load, a search terminates at a linked node at or after the target and overlooks no key that was there when it began. |
| SkipList.WithinBottom | collection/Pods/leveldb-library/db/skiplist.h:360-367 | Every node linked at some level is linked at level 0. |
| WriteBatches.ParseOfRecords | collection/Pods/leveldb-library/db/write_batch.cc:42-80 | Reading records back gives the operations written, in order, whatever follows. |
| WriteBatches.Iterate | collection/Pods/leveldb-library/db/write_batch.cc:42-80 | The handler gets exactly the operations before the first malformed record, and the verdict tells a short header, a bad record and a wrong count apart. |
| WriteBatches.BuiltIsIntact | collection/Pods/leveldb-library/db/write_batch.cc:42-147 | A batch made by Put, Delete and Append is never found malformed and is handed over whole. |
| WriteBatches.WriteBatch.Apply | collection/Pods/leveldb-library/db/write_batch.cc:98-109 | Put and Delete add one operation at the end and count it. |
| WriteBatches.WriteBatch.Append | collection/Pods/leveldb-library/db/write_batch.cc:144-148 | Appending a batch adds its operations at the end and its count to the count. |
| WriteBatches.WriteBatch.SetSequence | collection/Pods/leveldb-library/db/write_batch.cc:94-96 | Only the sequence number in the header changes. |
| WriteBatches.RepresentsOne | collection/Pods/leveldb-library/db/write_batch.cc:5-14 | A batch determines its operations. |
| WriteBatches.BatchOnDisk | collection/Pods/leveldb-library/db/write_batch.cc:5-14 | The bytes of a batch of a put and a deletion: sequence number, count and records. |
| GroupCommit.BuildBatchGroup | collection/Pods/leveldb-library/db/db_impl.cc:1260-1306 | With a leader's batch of b bytes the group is the longest prefix of the queue in which no sync write follows a non-sync leader and the batches add up to at most b + 128 KiB, or to at most 1 MiB when b is more than 128 KiB; its batch is the members' batches in order, and the callers' batches are untouched. |
| GroupCommit.Database.Enqueue | collection/Pods/leveldb-library/db/db_impl.cc:1185-1192 | A call joins the end of the queue, and nothing else of the state changes. |
| GroupCommit.Database.Lead | collection/Pods/leveldb-library/db/db_impl.cc:1201-1207 | The writer at the front starts the commit of exactly the group BuildBatchGroup gives, or commits itself alone when it has no batch, there is no room or a sync has failed; after a failed sync no later group is committed with success. |
| GroupCommit.Database.AppendRecord | collection/Pods/leveldb-library/db/db_impl.cc:1214-1215 | The group's batch, with its first sequence number, is appended to the log as one record, or the group fails. |
| GroupCommit.Database.SyncLog | collection/Pods/leveldb-library/db/db_impl.cc:1216-1222 | For a sync leader the last record becomes durable, or the group fails. |
| GroupCommit.Database.InsertNext | collection/Pods/leveldb-library/db/db_impl.cc:1223-1225 | One operation at a time goes into the memtable under the next sequence number, and nothing else but the flight changes; a well-formed batch is never rejected. |
| GroupCommit.Database.Land | collection/Pods/leveldb-library/db/db_impl.cc:1226-1255 | The last sequence is published even after a failure, and exactly the group leaves the queue, every member with the group's status; after a failed sync this group and all later ones fail, which Enqueue and Lead keep. |
| GroupCommit.OneLeader | collection/Pods/leveldb-library/db/db_impl.cc:1239-1248 | In every reachable state no call is committed twice, by two leaders or by one, and none that is committed still waits. |
| GroupCommit.QueueOrder | collection/Pods/leveldb-library/db/db_impl.cc:1192-1198 | In every reachable state, whoever queued before a committed call was committed before it. |
| GroupCommit.SyncIsHonoured | collection/Pods/leveldb-library/db/db_impl.cc:1282-1285 | A sync write that was acknowledged was committed by a sync leader, and the log record with its group's operations is durable. |
| GroupCommit.RangesFollow | collection/Pods/leveldb-library/db/db_impl.cc:1202-1207 | The groups' sequence ranges are disjoint, in order and without a gap. |
| GroupCommit.SnapshotSeesWholeGroups | collection/Pods/leveldb-library/db/db_impl.cc:1185-1256 | A snapshot taken after j groups sees exactly the content of those groups, whatever was committed since and however far the leader of the moment has come. |
| GroupCommit.AcknowledgedIsApplied | collection/Pods/leveldb-library/db/db_impl.cc:1185-1256 | An acknowledged write is in the memtable whole, under consecutive sequence numbers of its own within its group's range. |
| GroupCommit.MemTable | collection/Pods/leveldb-library/db/db_impl.cc:1223-1225 | The memtable is what the groups put there followed by what the present leader has inserted so far, all of it above the last sequence. |
| GroupCommit.MemberSlice | collection/Pods/leveldb-library/db/db_impl.cc:1290-1304 | Each member's operations are one stretch of its group's. |
| Log.Writer.AddRecord | collection/Pods/leveldb-library/db/log_writer.cc:34-80 | It succeeds exactly when every operation after the trailer in front succeeds, and stops at the first of them that fails. Then all of the record is there, and the file is as it should be exactly if the trailer was written too; after a failure a part of the record is there. What is appended depends on the record and the place in the block only, so a reopened writer goes on as one that was never closed. |
| Log.LostTrailer | collection/Pods/leveldb-library/db/log_writer.cc:45-54 | It does happen: only the append of a trailer fails, the record behind it is reported as written, and the file differs from the stream of the records. |
| Log.Diverges | collection/Pods/leveldb-library/db/log_writer.cc:45-54 | A record behind a lost trailer puts the file in conflict with the right stream for good, whatever the checksums are. |
| Log.Writer.constructor | collection/Pods/leveldb-library/db/log_writer.cc:23-30 | A writer on an existing file starts at the file length modulo the block size. |
| Log.Writer.EmitPhysicalRecord | collection/Pods/leveldb-library/db/log_writer.cc:82-108 | One physical record with checksum, length and type is appended, inside the block, exactly when both appends and the flush succeed; otherwise a part of it, while the block offset advances in any case. |
| Log.WrapSame | collection/Pods/leveldb-library/db/log_writer.cc:45-58 | A completely filled block and an empty one are the same place to write from. |
| Log.OnDisk | collection/Pods/leveldb-library/db/log_format.h:14-31 | The bytes of a record of up to three blocks: blocks of 32768 bytes, and in front of each fragment checksum, length and kind. |
| Log.FirstOnDisk | collection/Pods/leveldb-library/db/log_writer.cc:34-80 | At the start of a block: the first fragment takes what fits, its kind says whether the record begins and ends with it, and the rest follows in the next block. |
| Log.TrailerOnDisk | collection/Pods/leveldb-library/db/log_writer.cc:45-54 | Up to six bytes at the end of a block are zeros; seven still hold the header of an empty fragment. |
| Log.WritableFile.Append | collection/Pods/leveldb-library/include/leveldb/env.h:257-257 | An append adds all bytes or, when it fails, some first part of them. |
| Log.WriteAll | collection/Pods/leveldb-library/db/log_writer.cc:15-80 | A whole log under any file errors, the writer closed and reopened before any record: when all records are reported as written, the file is the stream that ReadAll reads back exactly if no trailer was lost; when one fails and no trailer was lost, the file is a first part of it. Only an operation that fails before the one a record stops at can lose a trailer. |
| Log.Reader.ReadRecord | collection/Pods/leveldb-library/db/log_reader.cc:56-174 | In front of a writer's record: the record is returned exactly when all of it is in the file and no read fails; when the file was cut inside it, the end is reported and no corruption; a read that fails ends the log with one report. On any bytes at all: what is returned is a full fragment, or a first, middle ones and a last in the order of the file, each with a right checksum. |
| Log.Reader.ReadPhysicalRecord | collection/Pods/leveldb-library/db/log_reader.cc:189-271 | In front of a fragment: exactly that fragment and its kind, or the end of the file without a report when not all of it is there, or the end with a report when a read fails. |
| Log.Reader.FillBuffer | collection/Pods/leveldb-library/db/log_reader.cc:190-213 | Skipping trailers and reading blocks loses nothing; it finds no header exactly when the fragment is not complete or a read failed, which is reported as one lost block. |
| Log.Reader.ParseRecord | collection/Pods/leveldb-library/db/log_reader.cc:215-268 | The header checks never reject what a writer wrote, and a fragment that is handed out on any bytes stands in the file with a right checksum. |
| Log.Reader.CheckRecord | collection/Pods/leveldb-library/db/log_reader.cc:215-268 | On any bytes: a length beyond the block, a zero record and a wrong checksum each drop the rest of the block, with the report that the code makes or without one at the end of the file; anything else hands out the payload under its type. |
| Log.TrailerSkips | collection/Pods/leveldb-library/db/log_reader.cc:190-213 | Leftover bytes too few for a header are skipped without losing a record. |
| Log.FragmentAhead | collection/Pods/leveldb-library/db/log_reader.cc:215-230 | What the header in front of the reader says is what the writer put there. |
| Log.ReadAll | collection/Pods/leveldb-library/db/log_reader.cc:56-271 | Round trip and crash prefix: from a log cut at any byte exactly the records written completely before the cut come back, in order, and nothing is reported; from the whole log, all records. If a read fails, a first part of them comes back and the failure is reported. |
| PointerHeap.PathTo | collection/Pods/Libuv-gRPC/src/heap-inl.h:119-124 | The bits of the element count below the top one, in reverse, are the path to that place. |
| PointerHeap.Heap.Walk | collection/Pods/Libuv-gRPC/src/heap-inl.h:126-136 | Following the path bits from the root ends at the slot of that place in breadth-first order. |
| PointerHeap.Heap.Swap | collection/Pods/Libuv-gRPC/src/heap-inl.h:72-104 | Parent and child trade places, and all links around them, the root pointer included, are those of the exchanged tree. |
| PointerHeap.Heap.SwapLinks | collection/Pods/Libuv-gRPC/src/heap-inl.h:72-104 | The pointer surgery itself: the effect on the pair, the grandparent, the sibling and the grandchildren, and on no other link. |
| PointerHeap.Heap.Insert | collection/Pods/Libuv-gRPC/src/heap-inl.h:106-148 | Consistent parent and child links, a complete tree of exactly nelts nodes and the heap order are kept; the new node is the only one added. |
| PointerHeap.Heap.Remove | collection/Pods/Libuv-gRPC/src/heap-inl.h:150-237 | The same for the removal of an arbitrary member: only that node leaves. |
| PointerHeap.Heap.Min | collection/Pods/Libuv-gRPC/src/heap-inl.h:67-69 | Null exactly for the empty heap, else a member that no member is less than. |
| PointerHeap.Heap.Append | collection/Pods/Libuv-gRPC/src/heap-inl.h:115-141 | The new node becomes the last of the bottom row. |
| PointerHeap.Heap.DetachLast | collection/Pods/Libuv-gRPC/src/heap-inl.h:163-185 | The last node of the bottom row is unlinked. |
| PointerHeap.Heap.Replace | collection/Pods/Libuv-gRPC/src/heap-inl.h:195-214 | The last node takes over the place and the links of the removed one. |
| PointerHeap.Heap.SiftDown | collection/Pods/Libuv-gRPC/src/heap-inl.h:216-229 | The node sinks until no child is less, and the tree keeps its nodes. |
| PointerHeap.Heap.SiftUp | collection/Pods/Libuv-gRPC/src/heap-inl.h:143-147 | The node rises until its parent is not greater, which restores the whole heap order. |
| PointerHeap.OrderComplete | collection/Pods/Libuv-gRPC/src/heap-inl.h:231-236 | Order everywhere but at one place, and order at that place, is the heap order. |
| PointerHeap.Heap.CountsMembers | collection/Pods/Libuv-gRPC/src/heap-inl.h:33-43 | nelts is the number of members. |
| Timers.DueTime | collection/Pods/Libuv-gRPC/src/timer.c:78-80 | The due time is now plus timeout, clamped to the largest 64-bit number when the sum wraps. |
| Timers.Loop.Start | collection/Pods/Libuv-gRPC/src/timer.c:66-94 | The timer is in the heap once, with its due time and a new start number; a closing handle or no callback is refused and changes nothing. |
| Timers.Loop.Stop | collection/Pods/Libuv-gRPC/src/timer.c:97-107 | The timer is in the heap no longer and is inactive; stopping an inactive one changes nothing. |
| Timers.Loop.Again | collection/Pods/Libuv-gRPC/src/timer.c:110-120 | A repeating timer is started afresh with its repeat interval; without a callback it is an error. Its key changes only then, and its interval, its callback and whether it is closing never. |
| Timers.Loop.NextTimeout | collection/Pods/Libuv-gRPC/src/timer.c:133-151 | -1 without timers, 0 when one is due, else the time to the earliest, at most INT_MAX. |
| Timers.Loop.RunTimers | collection/Pods/Libuv-gRPC/src/timer.c:154-171 | For callbacks that leave the timers alone it terminates; exactly the due timers fire, once each, in order of due time and start; a repeating one is armed for its interval later, no other timer changes. |
| Timers.Loop.Fire | collection/Pods/Libuv-gRPC/src/timer.c:167-169 | One round stops the least due timer and arms it again if it repeats, and settles no other timer. |
| IntrusiveQueue.InsertTail | collection/Pods/Libuv-gRPC/src/queue.h:92-99 | The links stay one ring, with the new link at its end, whatever its pointers were. |
| IntrusiveQueue.Remove | collection/Pods/Libuv-gRPC/src/queue.h:101-107 | The links stay one ring without the removed link, whose own pointers are left as they were. |
| IntrusiveQueue.Move | collection/Pods/Libuv-gRPC/src/queue.h:61-81 | The whole ring goes over to the new head and the old head is alone; also for an empty queue. |
| IntrusiveQueue.Head | collection/Pods/Libuv-gRPC/src/queue.h:39-43 | Empty exactly when the head is alone, else the first link after it. |
| IntrusiveQueue.OneRing | collection/Pods/Libuv-gRPC/src/queue.h:22-27 | The pointers determine the ring. |
| ThreadPool.OnePlace | collection/Pods/Libuv-gRPC/src/threadpool.c:57-160 | In every reachable state a submitted request is in exactly one place (a queue, a worker, being cancelled, finished, called back), slow work holds at most half of the threads rounded up, and waiting slow work is announced in the main queue exactly once. |
| ThreadPool.OneCallback | collection/Pods/Libuv-gRPC/src/threadpool.c:295-315 | At most one callback per request, with UV_ECANCELED exactly when its function never ran; no function runs twice. |
| ThreadPool.NothingStranded | collection/Pods/Libuv-gRPC/src/threadpool.c:68-78 | When every worker sleeps unwoken, no request waits in either queue. |
| ThreadPool.NothingOverslept | collection/Pods/Libuv-gRPC/src/threadpool.c:65-160 | The use that is made of the threads, in every reachable state: when a worker sleeps and none is on its way to the queue, no quick request waits, and slow ones wait only while slow work has half of the threads or more. |
| ThreadPool.RevokedNeverRuns | collection/Pods/Libuv-gRPC/src/threadpool.c:269-292 | A request whose cancellation succeeded never runs and never reports success. |
| ThreadPool.ThreadPool.Submit | collection/Pods/Libuv-gRPC/src/threadpool.c:142-162 | The request is queued once, slow ones behind the run-slow message; runnable work never waits while all workers stay asleep. |
| ThreadPool.ThreadPool.Turn | collection/Pods/Libuv-gRPC/src/threadpool.c:65-113 | One stay in the mutex ends with a job in hand or asleep. The job is the oldest quick request, or the oldest slow one when the run-slow message is in front and slow work has less than half of the threads; the order of the others stays. Asleep only when the queue is empty, or holds just the message and slow work has at least half of the threads. |
| ThreadPool.ThreadPool.StartSlow | collection/Pods/Libuv-gRPC/src/threadpool.c:97-113 | The oldest slow request is taken, below the cap, and the message is queued again exactly when more are waiting. |
| ThreadPool.ThreadPool.StartJob | collection/Pods/Libuv-gRPC/src/threadpool.c:80-88 | The request at the head of the queue is taken, and no other. |
| ThreadPool.ThreadPool.Spurious | collection/Pods/Libuv-gRPC/src/threadpool.c:68-78 | A wakeup without a signal keeps everything every step keeps. |
| ThreadPool.ThreadPool.Run | collection/Pods/Libuv-gRPC/src/threadpool.c:115-118 | The request's function runs, outside of both locks. |
| ThreadPool.ThreadPool.Finish | collection/Pods/Libuv-gRPC/src/threadpool.c:120-125 | The request is queued for its callback, marked as done. |
| ThreadPool.ThreadPool.Relock | collection/Pods/Libuv-gRPC/src/threadpool.c:127-133 | The worker is ready again and slow work gives its slot back; nothing else of the state changes. |
| ThreadPool.ThreadPool.Cancel | collection/Pods/Libuv-gRPC/src/threadpool.c:269-283 | Busy exactly when a worker holds the request or has run it; otherwise it leaves its queue and its revocation is final. |
| ThreadPool.ThreadPool.CancelEnd | collection/Pods/Libuv-gRPC/src/threadpool.c:285-292 | The revoked request is queued for its callback, marked as cancelled. |
| ThreadPool.ThreadPool.DoneBegin | collection/Pods/Libuv-gRPC/src/threadpool.c:295-304 | The whole queue of finished requests is taken over. |
| ThreadPool.ThreadPool.DoneNext | collection/Pods/Libuv-gRPC/src/threadpool.c:306-315 | The oldest finished request gets its callback, successful exactly when its function ran. |
| ThreadPool.CancelTest | collection/Pods/Libuv-gRPC/src/threadpool.c:275-277 | The test on the queue link and the work pointer tells exactly whether a worker holds or has run the request. |
| ThreadPool.SignalKeeps | collection/Pods/Libuv-gRPC/src/threadpool.c:157-159 | A signal sent whenever somebody counts as idle keeps up with one more entry in the queue: while a worker sleeps, as many are on their way to look as there are entries to start. |
| Inet.InetNtop4 | collection/Pods/Libuv-gRPC/src/inet.c:53-64 | The dotted text if it fits into the buffer with its terminator, which 16 characters always hold; else an error. |
| Inet.RoundTrip4 | collection/Pods/Libuv-gRPC/src/inet.c:179-215 | Parsing the printed IPv4 text returns the four octets. |
| Inet.InetPton4 | collection/Pods/Libuv-gRPC/src/inet.c:179-215 | The loop accepts exactly the printed texts of four octets, so four decimal numbers up to 255 without leading zeros, and returns those octets. |
| Inet.Parse4Iff | collection/Pods/Libuv-gRPC/src/inet.c:179-215 | Parsing gives four octets if and only if the text is what printing them gives. |
| Inet.BestRun | collection/Pods/Libuv-gRPC/src/inet.c:80-109 | The run chosen is the first of the longest runs of two or more zero words, or none. |
| Inet.HexIff | collection/Pods/Libuv-gRPC/src/inet.c:138-138 | The hexadecimal groups are the shortest lower-case numerals of their words, and no other text is. |
| Inet.DecimalIff | collection/Pods/Libuv-gRPC/src/inet.c:55-58 | The decimal octets are the shortest decimal numerals of their values, and no other text is. |
| Inet.HexValueIff | collection/Pods/Libuv-gRPC/src/inet.c:219-249 | The digits that the parsers take are the ten decimal ones, and for IPv6 the hexadecimal ones of both cases. |
| Inet.FromIs | collection/Pods/Libuv-gRPC/src/inet.c:110-147 | The text for a run of zero words: "::" or "::ffff:" and the last two words as an IPv4 address when words 0 to 5 alone are zero, or words 0 to 4 and word 5 is 0xffff; otherwise hexadecimal groups with "::" in place of the run, and no dot. |
| Inet.InetNtop6 | collection/Pods/Libuv-gRPC/src/inet.c:67-147 | The text compresses exactly the best run, as section 4.2 of RFC 5952 asks. It ends in an IPv4 address exactly for IPv4-compatible and IPv4-mapped addresses and is hexadecimal groups otherwise; it is returned exactly when it fits with its terminator. |
| Inet.InetPton6 | collection/Pods/Libuv-gRPC/src/inet.c:218-302 | The character loop accepts exactly the texts of a grammar and returns the bytes they mean. |
| Inet.Parse6Iff | collection/Pods/Libuv-gRPC/src/inet.c:218-302 | The grammar: groups of one to four hexadecimal digits of either case between colons, at most one "::" for one or more zero words, and perhaps an IPv4 address in place of the last two; sixteen bytes in all. |
| Inet.MeaningIff | collection/Pods/Libuv-gRPC/src/inet.c:218-302 | Which texts of the grammar mean an address: eight words, or at most seven around "::", which stands for the zero bytes that are missing. |
| Inet.RoundTrip6 | collection/Pods/Libuv-gRPC/src/inet.c:67-302 | Parsing the printed IPv6 text returns the address, whichever run of zero words is compressed. |
| Inet.AddressRoundTrip | collection/Pods/Libuv-gRPC/src/inet.c:67-302 | For every 16 bytes: the printed text has at most 45 characters and parses back to them. |
| Inet.EmbeddedParses | collection/Pods/Libuv-gRPC/src/inet.c:266-272 | An embedded IPv4 address is parsed back although its first digits pass for hexadecimal. |
| Inet.SevenZerosStayHex | collection/Pods/Libuv-gRPC/src/inet.c:118-137 | The second alternative of the embedded-address test is dead: with seven leading zero words, word 6 has been skipped before the test is reached. |
| NanopbRoundTrip.MessageRoundTrip | collection/Pods/nanopb/pb_decode.c:1084-1096 | For every nested schema of static fields and every valid message of at most 2^32 - 1 bytes, decoding the encoding into a message set to its defaults succeeds and gives the message back. |
| NanopbRoundTrip.SchemaEvolution | collection/Pods/nanopb/pb_decode.c:934-1096 | Writer and reader with different schemas that agree on the field numbers both know: every valid message of the writer, decoded with the reader's schema, gives the common fields, and defaults for those the writer does not know; the fields only the writer knows are passed over. Decoding fails if and only if one of the reader's first 64 required fields is unknown to the writer. |
| NanopbRoundTrip.SkipsValue | collection/Pods/nanopb/pb_decode.c:278-331 | Skipping passes over exactly one encoded value, of every type, whatever follows. |
| NanopbRoundTrip.SkipsSlot | collection/Pods/nanopb/pb_decode.c:989-996 | A field the reader does not know is passed over, whatever its type and rule, arrays of both forms included. |
| NanopbRoundTrip.UnpackedAccepted | collection/Pods/nanopb/pb_decode.c:421-467 | A packable array is also read from one tagged entry after another, as writers that do not pack send it. |
| NanopbRoundTrip.VarintsOnTheWire | collection/Pods/nanopb/pb_encode.c:608-700 | The bytes of three fields: 150 as a varint, -2 in zigzag, true under a field number of two key bytes. |
| NanopbRoundTrip.NegativeOnTheWire | collection/Pods/nanopb/pb_encode.c:769-800 | The bytes of a field that holds -1: ten bytes, as for an unsigned 64-bit number. |
| NanopbRoundTrip.FixedOnTheWire | collection/Pods/nanopb/pb_encode.c:637-668 | The bytes of numbers of four and eight bytes: low byte first, wire types 5 and 1. |
| NanopbRoundTrip.StringsOnTheWire | collection/Pods/nanopb/pb_encode.c:147-236 | The bytes of a string and of a packed array: wire type 2 and the length in front. |
| NanopbSafety.DecodedIsSafe | collection/Pods/nanopb/pb_decode.c:1084-1096 | For any bytes at all: when pb_decode succeeds, every value fits its field, no string or array is longer than its room, strings end in it, a fixed-count array has all its entries or none, and at most one member of a union is there; in submessages too. |
| NanopbSafety.MessageIsSafe | collection/Pods/nanopb/pb_decode.c:934-1082 | The same for decoding into a structure that already holds something, as a repeated submessage does. |
| NanopbSafety.ValueIsSafe | collection/Pods/nanopb/pb_decode.c:1334-1570 | Whatever the bytes, each decoder leaves a value that fits its field or fails. |
| NanopbSafety.RangeIs | collection/Pods/nanopb/pb_decode.c:1345-1428 | The bounds of an integer field are those of its 1, 2, 4 or 8 bytes. |
| NanopbRoundTrip.ImplicitZeroIff | collection/Pods/nanopb/pb_encode.c:355-359 | A zero number without a has_ flag comes back exactly when its default is zero or absent: the encoder leaves it out. |
| NanopbRoundTrip.ZeroIsDefault | collection/Pods/nanopb/pb_encode.c:240-337 | A value that the encoder leaves out as zero is what the decoder starts from. |
| NanopbRoundTrip.LeftOutIff | collection/Pods/nanopb/pb_encode.c:240-337 | What the encoder leaves out of a field without a has_ flag: zero numbers, empty strings and nothing else; zeros of a fixed length are written. |
| NanopbRoundTrip.PackedRoundTrip | collection/Pods/nanopb/pb_decode.c:421-453 | A packed array comes back entry by entry. |
| NanopbRoundTrip.EntriesStep | collection/Pods/nanopb/pb_decode.c:454-467 | The tagged entries of an array come back in order. |
| NanopbRoundTrip.SingleStep | collection/Pods/nanopb/pb_decode.c:406-419 | The decoder's loop undoes one tagged value, whatever follows. |
| NanopbRoundTrip.SignedRoundTrip | collection/Pods/nanopb/pb_decode.c:1345-1428 | Sign extension and zigzag, also through a 32-bit register, return the number. |
| NanopbRoundTrip.Varint32Iff | collection/Pods/nanopb/pb_decode.c:187-247 | When the 32-bit reader is what it seems: it agrees with reading at most five bytes and 32 bits exactly unless the varint runs on with padding. |
| NanopbRoundTrip.NegativeIn32 | collection/Pods/nanopb/pb_decode.c:222-232 | What the padding is for: a negative number written in ten bytes is read as its low 32 bits. |
| NanopbRoundTrip.BitsLost | collection/Pods/nanopb/pb_decode.c:222-247 | What else it lets through: six bytes that stand for seven times 2 to the 32 are read as zero. |
| NanopbRoundTrip.Varint64TooLong | collection/Pods/nanopb/pb_decode.c:255-276 | A varint that does not end within ten bytes is refused. |
| NanopbRoundTrip.UnknownIsSkippedIff | collection/Pods/nanopb/pb_common.c:87-104 | A key that names no field is skipped by its wire type, whatever follows, exactly unless it is field number 0 of a message without fields. |
| NanopbRoundTrip.EmptyMessageReadsBool | collection/Pods/nanopb/pb_decode.c:934-996 | There the terminator passes for a required bool: an empty message accepts two bytes that cannot be skipped. |
| NanopbRoundTrip.FieldsFrom | collection/Pods/nanopb/pb_decode.c:934-1082 | From any field of the writer on, the reader's loop arrives at the state in which all remaining fields both sides know have been decoded. |
| NanopbStreams.OStream.Write | collection/Pods/nanopb/pb_encode.c:103-131 | Bytes are appended and counted, or only counted by a sizing stream; when they do not fit, buffer and count stay as they were. |
| NanopbStreams.OStream.EncodeVarint | collection/Pods/nanopb/pb_encode.c:608-628 | The varint of the value is written. |
| NanopbStreams.FieldIter.Next | collection/Pods/nanopb/pb_common.c:29-85 | The iterator advances, and wraps to the first field exactly after the last. |
| NanopbStreams.FieldIter.FindTag | collection/Pods/nanopb/pb_common.c:87-104 | Once round from wherever it is, the iterator finds a field with the tag exactly when there is one, or the terminator for tag 0 of an empty message, and otherwise is back where it was. |
| NanopbStreams.EncodeSubmessage | collection/Pods/nanopb/pb_encode.c:717-765 | The sizing pass counts exactly the bytes of the second pass, so "submsg size changed" cannot come up; length and message are written, or they do not fit. |
| NanopbStreams.EncodeOne | collection/Pods/nanopb/pb_encode.c:769-905 | Each type's encoder writes the specified bytes, or they do not fit. |
| NanopbStreams.EncodeRepeated | collection/Pods/nanopb/pb_encode.c:147-236 | An array is written packed, its size counted first, or entry by entry, and not at all when empty. |
| NanopbStreams.EncodeField | collection/Pods/nanopb/pb_encode.c:341-426 | A field is written by its rule: required, optional, implicit presence, union member or array. |
| NanopbStreams.Encode | collection/Pods/nanopb/pb_encode.c:528-550 | All of the message is written, or an error is returned exactly when it does not fit. |
| NanopbStreams.IStream.DecodeVarint32Eof | collection/Pods/nanopb/pb_decode.c:187-247 | The byte loop with its 32-bit register, its overflow tests and its sign extension: success, value and what is left are those of the whole varint, reduced to 32 bits, when it fits or its tail is padding. |
| NanopbStreams.IStream.DecodeVarint | collection/Pods/nanopb/pb_decode.c:255-276 | The byte loop with its 64-bit register computes the varint's value modulo 2 to the 64, and fails when it does not end within ten bytes. |
| NanopbStreams.IStream.DecodeTag | collection/Pods/nanopb/pb_decode.c:298-319 | Field number and wire type of the key in front; a zero key or an empty stream is the end of the message, anything else an error. |
| NanopbStreams.IStream.SkipField | collection/Pods/nanopb/pb_decode.c:321-331 | Exactly what the wire type announces is skipped (`NanopbRoundTrip.SkipsValue`), or it is not all there. |
| NanopbStreams.IStream.MakeSubstream | collection/Pods/nanopb/pb_decode.c:372-385 | The substream has exactly the announced bytes, and the stream goes on after them; a length beyond the end is an error. |
| NanopbStreams.Clamps | collection/Pods/nanopb/pb_decode.c:1366-1379 | Casting to the field's size and comparing finds exactly the numbers that fit it. |
| NanopbStreams.DecVarint | collection/Pods/nanopb/pb_decode.c:1345-1380 | Signed numbers, through 32 bits for the smaller fields: the stored value and the range error of the specification. |
| NanopbStreams.DecFixedLengthBytes | collection/Pods/nanopb/pb_decode.c:1549-1570 | An empty string stands for zeros, any other must have the field's length. |
| NanopbStreams.DecodeOne | collection/Pods/nanopb/pb_decode.c:1334-1547 | Each type's decoder, built from the stream's loops, agrees with the specification on success, value and what is left, on any bytes; a submessage is merged into what was there. |
| NanopbStreams.DecodeStatic | collection/Pods/nanopb/pb_decode.c:406-483 | A field's decoder agrees with the specification for single values, packed and unpacked arrays up to their size, and unions. |
| NanopbStreams.CheckRequired | collection/Pods/nanopb/pb_decode.c:1040-1079 | Whole words, and the low bits of the last one, compared with all ones: the test finds exactly a missing one of the first 64 required fields. |
| NanopbStreams.DecodeKnown | collection/Pods/nanopb/pb_decode.c:1001-1037 | One round for a known field: fixed-count arrays start over or have the wrong size, the field's bit is set in its word, and its value is decoded, as the specification says. |
| NanopbStreams.DecodeNoInit | collection/Pods/nanopb/pb_decode.c:934-1082 | The loop succeeds exactly when the specification does, on any bytes, and returns the same message: unknown fields skipped, fixed-count arrays and required fields checked, and the terminator of an empty message read as a bool. |
| NanopbStreams.EncodeThenDecode | collection/Pods/nanopb/pb_encode.c:528-550 | pb_encode into a buffer succeeds exactly when it is large enough; pb_decode of those bytes with a reader's schema then returns what `SchemaEvolution` says, and with the writer's own schema the message. |
| LruCache.ListsPartition | collection/Pods/leveldb-library/util/cache.cc:20-41 | In every reachable state a cached handle is on exactly one of the two lists, on lru_ exactly when no client holds it. |
| LruCache.DeletedOnce | collection/Pods/leveldb-library/util/cache.cc:225-237 | A handle's deleter has run exactly when no reference is left, and at most once. |
| LruCache.EvictedKeeps | collection/Pods/leveldb-library/util/cache.cc:293-300 | Eviction takes the oldest unused handles first, touches none in use, and ends within the capacity or with no unused handle left. |
| LruCache.EvictedSheds | collection/Pods/leveldb-library/util/cache.cc:293-300 | Eviction takes the k oldest unused handles, in this order, and no more than it must: without the last of them the charges would exceed the capacity. |
| LruCache.LeastRecentlyUsed | collection/Pods/leveldb-library/util/cache.cc:186-303 | The cache evicts by last use, over whole runs: let a handle wait unused when the last reference to another is given back; in any run of calls from there on that does not name either key, the later one goes only after the earlier. |
| LruCache.StepInOrder | collection/Pods/leveldb-library/util/cache.cc:214-333 | No call reorders two unused handles whose keys it does not name. |
| LruCache.DisplacedLast | collection/Pods/leveldb-library/util/cache.cc:283-288 | Inserting under a taken key and then erasing the displaced handle comes to the same as erasing it first. |
| LruCache.AddedKeeps | collection/Pods/leveldb-library/util/cache.cc:266-288 | Usage stays the sum of the charges of the cached handles. |
| LruCache.LRUCache.Insert | collection/Pods/leveldb-library/util/cache.cc:266-303 | The new handle is the caller's and, unless the capacity is 0, cached under its key in place of an older one; then the fewest oldest unused handles go that bring usage within the capacity, or all of them. |
| LruCache.LRUCache.Lookup | collection/Pods/leveldb-library/util/cache.cc:252-259 | A hit exactly when the key is cached, and then with a reference taken and the handle off the unused list, everything else as it was; a miss changes nothing. |
| LruCache.LRUCache.Release | collection/Pods/leveldb-library/util/cache.cc:261-264 | One client reference is given back. With the last one a cached handle goes to the end of the unused list, and one that is no longer cached is deleted; otherwise only the counts change. |
| LruCache.LRUCache.Erase | collection/Pods/leveldb-library/util/cache.cc:318-321 | The key is not cached any more, its charge is given back, and its handle is deleted if no client holds it; one still in use lives on, off both lists, until released. |
| LruCache.LRUCache.Prune | collection/Pods/leveldb-library/util/cache.cc:323-333 | The unused handles, all of them and no others, are deleted, oldest first, and leave the table; handles in use, erased ones that a client still holds, and their references stay as they were. |
| HandleTables.HandleTable.Lookup | collection/Pods/leveldb-library/util/cache.cc:74-76 | The buckets answer like a map from key and hash to handle. |
| HandleTables.HandleTable.Insert | collection/Pods/leveldb-library/util/cache.cc:78-92 | The map gets the handle under its key, and the one it displaced is returned; there are never more handles than buckets. |
| HandleTables.HandleTable.Remove | collection/Pods/leveldb-library/util/cache.cc:94-102 | The map loses the key, and the handle it had is returned. |
| HandleTables.HandleTable.Resize | collection/Pods/leveldb-library/util/cache.cc:122-147 | The map is unchanged; the number of buckets is the least power of two from 4 on that is not below the number of handles. |
| HandleTables.MaskIsModulo | collection/Pods/leveldb-library/util/cache.cc:114-120 | For those lengths the mask hash & (length - 1) has the bits of the remainder. |
| HandleTables.HandleTable.FindPointer | collection/Pods/leveldb-library/util/cache.cc:114-120 | The place of the one matching handle in its chain, or the end of the chain when there is none. |
| HandleTables.MoveAll | collection/Pods/leveldb-library/util/cache.cc:130-143 | The rehashing loops move every handle once, into its new bucket. |
| VersionEdits.VersionEdit.EncodeTo | collection/Pods/leveldb-library/db/version_edit.cc:41-85 | The fields that are there are appended in the format's order. |
| VersionEdits.VersionEdit.DecodeFrom | collection/Pods/leveldb-library/db/version_edit.cc:107-205 | Success exactly when every field is well-formed and nothing is left over, and then those fields. |
| VersionEdits.EditRoundTrip | collection/Pods/leveldb-library/db/version_edit.cc:41-205 | Decoding an encoded edit fills in exactly its fields; compaction pointers that were there before stay in front. |
| VersionEdits.EditRoundTripIff | collection/Pods/leveldb-library/db/version_edit.cc:26-39 | Clear does not reset the compaction pointers, so decoding gives the edit back exactly into an edit that had none. |
| VersionEdits.EditOnDisk | collection/Pods/leveldb-library/db/version_edit.cc:14-24 | The bytes of an edit with every field, in order, each behind its number. |
| VersionEdits.LevelIff | collection/Pods/leveldb-library/db/version_edit.cc:96-104 | A level is taken if and only if it is below seven. |
| VersionEdits.TooLong | collection/Pods/leveldb-library/db/version_edit.cc:106-205 | Numbers and lengths of too many bytes are refused. |
| VersionBuilders.ReplayIsStepwise | collection/Pods/leveldb-library/db/version_set.cc:650-754 | One builder for a whole sequence of edits saves the same list of files as saving after each edit, if no edit adds a file under a number the level has held. |
| VersionBuilders.ReplayIs | collection/Pods/leveldb-library/db/version_set.cc:650-754 | What one builder saves for any sequence of edits: at every place of the order (smallest key and number) the base files and then the first file ever added there, unless the number was dropped last and not added again. |
| VersionBuilders.SavedEachIs | collection/Pods/leveldb-library/db/version_set.cc:650-754 | What is there after saving once per edit: at every place everything added since its number was last dropped, and the base files in front if it never was. |
| VersionBuilders.ReplayIsStepwiseIff | collection/Pods/leveldb-library/db/version_set.cc:650-754 | Exact condition, on the files and edits: the two lists are equal if and only if for every file ever held whose number is not gone, either something was at its place before its last drop and is exactly what has been added since, or nothing was and at most one edit has added there since. |
| VersionBuilders.ReuseResurrects | collection/Pods/leveldb-library/db/version_set.cc:689-690 | It does fail: when a number comes back, a single builder brings the old file back with the new one. |
| VersionBuilders.SecondIgnored | collection/Pods/leveldb-library/db/version_set.cc:590-605 | It also fails the other way: of two files with the same smallest key and number, added by two edits, the set of a single builder takes the first only, and saving after each edit gives both. |
| VersionBuilders.OrderDetermines | collection/Pods/leveldb-library/db/version_set.cc:592-605 | Ordered lists with the same tied files in the same order, at every place, are the same list. |
| VersionBuilders.ParsesEncoded | collection/Pods/leveldb-library/db/dbformat.h:137-171 | The keys that order files are the encoded internal keys: user key, then the tag in eight bytes. |
| VersionBuilders.Insert | collection/Pods/leveldb-library/db/version_set.cc:690-690 | A file is added at its place exactly when none there compares equal; otherwise the set stays as it is. |
| VersionBuilders.SaveLevel | collection/Pods/leveldb-library/db/version_set.cc:695-739 | The merge is ordered and has at every place the base files followed by the added one, without those of deleted numbers, whatever the two lists have in common. |
| VersionBuilders.Builder.Apply | collection/Pods/leveldb-library/db/version_set.cc:650-692 | Each level's state takes the edit: deletions first, then the additions one by one, each undoing the deletion of its number and added unless the set has a file that compares equal. |
| VersionBuilders.Builder.SaveTo | collection/Pods/leveldb-library/db/version_set.cc:695-739 | Every level is saved as the merge of its base and its added files without the deleted numbers, in order. |
| VersionBuilders.Recover | collection/Pods/leveldb-library/db/version_set.cc:918-1004 | Any records: success exactly when each is a well-formed edit under this comparator and log, file and sequence counters were set; then each counter's last value, and levels that one builder saves, equal to saving after each edit exactly under the condition above. |
| VersionBuilders.EncodedEdits | collection/Pods/leveldb-library/db/version_set.cc:918-938 | Records that are encodings of valid edits are read as those edits. |
| VersionBuilders.EditsOfIff | collection/Pods/leveldb-library/db/version_set.cc:921-939 | Records are taken if and only if each decodes to an edit and names no other comparator. |
| VersionBuilders.CountersAre | collection/Pods/leveldb-library/db/version_set.cc:941-960 | Each counter is that of the last edit that sets it. |
| VersionBuilders.SnapshotIff | collection/Pods/leveldb-library/db/version_set.cc:1088-1116 | A level written as one edit comes back exactly when no two of its files compare equal. |
| VersionBuilders.SnapshotThenEdits | collection/Pods/leveldb-library/db/version_set.cc:1088-1116 | For such a level, a snapshot of it followed by later edits rebuilds it with those edits applied one by one. |

## Left out

- CompactionWork.CompactionInvisible: assumes what the choice of inputs has to guarantee (older versions outside the inputs lie under files that the base-level test sees); `CompactionInputs.ChosenIsAdmissibleIff` says exactly when it does, and `CompactionInputs.ChosenReadsIff` what readers see in any case. Level order is a hypothesis of each step, not an invariant over a whole run, because a memtable flush can be installed in the middle of a compaction.
- CompactionInputs.ChosenCompactionInvisible: is the sufficient half for backed boundaries; the exact condition for readers is `CompactionInputs.ChosenReadsIff`.
- PointLookup.Get: takes what the table cache hands over as a function of the file and assumes that it can always be read; for a table of several blocks, `SortedTable.HandsOver` says what that is. The memtables' own entries parse, as everything a write adds does.
- DbIterator.DBIter.Next: does not model read sampling; a corrupt key is skipped, and only the status tells.
- Merger.MergingIterator.constructor: takes each memtable and each table as one sorted run; that a two-level iterator reads a table as such a run is `TwoLevel`, with the same positions.
- SortedTable.InternalGet: takes index and data blocks as decoded lists of entries; the decoding of blocks is in `Block`.
- SortedTable.TableBuilder.WriteBlock: takes the bytes of a block, its compression and its checksum as an arbitrary size.
- SortedTable.TableBuilder.Finish: takes the writes of filter, metaindex, index and footer as one file operation that succeeds or fails.
- Block.Iter.Seek: covers blocks that a builder wrote; what the iterator does on damaged bytes is left out.
- FilterBlock.FilterBlockBuilder.Finish: covers filter data below 2 to the 32 bytes.
- Bloom.BloomFilterPolicy.constructor: takes 69/100 for the floating-point factor 0.69.
- Coding.GetVarint: one loop stands for the 32-bit and the 64-bit reader, and one for both writers; the unrolled 32-bit writer is not modelled.
- SkipList.Reader.Step: takes memory as sequentially consistent; acquire and release orders are not modelled, and the random height is an input.
- GroupCommit.Database.Lead: takes the result of MakeRoomForWrite as an input and requires that sequence numbers do not run out; switching memtables and log files is left out.
- GroupCommit.Database.AppendRecord: a failed append is a status and adds no record; the partial record that it may leave in the file is left out.
- GroupCommit.Database.SyncLog: a failed sync is a status; the record stays in the log and is not known to be durable.
- Log.Reader.ReadRecord: starts at offset 0 with checksums on, so skipping to an initial offset and resynchronising there are left out. The checksum is any function of type and payload.
- VersionBuilders.Recover: takes the records that the log reader returns; finding the MANIFEST through CURRENT and reusing it are left out.
- VersionBuilders.Builder.SaveTo: leaves out reference counts, the seek budget of files, the compaction pointers of the version set and the overlap assertions of debug builds.
- LruCache.LRUCache.Insert: the two lists are sequences and the table is a map; the chained table itself is `HandleTables`, and sharding and the mutex are left out.
- HandleTables.HandleTable.Resize: takes the bucket of a hash as the remainder by the length, which `HandleTables.MaskIsModulo` proves to be the code's mask; chains are sequences.
- Timers.Loop.RunTimers: assumes callbacks that leave the timers alone (one that starts or stops timers is left out), a loop time below the largest 64-bit number, and start numbers that do not wrap.
- ThreadPool.ThreadPool.Cancel: requires that the request's callback has not run, as libuv does. Thread exit, fork handling and a second loop are left out.
- ThreadPool.ThreadPool.Submit: takes the queues as sequences; the pointer operations they stand for are `IntrusiveQueue`.
- NanopbRoundTrip.MessageRoundTrip: covers schemas with distinct tags from 1 to 2^29 - 1 and no default on fields with implicit presence (`ImplicitZeroIff` says why), and messages below 2^32 bytes; so does `SchemaEvolution`, where a submessage known to both sides has the same fields on both. The content of an absent optional field is not part of a message.
- NanopbStreams.IStream.DecodeVarint32Eof: takes the type of the bit position as wide enough; in eight bits it wraps for varints of more than 36 bytes.
- NanopbStreams.FieldIter.Next: leaves out the data and size pointers; the field's place among the slots stands for them.
- NanopbStreams.Encode: requires values within their bounds, so the errors for broken structures are left out.
- Inet.InetNtop6: does not model the zone suffix that uv_inet_pton strips, nor the dispatch on the address family.
- Files, caches of open tables, CURRENT, locks, clocks, threads and mutexes of LevelDB: contents are values and failures are statuses.
- Compaction scores, seek-triggered compaction, trivial moves, manual ranges and the sizes behind the grandparent limit: where a compaction starts, and at which records a table counts as big or as due to stop, are inputs.
- Snappy and block checksums; the block cache in front of the table reader.
- nanopb's callbacks, pointer fields, extensions and build options, and pb_decode_delimited and pb_decode_nullterminated.
- The Swift screens, BoringSSL and Firebase glue, idna.c, fs-poll.c, repair.cc, histogram.cc, arena.cc, filename.cc, logging.cc and c.cc: declarations, wrappers and easier members than the ones above.
