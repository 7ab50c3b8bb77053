# mai storage engine: a model and its proofs

mai is a storage engine. This project models its core in Dafny and proves what the parts
promise each other:

- **Epoch-based reclamation** (`Ebr.dfy`): readers, owners and the collector as an interleaving of
  single loads and stores, and the collector as an object whose every action is a step of that
  protocol. No object is deleted while a reader that picked it up is inside.
- **Bw-tree** (`SortedEntries.dfy`, `BwPage.dfy`, `BwShape.dfy`, `BwTree.dfy`, `BwIterator.dfy`): pages
  as delta chains, the simple and the fast reading of a page, splits that move the separator into
  the parent and cascade, consolidation, and iteration, against a set of keys.
- **Cursor stack** (`Cursors.dfy`, `Merging.dfy`, `Snapshot.dfy`, `DbIterator.dfy`, `Overlay.dfy`,
  `DeltaAmend.dfy`, `CursorStack.dfy`): merging, snapshot and overlay iterators, each driving the one
  below it and proved to be a cursor in one sorted sequence over any mix of seeks, `Next` and `Prev`.
- **Redo path** (`Varint.dfy`, `WriteBatches.dfy`, `Wal.dfy`, `WalReading.dfy`, `Tags.dfy`, `Replay.dfy`,
  `VersionPatches.dfy`): integer encodings, write batches, the block-fragmented log, replay with
  sequence numbers, and manifest records.
- **Containers and locks** (`SkipShape.dfy`, `SkipLists.dfy`, `MemTables.dfy`, `SpinLock.dfy`): the skip
  list at every single store and under concurrent searches, the two memory tables that must agree,
  and the reader/writer spin lock over the accesses of its threads.
- **Multi-word arithmetic** (`BigNumber.dfy`, `HexLiteral.dfy`): multiplication, division by a word,
  and hexadecimal literals parsed and printed.

What the parts share is in `Common.dfy`. Keys that only a comparator looks at are reals: every
countable total order embeds in the rationals, and nothing but the order is used. Node and page addresses are numbers. Machine integers
are unbounded here, with their width written out where it matters. Interleavings are sequentially
consistent.

Three promises turn out to hold only under a condition, and the condition is proved to be exact:

- A log read back from a memory-mapped file loses its last record if that record is empty, because a
  mapped file reports its end even to a read of no bytes (`WalReading.RoundTripIsExact`).
- A sequence number survives its tag exactly if it is below 2^56; the check in the source admits
  all numbers below 2^57 (`Tags.TagRoundTrip`, `Replay.NumbersAreConsecutive`).
- Division of a multi-word number by a word is right on all numbers exactly for divisors that are
  even or at most 2^31, because the branch for large dividends halves both operands and never corrects
  its estimate (`BigNumber.DivideIsExactIff`).

## Model

| member | source | states |
|---|---|---|
| `EbrProtocol.ConservedMembers` | src/base/ebr.cc:44-63 | an object was given to Limbo exactly if it is in limbo, in some epoch list or deleted, and a deleted one is in no list |
| `EbrProtocol.ReaderStepKeepsInv` | src/base/ebr.h:35-47 | every atomic step of a reader (register, epoch load, epoch store, acquire, exit) keeps the protocol invariant, also when the load and the store straddle an advance |
| `EbrProtocol.OwnerStepKeepsInv` | src/base/ebr.h:98-105 | linking, unlinking and handing an object to Limbo keep the invariant |
| `EbrProtocol.VisitKeepsInv` | src/base/ebr.cc:27-37 | a visit of one registered reader keeps the invariant: a reader that is passed is outside or in the epoch being closed |
| `EbrProtocol.AdvanceAgesHolder` | src/base/ebr.cc:38-39 | after a full scan the lists age by one and no reader inside holds an object of the list that is two epochs old |
| `EbrProtocol.AdvanceKeepsInv` | src/base/ebr.cc:38-39 | the store of the next epoch keeps the invariant |
| `EbrProtocol.StageKeepsInv` | src/base/ebr.cc:52-59 | moving the limbo stack into the staging slot and picking the due list keep the invariant |
| `EbrProtocol.DeleteKeepsInv` | src/base/ebr.cc:85-93 | each call of the deleter keeps the invariant: nobody inside holds the object it is given |
| `EbrProtocol.StepKeepsInv` | src/base/ebr.cc:8-93 | every step of anybody keeps the invariant |
| `EbrProtocol.RunKeepsInv` | src/base/ebr.cc:8-93 | the invariant holds in every state of every interleaving of any number of readers with the collector |
| `EbrProtocol.NoUseAfterDelete` | src/base/ebr.cc:23-63 | in every interleaving, an object that a reader picked up has not been passed to the deleter as long as that reader has not left since |
| `EbrProtocol.InExactlyOnePlace` | src/base/ebr.cc:44-93 | in every reachable state an object given to Limbo is in exactly one of limbo, the epoch lists and the deleted ones, once; any other object is in none |
| `EbrProtocol.StagingSlotIsEmpty` | src/base/ebr.cc:52-54 | in every reachable state the staging slot is empty when it is staged into, and between cycles the slot of epoch (global + 1) mod 3 is empty |
| `EbrCollector.HistoryIsRun` | src/base/ebr.cc:44-93 | whatever the collector object does is a run of the protocol, so all results about runs hold of it |
| `EbrCollector.ThreeCyclesDrain` | src/base/ebr.cc:65-83 | with nobody inside and no further Limbo, three cycles leave nothing in limbo or any list |
| `EbrCollector.EbrGC.Register` | src/base/ebr.cc:8-21 | a thread is registered once, with a clear word, at the head of the list |
| `EbrCollector.EbrGC.Enter` | src/base/ebr.h:35-40 | a reader publishes the global epoch with the active flag; the protocol is kept |
| `EbrCollector.EbrGC.Exit` | src/base/ebr.h:42-47 | a reader clears its word; the protocol is kept |
| `EbrCollector.EbrGC.Limbo` | src/base/ebr.h:98-105 | the object is pushed on the limbo stack; the protocol is kept |
| `EbrCollector.EbrGC.Sync` | src/base/ebr.cc:23-42 | the epoch advances by one modulo 3 exactly if every registered word with the top bit set is the top bit and the epoch loaded; a reader of that epoch does not hold it up |
| `EbrCollector.EbrGC.Reclaim` | src/base/ebr.cc:85-93 | the deleter gets every entry of the list, in order, once |
| `EbrCollector.EbrGC.CycleNoLock` | src/base/ebr.cc:44-63 | a cycle does what the specification of rounds says to epoch, limbo, lists and deleted objects, and keeps the protocol; readers of the present epoch do not hold it up, so limbo is emptied and with somebody inside the epoch goes on by one; a reader of another epoch stops it with nothing changed |
| `EbrCollector.CycleProgresses` | src/base/ebr.cc:44-63 | if every reader inside is in the present epoch, a cycle empties limbo, and advances the epoch by exactly one if somebody is inside |
| `EbrCollector.CycleWaits` | src/base/ebr.cc:23-63 | a reader inside with another epoch lets a cycle change nothing |
| `EbrCollector.EbrGC.Full` | src/base/ebr.cc:65-83 | stops exactly when nothing waits, and then every object ever given was deleted exactly once; with nobody inside, at most three cycles are needed; with readers inside, it may use up its retries |
| `BwPage.LowerBound` | src/core/bw-tree.h:662-681 | the binary search returns the first entry not below the key, its child or the overflow child, and whether there is one |
| `BwPage.UpperBound` | src/core/bw-tree.h:683-702 | the same for the first entry above the key |
| `BwPage.MakeView` | src/core/bw-tree.h:859-906 | the replay loop gives the recursive meaning of a delta chain, for every well-linked chain |
| `BwPage.ViewSorted` | src/core/bw-tree.h:859-906 | the map a chain stands for is sorted and without duplicates |
| `BwPage.FindGreaterOrEqual` | src/core/bw-tree.h:644-660 | index, child and found flag are those of a lower bound in the view of the chain |
| `BwPage.PartialView` | src/core/bw-tree.h:550-582 | the partial map built from the index records determines, together with the base line, every child of the full view |
| `BwPage.InnerFindGreaterOrEqual` | src/core/bw-tree.h:528-617 | the fast lookup returns the same child and found flag as a lower bound on the full view with its overflow child, for every chain with a non-empty base line; on a leaf record it says there is no child |
| `BwPage.DeltaKeyIsPage` | src/core/bw-tree.h:207-222 | a key record keeps size, smallest and largest key of a page equal to those of its view |
| `BwPage.DeltaIndexIsPage` | src/core/bw-tree.h:224-241 | an index record keeps the metadata equal to those of its view, which gains the separator with its two children |
| `BwPage.SplitIsPage` | src/core/bw-tree.h:243-260 | a split record keeps the metadata equal to those of its view, which is the part below the separator with its left child as overflow |
| `BwPage.LineIsPage` | src/core/bw-tree.h:843-850 | a base line made from a view has that view and its metadata |
| `BwShape.SearchStep` | src/core/bw-tree.h:507-526 | in a search tree, the child a lookup takes is the one whose interval holds the key |
| `BwShape.AddToLeaf` | src/core/bw-tree.h:382-395 | a key added to the leaf whose interval holds it keeps the search-tree order and uniform leaf depth and adds exactly that key |
| `BwShape.SplitUnderParent` | src/core/bw-tree.h:465-476 | a split that moves its separator into the parent keeps the search tree and its key set |
| `BwShape.SplitUnderNewRoot` | src/core/bw-tree.h:477-486 | a split of the root under a new root keeps the search tree, one level higher, and its key set |
| `BwTree.DescendStep` | src/core/bw-tree.h:511-524 | a step of the descent ends exactly at leaves and otherwise reaches a child of the page, one level down, whose interval holds the key |
| `BwTree.Tree.constructor` | src/core/bw-tree.h:367-376 | a new tree is valid, of level 0, and holds no key |
| `BwTree.Tree.Consolidate` | src/core/bw-tree.h:837-857 | the chain is replaced by one base line with the same view, or left alone when the page has changed meanwhile; no view changes |
| `BwTree.Tree.FindParent` | src/core/bw-tree.h:490-505 | the page whose view has the given one as a child, or none for the root |
| `BwTree.Tree.FindRoomFor` | src/core/bw-tree.h:507-526 | the leaf whose interval holds the key and its parent; consolidations on the way change no view and leave every chain above the leaf within the consolidation trigger |
| `BwTree.WayStep` | src/core/bw-tree.h:511-524 | on each level only one page lies on the way to a key, so a descent that consolidates what it passes leaves no long chain on that way |
| `BwTree.CutIsBrief` | src/core/bw-tree.h:431-476 | a cut puts one record on the page and one on its parent, and both were short enough for it, so the bound on chains is kept level by level |
| `BwTree.Tree.CutPage` | src/core/bw-tree.h:431-468 | the halves and the separator make up the page, and the right half is as large as the left one or one larger |
| `BwTree.Tree.CutUnder` | src/core/bw-tree.h:431-476 | one split under a parent: same keys, the parent one entry and one record larger, the cut page small again, all other pages and intervals untouched |
| `BwTree.Tree.CutTop` | src/core/bw-tree.h:431-486 | one split of the root: same keys, one level more, all pages within the split trigger |
| `BwTree.Tree.SplitInner` | src/core/bw-tree.h:431-488 | any chain of cascaded splits keeps the key set and restores every page to the split trigger and every chain to two records over the consolidation trigger; the recursion climbs the tree |
| `BwTree.Tree.Put` | src/core/bw-tree.h:382-395 | the key set becomes exactly the old one and the key, with search-tree order, uniform leaf depth, page sizes and metadata kept, through consolidations and cascaded splits; no chain is ever more than two records over the consolidation trigger |
| `BwIterator.ScanForward` | src/core/bw-tree.h:929-1014 | SeekToFirst and then Next until the iterator is invalid stops, and lists exactly the key set of the tree, each key once, in ascending order |
| `BwIterator.ScanBackward` | src/core/bw-tree.h:941-1058 | SeekToLast and then Prev until the iterator is invalid stops, and visits exactly the key set of the tree, each key once, in descending order |
| `BwIterator.Iterator.AtKey` | src/core/bw-tree.h:961-965 | the size that a page records tells whether the iterator stands on a key |
| `BwIterator.ClimbUp` | src/core/bw-tree.h:987-999 | climbing from a subtree without a later key, the parent has the successor or none is below its upper bound |
| `BwIterator.ClimbDown` | src/core/bw-tree.h:1037-1050 | the same towards smaller keys |
| `BwIterator.LeafNeighbours` | src/core/bw-tree.h:1000-1013 | the ends of the leaves beside a separator are its successor and its predecessor |
| `BwIterator.GetLargestKey` | src/core/bw-tree.h:728-770 | the largest key of a subtree, with consolidations that change no view and keep the tree valid |
| `BwIterator.FindEdgeLeaf` | src/core/bw-tree.h:792-835 | the leaf at the low or the high end of a subtree |
| `BwIterator.Iterator.SeekToFirst` | src/core/bw-tree.h:929-939 | stands on the least key, or is invalid exactly when the tree is empty |
| `BwIterator.Iterator.SeekToLast` | src/core/bw-tree.h:941-955 | stands on the greatest key, or is invalid exactly when the tree is empty |
| `BwIterator.Iterator.Seek` | src/core/bw-tree.h:619-642 | stands on the least key not below the target, or is invalid exactly when there is none |
| `BwIterator.Iterator.Next` | src/core/bw-tree.h:967-1014 | moves to the exact successor in the key set, or becomes invalid on the last key |
| `BwIterator.Iterator.Prev` | src/core/bw-tree.h:1016-1058 | moves to the exact predecessor in the key set, or becomes invalid on the first key |
| `Merging.MergeAllIsUnion` | src/core/merging.cc:31-95 | the sequence that the cursor stands in is sorted and has exactly the entries of the children |
| `Merging.MergingIterator.FindSmallest` | src/core/merging.cc:121-138 | the current child is one with the least key among the valid ones, if any |
| `Merging.MergingIterator.FindLargest` | src/core/merging.cc:140-155 | the current child is one with the greatest key among the valid ones, if any |
| `Merging.MergingIterator.SeekToFirst` | src/core/merging.cc:31-38 | the cursor stands on the first entry of the union |
| `Merging.MergingIterator.SeekToLast` | src/core/merging.cc:40-47 | the cursor stands on the last entry of the union |
| `Merging.MergingIterator.Seek` | src/core/merging.cc:49-56 | the cursor stands on the first entry of the union not before the target |
| `Merging.MergingIterator.TurnForward` | src/core/merging.cc:60-72 | after turning forward every other child stands on its first key above the current one |
| `Merging.MergingIterator.TurnBackward` | src/core/merging.cc:79-92 | after turning back every other child stands on its last key below the current one |
| `Merging.MergingIterator.Next` | src/core/merging.cc:58-75 | whatever the direction before, the cursor moves to the next entry of the union |
| `Merging.MergingIterator.Prev` | src/core/merging.cc:77-95 | whatever the direction before, the cursor moves to the previous entry of the union |
| `Merging.MergingIterator.Current` | src/core/merging.cc:97-105 | the entry of the current child is the one the cursor stands on |
| `Snapshot.SnapshotIsNewestValues` | src/db/db-iterator.cc:116-155 | the items a snapshot shows are, in order, exactly the user keys whose entry with the largest number not above the snapshot is a value, with that value |
| `DbIterator.DBIterator.FindNextUserEntry` | src/db/db-iterator.cc:116-155 | stops on the first acceptable entry and skips only entries that the snapshot does not show |
| `DbIterator.DBIterator.FindPrevUserEntry` | src/db/db-iterator.cc:157-200 | stops on the last entry that the snapshot shows, passing none, with its key and value saved |
| `DbIterator.DBIterator.SeekToFirst` | src/db/db-iterator.cc:15-24 | the cursor stands on the first item of the snapshot |
| `DbIterator.DBIterator.SeekToLast` | src/db/db-iterator.cc:26-31 | the cursor stands on the last item of the snapshot |
| `DbIterator.DBIterator.Seek` | src/db/db-iterator.cc:33-46 | the cursor stands on the first item with a user key not below the target |
| `DbIterator.DBIterator.Next` | src/db/db-iterator.cc:48-72 | whatever the direction before, the cursor moves to the next item of the snapshot |
| `DbIterator.DBIterator.Prev` | src/db/db-iterator.cc:74-99 | whatever the direction before, the cursor moves to the previous item of the snapshot |
| `DbIterator.DBIterator.AtItem` | src/db/db-iterator.cc:11-13 | whether the cursor stands on an item |
| `DbIterator.DBIterator.Current` | src/db/db-iterator.cc:101-110 | the user key and the value of the current item, in either direction |
| `Overlay.OverlaidMembers` | src/core/delta-amend-iterator.cc:137-194 | an overlaid sequence has an item exactly if the changes write it, or the base has it and no change touches its key |
| `Overlay.OverlaidAscending` | src/core/delta-amend-iterator.cc:137-194 | an overlaid sequence is sorted by user key |
| `DeltaAmend.DeltaAmendIterator.UpdateCurrent` | src/core/delta-amend-iterator.cc:137-194 | terminates on the first item that the overlay shows in the part still ahead, passing deleted keys on both sides |
| `DeltaAmend.DeltaAmendIterator.Advance` | src/core/delta-amend-iterator.cc:119-135 | lands on the first shown item beyond the current key, in either direction |
| `DeltaAmend.DeltaAmendIterator.Turn` | src/core/delta-amend-iterator.cc:43-65 | after a change of direction both children stand so that advancing passes exactly the current key |
| `DeltaAmend.DeltaAmendIterator.SeekToEnd` | src/core/delta-amend-iterator.cc:16-28 | the cursor stands on the first or the last item of the overlay |
| `DeltaAmend.DeltaAmendIterator.Seek` | src/core/delta-amend-iterator.cc:30-35 | the cursor stands on the first item of the overlay not below the target, for children that seek by user key |
| `DeltaAmend.DeltaAmendIterator.Next` | src/core/delta-amend-iterator.cc:37-67 | whatever the direction before, the cursor moves to the next item of the overlay; on an invalid cursor nothing moves and an error is noted |
| `DeltaAmend.DeltaAmendIterator.Prev` | src/core/delta-amend-iterator.cc:69-98 | whatever the direction before, the cursor moves to the previous item of the overlay; on an invalid cursor nothing moves and an error is noted |
| `DeltaAmend.DeltaAmendIterator.Current` | src/core/delta-amend-iterator.cc:100-107 | the user key and the value of the current item, from whichever side |
| `CursorStack.StackShows` | src/core/delta-amend-iterator.cc:137-194 | the sequence that the topmost cursor stands in has exactly the uncommitted writes and the newest visible values of all children that no change touches, in key order |
| `CursorStack.Open` | src/core/delta-amend-iterator.cc:137-194 | the three iterator objects on top of each other are a cursor in that sequence |
| `CursorStack.ScanStack` | src/core/delta-amend-iterator.cc:16-98 | full scans of the three iterator objects, forward and backward, terminate and list the same items: exactly what is shown, in key order |
| `Varint.FixedRoundTrip` | src/base/slice.h:97-110 | a fixed-width number reads back as the number, for every width |
| `Varint.FixedBytes` | src/base/slice.h:97-110 | the bytes of numbers of two and four bytes, least significant first |
| `Varint.GroupsAre` | src/base/varint-encoding.cc:51-105 | the encoding is the base-128 numeral of the value, most significant first, with 128 added to all bytes but the last and no leading zero |
| `Varint.DecodeIs` | src/base/varint-encoding.cc:109-121 | for any bytes, the decoded value is that of the groups up to the first byte below 128, modulo 2^64 |
| `Varint.Decode` | src/base/varint-encoding.cc:109-121 | the decoding loop computes the value in 64-bit arithmetic and the position behind it |
| `Varint.DecodeUndoesGroups` | src/base/varint-encoding.cc:109-121 | decoding undoes encoding for every 64-bit value, wherever it stands and whatever follows |
| `Varint.Encode64` | src/base/varint-encoding.cc:51-105 | the ladder with its masks writes the groups of seven bits, most significant first, without leading zero groups |
| `Varint.Encode32` | src/base/varint-encoding.cc:14-41 | the 32-bit ladder writes the same format |
| `Varint.CountLeadingZeros32` | src/base/bit-ops.h:80-93 | 32 less the number of significant bits, for every word |
| `Varint.CountLeadingZeros64` | src/base/bit-ops.h:116-123 | 64 less the number of significant bits |
| `Varint.Sizeof64` | src/base/varint-encoding.h:18-24 | the length of the 64-bit encoding |
| `Varint.Sizeof32` | src/base/varint-encoding.h:38-44 | the length of the 32-bit encoding |
| `WriteBatches.MakeRedo` | src/core/key-boundle.cc:13-27 | appends the redo format of a put or of a deletion |
| `WriteBatches.RedoFormat` | src/core/key-boundle.cc:13-27 | the bytes of an entry written out: family, flag 0 or 1, length and bytes of the key, and for a put length and bytes of the value |
| `WriteBatches.RecordFormat` | include/mai/write-batch.h:48-52 | the record written out in words of four bytes: the low and the high one of the first number, the count modulo 2^32, and the entries |
| `WriteBatches.Iterate` | src/db/write-batch.cc:30-54 | hands over the operations that the buffer stands for, in order and with fields of their widths, for any buffer |
| `WriteBatches.ReadOpUndoes` | src/db/write-batch.cc:36-51 | reading one entry gives back the operation it was made from and the position behind it |
| `WriteBatches.IterateReplays` | src/db/write-batch.cc:30-54 | iterating over a batch of any operations gives exactly these operations |
| `WriteBatches.WriteBatch.Put` | src/db/write-batch.cc:20-23 | the batch gains the operation at its end |
| `WriteBatches.WriteBatch.Delete` | src/db/write-batch.cc:25-28 | the batch gains the deletion at its end |
| `WriteBatches.WriteBatch.Clear` | include/mai/write-batch.h:22-25 | the batch holds no operation and can be used again |
| `WriteBatches.WriteBatch.Record` | include/mai/write-batch.h:48-52 | the record holds the first sequence number, the number of entries modulo 2^32 and the entries |
| `Wal.LogWriter.EmitPhysicalRecord` | src/db/write-ahead-log.cc:69-87 | appends four bytes of checksum over type and data, two of length, one of type, least significant first, and the data |
| `Wal.LogWriter.AppendFragment` | src/db/write-ahead-log.cc:32-61 | fills a block that has no room for a header and writes one fragment that stays inside its block, with a header that does too |
| `Wal.LogWriter.Append` | src/db/write-ahead-log.cc:25-67 | the file is the log of the records so far and the new one; terminates also when exactly a header fits and the fragment is empty |
| `Wal.FragmentFormat` | src/db/write-ahead-log.cc:69-87 | the seven bytes of a header and the data behind it, written out |
| `Wal.PieceFormat` | src/db/write-ahead-log.cc:25-61 | a piece is fewer than seven zeros, if the block ends, and one fragment, of type 1 to 4 by where it is in its record |
| `Wal.PieceAligned` | src/db/write-ahead-log.cc:32-61 | no fragment and no header crosses the end of a block, wherever the writing starts |
| `Wal.LogAligned` | src/db/write-ahead-log.cc:25-67 | whatever the records, the offset that the writer keeps is the place in the block where the file ends |
| `WalReading.LogReader.ReadPhysicalRecord` | src/db/write-ahead-log.cc:153-175 | the fragment that stands at a position, byte by byte, or the end of the file, for any file |
| `WalReading.LogReader.Read` | src/db/write-ahead-log.cc:98-144 | a record if and only if the fragments that stand at the position make one up and all their stored checksums are those of their types and data; a checksum failure if and only if one of them is not; the end otherwise; for any file |
| `WalReading.PhysicalIs` | src/db/write-ahead-log.cc:153-175 | type, length and data of a fragment are the bytes at their places, and its checksum is right if and only if the stored word is that of type and data |
| `WalReading.PiecesDecide` | src/db/write-ahead-log.cc:98-144 | what is gathered is the data of the fragments in order if all their checksums are right, and a failure if one is not |
| `WalReading.PiecesOf` | src/db/write-ahead-log.cc:98-144 | a record or a checksum failure comes from fragments that stand in the file one behind the other, from a first to a last one |
| `WalReading.ReadDecides` | src/db/write-ahead-log.cc:98-144 | a position gives a record or a checksum failure by the stored checksums alone, both ways |
| `WalReading.GatherUndoes` | src/db/write-ahead-log.cc:98-144 | gathering gives back a record written at any offset in a block, whatever follows it |
| `WalReading.LogRoundTrip` | src/db/write-ahead-log.cc:25-175 | a fresh reader gets back exactly the records a fresh writer wrote, in order, and then the end, for every list of records and block size; a mapped file does not give back an empty last record |
| `WalReading.ReadRecords` | src/db/write-ahead-log.cc:98-144 | reading until it fails gives all records up to the first failure, and that failure, for any file |
| `WalReading.WriteAndRead` | src/db/write-ahead-log.cc:25-175 | a fresh writer object and a fresh reader object on its file: the reader gets back exactly what the file lets through, and then the end |
| `WalReading.MappedLosesEmptyRecord` | src/port/file-posix.cc:62-77 | a log of one empty record read from a mapped file gives back nothing |
| `WalReading.RoundTripIsExact` | src/port/file-posix.cc:62-77 | the round trip is exact if and only if the file is not mapped or its last record is not empty |
| `Replay.WritingHandler.Put` | src/db/db-impl.cc:39-52 | inserts family, key and value as given, with a tag whose low byte is 0 and whose rest is the next sequence number modulo 2^56 |
| `Replay.WritingHandler.Delete` | src/db/db-impl.cc:54-64 | inserts family and key as given and no value, with a tag whose low byte is 1 and whose rest is the next sequence number modulo 2^56 |
| `Replay.WritingHandler.Handle` | src/db/db-impl.cc:39-64 | inserts the operations of a batch, each as given, with tags of consecutive numbers |
| `Replay.Database.WriteImpl` | src/db/db-impl.cc:572-621 | log, tables and last sequence number are those of the run of batches so far and the new one, and the tables hold every operation of the run as given, under its number |
| `Replay.RunStores` | src/db/db-impl.cc:39-64 | the tables after any run of batches hold exactly its operations, in order: family, key, value, flag byte and number modulo 2^56 |
| `Replay.Redo` | src/db/db-impl.cc:740-773 | inserts what the specification of a replay says for any log file, and reports the number after the last one |
| `Replay.NumbersHandedOut` | src/db/db-impl.cc:591-615 | the numbers stored for any run of batches are the consecutive numbers handed out, as far as a tag keeps them |
| `Replay.NumbersAreConsecutive` | src/db/db-impl.cc:591-615 | the stored numbers are the consecutive ones handed out, hence unique and strictly increasing, if and only if the run ends at or below 2^56 |
| `Replay.RecordReads` | src/db/db-impl.cc:757-763 | a log record gives back the first number, the operations and the number of entries of its batch |
| `Replay.ReplayRestores` | src/db/db-impl.cc:740-773 | replaying the log of any run of batches inserts exactly the same column families, keys, tags and values, in order, and reports the number after the last one handed out |
| `Replay.Database.Recovers` | src/db/db-impl.cc:740-773 | the log of a database, replayed into empty tables, rebuilds its tables and reports the number after its last one |
| `Replay.Reopen` | src/db/db-impl.cc:740-773 | the replay loop run on the log of a database rebuilds its tables |
| `Tags.TagKeeps` | src/core/key-boundle.h:35-42 | a tag keeps the flag in its low byte and 56 bits of the sequence number above it |
| `Tags.TagRoundTrip` | src/core/key-boundle.h:35-42 | decoding undoes encoding if and only if the number is below 2^56 |
| `Tags.FirstLostNumber` | src/core/key-boundle.h:35-38 | 2^56 passes the check of the source and reads back as 0 |
| `Tags.TagsDiffer` | src/core/key-boundle.h:35-42 | numbers below 2^56 and flags have tags of their own |
| `Tags.TagsAscend` | src/core/key-boundle.h:35-42 | tags of numbers below 2^56 are ordered as the numbers are, whatever the flags |
| `Tags.ParseUndoesMake` | src/core/key-boundle.h:106-126 | parsing an internal key gives back the user key, the flag and 56 bits of the number; everything, if and only if the number is below 2^56 |
| `VersionPatches.Encode` | src/db/version.cc:121-187 | writes the fields that are set, each with its tag, in the fixed order: the bytes are those of the format written out |
| `VersionPatches.Decode` | src/db/version.cc:189-269 | sets the fields that the buffer stands for, one after the other, for any buffer; what is read has the widths of the source |
| `VersionPatches.PatchFormat` | src/db/version.cc:121-187 | the record of a patch written out, with the tag numbers, the order and the parts of every field |
| `VersionPatches.DecodedFits` | src/db/version.cc:189-269 | whatever the bytes, every field of a patch that is read is within its width |
| `VersionPatches.FieldsMakePatch` | src/db/version.cc:189-269 | setting the fields of a patch in the order written gives the patch, with its created and deleted files in order |
| `VersionPatches.DecodeUndoesEncode` | src/db/version.cc:121-269 | decoding undoes encoding on all set fields of every patch, from the format written out |
| `SkipShape.PublishKeeps` | src/core/skip-list.h:64-69 | the store that links a node into a level keeps every level a sorted list and a sublist of the levels below |
| `SkipShape.PrepareKeeps` | src/core/skip-list.h:64-66 | the store of the new node's own pointer changes no list |
| `SkipShape.AddNodeKeeps` | src/core/skip-list.h:63-63 | a fresh node changes no list |
| `SkipShape.RaiseKeeps` | src/core/skip-list.h:48-60 | a new maximal height changes no list: the levels above are still empty |
| `SkipLists.SearchStays` | src/core/skip-list.h:94-112 | from a node of its path a search goes on along the level or stands exactly before the place of the key and can go down |
| `SkipLists.SearchIsAtomic` | src/core/skip-list.h:94-149 | a search that makes its loads while a writer makes its stores returns what the level-0 list held at the moment of its last load: the first node not before the key and the one in front of it |
| `SkipLists.SkipList.Find` | src/core/skip-list.h:94-149 | in any state between two stores, the searches end at the place of the key in the level-0 list, and note the last node before the key on every level |
| `SkipLists.SkipList.FindGreaterOrEqual` | src/core/skip-list.h:94-112 | the first node of level 0 not before the key, and the last one before it on every level |
| `SkipLists.SkipList.FindLessThan` | src/core/skip-list.h:114-131 | the last node of level 0 before the key, or the head |
| `SkipLists.SkipList.FindLast` | src/core/skip-list.h:133-149 | the last node of level 0, or the head |
| `SkipLists.SkipList.Put` | src/core/skip-list.h:37-70 | the list is the old one with the entry at its place, so is every level below the height, and the other levels are untouched; the maximal height grows to it; before and after every single store all invariants hold and no node leaves a list |
| `SkipLists.SkipList.LinkAll` | src/core/skip-list.h:64-69 | every level of the node gains it at its place and no other level changes, store by store |
| `SkipLists.Iterator.Seek` | src/core/skip-list.h:257-259 | a cursor over the list: the first entry not before the target |
| `SkipLists.Iterator.SeekToFirst` | src/core/skip-list.h:263-265 | a cursor over the list: the first entry |
| `SkipLists.Iterator.SeekToLast` | src/core/skip-list.h:269-274 | a cursor over the list: the last entry |
| `SkipLists.Iterator.Next` | src/core/skip-list.h:242-244 | a cursor over the list: the next entry |
| `SkipLists.Iterator.Prev` | src/core/skip-list.h:248-254 | a cursor over the list: the previous entry |
| `MemTables.FirstIsNewest` | src/core/internal-key-comparator.cc:10-30 | in the order of internal keys, the first entry not before (key, version) is the newest entry of the key at or below the version, if its user key is the same |
| `MemTables.NewestIsUnique` | src/core/ordered-memory-table.cc:70-99 | with unique sequence numbers there is at most one right answer |
| `MemTables.HashMap.Put` | src/core/hash-map-v2.h:35-57 | the chain of the key gains the entry at its place and stays sorted, other chains are untouched, and the counter grows by one |
| `MemTables.HashMap.FindGreaterOrEqual` | src/core/hash-map-v2.h:63-76 | the first entry of the key's chain not before the key |
| `MemTables.UnorderedMemoryTable.Put` | src/core/unordered-memory-table.cc:62-69 | the table holds the history and the new entry, and its counter is the number of entries |
| `MemTables.UnorderedMemoryTable.Get` | src/core/unordered-memory-table.cc:71-100 | the entry of the key with the largest number at or below the version, for any hash and any positive slot count |
| `MemTables.OrderedMemoryTable.Put` | src/core/ordered-memory-table.cc:60-68 | the table holds the history and the new entry, and its counter is the number of entries |
| `MemTables.OrderedMemoryTable.Get` | src/core/ordered-memory-table.cc:70-99 | the entry of the key with the largest number at or below the version |
| `MemTables.AnswerAlike` | src/core/unordered-memory-table.cc:71-100 | after the same history both tables give the same answer to every Get |
| `SpinLock.StepKeepsInv` | src/base/spin-locking.cc:40-98 | every atomic access of any thread keeps the relation between the lock word and its holders |
| `SpinLock.RunKeepsInv` | src/base/spin-locking.cc:40-98 | the relation holds in every state of every interleaving of fewer than 2^28 threads |
| `SpinLock.WordTellsHolders` | src/base/spin-locking.cc:40-98 | in every reachable state the word is the bias less the readers when no writer holds, and 0 exactly when one writer holds |
| `SpinLock.WriterHoldsAlone` | src/base/spin-locking.cc:63-82 | in every reachable state a writer coexists with no other holder |
| `SpinLock.UnlockTellsModes` | src/base/spin-locking.cc:84-98 | a reader that unlocks never takes the branch of the writer, and the writer always does |
| `SpinLock.FreeAgain` | src/base/spin-locking.cc:84-98 | once nobody holds the lock the word is back at the bias |
| `SpinLock.ReaderIsAdmitted` | src/base/spin-locking.cc:40-61 | in every reachable state without a writer, a reader that goes on alone gets the lock and leaves the word one lower, whoever else reads |
| `SpinLock.ReadExchangeDecides` | src/base/spin-locking.cc:40-61 | in every reachable state the exchange of a reader admits it if and only if the word is still the one it loaded and no writer holds the lock |
| `SpinLock.WriterIsAdmitted` | src/base/spin-locking.cc:63-82 | in every reachable state where nobody holds the lock, a writer that goes on alone gets it |
| `SpinLock.UnlockReleases` | src/base/spin-locking.cc:84-98 | in every reachable state a reader that unlocks alone leaves the word one higher, the writer leaves the bias, and neither holds any more |
| `BigNumber.ProductFits` | src/base/big-number.cc:161-167 | no intermediate of the multiplication exceeds 64 bits |
| `BigNumber.AddRow` | src/base/big-number.cc:161-171 | a row adds the multiple of the right operand to the words it covers and changes no other |
| `BigNumber.BasicMul` | src/base/big-number.cc:147-175 | the result words are the exact product, for operands of any length, the left one non-empty |
| `BigNumber.DivWord` | src/base/big-number.cc:231-272 | quotient words and remainder of the long division; exact for every divisor that is even or at most half the base |
| `BigNumber.DivideIsExact` | src/base/big-number.cc:231-272 | dividend = quotient * divisor + remainder with the remainder below the divisor, for every number and every such divisor |
| `BigNumber.OddDivisorFails` | src/base/big-number.cc:177-194 | every odd divisor above half the base gets the dividend (d - 1, 2^32 - 1) wrong |
| `BigNumber.DivideIsExactIff` | src/base/big-number.cc:231-272 | the division by a word is right on all numbers if and only if the divisor is even or at most half the base |
| `HexLiteral.NewHexLiteral` | src/core/decimal-v2.cc:730-752 | the words have the value of the literal, character by character in base 16, for a literal of any length and either case |
| `HexLiteral.IsZero` | src/core/decimal-v2.cc:161-171 | whether the number is zero |
| `HexLiteral.ToString` | src/core/decimal-v2.cc:502-523 | the text is the numeral of the number in the radix: digits 0-9 and a-z below the radix, no leading zero, and the value of the number; the loop terminates |
| `HexLiteral.DigitsMean` | src/base/big-number.cc:289-301 | a character is accepted exactly if it is a hexadecimal digit and stands for its value by character code, and the table of digits is the inverse in lower case |
| `HexLiteral.DigitsAreNumeral` | src/core/decimal-v2.cc:502-523 | the digits printed for a number make up a numeral of the radix without leading zero, and its value is the number |
| `HexLiteral.PrintsCanonically` | src/core/decimal-v2.cc:502-523 | the digits of a literal's value are its characters in lower case without leading zeros, or 0 |
| `HexLiteral.PrintHexLiteral` | src/core/decimal-v2.cc:502-752 | parsing and printing a literal of any length gives its canonical text |

## Left out

- BwTree.Tree.Put: does not model the limit of 1024 page slots nor the collector cycle between the split and the consolidation; putting a key that is already there is excluded, as the source expects distinct keys.
- BwTree.Tree.SplitInner: the source demands more than two entries of a page it splits; the split trigger is therefore at least 2.
- Concurrent use of the Bw-tree: page slots are overwritten by plain stores, so the model is sequential.
- DeltaAmend.DeltaAmendIterator.Seek: states the result for children that seek by user key; nothing is claimed for the iterator over an indexed write batch, whose seek (src/txn/write-batch-with-index.cc:43-48) looks up an entry with fields it does not set.
- DeltaAmend.DeltaAmendIterator.UpdateCurrent: errors of the children are not modelled.
- Merging.MergingIterator.Next: children are cursors over tables and files, without errors, over entries with pairwise distinct internal keys.
- EbrCollector.EbrGC.Enter: a thread enters and exits in turn, and an object is unlinked before it is given to Limbo, as the callers do.
- EbrCollector.EbrGC.Full: makes a given number of cycles at most, where the source goes on until it is done; what other threads do while it sleeps is in the protocol only.
- WalReading.LogReader.Read: a header that the file ends inside of is only reported, because the source reads past the bytes it got; I/O errors other than the end of the file are left out.
- Wal.LogWriter.Append: the file accepts every write; the checksum is any function of a running value and bytes (the source uses the CRC of section 8 of RFC 1952).
- WriteBatches.Iterate: a buffer that no batch could have written is only reported, because the source aborts or reads past the buffer.
- Replay.Redo: the filter by log number, and opening the file, are left out; a record shorter than a header is only reported.
- Replay.ReplayRestores: numbers stay below 2^57, as the source checks; of a number from 2^56 on the tables keep the low 56 bits.
- Replay.Database.WriteImpl: one atomic step; making room in the tables, callbacks, flushing and syncing are left out, and the tables are one list of insertions.
- VersionPatches.Encode: the nine single fields are written by a loop over their tags in the source's order; the dropped column family goes through the 32-bit encoder, which writes the same bytes as the 64-bit one.
- SkipLists.SkipList.Find: one loop stands for the three searches, which differ in the test and in what they return; the random height is a parameter.
- MemTables.OrderedMemoryTable.Put: entries carry their sequence number as the tag keeps it.
- CursorStack.ScanStack: the changes of the transaction are a sequence with a position, not an iterator over an indexed batch.
- MemTables.HashMap.Put: chains are sequences, so the pointer of the predecessor and its compare-and-swap loop are not modelled; the table is used by one thread at a time.
- SpinLock.RunKeepsInv: fairness and the pauses between retries are left out; unlocking is done by a thread that holds the lock.
- BigNumber.BasicMul: operands are sequences that do not share memory with the result.
- HexLiteral.ToString: negative numbers and exponents are left out.
- Weak memory orders, thread-local slots, memory layout, the environment and real files.
- Table files, compaction, manifest recovery, column families and the rest of the database.
- The language front end, the SQL layer, decimals beyond hexadecimal literals, allocators and caches.
