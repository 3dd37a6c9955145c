# Rucbase in Dafny

Rucbase is a small database engine. This project models the parts of it that do real work and
proves what they keep, over whole runs where the property is about runs: the B+ tree index, the
buffer pool with its LRU replacer, the reader-writer latch, the record files, the way a query's
conditions reach the table scans, and the text form of the catalogue. From the test library that
is vendored with it come the bipartite matcher, the prerequisite graph of mock expectations and
the printing of 128-bit integers.

Code that changes things step by step is modelled by classes and loops whose contracts tie the new
state to a function of the old one; what the system promises is then proved about those functions.
`dafny verify dfyconfig.toml` checks everything.

## The parts

**Index** (`TreeShape`, `TreeContents`, `TreeSplit`, `TreeSplitProof`, `TreeMerge`, `TreeRoot`,
`TreeRecut`, `TreeSizes`, `TreeShrink`, `TreeTraversal`, `IndexNode`, `IndexHandle`, `IndexScan`,
`IndexDescent`). Pages are a map from page numbers to nodes. An internal page has as many keys as
children, and key 0 is a dummy: it agrees with nothing in particular on the leftmost path, because
insertion does not update it. So the invariant gives every page an interval of keys, cut at the
keys from slot 1 on. `WellFormed` says that the intervals nest, that all leaves are on one level,
that parent pointers are right, and that the leaves form a ring through header page 1 in key order.
`SizesOk` says that every page but the root is at least half full and none is full.
`IxIndexHandle` runs the code of the source on this; its ghost fields hold the intervals and the
leaf order. `Valid` is all of this, and that `num_pages` is 2 plus the number of tree pages, that
`last_leaf` is the last of the chain, and that page numbers to come are unused. `CreateNode` and
`DeletePage` are the only ways pages come and go, and only a page that has left the tree is
dropped. `InsertEntry` and `DeleteEntry` start at the leaf whose interval covers the key, which is
what the source documents `FindLeafPage` to return; there is exactly one for every key
(`TreeTraversal.OneCoveringLeaf`), and `IndexDescent` says when the descent finds it. The edits of
a page's arrays in place are `IxNodeHandle`; they do to keys and rids what `IxIndexHandle` says of
its pages, which never hold more than the room there is.

**Matching** (`Matching`). The augmenting-path search keeps the set of right nodes seen by failed
searches; they are never entered with success again, which bounds every other matching.

**Buffer pool** (`LruReplacer`, `PoolState`, `BufferPool`, `PoolClients`). `PoolState` describes
the pool by value and proves what each change keeps; `BufferPool` is the class. The disk holds the
pages of the files as they are read: a write beyond the end of a file extends it, and the pages
skipped read as zeros. `PoolClients` runs arbitrary sequences of operations and explains every
reply by a plain memory.

**Latch** (`Latch`). One step is what one thread does under the mutex, so runs are interleavings,
with spurious wakeups and with `notify_one` free to pick any sleeper.

**Record files** (`Bitmap`, `RecordPage`, `RecordState`, `RecordFile`, `RecordScan`). Pages are
objects with a byte array that is changed in place: bitmap first, slots behind it. A file stands
for a map from record ids to records.

**Mock expectations** (`ExpectationGraph`, `Prerequisites`). The walks over prerequisites, and the
order of calls that they enforce over whole runs.

**Query conditions** (`Conditions`, `Pushdown`, `NestedScan`). Handing the conditions of a query to
the table scans, turning them so that the own column is on the left, feeding in the values of
the outer rows; and the rows that nested scans then select. The filter loop of the scan and the
loops of the join are stubs in the source. `Passes`, `Nested` and `Outer` are the loops that its
comments and `feed_right` intend.

**Decimal printing and catalogue text** (`Decimal`, `Metadata`). Digits by long division on two
64-bit words; printing the catalogue to a stream and reading it back.

## Where the code does less than it says

- `FindLeafPage` takes the child at the upper bound, while the child responsible for a key stands
  one slot before it. Past the last key it reads the unused slot, in which `erase_pair` leaves a
  copy of the last child unless it was the last one that went. `IndexDescent.FindLeafPage` proves,
  for any contents of the unused slots: if on every level the key is below all keys of the page, or
  not below its last key while the unused slot still names the last child, the descent arrives; if
  not, it ends on another leaf, or an unused slot leads it to a page that is not the last child, and
  nothing is said of where it goes from there.
- A failed disk read in `FetchPage` leaves the frame in no list; it is lost. `FetchPage` proves that
  this happens exactly when a frame can be had for a page that is not resident and lies beyond the
  end of its file.
- Page layouts: `RecordPage.OneShort` says for which record sizes the computed number of records is
  one short of what the stated inequality allows, as for one-byte records. It is never more than
  one short.
- The latch loses a wakeup when two readers leave before the reader that was notified runs.
  `SafeExactlyUpToOneExtraThread`: this can leave a thread asleep for good exactly when there are at
  least two threads more than the reader limit.
- `delete_record` does not ask whether there is a record. On a free slot it leaves a file whose
  counts are wrong, whatever else (`RecordState.DeleteNeedsLive`).
- `check_where_clause` compares the types of two columns but not their string lengths, and the scans
  exchange the sides of a condition as they need. `NestedScan.TurningChangesMeaningIff`: that
  changes what the condition says about some row exactly if the lengths differ. Pushdown preserves
  the meaning of every query in which no condition with columns of different length is turned, and
  `NestedScan.MeaningPreservedIff` says for which rows it does otherwise.
- Reading the catalogue restores it exactly when every name is one word and every table is stored
  under its own name.

## Model

| member | source | states |
|---|---|---|
| IndexNode.LayoutFits | src/index/ix_manager.h:35-44 | for every legal key length the computed order is over 2, the maximal size at least 4, and header, keys and rids with the reserved slot fit in a page |
| IndexNode.LowerBound | src/index/ix_node_handle.cpp:9-21 | the binary search ends at the first slot whose key is not below the target |
| IndexNode.UpperBound | src/index/ix_node_handle.cpp:29-68 | the search from slot 0 ends where the keys start to exceed the target: at slot 0 exactly below all keys, past the end exactly not below the last key; as a choice of child it is right exactly in the first case, and otherwise the slot before it is right |
| IndexNode.FindChild | src/index/ix_node_handle.cpp:164-173 | finds the first slot that points to the child |
| IndexNode.ShiftIn | src/index/ix_node_handle.cpp:84-94 | moving the tail up in place and copying in equals splicing, for any number of elements |
| IndexNode.ShiftOut | src/index/ix_node_handle.cpp:127-139 | moving the tail down in place equals cutting one element out, and what was last stays behind the new end |
| IndexNode.IxNodeHandle.InsertPairs | src/index/ix_node_handle.cpp:84-94 | keys and rids both have the new pairs at the position and are otherwise as they were |
| IndexNode.IxNodeHandle.ErasePair | src/index/ix_node_handle.cpp:127-139 | exactly the pair at the position is gone from keys and rids, and the slot behind the last one still holds what the last one held |
| IndexNode.IxNodeHandle.Insert | src/index/ix_node_handle.cpp:108-120 | a new key goes in at one place with its value and keys stay strictly ascending; a present key changes nothing |
| IndexNode.IxNodeHandle.Remove | src/index/ix_node_handle.cpp:147-156 | a present key leaves with its value, an absent one changes nothing, order is kept |
| IndexNode.IxNodeHandle.RemoveAndReturnOnlyChild | src/index/ix_node_handle.cpp:180-186 | a page with one entry becomes empty and its child is handed out |
| IndexHandle.IxIndexHandle.constructor | src/index/ix_manager.h:27-99 | a new index is valid: an empty root leaf in a ring with the header page, no entries, nothing pinned |
| IndexHandle.IxIndexHandle.GetValue | src/index/ix_index_handle.cpp:43-56 | on the covering leaf the lookup finds a value exactly when the index has the key, and then its value; pins are as before |
| IndexHandle.IxIndexHandle.InsertEntry | src/index/ix_index_handle.cpp:65-90 | from any valid index, through all splits and root growth: a valid index whose entries are the old ones with the pair at its sorted place, or the same if the key was there; all pins as before |
| IndexHandle.IxIndexHandle.Split | src/index/ix_index_handle.cpp:99-133 | the new page takes the upper half; moved children get the new parent, and a leaf enters the chain behind the old one |
| IndexHandle.IxIndexHandle.InsertIntoParent | src/index/ix_index_handle.cpp:148-188 | from a tree just split at any level, the cascade ends with a valid tree of the same entries and the caller's pins |
| IndexHandle.IxIndexHandle.DeleteEntry | src/index/ix_index_handle.cpp:197-215 | found exactly when present; unless the last entry went, a valid index whose entries are the old ones without that key; all pins as before; the pages that left the tree by merges were dropped, all but those the caller holds a pin on |
| IndexHandle.IxIndexHandle.CoalesceOrRedistribute | src/index/ix_index_handle.cpp:228-266 | from a tree that is valid but for one page short of one entry, ends with a valid tree of the same entries, or without root if that page was an empty root leaf; only the pins held before remain, and the pages merged away are accounted for |
| IndexHandle.IxIndexHandle.AdjustRoot | src/index/ix_index_handle.cpp:275-300 | a root with one child hands over to it, an empty root leaf ends the index, any other root stays; entries are kept |
| IndexHandle.IxIndexHandle.Redistribute | src/index/ix_index_handle.cpp:316-341 | exactly one entry, key and rid, crosses the boundary between the two pages; all sizes are right again, the tree is well-formed and no entry is lost |
| IndexHandle.IxIndexHandle.Coalesce | src/index/ix_index_handle.cpp:357-399 | after the merge and the cascade above: a valid tree of the same entries; the three pages are given back, and the right one is dropped unless others hold it |
| IndexHandle.IxIndexHandle.MergeView | src/index/ix_index_handle.cpp:357-392 | the left page takes keys, rids and children of the right one, which leaves the chain and the parent; last leaf and page count follow |
| IndexHandle.IxIndexHandle.GiveBack | src/index/ix_index_handle.cpp:393-396 | the right page is dropped exactly if nobody else holds it; only the parent stays pinned |
| IndexHandle.IxIndexHandle.CreateNode | src/index/ix_index_handle.cpp:426-434 | a page with a number never used before, pinned and counted |
| IndexHandle.IxIndexHandle.MaintainParent | src/index/ix_index_handle.cpp:441-459 | exactly the key of the page's slot in its parent becomes the page's first key; the walk ends there when the slot is not slot 0 |
| IndexHandle.IxIndexHandle.EraseLeaf | src/index/ix_index_handle.cpp:466-476 | the two neighbours of the leaf are linked to each other and nothing else changes |
| IndexHandle.IxIndexHandle.InsertPairs | src/index/ix_node_handle.cpp:84-94 | every insertion into a page, in all cascades, finds room for its entries below the page's maximal size, and splices them in |
| IndexHandle.IxIndexHandle.MaintainChild | src/index/ix_index_handle.cpp:488-496 | exactly the child in the slot gets the page as its parent; nothing happens on a leaf |
| IndexHandle.IxIndexHandle.MaintainChildren | src/index/ix_index_handle.cpp:127-131 | the loop gives all moved children, and no other page, the new parent |
| TreeSplitProof.SplitLinkWellFormed | src/index/ix_index_handle.cpp:99-188 | splitting any page below the root anywhere inside and linking the right half into the parent keeps separators, parent pointers, levels and the leaf ring |
| TreeMerge.MergeWellFormed | src/index/ix_index_handle.cpp:357-399 | merging any two adjacent siblings keeps separators, parent pointers, levels and the leaf ring |
| TreeMerge.LeafSiblings | src/index/ix_index_handle.cpp:380-385 | leaves that are neighbours under one parent are neighbours in the chain, so the leaf that is merged away has its sibling before it |
| TreeRecut.Recut | src/index/ix_index_handle.cpp:316-341 | moving the boundary between two siblings to any place keeps the tree well-formed and its entries |
| TreeRoot.RaiseRootWellFormed | src/index/ix_index_handle.cpp:148-160 | a new root over the old one keeps the tree well-formed, one level higher |
| TreeRoot.LowerRootWellFormed | src/index/ix_index_handle.cpp:275-290 | replacing a root by its only child keeps the tree well-formed, whatever stale keys it has |
| TreeContents.SplitEntries | src/index/ix_index_handle.cpp:99-133 | a split changes no entry and no order |
| TreeContents.MergeEntries | src/index/ix_index_handle.cpp:357-399 | a merge changes no entry and no order |
| TreeContents.EntriesSorted | src/index/ix_index_handle.cpp:571-587 | along the leaf chain of any well-formed tree the keys ascend strictly |
| TreeContents.AroundLeaf | src/index/ix_index_handle.cpp:14-21 | all smaller keys stand before the covering leaf and all larger ones behind it, so the key can only be there |
| TreeSizes.SplitSizes | src/index/ix_index_handle.cpp:99-133 | a full page splits into two that are at least half full and not full |
| TreeShrink.ShiftSizes | src/index/ix_index_handle.cpp:228-266 | if two siblings have enough entries for two pages, moving one to the short page makes both admissible |
| TreeShrink.MergeSizes | src/index/ix_index_handle.cpp:228-266 | if they have not, the merged page is admissible and only the parent can be short, by one |
| TreeShrink.LowerFacts | src/index/ix_index_handle.cpp:275-290 | handing a root over to its only child keeps entries and sizes |
| TreeTraversal.TraversalIsChain | src/index/ix_index_handle.cpp:99-133 | the leaves below the root from left to right are exactly the leaf chain |
| TreeTraversal.OneCoveringLeaf | src/index/ix_index_handle.cpp:14-21 | for every key exactly one leaf of a well-formed tree is responsible |
| TreeTraversal.HeightBound | src/index/ix_node_handle.h:125-127 | a tree with h levels above the leaves holds at least 2 * (max / 2)^h entries |
| TreeTraversal.InsertedEntries | src/index/ix_index_handle.cpp:65-90 | insertion keeps the entries sorted and adds the one entry exactly when its key is new |
| TreeTraversal.RemovedEntries | src/index/ix_index_handle.cpp:197-215 | removal keeps the entries sorted and drops exactly those with the key |
| TreeTraversal.RemoveUndoesInsert | src/index/ix_index_handle.cpp:65-215 | deleting a key just inserted restores the entries |
| TreeTraversal.InsertUndoesRemove | src/index/ix_index_handle.cpp:65-215 | inserting an entry just deleted restores the entries |
| IndexDescent.FindLeafPage | src/index/ix_index_handle.cpp:22-33 | the descent as written, for any contents of the unused slots, ends on the covering leaf if it stays on course: on every level the key is below all keys of the page, or not below the last one and the unused slot names the last child; otherwise it ends on another leaf, or goes astray: an unused slot names a page that is not the last child |
| IndexDescent.CoveringChild | src/index/ix_node_handle.cpp:65-68 | of the children of a page that covers the key exactly the one in the responsible slot covers it |
| IndexDescent.DescentMisses | src/index/ix_node_handle.cpp:29-68 | a concrete page and key for which the slot chosen is not the responsible one |
| IndexScan.IxScan.constructor | src/index/ix_index_handle.cpp:571-587 | from first_leaf, never updated, to last_leaf, every entry of the index lies ahead |
| IndexScan.IxScan.Next | src/index/ix_scan.cpp:6-18 | each step consumes exactly the first entry ahead, and leaves one pin behind |
| IndexScan.IxScan.EndIffNothingLeft | src/index/ix_scan.cpp:6-18 | the scan is at its end exactly when no entry is left |
| IndexScan.IxScan.GetRid | src/index/ix_index_handle.cpp:507-514 | the rid at the scan's place is that of the first entry ahead |
| IndexScan.ScanAll | src/index/ix_scan.cpp:6-22 | a scan from begin to end yields the rid of every entry once, in ascending key order, and ends |
| Matching.MaxBipartiteMatchState.TryAugment | deps/googletest/googlemock/src/gmock-matchers.cc:184-208 | a success adds one matched left node and keeps the partial matching consistent; a failure changes nothing and leaves the nodes seen closed under alternating paths; a search from inside such a closed set fails |
| Matching.MaxBipartiteMatchState.Compute | deps/googletest/googlemock/src/gmock-matchers.cc:132-163 | the pairs are a matching of the graph and no matching has more |
| Matching.FindMaxBipartiteMatching | deps/googletest/googlemock/src/gmock-matchers.cc:228-230 | the same for every graph, from nothing |
| Matching.Maximum | deps/googletest/googlemock/src/gmock-matchers.cc:64-121 | when every unmatched left node has all its neighbours in a closed set, every matching has at most as many edges as there are matched left nodes |
| Matching.CollectedIsMatching | deps/googletest/googlemock/src/gmock-matchers.cc:156-163 | the pairs read off are edges, no node is used twice, and each matched left node gives one |
| Matching.FindPairing | deps/googletest/googlemock/src/gmock-matchers.cc:420-459 | true exactly when some matching covers all elements and all matchers that the flags ask for |
| Matching.CoverRightCount | deps/googletest/googlemock/src/gmock-matchers.cc:423-441 | a matching covers all right nodes exactly when it has that many edges, so comparing sizes is enough |
| LruReplacer.LRUReplacer.Victim | src/replacer/lru_replacer.cpp:12-25 | over any history, evicts the frame whose entry time is oldest; fails exactly when there is none |
| LruReplacer.LRUReplacer.Pin | src/replacer/lru_replacer.cpp:31-39 | the frame is not evictable any more, list and hash still agree |
| LruReplacer.LRUReplacer.Unpin | src/replacer/lru_replacer.cpp:45-61 | the frame becomes evictable unless the replacer is full, and keeps its age if it was already |
| LruReplacer.EnteredAtUnpin | src/replacer/lru_replacer.cpp:12-61 | an evictable frame's entry time is a call that released it when it was not evictable, and it has been evictable, neither pinned nor evicted, after every call since |
| PoolState.NoFrameLeft | src/storage/buffer_pool_manager.cpp:8-17 | no frame is free or evictable exactly when all are pinned |
| PoolState.RoomFor | src/replacer/lru_replacer.cpp:45-61 | the replacer's capacity guard never turns a frame away |
| PoolState.UnpinOk | src/storage/buffer_pool_manager.cpp:92-115 | the frame partition and the memory seen are kept, one pin is given back; contents are safe afterwards exactly when this release did not keep a change quiet |
| PoolState.FlushOk | src/storage/buffer_pool_manager.cpp:122-136 | partition, memory and pins are kept; the page's contents are on disk, its frame is clean and no other frame has changed; its changes need no report any more |
| PoolState.FlushAllOk | src/storage/buffer_pool_manager.cpp:223-233 | afterwards every resident page of the file is clean and its contents are on disk; changes of that file need no report any more; memory, pins and partition are kept |
| PoolState.FlushedFramesOk | src/storage/buffer_pool_manager.cpp:223-233 | the loop changes nothing in the frames but the dirty flags of the file's pages, and what it has passed is on disk |
| PoolState.ReadableBeforeEnd | src/storage/disk_manager.cpp:30-39 | a page can be read exactly if it starts before the end of its file, whether it was ever written or not |
| PoolState.CreateOk | src/storage/buffer_pool_manager.cpp:143-169 | the new page did not exist before, is zero, pinned once; every other page is as it was |
| PoolState.DeleteOk | src/storage/buffer_pool_manager.cpp:176-216 | dropping a page changes nothing that clients see: it is unmapped, its last contents are on disk, and its frame is the last free one |
| BufferPool.BufferPoolManager.FindVictimPage | src/storage/buffer_pool_manager.cpp:8-17 | a frame comes back unless all are pinned: the head of the free list, else the one evictable for the longest time, which leaves the replacer |
| BufferPool.BufferPoolManager.UpdatePage | src/storage/buffer_pool_manager.cpp:26-42 | the old page is written back if dirty and leaves the table, the new one is mapped, zero and clean |
| BufferPool.BufferPoolManager.FetchPage | src/storage/buffer_pool_manager.cpp:51-84 | fails for want of a frame exactly when the page is absent and all frames are pinned; else delivers the last contents, one more pin and the same memory; reading beyond the end of the file is the one case that breaks the partition |
| BufferPool.BufferPoolManager.UnpinPage | src/storage/buffer_pool_manager.cpp:92-115 | succeeds exactly on a pinned page; it loses one pin, dirtiness is only ever added, no other frame changes, and the frame becomes evictable with the last pin |
| BufferPool.BufferPoolManager.FlushPage | src/storage/buffer_pool_manager.cpp:122-136 | fails exactly on an absent page; otherwise the contents are on disk, the dirty flag is cleared, and no other frame or page of the disk changes |
| BufferPool.BufferPoolManager.NewPage | src/storage/buffer_pool_manager.cpp:143-169 | fails exactly when all frames are pinned; the page has the next number of the file's counter, is zero, clean and pinned once, and no other frame changes |
| BufferPool.BufferPoolManager.DeletePage | src/storage/buffer_pool_manager.cpp:176-216 | refuses exactly a pinned page; otherwise the page is unmapped, its frame is reset, last in the free list and not evictable, and its contents are on disk |
| BufferPool.BufferPoolManager.FlushAllPages | src/storage/buffer_pool_manager.cpp:223-233 | every resident page of the file is on disk and clean afterwards, and the memory seen is kept |
| BufferPool.DiskManager.ReadPage | src/storage/disk_manager.cpp:30-39 | reading fails exactly at and beyond the end of the file |
| BufferPool.LostFrame | src/storage/buffer_pool_manager.cpp:66-84 | a frame without pins in no list breaks the partition |
| PoolClients.FullByPins | src/storage/buffer_pool_manager.cpp:8-17 | all frames are pinned exactly when clients hold as many pinned pages as there are frames |
| PoolClients.Run | src/storage/buffer_pool_manager.cpp:8-233 | every reply of every run of any operations is that of a plain memory, refusals for want of a frame exactly when the clients' own pins fill the pool, up to the first operation that breaks the discipline of reporting changes |
| Latch.MutualExclusion | src/common/rwlatch.cpp:6-51 | in every interleaving of any number of threads, while one writes no other reads or writes |
| Latch.WriterWaitsOnlyForEarlierReaders | src/common/rwlatch.cpp:11-14 | from a writer's announcement until its unlock no thread becomes a reader |
| Latch.NoLostWakeup | src/common/rwlatch.cpp:6-51 | with at most one thread over the reader limit, whoever sleeps still has to wait, and the latch is never stuck |
| Latch.SomeoneIsActive | src/common/rwlatch.cpp:6-51 | behind every sleeper there is a thread that holds the latch or can run |
| Latch.SafeExactlyUpToOneExtraThread | src/common/rwlatch.cpp:41-51 | a run that ends with a sleeper and nobody else inside exists exactly when there are two threads more than the limit |
| Latch.StepOk | src/common/rwlatch.cpp:6-51 | every step keeps: the counter is the number of readers, at most one thread is past the announcement, and none reads while one writes |
| Latch.ReaderWriterLatch.WLock | src/common/rwlatch.cpp:6-15 | enters at once exactly when nobody is inside; behind a writer it waits on the readers' condition, behind readers it announces itself and waits for them; no other thread moves |
| Latch.ReaderWriterLatch.WUnlock | src/common/rwlatch.cpp:20-24 | wakes all that wait on the readers' condition and nobody else |
| Latch.ReaderWriterLatch.RLock | src/common/rwlatch.cpp:29-35 | becomes a reader exactly without a writer and below the limit; the counter does not wrap |
| Latch.ReaderWriterLatch.RUnlock | src/common/rwlatch.cpp:40-51 | the counter goes down by one without wrapping; it wakes the writer when the last reader leaves, one waiter on the step below the limit, and nobody otherwise |
| Bitmap.SetChangesOneBit | src/record/bitmap.h:15 | setting a bit sets that one and leaves all others |
| Bitmap.ResetChangesOneBit | src/record/bitmap.h:18 | clearing a bit clears that one and leaves all others |
| Bitmap.ResetUndoesSet | src/record/bitmap.h:15-18 | clearing a bit just set restores the bytes |
| Bitmap.HighestBitFirst | src/record/bitmap.h:47-50 | position pos is the bit of value 2^(7 - pos % 8) of byte pos / 8 |
| Bitmap.NextBit | src/record/bitmap.h:31-38 | finds the first position behind the given one with the bit, or the end |
| Bitmap.Init | src/record/bitmap.h:12 | exactly the bytes of the bitmap become zero |
| RecordPage.CreatedFileIsLaidOut | src/record/rm_manager.h:22-35 | exactly sizes 1 to 512 are accepted; the bitmap covers all slots, everything fits in a page, and the count is within one of the largest that fits the inequality |
| RecordPage.OneShort | src/record/rm_manager.h:32-35 | for every record size: one record more would fit exactly when fewer than seven bits of the page are left over by the largest count that fits |
| RecordPage.SlotBounds | src/record/rm_file_handle.h:21-31 | slots lie in the page, behind the bitmap, and do not overlap |
| RecordPage.FilledChangesOneSlot | src/record/rm_file_handle.cpp:28-37 | writing a record and its bit changes that slot only, in bits and bytes |
| RecordPage.FullIffNoFreeSlot | src/record/rm_file_handle.cpp:39-42 | the count reaches the number of slots exactly when every slot is live |
| RecordPage.FilledOk | src/record/rm_file_handle.cpp:35-37 | the count stays that of the set bits exactly when the slot was free |
| RecordPage.EmptiedOk | src/record/rm_file_handle.cpp:58-60 | the count stays that of the set bits exactly when the slot was live |
| RecordState.InsertedRecords | src/record/rm_file_handle.cpp:24-47 | the map gets the record under its rid and is otherwise the same |
| RecordState.DeletedRecords | src/record/rm_file_handle.cpp:54-68 | the map loses that rid and is otherwise the same |
| RecordState.InsertedFreeList | src/record/rm_file_handle.cpp:39-42 | a page that became full leaves the head of the free list, which stays acyclic and exactly the pages with room |
| RecordState.DeletedFreeList | src/record/rm_file_handle.cpp:62-65 | a page that was full enters at the head, and the same holds |
| RecordState.FreeListUnique | src/record/rm_file_handle.cpp:112-161 | the links determine the list |
| RecordState.ReadiedOk | src/record/rm_file_handle.cpp:112-147 | taking the first free page, or a new one when there is none, gives a page with room and changes no record |
| RecordState.DeleteNeedsLive | src/record/rm_file_handle.cpp:54-68 | deletion leaves a sound file exactly when the record was there |
| RecordState.DeleteUndoesInsert | src/record/rm_file_handle.cpp:24-68 | deleting what was just inserted restores the records, and the page is first in the free list |
| RecordFile.RmFileHandle.InsertRecord | src/record/rm_file_handle.cpp:24-47 | the rid is new: the first free slot of the first page with room, or of a page added at the end; the records are the old ones with the new one under it, the file stays sound, pins are as before |
| RecordFile.RmFileHandle.DeleteRecord | src/record/rm_file_handle.cpp:54-68 | the records are the old ones without the rid; the file stays sound exactly when the rid was live; pins are as before |
| RecordFile.RmFileHandle.UpdateRecord | src/record/rm_file_handle.cpp:76-85 | a live record gets the new bytes, nothing else changes, pins are as before |
| RecordFile.RmFileHandle.GetRecord | src/record/rm_file_handle.cpp:9-16 | a live rid delivers its record, which are the bytes of its slot, a missing page an error; pins are as before |
| RecordFile.RmFileHandle.IsRecord | src/record/rm_file_handle.h:66-69 | tells exactly whether the rid is live, and leaves a pin behind |
| RecordFile.RmFileHandle.CreatePageHandle | src/record/rm_file_handle.cpp:138-147 | delivers the head of the free list, pinned, after adding a page if the list was empty |
| RecordScan.RmScan.constructor | src/record/rm_scan.cpp:10-25 | stands on the first live record of the file, or at the end |
| RecordScan.RmScan.Next | src/record/rm_scan.cpp:30-56 | moves to the first live record behind the present one, past pages without any, or to the end |
| RecordScan.ScanAll | src/record/rm_scan.cpp:10-63 | a scan of an unchanged file ends and has met every live record once, in page and slot order |
| ExpectationGraph.DefinitionOrderIsAcyclic | deps/googletest/googlemock/src/gmock-spec-builders.cc:746-754 | prerequisites that only name earlier expectations have no cycle |
| ExpectationGraph.Expanded | deps/googletest/googlemock/src/gmock-spec-builders.cc:139-150 | replacing the top of the stack by any of its prerequisites lowers a measure, so a walk without visited set ends |
| Prerequisites.Expectations.RetireAllPreRequisites | deps/googletest/googlemock/src/gmock-spec-builders.cc:108-131 | from a retired set closed under prerequisites: ends with the old set and all that the node reaches, or unchanged if it is retired itself |
| Prerequisites.Expectations.AllPrerequisitesAreSatisfied | deps/googletest/googlemock/src/gmock-spec-builders.cc:135-152 | ends on every acyclic graph, and is true exactly when all that the node reaches is satisfied |
| Prerequisites.Expectations.FindUnsatisfiedPrerequisites | deps/googletest/googlemock/src/gmock-spec-builders.cc:155-182 | reports exactly the unsatisfied prerequisites to which a path leads over satisfied ones without a call, all unsatisfied immediate ones included; none exactly when all are satisfied, although it does not look behind those that have been called |
| Prerequisites.Expectations.ShouldHandle | deps/googletest/googlemock/include/gmock/gmock-spec-builders.h:1102-1112 | takes a matching call exactly when not retired and the calls of all prerequisites, however indirect, are within their limits |
| Prerequisites.Expectations.TakeCall | deps/googletest/googlemock/include/gmock/gmock-spec-builders.h:1196-1222 | counts the call, which is expected exactly below the limit; an expected call retires exactly what the expectation depends on, and itself exactly if it retires on saturation and the limit is reached; any other call only counts |
| Prerequisites.CalledOk | deps/googletest/googlemock/include/gmock/gmock-spec-builders.h:1196-1222 | every call keeps the retired set closed, which is what the short-cut relies on, and the prerequisites of all called expectations satisfied and retired |
| Prerequisites.PrerequisitesComeFirst | deps/googletest/googlemock/src/gmock-spec-builders.cc:108-152 | over every run: when an expectation takes a call within its limit, everything it depends on has had its calls and takes none afterwards |
| Prerequisites.SatisfiedByCalls | deps/googletest/googlemock/include/gmock/gmock-spec-builders.h:776-785 | over every run an expectation is satisfied exactly when the number of calls it took is within its limits |
| Prerequisites.FirstCallsAreExpected | deps/googletest/googlemock/include/gmock/gmock-spec-builders.h:1201-1212 | over every run exactly the first calls of an expectation, up to its limit, are expected |
| Prerequisites.RetiringTakesNoMore | deps/googletest/googlemock/include/gmock/gmock-spec-builders.h:1215-1217 | over every run an expectation that retires on saturation, with a limit over 0, takes no call beyond it |
| Conditions.ComparesBothWays | src/index/ix_node_handle.h:9-26 | two values compare in both orders exactly when type and length agree, and then with opposite results, equal only if the same |
| Conditions.BytesOrdered | src/index/ix_node_handle.h:21-22 | byte strings compare by their first difference, as far as the left one goes, and are equal only if it is a prefix |
| Conditions.HoldsInOrder | src/execution/executor_seq_scan.h:128-159 | a condition holds exactly if the operator says so of the numbers or strings themselves, for all six operators |
| Conditions.IntConditions | src/execution/executor_seq_scan.h:143-155 | for integer operands each operator is the order of the integers |
| Conditions.FloatConditions | src/execution/executor_seq_scan.h:143-155 | for float operands each operator is the order of the numbers |
| Conditions.TurnedMeansTheSame | src/execution/executor_seq_scan.h:33-45 | exchanging the sides with the mirrored operator says the same about every row |
| Conditions.DifferentLengthsDoNotSwap | src/execution/executor_seq_scan.h:128-159 | both orders can be evaluated exactly when the columns agree in type and length |
| Conditions.FedMeansTheSame | src/execution/executor_seq_scan.h:101-126 | a condition fed with the outer row passes the runtime check and says about the own row what it said about both |
| Pushdown.PopConds | src/execution/execution_manager.cpp:157-172 | splits off exactly the covered conditions, both parts in order, none lost or doubled |
| Pushdown.HandOut | src/execution/execution_manager.cpp:199-209 | table j gets exactly the conditions it is the first to cover; what is left is what no table covers; none lost or doubled |
| Pushdown.ExactlyOneLevel | src/execution/execution_manager.cpp:201-208 | a covered condition goes to one table and to no second |
| Pushdown.NothingLeftIffAllListed | src/execution/execution_manager.cpp:209 | the assertion after the loop holds exactly when every table named in a condition is listed |
| Pushdown.OneSideIsOwn | src/execution/executor_seq_scan.h:37-45 | the assertion in the scan's constructor holds for the conditions it is given, and after turning the left side is its own |
| Pushdown.SeqScanExecutor.constructor | src/execution/executor_seq_scan.h:24-47 | the loop turns every condition whose left side is on another table, and only those |
| Pushdown.SeqScanExecutor.Feed | src/execution/executor_seq_scan.h:101-115 | fails exactly when a value is missing; otherwise all foreign columns are values and the runtime check holds |
| Pushdown.SeqScanExecutor.CheckRuntimeConds | src/execution/executor_seq_scan.h:119-126 | true exactly when all conditions are on the scan's own table |
| Pushdown.SeqScanExecutor.EvalConds | src/execution/executor_seq_scan.h:128-164 | true exactly when every condition holds on the row, and that is when each operator says so of its two values in their own order |
| NestedScan.ScanChecksItsLevel | src/execution/executor_seq_scan.h:101-164 | what a built and fed scan checks is what its level asks |
| NestedScan.ProductCount | src/execution/executor_nestedloop_join.h:92-102 | the cross product has every combination of one row from each table as often as its rows occur there, and nothing else |
| NestedScan.JoinHasColumns | src/execution/executor_nestedloop_join.h:92-102 | the joined row has every column of every row it is made of |
| NestedScan.ScansSelect | src/execution/execution_manager.cpp:199-209 | nested scans select from the cross product exactly the rows on which every condition holds as its scan has turned it, in the same order, for any number of tables |
| NestedScan.MeaningPreservedIff | src/execution/execution_manager.cpp:199-209 | so they select what the query says exactly if turned and written conditions agree on all combinations of rows |
| NestedScan.PushdownPreservesMeaning | src/execution/execution_manager.cpp:199-209 | which they do, for all rows, if no condition is turned that compares columns of different length |
| NestedScan.TurningChangesMeaningIff | src/execution/executor_seq_scan.h:37-45 | exchanging the sides of a condition changes what it says about some row exactly if the two are string columns, not empty, that differ in length |
| NestedScan.ScansFailOnlyOnLengths | src/execution/executor_seq_scan.h:101-159 | whatever rows are being joined, feeding and the runtime check never fail, and evaluation reads too far exactly if the left column, once turned, is longer than the right one |
| Decimal.DivideBy10IsExact | deps/googletest/googletest/src/gtest-printers.cc:306-317 | the long division is exact and no 64-bit result overflows |
| Decimal.PrintUnsigned | deps/googletest/googletest/src/gtest-printers.cc:289-321 | prints the decimal numeral of every 128-bit number, in at most 39 digits |
| Decimal.PrintSigned | deps/googletest/googletest/src/gtest-printers.cc:322-329 | prints sign and magnitude of every 128-bit number, the least one included |
| Decimal.NumeralDenotes | deps/googletest/googletest/src/gtest-printers.cc:289-321 | the numeral denotes the number and has no leading zero |
| Decimal.NumeralUnique | deps/googletest/googletest/src/gtest-printers.cc:289-321 | it is the only string of digits without leading zero that does |
| Metadata.OutStream.PrintDb | src/system/sm_meta.h:102-108 | the loops print name, count and all tables in the order of the walk |
| Metadata.ColText | src/system/sm_meta.h:20-24 | the text of a column: table, name, type, length, offset and index flag with a blank between them |
| Metadata.NumbersRead | src/defs.h:13-19 | an int is read within its range, a flag as 0 or 1, a count modulo 2^64 if it is negative; everything else fails the stream |
| Metadata.InStream.GetTab | src/system/sm_meta.h:68-77 | reads a name, an unsigned 64-bit count, a minus sign wrapping around, and that many columns, or leaves the stream failed |
| Metadata.InStream.GetDb | src/system/sm_meta.h:110-119 | reads a name, such a count and that many tables into the map, each under its name, or leaves the stream failed |
| Metadata.TabHere | src/system/sm_meta.h:60-77 | a printed table with one-word names is read back wherever it stands in the text |
| Metadata.DbBack | src/system/sm_meta.h:102-119 | reading a printed catalogue into any catalogue sets the name and stores every table under its own name over what was there |
| Metadata.OnlyWordsCatalogued | src/system/sm_meta.h:26-28 | whatever text is read, every name in the result is one word |
| Metadata.RoundTrip | src/system/sm_meta.h:102-119 | reading back what was printed restores the catalogue exactly when every name is one word and each table is stored under its own name, for any number of tables and columns |
| Metadata.PrintAndRead | src/system/sm_meta.h:20-119 | the same for the stream operators themselves |

## Left out

- Bytes of index pages: keys are integers, which stand for the totally ordered keys of a fixed width; NaN is not among them, and floats in conditions are reals. Only record pages are modelled as bytes.
- Pages the index drops: their contents, which nobody reads again, stay in the model's page map.
- In index and record operations the pool always has a frame: running out of frames, and the pool's own bookkeeping, are modelled in the buffer pool only. A missing page of a record file is an error without further effect.
- Page 0 of a record file: rids with page number 0 are excluded, because the source would read the file header as records; slots outside the page likewise, where it would read other memory.
- IndexHandle.IxIndexHandle.MaintainParent: is stated for the pages for which the source calls it, those not in slot 0 of their parent; there the loop changes one key and ends at the level above.
- IndexHandle.IxIndexHandle.DeleteEntry: after the last entry is gone the index has no root and nothing further is modelled, because no operation of the source handles that state.
- IndexDescent.FindLeafPage: where the unused slot does not name the last child, the source goes on from whatever page it names; the model ends there as `Astray`. Range scans by key (`lower_bound`, `upper_bound` of the index) are not modelled, because they rest on the descent that misses.
- IndexScan.IxScan.Next: the page it fetches stays pinned, as in the source; so does the page `is_record` looks at.
- Closing and reopening of files with the pool: one session is modelled.
- `BufferPoolManager`: one latch protects every operation, so operations are modelled one at a time.
- Latch: readers that lock again while reading, and unlocking without a lock.
- `RmScan.next` at the end of a scan, where the source asks for page -1.
- Recovery's `insert_record` at a given rid, and the log.
- Reading numbers of the catalogue: a plus sign is not modelled. The number of columns and of tables is below 2^64. The order in which the map of tables is walked is a parameter.
- `rec2dict` cuts strings at the first zero byte and pads them again; conditions are fed with the column's bytes as they are.
- Matching arguments of mock calls: a call is given by the expectation that takes it.
- Frame numbers stand for list iterators in the replacer.
- Stubs: clock replacer, lock and transaction managers, the remaining executors, `TabMeta::is_col` and `get_col`.
- Files, sockets, terminal output, the SQL parser, and the rest of the test library.
