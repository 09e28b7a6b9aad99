# Verified model of a disk-based relational engine

The engine keeps its tables and indexes on pages of 4096 bytes. This project models five of its layers in
Dafny and proves what they promise:

- the **B+ tree index**: top-down splitting insertion, rebalancing removal, searches that descend in memory
  and then follow the chain of leaf pages, and the write-through of every touched node;
- the **buffer pool**: 100 frames over a directory of pages, with an LRU list and a free list;
- the **bytes**: slotted pages, the codecs of fields, tuples, tree nodes and log records, and the log file;
- the **operators**: external merge sort, nested-loop, hash and index joins, sort and hash aggregation and
  the sequential scan, each as a machine that returns one row per call; and the static hash index;
- **rollback and recovery**: the reverse undo of an aborted transaction and the two passes over a log.

## How it is built

Every component that changes state has two forms. A *specification* describes it by values and functions
(`BTreeModel`, `BTreeRemoveModel`, `PoolModel`, `SlottedPages`, `TableModel`, `SortModel`, `JoinModel`,
`AggregateModel`, `Recovery`, `RecoverySerial`, `Abort`), and the main theorems are lemmas about these functions. A *class* has
the fields, loops and in-place writes of the program; the postconditions of its methods say that its new state
is what the specification makes of the old one. For the B+ tree, `BPlusTrees.BPlusTree` keeps one record per
page id in memory and one image per page; `index` is the tree that both hold. `LruList.Lru` is a doubly linked
list of nodes on the heap.

| files | layer |
|---|---|
| `Basics`, `Bytes` | options, page size; bytes and little-endian integers |
| `BTreeModel`, `BTreeInsert*`, `BTreeIndex`, `BTreeSearch`, `BTreePoint` | B+ tree: insertion and searching |
| `BTreeRemove*`, `BTreeRuns`, `BTreeReload` | B+ tree: removal, mixed runs, reading back |
| `BTreeExamples` | runs of a small B+ tree that break a promise |
| `BPlusTreeStore`, `BPlusTreeRemoveStore`, `BPlusTree`, `NodeCodec` | B+ tree: nodes, page images, the class, node bytes |
| `PoolModel`, `PoolCache`, `PoolResidency`, `LruList`, `BufferPool` | buffer pool, LRU list, disk directory |
| `TupleCodec`, `TupleIO`, `SlottedPage`, `SlottedPageBytes` | codecs, log framing, slotted page |
| `TableModel`, `TableHeap`, `TableScan`, `Abort`, `TransactionManager`, `Recovery`, `RecoverySerial` | tables, scan, transactions, recovery |
| `SortModel`, `ExternalMergeSort`, `Streams`, `JoinModel`, `JoinOperators`, `AggregateModel`, `AggregateOperators`, `HashIndex` | operators and hash index |

## Where the code does less than it promises

These are results of the proofs. Each is stated as the exact condition under which the promise holds, with an
input that breaks it.

- **Insertion into the B+ tree** may put a key left of a separator equal to it, when a full node is split around that
  separator on the way down. Strict order survives if and only if the key is not stored and this does not happen
  (`BTreeIndex.InsertKeepsValid`), and a new key is found by a search if and only if it does not happen
  (`BTreePoint.InsertedIsFound`). It needs a separator that is no longer a stored key, which a removal leaves
  (`BTreeExamples.PromotedIsMissed`); after insertions alone it never happens (`BTreeIndex.BuildStrict`).
- **Removal from the B+ tree** may take out another key's entry when the key equals a separator: the separator
  is replaced by its predecessor or successor, and the descent turns to that key. With distinct keys the removal is
  exact if and only if the descent never turns to another key (`BTreeRuns.IndexRemoveExact`,
  `BTreeExamples.MissExample`). A key that equals no separator is removed exactly, duplicates included
  (`BTreeRuns.IndexRemoveOffSeparators`).
- **A search** misses a stored key that lies left of an equal separator on its path, and only such keys
  (`BTreeRuns.IndexSearchExact`). Such an insertion leaves one there, and so does a removal that turned to another key
  (`BTreeExamples.ReplacedIsMissed`).
- **Merging two leaves** breaks the persisted chain of sibling ids, because only the in-memory pointer is
  updated (`BTreeRuns.IndexChainSurvives`, `BTreeExamples.ChainBreaks`).
- **`findValue` with duplicate keys** can miss record ids, when a separator cuts a run of equal keys
  (`BTreeSearch.PointScanComplete`, `BTreePoint.CutRunExample`). Range queries are always complete.
- **The record id of a tuple that opens a new page** has slot -1 and finds nothing
  (`TableModel.InsertedReadsBack`, `TableModel.OpenedPageExample`); for that reason an abort restores the rows of a
  table if and only if no insertion of the transaction opened a page (`Abort.AbortRestores`, `Abort.AbortExample`).
- **A row that an update moved** is found by its record id, but statements still act on its first place: a further
  update stores a larger tuple beside the old one and loses any other (`TableModel.UpdateOfMovedRow`), and a deletion
  takes the row out if and only if it is still on its first page (`TableModel.DeleteOfMovedRow`).
- **Recovery** replays through the table heap, where a tuple larger than the stored one moves to another place:
  every row keeps its place if and only if no replayed tuple is larger than the one it finds
  (`Recovery.ReplayInPlaceExact`, `RecoverySerial.GrownRowIsLost`). Where that holds, as it does for updates of
  the same size, a transaction that did not commit and wrote a row twice is still undone to the value in between
  (`RecoverySerial.RecoverSerial`, `RecoverySerial.TwiceWrittenIsNotUndone`). Both failures happen to a table with a
  single row (`RecoverySerial.RecoveryExamples`).
- **Sort aggregation by several columns** sorts on the first one only: its runs are the groups if and only if rows
  with the same key are next to each other (`AggregateModel.RunsAreGroups`, `AggregateModel.SecondKeyCuts`).
- **MAX and MIN** start from zero: MAX is the maximum if and only if some number is not negative, MIN the minimum if and
  only if some number is not positive (`AggregateModel.ExtremesExact`, `AggregateModel.ExtremesMissed`).
- **16-bit sizes** wrap: the room set aside on a page holds the tuple exactly for sizes up to 65528
  (`SlottedPages.PaddedHolds`); tree nodes fit their pages exactly for minimum degrees up to 78
  (`NodeCodec.NodesFitPages`).

## Model

| member | source | states |
|---|---|---|
| BTreeInsert.InsertKeepsBalance | src/Storage/Indexing/BPlusTreeIndex.c++:216-339 | an insertion below a node that is not full, with all its splits, keeps equal leaf depth and t-1..2t-1 occupancy |
| BTreeInsert.InsertAddsEntry | src/Storage/Indexing/BPlusTreeIndex.c++:293-339 | the entries are the old ones and exactly one more, duplicates included |
| BTreeInsert.InsertKeepsOrder | src/Storage/Indexing/BPlusTreeIndex.c++:216-339 | left subtree <= separator <= right subtree survives every insertion; strictly if and only if the key is not stored and the descent does not put it left of an equal separator |
| BTreeInsertLinks.InsertKeepsLinks | src/Storage/Indexing/BPlusTreeIndex.c++:216-261 | both leaf chains, in memory and by persisted sibling ids, stay the left-to-right order of the leaves |
| BTreeInsertLinks.InsertKeepsIds | src/Storage/Indexing/BPlusTreeIndex.c++:216-339 | page ids stay distinct; exactly the newly allocated ones are added |
| BTreeIndex.InsertKeepsValid | src/Storage/Indexing/BPlusTreeIndex.c++:850-879 | a whole insertion, growing a new root included, keeps every invariant and adds one entry; strict order survives under exactly that condition |
| BTreeIndex.InsertKeepsChain | src/Storage/Indexing/BPlusTreeIndex.c++:850-879 | a whole insertion keeps either leaf chain |
| BTreeIndex.BuildContents | src/Storage/Indexing/BPlusTreeIndex.c++:850-879 | any run of insertions leaves exactly the multiset of the inserted entries |
| BTreeIndex.BuildSeparators | src/Storage/Indexing/BPlusTreeIndex.c++:216-261 | after any run of insertions every separator is a stored key |
| BTreeIndex.BuildStrict | src/Storage/Indexing/BPlusTreeIndex.c++:850-879 | a run of insertions of distinct keys leaves a strictly ordered tree |
| BTreeSearch.LeavesChain | src/Storage/Indexing/BPlusTreeIndex.c++:799-830 | following the persisted sibling ids visits exactly the leaves, left to right |
| BTreeSearch.RangeScanComplete | src/Storage/Indexing/BPlusTreeIndex.c++:799-830 | scanning from the leaf that a range query reaches misses no entry in range, duplicates included |
| BTreeSearch.InRangeExact | src/Storage/Indexing/BPlusTreeIndex.c++:817-829 | the scan's answer has the record ids at exactly the positions of the entries with lower <= key <= upper, each once, in order |
| BTreeSearch.PointScanComplete | src/Storage/Indexing/BPlusTreeIndex.c++:762-795 | scanning from the leaf that a point query reaches finds all record ids of the key if and only if no separator cuts their run |
| BTreePoint.LeafDecides | src/Storage/Indexing/BPlusTreeIndex.c++:739-759 | the leaf reached has the key if and only if the tree has it |
| BTreePoint.SearchAfterInserts | src/Storage/Indexing/BPlusTreeIndex.c++:739-759 | after any run of insertions a search finds exactly the inserted keys |
| BTreePoint.InsertedIsFound | src/Storage/Indexing/BPlusTreeIndex.c++:313-339 | on every valid index, a key not stored before is found after its insertion if and only if the descent did not put it left of an equal separator |
| BTreePoint.PointQueryAfterInserts | src/Storage/Indexing/BPlusTreeIndex.c++:739-830 | after insertions of distinct keys the point query returns exactly the key's record id or nothing, and agrees with the search and with the range query of that key alone |
| BTreePoint.CutRunExample | src/Storage/Indexing/BPlusTreeIndex.c++:216-261 | four equal keys in a tree of minimum degree 2: the point query returns these three record ids, without the first |
| BTreeRemove.PrepareKeepsBalance | src/Storage/Indexing/BPlusTreeIndex.c++:440-525 | the step before each descent of a removal leaves a child with an entry to spare, and depth and occupancy intact |
| BTreeRemove.BorrowAndMergeKeepEntries | src/Storage/Indexing/BPlusTreeIndex.c++:557-691 | borrowing and merging conserve the left-to-right list of entries |
| BTreeRemove.RemoveDropsOne | src/Storage/Indexing/BPlusTreeIndex.c++:420-536 | a removal takes out at most one entry and leaves all others in place |
| BTreeRemoveOrder.RemoveKeepsOrder | src/Storage/Indexing/BPlusTreeIndex.c++:420-691 | every removal keeps the order of the tree |
| BTreeRemoveExact.RemoveExact | src/Storage/Indexing/BPlusTreeIndex.c++:420-536 | in an ordered tree with distinct keys exactly the entries with other keys are left if and only if the descent never turns to another key |
| BTreeRemoveExact.StoredKeyRemovesOne | src/Storage/Indexing/BPlusTreeIndex.c++:420-536 | with distinct keys, removing a stored key always takes an entry out |
| BTreeRemoveExact.OffSeparatorsIsRight | src/Storage/Indexing/BPlusTreeIndex.c++:420-536 | a key that equals no separator: the entry taken out has the key, and none is if it is not stored, duplicates included |
| BTreeRemoveExact.OffSeparatorsIsExact | src/Storage/Indexing/BPlusTreeIndex.c++:420-536 | with distinct keys, removing a key that equals no separator leaves exactly the entries with other keys |
| BTreeRemoveExact.NoSeparatorNoMiss | src/Storage/Indexing/BPlusTreeIndex.c++:440-497 | a key that equals no separator is not missed |
| BTreeRemoveLinks.RemoveKeepsLinks | src/Storage/Indexing/BPlusTreeIndex.c++:557-691 | every removal keeps the in-memory leaf chain |
| BTreeRemoveLinks.RemoveKeepsIds | src/Storage/Indexing/BPlusTreeIndex.c++:557-691 | a removal uses no new page ids and keeps them distinct |
| BTreeRemoveChain.ChainSurvives | src/Storage/Indexing/BPlusTreeIndex.c++:648-691 | the persisted leaf chain survives a removal if and only if it merges no two leaves |
| BTreeRuns.RemoveKeepsSound | src/Storage/Indexing/BPlusTreeIndex.c++:902-916 | a whole removal of any key, root collapse included, keeps every invariant and takes out at most one entry |
| BTreeRuns.IndexRemoveExact | src/Storage/Indexing/BPlusTreeIndex.c++:902-916 | on an index with distinct keys `remove` leaves exactly the entries with other keys if and only if its descent never turns to another key; a strict index then stays strict |
| BTreeRuns.IndexRemoveOffSeparators | src/Storage/Indexing/BPlusTreeIndex.c++:902-916 | a key that equals no separator is removed exactly, and nothing if it is not stored |
| BTreeRuns.IndexChainSurvives | src/Storage/Indexing/BPlusTreeIndex.c++:648-691 | a whole removal keeps the persisted chain exactly when it merges no two leaves |
| BTreeRuns.CleanRunIsMap | src/Storage/Indexing/BPlusTreeIndex.c++:850-916 | after any mixed run that inserts keys not stored and whose removals never turn to another key, the index holds exactly the pairs of a plain map, each key once |
| BTreeRuns.IndexSearchExact | src/Storage/Indexing/BPlusTreeIndex.c++:739-759 | on every index with distinct keys a search finds a key if and only if it is stored and no equal separator on the path has it on the left; in a strict index if and only if it is stored |
| BTreeRuns.CleanRunSearch | src/Storage/Indexing/BPlusTreeIndex.c++:739-759 | after such a run a search finds a key if and only if the map has it and no equal separator on the path has it on the left; exactly the keys of the map in a strict index |
| BTreeRuns.UnpromotedRunSearch | src/Storage/Indexing/BPlusTreeIndex.c++:739-916 | if moreover no insertion goes left of an equal separator, the index is strict and a search finds exactly the keys of the map |
| BTreeExamples.MissExample | src/Storage/Indexing/BPlusTreeIndex.c++:450-497 | after eight insertions, removing 8 takes out 7 |
| BTreeExamples.PromotedIsMissed | src/Storage/Indexing/BPlusTreeIndex.c++:325-330 | after a run of distinct insertions and an exact removal, a key inserted again is stored and its search fails |
| BTreeExamples.ReplacedIsMissed | src/Storage/Indexing/BPlusTreeIndex.c++:450-497 | after a removal that took out another key, a stored key is missed by its search |
| BTreeExamples.ChainBreaks | src/Storage/Indexing/BPlusTreeIndex.c++:648-691 | a removal after which the persisted sibling ids no longer name the leaves in order |
| BTreeReload.ReloadKeepsValid | src/Storage/Indexing/BPlusTreeIndex.c++:1035-1081 | an index read back from its pages has the same entries, order and persisted chain |
| BPlusTrees.BPlusTree.SplitChild | src/Storage/Indexing/BPlusTreeIndex.c++:216-261 | the records and page images in the store become those of the split tree |
| BPlusTrees.BPlusTree.InsertNonFull | src/Storage/Indexing/BPlusTreeIndex.c++:293-339 | memory and page images hold the tree with the entry inserted; no other page changes |
| BPlusTrees.BPlusTree.Insert | src/Storage/Indexing/BPlusTreeIndex.c++:850-879 | a whole insertion in the store is the specified one, all touched pages written through |
| BPlusTrees.BPlusTree.Search | src/Storage/Indexing/BPlusTreeIndex.c++:739-759 | whether the leaf for the key has it |
| BPlusTrees.BPlusTree.FindValue | src/Storage/Indexing/BPlusTreeIndex.c++:762-795 | the record ids of the key from its leaf on, hopping by page image |
| BPlusTrees.BPlusTree.RangeQuery | src/Storage/Indexing/BPlusTreeIndex.c++:799-830 | exactly the record ids of the entries in range, each once, in key order |
| BPlusTrees.BPlusTree.BorrowFromPrev | src/Storage/Indexing/BPlusTreeIndex.c++:557-600 | the store after a child takes from its left neighbour |
| BPlusTrees.BPlusTree.BorrowFromNext | src/Storage/Indexing/BPlusTreeIndex.c++:603-645 | the store after a child takes from its right neighbour |
| BPlusTrees.BPlusTree.Merge | src/Storage/Indexing/BPlusTreeIndex.c++:648-691 | the store after a child absorbed its right neighbour |
| BPlusTrees.BPlusTree.RemoveFrom | src/Storage/Indexing/BPlusTreeIndex.c++:420-536 | memory and page images hold the tree after the removal |
| BPlusTrees.BPlusTree.Remove | src/Storage/Indexing/BPlusTreeIndex.c++:902-916 | a whole removal in the store is the specified one |
| BPlusTrees.BPlusTree.SaveBPlusTree | src/Storage/Indexing/BPlusTreeIndex.c++:944-985 | from memory alone, degree, root and all nodes are put on their pages |
| BPlusTrees.BPlusTree.LoadBPlusTree | src/Storage/Indexing/BPlusTreeIndex.c++:1035-1081 | the pages alone rebuild degree, root, entries, separators, child ids and chain |
| NodeCodec.NodeRoundTrip | src/Storage/Indexing/BPlusTreeIndex.c++:41-130 | a node is read back from its bytes as from its image, whatever follows on the page |
| NodeCodec.LeafBytes | src/Storage/Indexing/BPlusTreeIndex.c++:41-80 | the 35 bytes of a leaf with one entry |
| NodeCodec.InnerBytes | src/Storage/Indexing/BPlusTreeIndex.c++:41-80 | the 27 bytes of an inner node with one separator |
| NodeCodec.NodesFitPages | src/Storage/Indexing/BPlusTreeIndex.c++:41-80 | all nodes of minimum degree d fit their pages if and only if d is at most 78 |
| PoolCache.FetchKeeps | src/Buffer/BufferPoolManager.c++:24-83 | a fetch changes no page's content and leaves the page resident, most recently used |
| PoolCache.NewPageKeeps | src/Buffer/BufferPoolManager.c++:86-131 | a new page gets the next dense id and an empty image; all others keep their content |
| PoolCache.DeleteKeeps | src/Buffer/BufferPoolManager.c++:141-159 | dropping a page from the pool changes no content |
| PoolCache.WriteKeeps | src/Buffer/BufferPoolManager.c++:162-165 | a write through the frame changes its page only |
| PoolCache.StepRefines | src/Buffer/BufferPoolManager.c++:24-165 | every operation on the pool is the same operation on a plain map of pages, and keeps the invariant |
| PoolCache.RunRefines | src/Buffer/BufferPoolManager.c++:24-165 | over any run readers see exactly the plain map |
| PoolCache.InitialInv | src/Buffer/BufferPoolManager.c++:8-21 | the initial pool satisfies the invariant and shows no pages |
| PoolCache.ShutdownFlush | src/Buffer/BufferPoolManager.c++:183-203 | after the final flush the disk holds what readers saw |
| PoolResidency.RequestMoves | src/Buffer/BufferPoolManager.c++:32-81 | a request for another page puts just that page in front of p; p loses its frame exactly when it is the last of 100 |
| PoolResidency.ResidencyBound | src/Buffer/BufferPoolManager.c++:24-131 | a page just fetched or created keeps its frame while fewer than 100 distinct other pages are requested |
| PoolResidency.ResidencyExact | src/Buffer/BufferPoolManager.c++:24-131 | without deletes and re-requests it is resident if and only if fewer than 100 have been requested |
| PoolModel.AllocateDense | src/Storage/Disk/DiskManager.c++:262-290 | allocation keeps page ids dense, offsets id times page size, and the file large enough |
| LruList.Lru.PutFrame | src/Buffer/LRU_replacement.c++:22-64 | the linked list and the map change to the new order of keys, the oldest key dropped if full |
| LruList.Lru.GetFrame | src/Buffer/LRU_replacement.c++:66-86 | a listed key moves to the front |
| LruList.Lru.EvictFrame | src/Buffer/LRU_replacement.c++:89-104 | the last key leaves the list, or -1 for the empty list |
| LruList.Lru.RemoveFrame | src/Buffer/LRU_replacement.c++:106-116 | the key leaves the list, all others keep their order |
| BufferPools.DiskManager.AllocatePage | src/Storage/Disk/DiskManager.c++:262-290 | refines the specified allocation |
| BufferPools.DiskManager.WritePage | src/Storage/Disk/DiskManager.c++:183-201 | refines the specified write |
| BufferPools.DiskManager.ReadPage | src/Storage/Disk/DiskManager.c++:207-231 | the page's content, or the buffer as it was for an unknown id |
| BufferPools.BufferPool.FetchPage | src/Buffer/BufferPoolManager.c++:24-83 | refines the specified fetch; the frame returned has the page's content |
| BufferPools.BufferPool.NewPage | src/Buffer/BufferPoolManager.c++:86-131 | refines the specified creation |
| BufferPools.BufferPool.DeletePage | src/Buffer/BufferPoolManager.c++:141-159 | refines the specified deletion |
| BufferPools.BufferPool.WriteFrame | src/Buffer/BufferPoolManager.c++:162-165 | refines the specified write |
| BufferPools.BufferPool.Shutdown | src/Buffer/BufferPoolManager.c++:183-203 | the file holds what readers saw |
| TupleCodec.FieldRoundTrip | src/Storage/Page/Field.c++:235-364 | a field is read back from its bytes, whatever follows them |
| TupleCodec.FieldsRoundTrip | src/Storage/Page/Tuple.c++:54-70 | the loop bound that leaves out the five header bytes still stops exactly behind the last field |
| TupleCodec.TupleRoundTrip | src/Storage/Page/Tuple.c++:32-70 | a tuple is read back from its bytes |
| TupleCodec.RidRoundTrip | src/Storage/Table/RID.c++:32-74 | a record id with its actual place is read back |
| TupleCodec.RecordRoundTrip | src/Recovery/WAL_record.c++:5-85 | a log record is read back although only the first tuple's size says where the second starts |
| TupleCodec.LogRoundTrip | src/Recovery/WAL_recovery.c++:59-75 | parsing the concatenated records of any log gives back the log |
| TupleCodec.LogInjective | src/Recovery/WAL_recovery.c++:59-75 | different logs have different bytes |
| TupleCodec.TupleBytes | src/Storage/Page/Tuple.c++:32-70 | the 29 bytes of a tuple of a number, a text and a null field |
| TupleCodec.RecordBytes | src/Recovery/WAL_record.c++:5-85 | the 38 bytes of a log record |
| TupleCodec.KindBytes | src/Recovery/WAL_record.c++:5-85 | the four bytes that a log record starts with, for each kind |
| TupleIO.SerializeTuple | src/Storage/Page/Tuple.c++:40-52 | writes the tuple's bytes at the offset and nothing else |
| TupleIO.DeserializeTuple | src/Storage/Page/Tuple.c++:54-70 | reads what the specification decodes |
| TupleIO.SerializeRecord | src/Recovery/WAL_record.c++:5-40 | fills the buffer with the record's bytes |
| TupleIO.DeserializeRecord | src/Recovery/WAL_record.c++:42-71 | reads what the specification decodes |
| TupleIO.ReadAllRecords | src/Recovery/WAL_recovery.c++:25-79 | parses the whole file |
| TupleIO.WalFile.AddRecord | src/Recovery/WAL_manager.c++:38-61 | the file is the encoding of the log with the record appended |
| TupleIO.WalFile.ReadAll | src/Recovery/WAL_recovery.c++:25-79 | what was appended is what is read back |
| TupleIO.WalFile.Clear | src/Recovery/WAL_manager.c++:64-78 | the log is empty |
| SlottedPages.PaddedHolds | src/Storage/Page/page.c++:32-33 | the 16-bit rounded size is at least the tuple's size if and only if that is at most 65528 |
| SlottedPageBytes.NewPageIsEmpty | src/Storage/Page/page.c++:8-25 | the image of a new page shows a slotted page without tuples or successor, all of it free, behind its id |
| SlottedPages.SlotsDisjoint | src/Storage/Page/page.c++:30-61 | the directory ends below the tuples, the byte ranges of slots are disjoint and inside the page |
| SlottedPages.RunGet | src/Storage/Page/page.c++:119-239 | over any run a slot reads as the last tuple stored in it, or nothing once emptied |
| SlottedPageBytes.InsertShows | src/Storage/Page/page.c++:48-58 | the bytes after an insertion show the page after it |
| SlottedPageBytes.RewriteShows | src/Storage/Page/page.c++:188-236 | the bytes after rewriting a slot in place show the page after it |
| SlottedPageBytes.CellDecodes | src/Storage/Page/page.c++:132-135 | the bytes at a slot's offset decode to its tuple |
| SlottedPageBytes.SlottedPage.constructor | src/Storage/Page/page.c++:8-25 | the bytes of an empty page |
| SlottedPageBytes.SlottedPage.InsertTuple | src/Storage/Page/page.c++:30-61 | the 4096 bytes show the page with the tuple inserted, or as before and -1; no 16-bit wrap |
| SlottedPageBytes.SlottedPage.GetTuple | src/Storage/Page/page.c++:119-147 | the live tuple of a slot, read from the bytes |
| SlottedPageBytes.SlottedPage.DeleteTuple | src/Storage/Page/page.c++:171-199 | the bytes show the page with the slot deleted |
| SlottedPageBytes.SlottedPage.UpdateTuple | src/Storage/Page/page.c++:201-239 | the bytes show the page with the tuple updated in place or moved |
| TableModel.InsertedReadsBack | src/Storage/Table/TableHeap.c++:69-114 | the record id returned finds the tuple if and only if it fit the last page |
| TableModel.OpenedPageExample | src/Storage/Table/TableHeap.c++:69-114 | the second of two tuples that do not fit one page is stored, and its record id finds nothing |
| TableModel.LiveAfterInsert | src/Storage/Table/TableHeap.c++:52-114 | the multiset of live rows gains the tuple |
| TableModel.LiveAfterDelete | src/Storage/Table/TableHeap.c++:198-215 | the multiset of live rows loses the tuple, and the counter goes down |
| TableModel.LiveAfterUpdate | src/Storage/Table/TableHeap.c++:137-162 | an update that does not grow its row exchanges one tuple for the other |
| TableModel.LookUpAfterGrowth | src/Storage/Table/TableHeap.c++:146-152 | an update that grows its row stores the new tuple at a free place, empties the old one and changes no other row; the record id returned finds the tuple if and only if it fit the last page |
| TableModel.LiveAfterGrowth | src/Storage/Table/TableHeap.c++:146-152 | such an update exchanges one live tuple for the other and counts one more |
| TableModel.UpdateOfMovedRow | src/Storage/Table/TableHeap.c++:137-162 | an update of a row that was moved stores a larger tuple beside the old one, and loses any other |
| TableModel.DeleteOfMovedRow | src/Storage/Table/TableHeap.c++:217-227 | a deletion takes its own row out if and only if that is still on its first page |
| TableHeaps.TableHeap.InsertTuple | src/Storage/Table/TableHeap.c++:52-114 | refines the specified insertion over the page chain |
| TableHeaps.TableHeap.GetTuple | src/Storage/Table/TableHeap.c++:118-133 | the live row at the actual place |
| TableHeaps.TableHeap.UpdateTuple | src/Storage/Table/TableHeap.c++:137-162 | refines the specified update; without a live row the program stops and nothing changes |
| TableHeaps.TableHeap.DeleteTuple | src/Storage/Table/TableHeap.c++:198-227 | refines the specified deletion |
| TableScan.ScanComplete | src/Q_Execution/seq_scan_operator.c++:30-99 | the scan lists every live row exactly once, in (page, slot) order |
| TableScan.RunCanBeScanned | src/Storage/Table/TableHeap.c++:52-227 | every table that insertions, updates and deletions make of a new one has its first and last record ids where the scan starts and stops |
| TableScan.SeqScan.GetNext | src/Q_Execution/seq_scan_operator.c++:30-99 | returns the next listed row, keeps its record id, and terminates |
| Abort.UndoTransaction | src/TransactionManager/Transaction_manager.c++:37-86 | undoing all records in reverse gives back the table but for moved rows and lost insertions |
| Abort.AbortRestores | src/TransactionManager/Transaction_manager.c++:37-86 | the counter is restored always, the multiset of live rows if and only if no insertion opened a page |
| Abort.AbortExample | src/TransactionManager/Transaction_manager.c++:37-86 | a transaction whose insertion opened a page: the abort leaves its tuple in the table |
| Abort.ExecuteMore | src/TransactionManager/Transaction.c++:18-22 | statements run one after the other leave the table and the write set of the whole transaction |
| TransactionManagers.TransactionManager.RunInsert | src/Q_Execution/insert_statement_executer.c++:19-38 | stores the tuple and adds the write; true if and only if the tuple fit the last page |
| TransactionManagers.TransactionManager.RunUpdate | src/Q_Execution/update_statement_executer.c++:25-55 | updates a live row and adds the write with its old tuple; true if and only if the new place has a slot; without a live row nothing changes |
| TransactionManagers.TransactionManager.RunDelete | src/Q_Execution/delete_statement_executer.c++:23-39 | deletes a live row and adds the write with its tuple |
| TransactionManagers.TransactionManager.Begin | src/TransactionManager/Transaction_manager.c++:6-16 | one transaction at a time, with growing ids |
| TransactionManagers.TransactionManager.Commit | src/TransactionManager/Transaction_manager.c++:20-34 | ends the running transaction only |
| TransactionManagers.TransactionManager.Abort | src/TransactionManager/Transaction_manager.c++:37-61 | the reverse loop undoes the whole write set |
| Recovery.RedoUndo | src/Recovery/WAL_manager.c++:133-168 | a record of any kind, redone or undone, takes out the live row it names and stores its new or its old tuple; other tables do not change |
| Recovery.ReplayOutcome | src/Recovery/WAL_manager.c++:116-168 | a replay of updates in place leaves each row at the outcome of the last record on it |
| Recovery.ReplayInPlaceExact | src/Recovery/WAL_manager.c++:116-168 | through the table heaps every row keeps its place if and only if no replayed tuple is larger than the one it finds, and then the rows are those of the replay in place |
| Recovery.GrowthMoves | src/Storage/Table/TableHeap.c++:146-152 | an update that grows its row leaves no live row at the old place |
| Recovery.RecoverAgain | src/Recovery/WAL_manager.c++:84-171 | for tuples of the same sizes, recovery after any prefix of a replay gives the same rows |
| Recovery.WalManager.RecoverAll | src/Recovery/WAL_manager.c++:84-171 | the two loops over the table heaps are the specified recovery, and the log is cleared unless the program stops on the way |
| RecoverySerial.SerialWinners | src/Recovery/WAL_manager.c++:88-105 | the classification pass finds exactly the committed transactions of a serial log |
| RecoverySerial.RecoverSerial | src/Recovery/WAL_manager.c++:84-171 | replayed in place from any values, a logged row is restored to its committed value if and only if its last transaction committed or can be undone; every row keeps its place and no other row changes |
| RecoverySerial.GrowthLosesRows | src/Recovery/WAL_manager.c++:133-158 | if a replayed tuple is larger than the one it finds, recovery stops or a row is lost from its place |
| RecoverySerial.RecoverRestores | src/Recovery/WAL_manager.c++:84-171 | same-size updates, and losers that write a row at most once: every logged row is restored |
| RecoverySerial.RecoverSerialAgain | src/Recovery/WAL_manager.c++:84-171 | running recovery again after any part of a replay gives the same rows |
| RecoverySerial.GrownRowIsLost | src/Storage/Table/TableHeap.c++:146-152 | a committed update that grew its row: recovery from the old value leaves no row at its place |
| RecoverySerial.RecoveryExamples | src/Recovery/WAL_manager.c++:133-158 | both failures on a table with one row: a grown row lost, and a row written twice recovered to the value in between |
| RecoverySerial.TwiceWrittenIsNotUndone | src/Recovery/WAL_manager.c++:151-156 | a crashed transaction that wrote 1 and then 2 over 0 is recovered to 1 |
| SortModel.PermutationFits | src/Q_Execution/ExternalMergeSortExecuter.c++:428-435 | the sorted rows of a full page fit a page again, one by one |
| SortModel.RoomIsInsert | src/Storage/Page/page.c++:41-46 | the room test is the one of the slotted page |
| SortModel.MergedAll | src/Q_Execution/ExternalMergeSortExecuter.c++:224-320 | a complete merge is sorted and has the rows of both runs |
| ExternalMergeSorts.ExternalMergeSort.WriteRunBuffer | src/Q_Execution/ExternalMergeSortExecuter.c++:403-451 | the buffered rows become a queued sorted run of one page and none is lost |
| ExternalMergeSorts.ExternalMergeSort.FormRuns | src/Q_Execution/ExternalMergeSortExecuter.c++:40-78 | the queued runs have exactly the rows of the child |
| ExternalMergeSorts.ExternalMergeSort.InsertTuple | src/Q_Execution/ExternalMergeSortExecuter.c++:360-400 | the merged run grows by exactly the row, on a linked new page when the last is full |
| ExternalMergeSorts.ExternalMergeSort.MergeRuns | src/Q_Execution/ExternalMergeSortExecuter.c++:94-337 | two runs become one; the queue is shorter by one and has the same rows |
| ExternalMergeSorts.ExternalMergeSort.Open | src/Q_Execution/ExternalMergeSortExecuter.c++:22-357 | one run is left, a permutation of the rows of the child with growing keys if ascending and falling keys if descending |
| ExternalMergeSorts.ExternalMergeSort.GetNext | src/Q_Execution/ExternalMergeSortExecuter.c++:456-503 | returns the rows of the run one by one |
| ExternalMergeSorts.ExternalMergeSort.Drain | src/Q_Execution/ExternalMergeSortExecuter.c++:456-503 | reading to the end gives exactly the run |
| JoinModel.NestedLoopExact | src/Q_Execution/Nested_loop_join.c++:106-130 | the joined rows of exactly the pairs that meet the condition, each once, outer row by outer row |
| JoinModel.LeftJoinExact | src/Q_Execution/Nested_loop_join.c++:66-130 | these, and each outer row without a partner once, with one text NULL for every column of the inner table |
| JoinModel.HashJoinAgrees | src/Q_Execution/hash_join.c++:58-110 | the hash join returns the multiset of the nested-loop join |
| JoinModel.IndexJoinAgrees | src/Q_Execution/IndexedNested_loop_join.c++:61-97 | the index join returns it too, given an index that agrees with the inner table |
| JoinModel.LeftJoinAdds | src/Q_Execution/Nested_loop_join.c++:66-88 | the left join is the inner join and each unmatched outer row once |
| JoinOperators.NestedLoopJoin.GetNext | src/Q_Execution/Nested_loop_join.c++:57-154 | returns the rows of the inner or left join one by one |
| JoinOperators.HashJoinOperator.GetNext | src/Q_Execution/hash_join.c++:58-110 | returns the rows of the hash join one by one |
| JoinOperators.IndexedNestedLoopJoin.GetNext | src/Q_Execution/IndexedNested_loop_join.c++:61-97 | returns the rows of the index join one by one |
| AggregateModel.FoldSummarizes | src/Q_Execution/SortAggregateExecuter.c++:96-143 | a state has the number of rows, and their sum, or the greatest or least of their numbers and zero |
| AggregateModel.ExtremesExact | src/Q_Execution/SortAggregateExecuter.c++:129-134 | MAX is one of the numbers if and only if one is not negative, and MIN if and only if one is not positive |
| AggregateModel.ExtremesMissed | src/Q_Execution/SortAggregateExecuter.c++:129-134 | MAX of -1 and MIN of 1 come out as 0 |
| AggregateModel.FoldPermutation | src/Q_Execution/SortAggregateExecuter.c++:96-143 | permuted rows leave the same states |
| AggregateModel.RunsAreGroups | src/Q_Execution/SortAggregateExecuter.c++:204-212 | the runs of equal keys, of any number of columns, are the groups if and only if rows with the same key are next to each other |
| AggregateModel.SecondKeyCuts | src/Q_Execution/SortAggregateExecuter.c++:9-11 | sorted on the first of two columns, a key gets two runs |
| AggregateModel.SortAgreesWithHash | src/Q_Execution/HashAggregateExecuter.c++:12-51 | on such a stream sort aggregation has each key once, with the states of the hash map for any permutation of the rows |
| AggregateModel.SingleKeyAgrees | src/Q_Execution/SortAggregateExecuter.c++:284-332 | sorted on a single grouping column, the groups come with growing keys and are those of the hash map |
| AggregateOperators.SortFeedsAggregate | src/Q_Execution/SortAggregateExecuter.c++:9-11 | an ascending sort by the first grouping column is what the aggregation asks for |
| AggregateOperators.HavingExact | src/Q_Execution/SortAggregateExecuter.c++:312-325 | of the groups exactly those that pass HAVING, each once, in order |
| AggregateOperators.SortAggregate.GetNext | src/Q_Execution/SortAggregateExecuter.c++:284-332 | returns the groups that pass HAVING one by one; each summarizes a run of rows with its key, behind which another key follows |
| AggregateOperators.HashAggregate.Open | src/Q_Execution/HashAggregateExecuter.c++:12-51 | the map has exactly the keys that occur, each with states that summarize exactly the rows with the key |
| HashIndexes.BucketHasAll | src/Storage/Indexing/static_hash_index.c++:37-54 | the bucket of a key has all entries with the key, in order |
| HashIndexes.MatchesExact | src/Storage/Indexing/static_hash_index.c++:142-187 | the answer has the record ids at exactly the positions of the entries with the key, each once, in order |
| HashIndexes.HashIndex.InsertIndex | src/Storage/Indexing/static_hash_index.c++:63-85 | the key's matches gain the record id at the end, other keys' do not change |
| HashIndexes.HashIndex.GetValue | src/Storage/Indexing/static_hash_index.c++:142-187 | exactly the matches of the key |
| HashIndexes.StaticHashIndexWrapper.Rehash | src/Storage/Indexing/StaticHashIndexWrapper.c++:44-72 | a table ten times as large finds the same for every key |
| HashIndexes.StoreKeepsOrder | src/Storage/Indexing/StaticHashIndexWrapper.c++:74-113 | the index's pages list exactly the entries that fit a page, in the order they were stored |
| HashIndexes.KeptExact | src/Storage/Indexing/StaticHashIndexWrapper.c++:74-113 | entries with a number or a text of at most 4034 bytes are kept on the pages, each as often as stored, and longer ones are not |
| HashIndexes.StaticHashIndexWrapper.Insert | src/Storage/Indexing/StaticHashIndexWrapper.c++:23-121 | keeps the count, the load bound 4n < 3 capacity + 4, what every key finds, and the entries on the pages |
| HashIndexes.StaticHashIndexWrapper.Search | src/Storage/Indexing/StaticHashIndexWrapper.c++:131-133 | exactly the record ids inserted under the key, in insertion order |

## Left out

- SQL parsing, binding, planning, the catalog, the executor factory and all printing.
- File and operating system calls: the files are maps from offsets to pages, and a sequence of log bytes.
- Table header pages and the persisted form of table and hash index metadata.
- Raw page writes and page deletions on the disk with arbitrary ids; pin counts, which are never incremented.
- Eviction below tables, sort pages and index nodes: they are modelled over pages that stay put. A page pointer held across fetches is what the residency theorems are about.
- Typed null fields, and the terminator that a string field writes one byte behind its counted bytes.
- Field comparison: keys are integers (strings too in the hash index); doubles are their eight bytes in tuples and real numbers in aggregates.
- A leaf's uninitialised sibling id counts as -1, and minimum degrees are at least 2.
- Chains of hash index entries are sequences rather than linked nodes; deletion from the hash index and reloading it.
- The library's sort is any method that returns a sorted permutation; the order of equal keys is open.
- A second `open` of the sort operator, and sorting an empty table.
- Merge join, and right and full nested-loop joins.
- Output tuples of aggregates, grouping columns that are not integers, and the order in which the group map is listed.
- TransactionManagers.TransactionManager.RunDelete: asks for a live row; the program dereferences the row it looks up.
- Log records written by statements.
- Updates in recovery that name a row by a record id of another table's page, and logs with insertions or deletions: redone insertions append again, and deletions are logged as updates. One record of any kind is covered by `Recovery.RedoUndo`; the theorems about whole logs are about updates.
- A removal from an index just read back: its leaves have no cached keys, and the program tests the sizes of these caches.
- BPlusTrees.BPlusTree.RemoveFrom: asks for up-to-date key caches, as above.
- BPlusTrees.BPlusTree.Remove: asks for up-to-date key caches, as above.
- BufferPools.BufferPool.FetchPage: asks for -1 or an id that was handed out; for any other the program caches a stale frame under an id the disk does not know.
- SlottedPageBytes.SlottedPage.InsertTuple: asks for at most 65528 bytes; beyond that the rounded size wraps and the tuple is written over other bytes.
- SlottedPageBytes.SlottedPage.UpdateTuple: asks for at most 65528 bytes, as above.
- ExternalMergeSorts.ExternalMergeSort.FormRuns: asks for rows that fit an empty page; any other is dropped with a message, and an empty page in a run is not handled by the merge.
- ExternalMergeSorts.ExternalMergeSort.Open: asks for such rows, and for one at least: the program reads the front of an empty queue.
- Abort.UndoTransaction: restricted to updates of the same size of rows that never moved, and to transactions that delete no row they wrote; undoing a later deletion puts the row at another place.
- Abort.AbortRestores: restricted in the same way.
- TransactionManagers.TransactionManager.Abort: asks for a write set that can be undone; the program dereferences the row that an undone update looks up.
- JoinOperators.HashJoinOperator.GetNext: asks not to be called again after it reported the end, where it would return the last row's matches once more.
