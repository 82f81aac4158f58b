# Verified model of a distributed SQL storage node

This project models the core of a small C++ database server and proves what it is for: a paged
B*-tree index that behaves as a sorted map, a heap with unique indexes and a version log that can be
reverted to a point in time, a query planner that may replace a scan by a lookup, row locks that make
transactions serializable, a crash-safe task queue, consistent-hash routing, the binary formats, and
the lexer and parser of WHERE conditions and DELETE statements.

The B*-tree, the heap, the engine, the locks, the task queue, the ring and the parser are classes
whose methods follow the source step by step and are proved against specifications; the formats, the
evaluator and the planner are functions with lemmas.

| files | what they hold |
|---|---|
| `Common`, `Sequences`, `Values` | status codes; facts about sequences; SQL values, their order, and an embedding of that order into the reals |
| `IndexTree`, `IndexSteps`, `IndexSplits`, `IndexForks`, `IndexPlans` | one state of an index with ghost knowledge about each page, and what adding, dropping, splitting, sharing, joining, growing and shrinking do to it |
| `BStarTree` | the index itself |
| `IndexScan`, `IndexHeight`, `IndexRuns` | the leaf chain and range scans, the height bound, whole runs against a finite map |
| `NodePages`, `IndexFile` | nodes as fixed-size pages, the degree, and that whatever is written always fits |
| `BinaryIo`, `RecordCodecs`, `VersionLog`, `RowPages` | codecs, framed streams, the version log, heap pages |
| `Packing`, `RowStore`, `TableStorage` | greedy packing, the heap, rows behind a schema |
| `TableState`, `TableHistory`, `IndexSet`, `Engine`, `Revert` | agreement of heap and indexes, histories, the engine, REVERT |
| `Query`, `IndexLookup`, `TableExamples` | expressions, the full scan, when the index lookup answers like it, and tables on which things go wrong |
| `LockManager`, `Serializability`, `UnlockRuns` | locks, transactions, runs of interleaved transactions, and what early unlocks and rollbacks do to them |
| `TaskQueue`, `TaskRuns` | the queue, its log, crashes, whole runs |
| `ConsistentHash` | the ring |
| `Grammar`, `Parser`, `Lexer`, `Statements` | the grammar of conditions and DELETE, printing, the parser with its cursor, the lexer, and whole texts |

In these places the code does not do what one would expect of it.  It is modelled as it is, with the
exact condition under which the expectation holds and an example where it fails:

- the index lookup takes its key from the first equality in the condition, whatever its column, so it
  can miss rows (`IndexLookup.AnswerTwice`, and for every such query `IndexLookup.MissesTheRow`; example
  `TableExamples.WrongKey`);
- a restarted process opens the indexes of a table only at its first mutation, and every lookup before
  that fails (`IndexLookup.AnswerTwice`, `IndexLookup.AnswerAfterRestart`; example
  `TableExamples.NotOpen`);
- an insertion or update that an index refuses has already written the heap, and the table is not valid
  any more (`Engine.TableEngine.InsertInternal`, `Engine.TableEngine.UpdateInternal`,
  `Engine.TableEngine.RestoreInternal`; examples `TableExamples.DuplicateKey` and
  `TableExamples.InsertTwice`);
- a mutation whose record is too large for the version log fails after it was done
  (`Engine.TableEngine.InsertInternal` and the others; never with ordinary pages, by
  `Engine.TableEngine.AlwaysLoggable`);
- adding a node to the ring takes points from other nodes when hashes collide, and removing it does
  not give them back (`ConsistentHash.RemoveUndoesAdd`, `ConsistentHash.RemoveMovesOnlyItsOwn`; example
  `ConsistentHash.Collide`);
- starting a queue again goes well only when every task has ended: what was queued is queued twice, and
  what a worker still has is queued as well (`TaskQueues.TaskQueue.Start`; examples
  `TaskQueues.SubmitAndRestart` and `TaskQueues.RestartWhileRunning`);
- restoring a row that is too large leaves the counters of the heap ahead of its pages, unless the row
  is live (`RowStores.RowStore.Restore`; example `RowStores.RestoreTooLarge`);
- rolling back undoes no write, so a committed read can see one that was rolled back
  (`Serializability.ReadsTheSame`; example `UnlockRuns.DirtyRead`);
- a transaction may unlock a row before it finishes, and then runs need not be serializable any more
  (`UnlockRuns.SafeIffStrict`; any early unlock is an example, by `UnlockRuns.Caught`);
- a row of more than 2^20 values is written to a page that is large enough, but not read back from it,
  and then no row of the heap can be read (`RowPages.StorePagesBack`, `RowPages.ReadableBytes`; example
  `RowPages.HugeRow`).

## Model

| member | source | states |
|---|---|---|
| `Values.RankOrder` | src/execution/value.cpp:62-99 | the order on values is a strict total order: it is the order of an injective embedding into the reals |
| `BStarTree.Index.constructor` | src/index/bstar_tree.cpp:438-456 | an empty index is valid and holds nothing |
| `BStarTree.Index.Reopen` | src/index/bstar_tree.cpp:183-222 | opening again from the metadata page gives the same index |
| `BStarTree.Index.LowerBound` | src/index/bstar_tree.cpp:991-999 | the first position whose key is not below the given one |
| `BStarTree.Index.ChooseChildIndex` | src/index/bstar_tree.cpp:1001-1008 | the child whose separators enclose the key |
| `BStarTree.Index.FindPathToLeaf` | src/index/bstar_tree.cpp:868-923 | the path leads from the root to the leaf of the key, and the row id found there is the one of the map |
| `BStarTree.Index.Find` | src/index/bstar_tree.cpp:307-334 | an invalid key is refused; otherwise the result is exactly what the map holds |
| `BStarTree.Index.Insert` | src/index/bstar_tree.cpp:224-278 | refuses invalid keys, reports AlreadyExists iff the key is present, otherwise adds exactly that entry; the tree stays well-formed |
| `BStarTree.Index.Delete` | src/index/bstar_tree.cpp:280-305 | refuses invalid keys, reports NotFound iff the key is absent, otherwise removes exactly that key; the tree stays well-formed |
| `BStarTree.Index.RangeSearch` | src/index/bstar_tree.cpp:336-398 | terminates, and lists exactly the row ids of the keys in the range, in ascending key order, for open, closed and missing ends |
| `BStarTree.Index.ScanLeaf` | src/index/bstar_tree.cpp:378-392 | the hits of one leaf, and a stop only when no later entry can hit |
| `BStarTree.Index.ScanChain` | src/index/bstar_tree.cpp:336-398 | following the next-leaf links from a leaf gives the hits of all leaves from there on |
| `BStarTree.Index.ChooseBalancedSplit` | src/index/bstar_tree.cpp:62-82 | a cut exists iff the total fits two nodes; it is the most even one, the first of equals |
| `BStarTree.Index.ChooseMiddle` | src/index/bstar_tree.cpp:1683-1722 | a middle key exists iff the rest fits two nodes; it is the most even one, the first of equals |
| `BStarTree.Index.WriteNode` | src/index/bstar_tree.cpp:487-493 | only pages that are allocated, have one child more than separators, hold at most 2t-1 keys and only valid keys are ever written, and the file always shows what was written last |
| `BStarTree.Index.InsertIntoLeaf` | src/index/bstar_tree.cpp:1010-1056 | the key is added and the tree is well-formed again, whether the leaf had room, shared with its sibling or was split |
| `BStarTree.Index.InsertIntoInternal` | src/index/bstar_tree.cpp:1058-1142 | a node that got one separator and child more is written, shared or split, and the tree is well-formed |
| `BStarTree.Index.SplitLeaf` | src/index/bstar_tree.cpp:1144-1273 | an overfull leaf becomes two chained leaves, under its parent or under a new root |
| `BStarTree.Index.SplitInternal` | src/index/bstar_tree.cpp:1275-1485 | an overfull internal node becomes two, and the middle key moves up |
| `BStarTree.Index.RedistributeLeafWithRightSibling` | src/index/bstar_tree.cpp:1487-1619 | shares entries with the right sibling iff there is one and both halves can have proper size; otherwise changes nothing |
| `BStarTree.Index.RedistributeInternalWithRightSibling` | src/index/bstar_tree.cpp:1621-1829 | the same for internal nodes, through the parent's separator |
| `BStarTree.Index.UpdateParentSeparator` | src/index/bstar_tree.cpp:2336-2369 | the nearest separator to the left of a subtree becomes its smallest key, and nothing else changes |
| `BStarTree.Index.DeleteFromLeaf` | src/index/bstar_tree.cpp:1831-1899 | the key is gone and the tree is well-formed again, or empty |
| `BStarTree.Index.RebalanceAfterDelete` | src/index/bstar_tree.cpp:1901-2042 | a node that is one key short is repaired with a sibling, cascading upwards; the contents do not change |
| `BStarTree.Index.MergeLeafWithRightSibling` | src/index/bstar_tree.cpp:2044-2157 | two leaves become one, the chain closes over the gap, and the parent or the root is repaired |
| `BStarTree.Index.MergeInternalWithRightSibling` | src/index/bstar_tree.cpp:2159-2334 | two internal nodes and the separator between them become one |
| `BStarTree.Index.RemoveFromParent` | src/index/bstar_tree.cpp:2111-2157 | a parent that lost a child is kept or repaired in turn |
| `BStarTree.Index.BecomeRoot` | src/index/bstar_tree.cpp:2116-2138 | the only child of a root takes its place, one level lower |
| `IndexSplits.SplitLeaf` | src/index/bstar_tree.cpp:1144-1273 | cutting a leaf in two keeps order, bounds, depth, chain, parents and the key sets of all nodes |
| `IndexSplits.MergeLeaf` | src/index/bstar_tree.cpp:2044-2157 | joining two neighbouring leaves keeps them |
| `IndexForks.SplitFork` | src/index/bstar_tree.cpp:1275-1485 | cutting an internal node in two keeps them |
| `IndexForks.MergeFork` | src/index/bstar_tree.cpp:2159-2334 | joining two neighbouring internal nodes keeps them |
| `IndexForks.GrowRoot` | src/index/bstar_tree.cpp:1220-1245 | a new root above the old one keeps them, one level higher |
| `IndexForks.ShrinkRoot` | src/index/bstar_tree.cpp:2290-2315 | dropping a root with a single child keeps them, one level lower |
| `IndexPlans.ShareLeaves` | src/index/bstar_tree.cpp:1487-1619 | sharing entries between neighbours keeps the tree and repairs both |
| `IndexPlans.ShareForks` | src/index/bstar_tree.cpp:1621-1829 | sharing children between neighbours keeps the tree and repairs both |
| `IndexScan.ChainIsIndex` | src/index/bstar_tree.cpp:336-398 | the entries along the chain of leaves are, in ascending order, exactly the map |
| `IndexScan.LeftOfLow` | src/index/bstar_tree.cpp:336-366 | no leaf left of the one where the scan starts holds a key of the range |
| `IndexScan.ScanIsListing` | src/index/bstar_tree.cpp:336-398 | scanning the whole chain would list exactly the keys of the range in order |
| `IndexHeight.TreeKeys` | src/index/bstar_tree.cpp:983-989 | a tree of height h at least 2 holds at least 2 t^(h-2) (t-1) keys |
| `IndexHeight.SearchDepth` | src/index/bstar_tree.cpp:868-923 | every search visits exactly as many pages as the tree is high |
| `IndexRuns.Run` | src/index/bstar_tree.cpp:224-398 | every run of insertions, deletions, lookups and scans answers like a finite map and ends in a well-shaped tree |
| `IndexRuns.Shape` | src/index/bstar_tree.cpp:969-989 | a valid tree: all leaves at the same depth, occupancy between t-1 and 2t-1, the root flag exactly on the root, the chain complete, the height bounded |
| `IndexRuns.NoSharing` | src/index/bstar_tree.cpp:868-923 | no page is reached twice: every page below the root is a child in exactly one place |
| `IndexPlans.PathDistinct` | src/index/bstar_tree.cpp:868-923 | a search path visits every page once |
| `NodePages.KeyCodec` | src/index/key_encoder.cpp:8-75 | a key is decoded exactly from its own encoding, for its own type |
| `NodePages.ResolveMaxEncodedKeySize` | src/index/bstar_tree.cpp:86-114 | refused iff nothing is configured or the type is NULL; otherwise positive, the size of every INT or BOOL key, and for strings exactly the configured limit |
| `NodePages.ComputeMinDegreeForPage` | src/index/bstar_tree.cpp:116-149 | succeeds iff three maximal keys fit a page; the degree is at least 2, and the largest whose fullest nodes fit |
| `NodePages.PageBack` | src/index/bstar_tree.cpp:575-866 | a page that could be built has the page size and parses back to the node |
| `NodePages.NodesFit` | src/index/bstar_tree.cpp:632-866 | with the computed degree every node of at most 2t-1 keys is built and parses back |
| `IndexFile.WriteFits` | src/index/bstar_tree.cpp:487-493 | every page that the tree may write, also in the middle of an operation, is built; with ids in range it parses back to the node |
| `IndexFile.TreeFitsItsFile` | src/index/bstar_tree.cpp:487-493 | every node of a reachable tree fits its page and parses back from it |
| `BinaryIo.LECodec` | src/common/binary_io.cpp:16-67 | an n-byte number is read exactly from its little-endian bytes |
| `BinaryIo.IntCodec` | src/common/binary_io.cpp:24-71 | a signed number is read exactly from its two's complement bytes |
| `BinaryIo.BoolCodec` | src/common/binary_io.cpp:28-85 | a boolean is read exactly from the bytes 0 and 1 |
| `BinaryIo.StringCodec` | src/common/binary_io.cpp:32-102 | a string is read back iff it is shorter than 2^32 bytes, and only from its own encoding |
| `BinaryIo.ListCodec` | src/common/row_serialization.cpp:32-37 | n items are read iff the bytes start with the encodings of n items within limits, whatever follows |
| `BinaryIo.WriteAll` | src/common/row_serialization.cpp:13-15 | the loop appends the encodings of all items, in order |
| `BinaryIo.ReadItems` | src/common/row_serialization.cpp:30-37 | the loop reads n items or fails at the first that cannot be read |
| `BinaryIo.ReadToEnd` | src/versioning/version_log.cpp:135-173 | the loop reads items until the bytes run out or fails |
| `BinaryIo.StreamCodec` | src/versioning/version_log.cpp:119-176 | a stream reads as a list of items iff it is their encoding |
| `BinaryIo.CutStream` | src/versioning/version_log.cpp:135-173 | a stream cut behind an item reads as the items before the cut; cut anywhere else it is an error |
| `RecordCodecs.ValueCodec` | src/common/value_serialization.cpp:6-66 | a value is read iff the bytes start with its encoding and its string is within the limit |
| `RecordCodecs.TupleCodec` | src/common/row_serialization.cpp:9-39 | the same for tuples, which may have at most 2^20 values |
| `RecordCodecs.SerializeTuple` | src/common/row_serialization.cpp:9-16 | appends the encoding of the tuple to the buffer |
| `RecordCodecs.DeserializeTuple` | src/common/row_serialization.cpp:18-39 | at any offset, accepts exactly the encodings of tuples within the limits, and gives that tuple and the rest |
| `RecordCodecs.RowCodec` | src/common/row_serialization.cpp:41-92 | the same for rows, whose tuple must take the announced size |
| `RecordCodecs.RecordCodec` | src/versioning/version_log.cpp:267-325 | the same for version records, whose operation must be one of three |
| `RecordCodecs.RequestCodec` | src/network/protocol.cpp:8-30 | a request is accepted iff the bytes are exactly its encoding and its strings are within limits |
| `RecordCodecs.ResponseCodec` | src/network/protocol.cpp:32-83 | the same for responses, with counts below 2^32 |
| `RecordCodecs.SerializeResponse` | src/network/protocol.cpp:32-48 | the loops over columns and rows write the encoding of the response |
| `RecordCodecs.DeserializeResult` | src/network/protocol.cpp:61-80 | the loops read what the result codec reads |
| `VersionLogs.FrameCodec` | src/versioning/version_log.cpp:94-102 | a frame is read iff the bytes start with a frame of a record within limits, with nothing else in its payload |
| `VersionLogs.LogGrows` | src/versioning/version_log.cpp:82-117 | a log that holds records rs holds rs and the new record after its frame is appended |
| `VersionLogs.TruncatedLog` | src/versioning/version_log.cpp:119-176 | a log cut at any byte reads as an exact prefix of its records on a frame boundary, and as an error elsewhere |
| `VersionLogs.AppendedIntact` | src/versioning/version_log.cpp:82-117 | a record that the log took is read back with those before it, when its row id and its tuples are within the limits |
| `VersionLogs.VersionLog.Append` | src/versioning/version_log.cpp:82-117 | refuses an empty table name and payloads of 2^32 bytes; otherwise adds exactly one frame |
| `VersionLogs.VersionLog.ReadAll` | src/versioning/version_log.cpp:119-176 | gives the records iff the log body is the encoding of records within limits |
| `Packing.PackGreedily` | src/storage/row_store.cpp:623-655 | fails iff an item is too large for a page; otherwise the batches concatenate to the items, and none could have taken the first item of the next |
| `Packing.GreedyIsOptimal` | src/storage/row_store.cpp:623-655 | greedy batches are no more than the pages of any order-preserving packing |
| `RowStores.RowStore.constructor` | src/storage/row_store.cpp:441-477 | a new heap is valid and empty |
| `RowStores.RowStore.Create` | src/storage/row_store.cpp:441-477 | refused iff the counters do not fit a page |
| `RowStores.RowStore.Reopen` | src/storage/row_store.cpp:171-207 | opening again from page 0 gives the same store |
| `RowStores.RowStore.FindPageWithFreeSpace` | src/storage/row_store.cpp:696-743 | refuses iff the row fits no page; otherwise the first page with room, or a new empty one |
| `RowStores.RowStore.Insert` | src/storage/row_store.cpp:216-263 | the row gets the next id and is placed without moving any other row; refused, unchanged, iff too large or the first page with room cannot be read |
| `RowStores.RowStore.Get` | src/storage/row_store.cpp:265-283 | an error iff some page cannot be read; otherwise the live row with the id, NotFound iff there is none |
| `RowStores.RowStore.Update` | src/storage/row_store.cpp:285-313 | replaces the tuple in place; NotFound iff missing or deleted, refused iff too large or some page cannot be read, unchanged then |
| `RowStores.RowStore.Delete` | src/storage/row_store.cpp:315-344 | marks the row deleted in place; NotFound iff missing, refused iff some page cannot be read |
| `RowStores.RowStore.Restore` | src/storage/row_store.cpp:371-404 | puts the row back in place or at the end; when too large the pages stay, but the counters in memory have moved on: the store is valid afterwards iff it could not be read, the row fits or it is live |
| `RowStores.RestoreTooLarge` | src/storage/row_store.cpp:371-404 | every row that is too large, restored into a new store, makes the counters wrong |
| `RowStores.RowStore.Scan` | src/storage/row_store.cpp:346-369 | exactly the live rows in heap order, as many as the counter says; an error iff some page cannot be read |
| `RowStores.RowStore.LoadAllRows` | src/storage/row_store.cpp:596-616 | the rows of all pages in order; an error iff some page holds a row of more than 2^20 values |
| `RowStores.RowStore.FindRowIndexById` | src/storage/row_store.cpp:745-759 | the first row with the id, or none |
| `RowStores.RowStore.RewriteAllRows` | src/storage/row_store.cpp:618-694 | changes nothing iff a row is too large; otherwise the pages concatenate to the rows, use as few pages as possible, and page 0 has the counters |
| `RowPages.EntryCodec` | src/storage/row_store.cpp:119-154 | a row entry is read iff the bytes start with it and it is within limits |
| `RowPages.DataPageBack` | src/storage/row_store.cpp:479-566 | rows that fit are written as one page; they are read back iff each is within limits and together they take less than 2^32 bytes |
| `RowPages.StorePagesBack` | src/storage/row_store.cpp:479-566 | every data page of a reachable store is written, for any page size; it is read back iff its rows take less than 2^32 bytes and none has more than 2^20 values, which pages up to 4 MiB guarantee |
| `RowPages.ReadableBytes` | src/storage/row_store.cpp:479-616 | with pages below 4 GiB the store can be read iff the bytes of every page parse back to its rows |
| `RowPages.HugeRow` | src/storage/row_store.cpp:216-283 | any row of too many values that fits a page is stored, its page does not parse, and looking for it fails |
| `RowPages.CountersBack` | src/storage/row_store.cpp:44-82 | the counters on page 0 are read back |
| `TableState.PrepareTupleForWrite` | src/storage/table_storage.cpp:32-124 | completes the input with defaults and NULLs; succeeds iff every column accepts its value |
| `TableState.PreparedAgain` | src/storage/table_storage.cpp:32-124 | the tuples that are accepted and prepared as they are, are exactly those that conform; preparing gives one of them |
| `TableState.AgreesSwap` | src/runtime/storage_node_engine.cpp:241-332 | exchanging a row and its key keeps an index in step with the live rows |
| `TableState.UniqueKeys` | src/runtime/storage_node_engine.cpp:241-261 | non-null indexed values are unique among live rows |
| `TableState.IndexOfLive` | src/runtime/storage_node_engine.cpp:241-332 | the live rows determine the contents of every index |
| `TableStorages.TableStorage.Insert` | src/storage/table_storage.cpp:126-145 | stores the completed tuple iff it conforms and fits a page |
| `TableStorages.TableStorage.Update` | src/storage/table_storage.cpp:147-159 | replaces a live row iff the completed tuple conforms and fits |
| `TableStorages.TableStorage.Delete` | src/storage/table_storage.cpp:183-189 | a live row becomes deleted in its place; NotFound iff there is no row with the id; deleting again succeeds and changes nothing |
| `TableStorages.TableStorage.Restore` | src/storage/table_storage.cpp:191-207 | a row comes back iff its completed tuple conforms and fits; the storage is valid afterwards iff that succeeds, the tuple is refused, or the row is live |
| `IndexSet.ReplaceKey` | src/runtime/storage_node_engine.cpp:283-332 | exchanges one key of one index: succeeds iff the old key is there and the new one is valid and free; otherwise the old key is gone and the new one not there |
| `IndexSet.InsertIntoIndexes` | src/runtime/storage_node_engine.cpp:241-261 | adds the non-null keys of a row to all indexes; succeeds iff all are valid and free; otherwise some index refused its key |
| `IndexSet.DeleteFromIndexes` | src/runtime/storage_node_engine.cpp:263-281 | removes the non-null keys of a row from all indexes; succeeds iff all are there |
| `IndexSet.UpdateIndexes` | src/runtime/storage_node_engine.cpp:283-332 | exchanges the keys of a row in all indexes; succeeds iff every index admits it; otherwise some index lost the old key and refused the new one |
| `Engine.TableEngine.Reopen` | src/runtime/storage_node_engine.cpp:405-419 | a new process over the same files has the same rows, indexes and log, and no index open |
| `Engine.TableEngine.InsertInternal` | src/runtime/storage_node_engine.cpp:515-561 | succeeds iff the tuple can be stored, all its keys are free and the log takes the record; then heap, every index and the log have exactly the new row; the table is valid afterwards iff the tuple could not be stored or all its keys were free |
| `Engine.TableEngine.UpdateInternal` | src/runtime/storage_node_engine.cpp:563-611 | NotFound iff the row is not live; otherwise succeeds iff the tuple can be stored, the exchange of keys is admitted and the log takes the record; the table is valid afterwards iff the tuple could not be stored or the exchange is admitted |
| `Engine.TableEngine.DeleteInternal` | src/runtime/storage_node_engine.cpp:613-654 | NotFound iff the row is not live; otherwise it is deleted and heap and indexes agree, and the call succeeds iff the log takes the record |
| `Engine.TableEngine.RestoreInternal` | src/runtime/storage_node_engine.cpp:656-707 | AlreadyExists iff the row is live; otherwise succeeds iff the tuple can be stored, its keys are free and the log takes the record; with the exact condition under which the table is valid afterwards |
| `Engine.TableEngine.OutOfStep` | src/runtime/storage_node_engine.cpp:241-332 | an index that refused the key of a stored row does not agree with the live rows any more |
| `Engine.TableEngine.AlwaysLoggable` | src/versioning/version_log.cpp:82-102 | the record of any mutation fits the log when two pages and the table name take less than 2^32 bytes |
| `TableHistory.CollectRollbackRecords` | src/versioning/revert.cpp:63-82 | the records of the table that are younger than the time, in log order |
| `TableHistory.YoungerIsSuffix` | src/versioning/revert.cpp:63-82 | in a log in order of time these are the last records |
| `TableHistory.UndoStep` | src/versioning/revert.cpp:84-97 | undoing a record leads to the heap of the version before it, plus deleted rows that were added since |
| `TableHistory.UndoFree` | src/versioning/revert.cpp:84-97 | the keys that come back are free in the indexes |
| `Revert.TracedFromStart` | src/runtime/storage_node_engine.cpp:453-471 | the empty log file of a new table tells how it came about |
| `Revert.Mutate` | src/runtime/storage_node_engine.cpp:709-729 | a successful mutation adds one record, the log file reads back as all records, and it goes on telling how the table came about |
| `Revert.MutateAll` | src/runtime/storage_node_engine.cpp:709-729 | after every run of successful mutations in order of time, every index agrees with the live rows and the log tells how each state came about |
| `Revert.ApplyInverseRecord` | src/versioning/revert.cpp:84-97 | undoing always succeeds, writes no record, and leads to the version before |
| `Revert.RevertTableToTimestamp` | src/versioning/revert.cpp:11-38 | after any run of successful mutations with non-decreasing timestamps, reverting reads the log file, succeeds, leaves the log, and restores the live rows in scan order and every index |
| `Revert.RestartAndRevert` | src/versioning/revert.cpp:11-38 | the same in a new process that finds the files |
| `Query.CompareMeaning` | src/execution/expression.cpp:8-29 | comparisons of one type compare ranks; NULL gives false; different types are an error |
| `Query.WithinMeaning` | src/execution/expression.cpp:89-109 | BETWEEN is the half-open interval from low to below high |
| `Query.ConjunctionMeaning` | src/execution/expression.cpp:69-88 | AND evaluates its conjuncts from left to right, however they are nested, up to the first that is false or fails; it holds iff all of them do |
| `Query.DisjunctionMeaning` | src/execution/expression.cpp:69-88 | OR evaluates its disjuncts from left to right, however they are nested, up to the first that is true or fails; it is false iff all of them are |
| `Query.ChosenHolds` | src/planner/planner.cpp:68-115 | a row that satisfies the condition has the planner's literal in the chosen column, and the executor finds a key |
| `Query.FirstIsChosen` | src/execution/index_scan_executor.cpp:17-39 | the executor's key is the literal of the first equality; when that is on an indexed column, it is the planner's choice |
| `Query.SeqScan` | src/execution/seq_scan_executor.cpp:73-101 | the projected rows that satisfy the condition, in order, or an error iff some row cannot be evaluated |
| `Query.ScanOne` | src/execution/index_scan_executor.cpp:118-135 | the same for the rows with one id |
| `IndexLookup.IndexScan` | src/execution/index_scan_executor.cpp:93-137 | fails iff this process has not opened the index, the key is not valid, or the condition fails on the named row; otherwise shows the row that the index names if it satisfies the condition |
| `IndexLookup.SameAnswer` | src/execution/index_scan_executor.cpp:17-137 | looking up any key answers like the full scan iff the index is open, the key is valid, and it is the planner's literal or nothing matches |
| `IndexLookup.AnswerTwice` | src/execution/index_scan_executor.cpp:93-137 | both scans on one table, in all cases: when the full scan gives rows they agree iff the index is open, the extracted key is valid, and it is the planner's literal or nothing matches; when it fails, iff the lookup cannot be made or names a row on which the condition fails; when the first equality is on an indexed column, open and valid is enough |
| `IndexLookup.MissesTheRow` | src/execution/index_scan_executor.cpp:17-39 | when the executor's key is not the planner's, the lookup misses every row that satisfies the condition, inserted into any empty table of the kind |
| `IndexLookup.AnswerAfterRestart` | src/index/index_manager.cpp:43-54 | on every table and for every query, the lookup of a new process fails, and the full scan answers as before |
| `TableExamples.WrongKey` | src/execution/index_scan_executor.cpp:17-39 | a condition, and a table with one inserted row, on which the lookup misses the row that the full scan finds |
| `TableExamples.NotOpen` | src/index/index_manager.cpp:43-54 | a table with one inserted row, on which after a restart the lookup fails and the full scan finds the row |
| `TableExamples.DuplicateKey` | src/runtime/storage_node_engine.cpp:515-561 | inserting a row with the key of a live row is refused, but the row is in the heap and the table not valid |
| `TableExamples.InsertTwice` | src/runtime/storage_node_engine.cpp:515-561 | so it is for the same row inserted twice into a new table |
| `Locking.LockManager.LockShared` | src/transaction/lock_manager.cpp:37-52 | granted iff active and nobody else has the row exclusively; the table stays consistent |
| `Locking.LockManager.LockExclusive` | src/transaction/lock_manager.cpp:54-87 | granted iff active and nobody else has the row; afterwards the holder is alone |
| `Locking.LockManager.Unlock` | src/transaction/lock_manager.cpp:89-113 | gives up exactly one row |
| `Locking.LockManager.UnlockAll` | src/transaction/lock_manager.cpp:115-145 | the transaction holds nothing, the locks of all others are as before, nothing empty remains |
| `Locking.Granted` | src/transaction/lock_manager.cpp:37-87 | granting keeps exclusion, the mirror between both tables, and that nothing empty is kept |
| `Locking.DroppedConsistent` | src/transaction/lock_manager.cpp:89-113 | so does giving up a row |
| `Locking.TransactionManager.Begin` | src/transaction/transaction_manager.cpp:5-11 | a new active transaction with an id of its own |
| `Locking.TransactionManager.Commit` | src/transaction/transaction_manager.cpp:13-15 | an active transaction becomes committed and releases everything; any other is refused |
| `Locking.TransactionManager.Rollback` | src/transaction/transaction_manager.cpp:17-19 | the same with aborted |
| `Locking.TransactionManager.FinishTransaction` | src/transaction/transaction_manager.cpp:21-38 | the state changes once, then all locks are released |
| `Serializability.RunConsistent` | src/transaction/lock_manager.cpp:37-145 | every lock state that locking, unlocking and finishing can reach is consistent |
| `Serializability.GivenUpBetween` | src/transaction/lock_manager.cpp:37-145 | between conflicting accesses of two transactions the first one gives up the row |
| `Serializability.FinishBetween` | src/transaction/lock_manager.cpp:37-145 | when nobody unlocks early, the first one finishes in between |
| `Serializability.ConflictEquivalent` | src/transaction/transaction_manager.cpp:5-38 | every run without early unlocks is conflict-equivalent to the serial schedule of its committed transactions in commit order |
| `Serializability.SeenInSerial` | src/transaction/transaction_manager.cpp:13-38 | the write that a committed read sees in the run is the one it sees in the serial schedule iff its writer commits; otherwise the writer was rolled back before the read |
| `Serializability.ReadsTheSame` | src/transaction/transaction_manager.cpp:13-38 | a committed read is the same in the run and in the serial schedule iff no transaction that did not commit wrote what it sees |
| `Serializability.Acyclic` | src/transaction/transaction_manager.cpp:5-38 | the conflict graph of committed transactions has no cycle when nobody unlocks early |
| `UnlockRuns.DirtyRead` | src/transaction/transaction_manager.cpp:17-38 | for any two transactions and any row, a run in which a committed read sees a write that was rolled back |
| `UnlockRuns.Caught` | src/transaction/lock_manager.cpp:89-113 | a transaction that gave up a row it had accessed can be drawn into a cycle by any other that is running, without another early unlock |
| `UnlockRuns.SafeIffStrict` | src/transaction/lock_manager.cpp:37-145 | a run is without early unlocks iff no continuation of any of its prefixes, without further unlocks, has a cycle |
| `TaskQueues.TaskQueue.Submit` | src/queue/task_queue.cpp:118-150 | refused iff full; otherwise logged, mapped and queued exactly once |
| `TaskQueues.TaskQueue.Cancel` | src/queue/task_queue.cpp:163-185 | refused iff unknown or ended; otherwise ended, logged and no longer queued |
| `TaskQueues.TaskQueue.ErasePending` | src/queue/task_queue.cpp:178-183 | removes the first entry with the id |
| `TaskQueues.TaskQueue.Take` | src/queue/task_queue.cpp:190-217 | the first queued entry becomes running in the hands of one worker |
| `TaskQueues.TaskQueue.Finish` | src/queue/task_queue.cpp:222-249 | the outcome is logged unless cancelled meanwhile; a full map loses at most one other entry that had ended |
| `TaskQueues.TaskQueue.ReplayWal` | src/queue/task_queue.cpp:263-315 | the last record of every id goes into the map; what had not ended is queued behind the queue; the log is rewritten from the map |
| `TaskQueues.TaskQueue.Recover` | src/queue/task_queue.cpp:263-315 | a new process is valid, has every logged entry, queues exactly the unfinished ones, and its log gives the same map again |
| `TaskQueues.CrashAndRecover` | src/queue/task_queue.cpp:252-315 | a crash at any moment: ended entries come back unchanged, every other one is queued exactly once, nothing else is; crashing again changes nothing |
| `TaskQueues.TaskQueue.Start` | src/queue/task_queue.cpp:95-106 | starting again leaves a valid queue iff every task had ended; queued tasks are then queued twice, and running ones are queued while a worker has them; without workers it is valid iff nothing was pending |
| `TaskQueues.SubmitAndRestart` | src/queue/task_queue.cpp:95-150 | a submitted task that still waits is queued twice |
| `TaskQueues.RestartWhileRunning` | src/queue/task_queue.cpp:95-217 | a task that a worker has is queued again |
| `TaskRuns.Run` | src/queue/task_queue.cpp:118-250 | in every interleaving each state is valid, ended entries never change while mapped, and none comes back after it left the map |
| `ConsistentHash.AddMovesOnlyToNew` | src/cluster/consistent_hash.cpp:66-71 | adding a node leaves a key where it was or gives it to the new node |
| `ConsistentHash.RemoveUndoesAdd` | src/cluster/consistent_hash.cpp:66-78 | removing a node undoes adding it iff it took no point of another |
| `ConsistentHash.RemoveMovesOnlyItsOwn` | src/cluster/consistent_hash.cpp:73-78 | removing a node leaves all keys of the others where they are iff none of its points belongs to another |
| `ConsistentHash.HashRing.AddNode` | src/cluster/consistent_hash.cpp:66-71 | the node has all its points |
| `ConsistentHash.HashRing.RemoveNode` | src/cluster/consistent_hash.cpp:73-78 | its points are gone, and no key is left on the node |
| `ConsistentHash.HashRing.GetNode` | src/cluster/consistent_hash.cpp:80-89 | the node at the one point that owns the key: the first at or after its hash, wrapping around; none iff the ring is empty |
| `ConsistentHash.Collide` | src/cluster/consistent_hash.cpp:66-89 | with colliding points, a node that comes and goes takes the keys of another with it |
| `Grammar.RoundTrip` | src/parser/parser.cpp:295-370 | a condition printed with as few parentheses as possible parses back to itself |
| `Grammar.DisjunctionWritable` | src/parser/parser.cpp:295-370 | every parsed condition can be printed |
| `Grammar.PrintedAgain` | src/parser/parser.cpp:295-370 | parsing, printing and parsing again gives the same condition |
| `Grammar.DeleteRoundTrip` | src/parser/parser.cpp:472-480 | a printed DELETE statement parses back to itself, with or without a semicolon |
| `Parsing.Parser.MatchKeyword` | src/parser/parser.cpp:237-249 | moves on iff the keyword is next in one case; mixed case is an error |
| `Parsing.Parser.ParseOperand` | src/parser/parser.cpp:295-306 | what the grammar says of an operand, with the cursor behind it |
| `Parsing.Parser.ParsePredicate` | src/parser/parser.cpp:318-346 | what the grammar says of a predicate |
| `Parsing.Parser.ParseAnd` | src/parser/parser.cpp:348-358 | the loop builds conjunctions to the left, as the grammar says, and the cursor never passes the end |
| `Parsing.Parser.ParseOr` | src/parser/parser.cpp:360-370 | the same for disjunctions |
| `Parsing.Parser.ParseQualifiedName` | src/parser/parser.cpp:270-279 | a table name, with its database before a dot or without |
| `Parsing.Parser.Finish` | src/parser/parser.cpp:617-622 | accepts at most a semicolon before the end of the input |
| `Parsing.Parser.ParseDelete` | src/parser/parser.cpp:472-480 | what the grammar says of the whole input as a DELETE statement, with nothing left over |
| `Lexing.RenderedBack` | src/parser/lexer.cpp:23-139 | the token lists that some text gives are exactly those that can be written, and writing them, with quotes and backslashes escaped, gives a text that is read back as they were |
| `Lexing.UnquoteBack` | src/parser/lexer.cpp:82-98 | an escaped string literal is read back, whatever bytes it has |
| `Statements.TextRoundTrip` | src/parser/parser.cpp:295-370 | the conditions that some text gives are exactly those that can be written, and writing one gives a text that is read back to it |
| `Statements.DeleteText` | src/parser/parser.cpp:472-480 | the same for DELETE statements |
| `Lexing.Lexer.IdentEnd` | src/parser/lexer.cpp:34-52 | the end of an identifier, dashes between letters or digits included |
| `Lexing.Lexer.NumeralEnd` | src/parser/lexer.cpp:54-80 | the end of a word that starts with a digit, and whether it is a number |
| `Lexing.Lexer.ScanText` | src/parser/lexer.cpp:82-98 | the unescaped text and the position behind the closing quote; none iff it is not closed |
| `Lexing.Lexer.Tokenize` | src/parser/lexer.cpp:23-139 | exactly the tokens that the rules give, with an end marker; none iff some letter does not belong |
| `Statements.Parse` | src/parser/parser.cpp:630-634 | lexer and parser together give what the grammar says of the tokens of the text, none iff it is not a DELETE statement |

## Left out

- File streams, seeking, flushing and failures of reading or writing: pages are values, logs are byte or record sequences.
- `parent_page_id` of index nodes: it is stored and never used for navigation, so it is a free parameter of the page format.
- 64-bit wrap-around of row ids, page ids, transaction ids and counters: they are unbounded here, and the page formats state the bound they need.
- BStarTree.Index.WriteNode: keeps nodes instead of page bytes; `IndexFile.WriteFits` says that the bytes of everything it may write can be built.
- TableHistory.CollectRollbackRecords: takes the records; `Revert.RevertTableToTimestamp` reads them from the log file first.
- TaskQueues.TaskQueue.Submit: takes a fresh id as a parameter, because the source draws a random UUID.
- TaskQueues.TaskQueue.Finish: takes the first entry of the hash map as a parameter, because its order is arbitrary.
- Revert.RevertTableToTimestamp: is about logs in order of time, because the source takes timestamps from a clock that could be set back.
- TableStorages.TableStorage.constructor: is for tables of at most 2^20 columns; `RowStores.RowStore` covers longer rows, which cannot be read.
- What later calls do on a table that a refused mutation left invalid.
- Pages of 4 GiB or more, whose 32-bit byte counts wrap around.
- Revert.Mutate: is for row ids below 2^64, which the source does not exceed before its counter wraps around.
- A second revert over history that was already reverted: a revert writes no record.
- Readers of single numbers and strings take the bytes from an offset on instead of a buffer and an offset.
- The second loop of `FindIndexedEquality` over indexed schema columns: a created table has a descriptor for each of them.
- Names of result columns and aliases; the binder; `CloneExpr`, which copies a tree.
- `std::regex` in LIKE and the hash function of the ring are parameters.
- Statements.Parse: gives nothing for statements other than DELETE, which the source dispatches on their first keyword.
- JSON lines of the queue's log and lines that cannot be parsed; workers stopping.
- Network, command line, authentication, catalog files, telemetry and logging.
