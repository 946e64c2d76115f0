# A verified model of the storage, planning and decimal core of the database engine

The repository is a small relational engine. This project models four of its components and proves what they are for.

**Transactional storage.** `TxnSystem` is a step system over buffer-pool frames, data files, log, undo list and the
active transaction; each step is a point at which the process may die. `TxnInvariant` proves the invariant every run
keeps, `CrashRecovery` what recovery restores after a crash anywhere, rollback, and how long a commit survives, `Restart`
the same from the bytes of a log cut anywhere inside its last record, and that an interrupted recovery may be repeated.
`BufferPool`, `Wal` and `Recovery` are the classes and loops of the source, each proved against the step system or
against the functions on the log (`LogRecords`, `RecordCodec`). `EngineSteps` and `EngineRuns` say which steps each
operation of the engine takes; the class in `Engine` carries in its invariant that what it holds is what some run of
steps leaves, so the theorems about runs are theorems about it. `Disk` and `Bytes` are files, pages and little-endian
numbers.

**B+ tree.** `KeyOrder` is the composite order, `TreeModel` the tree invariant (sorted pages, separators, equal leaf
depth, capacity, distinct pages, leaf chain). `BTreePage` is the byte layout of leaf and inner pages and the in-place
operations on it, `BTreeFrames` what an insertion does to one page, `BTree` the tree over byte pages: insertion through
leaf, inner and root splits, when an insertion splits, how high a tree gets, rollback. `TreeFill` says that all pages but
the root stay half full, so the height is logarithmic. `BTreeScan` is the range scanner.

**Query rewriting.** `Values`, `Casts`, `TextCasts` and `Expressions` are values, their conversions and eager evaluation.
`ValueLaws`, `EvalLaws` and `CastLaws` say what the operators and conversions compute in the terms of arithmetic, order and
three-valued logic, without naming the functions that compute it; `ProperEval` that finite input gives finite results.
`Folding` is constant folding with its weak and strong contexts and the boolean simplifications, `FoldLaws` how far it goes,
`SelfComparison` where the elimination of self-comparisons goes wrong, `KeyRanges`, `IndexKeys`, `IndexSelect` and
`IndexPlan` index selection, `Optimizer` the passes in order, `Executor` the operators running the rewritten plan over the
tree and the heap.

**Rows and decimals.** `Decimal` is 38-digit arithmetic, `DecimalLaws` what it computes on fractions and when it raises.
`DecimalText` and `DecimalWire` are its text and wire forms, `DecimalLiterals` the grammar of the texts and the number each
stands for. `RowCodec` is the record format, `HeapPage` the slotted page, `Catalog` the double write of heap and indexes over any run of
statements, `TableRows` what those statements do to the rows of a table, `StatementLaws` which of them succeed. `Tables` carries the statements out with a
tree for every index, and `TableQuery` runs queries over the result.

Methods with loops and classes follow the source's loops and objects; functions are their specifications, and the lemmas
state what the specifications mean. `Arith`, `Seqs` and `PageBytes` hold shared helpers.

## Where the code differs from its promises

* **Rollback and stolen pages.** Comments in `src/storage/recovery.cpp` (lines 14-17) and `src/storage/wal.h` say that
  recovery may skip aborted transactions because rollback has restored the disk. For a cached page
  `BufferPool::restore_region` repairs the frame only. `CrashRecovery.CrashTheorem` proves for every run that recovery
  gives the last committed state if and only if every byte that only aborted transactions patched is back on disk;
  `ResidueSurvives` is a run where it is not, and `WrittenAgainSuffices` says that writing the restored pages before the
  crash is enough.
* **Runs of differing words.** The comment of `log_page_diff` speaks of merging over a gap of one word. The loop emits
  the maximal runs; that is modelled.
* **Self-comparison elimination.** `expr_equal` looks neither at the scale of a cast nor at the sign of a floating zero.
  `SelfCompareExact` is the exact condition for one comparison and one row: the rewrite keeps the truth if and only if a
  side is NULL where that decides, or the operator answers for the two values what it answers for equal ones.
  `FoldSound` carries it through whole expressions (`AllKept`, the condition for every comparison the simplifier meets; no
  condition in strong context), `ComparisonFoldedExact` says that for a comparison at the top it is needed too.
  `AgreeingKept` says that agreement on scales and zeros is enough for every row, `CastScalesMatter` decides it for two
  casts of one column under each of the six operators, and `NegativeZeroMatters` gives an input for the zero.
* **Folding on an empty table.** Folding raises a constant's error even where the plain query, having no rows, raises
  nothing: planning raises alone if and only if the table is empty (`PlanningRaisesAlone`). The conversion of a key
  constant, which could raise as well, never does (`KeysNeverRaise`).
* **Rollback after a root split.** A rollback restores bytes, not the root number an open tree remembers, and nothing
  reopens the tree. `BTree.InsertAndRollBack` proves that the tree is as before exactly if the root did not split in the
  transaction; otherwise its root is a page of zeros, at which every later read of the index stops the process. One
  insertion splits the root exactly if every page on its path is full (`BTree.Index.Insert`).
* **Folding twice.** Where a NOT absorbs another, a comparison it brings into weak context is simplified once more, as the
  comment in `fold_expr` says; an AND or OR is not. `FoldTwice` proves that folding is idempotent in strong context, and in
  weak context exactly where the first round leaves nothing to fold; `DoubleNotLeaves` is a predicate where it does.
* **Two signs of an integer.** The comment of `parse_i64` speaks of one optional sign. A plus sign is skipped and the library
  takes a minus sign after it, so "+-5" is read as -5, by the integer reader only (`SignsPileUp`).
* **Coercion of small negative numerics.** `coerce_numeric` takes the rounding direction from the quotient; when that is
  zero a negative value is rounded up: -0.5 becomes 1. `CoerceIsRounding` is the exact condition.
* **numeric to boolean.** The message says that only 0 and 1 are accepted; -1 is accepted too and becomes true
  (`DecToBoolAccepts`).
* **Records longer than 16 bits.** `encode_row` writes the record length modulo 65536; `RowRoundTrip` says that the record
  reads back exactly when its length fits (records on a page always do).

## Assumptions

* A crash is a crash of the process: what was written to a file stays written, and the log loses at most a part of its
  last record.
* The checksum of log records and the validity test of pages are arbitrary functions; a checksum that a damaged record
  happens to pass is not excluded by arithmetic.
* Double and float arithmetic, conversions to and from doubles and floats, and built-in functions are the parameters
  collected in `Casts.Env`. `ProperEnv` is the one thing assumed of them: on finite arguments they return finite numbers
  or raise, as the originals check or cannot help doing, and every decimal of 38 digits converts to a double.
  `EvalProper` extends this to all expressions over rows as `encode_row` admits them.
* Column types are those of the type table (`SaneCols`), rows are of the table's types (`WellTyped`).
* An exception that leaves a statement ends in the rollback of its transaction.

## Model

| member | source | states |
|---|---|---|
| TxnInvariant.StepKeepsInv | src/storage/engine.cpp:44-139 | every step of the storage engine keeps the invariant relating, byte by byte, log, undo list, frames, files and the last committed contents |
| TxnInvariant.RunKeepsInv | src/storage/engine.cpp:44-139 | the invariant holds after every run of steps |
| CrashRecovery.RecoversIffRepaired | src/storage/recovery.cpp:120-208 | in every reachable state recovery restores the last committed contents exactly when no aborted change is left on disk alone |
| CrashRecovery.CrashTheorem | src/storage/recovery.cpp:120-208 | the same for every run from a freshly opened engine, stopped at any step |
| CrashRecovery.WrittenAgainSuffices | src/storage/recovery.cpp:14-17 | if the pages patched by aborted transactions were written again before the crash, recovery restores the last committed contents |
| CrashRecovery.CommittedSurvives | src/storage/engine.cpp:92-110 | what was marked at a Commit, with the dropped files gone, is what recovery yields after any later steps without another Commit |
| CrashRecovery.RollbackRestores | src/storage/engine.cpp:112-139 | after Begin, any changes, evictions and reloads, and a rollback, every page is as it was at Begin; a reader sees it so if and only if no change was waiting for its mark_dirty |
| CrashRecovery.ResidueSurvives | src/storage/buffer_pool.cpp:216-231 | a concrete run: change, steal, read back, roll back, crash; recovery leaves the aborted byte |
| LogRecords.RecoverByte | src/storage/recovery.cpp:155-181 | a recovered byte is the oldest before-byte of the losers, else the newest after-byte of the committed, else the byte on disk |
| Restart.CrashBytesTheorem | src/storage/wal.cpp:165-201 | the crash theorem on the bytes of the log file, cut anywhere inside one more record |
| Restart.RecoverIsOps | src/storage/recovery.cpp:155-181 | recovery is a list of page writes and file removals carried out in order |
| Restart.RecoveryRestarts | src/storage/recovery.cpp:155-181 | stopping after any prefix of that list and recovering again gives the same files as one uninterrupted recovery |
| RecordCodec.ParseEncoded | src/storage/wal.cpp:60-98 | an appended record is read back whole, whatever follows it |
| RecordCodec.TornRecord | src/storage/wal.cpp:165-201 | a partly written record is never taken for a whole one |
| RecordCodec.LogReadBack | src/storage/wal.cpp:165-201 | a log of whole records followed by a torn one reads back as the whole ones |
| RecordCodec.DamageStopsReading | src/storage/wal.cpp:165-201 | a log followed by a record whose checksum is not that of its bytes reads back as the records before it, whatever follows |
| RecordCodec.ParseIffEncoded | src/storage/wal.cpp:165-201 | a record is read exactly where the bytes begin with the encoding of one: its length is legal and the checksum over number, kind and payload is the stored one |
| RecordCodec.DecodeEncoded | src/storage/recovery.cpp:70-97 | the payload of each kind of record passes validation and decodes to the record |
| RecordCodec.DecodeIffEncoded | src/storage/recovery.cpp:70-97 | the payloads that pass validation are exactly those of some record of the kind |
| Bytes.DigitAt | src/storage/wal.cpp:60-98 | the i-th byte of a stored number is its digit at place 256^i |
| RecordCodec.ReadLogIsDecodeAll | src/storage/recovery.cpp:120-153 | validating record by record while reading is validating all records read |
| Wal.WalFile.WriteFully | src/storage/wal.cpp:83-97 | short writes repeated until all bytes are appended |
| Wal.WalFile.Append | src/storage/wal.cpp:60-98 | the record is appended with the next sequence number; the file stays the encoding of its log |
| Wal.WalFile.Reset | src/storage/wal.cpp:107-119 | the log is emptied; sequence numbers go on |
| Wal.WalReader.Fill | src/storage/wal.cpp:142-163 | reads more bytes exactly when there are some, and loses none |
| Wal.WalReader.Next | src/storage/wal.cpp:165-201 | returns the first record of what is left and moves past it, or stops for good where the log is cut |
| Disk.AtWrite | src/storage/file_manager.cpp:109-133 | a page read gives what was last written to it; a write changes no other page, even when it lengthens the file |
| Recovery.ApplyPatchTo | src/storage/recovery.cpp:101-116 | read, overwrite one half of the patch, write |
| Recovery.Collect | src/storage/recovery.cpp:120-153 | the first pass gathers the data records and the committed and aborted sets, or stops on a malformed record |
| Recovery.RedoPass | src/storage/recovery.cpp:155-171 | the second pass applies the committed records in log order |
| Recovery.UndoPass | src/storage/recovery.cpp:173-181 | the third pass applies the losers' before-bytes in reverse order |
| Recovery.RecoverFiles | src/storage/recovery.cpp:120-208 | recovery of the files from the bytes of the log, which is then emptied; a malformed record stops it before any write |
| BufferPool.DiffBothWays | src/storage/buffer_pool.cpp:66-107 | writing all after-parts into the baseline gives the page, writing all before-parts into the page gives the baseline |
| BufferPool.RunsOrdered | src/storage/buffer_pool.cpp:76-91 | the patches ascend and are disjoint, with an equal word between any two |
| BufferPool.Pool.WriteBack | src/storage/buffer_pool.cpp:42-55 | a dirty page goes to its file and only there; an unlogged change stops the process |
| BufferPool.Pool.Sweep | src/storage/buffer_pool.cpp:109-131 | within two rounds the clock finds an unpinned frame, unless all are pinned |
| BufferPool.Pool.Evict | src/storage/buffer_pool.cpp:109-131 | takes the frame the clock with its second chances takes; None exactly when all frames are pinned; Unlogged exactly when the page in that frame carries a change that was not marked; otherwise that page is written back and gone, and no other frame changes |
| BufferPool.Pool.Read | src/storage/buffer_pool.cpp:133-164 | a cached page is returned as it is. A miss ends exactly as it has to: Full, Unlogged or UnloggedChange only by the frame the clock takes, Corrupt only by the page check, and otherwise in a frame with the page as its file holds it |
| BufferPool.FrameWhenLogged | src/storage/buffer_pool.cpp:109-164 | where no cached page carries an unmarked change, some frame is unpinned and the page passes the check, a miss ends in a frame |
| BufferPool.Pool.Allocate | src/storage/buffer_pool.cpp:166-186 | a new page is a zero page in a dirty frame; it fails exactly as a read of an uncached page does for want of a frame |
| BufferPool.Pool.Unpin | src/storage/buffer_pool.cpp:188-197 | the pin count goes down by one, not below zero |
| BufferPool.Pool.MarkDirty | src/storage/buffer_pool.cpp:199-211 | the change is logged and listed for undo, the baseline becomes the data, the frame is dirty |
| BufferPool.Pool.LogPageDiff | src/storage/buffer_pool.cpp:66-107 | the loop logs one record and one undo entry for each maximal run of differing words, in order |
| BufferPool.Pool.RestoreRegion | src/storage/buffer_pool.cpp:216-231 | a cached page is restored in data and baseline, another in its file |
| BufferPool.Pool.FlushAll | src/storage/buffer_pool.cpp:242-247 | true exactly when no frame carries an unmarked change, and then no frame is dirty; a run of flush steps that changes no contents |
| BufferPool.Pool.DropTable | src/storage/buffer_pool.cpp:258-269 | true exactly when no frame of the file carries an unmarked change, and then exactly the frames of other files are left; a run of eviction steps |
| EngineSteps.MarkDirtyRun | src/storage/buffer_pool.cpp:199-211 | logging every run of a page and setting its flag is a run of steps that brings the baseline up to the data |
| EngineRuns.MarkDirtySettled | src/storage/engine.cpp:69-80 | what the engine's mark_dirty leaves behind is what that run of steps leaves behind |
| EngineRuns.RollbackSettled | src/storage/engine.cpp:112-139 | what the engine's rollback leaves behind is a run of the step system that ends in the committed contents of every page |
| EngineRuns.RollbackSeen | src/storage/engine.cpp:112-139 | readers see the committed contents as well, if no change was waiting for its mark_dirty |
| EngineRuns.CommitSettled | src/storage/engine.cpp:92-110 | committing makes the marked contents the committed ones, with the dropped files removed |
| EngineRuns.DropSettled | src/storage/engine.cpp:164-174 | logging a drop and evicting the file's frames is a run of steps that leaves none of them |
| EngineRuns.DurableCrash | src/storage/recovery.cpp:120-208 | files and log that some run of steps leaves recover to the committed contents exactly when no aborted change is on disk alone |
| EngineSteps.TailsBack | src/storage/engine.cpp:125-133 | a rollback brings back a file's tail page entry exactly unless the transaction dropped the file without having moved its tail |
| Engine.RestoreTails | src/storage/engine.cpp:125-133 | the reverse loop leaves each file with the entry its oldest undo record holds |
| Engine.UndoPages | src/storage/engine.cpp:117-124 | the reverse loop restores each region, in the frame or in the file |
| Engine.EngineCrash | src/storage/recovery.cpp:120-208 | at any time in the life of the engine object, recovering from its files and log gives its committed contents exactly when no aborted change is on disk alone |
| Engine.Reopen | src/storage/engine.cpp:29-38 | a crash with a torn last record, recovery and reopening: the new engine's committed contents are the old one's under the same condition |
| Engine.StorageEngine.BeginTxn | src/storage/engine.cpp:82-90 | a transaction with a fresh number and empty lists, or an error inside another; all marked contents are the committed ones |
| Engine.StorageEngine.Read | src/storage/buffer_pool.cpp:133-164 | a page through the pool, ending exactly as the pool's read does, so in a frame where all changes are marked, a frame is unpinned and the page passes the check; the engine stays what a run of steps leaves |
| Engine.StorageEngine.Allocate | src/storage/buffer_pool.cpp:166-186 | a page of zeros in a dirty frame, whenever a frame is unpinned and all changes are marked; the engine stays what a run of steps leaves |
| Engine.StorageEngine.MarkDirty | src/storage/buffer_pool.cpp:199-211 | inside a transaction the runs of the change are logged and the frame's baseline is its data; an error outside one |
| Engine.StorageEngine.RemoveTableFile | src/storage/engine.cpp:164-174 | the drop is logged, the file's frames and tail entry go, the removal waits for the commit; it stops exactly inside a transaction where a frame of the file carries an unmarked change, and log and files stay recoverable even then |
| Engine.StorageEngine.CommitTxn | src/storage/engine.cpp:92-110 | a Commit record if anything was written, then the removals; what was marked, without the dropped files, is committed |
| Engine.StorageEngine.RollbackTxn | src/storage/engine.cpp:112-139 | the undo list in reverse, the tail table, an Abort record if anything was written; every page is as committed, for readers too if no change was waiting for its mark_dirty |
| Engine.StorageEngine.Checkpoint | src/storage/engine.cpp:44-54 | outside a transaction all dirty pages are written and the log is emptied, as a run of steps that changes no contents; it stops exactly where an unmarked change is left |
| KeyOrder.OrdIsOrder | src/storage/btree.cpp:31-57 | the two comparisons are a total order: key with NULL largest, page, slot |
| BTree.Index.LeafLowerBound | src/storage/btree.cpp:91-104 | binary search over the page bytes for the first entry not below the given one |
| BTree.Index.NodeChildIndex | src/storage/btree.cpp:172-185 | binary search over the page bytes for the child an entry belongs to |
| BTree.LeafHalves | src/storage/btree.cpp:392-422 | both halves of a full leaf are good leaves, chained, on their sides of the separator |
| BTree.InnerHalves | src/storage/btree.cpp:440-478 | both halves of an overfull inner page are good, the middle separator moves up, no entry is lost |
| BTree.Rejoined | src/storage/btree.cpp:424-438 | the children after an insertion below one of them form a good list with that entry more |
| BTree.Index.constructor | src/storage/btree.cpp:293-310 | an empty tree: the header page holding the root number, and an empty leaf |
| BTree.Index.Open | src/storage/btree.cpp:312-326 | a tree file whose header page names the root of a good tree is that tree again |
| BTree.Index.Insert | src/storage/btree.cpp:359-374 | inserting an absent entry keeps the whole tree invariant on the page bytes, root number on the header page included, and adds exactly that entry; the root changes exactly if every page on the path of the entry is full; pages but the root stay half full |
| TreeFill.TreeEntries | src/storage/btree.cpp:399-466 | a tree of height h > 0 whose pages but the root are half full has at least 2 * 107 * 108^(h - 1) entries; a new tree is half full in this sense, and every insertion keeps it so because full pages are cut in the middle |
| BTree.HeightBound | src/storage/btree.cpp:328-334 | with 32-bit page numbers no tree is higher than 31, so an insertion takes at most 33 new pages |
| BTree.InsertAndRollBack | src/storage/engine.cpp:112-139 | inserting and rolling back leaves the tree object as it was if the root did not split, and otherwise with a root page of zeros, which is no tree page |
| BTree.Index.InsertRec | src/storage/btree.cpp:376-478 | the same for a subtree: one good subtree, or two with their separator exactly if the path of the entry is full; all other pages untouched, new pages fresh |
| BTree.Index.SplitLeaf | src/storage/btree.cpp:392-422 | an overfull leaf becomes two chained leaves with the same entries |
| BTree.Index.PlaceSplit | src/storage/btree.cpp:431-478 | a separator goes into the inner page while it has room; otherwise the page is split around the middle separator |
| TreeModel.Splice | src/storage/btree.cpp:424-438 | replacing a subtree by subtrees that fit its place keeps order, depth, distinct pages and the leaf chain |
| TreeModel.Cut | src/storage/btree.cpp:440-478 | cutting a list of subtrees at a separator gives two good lists |
| BTreeScan.InOrderGood | src/storage/btree.h:51-57 | the leaves of a good tree hold ascending entries within its bounds and are chained from the leftmost |
| BTreeScan.InOrderElems | src/storage/btree.h:51-57 | the leaves hold exactly the tree's entries |
| BTreeScan.FindLeaf | src/storage/btree.cpp:482-504 | the descent ends in a leaf before which everything is below the lower bound and after which nothing is |
| BTreeScan.Scanner.constructor | src/storage/btree.cpp:482-504 | a new scan has exactly the entries in range to return |
| BTreeScan.Scanner.Next | src/storage/btree.cpp:520-567 | returns the next entry in range and leaves the others, or ends when there is none; it terminates |
| BTreeScan.ScanAll | src/storage/btree.cpp:482-567 | a scan returns exactly the stored entries within the bounds, once each, ascending |
| BTreePage.CellRead | src/storage/btree.cpp:59-88 | a cell reads back as its entry |
| BTreePage.LeafInsertedIs | src/storage/btree.cpp:107-124 | the bytes leaf_insert_at leaves hold the entries with the new one at its position; slots and cells do not overlap |
| BTreePage.LeafInsertAt | src/storage/btree.cpp:107-124 | the in-place operation inserts into the entries and keeps the chain link |
| BTreePage.LeafBuild | src/storage/btree.cpp:127-133 | a rebuilt leaf holds exactly the given slice |
| BTreePage.NodeInsertedIs | src/storage/btree.cpp:188-205 | both areas after node_insert_at: separator at i, child at i + 1, the others shifted, no overlap |
| BTreePage.NodeInsertAt | src/storage/btree.cpp:188-205 | the in-place operation does that to the separators and children |
| BTreePage.NodeBuild | src/storage/btree.cpp:208-222 | a rebuilt inner page holds the given slices of separators and children |
| BTreePage.FreeSpaceOfNode | src/storage/btree.cpp:385-433 | the free space the split tests look at depends on the number of entries alone |
| BTreeFrames.LeafWith | src/storage/btree.cpp:385-391 | a leaf page with room gets the entry at its place, keeping the chain link through the checksum store |
| BTreeFrames.LeafOf | src/storage/btree.cpp:405-418 | a rebuilt leaf page stands for the slice and the given next leaf |
| BTreeFrames.NodeWith | src/storage/btree.cpp:433-437 | an inner page with room gets the separator and the child to its right |
| BTreeFrames.GatherSeps | src/storage/btree.cpp:445-451 | the loops gather all separators with the new one at its place |
| BTreeFrames.GatherKids | src/storage/btree.cpp:452-458 | the loops gather all children with the new one at its place |
| KeyRanges.RangeMeetIsIntersection | src/planner/index_select.cpp:26-64 | meeting two ranges intersects their key sets |
| KeyRanges.RangesMeetLoop | src/planner/index_select.cpp:67-78 | the nested loop computes the list of pairwise meets |
| KeyRanges.RangesMeetKeys | src/planner/index_select.cpp:67-78 | the list denotes exactly the intersection |
| KeyRanges.RangesMeetAscends | src/planner/index_select.cpp:67-78 | lists of ascending disjoint ranges meet in such a list |
| KeyRanges.PickExact | src/storage/btree.cpp:520-567 | what a scan of a range should return: the entries in range, once each, ascending |
| IndexKeys.DoubleKeyOrder | src/storage/btree.cpp:239-246 | the order of encoded doubles is the numeric order, for all numbers and both zeros |
| IndexKeys.KeyAgrees | src/storage/btree.cpp:250-287 | key comparison and value_cmp agree on every stored value and every constant key_of admits |
| IndexKeys.CmpRangesExact | src/planner/index_select.cpp:81-101 | the ranges of a comparison hold exactly the non-NULL keys that satisfy it |
| IndexKeys.NullRangesExact | src/planner/index_select.cpp:211-226 | the ranges of IS NULL and IS NOT NULL hold exactly those keys |
| IndexKeys.MirrorHolds | src/planner/index_select.cpp:146-162 | swapping the sides of a comparison mirrors the operator |
| IndexSelect.HitExact | src/planner/index_select.cpp:173-228 | a hit conjunct is true on a row exactly when the row's key is in the hit's ranges |
| IndexSelect.HitIffSearchable | src/planner/index_select.cpp:107-228 | exactly these conjuncts are hits: the column compared with a constant of its kind, either way round and by any operator, or tested for NULL; an equality hit exactly for the equality operator |
| IndexSelect.HitsNeverRaise | src/planner/index_select.cpp:173-228 | gathering the hits of an index never raises: a proper constant always converts to a key |
| IndexSelect.FlattenMatches | src/planner/index_select.cpp:231-241 | a predicate is true exactly when all its conjuncts are, and raises exactly when one of them does |
| IndexSelect.JoinMatches | src/planner/index_select.cpp:257-264 | the same for conjuncts joined again |
| IndexSelect.FlattenTake | src/planner/index_select.cpp:244-254 | the conjuncts from left to right |
| IndexSelect.JoinParts | src/planner/index_select.cpp:257-264 | the left-associated AND tree |
| IndexSelect.PickIndex | src/planner/index_select.cpp:267-298 | the chosen index has hits, an equality first, then the lower column, then the first; none only when no index has hits |
| IndexSelect.BestIs | src/planner/index_select.cpp:267-298 | the chosen index has an equality hit if any index has one; among these it is on the lowest column, and the first of them in the list |
| IndexSelect.IntersectRanges | src/planner/index_select.cpp:301-311 | ascending ranges that hold exactly the keys all hits hold, although the loop stops at an empty list |
| IndexPlan.RewriteScan | src/planner/index_select.cpp:314-377 | the rewrite by the most preferred index: its ranges, its residual conjuncts, or no rows; unchanged only without a hit, raising only where a constant's conversion does |
| IndexPlan.ResidualIs | src/planner/index_select.cpp:340-376 | the residual conjuncts are exactly those without a hit |
| IndexPlan.RowSplit | src/planner/index_select.cpp:340-376 | a row satisfies the predicate exactly when its key is in all hits and the residual conjuncts are true |
| IndexPlan.FetchedRows | src/executor/operator.cpp:41-103 | fetch over index scan returns the live rows whose key is in the ranges, once each |
| IndexPlan.RewriteKeepsRows | src/planner/index_select.cpp:314-377 | given index and heap agreement, the rewritten plan returns the same multiset of rows as the filtered scan whenever that raises on no live row |
| Optimizer.ClassifyDecides | src/planner/filter_prune.cpp:20-34 | a constant predicate decides, or raises, on all rows at once |
| Optimizer.Optimize | src/planner/const_fold.cpp:215-220 | fold, prune, select; raises exactly when folding, pruning or a key conversion does |
| Optimizer.OptimizeKeepsRows | src/planner/const_fold.cpp:215-220 | the three passes together keep the multiset of rows of every query that raises on no row |
| Optimizer.KeysNeverRaise | src/planner/index_select.cpp:107-143 | no index selection after folding raises over a key conversion |
| Optimizer.PlanningRaisesAlone | src/planner/const_fold.cpp:40-133 | where planning raises, the plain query raises if and only if the table has rows |
| Executor.IndexScanAll | src/executor/operator.cpp:41-79 | the operator drains one scanner per range |
| Executor.FetchAll | src/executor/operator.cpp:81-103 | the operator reads each row still alive |
| Executor.FilterAll | src/executor/operator.cpp:123-141 | the operator keeps the rows the predicate is true on, and raises at the first row it raises on |
| Executor.Query | src/planner/const_fold.cpp:215-220 | optimizing and running a filtered scan over real trees gives the plain query's rows whenever that raises nothing on a table with rows; on an empty table it returns nothing or raises exactly if planning does |
| TableQuery.QueryTable | src/catalog/catalog_dml.cpp:13-77 | after any statements on a new table, with the trees they filled, the optimized query returns the plain query's rows |
| Casts.DecToBoolAccepts | src/storage/cast.cpp:305-316 | exactly 0, 1 and -1 are accepted |
| CastLaws.ToInteger | src/storage/cast.cpp:109-219 | CAST to an integer keeps integers and truth values, takes decimals to the nearest integer, halves away from zero, doubles to what the conversion gives; it raises exactly where the type does not hold the result, for a decimal at -2^63 too |
| CastLaws.TextToInteger | src/storage/cast.cpp:171-184 | CAST of a text made of signs and digits gives the number they stand for, and raises exactly where the type does not hold it |
| CastLaws.TextWasInteger | src/storage/cast.cpp:171-184 | CAST to an integer takes no other text |
| TextCasts.SignsPileUp | src/storage/cast.cpp:169-184 | a text read as an integer is read as a decimal with the same value, if and only if it does not have both signs |
| CastLaws.ToDecimal | src/storage/cast.cpp:374-398 | CAST to numeric takes integers and truth values without fraction and decimals as they are, then to the column's precision and scale |
| CastLaws.TextToDecimal | src/storage/cast.cpp:394-398 | CAST of a literal with sign, point, fraction and exponent gives the number it stands for, with the scale it writes, and raises exactly where 38 digits or a scale of 255 do not hold it or the exponent exceeds 1000 |
| CastLaws.TextWasDecimal | src/storage/cast.cpp:394-398 | CAST to numeric takes no other text |
| CastLaws.ToTruth | src/storage/cast.cpp:281-316 | CAST to boolean: 0 is false, 1 true, for decimals -1 as well; all other numbers raise |
| CastLaws.TextToTruth | src/storage/cast.cpp:319-347 | exactly the two words, in any mixture of small letters and capitals |
| TextCasts.IsWord | src/storage/cast.cpp:321-333 | the loop compares letter by letter without regard to case |
| TextCasts.ReadTruth | src/storage/cast.cpp:319-341 | one comparison with each word decides |
| CastLaws.ToFloating | src/storage/cast.cpp:103-151 | doubles and floats keep their bits, a float widens, everything else is converted |
| CastLaws.TextToText | src/storage/cast.cpp:155-167 | a text keeps its content, without the padding where the new type is not padded; exactly what is longer than the length raises |
| CastLaws.TruthToText | src/storage/cast.cpp:257-260 | a truth value becomes one of the two words, in small letters |
| TextCasts.IntTextIs | src/storage/cast.cpp:239-242 | an integer becomes a minus sign or none and its digits, without a needless zero in front |
| CastLaws.TextAndBack | src/storage/cast.cpp:239-259 | an integer, decimal or truth value cast to text of any kind and back is what it was |
| CastLaws.NullStays | src/expr/expr_eval.cpp:394-423 | CAST of NULL is NULL, to any type |
| CastLaws.ImplicitKeeps | src/storage/cast.cpp:433-469 | which implicit conversions there are, and that integers and decimals keep their number in them |
| CastLaws.AssignmentAllows | src/storage/cast.cpp:433-469 | assignment allows narrower integers and double to float besides, an explicit cast everything |
| Casts.CompareSelf | src/expr/expr_eval.cpp:481-543 | a value that compares with itself is equal to itself |
| ValueLaws.DoubleCmpIsOrder | src/expr/expr_eval.cpp:481-543 | doubles compare as the numbers their bits stand for; both zeros are zero |
| ValueLaws.LexCmpIsOrder | src/expr/expr_eval.cpp:481-543 | texts compare in dictionary order, and as equal only if they are |
| EvalLaws.IntegerSum | src/expr/expr_eval.cpp:225-301 | +, - and * of integers give exactly the sum, difference and product; they raise exactly where the type does not hold it |
| EvalLaws.IntegerQuotient | src/expr/expr_eval.cpp:225-301 | / gives the quotient whose remainder is smaller than the divisor and on the dividend's side; it raises exactly for a zero divisor or where the type does not hold the quotient |
| EvalLaws.IntegerNegation | src/expr/expr_eval.cpp:200-222 | unary minus gives the opposite number and raises exactly where the type does not hold it |
| EvalLaws.OtherNegation | src/expr/expr_eval.cpp:200-222 | the opposite decimal, the opposite double, a float with its sign bit turned; NULL stays NULL |
| EvalLaws.DecimalArithmetic | src/expr/expr_eval.cpp:225-301 | decimal operators on any mixture of decimals and integers compute on the fractions these stand for, in their order |
| EvalLaws.FloatingArithmetic | src/expr/expr_eval.cpp:225-301 | double and float operators get their operands in order, an infinite or undefined result raises, NULL on either side gives NULL |
| EvalLaws.ExactComparisonIs | src/expr/expr_eval.cpp:304-322 | each of the six operators on integers and decimals asks about the exact fractions |
| EvalLaws.ComparisonIs | src/expr/expr_eval.cpp:304-322 | doubles are compared as numbers, truth values with false below true; a comparison with NULL is NULL |
| EvalLaws.TextComparisonIs | src/expr/expr_eval.cpp:304-322 | each of the six operators on texts, padding left out, in terms of equality and dictionary order |
| EvalLaws.LogicIs | src/expr/expr_eval.cpp:325-350 | AND is the lesser and OR the greater of two truth values, unknown between false and true; other operands raise |
| EvalLaws.NotIs | src/expr/expr_eval.cpp:353-372 | NOT is the opposite truth value, unknown its own; IS NULL and IS NOT NULL never raise |
| EvalLaws.CallIs | src/expr/expr_eval.cpp:375-391 | a strict function of a NULL is NULL, any other call gets all arguments in order |
| EvalLaws.LeavesAre | src/expr/expr_eval.cpp:426-464 | a column is the row's value at its place; a constant is its value, but for a double that is not finite |
| EvalLaws.WhereKeeps | src/expr/expr_eval.cpp:546-558 | WHERE keeps a row exactly when its predicate is true there, and raises exactly when that raises or is no truth value |
| Folding.FoldSound | src/planner/const_fold.cpp:40-133 | for every expression, context and row: a folding error means an evaluation error; a value is kept up to a NULL's type in strong context, and up to its truth in weak context where the comparisons rewritten there are kept |
| Folding.WhereFolded | src/planner/const_fold.cpp:135-209 | a WHERE clause keeps the same rows |
| Folding.SelfCompareExact | src/planner/bool_simplify.cpp:169-190 | for every operator, pair and row the rewrite of a self-comparison keeps the truth if and only if the values of the sides make it so |
| Folding.ComparisonFoldedExact | src/planner/bool_simplify.cpp:169-190 | folding a comparison in weak context keeps its truth on a row exactly under that condition |
| ProperEval.EvalProper | src/expr/expr_eval.cpp:481-543 | finite rows and constants give finite values, through every operator, cast and function; what the values are is stated by the laws above |
| Folding.FoldProper | src/planner/const_fold.cpp:40-133 | folding keeps constants finite |
| FoldLaws.ClosedFolds | src/planner/const_fold.cpp:40-133 | an expression without columns folds to the constant of its value, in either context, and folding raises exactly when it has none |
| FoldLaws.FoldNormal | src/planner/const_fold.cpp:40-133 | folding leaves nothing to fold: no operator over constants only, no NULL operand, no constant side of AND and OR, no NOT that could be absorbed, in weak context no comparison of equal sides unless a double NOT has lifted it |
| FoldLaws.FoldShrinks | src/planner/const_fold.cpp:40-133 | folding never makes an expression larger |
| FoldLaws.FoldTwice | src/planner/const_fold.cpp:40-133 | folding changes nothing exactly where nothing is left to fold; so folding twice is folding once in strong context, and in weak context exactly where the first round leaves nothing |
| FoldLaws.DoubleNotLeaves | src/planner/const_fold.cpp:89-102 | a predicate under NOT NOT for which the second round still finds something |
| Folding.SimplifyLogicSame | src/planner/bool_simplify.cpp:116-139 | dropping a constant side gives the node's value |
| Folding.SimplifyNotSame | src/planner/bool_simplify.cpp:143-165 | absorbing a NOT gives the node's value |
| SelfComparison.EqualAndAgreeing | src/planner/bool_simplify.cpp:46-110 | structurally equal expressions are the same exactly when they agree on cast scales and zero signs |
| SelfComparison.AgreeingKept | src/planner/bool_simplify.cpp:169-190 | expressions that agree on cast scales, zero signs and strictness in all comparisons are kept on every row |
| SelfComparison.CastScalesMatter | src/planner/bool_simplify.cpp:102-106 | for two numeric casts of one column, any of the six operators and any precisions, the rewrite keeps the truth on all rows if and only if the precisions differ or the scales are equal |
| SelfComparison.NegativeZeroMatters | src/planner/bool_simplify.cpp:40-43 | an input on which ignoring the sign of zero turns false into true |
| Decimal.DecAlign | src/expr/expr_eval.cpp:45-54 | the loop scales up exactly, or raises when 39 digits are needed |
| Decimal.RoundIsNearest | src/expr/expr_eval.cpp:78-88 | rounding half away from zero is the one nearest value, ties away from zero |
| Decimal.ShiftNotNegative | src/expr/expr_eval.cpp:92-107 | at the scale the result rule picks, the shift of a division is never negative |
| Decimal.LongDivide | src/expr/expr_eval.cpp:58-88 | digit by digit with early exit: the rounded quotient, or an error exactly when it has 39 digits |
| Decimal.DecDiv | src/expr/expr_eval.cpp:58-88 | the loop computes the division whose value, scale and errors DecimalLaws.DivisionIs states on the fractions |
| DecimalLaws.DivisionIs | src/expr/expr_eval.cpp:58-107 | l / r at scale min(max of the scales + 4, 255) is the decimal nearest to the fraction, halves away from zero; it raises exactly for a zero divisor and where that decimal has 39 digits |
| DecimalLaws.SumIs | src/expr/expr_eval.cpp:92-133 | sums and differences are exact at the larger scale and raise exactly where an aligned operand or the result has 39 digits |
| DecimalLaws.ProductIs | src/expr/expr_eval.cpp:92-133 | products are exact and raise exactly where the scales add up to more than 255 or the result has 39 digits |
| Decimal.ArithmeticExact | src/expr/expr_eval.cpp:92-133 | sum, difference and product are exact and fit 38 digits |
| Decimal.CmpIsPreorder | src/expr/expr_eval.cpp:149-191 | comparison is a total preorder |
| Decimal.AlignDecides | src/expr/expr_eval.cpp:174-191 | at equal orders of magnitude the aligned magnitudes compare like the values and never reach 39 digits |
| Decimal.DecDigits | src/expr/expr_eval.cpp:136-145 | the number of digits |
| Decimal.DecCmp | src/expr/expr_eval.cpp:149-191 | the sign of the exact rational comparison, for all decimals |
| Decimal.RoundIsRounding | src/expr/expr_func_math.cpp:45-69 | the nearest multiple of 10^-n, halves away from zero |
| Decimal.RoundDec | src/expr/expr_func_math.cpp:45-69 | the code with its shortcuts computes that rounding for every digit count |
| DecimalLaws.RoundIs | src/expr/expr_func_math.cpp:45-69 | round(d, n) is the nearest multiple of 10^-n, halves away from zero, with n fraction digits or none; d itself if it has no more; an error exactly where the result has 39 digits |
| Decimal.FloorIsFloor | src/expr/expr_func_math.cpp:74-91 | floor is the largest integer not above, ceil the smallest not below |
| Decimal.TruncDec | src/expr/expr_func_math.cpp:74-91 | the code with its shortcut computes them |
| Decimal.ModIsRemainder | src/expr/expr_func_math.cpp:253-264 | the remainder is smaller than the divisor, has the dividend's sign, and differs from it by a multiple of the divisor |
| DecimalLaws.ModExists | src/expr/expr_func_math.cpp:253-264 | a remainder exists exactly for a divisor other than zero and operands that can be aligned |
| Decimal.DecRoundI64 | src/storage/cast.cpp:203-219 | rounding to a 64-bit integer, or an error outside its range |
| DecimalLaws.RoundI64Is | src/storage/cast.cpp:203-219 | the nearest integer, halves away from zero, refused exactly outside -(2^63 - 1) to 2^63 - 1 |
| Decimal.CoerceRoundsUnless | src/storage/cast.cpp:571-604 | the rounding of coerce_numeric is half away from zero exactly unless the sign is lost |
| Decimal.MinusHalfBecomesOne | src/storage/cast.cpp:571-604 | -0.5 as numeric(1, 0) becomes 1 |
| Decimal.CoerceIsRounding | src/storage/cast.cpp:571-604 | coercing is exact scaling or rounding followed by the precision test, if and only if the sign is not lost |
| Decimal.CoerceNumeric | src/storage/cast.cpp:571-604 | the code computes that coercion |
| DecimalLaws.CoerceIs | src/storage/cast.cpp:571-604 | numeric(p, s) holds the number with zeros added or the nearest one at scale s, and raises exactly where that needs more than p digits; the one exception are the numbers between -1 and -1/2 units of the last place, which become 1 |
| DecimalText.TextRoundTrip | src/storage/cast.cpp:473-567 | parsing the text of a decimal gives it back, scale and trailing zeros included |
| DecimalLiterals.ParseLiteral | src/storage/cast.cpp:473-545 | a text of sign, digits, point, fraction and exponent parses to what its parts mean: the mantissa times the power of ten, at the scale written; it raises exactly for 39 digits, an exponent over 1000 or a scale over 255 |
| DecimalLiterals.LiteralValue | src/storage/cast.cpp:473-545 | the decimal read is, as a fraction, the mantissa times ten to the exponent minus the fraction digits, with the sign |
| DecimalLiterals.ParsedIsLiteral | src/storage/cast.cpp:473-545 | no other text is read as a decimal |
| DecimalLiterals.ToTextIs | src/storage/cast.cpp:547-567 | the text written has a minus sign or none, no needless zero in front, as many fraction digits as the scale and no exponent |
| DecimalText.ParseDecimalText | src/storage/cast.cpp:473-545 | the cursor loops compute the parse, whose value and errors DecimalLiterals.ParseLiteral states; what is accepted has at most 38 digits and a scale up to 255 |
| DecimalWire.Negate | src/client/render.cpp:29-41 | complement and carry in place is negation modulo 2^128 |
| DecimalWire.DivideByTen | src/client/render.cpp:46-56 | one long division in place: quotient left, remainder returned |
| DecimalWire.DecCell | src/server/session.cpp:119-141 | the 16 bytes are the two's complement of the unscaled value |
| DecimalWire.CellText | src/client/render.cpp:25-75 | the client's text of any cell is the server's text of the decimal it stands for |
| DecimalWire.Shown | src/client/render.cpp:25-75 | the client shows decimal_to_text of what the server sent, and it parses back to it |
| RowCodec.BitmapBits | src/storage/codec.cpp:86-110 | the bitmap has exactly the bits of the NULL columns |
| RowCodec.FieldRoundTrip | src/storage/codec.cpp:242-382 | every kind of field reads back with its column's type and takes exactly its own bytes |
| RowCodec.RowRoundTrip | src/storage/codec.cpp:86-382 | a record decodes to the row stamped with the column types, if and only if its length fits 16 bits |
| RowCodec.NegateLE | src/storage/codec.cpp:209-226 | complement and carry in place is negation modulo 2^128 |
| RowCodec.EncodeRow | src/storage/codec.cpp:86-240 | the loop appends bitmap and fields, those of decimals negated in place, or refuses, which RowCodec.EncodeTakes says when |
| RowCodec.EncodeTakes | src/storage/codec.cpp:86-240 | a row is encoded exactly if there is a value for each column, none is NULL where the column is NOT NULL, and each other has its column's representation, range and length |
| RowCodec.EncodedLength | src/storage/codec.cpp:86-240 | the length of a record: header, a bit for each column, and the width of each value that is not NULL |
| RowCodec.DecodeRow | src/storage/codec.cpp:242-382 | the cursor loop reads the fields back, or refuses |
| HeapPage.AppendedIs | src/storage/page.cpp:129-148 | the bytes hold one record more in the next slot, and no other record changed |
| HeapPage.HeapAppend | src/storage/page.cpp:129-148 | succeeds exactly when record and slot fit, and returns the new slot |
| HeapPage.DeletedIs | src/storage/page.cpp:150-162 | a tombstone: the slot keeps its number, other records and the free space stay |
| HeapPage.HeapDelete | src/storage/page.cpp:156-162 | the in-place operation does that |
| HeapPage.HeapCompact | src/storage/page.cpp:164-186 | the overlapping moves keep the live records in order, drop the tombstones and free all other space |
| HeapPage.FreshHeapPage | src/storage/page.cpp:57-66 | a new page has no slots and room for the longest record |
| Catalog.PageBytesDoThis | src/storage/page.cpp:129-148 | the page values of the catalog model are what the page bytes hold |
| Catalog.AlwaysRoom | src/storage/engine.cpp:247-274 | a record of legal length always finds room, at worst on a new page |
| Catalog.EntryIsNew | src/catalog/catalog_dml.cpp:18-28 | the entry of a new row is in no index yet, which the tree's insert requires |
| Catalog.InsertKeeps | src/catalog/catalog_dml.cpp:13-30 | inserting a row keeps every index in step with the heap |
| Catalog.DeleteKeeps | src/catalog/catalog_dml.cpp:32-44 | so does deleting one, although no entry is removed |
| Catalog.UpdateKeeps | src/catalog/catalog_dml.cpp:46-68 | so does updating any number of rows |
| Catalog.CreateKeeps | src/storage/engine.cpp:469-489 | so does building an index |
| Catalog.RunKeeps | src/catalog/catalog_dml.cpp:13-77 | after every run of statements each live row has its entry in each index, and each entry at a live slot has that row's key |
| Catalog.OneEntryPerRow | src/catalog/catalog_dml.cpp:18-28 | a live row has no second entry in an index |
| Catalog.RunsAgree | src/planner/index_select.cpp:314-377 | after every run the agreement index selection relies on holds |
| Tables.Table.InsertRow | src/storage/engine.cpp:213-275 | the page loop appends to the last page or to a new one |
| Tables.Table.InsertValues | src/catalog/catalog_dml.cpp:13-30 | the row goes to the heap and its entry into the tree of every index, whose entries stay those of the model |
| Tables.Table.DeleteRow | src/storage/engine.cpp:349-363 | a tombstone and a count of 1, or 0 for a dead slot |
| Tables.Table.UpdateRows | src/catalog/catalog_dml.cpp:46-68 | each row is deleted and inserted again in order, an error when one is gone |
| Tables.Table.DeleteAllRows | src/storage/engine.cpp:368-392 | all slots are dead afterwards, and the count is that of the live rows |
| Tables.Table.BuildIndex | src/storage/engine.cpp:469-489 | a new tree with one entry for each row of a scan |
| Tables.Table.Execute | src/catalog/catalog_dml.cpp:13-77 | after every run of statements heap and trees are what the run on values says, and the trees are good |
| TableRows.InsertAddsRow | src/storage/engine.cpp:213-275 | inserting adds the row of the given values at a place never used before, and changes no other row |
| TableRows.DeleteTakesRow | src/storage/engine.cpp:349-363 | deleting takes away the row at the place only, and the count says whether there was one |
| TableRows.DeleteAllEmpties | src/storage/engine.cpp:368-392 | afterwards a scan returns nothing |
| TableRows.UpdateReplacesRows | src/catalog/catalog_dml.cpp:46-68 | updating rows of a scan replaces each by one row of its new values at a fresh place; the references are distinct and the other rows stay |
| StatementLaws.ColumnsHold | src/storage/codec.cpp:99-107 | after every run of statements every row holds in each column a value of its type, range and length, never NULL in a NOT NULL column |
| StatementLaws.InsertTakes | src/catalog/catalog_dml.cpp:13-30 | an insertion succeeds exactly if the row fits its columns and a page and its indexed columns have keys |
| StatementLaws.InsertStaysOnPage | src/storage/engine.cpp:213-275 | the row goes to the last page if it has room, otherwise to a new one |
| StatementLaws.DeleteTakes | src/storage/engine.cpp:349-363 | a deletion raises exactly for a page the table does not have, and counts 1 exactly for a live row |
| StatementLaws.UpdateTakes | src/catalog/catalog_dml.cpp:46-68 | an update of live rows succeeds exactly if no row is named twice and all new rows fit |
| StatementLaws.CreateTakes | src/storage/engine.cpp:469-489 | an index can be built exactly on an existing column whose values are NULL or have keys |

## Left out

- Power loss: reordering of data pages ahead of the log by the operating system, and fsync, are outside the crash model.
- BufferPool.Pool.Unpin: pin counts are unbounded here; the wrap-around of the 16-bit counter is not modelled.
- BufferPool.Pool.Read: the page check (magic number and checksum) is a parameter, and the stop on a damaged page is a result.
- Disk.AtWrite: the file manager's creation of an empty file when a missing one is read is not modelled.
- BTree.Index.Insert: requires 33 page numbers to be left of 2^32; the wrap-around of the page counter is not modelled. The
  frames of the buffer pool are presented as a map from page number to bytes; pins and the log are those of the engine model.
- Tables.Table.BuildIndex: requires 33 page numbers of 2^32 for each row, more than a build takes.
- Tables.Table.UpdateRows: requires 33 page numbers of 2^32 in every tree for each row, more than an update takes.
- Tables.Table.Execute: a statement that raises ends the claim; the state after its rollback is that of the engine model.
- Engine.StorageEngine.Allocate: requires that the new page has no other bytes in its file, as a fresh page number has.
- TableQuery.QueryTable: like FoldSound, for predicates whose rewritten comparisons are kept on the rows (`KeptOn`).
- Tables.Table.InsertRow: the row counter in the file header, the search for the last page of a file after a restart, and
  the order of pages in the chain (ascending numbers here) are not modelled; heap pages are values, which PageBytesDoThis
  ties to their bytes.
- Tables.Table.InsertValues: after a failed insertion the trees hold the entries made so far until the rollback.
- Folding.FoldSound: the type tag of a NULL matters only as that of a NULL, and booleans carry no type of their own.
- Decimal.CoerceNumeric: powers of ten are exact; above 10^77 the original's 256-bit integers wrap around, where the quotient
  is zero and nothing is rounded up either way.
- Catalog.Run: statements that raise are rolled back as a whole, which the storage theorems prove for pages.
- HeapPage.HeapCompact: only the original's own unit tests call it, so slots are never reused; it is proved as it stands.
- Error codes and messages: an exception is one outcome.
- Sessions, network protocol other than the decimal cell, parser, analyzer, plan nodes other than a filter over a sequential
  scan, sorting, projection, built-in functions other than the decimal ones, catalog metadata, EXPLAIN, configuration and logging.
