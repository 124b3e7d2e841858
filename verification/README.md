# MIO, verified

MIO puts byte-granular object I/O, hints and telemetry on top of Motr, a page-granular object
store. This project models the parts of MIO where that is hard and proves what they promise.

**Unaligned vectored I/O** (`src/driver_motr_obj.c`). A write sorts its ranges, cuts them into
page-aligned pieces, sends whole pages straight from the caller's memory and partial pages through
scratch pages that neighbouring ranges may share, reads those pages back first where the object has
bytes on them, and sends everything in batches. `Transfers` has byte buffers, IO vectors and the
three bulk transfers; memory is one byte sequence and an address is an index into it, so that two
ranges really share a scratch page. `Alignment` is the cut in a normal form (head, body, tail) with
the invariant every step keeps. `ObjRwArgs` is the driver's structure with its arrays and counters;
its methods follow the C functions branch by branch and are proved to compute the normal form, with
every array store in bounds. `WriteRefinement`, `ReadElision`, `ReadRefinement`, `Decomposition`
and `Carriers` prove what the plan is worth; `WriteChain` and `WriteOutcome` derive what a complete
write leaves behind.

**Chains of driver operations** (`src/mio.c`, `src/mio_driver.c`, `src/driver_motr.c`).
`ChainSteps` describes the states a chain passes through; `ObjIo` has the operation with its chain,
the post-processing steps, the polling loop and the release of the chain, and whole reads and
writes in the caller's terms, with failures. Which operations fail, with what code and after how
many of their own pieces, is given in advance (`MotrClient`), so that it can be said exactly when a
request fails.

**Copy and migration** (`examples/obj_io_poll.c`, `examples/obj.c`, `examples/mio_hsm.c`).
`ObjCopy` copies an object in chunks by way of the read and write theorems; `Migration` moves
objects between pools, each in four steps any of which may fail.

**Concurrent protocols** (`examples/mio_rw_threads.c`, `examples/mio_rw_lock.c`). `Pipeline` and
`LockOrder` are transition systems over any number of threads and any interleaving. A critical
section is one step, taking the mutex another; signalled and unsignalled waiting are told apart and
spurious wakeups are steps of their own. `Outcomes` says what becomes of every object by the
outcomes of its I/O, `Liveness` is about infinite fair runs of `Pipeline`, and `LockReports` reads
the reports of the lock test off the steps of a run.

**Smaller components.** `Addb` packs and unpacks telemetry records, `Hints` is the hint map and its
wire form, `Hotness` maps hotness to a pool, `BlockSizes` fills the table of block sizes. `Words`
and `Paging` hold what they share.

## Where the code differs from its documentation

The model follows the code in each case.

- The pages to read back are read in batches. Only the first batch is launched as a READ
  (`src/driver_motr_obj.c:1255-1270`); `motr_obj_read_before_write_pp` launches the others as
  WRITEs (1176-1181), although the comment at 1306-1312 says they are read back. They store zeroed
  scratch pages. `ChainOutcome` says exactly what that does to the store, `SafeExactlyWhen` when it
  does no harm, `FewPagesAreSafe` gives a bound a caller can check, and `LossExample` is a lost byte.
- The scan that drops needless reads stops at the first page whose first byte is not overwritten
  (1225-1226), not merely skipping that page; `Elide` does the same. A page whose read is dropped
  stays in the list with length 0 and is still sent (1241-1248).
- The size one operation may move need not be a multiple of the page size (374-377). If it is not,
  runs longer than it are cut off the page grid: `CutsStayAligned`. What is proved of the driver's
  arrays, `ObjRwArgs` and `EstimatesSuffice`, holds regardless; the other theorems assume it is.
- A read goes on when its ranges overlap, because the result of the check is not looked at
  (1373). It still delivers every byte: `AlignedReadGathers` needs disjoint buffers only.
- `rwa_max_eow` is read after its structure is released (1144-1149). The model reads it first.
- `motr_addb_rec_len` is one byte short for arrays with a prefix: `LengthSufficesExactlyWhen`.
- All objects are moved by way of the same temporary object (`examples/mio_hsm.c:91-95`). When a move
  has failed on the way back, the temporary object is the only copy, and the next move of another
  object destroys it: `MoveAfterFailedMove`. `MoveOne` says exactly when a move loses nothing.
- A wire form of the wrong length is refused only after the key count of the handle has been set
  (1531-1538): `Wire2Mem`, `LoadTooLong`.
- For an empty object `mio_cmd_obj_copy` counts blocks from a size of 2^64 - 1
  (`examples/obj_io_poll.c:256`): `BlockCountExactlyWhen`.
- The default thresholds select pool index -1 with 15 pools: `DefaultsFailAtFifteen`.

## Model

| member | source | states |
|---|---|---|
| Transfers.WriteBatches | src/driver_motr_obj.c:1102-1121 | sending a vector in batches writes what sending it at once writes |
| Transfers.ReadBatches | src/driver_motr_obj.c:1102-1121 | the same for reads |
| Alignment.PartialInv | src/driver_motr_obj.c:578-647 | adding part of a page keeps the plan's invariant: aligned disjoint pieces in order, scratch pages allocated upwards, copies in page order and inside their page, pages to read back distinct and below the size |
| Alignment.CloneInv | src/driver_motr_obj.c:650-686 | adding a run of whole pages keeps it |
| Alignment.RangeInv | src/driver_motr_obj.c:689-884 | adding any byte range keeps it, on every split path |
| Alignment.SharedIsScratch | src/driver_motr_obj.c:600-606 | when a range starts on the page of the last piece, that piece is a scratch page and never caller memory |
| Alignment.AlignInv | src/driver_motr_obj.c:887-941 | the invariant holds of the plan for every sorted vector of disjoint ranges |
| Decomposition.AlignedDecomposition | src/driver_motr_obj.c:577-941 | the pieces of a sorted disjoint vector are in order, disjoint, aligned in offset and length, none larger than one operation, and cover exactly the pages a range touches |
| Decomposition.TouchesIsSharingAPage | src/driver_motr_obj.c:577-647 | a byte is touched exactly when its page holds a byte of the range |
| Decomposition.EstimatesSuffice | src/driver_motr_obj.c:381-405 | the counts estimated up front bound all four lists for every vector, every page size and every largest transfer above 0 |
| Decomposition.PiecesNoneLarger | src/driver_motr_obj.c:577-941 | no piece of any vector, ordered or not, is larger than one operation may move |
| Decomposition.ChunkCount | src/driver_motr_obj.c:650-686 | a run of whole pages makes as many pieces as its length divided by the largest transfer, rounded up |
| Decomposition.EstimateOfPermutation | src/driver_motr_obj.c:381-405 | the estimate made before sorting is that for the sorted vector |
| Decomposition.CutsStayAligned | src/driver_motr_obj.c:374-377 | the cuts of a run stay on the page grid exactly when it fits one operation or the largest transfer is a multiple of the page size |
| Decomposition.CutOffTheGrid | src/driver_motr_obj.c:650-686 | two pages of 4 bytes with a largest transfer of 6: a run for which they do not |
| Carriers.CarriedAsAsked | src/driver_motr_obj.c:577-941 | every byte is carried by as many direct pieces and data copies as ranges ask for it |
| Carriers.CarriedExactlyOnce | src/driver_motr_obj.c:577-941 | for disjoint ranges every requested byte is carried by exactly one direct piece or exactly one data copy, and no other byte is carried |
| WriteRefinement.PartialWrites | src/driver_motr_obj.c:578-647 | a partial page, on a scratch page of its own or a shared one, changes the final store by exactly its own bytes |
| WriteRefinement.CloneWrites | src/driver_motr_obj.c:650-686 | a run of whole pages changes the final store by exactly its own bytes |
| WriteRefinement.RangeWrites | src/driver_motr_obj.c:689-884 | so does any byte range |
| WriteRefinement.AlignedWriteIsScatter | src/driver_motr_obj.c:482-957 | reading back, overlaying and writing the plan of a sorted disjoint vector is the naive write of its ranges |
| ReadElision.ElisionSound | src/driver_motr_obj.c:1189-1252 | dropping the reads of pages that copies cover completely leaves the memory to be written unchanged |
| ReadElision.AlignScanReady | src/driver_motr_obj.c:1189-1252 | the order of copies and pages the scan relies on holds of every plan, and every page to read has a copy into it |
| ReadElision.FirstCopyDecides | src/driver_motr_obj.c:1218-1226 | the first copy into a page tells whether the page's first byte is overwritten |
| ReadElision.RunEnds | src/driver_motr_obj.c:1228-1238 | when the run of adjoining copies falls short of the page, the page is not covered |
| ReadRefinement.PageThere | src/driver_motr_obj.c:600-614 | the page a partial read needs is in memory: in a new scratch page, or wherever the last piece reads it to, a caller's buffer included |
| ReadRefinement.PartialReads | src/driver_motr_obj.c:578-647 | a partial page delivers exactly its own bytes to its buffer and uses no other caller memory |
| ReadRefinement.RangeReads | src/driver_motr_obj.c:689-884 | so does any byte range, in whatever order and overlapping what came before |
| ReadRefinement.CarriedArrives | src/driver_motr_obj.c:1333-1346 | bytes carried by a piece or a copy have arrived when all pieces are read and all copies made |
| ReadRefinement.AlignedReadGathers | src/driver_motr_obj.c:577-957 | for any vector with disjoint buffers, its ranges in any order and overlapping or not, a complete read leaves in every buffer the bytes of its range and changes no other caller memory |
| ReadRefinement.GatheredByPermutation | src/driver_motr_obj.c:482-529 | the order the ranges were listed in makes no difference to what was read |
| WriteChain.BatchIsGreedy | src/driver_motr_obj.c:1109-1116 | a batch fits one operation and one more entry would not |
| WriteChain.LateBatchesWriteZeros | src/driver_motr_obj.c:1176-1181 | the read-back batches after the first store zeros on exactly their pages |
| WriteChain.ReadingAfterDamage | src/driver_motr_obj.c:1171-1181 | what is read back is what a full read of the store so damaged would give |
| WriteChain.ChainOutcome | src/driver_motr_obj.c:1127-1187 | the store after a complete write: the naive write, over the store with the pages of late batches zeroed |
| WriteOutcome.OutcomeScatters | src/driver_motr_obj.c:1284-1331 | the same, byte by byte: every range's bytes arrive, and every other byte is that of the old store unless a late batch covers it |
| WriteOutcome.ScatteredIsUnique | src/driver_motr_obj.c:1284-1331 | that description determines the store |
| WriteOutcome.ScatteredByPermutation | src/driver_motr_obj.c:482-529 | the order the ranges were listed in makes no difference to what was written |
| WriteOutcome.MaxEndIsMax | src/driver_motr_obj.c:531-551 | the recorded end of the write is the largest end of any range |
| WriteOutcome.MaxEndOfPermutation | src/driver_motr_obj.c:531-551 | and the same for the vector as given |
| WriteOutcome.ZeroPastNewSize | src/driver_motr_obj.c:1142-1152 | after a complete write all bytes at or past the new size are zero again |
| WriteOutcome.IntactExactlyWhen | src/driver_motr_obj.c:1171-1181 | for one store, the write is the one asked for exactly when every byte late batches cover and the write does not was zero |
| WriteOutcome.SafeExactlyWhen | src/driver_motr_obj.c:1171-1181 | for all stores of a size, exactly when no byte of the object outside the ranges is on a late page |
| WriteOutcome.FewPagesAreSafe | src/driver_motr_obj.c:1171-1181 | there are no late batches when two pages for every range fit one operation |
| WriteOutcome.LossExample | src/driver_motr_obj.c:1171-1181 | two one-byte writes after which an untouched byte of the object is gone |
| ObjRwArgs.OverlapCheckExact | src/driver_motr_obj.c:531-551 | for ranges that are not empty, comparing neighbours in the sorted vector accepts exactly the vectors no two ranges of which overlap |
| ObjRwArgs.EstimateIovcnts | src/driver_motr_obj.c:381-405 | the loop computes the estimates |
| ObjRwArgs.RwArgs.constructor | src/driver_motr_obj.c:423-480 | fresh arrays of the estimated lengths and an empty plan |
| ObjRwArgs.RwArgs.ScratchPage | src/driver_motr_obj.c:561-614 | the previous piece's page when the range starts on it, or a new zeroed page with its piece |
| ObjRwArgs.RwArgs.PartialPage | src/driver_motr_obj.c:577-647 | the arrays grow by exactly one partial page of the normal form |
| ObjRwArgs.RwArgs.Clone | src/driver_motr_obj.c:649-686 | the arrays grow by the pieces of a run, or -EINVAL off the page grid |
| ObjRwArgs.RwArgs.Split3 | src/driver_motr_obj.c:688-745 | for a range over three pages or more, the range is added; -EINVAL and nothing otherwise |
| ObjRwArgs.RwArgs.Split2 | src/driver_motr_obj.c:746-806 | for a range over two pages, or from a page start, the range is added |
| ObjRwArgs.RwArgs.AdjustNonalignedOff | src/driver_motr_obj.c:808-850 | the range is added, for every unaligned offset and length, including 0 |
| ObjRwArgs.RwArgs.AdjustAlignedOff | src/driver_motr_obj.c:852-878 | the range is added, for every aligned offset and unaligned length |
| ObjRwArgs.RwArgs.Adjust | src/driver_motr_obj.c:887-941 | the arrays hold the plan of the sorted vector; no array is overrun; memory only grew by zeroed pages |
| ObjRwArgs.RwArgs.SelectionSort | src/driver_motr_obj.c:482-529 | in place: a permutation, ordered by offset |
| ObjRwArgs.RwArgs.CheckOverlap | src/driver_motr_obj.c:531-551 | -EINVAL exactly when neighbours overlap; otherwise a write's largest end is recorded |
| ObjRwArgs.RwArgs.Sort | src/driver_motr_obj.c:482-551 | both, with the largest end over the vector as given |
| ObjRwArgs.RwArgs.DataCopy | src/driver_motr_obj.c:943-957 | memory after all copies, one after the other |
| ObjRwArgs.RwArgs.RunLength | src/driver_motr_obj.c:1228-1248 | the scanned length is a page exactly when copies cover the whole page |
| ObjRwArgs.RwArgs.ScanPage | src/driver_motr_obj.c:1214-1250 | the cursor finds the page's first copy; the page is dropped exactly when covered; the scan goes on exactly when its first byte is overwritten |
| ObjRwArgs.RwArgs.ReadBeforeWriteOptimise | src/driver_motr_obj.c:1196-1252 | the list of pages to read afterwards, entry by entry |
| ChainSteps.HeadCarriedOut | src/driver_motr_obj.c:1127-1187 | whatever operation is at the head, carrying it out gives the state its post-processing step expects |
| ChainSteps.ReadsLaunched | src/driver_motr_obj.c:1171-1181 | launching the next pages to read back advances the cursor, keeps every batch within one operation, and the batches so far are the list up to the cursor |
| ChainSteps.PiecesLaunched | src/driver_motr_obj.c:1092-1125 | the same for pieces, reading or writing |
| ChainSteps.PutSizeLaunched | src/driver_motr_obj.c:1142-1152 | after the last piece the size is raised and its record put, when the write went past the size |
| ChainSteps.GathersEnd | src/driver_motr_obj.c:1341-1346 | the data copies after the last piece deliver what was asked for |
| ChainSteps.HeadCoversTouched | src/driver_motr_obj.c:1092-1187 | no operation of a writing chain covers a byte outside the pages the ranges touch |
| ChainSteps.HeadMissesSpared | src/driver_motr_obj.c:1092-1187 | a driver operation that reads stores only into scratch pages or, reading for the caller, into the caller's buffers |
| ChainSteps.StaysUnharmed | src/driver_motr_obj.c:1092-1187 | so whatever part of an operation was carried out, pages the ranges do not touch are as before, and so is the caller's memory, but for the buffers of a read |
| ObjIo.MotrObject.constructor | src/driver_motr_obj.c:146-187 | a new object is empty, of size 0 |
| ObjIo.PiecesExactlyWhen | src/driver_motr_obj.c:887-941 | there is something to send exactly when some range has bytes in it |
| ObjIo.MioOp.DriverOpAdd | src/mio_driver.c:26-66 | the operation becomes the head of the chain and is accounted for as live |
| ObjIo.MioOp.RwAligned | src/driver_motr_obj.c:1092-1125 | launches the largest batch that fits from the cursor on and moves the cursor past it, or -E2BIG and nothing |
| ObjIo.MioOp.SortAndAdjust | src/driver_motr_obj.c:1284-1304 | the plan for the sorted vector is in the arrays; -EINVAL for a write whose ranges overlap; a read goes on |
| ObjIo.MioOp.CopyAndWrite | src/driver_motr_obj.c:1166-1175 | the data copies are made and the first pieces launched |
| ObjIo.MioOp.WritePostProc | src/driver_motr_obj.c:1127-1157 | launches the next pieces, or the size record, getting closer to the end, or the request is finished |
| ObjIo.MioOp.ReadBeforeWritePostProc | src/driver_motr_obj.c:1159-1187 | launches the next pages or the first pieces, getting closer to the end; never fails |
| ObjIo.MioOp.ReadPostProc | src/driver_motr_obj.c:1333-1359 | launches the next pieces, or delivers the data and the request is finished |
| ObjIo.MioOp.AttrsPostProc | src/driver_motr_obj.c:1661-1673 | the request is finished |
| ObjIo.MioOp.ReadBeforeWrite | src/driver_motr_obj.c:1254-1270 | the reads are thinned out and the first batch launched as a READ |
| ObjIo.MioOp.Writev | src/driver_motr_obj.c:1284-1331 | -EINVAL exactly for overlapping ranges, else -E2BIG exactly when no range has bytes in it, else a chain with its first operation launched |
| ObjIo.MioOp.Readv | src/driver_motr_obj.c:1361-1397 | -E2BIG exactly when no range has bytes in it, else the first batch launched, for any ranges and buffers; for disjoint buffers the chain is then on its way to a complete read |
| ObjIo.MioOp.Wait | src/driver_motr.c:313-340 | the operation at the head is carried out, or fails with the code given for it, having changed nothing but its own pieces; a read never changes the object |
| ObjIo.MioOp.Poll | src/mio.c:101-165 | polling terminates; it fails exactly when a driver operation does, with that one's code and none after it; on success every operation of the chain was post-processed once in launch order and the request is finished; on failure untouched pages are as before |
| ObjIo.MioOp.Fini | src/driver_motr.c:294-311 | every operation of the chain is released exactly once, head first, and none is left live |
| ObjIo.WriteInCallersTerms | src/driver_motr_obj.c:1284-1331 | a finished write in terms of the ranges and memory as given: the exact store, the naive write when two pages for every range fit one operation, and the new size, stored as well |
| ObjIo.ReadInCallersTerms | src/driver_motr_obj.c:1361-1397 | a finished read in terms of the ranges and memory as given |
| ObjIo.ApartSortsApart | src/driver_motr_obj.c:531-551 | ranges that do not overlap and are not empty are apart in whichever order of offset |
| ObjIo.ObjWrite | examples/obj_io_poll.c:75-94 | a whole write with polling and release: -EINVAL for overlapping and -E2BIG for empty ranges, and otherwise 0 exactly when no driver operation fails, or the code of the one that does; exact outcome on success; untouched pages and the caller's memory kept even on failure |
| ObjIo.ObjRead | examples/obj_io_poll.c:96-115 | a whole read of any ranges into disjoint buffers: -E2BIG for empty ranges, and otherwise 0 exactly when no driver operation fails, or the code of the one that does; every buffer has its bytes on success; the object and memory outside the buffers are never changed, even on failure |
| ObjCopy.AllocIovecs | examples/obj.c:23-54 | blocks side by side in the object and in a new buffer, the last one cut off at the end |
| ObjCopy.ChunkCovers | examples/obj.c:39-47 | the blocks of a chunk tile it exactly |
| ObjCopy.ChunkApart | examples/obj.c:39-47 | they are not empty, and do not overlap in the object or in the buffer |
| ObjCopy.LateAfterStart | src/driver_motr_obj.c:1171-1181 | pages of late read-back batches lie past the start of the write |
| ObjCopy.ChunkExtends | examples/obj_io_poll.c:271-287 | a chunk read and written extends the agreement of the two objects to its end, although it starts and ends inside pages |
| ObjCopy.ChunkTouches | examples/obj_io_poll.c:271-287 | a chunk touches nothing past the page it ends in |
| ObjCopy.CopyChunk | examples/obj_io_poll.c:262-290 | one pass of the loop: it fails exactly when a driver operation does; the source is never changed, nor is the target past the page the chunk ends in |
| ObjCopy.BlockCountExactlyWhen | examples/obj_io_poll.c:256 | the number of blocks, computed in 64 bits, is the size divided by the block size, rounded up, exactly when the object is not empty or blocks have one byte |
| ObjCopy.CopyObject | examples/obj_io_poll.c:237-298 | it fails exactly when a driver operation does, with that one's code; on success the target's bytes up to the source's size equal the source's, and its size is the larger of the two; the source is never changed, nor is the target past the page the source ends in, even on failure |
| Migration.OidsAre | examples/mio_hsm.c:85-95 | objects are numbered upwards in the first word of the id, and the temporary object is 0x1000 higher in the second |
| Migration.Cluster.PoolFor | src/mio.c:307-369 | with hotness 0 the default pool; otherwise pool 0 for hot objects, the last pool for cold ones, and for warm ones the pool as many intervals up as their hotness lies above the cold threshold; the pool exists |
| Migration.Cluster.OpenOrCreate | examples/obj.c:285-295 | an existing object is left as it is, a missing one created empty in the given pool; it fails exactly when opening or creating does |
| Migration.Cluster.Unlink | examples/obj.c:297-309 | it fails exactly when the object is missing or an operation fails; the object is gone exactly when opening it and deleting its data succeeded, even if deleting its attributes failed; no other object changes |
| Migration.Cluster.CopyCmd | examples/obj_io_poll.c:237-298 | it fails exactly when the source is missing or an operation fails; the target starts with the source's content; nothing but the target changes, even on failure |
| Migration.Cluster.MoveOut | examples/mio_hsm.c:269-280 | after each of the first two steps, or their failure, one of the two objects starts with the full content |
| Migration.Cluster.MoveBack | examples/mio_hsm.c:282-290 | the same for the last two steps |
| Migration.Cluster.MoveOne | examples/mio_hsm.c:247-291 | whatever fails, the content is in one of the two objects; it fails exactly when the object is missing or an operation fails, but for the one that asks for the pool; it moves exactly when the object is not in the pool its hotness selects, or asking fails; after a move only the original exists, in that pool, written out, or the default pool for hotness 0, with its size unless a larger temporary object was in the way; all content is kept exactly when there was no temporary object before |
| Migration.Cluster.MoveObjs | examples/mio_hsm.c:293-314 | when there is no temporary object at the start, a whole series of moves loses no content wherever it fails: every object holds what it held, except the one whose move failed, which is in one of two places; it succeeds when all objects of the range exist and no operation fails, and then every one is in its pool; -EINVAL and nothing for a range past the end |
| Migration.Cluster.MoveAfterFailedMove | examples/mio_hsm.c:91-95 | when the only copy of an object is the temporary object, the next move of another one that succeeds leaves neither |
| Pipeline.NoneWaits | examples/mio_rw_threads.c:167-176 | after a broadcast no reader waits unsignalled |
| Pipeline.BroadcastSum | examples/mio_rw_threads.c:167-176 | a broadcast moves no object and costs every reader at most two steps |
| Pipeline.WritersConserve | examples/mio_rw_threads.c:136-180 | no step of a writer loses or duplicates an object |
| Pipeline.ReadersConserve | examples/mio_rw_threads.c:182-253 | nor does a step of a reader |
| Pipeline.KeepsLocked | examples/mio_rw_threads.c:136-253 | a mutex is held by exactly the thread inside its critical section |
| Pipeline.KeepsNoneForgotten | examples/mio_rw_threads.c:201-215 | no wakeup is lost: while a reader waits unsignalled there is nothing to read, and when all is accounted for another reader is bound to broadcast |
| Pipeline.Total | examples/mio_rw_threads.c:38-48 | on the write list, being written, on the read list, being read, done and failed add up to the objects to do |
| Pipeline.ReachableInv | examples/mio_rw_threads.c:136-253 | in every reachable state: conservation, counters equal to list lengths, matched at most done, readers leave only when all is accounted for, writers only when there is nothing to write, no lost wakeup |
| Pipeline.OnePlaceEach | examples/mio_rw_threads.c:136-253 | in every reachable state every object is in exactly one place |
| Pipeline.HandedOutInOrder | examples/mio_rw_threads.c:144-155 | objects are handed out to writers in the order of the list |
| Outcomes.EveryOutcome | examples/mio_rw_threads.c:136-253 | in every run, for every object: as often as it was written successfully it is on the read list, in a reader's hands, or read; as often as it was read successfully it is done or about to be; as often as one of these failed it is failed or about to be; and readers count as matched what they read with the same digest |
| Outcomes.OnlyByOutcome | examples/mio_rw_threads.c:136-253 | an object is to be read only if its write succeeded, done only if its write and its read did, failed only if one of them failed |
| Outcomes.AtTheEnd | examples/mio_rw_threads.c:136-253 | when all threads have exited, each of these exactly when |
| Outcomes.EachOnce | examples/mio_rw_threads.c:136-253 | by then every object was written once, and read once if that succeeded |
| Outcomes.AllDone | examples/mio_rw_threads.c:136-253 | when all I/O succeeds and reads what was written, all objects end up done and matched, and none failed |
| Pipeline.DeadlockExactlyWhen | examples/mio_rw_threads.c:136-253 | threads can get stuck unfinished exactly when there are objects and readers but no writer |
| Pipeline.RunsEnd | examples/mio_rw_threads.c:136-253 | every run is at most as long as the effort left at its start plus three steps for every spurious wakeup |
| Pipeline.EveryRunEnds | examples/mio_rw_threads.c:136-253 | with a writer, or nothing to write, or no reader, a run without spurious wakeups that cannot go on has all threads exited, and took no more steps than the effort at its start |
| Liveness.FairRunsExit | examples/mio_rw_threads.c:136-253 | in a fair run, with any number of spurious wakeups, all threads exit exactly when there is a writer, or nothing to write, or no reader |
| Liveness.Settles | examples/mio_rw_threads.c:136-253 | from some point of a run on, readers only wake up and wait again |
| Liveness.LockGetsFree | examples/mio_rw_threads.c:136-253 | in a fair run the lock of the read list gets free again and again |
| Pipeline.AllAccountedAtTheEnd | examples/mio_rw_threads.c:182-253 | when all threads have exited every object is done or failed and both lists are empty |
| LockOrder.KeepsExclusive | examples/mio_rw_lock.c:114-186 | the object lock is held by exactly the thread between lock and unlock |
| LockOrder.KeepsDigest | examples/mio_rw_lock.c:82-186 | the last finished slot has the digest of what is in the object, and a successful read the digest of the slot before it |
| LockOrder.NoFalseMismatch | examples/mio_rw_lock.c:82-186 | in every interleaving slots are handed out once each in object-lock order, never past the last one, and no reader whose own and preceding I/O succeeded reports a mismatch |
| LockReports.Reports | examples/mio_rw_lock.c:82-186 | in every interleaving, from the steps alone: the object holds what was written last; every I/O has the slot of its turn, with its thread's role, its outcome and, if it succeeded, the digest of what is in the object when it ends; a reader that has printed says whether that is the digest in the slot before |
| LockReports.DigestsOfWrites | examples/mio_rw_lock.c:114-186 | a successful write reports the digest of what it wrote, a successful read that of what was written last before it |
| LockReports.NeverStuck | examples/mio_rw_lock.c:114-186 | every thread takes at most six steps, and until all have exited some thread can take one that succeeds |
| LockOrder.DigestsStay | examples/mio_rw_lock.c:82-112 | the digest a reader compares with does not change any more |
| LockOrder.InitInv | examples/mio_rw_lock.c:233-272 | the invariant holds once the main thread has written the object |
| Addb.LengthSufficesExactlyWhen | src/driver_motr_addb.c:116-140 | the length computed up front suffices exactly when the record is not an array with a prefix that would fill the last 8 bytes; there one more byte is needed |
| Addb.PackedLayout | src/driver_motr_addb.c:310-458 | the packed form byte by byte: magic number, prefix sign, strings after their lengths, type, and the value in 2, 4 or 8 bytes an element |
| Addb.OneByteShort | src/driver_motr_addb.c:116-140 | such a record: 17 bytes for which 16 are counted |
| Addb.RoundTripExactlyWhen | src/driver_motr_addb.c:398-525 | unpacking a packed record with any padding gives it back exactly when its strings have 1 to 119 bytes |
| Addb.EmptyTopicIsLost | src/driver_motr_addb.c:219-237 | a record with an empty topic comes back with none |
| Addb.GetStringOf | src/driver_motr_addb.c:219-237 | a packed string is taken back exactly when it has 1 to 119 bytes |
| Addb.AddString | src/driver_motr_addb.c:351-360 | the buffer is extended by the packed string |
| Addb.AddValue | src/driver_motr_addb.c:310-395 | the buffer is extended by the packed value; -EINVAL for an array of no or too many elements |
| Addb.Encode | src/driver_motr_addb.c:397-458 | the record, padded with zeros to a multiple of 8 bytes; -EINVAL exactly for types and counts that cannot be packed |
| Addb.TakeString | src/driver_motr_addb.c:219-237 | the cursor moves past exactly the string |
| Addb.TakeValue | src/driver_motr_addb.c:176-275 | the value of the given type, or -EINVAL for an unknown type |
| Addb.Decode | src/driver_motr_addb.c:470-525 | the record in the buffer, or -EINVAL for a wrong magic number or type |
| Words.LeRoundTrip | src/driver_motr_addb.c:149-174 | a word that fits its width survives its little-endian form |
| Words.ByteOf | src/driver_motr_addb.c:149-174 | byte i of a word is its quotient by 256^i, modulo 256 |
| Words.BytesRoundTrip | src/driver_motr_addb.c:149-174 | any bytes are those of the word they stand for |
| Words.GetWordsOf | src/driver_motr_addb.c:202-211 | so do the elements of an array |
| Words.Cursor.PutAll | src/driver_motr_addb.c:335-346 | the elements are appended one by one |
| Words.Cursor.GetAll | src/driver_motr_addb.c:202-211 | the elements are taken one by one |
| Hints.HintMap.Init | src/hints.c:56-79 | an empty map of the given capacity |
| Hints.HintMap.Set | src/hints.c:138-156 | the key is set, or -EINVAL and nothing changed exactly when it is new and the map full |
| Hints.HintMap.Get | src/hints.c:158-172 | the value set for the key, or -ENOENT |
| Hints.HintMap.CopyFrom | src/hints.c:89-136 | the two maps merged, the copied one winning, or -E2BIG and nothing changed exactly when that is more than fits; keys stay distinct |
| Hints.HintStore | src/hints.c:233-273 | the lifetime and hotness hints of the handle, with their values, and no others |
| Hints.WireRoundTrip | src/driver_motr_obj.c:1465-1553 | decoding the wire form gives back attributes, keys and values |
| Hints.WireLayout | src/driver_motr_obj.c:1465-1510 | the attributes in 8 bytes each, the count in 4, the keys in 4 each and the values in 8 each |
| Hints.TwosComplement | src/driver_motr_obj.c:1484-1500 | a key, as an int, is its two's complement on the wire |
| Hints.Mem2Wire | src/driver_motr_obj.c:1465-1510 | the buffer holds the wire form |
| Hints.LoadedExactlyWhen | src/driver_motr_obj.c:1525-1538 | a wire form is decoded exactly when it announces no hints, or 1 to 32 and has exactly the length of that many |
| Hints.Wire2Mem | src/driver_motr_obj.c:1512-1553 | the decoded hints, or -EIO with the arrays unchanged but the key count set, unless the count itself is out of range |
| Hints.LoadTooLong | src/driver_motr_obj.c:1531-1538 | a wire form of two hints or more with bytes after it leaves a fresh handle with keys that are not distinct |
| Hints.StoreAndLoad | src/hints.c:233-280 | storing a handle's hints and loading them into a fresh one gives exactly its lifetime and hotness hints, with their values, and the same size and statistics |
| Hotness.InRangeExactlyWhen | src/hints.c:467-519 | with the code's integer widths, the index is in range for every hotness exactly when the warm interval is not 0 and the warm range has no more intervals than warm pools |
| Hotness.PoolIdxBelongs | src/hints.c:467-519 | the index is 0 above the hot threshold, the last below the cold one, and in between the one before the last less the quotient of the distance to the cold threshold by the interval, with the interval's truncation written out |
| Hotness.FitsExactlyWhen | src/hints.c:503-512 | that is: exactly when the remainder of the distance of the thresholds by the number of warm pools is below the quotient |
| Hotness.HotterIsFaster | src/hints.c:467-519 | then a hotter object never gets a higher index, across cold, warm and hot |
| Hotness.DefaultsFailAtFifteen | src/hints.c:462-519 | the default thresholds give index -1 with 15 pools and are fine with fewer |
| BlockSizes.Fill | src/driver_motr.c:455-458 | the loop stores all multiples of the step below the maximum and terminates within the table |
| BlockSizes.RoundUpIsLeast | src/driver_motr.c:437-453 | rounding up gives the least multiple of the group size |
| BlockSizes.OptBlkSizes | src/driver_motr.c:430-458 | the maximum is the least multiple of the group size at or above twice the width of the pool in data units, the first entry the least multiple of the group size at or above the maximum divided by as many groups as it has, or 16; the others are its multiples below the maximum, at most 15 in all |
| BlockSizes.Spacing | src/driver_motr.c:448-453 | the step is a whole number of groups and at most 16 of them reach the maximum |

## Left out

- Motr itself: its operations are whole transfers or failures given in advance, its objects zero-filled byte stores of a fixed capacity, its metadata a size record. Pool versions, layouts and networking are not part of this model.
- Offsets and lengths are unbounded numbers: the model assumes that no range wraps around 64 bits, and every range must end within the store.
- ObjIo.MioOp.Readv: does not say what ends up in buffers that overlap each other.
- ObjIo.MioOp.Poll: polls one operation without a time limit, as every caller in the repository does. With several operations the count and finished ones are not reset between passes.
- ObjIo.MioOp.Fini: models the release of driver operations, not of their buffers, nor of the read/write arguments, which a failed chain never releases.
- ObjIo.MioOp.Writev: allocation always succeeds, with zeroed memory, and scratch pages are never reused.
- Decomposition.CutsStayAligned: shows what happens when the largest transfer is no multiple of the page size; the theorems about whole reads and writes assume that it is, those about the read/write arguments and their arrays do not.
- Addb.Encode: requires that the computed length suffices; for the records it does not suffice for, the code writes one byte more than it allocated.
- Addb.Decode: requires a buffer that holds the record it announces; the code has no length to check against. The time string beside the record is not modelled.
- Hints.HintMap.CopyFrom: requires two different maps with arrays of their own.
- ObjCopy.CopyObject: starts with both objects open and a source for which the block count is right, so not an empty one unless blocks have one byte; otherwise lengths wrap around.
- Migration.Cluster.CopyCmd: the same for its source.
- Migration.Cluster.OpenOrCreate: a failed creation leaves nothing behind; when opening an object fails for another reason than its absence, the code is -EIO.
- Migration.Cluster.MoveOne: the same for the object; its hotness, which the code counts from its accesses, is a parameter.
- Migration.Cluster.MoveObjs: the same for all objects.
- Migration.Cluster.PoolFor: pool selection by a performance hint is not modelled; moving an object gives only the hotness hint.
- Pipeline: writing, reading and removing an object are one step with an outcome; object creation and digests are inside it.
- LockOrder: the shared area is one value and MD5 any function of it; failing to open or to lock is a step to the end of the thread.
- Callback mode (`examples/obj_io_cbs.c`), configuration, logging, command lines, permissions and printing.
- Key-value sets and composite objects: thin marshalling around Motr operations.
- Telemetry log text and the loading of ADDB dumps: the first parses past the end of its buffer, the second depends on another tool's output.
