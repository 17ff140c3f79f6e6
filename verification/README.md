# Models and proofs for the budabackend host code

This project states, as Dafny programs, what some of the host-side code of the backend
and its debugger computes, and proves it. Code that updates something step by step is a
method or a class here too, proved against a specification; protocols between threads
are state machines whose steps may interleave in any order. Nothing is executed.

The models, one module per file (`Basics` holds what several of them share):

- **Convolution prestride** (`common/io_lib.cpp`): `Padding` (row-by-row zero padding),
  `Shuffle` (the scatter with its running channel offset and row index), `KernelBox` (the
  test on the kernel offsets), `Prestride` (the sizes, the whole operation, and what its
  result means in terms of the tensor that came in). `MixedRadix` holds the arithmetic of
  row-major positions that they share.
- **Unpacking of a tilized buffer** (`common/io_lib.cpp`): `TilizedWalk`.
- **Parallel execution**: `ParallelFor` (`common/tt_parallel_for.h`), `ThreadPool`
  (`common/tt_threadpool.cpp`), `TensorLib` (merging, splitting and padding tensors of
  tiles, `common/tensor_lib.cpp`).
- **The recency cache** (`common/cache_lib.cpp`): `Recency` is the specification,
  `LruStack` the stack property of the LRU policy, `RecencyCache` the object with its map,
  its list and its shortcut, `BinarySlots` what the loader keeps in it
  (`loader/epoch_loader.cpp`).
- **Queues**: `QueuePtr` (`common/tt_queue_ptr.cpp`, `common/base.cpp`, and the
  debugger's formula), `StaleView` (a producer and a consumer with copies of the
  pointers), `TtQueue` (`common/tt_queue.cpp` and the operations of
  `golden/golden_io.cpp` on it).
- **The GDB remote protocol** (`dbd/tt_gdb_communication.py`): `GdbCodec` (packets as
  functions on bytes), `GdbStream` (the writer, reader and parser objects). The packet
  format is section E.1, Overview, of the appendix "GDB Remote Serial Protocol" of
  "Debugging with GDB".
- **The rest of the debugger**: `FanIn` (`dbd/tt_graph.py`), `Watchpoints`
  (`dbd/tt_debug_risc.py`, `dbd/tt_gdb_server.py`), `Harvesting` (`dbd/tt_device.py`,
  `dbd/tt_wormhole.py`).

## Where the code does not do what one would expect

Each of these is kept as the code has it, with a proof of exactly when the expected
property holds.

- `align_up` returns 0 for the dimension 0 exactly if the alignment divides 2^32
  (`Prestride.AlignUpExact`).
- A prestride can lose data: it keeps everything exactly when each window reaches as far
  as the stride or the tensor, whichever ends first (`Prestride.PrestrideKeepsAllExactly`).
- The kernel test compares a product of extents with the number of offsets. For which lists
  it tells whether the offsets fill their box is said by `KernelBox.BoxCheckExact`; with a
  repeated offset it can pass or fail wrongly (`KernelBox.BoxCheckMissesHoles`,
  `KernelBox.BoxCheckRejectsRepeats`).
- `tt_queue::full()` does not fire when `entries` are outstanding: the next push overwrites
  the oldest entry, or, in a queue with a single entry, hides both entries
  (`TtQueue.PushKeepsOldestExactly`, `TtQueue.PushWhenFullByHistory`).
- `tt_queue::empty()` is wrong in the state (2 * entries, 0), which ordinary use reaches
  (`TtQueue.StatusExact`, `TtQueue.WrapStateReached`, `TtQueue.PopWhenEmptyExact`): whenever
  nothing is outstanding and the number of pushes is a positive multiple of 2 * entries
  (`TtQueue.EmptyByHistory`).
- `get_output` restores the local read pointer only modulo 2 * entries, and overwrites its
  base (`TtQueue.TtQueue.GetOutput`, `TtQueue.GetOutputRestoresExactly`,
  `TtQueue.GetOutputCanDisturb`).
- `empty_during_batched_read` lets almost every read of an empty queue pass
  (`QueuePtr.BatchedReadExact`), and `tt_queue_ptr` is right for up to 32768 slots only
  (`QueuePtr.PointerWidthExact`, `QueuePtr.WideQueueFails`).
- The reader of GDB packets compares nibbles with characters, so it accepts every pair of
  check digits (`GdbCodec.AnyDigitsAccepted`). For a wrong start byte or a refused checksum
  the code calls `socket.write` on the module `socket`, which raises; the model has that
  exception.
- A packet that is spread over several deliveries is not put together: of each further one the
  reader skips as many bytes as the one before it has, and the packet is read as it was
  sent if and only if it is wholly in the first (`GdbStream.ReadAsSentExactly`).
- The number -1, which stands for "all" in a thread id, does not survive `append_thread_id`
  and `parse_thread_id` (`GdbCodec.ThreadIdRoundTripExactly`).
- Removing a watchpoint can remove one that was set by another kind of packet
  (`Watchpoints.RemoveUndoesInsertExactly`, `Watchpoints.WriteRemovalDropsAccess`).
- `fan_in_buffer_set` stops after 401 levels, and misses the buffers that need a longer chain
  (`FanIn.FanInExactly`, `FanIn.DeepFanInIsMissed`).
- The size assertion of `hmerge` and `vmerge` compares only the outermost dimension, four
  times over (`TensorLib.Merge`, `TensorLib.SplitOfMergeExactly`).
- `stop()` of the thread pool abandons exactly the jobs that are waiting when the flag is set
  (`ThreadPool.StopAbandonsTheQueue`, `ThreadPool.StopCanAbandon`).

## Model

| member | source | states |
|---|---|---|
| Prestride.SlowPrestride | common/io_lib.cpp:436-486 | for every tensor, positive stride, offsets and format: which of the four outcomes occurs, and that shuffled data are the windowed space-to-depth transform of the zero-padded tensor in the least number of whole tiles; the input is not changed |
| Prestride.PrestrideIsUnique | common/io_lib.cpp:300-325 | the transform determines every cell of the output, so the specification of slow_prestride has one result |
| Prestride.PrestridedCell | common/io_lib.cpp:300-325 | in plain numbers: the padded datum (e, z, y, x) inside the window is in row ((y mod s) * ww + x mod s) * c + z, column (y / s) * (pw / s) + x / s of entry e, and is the tensor's datum ((e * c + z) * h + y) * w + x, or zero in the padding |
| Prestride.OtherCells | common/io_lib.cpp:323-351 | a cell that is not zero belongs to such a datum |
| Prestride.PlanSizes | common/io_lib.cpp:418-433 | in plain numbers: rows and columns are rounded up to the stride, windows are the lesser of kernel extent and stride, row count and row size are the least multiples of 32 |
| Prestride.ShuffleOfPadded | common/io_lib.cpp:436-486 | shuffling the padded tensor into zeroed cells gives the transform of the tensor that came in |
| Prestride.RestoreInverts | common/io_lib.cpp:300-325 | gathering each datum from its address and dropping the padding gives the tensor back when the windows cover it |
| Prestride.PrestrideKeepsAllExactly | common/io_lib.cpp:386-434 | different tensors of a shape always have different prestrides if and only if each window reaches as far as the stride or the tensor does; windows as large as the stride are enough |
| Prestride.SomethingIsLost | common/io_lib.cpp:316-320 | otherwise two different tensors have the same prestride |
| Prestride.AlignUpExact | common/io_lib.cpp:353-356 | in 32-bit arithmetic the result is the least multiple not below the dimension if and only if that multiple fits (dimension above 0) or the alignment divides 2^32 (dimension 0) |
| Prestride.ShufflerParams | common/io_lib.cpp:386-434 | parameters exist exactly if the kernel test passes; blocks of the stride cover the tensor with less than a block to spare, windows are the lesser of kernel extent and stride, and the output is the least number of 32 x 32 tiles |
| Prestride.PadInto | common/io_lib.cpp:468-471 | the padded copy is a fresh buffer that holds the tensor in its leading rows and columns and zero elsewhere |
| Padding.PadTensor | common/io_lib.cpp:359-384 | with its running row and face counters the copy puts datum (f,y,x) at (f,y,x) of the larger faces and leaves every other cell zero |
| Padding.CopyRow | common/io_lib.cpp:374-381 | copying one row extends what has been copied by exactly that row |
| Padding.RowAt | common/io_lib.cpp:369-373 | the linear pointer is a multiple of the face size exactly when a face has ended, so the output pointer is reset at the right rows |
| Shuffle.ShuffleForConv | common/io_lib.cpp:300-351 | after the four nested loops every datum inside its window sits at its closed-form address and every other cell is as before |
| Shuffle.ShuffleFace | common/io_lib.cpp:307-321 | the same for one face, with the invariants channel_offset = row mod stride and row_idx = row - row / stride |
| Shuffle.CodeAddrIsAddr | common/io_lib.cpp:318 | the address built from the running counters is row ((y mod s) * ww + x mod s) * c + z, column (y / s) * bw + x / s of the entry |
| Shuffle.NextRow | common/io_lib.cpp:311-314 | how channel offset and row index must move from one row to the next |
| Shuffle.RowEnd | common/io_lib.cpp:311-314 | the two tests on the index recognise the end of a row and of a block of rows |
| Shuffle.AddrInjective | common/io_lib.cpp:307-321 | no two kept data go to the same address |
| Shuffle.AddrBound | common/io_lib.cpp:323-351 | every address lies inside the allocated output |
| Shuffle.NothingOverflows | common/io_lib.cpp:317-318 | evaluated in uint32_t, operation by operation, the read index and the address of every kept datum are the exact ones while input and output have fewer than 2^32 cells |
| Shuffle.SizesFit | common/io_lib.cpp:421-433 | the products that the sizes are computed from do not overflow either, with fewer than 2^31 padded data |
| Shuffle.RankInjective | common/io_lib.cpp:307-310 | a position of the padded tensor belongs to one datum |
| Shuffle.ScatterStep | common/io_lib.cpp:316-320 | one store extends the scattered part by one datum and disturbs no other |
| KernelBox.BoxCheckExact | common/io_lib.cpp:395-416 | for every non-empty list: the test tells whether the offsets fill their bounding box if and only if none is repeated, or their number differs from the area of the box both with and without repetitions counted; among the lists that pass, and among those that fill their box, it goes wrong exactly on those with a repetition |
| KernelBox.BoxCheckMissesHoles | common/io_lib.cpp:395-416 | with repeated offsets it can pass although the box has holes |
| KernelBox.BoxCheckRejectsRepeats | common/io_lib.cpp:395-416 | with a repeated offset it can fail although the box is filled |
| TilizedWalk.TilizedToTensor | common/io_lib.cpp:550-594 | for every blocking and both scan orders each tile of the tensor ends up with exactly the words its closed-form offset names |
| TilizedWalk.PlainPlace | common/io_lib.cpp:521-594 | in plain numbers: which tile of the tensor tile (tr, tc) of ublock (ubr, ubc), slice z, entry w and grid buffer (gr, gc) is, and the word of the input at which it starts, for both scan orders |
| TilizedWalk.PlainSizes | common/io_lib.cpp:550-566 | in plain numbers: a grid buffer holds as many entries as whole entries of four-byte words fit into it, and the tensor has the tile rows and columns of the whole grid |
| TilizedWalk.WalkBuffer | common/io_lib.cpp:567-591 | one grid buffer: all its entries are read, in order |
| TilizedWalk.WalkEntry | common/io_lib.cpp:571-590 | one entry: all its slices are read, and the running offset ends exactly at the block size |
| TilizedWalk.WalkSlice | common/io_lib.cpp:573-589 | one slice of an entry, in either scan order, advances the running offset over exactly its ublocks |
| TilizedWalk.GetUblockData | common/io_lib.cpp:521-548 | one ublock fills exactly its own tiles and advances the offset by its size |
| TilizedWalk.ReadTile | common/io_lib.cpp:537-545 | the tile a visit writes is still empty (the assertion never fires), and no other tile changes |
| TilizedWalk.VisitsAreTiles | common/io_lib.cpp:533-539 | every loop position selects a tile of the tensor, and the tile determines the loop position |
| TilizedWalk.TilesAreVisited | common/io_lib.cpp:567-591 | every tile of the tensor is selected by some loop position |
| TilizedWalk.OrderInjective | common/io_lib.cpp:567-591 | no two loop positions have the same place in the run |
| TilizedWalk.SlotInjective | common/io_lib.cpp:572-589 | no two tiles of an entry share a place in its words |
| TilizedWalk.SlotOnto | common/io_lib.cpp:572-589 | every place of an entry belongs to a tile: no gaps |
| TilizedWalk.SourceInside | common/size_lib.cpp:119-145 | the words of a tile lie inside its entry, its grid buffer and the input |
| TilizedWalk.EveryWordIsRead | common/io_lib.cpp:567-591 | every word of every entry belongs to exactly one tile of the whole tensor, at a fixed place in it |
| TilizedWalk.WordsDisjoint | common/io_lib.cpp:567-591 | no word of the input is read for two tiles, not even of different entries or grid buffers |
| ParallelFor.CutChunks | common/tt_parallel_for.h:13-32 | for all sizes and thread counts the chunks are an ordered partition of the range, as many as the lesser of threads and elements; chunk t is [t * share, (t + 1) * share) cut off at the end of the range, with the rounded-up share |
| ParallelFor.InvRun | common/tt_parallel_for.h:21-36 | in every reachable state of every interleaving each index has been run, is being run or is untouched, as its thread's position says |
| ParallelFor.SequentialMeaning | common/tt_parallel_for.h:46-51 | the plain loop runs exactly the indices up to the first that throws |
| ParallelFor.ParallelEqualsSequential | common/tt_parallel_for.h:13-44 | every complete interleaving rethrows exactly what the plain loop throws, leaves exactly its memory if nothing throws, and agrees with it up to the first throwing index otherwise |
| ParallelFor.RunsTerminate | common/tt_parallel_for.h:34-36 | a run has at most two steps per index, and while a thread is unfinished some step is possible: the joins return |
| ThreadPool.InvStep | common/tt_threadpool.cpp:6-76 | the invariant of the pool (numbering, counter, mutex, running and finished jobs, pending wake-ups) is kept by each step of workers and owner |
| ThreadPool.QuiescenceIsSound | model/tilize_untilize_api/tilecopy_for_conv.cpp:1164 | when the owner's loop ends, with nothing queued in between, every job ever queued has returned |
| ThreadPool.FreeCount | common/tt_threadpool.cpp:23-31 | num_free plus the workers between decrement and increment is the number of threads, in every reachable state |
| ThreadPool.FifoAtMostOnce | common/tt_threadpool.cpp:26-29 | jobs start in the order they were queued, each at most once |
| ThreadPool.HistoryGrows | common/tt_threadpool.cpp:17-32 | started and finished jobs are never forgotten |
| ThreadPool.NoStartAfterStop | common/tt_threadpool.cpp:21-22 | while the stop flag is set no job starts |
| ThreadPool.SmallPoolRunsNothing | common/tt_threadpool.cpp:35-46 | as long as a pool is only started with one thread or none it has no workers, and no job is ever run |
| ThreadPool.StopAbandonsTheQueue | common/tt_threadpool.cpp:56-67 | if the flag stays set, nothing is queued meanwhile and the threads have been joined, every queued job has finished if and only if none was waiting when the flag was set, and the abandoned jobs are exactly those that were waiting |
| ThreadPool.StopCanAbandon | common/tt_threadpool.cpp:56-67 | for every number of threads above one there is a run in which a queued job is abandoned |
| ThreadPool.NothingRunsAfterJoin | common/tt_threadpool.cpp:63-66 | when the pool has no threads exactly the started jobs have finished |
| ThreadPool.StopTerminates | common/tt_threadpool.cpp:56-67 | once the flag is set, the workers make at most three moves each in any run, spurious wake-ups included |
| ThreadPool.NoLostWakeup | common/tt_threadpool.cpp:17-54 | in every reachable state in which the pool is not stopping and some worker waits to be notified, there are no more waiting jobs than notifications on their way and workers about to look for a job, however long the others are busy |
| ThreadPool.NeverStuck | common/tt_threadpool.cpp:17-61 | while jobs wait, or the flag is set and a worker has not left its loop, a worker can move of its own accord or a notification is still to be delivered: no spurious wake-up is needed |
| ThreadPool.LostWakeupIsStuck | common/tt_threadpool.cpp:20-21 | a pool of waiting workers whose notifications had all been lost could not move |
| TensorLib.IndicesBijection | common/tensor_lib.cpp:66-80 | get_indices is a bijection from the tile numbers to the index tuples of the shape, and tile ((w * z_dim + z) * rt + r) * ct + c has the indices (w, z, r, c) |
| TensorLib.CopyTiles | common/tensor_lib.cpp:236-244 | copying all tile numbers copies the whole corner and changes nothing outside it |
| TensorLib.CopyIsParallel | common/tensor_lib.cpp:236-244 | every interleaving of the parallel copy ends as the plain loop does |
| TensorLib.Merge | common/tensor_lib.cpp:202-293 | fails exactly if an outermost dimension differs; part k of the result is the leading corner of input k |
| TensorLib.MergedTile | common/tensor_lib.cpp:202-293 | tile by tile: tile (w, z, r, c) of input k is at column k * ct + c for hmerge and at row k * rt + r for vmerge |
| TensorLib.Split | common/tensor_lib.cpp:295-387 | fails exactly if the factor does not divide the dimension; part k is the k-th stretch of the input, in fresh tensors |
| TensorLib.SplitTile | common/tensor_lib.cpp:295-386 | tile by tile: part k of hsplit is the k-th stretch of columns, part k of vsplit the k-th stretch of rows |
| TensorLib.SplitOfMergeExactly | common/tensor_lib.cpp:202-387 | splitting a merge gives the inputs back if and only if they all have the shape of the first |
| TensorLib.MergeOfSplit | common/tensor_lib.cpp:202-387 | merging the parts of a split gives the tensor back |
| TensorLib.PadRcVal | common/tensor_lib.cpp:649-672 | the input in the leading corner, the value in every other tile |
| TensorLib.Unpad | common/tensor_lib.cpp:675-694 | the leading corner without the last rows and columns |
| TensorLib.PadUnpad | common/tensor_lib.cpp:649-694 | unpadding undoes padding |
| Recency.AgreesWithPlainMap | common/cache_lib.cpp:13-71 | after any mix of put_lru, put_mru_bt and get the list is duplicate-free and as long as the capacity and the number of different keys put allow; a get answers like a plain map or misses, and never misses while no more than `capacity` different keys have been put |
| LruStack.StackProperty | common/cache_lib.cpp:13-27 | the list is the first `capacity` distinct keys of the access history read backwards |
| LruStack.Inclusion | common/cache_lib.cpp:13-27 | a smaller cache holds a prefix of what a larger one holds |
| LruStack.MoreCapacityFewerMisses | common/cache_lib.cpp:45-71 | more capacity never causes more misses, for any history |
| LruStack.StackDistance | common/cache_lib.cpp:73-78 | the keys in front of a key are exactly those accessed since |
| LruStack.HitCriterion | common/cache_lib.cpp:45-71 | an access hits if and only if fewer than `capacity` other keys were accessed since the last access |
| RecencyCache.Cache.PutLru | common/cache_lib.cpp:13-27 | the object, with map, list and shortcut kept consistent, does what the recency specification says; in terms of the keys in its list: the key is in front, a key that was in the list moved there, and a new one in a full cache takes out the last, in list and map |
| RecencyCache.Cache.PutMruBt | common/cache_lib.cpp:29-44 | the same for eviction at an offset from the most recent: with a full cache and a new key, the key at the offset is gone from list and map, the keys in front of it are one place further back, those behind it stay where they are |
| RecencyCache.Cache.Get | common/cache_lib.cpp:45-71 | the same for get: the shortcut changes neither the answer nor later evictions; a miss answers -1 and changes nothing, a hit answers the key's value and moves the key to the front |
| RecencyCache.Cache.UpdateCache | common/cache_lib.cpp:73-78 | the key's node moves to the front and keeps its value |
| BinarySlots.GetSlotForBinary | loader/epoch_loader.cpp:279-327 | on a hit the stored slot; on a miss the next unused slot, or with a full cache the slot of the entry that the policy evicts at that very place, which is then stored for the new name |
| BinarySlots.SoundStep | loader/epoch_loader.cpp:279-327 | one request, under either policy and for every offset, keeps each cached name's slot holding that name's image; it hits exactly if the name is cached |
| BinarySlots.HitsHoldTheBinary | loader/epoch_loader.cpp:264-327 | over every run of requests, with any offsets the search for a victim may end at: a hit names a slot that holds the image of that very binary, no two cached binaries share a slot, and every slot is below the capacity |
| QueuePtr.QueriesExact | common/tt_queue_ptr.cpp:51-81 | occupancy is pushes minus pops, free space the rest, full and empty hold exactly at the ends, in 32-bit arithmetic and for all sizes whose double fits in it |
| QueuePtr.BatchedReadExact | common/tt_queue_ptr.cpp:19-22 | the batched test means "more than is there" if and only if the queue is not empty (or the amount is 0 or beyond the double range) and the 32-bit sum does not wrap |
| QueuePtr.RunsEncode | common/tt_queue_ptr.cpp:11-17 | after any run of pushes and pops within space and occupancy the pointers encode the two counts |
| QueuePtr.PointerWidthExact | common/tt_queue_ptr.cpp:8-17 | occupancy is right after every such run if and only if there are at most 32768 slots |
| QueuePtr.WideQueueFails | common/tt_queue_ptr.cpp:15-17 | for every larger queue a run after which it is wrong |
| QueuePtr.SameRing | dbd/tt_graph.py:24-25 | one step of tt_bufq_ptr is one step of tt_queue_ptr, and the debugger computes the same occupancy |
| QueuePtr.Bisimulation | common/base.cpp:23-48 | the two pointer classes agree after every run of single steps |
| QueuePtr.TtQueuePtr.IncrRd | common/tt_queue_ptr.cpp:11-13 | a read of any amount that is there moves the read count by it; the pointer is the count modulo twice the slots |
| QueuePtr.TtQueuePtr.IncrWr | common/tt_queue_ptr.cpp:15-17 | a write of any amount there is room for moves the write count by it; the pointer is the count modulo twice the slots |
| QueuePtr.TtQueuePtr.IncrGetRd | common/tt_queue_ptr.cpp:31-43 | answers the slot of the oldest entry, which is its number modulo the slots |
| QueuePtr.TtQueuePtr.IncrGetWr | common/tt_queue_ptr.cpp:23-49 | answers the slot of the next entry to be written |
| QueuePtr.TtQueuePtr.GetRdPtr | common/tt_queue_ptr.cpp:31-37 | the slot of the oldest entry |
| QueuePtr.TtQueuePtr.GetWrPtr | common/tt_queue_ptr.cpp:23-29 | the slot of the next entry to be written |
| QueuePtr.TtQueuePtr.GetOccupancy | common/tt_queue_ptr.cpp:51-57 | pushes minus pops |
| QueuePtr.TtQueuePtr.GetFreeSpace | common/tt_queue_ptr.cpp:59-61 | slots minus pushes plus pops |
| QueuePtr.TtQueuePtr.IsFull | common/tt_queue_ptr.cpp:63-76 | exactly when all slots are taken |
| QueuePtr.TtQueuePtr.IsEmpty | common/tt_queue_ptr.cpp:78-81 | exactly when nothing is outstanding |
| QueuePtr.TtQueuePtr.CannotRead | common/tt_queue_ptr.cpp:19-22 | asking empty() first makes the batched test exact |
| QueuePtr.TtBufqPtr.IncrRd | common/base.cpp:23-35 | answers the slot of the oldest entry and moves past it |
| QueuePtr.TtBufqPtr.IncrWr | common/base.cpp:36-48 | answers the slot of the next entry and moves past it |
| QueuePtr.TtBufqPtr.IsFull | common/base.cpp:54-72 | exactly when all slots are taken |
| StaleView.ViewsAreSafe | common/tt_queue_ptr.cpp:51-61 | what a side computes from its stale copy never exceeds what is really free or really there |
| StaleView.InvWrite | common/tt_queue_ptr.cpp:15-17 | a write keeps the protocol's invariant and does not hit an unread slot |
| StaleView.InvRead | common/tt_queue_ptr.cpp:11-13 | a read keeps the invariant and takes the next entry of the producer |
| StaleView.StaleViewsAreSafe | netlist/README.md:237-238 | in every interleaving of writes, reads, publications and refreshes: nothing unread is overwritten, nothing unwritten is read, and the consumer has a prefix of what was produced |
| StaleView.WriteManyIsWrites | common/tt_queue_ptr.cpp:45-49 | moving the write pointer over several entries at once is a run of single writes, so the above covers it |
| StaleView.ReadManyIsReads | common/tt_queue_ptr.cpp:39-43 | the same for reads |
| TtQueue.QueueIsFifo | common/tt_queue.cpp:13-58 | in every disciplined run no assertion fires, the k-th pop returns the k-th entry pushed, a peek returns what later pops will, and pointers and counter agree with the history |
| TtQueue.StatusExact | common/tt_queue.cpp:88-119 | empty is right if and only if the pointers are not in the wrap state; full never fires below `entries` outstanding |
| TtQueue.PushRep | common/tt_queue.cpp:13-26 | a disciplined push succeeds and appends the entry |
| TtQueue.PopRep | common/tt_queue.cpp:28-40 | a pop with something outstanding succeeds and removes the oldest |
| TtQueue.PeekAt | common/tt_queue.cpp:47-58 | reading i entries past the read pointer gives the i-th outstanding entry, across the wrap |
| TtQueue.PushWhenFullOverwrites | common/tt_queue.cpp:13-26 | what a push does when `entries` are outstanding, by size and pointers: it replaces the oldest entry, hides both entries of a single-entry queue, or is refused |
| TtQueue.PushKeepsOldestExactly | common/tt_queue.cpp:13-26 | for queues of every size, a push is accepted and keeps the oldest entry next in line if and only if fewer than `entries` are outstanding |
| TtQueue.PushWhenFullByHistory | common/tt_queue.cpp:88-104 | after any disciplined run that leaves `entries` outstanding the push is accepted and the next pop returns the new entry, unless the queue has a single entry and an odd number of pops were made: then empty() holds with two entries outstanding |
| TtQueue.PopWhenEmptyExact | common/tt_queue.cpp:28-40 | popping with nothing outstanding fails if and only if the pointers are not in the wrap state; there the counter becomes -1 |
| TtQueue.WrapStateReached | common/tt_queue.cpp:34-38 | pushing and popping one entry 2 * entries times ends in the wrap state, for every queue |
| TtQueue.EmptyByHistory | common/tt_queue.cpp:105-119 | after a disciplined run empty() is wrong, and a pop with nothing outstanding accepted, if and only if nothing is outstanding and the number of pushes is a positive multiple of 2 * entries |
| TtQueue.TtQueue.Push | common/tt_queue.cpp:13-26 | the object moves to the state the specification says, or asserts and is unchanged; in terms of the fields: it asserts exactly at the pointers (0, 2 * entries) and with the write pointer one behind the read pointer, and otherwise stores in the cell at the write pointer, both pointers being wrapped from 2 * entries to 0 first |
| TtQueue.TtQueue.Pop | common/tt_queue.cpp:28-40 | likewise: it asserts exactly if the pointers are equal; the read pointer is wrapped and moved, and the write pointer wrapped if both stand at the end |
| TtQueue.TtQueue.Get | common/tt_queue.cpp:47-58 | likewise: the cell at the local pointer, which is wrapped and then moved by its increment unless the queue is in prologue or epilogue; no cell and no global pointer changes |
| TtQueue.TtQueue.SetLocalRdPtr | common/tt_queue.cpp:121-132 | pointer and base are both set, reduced to the double range |
| TtQueue.TtQueue.PopOutput | golden/golden_io.cpp:335-348 | returns the oldest outstanding entry and removes it |
| TtQueue.TtQueue.GetOutput | golden/golden_io.cpp:349-356 | returns the i-th outstanding entry; only the local pointer (to its residue) and its base change |
| TtQueue.GetOutputRestoresExactly | golden/golden_io.cpp:349-356 | the queue is exactly as before if and only if the local pointer was in the double range and stood at its base |
| TtQueue.GetOutputCanDisturb | golden/golden_io.cpp:335-356 | after two pushes and a pop_output on a new queue whose local pointer moves on by itself, get_output changes the queue |
| TtQueue.TtQueue.PopOutputs | golden/golden_io.cpp:141-150 | n pops return the n oldest entries in order |
| TtQueue.TtQueue.GetOutputs | golden/golden_io.cpp:164-170 | n peeks return exactly what n pops would, and leave memory, global pointers and count alone |
| GdbCodec.StreamRoundTrip | dbd/tt_gdb_communication.py:102-177 | any list of packets and acknowledgements, concatenated, is read back in order, and what follows is left |
| GdbCodec.ReadInvertsEncode | dbd/tt_gdb_communication.py:359-372 | reading one encoded item returns its content; reader and writer compute the same checksum |
| GdbCodec.PacketBytes | dbd/tt_gdb_communication.py:359-366 | a packet byte by byte: '$', the escaped payload, '#', and the sum of the bytes between the two, modulo 256, as two upper-case hex digits, the higher one first |
| GdbCodec.EscapeOfByte | dbd/tt_gdb_communication.py:309-318 | '$', '#', '*' and '}' are escaped, as '}' and the bytes 4, 3, 10 and 93; every other byte stays as it is |
| GdbCodec.FlipIsXor | dbd/tt_gdb_communication.py:139-141 | the unescaping changes bit 5 of a byte and no other |
| GdbCodec.FirstByteDecides | dbd/tt_gdb_communication.py:107-124 | '+' and '-' are items of their own, and a first byte other than these and '$' is refused |
| GdbCodec.StarIsRefused | dbd/tt_gdb_communication.py:144-145 | a raw '*' within a packet is refused, wherever it stands |
| GdbCodec.ReadPacket | dbd/tt_gdb_communication.py:126-177 | what the reader makes of a packet followed by any two bytes |
| GdbCodec.PrefixIsIncomplete | dbd/tt_gdb_communication.py:131-167 | a packet that is cut off anywhere is not taken for a whole one |
| GdbCodec.OnlyFirstIsDollar | dbd/tt_gdb_communication.py:309-318 | an encoded packet has no '$' but the first, whatever the payload |
| GdbCodec.ScanIsLongEnough | dbd/tt_gdb_communication.py:131-152 | as long as the reader meets no raw '$', what it collects takes no more bytes to escape than it was collected from |
| GdbCodec.AnyDigitsAccepted | dbd/tt_gdb_communication.py:162-166 | a packet is accepted if and only if neither check byte equals the bare nibble; every pair of hex digits passes |
| GdbCodec.HexRoundTripExactly | dbd/tt_gdb_communication.py:208-219 | parse_hex reads back what append_hex wrote if and only if the number is not negative, for every minimum width |
| GdbCodec.HexTextShape | dbd/tt_gdb_communication.py:337-348 | numbers are written in upper-case digits, with at least the asked width and no needless leading zero |
| GdbCodec.DigitTable | dbd/tt_gdb_communication.py:342-348 | the byte that is written for each of the sixteen digits |
| GdbCodec.DigitsRead | dbd/tt_gdb_communication.py:208-219 | the bytes that count as digits, letters of both cases, and the value of each |
| GdbCodec.ThreadIdRoundTripExactly | dbd/tt_gdb_communication.py:242-257 | likewise for thread ids: both numbers must be non-negative |
| GdbCodec.ProcessAlone | dbd/tt_gdb_communication.py:250-255 | 'p' and a number without a dot is that process with the thread -1 |
| GdbCodec.ThreadAlone | dbd/tt_gdb_communication.py:256-257 | a number without 'p' is that thread with the process -1 |
| GdbStream.MessageWriter.AppendChar | dbd/tt_gdb_communication.py:309-318 | the buffer stays the escaped payload with its checksum, extended by the byte |
| GdbStream.MessageWriter.Append | dbd/tt_gdb_communication.py:320-325 | likewise for a list of bytes |
| GdbStream.MessageWriter.AppendHex | dbd/tt_gdb_communication.py:337-348 | likewise for the digits of a number |
| GdbStream.MessageWriter.AppendThreadId | dbd/tt_gdb_communication.py:353-357 | likewise for a thread id |
| GdbStream.MessageWriter.Send | dbd/tt_gdb_communication.py:359-372 | what goes to the socket is the encoding of everything appended since the last send; on the bytes: '$' first, '#' third from last, and the two digits behind it are the upper-case digits of the sum of the bytes between them, modulo 256, the higher one first |
| GdbStream.InputStream.EnsureInputBuffer | dbd/tt_gdb_communication.py:93-100 | reads from the socket only past the end of the buffer, and then replaces it |
| GdbStream.InputStream.Read | dbd/tt_gdb_communication.py:102-177 | result, buffer and deliveries left, in every case: an item wholly in the buffer is returned and exactly it is removed; marks, wrong starts and refused checksums raise; a packet that goes on in later deliveries is read with the skipped bytes missing, or ends in an index error or no data |
| GdbStream.SplitPacket | dbd/tt_gdb_communication.py:93-100 | which bytes the reader goes on with when a packet is split over two deliveries, wherever it is split |
| GdbStream.ReadAsSentExactly | dbd/tt_gdb_communication.py:93-177 | however a packet and what follows it are spread over deliveries, the packet is returned with exactly what follows it left unread if and only if it is wholly in the first delivery |
| GdbStream.InputStream.ReadItems | dbd/tt_gdb_communication.py:102-177 | reading as often as items were sent returns their contents in order and empties the buffer |
| GdbStream.MessageParser.Parse | dbd/tt_gdb_communication.py:193-205 | true exactly if the value stands at the position, which moves only then |
| GdbStream.MessageParser.ParseHex | dbd/tt_gdb_communication.py:208-219 | the value of the run of hex digits at the position, None if there is none |
| GdbStream.MessageParser.ParseThreadId | dbd/tt_gdb_communication.py:242-257 | the thread id at the position, with -1 for missing parts |
| GdbStream.ThreadIdThroughTheWire | dbd/tt_gdb_communication.py:353-372 | a thread id that is appended, sent, read and parsed comes back, for all non-negative numbers |
| FanIn.Graph.GetConnectedBuffers | dbd/tt_graph.py:120-137 | the far ends of exactly the pipes that have one of the given buffers at their other end, in either direction or both |
| FanIn.Graph.GetBuffCoreCoordinates | dbd/tt_graph.py:140-150 | exactly the cores of the given buffers |
| FanIn.Graph.GetCoreBuffers | dbd/tt_graph.py:153-163 | exactly the buffers on the given cores |
| FanIn.Graph.DirectFanIns | dbd/tt_graph.py:195-203 | one step of the relation, with DRAM not expanded: from buffers that are all on core (255, 255) it finds nothing |
| FanIn.DirectMeans | dbd/tt_graph.py:195-203 | a buffer b is one step away if and only if one of the given buffers is on some core other than (255, 255), some buffer is on that core, and some pipe has that buffer among its outputs and b among its inputs |
| FanIn.DramIsNotExpanded | dbd/tt_graph.py:198-200 | from buffers that are all on core (255, 255) one step finds nothing |
| FanIn.ChainsAvoidDram | dbd/tt_graph.py:198-200 | every buffer of a chain but the last is on a core other than (255, 255) |
| FanIn.Graph.FanInBufferSet | dbd/tt_graph.py:184-217 | terminates and returns exactly the buffers within as many steps as the recursion counter allows, although only new buffers are expanded |
| FanIn.Graph.GetFaninCores | dbd/tt_graph.py:221-236 | the cores, without DRAM, of everything within 401 steps |
| FanIn.ExpandOnlyNew | dbd/tt_graph.py:206-217 | when all visited buffers but the new ones have been expanded, expanding the new ones makes a full step |
| FanIn.DirectIsAdditive | dbd/tt_graph.py:195-203 | the fan-ins of a union are the union of the fan-ins |
| FanIn.WithinIsReachability | dbd/tt_graph.py:183-217 | everything within n steps is reachable by a chain of pipes; it is everything reachable if and only if it is closed, which more steps than source buffers ensure |
| FanIn.FanInExactly | dbd/tt_graph.py:184-217 | the answer is exactly the buffers that feed the given ones by a chain of at most as many steps as there are levels left; it is complete if and only if no buffer of the graph needs a longer chain; fewer source buffers than levels left are enough |
| FanIn.DeepFanInIsMissed | dbd/tt_graph.py:184-188 | for every depth of the counter a graph, a chain one buffer too long, and the buffer of it that is missed |
| Watchpoints.UpdateIsLocal | dbd/tt_debug_risc.py:442-448 | the register update changes its own nibble to the value and no other |
| Watchpoints.FieldBits | dbd/tt_debug_risc.py:446-447 | the setting of slot id is bits 4 * id to 4 * id + 3 of the register |
| Watchpoints.NibblesMakeRegister | dbd/tt_debug_risc.py:446-447 | the eight settings, slot 0 in the lowest bits, make up the whole register |
| Watchpoints.UpdatedNibbles | dbd/tt_debug_risc.py:442-448 | the update of the register replaces one of the eight settings and no other |
| Watchpoints.InsertMeaning | dbd/tt_gdb_server.py:898-1011 | an insert is answered OK if and only if a slot matches or is free, and then watches what was watched plus the new watchpoint if nothing matched |
| Watchpoints.RemoveMeaning | dbd/tt_gdb_server.py:840-897 | a remove is answered OK if and only if a slot matches, and takes exactly one matching watchpoint away |
| Watchpoints.FailsWhenFullExactly | dbd/tt_gdb_server.py:898-1011 | an insert fails if and only if nothing matches and as many different watchpoints are set as there are slots |
| Watchpoints.RemoveUndoesInsertExactly | dbd/tt_gdb_server.py:840-1011 | the matching remove restores the enabled slots if and only if the insert found no matching slot |
| Watchpoints.WriteRemovalDropsAccess | dbd/tt_gdb_server.py:840-1011 | an access watchpoint is lost after a write watchpoint at its address is set and removed, with every packet answered OK |
| Watchpoints.NeverDuplicates | dbd/tt_gdb_server.py:840-1011 | over any run of packets no two enabled slots share address and setting |
| Watchpoints.DecodeSetting | dbd/tt_debug_risc.py:228-237 | the setting written for a kind decodes to the state of that kind, and 0 to disabled |
| Watchpoints.SettingBits | dbd/tt_debug_risc.py:455-465 | breakpoints are written as 8, read watchpoints as 9, write watchpoints as 10, access watchpoints as 11 |
| Watchpoints.MatchBits | dbd/tt_gdb_server.py:840-1011 | in terms of its bits a slot matches if bit 8 is set, its address is the given one, and bits 1 and 2 are both clear for a breakpoint, bit 2 is set for a write, bit 1 for a read, and both for an access watchpoint |
| Watchpoints.RiscDebug.UpdateWatchpointSetting | dbd/tt_debug_risc.py:442-448 | of the eight four-bit settings that make up the register, number id gets the value and the others stay; the packed register behaves as an array of eight slots of which one is set |
| Watchpoints.RiscDebug.SetWatchpoint | dbd/tt_debug_risc.py:450-465 | one slot gets the address and the state of the kind: its setting is 8, 9, 10 or 11 by kind, and no other setting changes |
| Watchpoints.RiscDebug.DisableWatchpoint | dbd/tt_debug_risc.py:477-478 | one setting becomes 0 and no other changes; the slot keeps its address |
| Watchpoints.RiscDebug.ReadWatchpointsState | dbd/tt_debug_risc.py:467-472 | state i is read from bits 4 * i to 4 * i + 3: bit 8 of them is enabled, 1 is read, 2 is write, 1 or 2 is memory |
| Watchpoints.RiscDebug.HandleInsert | dbd/tt_gdb_server.py:898-1011 | the scan loops over the device do what the specification on slots says, reply included; on the registers: the packet is answered OK without a change if and only if some setting has the bits of the kind and the slot's address is the given one, and otherwise the first slot whose enable bit is clear gets the address and the setting 8, 10, 9 or 11, and nothing else changes |
| Watchpoints.RiscDebug.HandleRemove | dbd/tt_gdb_server.py:840-897 | likewise for removal: the first slot with the bits of the kind and the address gets the setting 0, and nothing else changes |
| Harvesting.RowsAdd | dbd/tt_device.py:502-519 | Ethernet, harvested and working rows add up to the rows of the chip |
| Harvesting.TranslatedInjective | dbd/tt_wormhole.py:154-174 | no two translated rows stand for the same row |
| Harvesting.TranslatedOnto | dbd/tt_wormhole.py:154-174 | every row has a translated row |
| Harvesting.TensixNoc0RoundTrip | dbd/tt_wormhole.py:123-152 | the two conversions are inverse to each other on worker coordinates |
| Harvesting.WorkerGrid | dbd/tt_wormhole.py:144-152 | the worker columns are 1 to 4 and 6 to 9, the worker rows 1 to 5 and 7 to 11 |
| Harvesting.CoreCoordinates | dbd/tt_coordinate.py:49-55 | netlist rows exist exactly for the working rows; a working core at (row, col) converts back from noc0, and its translated coordinate is (18 + col, 18 + row) |
| Harvesting.NetlistKeepsOrder | dbd/tt_device.py:502-519 | netlist rows ascend with noc0 rows |
| Harvesting.WormholeTable | dbd/tt_wormhole.py:109-111 | the table of locations meets what the builders rely on |
| Harvesting.Device.GetHarvestedRows | dbd/tt_wormhole.py:113-120 | the locations whose bit is set, in the order of the bits, each once; an index error exactly for a bit past the table; fewer rows than bits exactly if some bit is past the rows of the chip |
| Harvesting.Device.CreateTensixNetlistMap | dbd/tt_device.py:502-519 | the two row maps are inverse to each other and number the working rows without gaps |
| Harvesting.Device.HandleHarvesting | dbd/tt_wormhole.py:154-174 | the translated rows from 16 on are Ethernet, then working rows in order, then harvested ones; an index error exactly if the mask has more bits than there are harvested rows |
| Harvesting.Device.CreateReverseMap | dbd/tt_device.py:532-534 | walking the map in insertion order lets the translated rows override the identity rows |
| Harvesting.Device.CreateNocTrMap | dbd/tt_device.py:521-534 | the two maps are inverse to each other between all rows and the translated rows from 16 on |
| Harvesting.Device.CreateHarvestingMaps | dbd/tt_device.py:542-544 | all maps from any mask; fails exactly for a bit past the table; the last translated rows, as many as the mask has bits, are the locations of its bits from the lowest bit up |
| Harvesting.Device.BuiltRows | dbd/tt_wormhole.py:154-174 | row by row: translated rows 16 and 17 are rows 0 and 6, those from 18 on are the working rows in ascending order, each with its netlist row, then come the harvested rows in the order given |

## Left out

- Prestride.SlowPrestride: sizes and addresses other than those of align_up are unbounded integers, not uint32_t; NothingOverflows and SizesFit show that this makes no difference below 2^31 padded data and 2^32 output cells, and above that the wrap-around is not modelled. Tensors without rows or columns, and an empty list of offsets (for which the extents are not defined), are excluded.
- Prestride.PrestrideKeepsAllExactly: for tensors that hold at least one datum.
- TilizedWalk.TilizedToTensor: unbounded integers; only queues with tilized layout; a tile's packed words are opaque.
- ParallelFor.ParallelEqualsSequential: for bodies that read and write only the location their index owns; exceptions not derived from std::exception, which end the program, are left out.
- ThreadPool.QuiescenceIsSound: jobs return normally; a job that throws ends the program. Regions under a mutex are single steps, memory ordering is not modelled, and start is not called while threads are live.
- TensorLib.Merge: inputs with the right outermost dimension must not be smaller than the first in the others, where the code would read outside them. Tiles are opaque values.
- TensorLib.Unpad: at most as many rows and columns as there are; the code's unsigned subtraction would wrap.
- RecencyCache.Cache.PutMruBt: the offset lies within the list when something is evicted, as the code's std::next requires.
- RecencyCache.Cache.Get: the profiler is left out.
- BinarySlots.GetSlotForBinary: the search for an entry that is no longer in use, which asks the device, is left out; the offset it ends at is a parameter. Slots are the numbers of tt_queue_ptr's first round, which is all that a cache uses of it; pinned binaries are left out.
- StaleView.StaleViewsAreSafe: one producer and one consumer; storing an entry and moving the private pointer over it are one step, publishing the pointer is another.
- TtQueue.QueueIsFifo: queues only; random-access memories, aliased queues, external setters of the global pointers and set_zero are left out.
- GdbStream.InputStream.Read: the socket is the list of what its reads deliver; an empty delivery stands for a closed connection.
- GdbStream.MessageWriter.AppendHex: append_unescaped, append_register_hex and read_hex are left out: they bypass the escaping, or group the same digits in another way.
- FanIn.Graph.FanInBufferSet: a single buffer or coordinate is passed as a list of one; the order of the returned lists is not modelled.
- Watchpoints.RiscDebug.HandleInsert: addresses are not cut to 32 bits, a packet without an address is left out, and so are the Z1 and z1 packets (ignored by the code), halting the core and the register transport.
- Harvesting.Device.CreateHarvestingMaps: row counts from 7 to 16, the range in which identity rows and translated rows do not meet; noc1, die and virtual coordinates and the Grayskull maps are left out.
- Floating point, data formats and the fp16 conversion; the two shuffles differ only in the type of the datum, which is a parameter.
- Sockets, files, YAML and ELF loading, the command loop, firmware builds and the golden graph runner: plumbing around libraries that are not part of this model.
- GDB memory and vCont packets: their merging of bytes has no clean specification.
- tt_fifo_cache and the object cache of common/cache_lib.cpp: variants of the recency cache with less to them.
