# Verified model of the hip-ep runtime and its kernel tuner

A Dafny 4.11 model of the stateful core of the runtime: how a session manages device memory,
how the loop drivers feed an asynchronous stream, how constants reach the device, how the
compile-time tuner works through its queues, and the smaller arithmetic and ownership cores
beside them. `dafny verify dfyconfig.toml` checks all of it.

## What is modelled

- **Transient arena** (`TransientArena`, `Tiling`, `PageBitmap`, `OrderedMap`). The first-fit
  coalescing allocator as a class over its two maps, refined to a page bitmap.
- **Session memory** (`Session`, `SessionMemory`, `SessionHolders`, `DeviceLog`). Alloc and free with
  the driver fallback, pool domains, the constants blob, scratch and the other named buffers, the
  Scan driver's pool swap, creation and cleanup, as a class. A ghost history of device events (driver allocation, ownership, enqueued
  kernels, synchronisation) has an independent safety predicate; `Session.Lifetime` proves it for
  whole sessions.
- **Refusals** (`Environment`). What was asked of the driver and the host and what they answered is
  recorded, so that every contract says which calls were made and fails exactly when one was refused.
- **1.5x growth** (`BufferGrowth`). The amortised bounds of the scratch buffers in 64-bit arithmetic.
- **Loop drivers** (`LoopDriver`, `LoopStream`). The stream is a FIFO; the device executes its
  commands at arbitrary later points. The reference semantics are the "Loop" section of the ONNX
  Operator Schemas.
- **Constants** (`ExternalizeConstants`, `ConstantsWriter`, `ConstantsLoader`, `ConstantsAgreement`).
  The compiler's layouts and metadata for a full and for a streamed model, the file writer, the bulk
  loader and the per-entry loader, each proved against its own definition; then what the two kinds of
  model get for the same constants, against each other.
- **Tuning queue and selection** (`Autotune`, `AdaptiveBenchmark`). Compilation, timing and parsing
  are arbitrary oracles that may answer differently at every call; times are reals.
- **Disk gather** (`DiskGather`), **tensor sizes and buffer pool** (`TensorSize`, `TensorPool`,
  `Shapes`), **strides** (`Strides`), **trace string escaping** (`JsonEscape`).

## Assumptions

- `hipMalloc` and `hipHostMalloc` refuse or return fresh memory apart from every live allocation, and
  a null pointer for no bytes; synchronisation succeeds and empties what is in flight; the stream runs commands in order.
- `pool_init` runs once per session, before other pool use.
- Counters of bytes held (`live`) do not overflow, since the regions they count are disjoint parts
  of a 64-bit address space. Row counts fit the pointer vector they are stored in, so the slice
  products in the gather do not wrap; element counts of stride shapes fit 64 bits.
- File writes complete. A list of constants has non-negative 64-bit sizes; a splat is a whole number of
  elements, also of the 8 bytes that are left of a longer one (element sizes are powers of two). A
  character of a path is one byte, and paths hold no zero byte.
- Printing a module and parsing it back, when parsing succeeds, gives the same module. Kernel names
  are unique within a module. A successful backend compile yields a non-empty binary, which
  `extractCompiledKernel` checks (lib/Compiler/RocMlirKernelCompiler.cpp:146-165).
- Memory that callers pass as already on the GPU is not memory of the tensor buffer pool, and a
  tensor buffer is prepared only while it holds nothing of the pool.

## Where the code is not what it seems

- The pinned iteration array is sized `new_cap * 8` in `size_t`, which wraps from 2^61 trips on; the
  loop theorems hold up to 2^61 - 1 trips, and `LoopDriver.StagingExact` shows that bound is exact.
- The comment at lib/Runtime/hipdnn_ep_runtime_loop.cpp:220-223 says the first launch drains earlier
  writers of the condition byte. Nothing orders the host store against the stream: it reaches the next
  loop, whatever is still pending of an earlier one, if and only if the earlier loop's body never
  answers false (`LoopStream.StoreReachesNextLoopIff`). After a loop that returned an error, the next
  one may then differ from ONNX Loop: `LoopDriver.LoopRuntime.LoopAfterFailedLoop` follows the driver
  step by step and says exactly when, `LoopDriver.CountingAfterFailedLoop` gives two bodies.
- The range check of `constants_file_fetch` wraps for negative offsets; the mapped and the reading
  branch then differ. `ConstantsLoader.FetchBranchesAgree` gives the exact condition.
- The metadata of a streamed model carries a splat element in 8 bytes. A longer element is cut to them
  without a word, and the constant keeps its bytes exactly when the element survives that
  (`ConstantsAgreement.BakedSplat`); elements of 16 bytes with different halves do not.
- The per-entry loader refuses file references whose path has 1024 or more characters, which the
  writer of a full file accepts (`ConstantsAgreement.LoadsIffReached`).
- A declared constants size beyond the end of the layout makes the file longer than the blob it is
  copied into (`ConstantsAgreement.FileFitsBlob`).
- `s + s/2` wraps near the top of the 64-bit range, after which growth is no longer amortised.
- When the offset array cannot be allocated, `pool_init` leaves domain 0 with a size and no memory.
- After a failed `finish`, waiting kernels stay queued while their search is gone, so a later
  `finish` reports that there is no winner (`FailureStrandsLaterKernels`).
- A tensor with a negative extent, or more bytes than 64 bits can count, is accepted by
  `prepare_input` as an empty tensor.
- `TensorBuffer::is_pooled` is documented as telling pooled buffers apart, but is never set to true;
  ownership is decided by `is_aliased` alone. A second `finalize_output` leaves the pool alone, but
  since the size is kept it enqueues a copy from a null pointer, also for an alias that the first call
  did not copy (`TensorPool.GpuBufferPool.FinalizeTwice`).

## Model

| member | source | states |
|---|---|---|
| `TransientArena.TransientArenaAllocator.Init` | lib/Runtime/transient_arena.h:31-38 | one free block of the size cut to whole pages; all counters zero |
| `TransientArena.TransientArenaAllocator.Allocate` | lib/Runtime/transient_arena.h:40-61 | succeeds exactly when some window of the rounded size overlaps no live block and returns the lowest such window; without live blocks every request up to the size gets offset 0; on the page bitmap it is first fit and sets exactly those pages; a refusal changes only the miss counters |
| `TransientArena.TransientArenaAllocator.Release` | lib/Runtime/transient_arena.h:64-85 | false exactly when the offset starts no live block; otherwise clears exactly that block's pages and nothing else |
| `TransientArena.TransientArenaAllocator.ReleaseEach` | lib/Runtime/transient_arena.h:64-85 | after any sequence of releases the free map is a function of the set released, so order does not matter; releasing everything restores the one block |
| `TransientArena.TransientArenaAllocator.FreeIsDetermined` | lib/Runtime/transient_arena.h:40-85 | in every reachable state the free map is the map of maximal clear runs of the live map |
| `TransientArena.TransientArenaAllocator.BlockBytes` | lib/Runtime/transient_arena.h:88-91 | positive exactly for the start of a live block, and then its length |
| `TransientArena.RoundUpExact` | lib/Runtime/transient_arena.h:23-29 | the mask arithmetic in 64 bits agrees with rounding to whole pages exactly up to the largest value that does not wrap; rounding adds less than a page, and makes one page of nothing |
| `TransientArena.PagesForIsLeast` | lib/Runtime/transient_arena.h:25-29 | no smaller positive number of pages holds the request |
| `TransientArena.IdleHasRoom` | lib/Runtime/transient_arena.h:40-56 | an arena without live blocks has room at 0 for every request up to its size |
| `TransientArena.RoundUpBehindGuard` | lib/Runtime/transient_arena.h:41-42 | behind the size guard the rounding cannot wrap |
| `TransientArena.ReleaseKeepsConsistent` | lib/Runtime/transient_arena.h:64-85 | merging with both neighbours keeps the tiling, alignment, no two free blocks touching, and used = sum of live <= high-water mark <= size |
| `Tiling.FreeIsClearRuns` | lib/Runtime/transient_arena.h:40-85 | free and live blocks that tile the arena with no two free blocks touching determine each other |
| `Tiling.WindowInOneFreeBlock` | lib/Runtime/transient_arena.h:43-46 | a window clear of live blocks lies inside a single free block, so searching block by block misses nothing |
| `Tiling.CarveTiles` | lib/Runtime/transient_arena.h:48-51 | splitting the chosen block keeps the tiling |
| `Tiling.MergeTiles` | lib/Runtime/transient_arena.h:71-83 | coalescing keeps the tiling |
| `PageBitmap.LowestWindowIsFirstFit` | lib/Runtime/transient_arena.h:40-56 | the lowest clear byte window is first fit on the page bitmap |
| `PageBitmap.AllocateSetsPages` | lib/Runtime/transient_arena.h:51-52 | allocating sets exactly the window's pages |
| `PageBitmap.ReleaseClearsPages` | lib/Runtime/transient_arena.h:68-69 | releasing clears exactly the block's pages |
| `DeviceLog.RegionsStayApart` | lib/Runtime/hipdnn_ep_runtime_state.cpp:186-229 | in a safe history neither two allocations nor two owned regions overlap |
| `DeviceLog.InFlightIsOwned` | lib/Runtime/hipdnn_ep_runtime_state.cpp:1651-1682 | whatever an unfinished kernel touches still has an owner |
| `DeviceLog.FreedOncePerMalloc` | lib/Runtime/hipdnn_ep_runtime_state.cpp:1102-1256 | at every point of a safe history each address was freed as often as it was allocated but for a live allocation; the same for owners |
| `SessionMemory.DirectOutsideArena` | lib/Runtime/hipdnn_ep_runtime_state.cpp:186-203 | driver allocations other than the arena lie outside it |
| `SessionMemory.ArenaGrant` | lib/Runtime/hipdnn_ep_runtime_state.cpp:186-203 | an arena block that was not live is apart from every owner and from every unfinished kernel |
| `SessionMemory.ArenaReclaim` | lib/Runtime/hipdnn_ep_runtime_state.cpp:205-229 | an idle arena block may be recycled |
| `SessionMemory.ArenaFree` | lib/Runtime/hipdnn_ep_runtime_state.cpp:170-184 | once no block is live, freeing the arena base is safe and leaves the other allocations as they were |
| `Session.RuntimeState.CreateArena` | lib/Runtime/hipdnn_ep_runtime_state.cpp:147-168 | an arena of the asked size or, exactly when the driver refuses, none; nothing when there is one already; whatever the session holds by then stays |
| `Session.RuntimeState.DeviceAlloc` | lib/Runtime/hipdnn_ep_runtime_state.cpp:186-203 | with a clear window: the block at the lowest one, the byte count up by its length and no driver call; without: exactly one driver call of the asked size, none exactly when it is refused, and with an arena the allocation is entered in the fallback table and the byte count goes up by its size. The memory is nobody's and no unfinished kernel touches it; a null success exactly for no bytes without a window; `live` is exactly arena used + tracked fallback bytes |
| `Session.RuntimeState.FallbacksTracked` | lib/Runtime/hipdnn_ep_runtime_state.cpp:186-229 | in every state, what a pool or a scratch buffer got since the arena exists is a live block of the arena or in the fallback table with its size |
| `Session.RuntimeState.DeviceFree` | lib/Runtime/hipdnn_ep_runtime_state.cpp:205-229 | gives up exactly the one owned region; an arena block is released only after a synchronisation, a tracked fallback leaves the table, and the byte count goes down by exactly what was given up |
| `Session.RuntimeState.CreateState` | lib/Runtime/hipdnn_ep_runtime_state.cpp:612-634 | the session keeps the error flag, or fails with 10 exactly when its memory is refused and with 11 exactly when it cannot be cleared, and keeps nothing |
| `Session.RuntimeState.AllocOnce` | lib/Runtime/hipdnn_ep_runtime_state.cpp:683-691 | the buffer of the asked size in memory nobody owned, or, exactly when the driver refuses, nothing changed |
| `Session.RuntimeState.EnsureLoopDevice` | lib/Runtime/hipdnn_ep_runtime_loop.cpp:117-144 | 0 exactly when both loop buffers are there, which is when nothing was refused; one that was there is never moved nor asked for again, and a condition byte without a device address is given back |
| `Session.RuntimeState.Replace` | lib/Runtime/hipdnn_ep_runtime_state.cpp:1651-1682 | the growth step shared by pools and scratch: the old region is given up only after waiting, no other holder is disturbed, and the driver is asked exactly when the arena has no room even without the old block |
| `Session.RuntimeState.EnsurePoolDomains` | lib/Runtime/hipdnn_ep_runtime_state.cpp:1513-1541 | widens both arrays, keeps every old entry, new entries empty; fails exactly when a reallocation is refused, and leaves a well-formed set |
| `Session.RuntimeState.GetPoolBase` | lib/Runtime/hipdnn_ep_runtime_state.cpp:1620-1684 | the domain's base with room for the request (at least one byte), unchanged and without a call when it already had room; null exactly for a negative domain or a refused call while sizes are backed; all other domains and holders untouched |
| `Session.RuntimeState.PoolInit` | lib/Runtime/hipdnn_ep_runtime_state.cpp:1545-1593 | succeeds exactly when no call is refused, with code 2 exactly for the memory; size > 0 implies a base afterwards, except exactly when the offset array is refused for a positive size |
| `Session.RuntimeState.EnsureBuffer` | lib/Runtime/hipdnn_ep_runtime_state.cpp:1740-1790 | covers the request and never shrinks: a cold start and the host scratch get exactly the request, anything else the larger of the request and 1.5 times the old size in 64-bit arithmetic; unchanged and without a call when already large enough; -1 and emptied exactly when the driver refuses; no other holder disturbed |
| `Session.RuntimeState.EnsureAll` | lib/Runtime/hipdnn_ep_runtime_state.cpp:1740-1790 | any run of successful requests leaves the size the growth model computes |
| `Session.RuntimeState.Cleanup` | lib/Runtime/hipdnn_ep_runtime_state.cpp:1102-1256 | every allocation goes back: buffers and pools, then the arena when no block has an owner, then the constants; nothing keeps an owner |
| `Session.RuntimeState.RunScan` | lib/Runtime/hipdnn_ep_runtime_loop.cpp:279-323 | a nested Scan or negative count fails and changes nothing. Otherwise the bodies are called in turn up to the first with a code other than 0, which is the result, or all of them with result 0; the parent gets its domain set back unchanged with the memory behind it. The Scan set and all scratch keep at least their size and serve every request of every body that ran, but for those domains and buffers whose growth was refused, each of which some body asked for, and none when nothing was refused; the error flag, the constants and the loop buffers are never moved |
| `Session.RuntimeState.RunStep` | lib/Runtime/hipdnn_ep_runtime_loop.cpp:304-312 | one thing a body does, be it a pool request, growth of a scratch buffer, loop buffers, a kernel or a nested Scan: the parent's pools stay where they are, nothing but what was refused gets smaller, and a kernel is enqueued exactly on memory its buffer has |
| `Session.RuntimeState.ScanPoolsApartFromMain` | lib/Runtime/hipdnn_ep_runtime_loop.cpp:291-303 | at every moment no pool of the Scan set overlaps a pool of the parent set |
| `SessionHolders.HoldersApart` | lib/Runtime/hipdnn_ep_runtime_state.cpp:1620-1684 | different holders never point at overlapping regions |
| `Session.Lifetime` | lib/Runtime/hipdnn_ep_runtime_state.cpp:1102-1256 | over a whole session, from its creation with or without constants, through any operations, Scan bodies that grow pools and scratch, refusals and kernels in flight: no region is freed, recycled or given a second owner while a kernel may use it, and everything handed out comes back exactly once, also when the creation fails |
| `BufferGrowth.SizesBounded` | lib/Runtime/hipdnn_ep_runtime_state.cpp:1740-1790 | for any requests with maximum M, in 64-bit arithmetic: the size covers the latest request, strictly grows at each reallocation and never exceeds 1.5 M |
| `BufferGrowth.DoublingIffNoWrap` | lib/Runtime/hipdnn_ep_runtime_state.cpp:1757-1762 | sizes double over every two regrowths for all runs up to M if and only if s + s/2 cannot wrap below M |
| `BufferGrowth.FewReallocations` | lib/Runtime/hipdnn_ep_runtime_state.cpp:1740-1790 | at most 2 log2(M) + 3 reallocations |
| `BufferGrowth.TotalIsLinear` | lib/Runtime/hipdnn_ep_runtime_state.cpp:1740-1790 | all reallocations together ask for at most 5 M bytes |
| `LoopDriver.StagingExact` | lib/Runtime/hipdnn_ep_runtime_loop.cpp:84-96 | the byte count `new_cap * 8` has room for all entries exactly up to 2^61 - 1 trips; 2^61 asks for nothing |
| `LoopDriver.LoopRuntime.GrowStaging` | lib/Runtime/hipdnn_ep_runtime_loop.cpp:84-116 | the new array holds its own indices, pending copies are drained before the old one is freed, a refusal changes nothing |
| `LoopDriver.LoopRuntime.EnsureLoopBuffers` | lib/Runtime/hipdnn_ep_runtime_loop.cpp:82-153 | makes the driver calls for what is missing, in order, up to the first refusal, and returns 0 exactly when none is refused; with everything there, no call and nothing changed; every exit keeps the stream invariant and what was there or granted |
| `LoopDriver.LoopRuntime.DeviceStep` | lib/Runtime/hipdnn_ep_runtime_loop.cpp:227-248 | the device executing any pending command keeps the invariant and the state it will settle in |
| `LoopDriver.LoopRuntime.Trip` | lib/Runtime/hipdnn_ep_runtime_loop.cpp:227-248 | -1 exactly when the copy is refused, otherwise the body is called and its code returned; a successful trip advances the settled state by one body that sees its own iteration number |
| `LoopDriver.LoopRuntime.CheckCond` | lib/Runtime/hipdnn_ep_runtime_loop.cpp:171-189 | fails exactly when recording or waiting for the event is refused; otherwise the byte read is the condition of the last body |
| `LoopDriver.LoopRuntime.RunLoop` | lib/Runtime/hipdnn_ep_runtime_loop.cpp:194-277 | both drivers compute ONNX Loop from the condition and state that the first body finds: zero bodies on a false initial condition, otherwise up to M bodies or the first false condition; what it finds is the host's `true` whenever pending bodies keep the condition. Bodies are called in turn up to the first that fails; the result is -1 for a negative count or when a driver call was refused, after which no other is made, and else the code of the last body called, 0 for none |
| `LoopDriver.LoopRuntime.RunTrips` | lib/Runtime/hipdnn_ep_runtime_loop.cpp:226-254 | the iterations advance the settled state by exactly the bodies that a loop started in that state runs, and end as `RunLoop` says |
| `LoopDriver.LoopRuntime.LoopAfterFailedLoop` | lib/Runtime/hipdnn_ep_runtime_loop.cpp:220-250 | a loop whose first trip fails at its event record, then a loop of one trip: the carried state is that of ONNX Loop exactly when the second body does not notice the condition the first one left |
| `LoopDriver.CountingAfterFailedLoop` | lib/Runtime/hipdnn_ep_runtime_loop.cpp:220-250 | two bodies with which that second loop leaves another carried state than ONNX Loop |
| `LoopDriver.LoopRuntime.RunLoops` | lib/Runtime/hipdnn_ep_runtime_loop.cpp:194-277 | over any sequence of loop calls and any interleaving with the device, each call ends as `RunLoop` says and every body found its own iteration number |
| `LoopStream.LoopIsPrefix` | lib/Runtime/hipdnn_ep_runtime_loop.cpp:226-254 | where the driver's loop stops, the recursive reference definition of ONNX Loop stops |
| `LoopStream.KeptTrueRunsAll` | lib/Runtime/hipdnn_ep_runtime_loop.cpp:163-169 | when every body keeps the condition, the reference loop is M bodies in a row, so the counted and dynamic drivers leave equal state |
| `LoopStream.HostStoreIsHarmless` | lib/Runtime/hipdnn_ep_runtime_loop.cpp:220-224 | while pending bodies keep the condition true, the unordered host store of the condition byte changes nothing else that any body reads |
| `LoopStream.StoreReachesNextLoopIff` | lib/Runtime/hipdnn_ep_runtime_loop.cpp:220-224 | the store reaches the next loop for every state the device may be in and every pending part of an earlier loop if and only if the earlier loop's body, told to go on, always says to go on |
| `ConstantsWriter.WritePaddingTo` | lib/Support/ConstantsIO.cpp:21-40 | fails exactly for a target behind the position, otherwise appends that many zeros |
| `ConstantsWriter.WriteSplat` | lib/Support/ConstantsIO.cpp:42-65 | the tiled writes are the element repeated up to `size` bytes, whatever the sizes |
| `ConstantsWriter.WriteFileRef` | lib/Support/ConstantsIO.cpp:88-114 | succeeds exactly when the slice lies in the file, and appends it |
| `ConstantsWriter.WriteConstants` | lib/Support/ConstantsIO.cpp:116-148 | accepts exactly the lists that have an image and writes it, zero-padded to the declared size |
| `ConstantsWriter.ImageHolds` | lib/Support/ConstantsIO.cpp:116-148 | every constant's bytes are at its offset |
| `ConstantsWriter.ImageInOrder` | lib/Support/ConstantsIO.cpp:116-148 | accepted constants do not overlap and come in entry order |
| `ConstantsWriter.ImageGaps` | lib/Support/ConstantsIO.cpp:116-148 | every byte outside the constants is zero |
| `ExternalizeConstants.PlanLayout` | lib/Dialect/Transforms/ExternalizeConstants.cpp:504-546 | offsets and end of the full blob, the streamed blob or the partial file; fails exactly when one of them would not fit 64 signed bits |
| `ExternalizeConstants.LayoutInOrder` | lib/Dialect/Transforms/ExternalizeConstants.cpp:504-546 | the constants of a layout are aligned, in order, apart, and within its end |
| `ExternalizeConstants.FullAccepted` | lib/Dialect/Transforms/ExternalizeConstants.cpp:655-688 | the writer accepts the full list exactly when every file range can be read, and the file ends where the layout ends |
| `ExternalizeConstants.FullHolds` | lib/Dialect/Transforms/ExternalizeConstants.cpp:655-688 | every constant's bytes are in the full file at its offset in the blob |
| `ExternalizeConstants.PartialAccepted` | lib/Dialect/Transforms/ExternalizeConstants.cpp:715-732 | the partial file of the constants without splat or file source can always be written and ends where its own layout ends |
| `ExternalizeConstants.PartialHolds` | lib/Dialect/Transforms/ExternalizeConstants.cpp:581-590 | every such constant's bytes are in the partial file at the offset its metadata carries |
| `ConstantsLoader.ConstantsFileFetch` | lib/Runtime/hipdnn_ep_runtime_state.cpp:876-917 | mapped copy and rewind-skip-read each deliver what their branch's function says, from any reader position |
| `ConstantsLoader.FetchBranchesAgree` | lib/Runtime/hipdnn_ep_runtime_state.cpp:876-917 | the branches agree if and only if the 64-bit range check does not wrap past a negative offset |
| `ConstantsLoader.FrefCache.Open` | lib/Runtime/hipdnn_ep_runtime_state.cpp:792-809 | succeeds exactly for a path of at most 1023 characters that names a file, and then that file is the open one, whatever was open before |
| `ConstantsLoader.FrefCache.Fetch` | lib/Runtime/hipdnn_ep_runtime_state.cpp:812-833 | the asked range of the open file, or failure exactly when it does not have it |
| `ConstantsLoader.PerEntryLoad` | lib/Runtime/hipdnn_ep_runtime_state.cpp:930-1091 | succeeds exactly when the entry-by-entry specification can load everything, and then blob and disk tables are as it says |
| `ConstantsLoader.LoadsIffReadable` | lib/Runtime/hipdnn_ep_runtime_state.cpp:977-1091 | which is when every splat element has 1 to 8 bytes, every file reference a path of at most 1023 characters and its range in the file, every disk-resident one its range in a non-empty file, and every memory range can be fetched |
| `ConstantsLoader.LoadedHolds` | lib/Runtime/hipdnn_ep_runtime_state.cpp:977-1091 | constants that follow each other without overlap end up with their own bytes, disk-resident ones between them or not |
| `ConstantsLoader.BulkLoad` | lib/Runtime/hipdnn_ep_runtime_state.cpp:710-761 | 0 exactly when the file opens, is mapped or can be staged, and the copy succeeds; then the whole file is at the start of the blob, otherwise the blob is unchanged |
| `ConstantsAgreement.FileFitsBlob` | lib/Runtime/hipdnn_ep_runtime_state.cpp:663-681 | the file fits the blob allocated for its constants exactly when the declared size is at most the end of the layout |
| `ConstantsAgreement.FullBlobSize` | lib/Runtime/hipdnn_ep_runtime_state.cpp:663-681 | the size the runtime computes from the metadata of a full model is the end of the compiler's layout |
| `ConstantsAgreement.StreamedBlobSize` | lib/Runtime/hipdnn_ep_runtime_state.cpp:663-681 | the same for a streamed model, whose disk-resident constants take no room |
| `ConstantsAgreement.BakedSplat` | lib/Dialect/Transforms/GenerateInterface.cpp:124-131 | tiling the carried 8 bytes of a longer element gives the constant if and only if the element repeats them and they start over at its end |
| `ConstantsAgreement.StreamedDenotes` | lib/Runtime/hipdnn_ep_runtime_state.cpp:977-1060 | with the metadata of a streamed model and the partial file, mapped or not, each constant becomes its data, its splat of the carried bytes, or its file range unless the path is too long |
| `ConstantsAgreement.LoadsIffReached` | lib/Runtime/hipdnn_ep_runtime_state.cpp:930-1091 | the per-entry loader succeeds exactly when every file reference has a short enough path and every disk-resident range lies in a non-empty file |
| `ConstantsAgreement.LoadersAgree` | lib/Runtime/hipdnn_ep_runtime_state.cpp:710-1091 | for every list of constants the compiler can externalize, with readable files: the bulk loader of the full model gives every constant its bytes; the per-entry loader of the streamed model succeeds exactly as above, and then gives every constant the same bytes, on the device or on disk, except exactly the splats that do not survive being cut to 8 bytes |
| `AdaptiveBenchmark.RunsFitBudget` | lib/Compiler/AdaptiveBenchmark.cpp:37-43 | with a launch taken to last at least a microsecond: the run count is in [1, max], keeps the budget unless it is 1, and one more run would not |
| `AdaptiveBenchmark.LastCallDecides` | lib/Compiler/AdaptiveBenchmark.cpp:56-65 | candidates are called in index order and a coarse time is the answer to the candidate's last call |
| `AdaptiveBenchmark.CoarseCalls` | lib/Compiler/AdaptiveBenchmark.cpp:56-65 | for each candidate exactly one single-run call with one warmup launch, and, exactly when its answer is usable and two runs are allowed and fit the budget by it, one call more with as many runs as do; the last answer is the coarse time |
| `AdaptiveBenchmark.CoarseRunsFit` | lib/Compiler/AdaptiveBenchmark.cpp:57-65 | a multi-run coarse call follows its candidate's estimate and fits the coarse budget by it |
| `AdaptiveBenchmark.BundleFitsFastest` | lib/Compiler/AdaptiveBenchmark.cpp:92-99 | the bundle is at least its floor, above it leaves the fastest candidate all its runs within the precise budget, and one launch more would not |
| `AdaptiveBenchmark.PreciseRunsFit` | lib/Compiler/AdaptiveBenchmark.cpp:104-109 | precise calls share one bundle, have no warmup, and make as many runs as the cap and the budget allow, but at least one |
| `AdaptiveBenchmark.PositionIsRank` | lib/Compiler/AdaptiveBenchmark.cpp:73-79 | in the sorted list of finite candidates the position is the number of better ones |
| `AdaptiveBenchmark.ChosenByPosition` | lib/Compiler/AdaptiveBenchmark.cpp:78-90 | the sort-free definition of a chosen candidate (rank below topK, within the cutoff of the best) is the prefix the code cuts |
| `AdaptiveBenchmark.ChosenWithinFactor` | lib/Compiler/AdaptiveBenchmark.cpp:78-90 | with a cutoff, a candidate is chosen exactly when its rank is below topK and it is not slower than the factor times the best one or times a microsecond |
| `AdaptiveBenchmark.Shortlist` | lib/Compiler/AdaptiveBenchmark.cpp:67-90 | exactly the chosen candidates in (coarse time, index) order; empty exactly when no coarse time is finite |
| `AdaptiveBenchmark.SelectByAdaptiveBenchmark` | lib/Compiler/AdaptiveBenchmark.cpp:45-123 | none exactly for trivial options or no finite coarse time; precise calls are exactly the chosen candidates in rank order; the winner has the least finite precise time with ties to the better rank, or is the head |
| `AdaptiveBenchmark.SelectBySimpleBenchmark` | lib/Compiler/AdaptiveBenchmark.cpp:125-145 | one call per candidate; the winner has the least time, lowest index among equals; none exactly for trivial arguments or no finite time |
| `Autotune.RocMlirAutotuner.PickWinner` | lib/Compiler/RocMlirAutotune.cpp:736-842 | the winner is the one the chosen benchmark's rules name, and a candidate that compiled; a single compiled candidate wins unmeasured |
| `Autotune.RocMlirAutotuner.KeepWinner` | lib/Compiler/RocMlirAutotune.cpp:947-953 | succeeds exactly when the rules name somebody, and keeps the winner with its contest: the whole search space compiled at numbered calls, each candidate with the kernel its own compile gave or none, benchmarked at a call no other contest used |
| `Autotune.RocMlirAutotuner.AutotuneKernel` | lib/Compiler/RocMlirAutotune.cpp:856-923 | queueing puts a kernel in exactly the queue its problem calls for and keeps the queue invariant; refused exactly for an empty search space, changing nothing |
| `Autotune.RocMlirAutotuner.TuneNow` | lib/Compiler/RocMlirAutotune.cpp:862-953 | the fallback compiles with the cached winner exactly when there is one that compiles, otherwise counts its failure, forgets it, and remembers the winner of a fresh search; fails only for an empty space or when nobody wins |
| `Autotune.RocMlirAutotuner.BenchmarkOne` | lib/Compiler/RocMlirAutotune.cpp:992-1011 | a search fails exactly when its module cannot be read back or the rules name nobody among its candidates |
| `Autotune.SomebodyWins` | lib/Compiler/RocMlirAutotune.cpp:736-842 | the rules name somebody whenever the buffers are there and a candidate that compiled answers every timing call usably |
| `Autotune.RocMlirAutotuner.BenchmarkSearches` | lib/Compiler/RocMlirAutotune.cpp:992-1012 | searches in order; winners appear only for searches whose module was read back |
| `Autotune.RocMlirAutotuner.RunSearches` | lib/Compiler/RocMlirAutotune.cpp:955-1012 | one pick per queued search, old winners kept, each search kernel finished with its winner; new winners only from modules that could be read back |
| `Autotune.RocMlirAutotuner.PromotePending` | lib/Compiler/RocMlirAutotune.cpp:1015-1031 | fails exactly when a waiting kernel has a key without winner |
| `Autotune.RocMlirAutotuner.SettleHit` | lib/Compiler/RocMlirAutotune.cpp:1063-1082 | a hit keeps its own compile; only after a failed one is the problem forgotten and the kernel searched alone, with one pick |
| `Autotune.RocMlirAutotuner.SettleNext` | lib/Compiler/RocMlirAutotune.cpp:1063-1082 | settling the next hit finishes its kernel, keeps all others finished, and balances picks with failures |
| `Autotune.RocMlirAutotuner.CompileAndBenchmarkSearches` | lib/Compiler/RocMlirAutotune.cpp:955-1032 | one pick per queued search, old winners kept, search kernels finished, waiting kernels turned into hits; on an unreadable search the waiting kernels stay queued |
| `Autotune.RocMlirAutotuner.CompileDeferredCacheHits` | lib/Compiler/RocMlirAutotune.cpp:1037-1084 | every hit gets a binary of its own module, with the cached config unless that failed to compile for it, else with the winner of its own search; picks grow exactly with those failures |
| `Autotune.RocMlirAutotuner.Finish` | lib/Compiler/RocMlirAutotune.cpp:554-557 | with no earlier failure: success leaves empty queues, every queued kernel has a binary of its own module compiled with the winner of a fair contest for its problem (or of its own search when that winner failed or it has no key), picks per key = (1, or 0 if cached) + failures, one contest per pick, and the no-winner branch is unreachable; any other failure has a queued module to blame, which cannot be read back, has an empty space or has nobody winning; a stranded kernel makes success impossible |
| `Autotune.SameProblemSameConfig` | lib/Compiler/RocMlirAutotune.cpp:1008-1030 | finished kernels that share a problem key share one perfConfig, which won a fair contest over the whole search space of a module with that problem, unless it failed to compile for one of them, which then has the winner of its own |
| `Autotune.FairIsFastest` | lib/Compiler/RocMlirAutotune.cpp:736-842 | no perfConfig of the space that compiled in a simple contest had a smaller time in it than the winner |
| `Autotune.RocMlirAutotuner.InFlightExactly` | lib/Compiler/RocMlirAutotune.cpp:862-893 | a search is queued exactly for the problems of queued kernels that have no winner yet |
| `Autotune.RocMlirAutotuner.PicksFollow` | lib/Compiler/RocMlirAutotune.cpp:955-1012 | the queue holds one search for each such problem and none for another |
| `Autotune.RocMlirAutotuner.FailureStrandsLaterKernels` | lib/Compiler/RocMlirAutotune.cpp:1015-1023 | after a failed finish the no-winner branch is reachable: a concrete run |
| `Autotune.WinnerWasTimed` | lib/Compiler/RocMlirAutotune.cpp:800-807 | the selected candidate answered a timing call, so it compiled |
| `Autotune.StampDispatches` | lib/Compiler/RocMlirKernelCompiler.cpp:439-456 | succeeds exactly when every callee has a non-empty binary, and gives each dispatch its callee's kernel |
| `Autotune.CompileAndEmbed` | lib/Compiler/RocMlirKernelCompiler.cpp:398-456 | succeeds exactly when the queue was worked off and every dispatch names a kernel; each dispatch then holds a non-empty binary of its own callee |
| `DiskGather.BoundsIncrease` | lib/Runtime/hipdnn_ep_runtime_state.cpp:303-306 | slice bounds rise from 0 to n for every thread count |
| `DiskGather.SomeSlice` | lib/Runtime/hipdnn_ep_runtime_state.cpp:303-306 | every byte lies in some slice |
| `DiskGather.OnlySlice` | lib/Runtime/hipdnn_ep_runtime_state.cpp:303-306 | and in no second one |
| `DiskGather.RowGather.CopyByte` | lib/Runtime/hipdnn_ep_runtime_state.cpp:251-281 | a worker's next byte was written by nobody before, and gets the row's byte or zero |
| `DiskGather.RowGather.GatherRows` | lib/Runtime/hipdnn_ep_runtime_state.cpp:295-341 | in every interleaving of workers and inline copies each byte of the region is written exactly once with the right value, and nothing outside it |
| `DiskGather.ResolveRows` | lib/Runtime/hipdnn_ep_runtime_state.cpp:1391-1402 | negative indices count from the end, out-of-range ones name no row |
| `DiskGather.DiskConstantGatherRows` | lib/Runtime/hipdnn_ep_runtime_state.cpp:1351-1412 | error exactly for a bad index width or a table of another size; otherwise output row k is the table row index k names, or zeros |
| `TensorSize.CalculateTensorSize` | lib/Runtime/hipdnn_ep_runtime_tensor.cpp:213-252 | the exact byte count when it fits 64 bits, 0 otherwise and for missing or negative shapes |
| `TensorSize.OverflowLasts` | lib/Runtime/hipdnn_ep_runtime_tensor.cpp:236-244 | a partial product that overflowed means overflow of the whole or an empty tensor |
| `TensorSize.ZeroMeans` | lib/Runtime/hipdnn_ep_runtime_tensor.cpp:379-400 | size 0, accepted as an empty tensor, is what a zero extent, a negative extent and a count beyond 64 bits get, and nothing else; never a scalar |
| `TensorPool.GpuBufferPool.OnePlace` | lib/Runtime/hipdnn_ep_runtime_tensor.cpp:152-172 | every pooled buffer is in exactly one place: once in the free list of its size, or in one tensor buffer |
| `TensorPool.GpuBufferPool.PoolAlloc` | lib/Runtime/hipdnn_ep_runtime_tensor.cpp:154-166 | reuses the last freed buffer of that size, asks the driver only when there is none; the result is in nobody else's hands |
| `TensorPool.GpuBufferPool.PoolRelease` | lib/Runtime/hipdnn_ep_runtime_tensor.cpp:168-172 | puts back exactly what the tensor buffer held, under its own size, and nothing when it held nothing |
| `TensorPool.GpuBufferPool.PrepareInput` | lib/Runtime/hipdnn_ep_runtime_tensor.cpp:286-540 | error codes in order; empty tensors own nothing, GPU tensors alias the caller's memory, others own a buffer of their size; on failure the tensor buffer is untouched and no buffer is lost or kept |
| `TensorPool.GpuBufferPool.FinalizeOutput` | lib/Runtime/hipdnn_ep_runtime_tensor.cpp:543-615 | returns what the buffer owned, and nothing for aliases, empty tensors and a second call; enqueues one copy exactly for a non-empty buffer that is not an alias, from its own memory, or from null exactly when it was already let go |
| `TensorPool.GpuBufferPool.FinalizeTwice` | lib/Runtime/hipdnn_ep_runtime_tensor.cpp:543-615 | the second of two calls releases nothing and copies from null to the caller's memory exactly when the tensor is not empty, also for an alias the first call did not copy |
| `TensorPool.GpuBufferPool.FreeInput` | lib/Runtime/hipdnn_ep_runtime_tensor.cpp:686-708 | the same without a copy |
| `Strides.ComputeStrides` | lib/HipDNNGraph/HipDNNGraph.cpp:34-42 | each stride is the number of elements below it |
| `Strides.OffsetIsIndexed` | lib/HipDNNGraph/HipDNNGraph.cpp:34-42 | every multi-index has an offset in range and is the one multi-index there |
| `Strides.IndexHasOffset` | lib/HipDNNGraph/HipDNNGraph.cpp:34-42 | every offset in range is reached |
| `Strides.ComputeNHWCStrides` | lib/HipDNNGraph/HipDNNGraph.cpp:48-53 | an element's NHWC offset is the row-major offset of its channels-last index |
| `Strides.ComputeConvStrides` | lib/HipDNNGraph/HipDNNGraph.cpp:56-61 | the strides of the layout asked for |
| `Strides.LayoutsPermute` | lib/HipDNNGraph/HipDNNGraph.cpp:44-61 | NCHW and NHWC differ by a permutation of the same memory, with its inverse |
| `JsonEscape.JsonEscape` | lib/Runtime/chrome_trace.cpp:29-60 | reading the result back gives the input and stops at the closing quote, whatever follows; no raw control byte |
| `JsonEscape.EscapeReadsBack` | lib/Runtime/chrome_trace.cpp:29-60 | the round trip through a reader written from section 7 of RFC 8259 |
| `JsonEscape.EscapeIsInjective` | lib/Runtime/chrome_trace.cpp:29-60 | different strings never look the same |

## Left out

- Session.RuntimeState.EnsureBuffer: the process abort on a refused workspace is modelled as the error return of the other scratch buffers.
- Session.RuntimeState.Cleanup: the pinned iteration array (see `LoopDriver.LoopRuntime.GrowStaging`), the gather staging buffer, operator state, host arrays and library handles are not modelled.
- Session.RuntimeState.DeviceAlloc: profiling samples, the log line and the environment variables that size the arena are not modelled.
- LoopDriver.LoopRuntime.RunLoop: trip counts from 2^61 on are excluded, because the staging array is then too small (see `LoopDriver.StagingExact`).
- ConstantsLoader.PerEntryLoad: device copies and a staging allocation that fail are not modelled.
- ExternalizeConstants.PlanLayout: which constants are externalized, and the choice between streaming and full mode, are not modelled.
- ConstantsWriter.WriteConstants: a writer that stops early is not modelled.
- AdaptiveBenchmark.SelectByAdaptiveBenchmark: casts of run counts and bundles to 32 bits, infinite or overflowing intermediate doubles and the cooldown pause are not modelled; sorting is the library's, stood for by an insertion sort.
- Autotune.RocMlirAutotuner.AutotuneKernel: the two modes of the source function are two methods, this one and `TuneNow`.
- Autotune.RocMlirAutotuner.PickWinner: which oracle answer belongs to a failed module load is part of the timing oracle; logging and phase times are not modelled.
- DiskGather.DiskConstantGatherRows: index readback, staging refusal and upload errors, page prefetch and operating-system thread calls are not modelled; a thread that cannot be created is.
- TensorPool.GpuBufferPool.PrepareInput: null session, span and output pointers and the performance counters are not modelled.
- Strides.ComputeStrides: 64-bit overflow of the products is not modelled.
- JsonEscape.EscapeReadsBack: the reader turns each `\u` code unit into UTF-8 on its own; pairing of surrogates, which the writer never emits, is not modelled.
- HIP, hipDNN, hipBLASLt and ROCTx calls beyond the assumptions above: libraries that are not part of this model.
- Compiler passes, the compiler driver, layout planning for Resize, kernel wrappers, plugin and operator-state tables, environment and option parsing, crash handlers: thin or purely tabular.
