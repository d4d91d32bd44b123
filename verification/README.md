# Estela: a Dafny model of the STRELA compiler and driver

Estela compiles `i32` tensor operations for the STRELA CGRA and runs them through an
IREE HAL driver. A compiler pass describes memory traffic as columns; at run time the
driver turns columns into words that a device reads and writes in DRAM behind a CPU
cache it does not snoop. This project models both sides and proves that the description
and the traffic mean the same.

| files | what they model |
|---|---|
| `Words`, `Status` | machine words, bit operations, statuses |
| `CacheLines`, `Allocator` | cache-line rounding and padded allocations |
| `Memory`, `Jobs`, `Device` | DRAM, write-back cache with dirty lines, jobs, the sticky device error, other threads |
| `Columns`, `Buffers`, `Commands` | column resolution, buffer ranges and the command buffer |
| `Effects` | what each command does, byte by byte and word by word |
| `FailedDispatch` | what a dispatch whose job fails leaves in cache and DRAM |
| `Executables` | verification, loading, freeing, lookup |
| `Offsets`, `Tensors`, `Linalg`, `Compile`, `EndToEnd` | from `linalg.generic` to a serialized export and to memory |
| `Gemm`, `Conv` | the tiled centered GEMM and the convolution rewritten to it |
| `Ir`, `DeadOps`, `Wrapping`, `WrapOrder`, `Transfers` | SSA code, the dead-op sweep, transfer wrapping |
| `Rescale` | the batch loop and the greedy rewrite of `tosa.rescale` |
| `Queue` | waits, work and signals of concurrent submitters |

`dafny verify dfyconfig.toml` checks everything.

## How the hard parts are stated

Memory is a sequence of 64-byte lines. `Memory.Represents` relates DRAM, cache and dirty
bits to the flat memory the CPU must see, up to the lines the device may have written
since they were dropped. Every step of the driver is preceded by arbitrary evictions,
prefetches and CPU writes of other threads to lines outside the buffers this thread uses;
the ghost field `flat` of `Device` follows the flat meaning, and the top-level contracts
are about `CpuView`, what the CPU reads.

A run of IR ops is a fold that takes the meaning of every op as a parameter, so a theorem
for all meanings says that a rewrite preserves the program. The queue is a state machine
over the steps of all submitters; its theorems quantify over runs.

What a specification function means is stated once more without it: lemmas named `Means`
and `Effect` give bytes, words, sums and fields outright, and `Ordinary` ones say that the
matchers accept what they are for.

## What the proofs found

Where a promise does not hold of the code, the code is modelled as it is and the exact
condition is proved.

- The whole-tensor check looks at offsets and strides only: a corner of a tensor is
  accepted (`Compile.CornerIsAccepted`); which blocks are safe is `Tensors.ContiguousIff`.
- The relu matcher does not look at indexing maps (`Linalg.TransposingReluIsAccepted`,
  `Linalg.BroadcastReluIsAccepted`); a word-by-word kernel is right exactly for equal maps
  (`Linalg.WordByWordIff`).
- The offset matcher does not look at the width the two halves are extended to
  (`Offsets.OffsetTranslationIff`, `Offsets.FortyEightBitsDisagree`).
- The span and offset sums of column resolution can wrap, and then a column outside its
  binding is accepted (`Columns.WrappedSpanIsAccepted`, `Columns.FootprintIff`).
- A convolution whose weights had the channels before another dimension is matched, but
  the GEMM it becomes refuses its operands (`Conv.CollapsedIsAcceptedIff`,
  `Conv.UnluckyIsMatchedAndRejected`).
- The batch loop scales a rank-1 per-channel rescale as channel 0 throughout
  (`Rescale.RankOneExactIff`).
- Verification compares the ordinals of push constants only with the count the executable
  itself declares. From 2^30 - 1 on, the dispatch check wraps in the 32-bit `size_t`: the
  ordinal 2^30 - 1 is accepted, found present when nothing is pushed, and read outside the
  constants (`Executables.WrappedOrdinalIsAccepted`). An accepted column is safe for all
  constants exactly when all its ordinals are below 2^30 - 1
  (`Columns.CheckIsExactIff`, `Executables.VerifiedColumnIsReadableIff`).
- Destroying an executable leaks the kernels after a free that fails, because the sticky
  error is cleared only once (`Executables.SecondKernelLeaks`), and leaks them all when an
  error is pending (`Executables.PendingErrorLeaks`), as a failed buffer release leaves it.
  Destroying is neutral, whatever frees fail, exactly when there is no kernel, or no error
  is pending and there is at most one (`Executables.DestroyIsNeutralIff`,
  `Executables.FailedCreateIsNeutralIff`, `Executables.CreateThenDestroyIsNeutralIff`).
- Releasing a buffer never clears the error either, so a run of releases gives every block
  back exactly when none before the last fails and no error is pending
  (`Allocator.AllReleasedIff`).
- The allocator says the CPU never sees anything stale. A dispatch whose job fails skips
  the invalidation, and the promise then holds exactly when there is no output word
  (`FailedDispatch.FailedDispatchIsCoherentIff`). A dispatch that succeeds afterwards, or
  invalidating the output columns, restores it (`Commands.CommandBuffer.DispatchAgain`,
  `Commands.FreshColumnsNotStale`).
- The flush and invalidate commands do not resolve the whole-buffer length, and sync at
  most one line for it (`CacheLines.WholeLines`). They reach the range exactly when it is
  empty, or starts more than one byte into a line and ends in that line
  (`CacheLines.WholeCoversIff`, `CacheLines.WholeBufferIsMissed`).
- A buffer whose padded size reaches 2^34 bytes gets a smaller block
  (`Allocator.RequestCoversIff`), and a failed allocation whose cleanup fails leaves the
  sticky error set (`Allocator.BufferAllocator.AllocateBuffer`).

## Assumptions

- libstrela: blocks are line aligned and disjoint; flush cleans, inval drops; calls do
  nothing while the sticky error is set; a kernel holds the bitstream it was set to; a job
  writes only its output words, and what it writes is a function of the bitstream and of
  the input words as they were before it wrote any: its outputs do not overlap its inputs,
  or every overlapping word is read first.
- The words of a bitstream are not interpreted. The end-to-end theorem assumes that the
  add table adds and that the relu table does relu (`EndToEnd.TablesRun`), after the
  comments beside them; that an op gets its table, and the table its kernel, is proved.
  `Gemm.JobValue` is the same for the GEMM.
- `size_t` is 32 bits and `iree_device_size_t` 64, as on the ARM target.
- Buffers of one thread's commands are not written by other threads while they run, and
  no other thread uses the same libstrela device during a command. The driver takes no
  lock for it; what an error that another thread set in between would do is not modelled.
- `strela_execute`, which the GEMM calls without any flush or invalidate, is assumed to
  make the columns of its job coherent, so the GEMM is stated on flat memory.
- IREE's buffer map, fill, write and copy helpers write through the mapping and may
  flush; its semaphores advance strictly and stay failed once failed.

## Model

| member | source | states |
|---|---|---|
| CacheLines.MaskIsDivMod | runtime/src/estela/hal/drivers/strela/buffer.c:157-173 | Rounding with the cache-line mask is rounding by division and by remainder. |
| CacheLines.LeastCover | runtime/src/estela/hal/drivers/strela/buffer.c:162-173 | The synced word range is the least cache-line aligned cover of the byte range. |
| CacheLines.SyncIsIsolated | runtime/src/estela/hal/drivers/strela/buffer.c:157-208 | Syncing any bytes of a buffer stays in its padded allocation and touches no line of a disjoint one. |
| CacheLines.BufferLines | runtime/src/estela/hal/drivers/strela/buffer.c:162-173 | The word range starts at the last line boundary before the offset and ends at the first after the end. |
| CacheLines.PaddedSize | runtime/src/estela/hal/drivers/strela/allocator.c:163-168 | The padded size is the next whole number of lines. |
| CacheLines.WholeLines | runtime/src/estela/hal/drivers/strela/command_buffer.c:412-434 | Syncing with the unresolved whole-buffer length wraps around to at most the line of the offset. |
| CacheLines.WholeCoversIff | runtime/src/estela/hal/drivers/strela/command_buffer.c:412-434 | The bytes from the offset on are all on lines synced for the unresolved length exactly when there are none, or the offset is more than one byte into its line and they end there. |
| CacheLines.WholeBufferIsMissed | runtime/src/estela/hal/drivers/strela/command_buffer.c:412-434 | Flushing a whole buffer of two lines from its start syncs no line. |
| Allocator.LiveBuffersAreIsolated | runtime/src/estela/hal/drivers/strela/allocator.c:137-215 | In every state with separated live buffers, a flush or invalidate of one reaches no line of another. |
| Allocator.BuffersShareNoLine | runtime/src/estela/hal/drivers/strela/allocator.c:150-175 | Buffers in different live blocks share no line that syncing either can touch, so threads working on them own disjoint lines. |
| Allocator.UnpaddedNeighboursShareALine | runtime/src/estela/hal/drivers/strela/allocator.c:150-175 | Without padding, two 4-byte neighbours share a line that syncing either touches. |
| Allocator.BufferAllocator.BufferAlloc | runtime/src/estela/hal/drivers/strela/allocator.c:160-180 | Assumed `strela_buffer_alloc`: a new line-aligned block of that many words that overlaps no live one, or an error and nothing allocated. |
| Allocator.RequestCoversIff | runtime/src/estela/hal/drivers/strela/allocator.c:163-168 | The block asked for is as large as the buffer exactly when the padded size is below 2^34 bytes. |
| Allocator.BufferAllocator.AllocateBuffer | runtime/src/estela/hal/drivers/strela/allocator.c:137-215 | A success adds exactly one live block of the requested words; a failure leaves the live blocks as they were, and an error only if a cleanup free was needed. |
| Allocator.AllReleasedIff | runtime/src/estela/hal/drivers/strela/buffer.c:237-245 | Releasing buffers in turn gives every block back exactly when there is none, or no error is pending and no free before the last fails. |
| Allocator.AlwaysReleasedIff | runtime/src/estela/hal/drivers/strela/buffer.c:237-245 | Whatever frees fail, exactly when there is none, or one and no error pending. |
| Allocator.BufferAllocator.ReleaseBuffers | runtime/src/estela/hal/drivers/strela/buffer.c:237-245 | Releasing every live buffer leaves the blocks and the error that the condition is about. |
| Memory.CoherentIff | runtime/src/estela/hal/drivers/strela/command_buffer.c:310-408 | With nothing stale, the invariant says exactly: the CPU reads the flat memory and every clean line equals DRAM. |
| Memory.SpontaneousRunPreserves | runtime/src/estela/hal/drivers/strela/command_buffer.c:310-408 | No run of evictions and prefetches changes the memory represented or makes a line dirty. |
| Memory.CpuWriteRepresents | runtime/src/estela/hal/drivers/strela/command_buffer.c:168-212 | A CPU write through the cache is a write to flat memory, if the line is not stale. |
| Memory.DeviceReads | runtime/src/estela/hal/drivers/strela/command_buffer.c:361-373 | The device reads what the CPU wrote wherever the line is clean. |
| Memory.DropDirtyLosesWrites | runtime/src/estela/hal/drivers/strela/buffer.c:175-192 | Dropping a dirty line loses CPU writes: why invalidation cleans first. |
| Memory.SkippingInvalidationIsStale | runtime/src/estela/hal/drivers/strela/command_buffer.c:395-405 | Without the invalidation the CPU keeps reading a prefetched line whatever the job wrote. |
| Jobs.FlatJobAgrees | runtime/src/estela/hal/drivers/strela/command_buffer.c:373-395 | A job depends on and changes only the lines of its columns. |
| Jobs.SingleOutput | runtime/src/estela/hal/drivers/strela/command_buffer.c:373-395 | A job with one output column leaves that column's words in memory and changes nothing else. |
| Device.Device.Interfere | runtime/src/estela/hal/drivers/strela/command_buffer.c:310-408 | Between two driver steps the cache and other threads change nothing on the lines this thread owns, and dirty none of them. |
| Device.Device.StatusFromDev | runtime/src/estela/hal/drivers/strela/strela_driver_module.c:18-38 | The sticky error becomes a status, OK exactly when it was clear, with the code of each errno and libstrela error, and is cleared. |
| Device.Device.BufferFlush | runtime/src/estela/hal/drivers/strela/buffer.c:195-208 | Assumed `strela_buffer_flush`: when no error is set, the lines are clean and memory is unchanged. |
| Device.Device.BufferInval | runtime/src/estela/hal/drivers/strela/buffer.c:178-192 | Assumed `strela_buffer_inval` on clean lines: they are no longer stale and memory is unchanged. |
| Device.Device.JobWait | runtime/src/estela/hal/drivers/strela/command_buffer.c:373-395 | A completed job turns memory into the flat job's result under the bitstream loaded in its kernel and any cache activity; any other job changes only its output words; its output lines become stale. |
| Device.Device.RunConf | runtime/src/estela/hal/drivers/strela/command_buffer.c:373-395 | The device's part: it reads the flat inputs and, if it completes, leaves the flat job, whatever the cache does. |
| Device.Device.KernelAlloc | runtime/src/estela/hal/drivers/strela/executable.c:207-214 | Assumed `strela_kernel_alloc`: a fresh kernel with any contents joins the pool, or an error is set and the pool is unchanged. |
| Device.Device.KernelSet | runtime/src/estela/hal/drivers/strela/executable.c:207-214 | Assumed `strela_kernel_set`: the kernel holds the bitstream, unless an error is set; no other kernel changes. |
| Device.Device.KernelFree | runtime/src/estela/hal/drivers/strela/executable.c:224-238 | Assumed `strela_kernel_free`: nothing happens while an error is set, else the kernel leaves the pool. |
| Device.Device.JobConfig | runtime/src/estela/hal/drivers/strela/command_buffer.c:373-376 | Assumed `strela_job_config`: a fresh job with these columns, or an error and no job. |
| Device.Device.JobSubmit | runtime/src/estela/hal/drivers/strela/command_buffer.c:376-377 | Assumed `strela_job_submit`: the job is pending, or an error is set. |
| Device.Device.JobPoll | runtime/src/estela/hal/drivers/strela/command_buffer.c:383-385 | Assumed `strela_job_poll`: the state of the job when no error is set. |
| Device.Device.JobFree | runtime/src/estela/hal/drivers/strela/command_buffer.c:394-397 | Assumed `strela_job_free`: nothing happens while an error is set, else the job is gone. |
| Device.Device.ReadInputs | runtime/src/estela/hal/drivers/strela/command_buffer.c:361-373 | On clean columns the device reads from DRAM exactly the streams of flat memory. |
| Device.Device.RunWrites | runtime/src/estela/hal/drivers/strela/command_buffer.c:373-395 | A job that completes applies all its writes; any job writes nothing outside its output words. |
| Columns.AddConstants | runtime/src/estela/hal/drivers/strela/command_buffer.c:263-275 | For at most two ordinals the offset loop fails exactly when its wrapping check fires on one; it reads outside the constants exactly when it takes one that is not there first, and otherwise gives the static offset plus the 32-bit digits modulo 2^64. |
| Columns.ColumnResolve | runtime/src/estela/hal/drivers/strela/command_buffer.c:242-308 | The resolution returns the status and column of its specification whenever it reads no constant that is not there, and tells exactly when it does. |
| Columns.CheckIsExactIff | runtime/src/estela/hal/drivers/strela/command_buffer.c:269-273 | The driver's check tells which constants were pushed, for every block of fewer than 2^30, exactly when the ordinal is below 2^30 - 1. |
| Columns.AlwaysReadableIff | runtime/src/estela/hal/drivers/strela/command_buffer.c:263-275 | Whatever constants are pushed the driver reads none outside of them, exactly when the column has at most two ordinals and all are below 2^30 - 1. |
| Columns.Footprint | runtime/src/estela/hal/drivers/strela/command_buffer.c:242-308 | Word i of a resolved column is at its address, in the bound range, the synced span and the allocation, and the span is tight, when no sum wraps. |
| Columns.FootprintIff | runtime/src/estela/hal/drivers/strela/command_buffer.c:276-306 | A resolved column stays in its bound range exactly when no sum or product of the resolution wrapped. |
| Columns.WrappedSpanIsAccepted | runtime/src/estela/hal/drivers/strela/command_buffer.c:276-290 | A span product that wraps is accepted: 2^30 + 1 words in a 4-byte binding. |
| Columns.CompilerColumnsDoNotWrap | compiler/src/estela/StrelaTarget.cpp:35-59 | For columns the compiler emits no step of the 32-bit span computation wraps. |
| Columns.Resolved | runtime/src/estela/hal/drivers/strela/command_buffer.c:242-308 | What a successful resolution says of binding, constants and placement. |
| Buffers.PutBytesAt | runtime/src/estela/hal/drivers/strela/command_buffer.c:170-198 | Every byte after a fill or update: the given byte inside the range, the old one outside. |
| Buffers.CopyMovesBytes | runtime/src/estela/hal/drivers/strela/command_buffer.c:200-212 | A copy between disjoint ranges moves the source bytes. |
| Buffers.CopyLeavesRest | runtime/src/estela/hal/drivers/strela/command_buffer.c:200-212 | A copy changes no byte outside its target. |
| Buffers.WholeSyncIff | runtime/src/estela/hal/drivers/strela/buffer.c:157-208 | The same for the lines libstrela is asked for and the bytes of a range in its buffer. |
| Buffers.LinesToSync | runtime/src/estela/hal/drivers/strela/buffer.c:162-208 | The lines libstrela is asked to sync are exactly those of the byte range, and belong to the buffer. |
| Commands.ColumnWordsSynced | runtime/src/estela/hal/drivers/strela/command_buffer.c:276-306 | Every word of a resolved column is on a line that is synced for it and owned by the buffers of the dispatch. |
| Commands.FlatStepAgrees | runtime/src/estela/hal/drivers/strela/command_buffer.c:168-408 | A command depends on and changes only the lines of the buffers in use. |
| Commands.CommandBuffer.FlushRange | runtime/src/estela/hal/drivers/strela/buffer.c:195-208 | After a successful flush no line of the range is dirty; memory is unchanged and no error stays set. |
| Commands.CommandBuffer.InvalidateRange | runtime/src/estela/hal/drivers/strela/buffer.c:178-192 | After a successful invalidation no line of the range is stale and nothing the CPU wrote is lost. |
| Commands.CommandBuffer.FillBuffer | runtime/src/estela/hal/drivers/strela/command_buffer.c:170-183 | A successful fill is the flat fill; its pattern length divides the range. |
| Commands.CommandBuffer.CopyBuffer | runtime/src/estela/hal/drivers/strela/command_buffer.c:200-212 | A copy is the byte-by-byte flat copy, whether or not the memory is flushed afterwards. |
| Commands.CommandBuffer.StartJob | runtime/src/estela/hal/drivers/strela/command_buffer.c:373-379 | Configure, submit and wait: a completed job is the flat job; if the device did not run it nothing became stale. |
| Commands.CommandBuffer.FinishJob | runtime/src/estela/hal/drivers/strela/command_buffer.c:382-397 | Poll and free: the job is gone and the error clear; a success means the job completed. |
| Commands.CommandBuffer.RunJob | runtime/src/estela/hal/drivers/strela/command_buffer.c:373-397 | On every path the job is freed and the sticky error is clear; success means the flat job ran; if the device did not run it nothing became stale. |
| Commands.CommandBuffer.DispatchFunction | runtime/src/estela/hal/drivers/strela/command_buffer.c:310-408 | A successful dispatch is the flat dispatch with no output line stale; a failure before the device ran the job changes nothing, a later one at most output words and makes at most output lines stale; no job is left. |
| Commands.CommandBuffer.DispatchAgain | runtime/src/estela/hal/drivers/strela/command_buffer.c:310-408 | A dispatch that succeeds after one that failed makes up for it: nothing is stale and the CPU reads the flat dispatch of what the failure left. |
| Commands.FreshColumnsNotStale | runtime/src/estela/hal/drivers/strela/command_buffer.c:399-407 | Invalidating every output column leaves no output line stale, also after a failed dispatch. |
| Commands.CommandBuffer.FlushBuffer | runtime/src/estela/hal/drivers/strela/command_buffer.c:412-422 | A flush command changes nothing the CPU sees; after a success no byte of the range is on a dirty line, with an explicit length and with the unresolved one whenever it reaches the range. |
| Commands.CommandBuffer.InvalidateBuffer | runtime/src/estela/hal/drivers/strela/command_buffer.c:424-434 | An invalidate command changes nothing the CPU sees; after a success no byte of the range is on a stale line, with an explicit length and with the unresolved one whenever it reaches the range. |
| Commands.CommandBuffer.Replay | runtime/src/estela/hal/drivers/strela/command_buffer.c:103-434 | Whole-run coherence: after any successfully replayed command list the CPU sees what the same list leaves in memory without caches, and every clean line equals DRAM. |
| Commands.RunExtends | runtime/src/estela/hal/drivers/strela/command_buffer.c:103-117 | Replaying one more command extends the flat run by that command's flat step, a barrier by nothing. |
| Commands.CommandBuffer.MapWrite | runtime/src/estela/hal/drivers/strela/command_buffer.c:185-198 | Writing bytes through the mapping is the flat write of the range, under any cache activity. |
| Commands.CommandBuffer.ResolveColumns | runtime/src/estela/hal/drivers/strela/command_buffer.c:330-345 | Succeeds exactly when all eight columns resolve, with the specified columns. |
| Commands.CommandBuffer.FlushColumns | runtime/src/estela/hal/drivers/strela/command_buffer.c:345-360 | On success no line of any column is dirty; memory is unchanged. |
| Commands.CommandBuffer.InvalidateColumns | runtime/src/estela/hal/drivers/strela/command_buffer.c:399-407 | On success no line of any output column is stale; memory is unchanged. |
| Commands.CommandBuffer.Execute | runtime/src/estela/hal/drivers/strela/command_buffer.c:103-434 | Each successful command is its flat step and leaves nothing stale and no job. |
| Commands.DispatchOwned | runtime/src/estela/hal/drivers/strela/command_buffer.c:310-360 | Every word of every column of a safe dispatch is on a line this thread owns. |
| Effects.CopyEffect | runtime/src/estela/hal/drivers/strela/command_buffer.c:200-212 | Byte i of the target of a copy is byte i of its source, for ranges that do not overlap. |
| Effects.FillEffect | runtime/src/estela/hal/drivers/strela/command_buffer.c:170-183 | Byte i of the target of a fill is the byte of the pattern at i modulo its length. |
| Effects.UpdateEffect | runtime/src/estela/hal/drivers/strela/command_buffer.c:185-198 | Byte i of the target of an update is byte i of the data from its offset on. |
| Effects.TransferFrame | runtime/src/estela/hal/drivers/strela/command_buffer.c:170-212 | A fill, update or copy changes no byte outside its target. |
| Effects.ExecuteTransfer | runtime/src/estela/hal/drivers/strela/command_buffer.c:170-212 | After a fill, update or copy that succeeded the CPU reads the bytes of pattern, data or source over the target, and every other byte as before. |
| Effects.RunEffect | runtime/src/estela/hal/drivers/strela/command_buffer.c:242-408 | A dispatch with one output column leaves in each of its words, at the address of buffer, binding, offset and step, what the bitstream in its kernel makes of the words at the addresses of the input columns. |
| FailedDispatch.FailedDispatchIsCoherentIff | runtime/src/estela/hal/drivers/strela/command_buffer.c:347-408 | No run of a dispatch whose job fails leaves anything for the CPU to read stale exactly when no output column has a word. |
| FailedDispatch.SomeFailedRunIsStale | runtime/src/estela/hal/drivers/strela/command_buffer.c:347-408 | With an output word there is such a run: clean the columns, prefetch an output line, store one word, fail. |
| FailedDispatch.NothingStaleWithoutOutput | runtime/src/estela/hal/drivers/strela/command_buffer.c:347-408 | Without an output word every failed run leaves the CPU reading flat memory. |
| Executables.ColumnVerify | runtime/src/estela/hal/drivers/strela/executable.c:38-64 | Accepts a column exactly when it is unused, or in the layout, word aligned and with at most two ordinals in range. |
| Executables.FlatbufferVerify | runtime/src/estela/hal/drivers/strela/executable.c:68-117 | Accepts an executable exactly when every export is present, named, full size and all its columns verify. |
| Executables.ExportVerifiesMeans | runtime/src/estela/hal/drivers/strela/executable.c:38-117 | An export verifies exactly when it has a name, 80 words, four columns each way, and every used column is in the layout, word aligned and with at most two ordinals in range. |
| Executables.VerifiedColumnResolves | runtime/src/estela/hal/drivers/strela/executable.c:38-117 | Given the constants and bindings its export declares, a verified column never fails to resolve for a missing one; exactly three placement checks remain. |
| Executables.VerifiedColumnIsReadableIff | runtime/src/estela/hal/drivers/strela/executable.c:38-64 | A verified column makes the driver read outside the constants for no block of them exactly when all its ordinals are below 2^30 - 1; fewer than 2^30 declared constants are enough. |
| Executables.WrappedOrdinalIsAccepted | runtime/src/estela/hal/drivers/strela/executable.c:55-62 | The ordinal 2^30 - 1 passes verification when 2^30 constants are declared, and with none pushed the driver finds none missing and reads outside. |
| Executables.LookupByName | runtime/src/estela/hal/drivers/strela/executable.c:282-303 | Finds the first export of that name, and reports NOT_FOUND exactly when there is none. |
| Executables.Create | runtime/src/estela/hal/drivers/strela/executable.c:146-222 | A success loads one distinct kernel per export, each holding its own bitstream, and leaves the others as they were; a failure leaves the pool as the free loop on the loaded kernels does; an error that was pending makes it fail and changes nothing. |
| Executables.LoadKernel | runtime/src/estela/hal/drivers/strela/executable.c:207-214 | One round of the loading loop: a success has the bitstream in a fresh kernel, and nothing else changes. |
| Executables.Destroy | runtime/src/estela/hal/drivers/strela/executable.c:224-238 | The pool afterwards is what the free loop makes of it for the error before it and the frees that failed; all kernels are returned if there is none, or no error was pending and there is at most one. |
| Executables.AllFreedIff | runtime/src/estela/hal/drivers/strela/executable.c:224-238 | One run of the free loop returns every kernel exactly when none comes after the error, pending before the loop or set by a free. |
| Executables.DestroyIsNeutralIff | runtime/src/estela/hal/drivers/strela/executable.c:224-238 | The free loop returns every kernel, whatever frees fail, exactly when the executable holds none, or no error is pending and it holds at most one. |
| Executables.FailedCreateIsNeutralIff | runtime/src/estela/hal/drivers/strela/executable.c:207-222 | A failed create is neutral, whatever frees fail, exactly when it had loaded at most one kernel: its error is cleared before the loop. |
| Executables.CreateThenDestroyIsNeutralIff | runtime/src/estela/hal/drivers/strela/executable.c:146-238 | Create then destroy is neutral, whatever frees fail, exactly when there is no export, or one and no error pending at the destroy. |
| Executables.SecondKernelLeaks | runtime/src/estela/hal/drivers/strela/executable.c:224-238 | A run of the free loop on two kernels: when the first free fails the second kernel stays loaded. |
| Executables.PendingErrorLeaks | runtime/src/estela/hal/drivers/strela/executable.c:224-238 | With an error pending the only kernel stays loaded though no free fails. |
| Executables.CreateThenDestroy | runtime/src/estela/hal/drivers/strela/executable.c:146-238 | The kernel pool and what it holds are unchanged if neither a free nor a call in between fails, and in any case as the condition says. |
| Offsets.LookThroughKeeps | compiler/src/estela/Transforms/MaterializeBindingsPass.cpp:59-65 | Looking through any nesting of assume ops changes neither value, width nor ordinals. |
| Offsets.MatchedOffsetsVerify | compiler/src/estela/StrelaIR/StrelaOps.cpp:7-25 | Every matched offset passes the verifier of the binding ops. |
| Offsets.OrdinaryOffsetsAreAccepted | compiler/src/estela/Transforms/MaterializeBindingsPass.cpp:96-148 | No offset, a constant, one push constant and two halves are matched, each with its own ordinals. |
| Offsets.OrdinaryOffsetsMean | compiler/src/estela/Transforms/MaterializeBindingsPass.cpp:96-148 | What a constant, a push constant and two 64-bit halves are worth in the IR. |
| Offsets.HalvesAgree | compiler/src/estela/Transforms/MaterializeBindingsPass.cpp:116-148 | The IR value of a matched pair of halves, and the driver's value from the same ordinals, shared ordinals included. |
| Offsets.OffsetTranslationIsSound | compiler/src/estela/Transforms/MaterializeBindingsPass.cpp:96-148 | For every accepted offset and all constants, the driver computes the IR value, if halves are extended to 64 bits. |
| Offsets.OffsetTranslationIff | compiler/src/estela/Transforms/MaterializeBindingsPass.cpp:96-148 | The driver agrees with the IR for all constants exactly when the halves, if any, are extended to at least 64 bits. |
| Offsets.NarrowHalvesDisagree | compiler/src/estela/Transforms/MaterializeBindingsPass.cpp:116-148 | For every narrower extension there are constants for which the driver's offset differs. |
| Offsets.FortyEightBitsDisagree | compiler/src/estela/Transforms/MaterializeBindingsPass.cpp:116-148 | An accepted offset extended to 48 bits that the IR computes as 0 and the driver as 2^48. |
| Tensors.FlatIndexInRange | compiler/src/estela/StrelaTarget.cpp:38-59 | Row-major positions of a shape of any rank lie below its element count. |
| Tensors.FlatIndexInjective | compiler/src/estela/StrelaTarget.cpp:38-59 | Row-major positions are distinct. |
| Tensors.ContiguousIff | compiler/src/estela/Transforms/MaterializeBindingsPass.cpp:150-157 | A nonempty block from the origin is contiguous exactly when it is a run of leading rows; the matcher does not check this. |
| Tensors.LeadingRunMeans | compiler/src/estela/Transforms/MaterializeBindingsPass.cpp:150-157 | A leading run has size one before some dimension and whole dimensions after it. |
| Linalg.AddMeaning | compiler/src/estela/Utils/KernelMatchers.cpp:18-67 | What the add matcher accepts yields the sum of its two input elements modulo 2^32, and is not a relu. |
| Linalg.PayloadMeans | compiler/src/estela/Utils/KernelMatchers.cpp:46-62 | Each op of a payload yields the sum modulo 2^32, the greater in two's complement, or what its unknown meaning says. |
| Linalg.OrdinaryAddIsAccepted | compiler/src/estela/Utils/KernelMatchers.cpp:30-67 | An add of two tensors of any rank, in either order of the operands, is accepted. |
| Linalg.OrdinaryReluIsAccepted | compiler/src/estela/Utils/KernelMatchers.cpp:69-128 | A relu of a tensor of any rank, against a literal zero or a zero splat, is accepted. |
| Linalg.ReluMeaning | compiler/src/estela/Utils/KernelMatchers.cpp:69-128 | What the relu matcher accepts yields the positive part of its input. |
| Linalg.WordByWordIff | compiler/src/estela/Utils/KernelMatchers.cpp:69-128 | Moving words one by one respects input and output maps, of any ranks, for every shape exactly when the maps are equal. |
| Linalg.TransposingReluIsAccepted | compiler/src/estela/Utils/KernelMatchers.cpp:69-128 | A relu that transposes its input is accepted. |
| Linalg.BroadcastReluIsAccepted | compiler/src/estela/Utils/KernelMatchers.cpp:69-128 | A relu that broadcasts its input is accepted, and words do not match for some shape. |
| Linalg.Relu | compiler/src/estela/Utils/KernelMatchers.cpp:69-128 | The positive part of a signed word. |
| Compile.CornerIsAccepted | compiler/src/estela/Transforms/MaterializeBindingsPass.cpp:150-157 | A 2x3 corner of a 4x9 tensor is accepted though it is not contiguous. |
| Compile.MaterializeBindings | compiler/src/estela/Transforms/MaterializeBindingsPass.cpp:210-319 | Succeeds exactly when there is one kernel op, every operand is a load and the only use a store, each with all offsets known zero, all strides known one and an offset that is matched; keeps every binding. |
| Compile.SliceIsRefused | compiler/src/estela/Transforms/MaterializeBindingsPass.cpp:150-157 | An access with a nonzero or runtime offset, or a stride that is not known to be one, is refused. |
| Compile.FitsColumnIff | compiler/src/estela/StrelaTarget.cpp:33-47 | A tensor fits a column exactly when its bytes fit 16 bits: 16383 words do, 16384 do not. |
| Compile.GetColumn | compiler/src/estela/StrelaTarget.cpp:37-59 | The column has the row-major word count, the offset and the stride of its binding, or is refused for size. |
| Compile.GetExport | compiler/src/estela/StrelaTarget.cpp:68-119 | Succeeds exactly for exportable functions; every operand is in its kernel's column and all other columns are unused. |
| Compile.SerializeExecutable | compiler/src/estela/StrelaTarget.cpp:196-275 | For any permutation of distinct ordinals every export lands in its own slot and no slot is empty. |
| Compile.OrdinalsFillSlots | compiler/src/estela/StrelaTarget.cpp:205-250 | Distinct ordinals below the export count name every slot. |
| Compile.SerializedVerifiesIff | compiler/src/estela/StrelaTarget.cpp:68-136 | A serialized export passes the runtime's verification exactly when its bindings and ordinals are in the layout and static offsets are word aligned. |
| EndToEnd.ColumnIsAccess | compiler/src/estela/StrelaTarget.cpp:37-59 | The resolved column of an accepted access starts at the address the IR computes and covers its row-major words. |
| EndToEnd.ElementMeans | compiler/src/estela/Transforms/MaterializeBindingsPass.cpp:150-172 | Element i of a loaded slice is the tensor's at offset plus i times stride along every dimension, from the byte the binding and the offset give. |
| EndToEnd.OperandWord | compiler/src/estela/Utils/Bitstreams.h:128-140 | The word a kernel reads for an element of an operand is that element. |
| EndToEnd.ResultWord | compiler/src/estela/Utils/Bitstreams.h:128-140 | The word a dispatch leaves at an element of the result is the kernel's output for it. |
| EndToEnd.AddMapsAgree | compiler/src/estela/Utils/KernelMatchers.cpp:34-41 | For add the matcher guarantees that all maps are the identity. |
| EndToEnd.SerializedKernelRuns | compiler/src/estela/Utils/Bitstreams.h:78-140 | A kernel that holds the table the serializer picked for an op runs that op, given only that the add table adds and the relu table does relu. |
| EndToEnd.TablesDiffer | compiler/src/estela/Utils/Bitstreams.h:78-140 | Two different tables can be like that, and then not the other way round. |
| EndToEnd.StoresWhatLinalgComputes | compiler/src/estela/StrelaTarget.cpp:68-119 | On flat memory: every stored element is the payload of the linalg op on the elements read, for every static shape and rank. |
| EndToEnd.DispatchComputes | compiler/src/estela/StrelaTarget.cpp:68-119 | The same for all iterations at once, on any memory that agrees on the buffers in use. |
| EndToEnd.StoresSums | compiler/src/estela/Utils/KernelMatchers.cpp:18-67 | When the dispatch computes an accepted add, the stored element is the sum of the two read modulo 2^32. |
| EndToEnd.StoresPositiveParts | compiler/src/estela/Utils/KernelMatchers.cpp:69-128 | When the dispatch computes an accepted relu, the stored element is the one read if its sign bit is clear, else zero. |
| EndToEnd.OneReluIsCovered | compiler/src/estela/Utils/KernelMatchers.cpp:69-128 | The conditions of the end-to-end theorem can be met: a one-element relu dispatch, with the relu table in its kernel, meets them all. |
| EndToEnd.RunElementwise | runtime/src/estela/hal/drivers/strela/command_buffer.c:310-408 | A dispatched, compiled elementwise op leaves, for the CPU to read, what the linalg op computes, over the cached memory, if its kernel holds the export's bitstream. |
| EndToEnd.AccessIsSafe | compiler/src/estela/StrelaTarget.cpp:37-59 | The column of an access in the layout, on usable bindings, meets every condition of a safe dispatch. |
| EndToEnd.CompileAndRun | compiler/src/estela/StrelaTarget.cpp:196-275 | Materialize, serialize, verify and load functions in any order of ordinals, then dispatch one: if every step succeeds, an add leaves the sums modulo 2^32 of the elements of its operands' slices for the CPU to read, and a relu their positive parts. |
| EndToEnd.CompileAndDispatch | compiler/src/estela/StrelaTarget.cpp:196-275 | The same with what the payload of the linalg op yields. |
| EndToEnd.CompileAndLoad | compiler/src/estela/StrelaTarget.cpp:196-275 | Every function ends up in the slot of its ordinal, with its own columns and with its own bitstream loaded in its own kernel. |
| EndToEnd.OneReluSourceIsCovered | compiler/src/estela/StrelaTarget.cpp:196-275 | The conditions of the compile-and-run theorem can be met, with swapped ordinals. |
| EndToEnd.MaterializeAll | compiler/src/estela/Transforms/MaterializeBindingsPass.cpp:211-325 | Succeeds exactly when every function is accepted, and keeps ordinals, names, layouts and accesses. |
| Gemm.ReferenceGemm | runtime/src/estela/modules/strela_module.cc:170-181 | The naive triple loop in 32-bit arithmetic stores the product over the integers, wrapped. |
| Gemm.AccumulateWrapped | runtime/src/estela/modules/strela_module.cc:173-178 | Wrapping at every step or once at the end gives the same sum. |
| Gemm.ProductAt | runtime/src/estela/modules/strela_module.cc:170-181 | Word i * N + j of the product is the centered dot product of row i of X and row j of W'. |
| Gemm.ProductMeans | runtime/src/estela/modules/strela_module.cc:170-193 | y plus a word of the product is, in two's complement, y plus the sum of the products of the centered elements of a row of X and a row of W'. |
| Gemm.SumOfSplits | runtime/src/estela/modules/strela_module.cc:173-178 | That sum is the sum: of one term the term, of two lists the sum of both. |
| Gemm.JobStaysInside | runtime/src/estela/modules/strela_module.cc:130-152 | No enabled column of any job reads or writes outside its buffer, ragged edge included. |
| Gemm.JobReadsRows | runtime/src/estela/modules/strela_module.cc:130-152 | Output column c of a job gets the cell of its row and feature. |
| Gemm.JobWritesCells | runtime/src/estela/modules/strela_module.cc:130-152 | A job puts up to three consecutive cells in place and changes no other word. |
| Gemm.Execute | runtime/src/estela/modules/strela_module.cc:163-168 | Assumed job: each enabled output column gets the dot product of its input columns. |
| Gemm.TiledGemm | runtime/src/estela/modules/strela_module.cc:129-169 | After the job loop the output buffer is the naive loop's product, for all M, N, K; the jobs issued are exactly the grid in order. |
| Gemm.WritesItsWords | runtime/src/estela/modules/strela_module.cc:131-157 | Job t writes product word p exactly when t is the job of p. |
| Gemm.EachWordWrittenOnce | runtime/src/estela/modules/strela_module.cc:131-157 | Each of the M * N output words is written by exactly one of the M * ceildiv(N, 3) jobs. |
| Gemm.JobInOrder | runtime/src/estela/modules/strela_module.cc:130-131 | The job for row i and features from 3q is number i * ceildiv(N, 3) + q of those issued. |
| Gemm.CenteredGemm | runtime/src/estela/modules/strela_module.cc:18-200 | Malformed operands give INVALID_ARGUMENT, else a failed mapping its own status; a failure leaves y unchanged; a success adds the product to y. |
| Gemm.GridIsTheJobs | compiler/src/estela/Transforms/ResolveWorkgroupCountPass.cpp:27-77 | For N rows, static or the workload argument after the device, and F features, the grid is (ceildiv(F, 3), N, 1): one workgroup per job, and each result word written by one of them. |
| Gemm.GridSize | compiler/src/estela/Transforms/ResolveWorkgroupCountPass.cpp:27-77 | The count is given exactly for a static F of at least 3, a loaded lhs and a row count that is static or a present workload argument. |
| Gemm.ReferenceCell | runtime/src/estela/modules/strela_module.cc:173-179 | The inner loop in wrapping arithmetic computes the cell. |
| Gemm.RunJob | runtime/src/estela/modules/strela_module.cc:131-168 | One job appends its cells to the rows already written and leaves the operands loaded. |
| Gemm.RunRow | runtime/src/estela/modules/strela_module.cc:131-168 | The jobs of one row append exactly that row, and are issued in order. |
| Gemm.LoadOperands | runtime/src/estela/modules/strela_module.cc:121-125 | Both operands are in their buffers, and loading one does not disturb the other. |
| Gemm.Accumulate | runtime/src/estela/modules/strela_module.cc:191-193 | Every word of y has grown by the word of the output buffer, modulo 2^32. |
| Gemm.NextRowOfJobs | runtime/src/estela/modules/strela_module.cc:130-131 | The jobs of a row follow those of the rows before it in the grid order. |
| Conv.SourceLayout | compiler/src/estela/Transforms/FuseConv2DPass.cpp:92-117 | With features before channels, channel c of feature f is at position f * C + c of the weight source, wherever the unit dimensions are. |
| Conv.CollapsedIsAcceptedIff | compiler/src/estela/Transforms/FuseConv2DPass.cpp:208-226 | The GEMM accepts the collapsed operands exactly when the channels were the last source dimension or there is one channel. |
| Conv.ChannelsNotLastAreRejected | compiler/src/estela/Transforms/FuseConv2DPass.cpp:103-117 | The permutation [1, 3, 2, 0] is matched, but with two channels the GEMM rejects the collapsed operands. |
| Conv.UnluckyIsMatchedAndRejected | compiler/src/estela/Transforms/FuseConv2DPass.cpp:103-117 | A convolution of one pixel and two channels that is matched, and rejected when it runs. |
| Conv.WindowIsDot | compiler/src/estela/Transforms/FuseConv2DPass.cpp:33-124 | The window sum of an accepted convolution is the dot product of collapsed rows. |
| Conv.ConvIsProduct | compiler/src/estela/Transforms/FuseConv2DPass.cpp:33-124 | Every element of the convolution is y plus the product of the collapsed operands, for all batch, channel and feature sizes. |
| Conv.OrdinaryConvIsMatched | compiler/src/estela/Transforms/FuseConv2DPass.cpp:33-124 | A one by one convolution with features-first, channels-last weights is matched for all batch, channel and feature sizes. |
| Conv.ConvMeans | compiler/src/estela/Transforms/FuseConv2DPass.cpp:33-124 | A word of a pointwise convolution is, in two's complement, y's plus the sum over the channels of the products of the centered input and weight. |
| Conv.OffloadedConv | compiler/src/estela/Transforms/FuseConv2DPass.cpp:208-300 | Collapse, call, expand: if the call succeeds the result is the convolution's; an operand mismatch and a failed mapping are reported. |
| Conv.MatchedSizes | compiler/src/estela/Transforms/FuseConv2DPass.cpp:33-124 | What the match says of the operand sizes: pointwise, unit strides and dilations, equal channels. |
| Conv.ChannelsAreDot | compiler/src/estela/Transforms/FuseConv2DPass.cpp:33-124 | The channel sum of a pointwise window is a dot product. |
| Ir.ExecMeans | compiler/src/estela/Transforms/MaterializeBindingsPass.cpp:321-327 | One op sets its results from the values its operands name, and leaves an event exactly if it has the effect flag. |
| Ir.BehaviourMeans | compiler/src/estela/Transforms/MaterializeBindingsPass.cpp:321-327 | A run is the ops one after the other, from nothing. |
| DeadOps.Block.EraseDeadOps | compiler/src/estela/Transforms/MaterializeBindingsPass.cpp:321-327 | The reverse sweep leaves exactly the ops that one backward pass keeps. |
| DeadOps.NothingDeadIsLeft | compiler/src/estela/Transforms/MaterializeBindingsPass.cpp:321-327 | After one sweep no op is trivially dead. |
| DeadOps.SweepIsAFixpoint | compiler/src/estela/Transforms/MaterializeBindingsPass.cpp:321-327 | A second sweep changes nothing. |
| DeadOps.KeptIsNeeded | compiler/src/estela/Transforms/MaterializeBindingsPass.cpp:321-327 | An op is kept exactly when an effect depends on it. |
| DeadOps.KeptMeans | compiler/src/estela/Transforms/MaterializeBindingsPass.cpp:321-327 | Kept are the ops with the effect flag, with an op the definitions of its operands, and nothing else. |
| DeadOps.DefinitionsAreKept | compiler/src/estela/Transforms/MaterializeBindingsPass.cpp:321-327 | No operand of a kept op loses its definition. |
| DeadOps.SweepPreservesBehaviour | compiler/src/estela/Transforms/MaterializeBindingsPass.cpp:321-327 | All side effects and the results of kept ops are the same after the sweep, whatever the ops compute. |
| DeadOps.SameAfterSweep | compiler/src/estela/Transforms/MaterializeBindingsPass.cpp:321-327 | Runs of a block and of what the sweep keeps agree on effects and on every result not erased. |
| Wrapping.WrapMirrors | compiler/src/estela/Transforms/TransferWrapPass.cpp:56-102 | Reading transfers as the identity, wrapped code has the same effects and values, also through the transfers back. |
| Wrapping.IntoAdds | compiler/src/estela/Transforms/TransferWrapPass.cpp:78-93 | The transfers in add their own results only, and the new operands read what the old ones read. |
| Wrapping.BackAdds | compiler/src/estela/Transforms/TransferWrapPass.cpp:95-101 | The transfers back add their own results only: what they move. |
| WrapOrder.WrapIsSsa | compiler/src/estela/Transforms/TransferWrapPass.cpp:56-102 | Wrapping keeps ids distinct and every definition before its uses. |
| WrapOrder.AfterIsSsa | compiler/src/estela/Transforms/TransferWrapPass.cpp:95-101 | Redirecting later uses keeps their definitions before them. |
| Transfers.WrapPlaces | compiler/src/estela/Transforms/TransferWrapPass.cpp:78-102 | After wrapping, every input is a result of a splat constant or of a transfer to STRELA, and only transfers to the host use the results. |
| Transfers.WrapTransfers | compiler/src/estela/Transforms/TransferWrapPass.cpp:78-93 | An input stays as it is exactly when its definition is a splat constant; any other is read through a new transfer of it. |
| Transfers.OnlyTheseTransfers | compiler/src/estela/Transforms/TransferWrapPass.cpp:78-93 | Every transfer made is of an input that is no splat constant. |
| Transfers.WrapKeepsPlaced | compiler/src/estela/Transforms/TransferWrapPass.cpp:56-102 | Wrapping another candidate undoes none of this. |
| Transfers.WrapKeepsConstants | compiler/src/estela/Transforms/TransferWrapPass.cpp:56-102 | Wrapping any op neither makes nor loses a splat constant among the inputs of another. |
| Transfers.WrapKeepsMeaning | compiler/src/estela/Transforms/TransferWrapPass.cpp:56-102 | The wrapped function means the same for every meaning of its ops. |
| Transfers.Function.ReplaceAllUsesExcept | compiler/src/estela/Transforms/TransferWrapPass.cpp:96-101 | Every use of the result but the excepted op's is replaced, and nothing else. |
| Transfers.Function.WrapInTransfers | compiler/src/estela/Transforms/TransferWrapPass.cpp:56-102 | The in-place rewrite produces exactly the wrapped code. |
| Transfers.WrapCandidates | compiler/src/estela/Transforms/TransferWrapPass.cpp:143-155 | For any candidates in any order: same meaning, SSA order kept, every input the splat constant it was or a result of a transfer to STRELA, and results used by transfers to the host only. |
| Transfers.Function.WrapInputs | compiler/src/estela/Transforms/TransferWrapPass.cpp:78-93 | The input loop leaves the transfers and the rewired op in place. |
| Transfers.Function.WrapResults | compiler/src/estela/Transforms/TransferWrapPass.cpp:95-101 | The result loop leaves the transfers back and redirects every other use. |
| Rescale.BatchLoop | compiler/src/estela/Transforms/NormalizeRescalePass.cpp:92-143 | The fold over the batch from an undefined tensor defines every element, scaled by its channel at rank 2 and more and as channel 0 at rank 1; so it is the whole-tensor rescale per tensor or at rank 2 and more. |
| Rescale.WritesOnlyItsRow | compiler/src/estela/Transforms/NormalizeRescalePass.cpp:97-136 | An element is defined by exactly one iteration. |
| Rescale.RankOneExactIff | compiler/src/estela/Transforms/NormalizeRescalePass.cpp:54-143 | For a rank-1 per-channel rescale the loop is exact on every input exactly when all channels scale alike. |
| Rescale.StepDoesOne | compiler/src/estela/Transforms/NormalizeRescalePass.cpp:20-149 | Every application of either pattern lowers the count of applicable patterns by one and keeps the normal form. |
| Rescale.RunsEndInNormalForm | compiler/src/estela/Transforms/NormalizeRescalePass.cpp:152-165 | Every order of rewrites is bounded by that count and, when stuck, ends in the one normal form. |
| Rescale.Normalize | compiler/src/estela/Transforms/NormalizeRescalePass.cpp:152-165 | The greedy driver ends, whichever op and pattern it picks: every op rounds once, and one with a dynamic batch is in one more loop on a batch of size 1. |
| Rescale.StuckIsNormal | compiler/src/estela/Transforms/NormalizeRescalePass.cpp:152-165 | When no pattern applies the ops are their normal form, and normal forms are stuck. |
| Rescale.NormalMeans | compiler/src/estela/Transforms/NormalizeRescalePass.cpp:20-149 | The fields of the normal form of every op: rounding, loops and input type. |
| Queue.StepInv | runtime/src/estela/hal/drivers/strela/device.c:460-539 | Every step of any submitter keeps the protocol invariant. |
| Queue.WorkComesAfterItsWaits | runtime/src/estela/hal/drivers/strela/device.c:741-798 | In every interleaving, work and signals come after each wait was reached, initially or by a signal that itself came after all commands, or the allocation, of its submission. |
| Queue.FailureFailsTheSignals | runtime/src/estela/hal/drivers/strela/device.c:741-798 | A submission with a command or allocation still to run, or a foreign command buffer, has signaled nothing; one that failed has failed its whole signal list. |
| Queue.SignalsComeLast | runtime/src/estela/hal/drivers/strela/device.c:754-798 | In every interleaving a signal comes after every command of a deferred command buffer, or after the allocation. |
| Queue.CommandsInOrder | runtime/src/estela/hal/drivers/strela/device.c:754-784 | In every interleaving the commands of a submission run in order. |
| Queue.SuccessSignals | runtime/src/estela/hal/drivers/strela/semaphore.c:105-134 | A submission that succeeded has run every command or its allocation, and every timeline of its signal list is at its value or above, for good. |
| Queue.DependentsNeverRun | runtime/src/estela/hal/drivers/strela/device.c:741-798 | Once a semaphore has failed, a submission that has still to wait for it works and signals nothing, in every interleaving that follows. |
| Queue.FailedProducerStopsDependents | runtime/src/estela/hal/drivers/strela/device.c:741-798 | One producer that ended in failure is enough: whoever has still to wait for a semaphore of its signal list never runs. |
| Queue.BlockedStays | runtime/src/estela/hal/drivers/strela/semaphore.c:87-103 | No step of any submitter unblocks a submission whose next waits are on a failed semaphore. |
| Queue.AbandonedIsNeverReached | runtime/src/estela/hal/drivers/strela/device.c:741-798 | An entry whose producers have failed, or wait for it, is never reached, even before its semaphore is marked. |
| Queue.Device.Submit | runtime/src/estela/hal/drivers/strela/device.c:460-539 | The queue functions take only protocol steps under any activity of other threads. They end succeeded, with every command or the allocation run and the timelines signaled, or with the signal list failed. |
| Queue.InitInv | runtime/src/estela/hal/drivers/strela/device.c:411-432 | The invariant holds before any submission has started. |
| Queue.RunInv | runtime/src/estela/hal/drivers/strela/device.c:460-798 | The invariant holds in every state of every run. |
| Queue.AbandonedStays | runtime/src/estela/hal/drivers/strela/device.c:741-798 | No step makes an entry reachable whose producers have failed or wait for it. |
| Queue.NextIsStep | runtime/src/estela/hal/drivers/strela/device.c:741-798 | What a queue function does next is a step of the protocol. |
| Queue.Device.ListWait | runtime/src/estela/hal/drivers/strela/device.c:754-758 | Passes exactly when every entry was reached, else goes on to fail the signal list. |
| Queue.Device.Apply | runtime/src/estela/hal/drivers/strela/device.c:758-784 | Runs all commands in order, and fails on the first that fails, on a foreign command buffer, or when the buffer that runs them cannot be made. |
| Queue.Device.ListSignal | runtime/src/estela/hal/drivers/strela/semaphore.c:105-134 | Brings every timeline of the list to its value in order, or goes on to fail the list. |
| Queue.Device.ListFail | runtime/src/estela/hal/drivers/strela/device.c:793-796 | Every semaphore of the signal list is failed. |

## Left out

- Bitstream words are not interpreted; in particular `FuseConv2DPass.cpp` (lines 193-201) patches a local copy of the kernel but emits the unpatched one, while the model takes zero points and row length as parameters of the job.
- Gemm.CenteredGemm: takes the status of the three mappings as a parameter, assumes the result view has M * N elements, which the code does not check, and does not model the leak of the three STRELA buffers on failure or the cache of that separate device handle.
- Commands.CommandBuffer.DispatchFunction: assumes bindings inside their allocations, sums that do not wrap and no ordinal that makes the driver read outside the constants; `Columns.FootprintIff` and `Executables.VerifiedColumnIsReadableIff` say what happens otherwise.
- Device.Device.JobWait: a job whose outputs overlap its inputs is assumed to read every overlapping word before writing it.
- Device.Device.Interfere: other threads never touch the device itself, as the assumptions say.
- Gemm.Execute: the job is assumed on flat memory, without the cached mapping the CPU writes through.
- EndToEnd.StoresWhatLinalgComputes: assumes contiguous slices, halves extended to 64 bits and, for relu, equal input and output maps, since the matchers do not ensure them; each of the three has its exact condition above. DispatchComputes, RunElementwise and CompileAndDispatch and CompileAndRun assume the same.
- Conv.OffloadedConv: takes zero points and row length as parameters of the job, while the pass emits the bitstream without them, as said above.
- Executables.Create: kernel frees are assumed to release the kernel even when they set the error.
- Matvec through the HAL: serialization refuses it; only its grid is modelled.
- Transfers.WrapCandidates: values in nested regions and the dynamic-dimension operands of transfers are not modelled, and neither is the pinning of ABI ops to the default device.
- Rescale.RankOneExactIff: the op a rank-1 rescale becomes keeps all the multipliers on a one-element slice, which the verifier of that op may refuse; it is given its meaning on channel 0.
- Rescale.Normalize: single rounding gives other results than double rounding; only termination and the common normal form are claimed for that pattern.
- Queue.Device.Submit: a wait that never ends is a call that does not return; the buffer that `queue_alloca` releases on failure is not modelled.
- The emulated queue operations, file streaming, options, topology, registration and unimplemented entry points of the driver: wrappers over IREE.
- FlatBuffer bytes, the IREE file header and the dump tool: an executable is a datatype.
- `LinkExecutablesPass.cpp`, `AssignTopologyPass.cpp`, plugin registration and dialect boilerplate: no behaviour of their own.
