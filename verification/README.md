# Metal FS: a verified model

Metal FS keeps files in extents on a block device and moves their contents through FPGA
operators. This project models the five parts of it that have to agree with each other, and
proves what they promise:

* the **NVMe arbiter**, clocked processes that share registered signals
  (`NvmeArbiter.dfy`, `NvmeRuns.dfy`, `NvmeProgress.dfy`);
* the **extent allocator, file layer and in-memory store**, up to "each file is a flat byte
  sequence" (`FileExtents`, `ExtentTable`, `Allocator`, `LiteralExtents`, `FileTable`,
  `Storage`, `FlatFiles`, `FileSystem`, `FileClient`, `Fragmented`, `Directory`);
* the **FPGA's block maps and dataflow** (`ExtentMap`, `Transfers`, `PageFile`, `Issuing`,
  `StreamTransfer`, `NvmeWriteBack`, `WritePath`);
* the **double-buffer protocol** between an agent and the driver (`DoubleBuffer`,
  `OutputClash`, `AgentDriver`);
* the **stream padding pair** (`Padding`).

State that the original updates in place is a class or an array here, and each method is tied
to a function or relation on values; invariants, runs and refinements are lemmas about those.
Concurrent parts (the clocked entity, the dataflow processes, the agent and the driver) are
step functions; a run is any sequence of steps, and the theorems quantify over all runs.

`dafny verify dfyconfig.toml` checks everything.

## Where the code departs from its intent

Eight places in the original do not do what the text around them says. The model keeps the
step as written beside the intended one; for each there is a witness and a lemma that says
exactly when the two agree.

| place | as written | agrees with the intent exactly when |
|---|---|---|
| `extent.c:125-148` | growing over a whole free neighbour does not store the grown length | the neighbour is longer than the wanted size (`LiteralExtents.LiteralGrowthIff`) |
| `extent.c:232-233`, `heap.c:75` | the search for the previous run steps forward; the merged node gets offset 0 | the predecessor is not free (`LiteralExtents.LiteralFreeIff`) |
| `metal.c:442` | growing inside the last block leaves the length unchanged | the file does not grow or needs another block (`FileTable.LiteralLengthIff`) |
| `mtl_extmap.cpp:61` | the step goes one block past the end of an extent | the transfer stays inside one extent (`ExtentMap.LiteralWalkIff`, `Transfers.PartsAreTheRangeIff`) |
| `mtl_op_mem.hpp:28`, `:63` | the page-file index wraps at seek but not at next | the transfer ends inside the 128 blocks of the page file, or one behind them if its first block is block 0, which the registers behind the list name by accident (`PageFile.PageFileWindowIff`; an agent's 64 MiB never do) |
| `mtl_op_mem.cpp:260-274` | a response is awaited for transfers of size 0 that issued no command | no NVMe element comes after a status that ends the packet (`NvmeWriteBack.WriteBackFinishesIff`) |
| `operator_agent.cpp:343-346` | the agent switches output halves only for outputs that are not empty, the driver always | non-empty outputs before the last come after an even number of empty ones (`OutputClash.NeverClashesIff`) |
| `inode.c:244-245` | the new directory length is an unsigned subtraction made before the name is known to be there | the directory is at least one such entry long (`Directory.Remove`) |

`stream.h:52-73` reads a register before it is set; `Padding.InsertThenRemove` says for which
streams that shows.

## Model

| member | source | states |
|---|---|---|
| `NvmeRuns.QueueNeverOverflows` | targets/SNAP/_internal/action/ip/nvme_arbiter/NvmeController.vhd:246-387 | in every run from reset, under any command traffic and ready timing, no drive counter exceeds 218, the queue position never exceeds 436, a push finds at most 435 entries and a pull at least one, the two never coincide, and the position moves by exactly that much: it neither wraps nor underflows |
| `NvmeRuns.AnswersInOrder` | targets/SNAP/_internal/action/ip/nvme_arbiter/NvmeController.vhd:143-241 | in every run: the j-th response carries the j-th completion's error bit on the stream of the j-th command captured; there is at most one unanswered completion, no completion before its command was completely written, and the j-th stream handshake is the j-th command captured |
| `NvmeRuns.OneBurstPerCommand` | targets/SNAP/_internal/action/ip/nvme_arbiter/NvmeController.vhd:393-574 | in every run and ready schedule the j-th six data beats carry the j-th captured command: low and high word of the buffer address, of the block address, the block count, then bit 0 the direction, bit 4 alone of bits 1 to 4, bits 5 to 7 the drive; the last flag is on every sixth beat only; one address handshake per burst, and complete bursts whenever neither channel is active |
| `NvmeRuns.BurstCarries` | targets/SNAP/_internal/action/ip/nvme_arbiter/nvme_def.vhd:141-149 | the six beats of one command, put together again, are its addresses, count, direction and drive |
| `NvmeProgress.EveryCommandAnswered` | targets/SNAP/_internal/action/ip/nvme_arbiter/NvmeController.vhd:138-515 | in every run, from any edge on which nobody holds the arbiter up and the device completes what it has when asked, n unanswered commands are all answered within 36 n edges, whatever else arrives |
| `NvmeProgress.OneAnswered` | targets/SNAP/_internal/action/ip/nvme_arbiter/NvmeController.vhd:138-515 | under the same conditions an unanswered command means one more response within 36 edges |
| `NvmeProgress.PollsWhileUnanswered` | targets/SNAP/_internal/action/ip/nvme_arbiter/NvmeController.vhd:143-204 | in every run, while a captured command is unanswered and nobody holds the arbiter up, the status register is read again within 14 edges, however often it reported nothing |
| `NvmeProgress.CompletionAnswered` | targets/SNAP/_internal/action/ip/nvme_arbiter/NvmeController.vhd:157-231 | a completion that is read is answered within three edges, on the stream of the oldest unanswered command and with the error bit that was read |
| `NvmeProgress.OneAddressPerPoll` | targets/SNAP/_internal/action/ip/nvme_arbiter/NvmeController.vhd:393-430 | every status read is one address and one data handshake, in either order |
| `NvmeProgress.CapturesInTurn` | targets/SNAP/_internal/action/ip/nvme_arbiter/NvmeController.vhd:246-331 | in every run, what is captured on an edge: nothing while a command is held, otherwise a command on offer for a present drive with fewer than 218 uncompleted commands one edge before, of two the one not of the kind captured last |
| `NvmeProgress.CapturedIsWritten` | targets/SNAP/_internal/action/ip/nvme_arbiter/NvmeController.vhd:143-515 | whatever the device reports, every captured command is completely written within 2200 edges if nobody holds the arbiter up |
| `NvmeProgress.PollNearer` | targets/SNAP/_internal/action/ip/nvme_arbiter/NvmeController.vhd:143-515 | each edge without hold-up brings the next status read nearer |
| `NvmeProgress.WriteNearer` | targets/SNAP/_internal/action/ip/nvme_arbiter/NvmeController.vhd:143-515 | each edge without hold-up brings the end of the burst of the held command nearer, completions answered before it included |
| `NvmeProgress.UncompletedIsCounted` | targets/SNAP/_internal/action/ip/nvme_arbiter/NvmeController.vhd:336-361 | an uncompleted command raises the pending flag on the next edge, unless its increment is in flight |
| `NvmeRuns.PayloadHeldUntilReady` | targets/SNAP/_internal/action/ip/nvme_arbiter/NvmeController.vhd:393-574 | in every run and on each of the five channels the arbiter drives, a VALID that is up at one edge is still up with an unchanged payload at every later edge before its READY (section A3.2.1 of ARM IHI 0022E) |
| `NvmeRuns.PayloadHeld` | targets/SNAP/_internal/action/ip/nvme_arbiter/NvmeController.vhd:393-574 | one edge without READY keeps VALID and the payload of the channel |
| `NvmeRuns.WaitsBehindAtMostOne` | targets/SNAP/_internal/action/ip/nvme_arbiter/NvmeController.vhd:246-331 | of any two successive decisions at which a read (or a write) was eligible, at least one takes it: it waits behind at most one command of the other kind |
| `NvmeRuns.InvAlways` | targets/SNAP/_internal/action/ip/nvme_arbiter/NvmeController.vhd:138-515 | every state of every run satisfies the conjunction of the control, queue, counter, bus, answer, stream and fairness invariants |
| `NvmeRuns.InvKept` | targets/SNAP/_internal/action/ip/nvme_arbiter/NvmeController.vhd:138-515 | one clock edge, with any inputs the environment may offer, keeps all of those invariants |
| `NvmeRuns.ControlKept` | targets/SNAP/_internal/action/ip/nvme_arbiter/NvmeController.vhd:143-331 | one edge keeps how the states of the four processes and the registered signals that lag by a cycle fit together |
| `NvmeRuns.QueueBound` | targets/SNAP/_internal/action/ip/nvme_arbiter/NvmeController.vhd:336-387 | uncompleted commands and queue entries together never exceed the two present drives' limits, and a push happens below them |
| `NvmeRuns.NoWrap` | targets/SNAP/_internal/action/ip/nvme_arbiter/NvmeController.vhd:366-386 | the nine-bit position arithmetic of the queue never wraps in a state that satisfies the invariants |
| `NvmeRuns.ShiftRegisterIsFifo` | targets/SNAP/_internal/action/ip/nvme_arbiter/NvmeController.vhd:366-387 | the entries below the position behave as a first-in first-out queue under push and pull |
| `NvmeRuns.Progress` | targets/SNAP/_internal/action/ip/nvme_arbiter/NvmeController.vhd:143-241 | the only steps that move the two progress counts are the push and the pull of the main state machine, and they exclude each other |
| `NvmeRuns.QueueKept` | targets/SNAP/_internal/action/ip/nvme_arbiter/NvmeController.vhd:366-387 | one edge keeps that queue entry k belongs to the k-th command still uncompleted, with its drive and direction |
| `NvmeRuns.CompletionHasEntry` | targets/SNAP/_internal/action/ip/nvme_arbiter/NvmeController.vhd:143-204 | a completion is only ever read when the queue holds the entry of a command that was written |
| `NvmeRuns.CountsKept` | targets/SNAP/_internal/action/ip/nvme_arbiter/NvmeController.vhd:336-361 | one edge keeps that each counter plus its increment in flight is the number of that drive's uncompleted commands, at most 218, and that a free flag seen while idle is not stale |
| `NvmeRuns.CaptureFits` | targets/SNAP/_internal/action/ip/nvme_arbiter/NvmeController.vhd:246-331 | a command is captured only for a present drive whose counter, with its pending increment, is below the limit, although the free flag is a cycle old |
| `NvmeRuns.BusKept` | targets/SNAP/_internal/action/ip/nvme_arbiter/NvmeController.vhd:393-515 | one edge keeps that the write channels carry the complete bursts of all pushed commands and a prefix of the current one |
| `NvmeRuns.BeatTaken` | targets/SNAP/_internal/action/ip/nvme_arbiter/NvmeController.vhd:523-574 | the beat offered is the one numbered by the beats taken so far (its content: BurstCarries), and a data handshake advances that number by one |
| `NvmeRuns.HeadBelongsToCompletion` | targets/SNAP/_internal/action/ip/nvme_arbiter/NvmeController.vhd:143-241 | the entry at the head of the queue is that of the command whose completion is being answered |
| `NvmeRuns.AnswersKept` | targets/SNAP/_internal/action/ip/nvme_arbiter/NvmeController.vhd:143-241 | one edge keeps that responses are the completions so far, on the streams of their commands |
| `NvmeRuns.StreamsKept` | targets/SNAP/_internal/action/ip/nvme_arbiter/NvmeController.vhd:246-331 | one edge keeps that the commands handed over on the streams are those captured, at most one cycle behind |
| `NvmeRuns.FairKept` | targets/SNAP/_internal/action/ip/nvme_arbiter/NvmeController.vhd:246-331 | one edge keeps that whoever was eligible and passed over was served at the decision before |
| `NvmeArbiter.Controller.Clock` | targets/SNAP/_internal/action/ip/nvme_arbiter/NvmeController.vhd:138-515 | one rising edge of the entity with its registers in place is the step function applied to the values before the edge |
| `NvmeArbiter.Controller.ClockArbiter` | targets/SNAP/_internal/action/ip/nvme_arbiter/NvmeController.vhd:246-331 | the command process changes exactly its own registers, to what the step function gives |
| `NvmeArbiter.Controller.ClockMain` | targets/SNAP/_internal/action/ip/nvme_arbiter/NvmeController.vhd:143-204 | the case statement of the main process changes exactly its state register, to what the step function gives (that it polls, answers and writes: NvmeProgress) |
| `NvmeArbiter.Controller.ClockRegister` | targets/SNAP/_internal/action/ip/nvme_arbiter/NvmeController.vhd:393-515 | the case statement of the register process, address and data handshakes in any order, changes exactly its state and the status register, to what the step function gives |
| `NvmeArbiter.Controller.constructor` | targets/SNAP/_internal/action/ip/nvme_arbiter/NvmeController.vhd:143-149 | after reset every register has its reset value; the free flags, which have none, are arbitrary |
| `NvmeArbiter.ClockDrives` | targets/SNAP/_internal/action/ip/nvme_arbiter/NvmeController.vhd:336-361 | the loop over all drives computes all counters, free flags and the pending flag from the values before the edge |
| `NvmeArbiter.StreamIdQueue.Clock` | targets/SNAP/_internal/action/ip/nvme_arbiter/NvmeController.vhd:366-386 | push and pull on the 512-entry buffer in place do what the shift-register function says, nine-bit position included |
| `ExtentTable.RunsKeepInv` | src/metal-filesystem/src/extent.c:59-270 | in every run of reserve, truncate and free from the initial table, whichever node the heap gives up, the table is a partition of [0, blocks) into non-empty runs, no two neighbouring runs are free, the heap has exactly one node (length, offset) per free run and no other; and whenever nothing is in use the allocator equals its initial state |
| `ExtentTable.ReservesEffect` | src/metal-filesystem/src/extent.c:70-155 | a reserve yields between 1 and the requested number of blocks, and 0 exactly when no block is free; the blocks were free, are contiguous, follow the last extent whenever the block behind it is free or form a new run, and fall short of the request only if the block behind them is not free; nothing else changes hands |
| `ExtentTable.InitialInv` | src/metal-filesystem/src/extent.c:59-68 | the initial single free run satisfies the invariants |
| `ExtentTable.ReserveAtKeeps` | src/metal-filesystem/src/extent.c:114-148 | carving the wanted part from a free run keeps partition, coalescing and heap agreement, and holds exactly that part |
| `ExtentTable.ExtendRunKeeps` | src/metal-filesystem/src/extent.c:83-148 | growing the last extent into its free neighbour, whole or in part, keeps the invariants and changes only that extent's length |
| `ExtentTable.FreeRunKeeps` | src/metal-filesystem/src/extent.c:188-270 | freeing a run, merged with a free successor and a free predecessor, keeps the invariants and releases exactly that run |
| `ExtentTable.TruncateRunKeeps` | src/metal-filesystem/src/extent.c:157-186 | truncating a run to len keeps the invariants and leaves exactly its first len blocks held (none for 0) |
| `ExtentTable.CutKeeps` | src/metal-filesystem/src/extent.c:157-186 | splitting a run in use in two keeps the invariants, both parts in use |
| `ExtentTable.HeapEmptyIffFull` | src/metal-filesystem/src/heap.c:35-53 | the heap is empty exactly when every block is in use, so the no-space case is exact however fragmented the store is |
| `ExtentTable.AllFreeIsOneRun` | src/metal-filesystem/src/extent.c:188-270 | when nothing is in use, the table and the heap are those of the single extent over all blocks |
| `ExtentTable.CoveringRun` | src/metal-filesystem/src/extent.c:59-270 | every block of the device lies in a run of the table |
| `ExtentTable.RunsDisjoint` | src/metal-filesystem/src/extent.c:59-270 | no block lies in two runs |
| `Allocator.ExtentStore.Reserve` | src/metal-filesystem/src/extent.c:70-155 | the statements of the original on the two databases amount to the intended reserve, with the offset and count it reports |
| `Allocator.ExtentStore.Release` | src/metal-filesystem/src/extent.c:188-270 | freeing, with both merges as intended, amounts to the intended free |
| `Allocator.ExtentStore.Truncate` | src/metal-filesystem/src/extent.c:157-186 | commit, cut and free of the rest amount to the intended truncate |
| `Allocator.ExtentStore.constructor` | src/metal-filesystem/src/extent.c:59-68 | a new store is one free extent over all blocks with its heap node |
| `Allocator.ExtentStore.HeapInsert` | src/metal-filesystem/src/heap.c:19-33 | adds the node (key, value) and nothing else |
| `Allocator.ExtentStore.HeapExtractMax` | src/metal-filesystem/src/heap.c:35-53 | reports an empty heap, or removes exactly one node and returns its offset |
| `Allocator.ExtentStore.HeapDelete` | src/metal-filesystem/src/heap.c:55-64 | removes exactly the node, and reports whether it was there |
| `Allocator.ExtentStore.HeapIncreaseKey` | src/metal-filesystem/src/heap.c:66-76 | replaces a node by one with a new key and offset (as intended) |
| `Allocator.ExtentStore.CursorNext` | src/metal-filesystem/src/extent.c:207-225 | the next key of the table is the end of the run, if that is not the end of the device |
| `Allocator.ExtentStore.CursorPrevious` | src/metal-filesystem/src/extent.c:228-248 | the largest key below, also while the run behind has just been taken out of the table |
| `LiteralExtents.LiteralGrowthIff` | src/metal-filesystem/src/extent.c:125-148 | growing as written leaves a partition exactly when the free neighbour is longer than the wanted size, and then it does what is intended |
| `LiteralExtents.LiteralGrowthLosesBlocks` | src/metal-filesystem/src/extent.c:125-148 | witness: in a two-block store the swallowed block belongs to no run any more |
| `LiteralExtents.LiteralFreeMergesForward` | src/metal-filesystem/src/extent.c:228-250 | on a coalesced table the free as written only ever merges with the successor |
| `LiteralExtents.LiteralFreeIff` | src/metal-filesystem/src/extent.c:228-250 | the free as written keeps the invariants exactly when the predecessor is not free, and then it does what is intended |
| `LiteralExtents.LiteralFreeBreaksTheTable` | src/metal-filesystem/src/heap.c:66-76 | witness: three frees in a three-block store leave two free neighbours, then one entry that claims blocks beyond the device |
| `FileTable.BlocksAreUnshared` | src/metal-filesystem/src/metal.c:424-629 | a physical block backs at most one logical block of at most one file |
| `FileTable.BlockFreeOrOwned` | src/metal-filesystem/src/metal.c:424-629 | a block of the device is backed by a file exactly when it is not free |
| `FileTable.BlocksConserved` | src/metal-filesystem/src/metal.c:424-629 | blocks held by files and free blocks are disjoint and add up to the device |
| `FileTable.ExtentsAreCommitted` | src/metal-filesystem/src/metal.c:424-629 | every extent of every file is a committed, non-empty entry of the extent table at its offset, of the same length |
| `FileTable.RunsAreFreeOrOwned` | src/metal-filesystem/src/metal.c:424-629 | every entry of the extent table is free, or committed and an extent of a file |
| `FileTable.GrowKeeps` | src/metal-filesystem/src/metal.c:442-468 | one round of growing keeps the allocator invariants, the ownership of every run by one list entry of the same length, that every run in use is committed, and lists as long as the files |
| `FileTable.GrownBlocks` | src/metal-filesystem/src/inode.c:127-160 | extending the last list entry or adding one appends exactly the new blocks to the block sequence |
| `FileTable.CutBlocks` | src/metal-filesystem/src/inode.c:162-180 | cutting a list inside extent i keeps exactly the blocks before the cut |
| `FileTable.ShrinkBoundary` | src/metal-filesystem/src/metal.c:556-575 | truncating the boundary extent keeps the invariants, with the extents behind it set aside |
| `FileTable.FreedExactlyTheRest` | src/metal-filesystem/src/metal.c:529-587 | shortening a file frees exactly the blocks it no longer lists |
| `FileTable.BlocksForRoundsUp` | src/metal-filesystem/src/metal.c:427-430 | the block count of a length is its quotient rounded up |
| `FileTable.LiteralLengthIff` | src/metal-filesystem/src/metal.c:442-468 | the length left by growing as written is right exactly when the file does not grow or needs another block |
| `FileTable.LiteralLengthTooShort` | src/metal-filesystem/src/metal.c:442-468 | witness: ten bytes appended to ten leave a file of ten |
| `Storage.StorageWrite` | src/metal-filesystem/src/storage_in_memory.c:43-89 | after the extent walk the store is the old one with buffer byte k at the address of file byte offset + k, and nothing else changed |
| `Storage.StorageRead` | src/metal-filesystem/src/storage_in_memory.c:91-138 | the buffer holds the bytes at those addresses, the rest of the buffer and the store are unchanged |
| `Storage.FindExtent` | src/metal-filesystem/src/storage_in_memory.c:63-76 | the inner walk ends at the one extent that holds the current byte |
| `Storage.AddressInExtent` | src/metal-filesystem/src/storage_in_memory.c:57-86 | byte q of extent c lies q bytes behind the extent's first block |
| `Storage.AddressInjective` | src/metal-filesystem/src/storage_in_memory.c:57-86 | different bytes of a file have different addresses when its blocks differ |
| `Storage.ChunkAddresses` | src/metal-filesystem/src/storage_in_memory.c:78-86 | a chunk inside one extent is a run of consecutive addresses, so one copy moves it |
| `Storage.ScatterHit` | src/metal-filesystem/src/storage_in_memory.c:57-86 | after a write to distinct addresses each holds its byte |
| `Storage.ScatterMiss` | src/metal-filesystem/src/storage_in_memory.c:57-86 | a write leaves every other address alone |
| `FlatFiles.LastWriteWins` | src/metal-filesystem/src/metal.c:473-527 | over every run of create, write, truncate and unlink on flat files, a byte reads as it was last written while nothing since covers, cuts off or removes it |
| `FileSystem.CopyRefines` | src/metal-filesystem/src/metal.c:473-498 | copying through one file's extents is a flat write: those bytes of that file change, no other byte of any file |
| `FileSystem.ResizeRefines` | src/metal-filesystem/src/metal.c:424-587 | changing one file's list and length by a prefix is a flat resize that keeps every byte below both lengths |
| `FileSystem.FilesApart` | src/metal-filesystem/src/metal.c:473-527 | bytes of different files never share an address |
| `FileSystem.FileFits` | src/metal-filesystem/src/metal.c:473-527 | every file's addresses lie inside the store and are distinct, and the list covers the length |
| `FileSystem.MetalFs.constructor` | src/metal-filesystem/src/metal.c:32-68 | an empty file system: no files, every block free |
| `FileSystem.MetalFs.Create` | src/metal-filesystem/src/inode.c:392-416 | a new empty file under a fresh id; every other file is unchanged |
| `FileSystem.MetalFs.Write` | src/metal-filesystem/src/metal.c:473-498 | keeps the invariants, leaves the length asked for, and is the flat write of that range whenever the resulting list fits the backend, which it does if the extents before and one for every missing block do |
| `FileSystem.MetalFs.Read` | src/metal-filesystem/src/metal.c:500-527 | returns the number of bytes inside the file, for every file, and exactly those bytes whenever the list fits the backend, leaving the rest of the buffer alone |
| `FileSystem.MetalFs.Truncate` | src/metal-filesystem/src/metal.c:529-587 | keeps the invariants and is the flat resize; growing keeps every block's mapping and takes exactly the added blocks from the free ones; shrinking keeps the first ceil(n / block size) blocks and frees exactly the rest |
| `FileSystem.MetalFs.Unlink` | src/metal-filesystem/src/metal.c:589-629 | keeps the invariants, removes exactly that file and leaves all other contents alone |
| `FileSystem.MetalFs.ExpandInode` | src/metal-filesystem/src/metal.c:424-471 | growing as written terminates, never runs out of space when the free blocks cover what is missing, keeps the existing mapping, appends exactly the blocks that stop being free, and leaves the literal length |
| `FileSystem.MetalFs.Expand` | src/metal-filesystem/src/metal.c:424-471 | growing as intended: the same, with the length never short of what was asked for |
| `FileSystem.MetalFs.ExpandRound` | src/metal-filesystem/src/metal.c:442-468 | one round obtains between 1 and the missing number of blocks and appends them to the file |
| `FileSystem.MetalFs.Shrink` | src/metal-filesystem/src/metal.c:545-582 | the loop over the old list leaves exactly the first blocks in the file and keeps every invariant |
| `FileSystem.MetalFs.ShrinkOne` | src/metal-filesystem/src/metal.c:548-580 | one extent of the old list: kept, cut, or given back, with the invariants and the cut inode carried on |
| `FileSystem.MetalFs.CutExtent` | src/metal-filesystem/src/metal.c:556-575 | the first extent past the new end is cut or dropped, and the inode with it |
| `FileSystem.MetalFs.FreeFirst` | src/metal-filesystem/src/metal.c:552-555 | one run goes back to the allocator, the others stay owned |
| `FileSystem.MetalFs.LoadExtentList` | src/metal-filesystem/src/metal.c:631-668 | hands out the whole list, and fails exactly beyond the maximum |
| `FileSystem.AddToExtents` | src/metal-filesystem/src/inode.c:127-160 | the last extent grows if the reserved run is its own, otherwise a new extent is added |
| `FileClient.WriteThenRead` | src/metal-filesystem/src/metal.c:473-527 | in any state of the file system: after a write and any sequence of requests that are not about the written bytes, none of them lost, reading the range returns those bytes; with small files and requests nothing is lost |
| `FileClient.PerformAll` | src/metal-filesystem/src/metal.c:389-629 | over any sequence of create, write, truncate and unlink the invariants hold; if no write is lost, every byte of every file that no request is about keeps its value; none is lost while files and requests stay within 512 blocks |
| `FileClient.Perform` | src/metal-filesystem/src/metal.c:389-629 | any request keeps the invariants and is the flat operation, or is refused and changes nothing, or is a write that leaves more extents than the backend loads |
| `Fragmented.FileBeyondTheMaximum` | src/metal-filesystem/src/metal.c:424-471 | witness: two files that grow in turn reach a sound state in which one has 513 extents |
| `Fragmented.AlternatedIsSound` | src/metal-filesystem/src/metal.c:442-468 | every state on the way is sound |
| `Fragmented.GrowsByOne` | src/metal-filesystem/src/extent.c:83-148 | each growth is one reservation of a block that cannot extend the file's last extent |
| `Directory.RunsStayParsable` | src/metal-filesystem/src/inode.c:182-284 | the list that any run of appends and removals stands for has distinct names, and its encoding scans back to exactly that list |
| `Directory.ChangeAll` | src/metal-filesystem/src/inode.c:182-284 | running any sequence of appends and removals on the bytes, from an empty directory: it overruns exactly when a removal's name is too long for the directory at that point, and otherwise leaves the encoding of that list, which scans back to it |
| `Directory.Change` | src/metal-filesystem/src/inode.c:182-284 | one append or removal on the bytes: a duplicate or missing name leaves them unchanged; a removal overruns exactly when the directory is shorter than such an entry, never for a name that is there |
| `Directory.PresentNeverOverruns` | src/metal-filesystem/src/inode.c:244-249 | removing a present name never wraps the new length |
| `Directory.AppendThenFind` | src/metal-filesystem/src/inode.c:78-230 | resolving an appended name returns the id it was appended with; if the name was there already, the id it had |
| `Directory.RemoveThenFind` | src/metal-filesystem/src/inode.c:78-284 | resolving a removed name finds nothing, and every other name resolves as before |
| `Directory.ApplyKeepsDistinct` | src/metal-filesystem/src/inode.c:182-284 | appending and removing keep names distinct; a removed name is gone, an appended one is at the end with its id |
| `Directory.ParseEncode` | src/metal-filesystem/src/inode.c:37-58 | scanning an encoded list of entries, names of 1 to 255 bytes, gives the entries back |
| `Directory.EntryFound` | src/metal-filesystem/src/inode.c:37-58 | entry i is found where the entries before it end, with its id in the first eight bytes, the name's length in the ninth and the name from the seventeenth on |
| `Directory.Find` | src/metal-filesystem/src/inode.c:78-107 | resolve finds an entry exactly when the name is present, and returns its id |
| `Directory.Append` | src/metal-filesystem/src/inode.c:182-230 | appends exactly one entry, or reports Exists exactly when the name is present |
| `Directory.Remove` | src/metal-filesystem/src/inode.c:232-284 | succeeds exactly when the name is present, with its id and the bytes of the other entries; the unsigned subtraction wraps exactly when the directory is shorter than one such entry |
| `Directory.CopyOthers` | src/metal-filesystem/src/inode.c:251-284 | the copy loop with its bounds test decides whether the name is there and rebuilds the rest in order |
| `Directory.CopyEntry` | src/metal-filesystem/src/inode.c:259-279 | one entry: skipped with its id if it has the name, copied if there is room, and otherwise proof that the name is not there |
| `Directory.WithoutDeletesOne` | src/metal-filesystem/src/inode.c:232-284 | with distinct names removal deletes exactly that entry and keeps the order of the rest |
| `Directory.FreshDirectoryIsShort` | src/metal-filesystem/src/inode.c:244-245 | witness: a new directory is too short for looking up a missing name of 20 bytes |
| `ExtentMap.MapExtents` | src/metal-filesystem-pipeline/src/file_data_source_context.cpp:95-116 | the job holds the slot and two words for every extent register, zero beyond the list |
| `ExtentMap.Map.Load` | targets/SNAP/_internal/action/hw/hls/hls_action/mtl_extmap.cpp:16-40 | loading the encoding of a list, line by line with shifting, gives registers with the same extents and running totals |
| `ExtentMap.Fetch` | targets/SNAP/_internal/action/hw/hls/hls_action/mtl_extmap.cpp:16-40 | the shifted line delivers the two words of extent i, and keeps those of the extents to come |
| `ExtentMap.Map.Seek` | targets/SNAP/_internal/action/hw/hls/hls_action/mtl_extmap.cpp:42-56 | succeeds exactly when the block is below the total, and then stands on that block of the concatenated extents; otherwise nothing moves |
| `ExtentMap.Map.Next` | targets/SNAP/_internal/action/hw/hls/hls_action/mtl_extmap.cpp:58-67 | the registers move as the intended step does: to the next block of the extent, or to the first block of the next extent |
| `ExtentMap.Map.NextAsWritten` | targets/SNAP/_internal/action/hw/hls/hls_action/mtl_extmap.cpp:58-67 | the registers move as written: one block past the end of an extent before the next one begins |
| `ExtentMap.Map.Step` | targets/SNAP/_internal/action/hw/hls/hls_action/mtl_extmap.cpp:58-67 | one of the two, as chosen |
| `ExtentMap.AtIsBlock` | targets/SNAP/_internal/action/hw/hls/hls_action/mtl_extmap.cpp:42-71 | standing on logical block l means pointing at the l-th block of the concatenated extents, as the software walk does |
| `ExtentMap.AtIsUnique` | targets/SNAP/_internal/action/hw/hls/hls_action/mtl_extmap.cpp:42-56 | there is one way to stand on a block |
| `ExtentMap.NextBlockSteps` | targets/SNAP/_internal/action/hw/hls/hls_action/mtl_extmap.cpp:58-67 | one intended step moves from l to l + 1 |
| `ExtentMap.WalkIsSeek` | targets/SNAP/_internal/action/hw/hls/hls_action/mtl_extmap.cpp:42-67 | k intended steps after seeking l are where seeking l + k is |
| `ExtentMap.LiteralWalkLags` | targets/SNAP/_internal/action/hw/hls/hls_action/mtl_extmap.cpp:58-67 | the walk as written loses one step at every extent boundary it passes |
| `ExtentMap.LiteralWalkIff` | targets/SNAP/_internal/action/hw/hls/hls_action/mtl_extmap.cpp:58-67 | the walk as written stands where it should exactly while it is inside the extent where it started |
| `ExtentMap.LiteralStepPastTheEnd` | targets/SNAP/_internal/action/hw/hls/hls_action/mtl_extmap.cpp:61-61 | witness: two one-block extents, and the second block is wrong |
| `Transfers.IssuedIsTranslation` | targets/SNAP/_internal/action/hw/hls/hls_action/mtl_op_mem.hpp:15-81 | the byte ranges of the parts, concatenated, are byte by byte those of the blocks the DRAM map visits |
| `Transfers.PartsAreTheRangeIff` | targets/SNAP/_internal/action/hw/hls/hls_action/mtl_op_mem.hpp:15-81 | through a DRAM map that covers the transfer, the parts reach exactly the bytewise translation of the logical range with the intended step, and with the step as written if and only if the transfer stays inside one extent |
| `Issuing.IssuePartialTransfers` | targets/SNAP/_internal/action/hw/hls/hls_action/mtl_op_mem.hpp:15-81 | one part per block touched, inside one block, only the last flagged. The bytes of the parts: without a map the range itself; through a DRAM map that covers the transfer, the file's bytes at the addresses asked for, with the step as written if and only if they lie in one extent; for an NVMe map byte address + i modulo 2 GiB, in the lower half for a read and the upper for a write; through the page file right exactly up to its limit. The queued NVMe ranges, concatenated, are the NVMe file's bytes under the same condition as for DRAM |
| `Issuing.SoughtIsReached` | targets/SNAP/_internal/action/hw/hls/hls_action/mtl_op_mem.hpp:17-64 | ranges placed through a map that was sought first reach the bytes the transfer names exactly with the intended step or inside one extent |
| `Issuing.DirectGoes` | targets/SNAP/_internal/action/hw/hls/hls_action/mtl_op_mem.hpp:54-72 | the bytes of a transfer without a DRAM map are the range itself, or its image in one half of the staging area |
| `Issuing.PartsAreChunks` | targets/SNAP/_internal/action/hw/hls/hls_action/mtl_op_mem.hpp:37-78 | for every map type: a part for every block touched, of positive size, inside one block, the last flag on the last only |
| `Issuing.OneAddressPerPart` | targets/SNAP/_internal/action/hw/hls/hls_action/mtl_op_mem.hpp:54-66 | one NVMe address is queued per part that goes through an NVMe map, in the order of the parts, and none otherwise |
| `Issuing.OneExtentIff` | targets/SNAP/_internal/action/hw/hls/hls_action/mtl_extmap.cpp:42-67 | the range lies in one extent exactly if it ends with the extent its first block is in |
| `Transfers.MapsTheRangeIff` | targets/SNAP/_internal/action/hw/hls/hls_action/mtl_op_mem.hpp:15-81 | any ranges placed through a map reach exactly the bytes named with the intended step, or as written inside one extent |
| `Transfers.IssueParts` | targets/SNAP/_internal/action/hw/hls/hls_action/mtl_op_mem.hpp:15-81 | the loop for any maps: one part per chunk with the chunk's size, only the last one flagged, at the blocks the maps stand on after the seek and k steps, also past the end of a list; the NVMe addresses beside them |
| `Transfers.IssueRound` | targets/SNAP/_internal/action/hw/hls/hls_action/mtl_op_mem.hpp:35-81 | one round issues the chunk up to the end of the block or of the transfer and advances by it |
| `Transfers.NextTarget` | targets/SNAP/_internal/action/hw/hls/hls_action/mtl_op_mem.hpp:45-72 | the address of one chunk for every map type, from the blocks the maps stand on (what the addresses amount to: Issuing.IssuePartialTransfers) |
| `Transfers.StepMaps` | targets/SNAP/_internal/action/hw/hls/hls_action/mtl_op_mem.hpp:45-72 | the maps in use move one step, as intended or as written |
| `Transfers.SeekMaps` | targets/SNAP/_internal/action/hw/hls/hls_action/mtl_op_mem.hpp:17-33 | each map in use stands on the block of the first chunk, or where it was if its list has no such block (which block that is: Issuing.IssuePartialTransfers) |
| `Transfers.ChunksInBlocks` | targets/SNAP/_internal/action/hw/hls/hls_action/mtl_op_mem.hpp:37-43 | chunks are positive, stay inside one block, lie in successive blocks, and only the last one ends the transfer |
| `Transfers.ChunksAddUp` | targets/SNAP/_internal/action/hw/hls/hls_action/mtl_op_mem.hpp:15-81 | the chunk sizes add up to the requested size |
| `Transfers.PartsTranslateTheRange` | targets/SNAP/_internal/action/hw/hls/hls_action/mtl_op_mem.hpp:15-81 | parts placed chunk by chunk through a block list reach, byte by byte, what the list says |
| `Transfers.LiteralChunksIff` | targets/SNAP/_internal/action/hw/hls/hls_action/mtl_op_mem.hpp:35-81 | with the map step as written, all chunks inside a list get the right block exactly when they stay inside one extent |
| `PageFile.PageFileWindowIff` | targets/SNAP/_internal/action/hw/hls/hls_action/mtl_op_mem.hpp:26-66 | for every page file of 128 distinct blocks, every transfer and both steps: every issued byte reaches the page-file byte its address wraps to exactly when the transfer ends at the limit or before (128 blocks, or 129 if the first is block 0, with the intended step; the extent where it starts, with the step as written) |
| `PageFile.IssueThroughPageFile` | targets/SNAP/_internal/action/hw/hls/hls_action/mtl_op_mem.hpp:15-81 | the issuing loop on a page file and any NVMe map: its parts are right exactly up to that limit |
| `PageFile.VisitedIsWrappedIff` | targets/SNAP/_internal/action/hw/hls/hls_action/mtl_extmap.cpp:42-67 | the blocks visited, registers behind the list included, are the wrapped ones exactly up to that limit |
| `PageFile.AgentTransferNeverFits` | src/metal-filesystem-pipeline/src/metal_pipeline_storage.cpp:65-85 | a transfer of an agent's 64 MiB never fits a page file of PagefileSize bytes |
| `PageFile.PageFileNotWrapped` | targets/SNAP/_internal/action/hw/hls/hls_action/mtl_op_mem.hpp:26-66 | witness: on a page file in blocks 0 to 127, of three parts from the last block on the third goes to block 0 instead of 1, and as written the second to block 128 |
| `PageFile.WalkPastTheEnd` | targets/SNAP/_internal/action/hw/hls/hls_action/mtl_extmap.cpp:58-67 | behind the last extent the intended step stands on block 0 |
| `PageFile.LiteralPastTheEnd` | targets/SNAP/_internal/action/hw/hls/hls_action/mtl_extmap.cpp:58-67 | behind the last extent the step as written stands on the block after it, then on block 0 |
| `Transfers.Preload` | targets/SNAP/_internal/action/hw/hls/hls_action/mtl_op_mem.cpp:96-148 | for every size of at least 1 the blocks preloaded are exactly those the write covers partially, each once |
| `StreamTransfer.EveryScheduleIsTheLoop` | targets/SNAP/_internal/action/hw/hls/hls_action/mtl_op_mem.cpp:287-331 | under every schedule and capacities of at least 1: at most 8n steps, no stop before both processes are through, and then one command per element up to the first end of packet, with the element's size, last flag and address (2^63 higher for the card), the outputs and the sum of the byte counts |
| `StreamTransfer.LoopMeaning` | targets/SNAP/_internal/action/hw/hls/hls_action/mtl_op_mem.cpp:287-331 | each command carries its element's size and last flag and goes to its address, 2^63 higher for card memory; commands stop after the first end of packet, later outputs carry size 0, every input yields one output, the size is the sum of the status byte counts |
| `StreamTransfer.HostAndCardApart` | targets/SNAP/_internal/action/hw/hls/hls_action/mtl_op_mem.cpp:293-303 | a command for host memory below 2^63 and one for the card never share an address |
| `StreamTransfer.TransferFromStream` | targets/SNAP/_internal/action/hw/hls/hls_action/mtl_op_mem.cpp:287-331 | running both processes and the DataMover in any given order of turns issues exactly those commands, passes on exactly those outputs, and returns the sum of the byte counts |
| `StreamTransfer.TakeTurns` | targets/SNAP/_internal/action/hw/hls/hls_action/mtl_op_mem.cpp:287-331 | the loop over the turns always gets both processes through, to such an end |
| `StreamTransfer.NeverDeadlocks` | targets/SNAP/_internal/action/hw/hls/hls_action/mtl_op_mem.cpp:287-331 | in every reachable state that is not final one of the three can move |
| `StreamTransfer.InvKept` | targets/SNAP/_internal/action/hw/hls/hls_action/mtl_op_mem.cpp:287-331 | every step of either process or of the DataMover keeps the two processes in step and their data equal to a prefix of the loop |
| `StreamTransfer.CommandIssued` | targets/SNAP/_internal/action/hw/hls/hls_action/mtl_op_mem.cpp:301-323 | a status is awaited only after its command was issued |
| `NvmeWriteBack.WriteBackFinishesIff` | targets/SNAP/_internal/action/hw/hls/hls_action/mtl_op_mem.cpp:233-331 | behind a stream transfer whose elements have sizes, under every schedule: both processes of the write-back get through exactly when no NVMe element comes after a status that ends the packet |
| `NvmeWriteBack.FinishesIff` | targets/SNAP/_internal/action/hw/hls/hls_action/mtl_op_mem.cpp:242-276 | under every schedule and capacity the write-back rests within 5n steps; it is through then exactly when every NVMe element has a size, and otherwise a response is awaited although everything issued was answered |
| `NvmeWriteBack.StuckIff` | targets/SNAP/_internal/action/hw/hls/hls_action/mtl_op_mem.cpp:242-276 | a state where nothing moves is the end exactly when commands issued and responses awaited agree |
| `NvmeWriteBack.InvKept` | targets/SNAP/_internal/action/hw/hls/hls_action/mtl_op_mem.cpp:242-276 | every step of either process or of the device keeps the counts of commands and responses equal to those of the elements passed |
| `NvmeWriteBack.ResponsesMatchCommandsIff` | targets/SNAP/_internal/action/hw/hls/hls_action/mtl_op_mem.cpp:260-274 | commands issued never exceed responses awaited, and agree exactly when no NVMe element has size 0 |
| `NvmeWriteBack.ShortPacketStalls` | targets/SNAP/_internal/action/hw/hls/hls_action/mtl_op_mem.cpp:260-274 | witness: after a packet that ends in the first of two NVMe blocks every schedule ends with the second response awaited |
| `WritePath.Fill` | targets/SNAP/_internal/action/hw/hls/hls_action/mtl_op_mem.cpp:400-439 | the stages together, in the write direction: the parts reach what IssuePartialTransfers says with NVMe data in the upper 2 GiB, the queue names the NVMe ranges, and each command moves stream bytes to its part with its size, last flag and address (2^63 higher for the card) up to the end of the packet; the queue holds one address per NVMe element |
| `WritePath.TransferredIsDelivered` | targets/SNAP/_internal/action/hw/hls/hls_action/mtl_op_mem.cpp:287-331 | what the stream stage does with the parts as elements, said about the parts alone |
| `WritePath.NvmeWriteFinishesIff` | targets/SNAP/_internal/action/hw/hls/hls_action/mtl_op_mem.cpp:233-331 | a write to an NVMe file gets through, under every schedule, exactly when the packet does not end before its last part |
| `DoubleBuffer.InputIsSafeAndComplete` | src/metal-driver-placeholder/operator_agent.cpp:318-376 | in every interleaving agent and driver never access the same input half at once, requests and responses strictly alternate, and the driver has processed exactly the concatenation of the agent's reads so far, all of them when it ends |
| `DoubleBuffer.OutputIsSafeAndComplete` | src/metal-driver/agent_data_sink_context.cpp:38-77 | if no output comes after an odd number of empty ones, the output halves are never shared and the agent writes exactly the concatenation of the outputs |
| `DoubleBuffer.ClashIff` | src/metal-driver-placeholder/operator_agent.cpp:342-347 | writing out and running meet in one half exactly after an odd number of empty outputs |
| `OutputClash.NeverClashesIff` | src/metal-driver-placeholder/operator_agent.cpp:342-347 | no interleaving clashes exactly if every non-empty output before the last comes after an even number of empty ones |
| `OutputClash.OutOfStepClashes` | src/metal-driver/agent_data_sink_context.cpp:62-64 | for every output out of step, with a round to follow, a run that reaches the clash |
| `OutputClash.EmptyOutputClashes` | src/metal-driver-placeholder/operator_agent.cpp:342-347 | witness: four outputs of which the second is empty |
| `DoubleBuffer.NoEmptyOutputs` | src/metal-driver/agent_data_sink_context.cpp:62-64 | with no empty output before the last the condition holds |
| `DoubleBuffer.InvKept` | src/metal-pipeline/src/snap_pipeline_runner.cpp:48-66 | every step of either side keeps the message, fetch and input-buffer invariants |
| `DoubleBuffer.OutputKept` | src/metal-driver/agent_data_sink_context.cpp:38-77 | every step keeps where each output is and, if the halves are in step, what was written out |
| `DoubleBuffer.NeverStuck` | src/metal-driver-placeholder/operator_agent.cpp:318-376 | until both sides are through one of them can move |
| `DoubleBuffer.RunsEnd` | src/metal-driver-placeholder/operator_agent.cpp:318-376 | a session of n rounds takes at most 7n + 3 steps, and a run that cannot go on has ended on both sides |
| `AgentDriver.Buffer.Current` | src/metal-driver-messages/include/metal-driver-messages/buffer.hpp:32-35 | the bytes from the offset on are the half the flag selects |
| `AgentDriver.Buffer.Next` | src/metal-driver-messages/include/metal-driver-messages/buffer.hpp:36-39 | the bytes from the offset on are the other half, which does not overlap the current one |
| `AgentDriver.Buffer.Swap` | src/metal-driver-messages/include/metal-driver-messages/buffer.hpp:40-40 | the other half becomes current |
| `AgentDriver.Buffer.Fill` | src/metal-driver-placeholder/operator_agent.cpp:323-324 | storing bytes in the current half of the shared memory leaves the rest of that half and the other half alone |
| `AgentDriver.Buffer.Fetch` | src/metal-driver-placeholder/operator_agent.cpp:344-345 | the first bytes of the current half |
| `AgentDriver.Exchange.constructor` | src/metal-driver-placeholder/operator_agent.cpp:300-329 | both sides mapped on the same memory, at the start of a session |
| `AgentDriver.Exchange.ReadInput` | src/metal-driver-placeholder/operator_agent.cpp:357-363 | one read on the shared memory is the protocol's read step, whole state included |
| `AgentDriver.Exchange.SendRequest` | src/metal-driver-placeholder/operator_agent.cpp:333-340 | one request with the size and end of the last read goes out, unless the last response was the final one; nothing else changes |
| `AgentDriver.Exchange.WriteOutput` | src/metal-driver-placeholder/operator_agent.cpp:342-355 | the protocol's output step, switching halves only for outputs that are not empty |
| `AgentDriver.Exchange.ReceiveResponse` | src/metal-driver-placeholder/operator_agent.cpp:365-376 | exactly the oldest response is taken from the channel |
| `AgentDriver.Exchange.Configure` | src/metal-driver/agent_data_source_context.cpp:46-61 | the driver takes one request, with size and end of input |
| `AgentDriver.Exchange.RunPipeline` | src/metal-pipeline/src/snap_pipeline_runner.cpp:58-61 | the driver reads the current input half and fills the current output half; nothing runs on an empty piped input |
| `AgentDriver.Exchange.Finalize` | src/metal-driver/agent_data_source_context.cpp:63-88 | every buffer is switched and one response goes out |
| `AgentDriver.Exchange.RunSession` | src/metal-pipeline/src/snap_pipeline_runner.cpp:32-69 | a whole session on shared memory, under any given schedule, ends with all input processed in order and, if the outputs are in step, all output written in order |
| `Padding.InsertThenRemove` | buildpacks/hls/include/metal/stream.h:20-87 | for every width and stream other than one word that keeps nothing, removing inserted padding restores the stream word for word if one of the lanes that left its final word is kept; lane for lane with those lanes cleared if only others of that word are; and without that word if it keeps nothing. The kept bytes come back exactly unless the stream is one word that keeps nothing and the uninitialised register holds kept bytes |
| `Padding.InsertPadding` | buildpacks/hls/include/metal/stream.h:20-50 | every lane moves up by the padding, lane for lane; a word is added exactly if kept lanes leave the final word; the kept bytes are preserved; one last flag, on the final word |
| `Padding.RemovePadding` | buildpacks/hls/include/metal/stream.h:52-87 | every lane moves down by the padding, lane for lane: the lanes above it in the final word are flushed into a word of their own, followed by empty lanes, if one of them is kept, and dropped otherwise; one last flag, on the final word; a single word with nothing above the padding gets the register's content |
| `Padding.RemovedKeeps` | buildpacks/hls/include/metal/stream.h:52-87 | so the kept bytes of the result are those above the padding |
| `Padding.ThereAndBack` | buildpacks/hls/include/metal/stream.h:20-87 | what comes back of a raised stream, lane for lane |
| `Padding.LowerWord` | buildpacks/hls/include/metal/stream.h:58-85 | one round of the removal keeps that the lanes written and those still held are the lanes read less the padding, and completes it on the last word |
| `Padding.EmptyWordLeaksGarbage` | buildpacks/hls/include/metal/stream.h:52-87 | witness: a byte that appears from nowhere |

## Left out

- LMDB: the databases are maps with numeric key order; pages, byte-wise key comparison and the
  abort of a transaction are not modelled. A value loaded before an update is the old value.
- Allocator.ExtentStore.HeapExtractMax: does not claim that the largest free run is taken; any
  node may be, and every result holds for all choices.
- FileSystem.MetalFs.ExpandInode: requires that the free blocks cover what is missing, because
  the original ends in an assertion when they do not.
- FileSystem.MetalFs.Write: requires offset + length below the size of the store, as the
  assertion of the in-memory backend does; bytes of a gap between the old end and the offset are
  not specified, since the store does not clear blocks. With more than 512 extents the original
  copies through a list it never filled: nothing is claimed about any byte then.
- FileSystem.MetalFs.Read: the same bound on the range; with more than 512 extents nothing is
  claimed about the bytes counted.
- Directory.Change: nothing is claimed about the bytes after a removal that overruns.
- The store has 4096-byte blocks as in the in-memory backend; the file layer below it is proved
  for any block size.
- 64-bit wrap-around is not modelled, except for the nine-bit counters and queue position of the
  arbiter and the subtraction in `Directory.Remove`. Hardware address widths beyond the 64-bit
  command fields are not modelled either.
- FUSE handlers, paths, rename, chown, timestamps, `mkdir`, `rmdir` and the error paths of
  unlink: they would only add easy members.
- Directory names are byte strings without NUL, compared for equality; inode ids are eight bytes
  and the padding of an entry head is arbitrary.
- NvmeArbiter.Controller.Clock: reset happens once, before a run. The device is represented by
  `EnvironmentOk`: a completion is reported only while a completely written command is
  outstanding, and stream sources keep their offer until it is taken.
- NvmeRuns.PayloadHeldUntilReady: the constant address and length signals are not modelled; that
  a burst has AxLEN + 1 beats (section A3.4.1 of ARM IHI 0022E) is the constant six.
- StreamTransfer.TransferFromStream: one status per command, delivered in order, is assumed of
  the DataMover; the processes' local variables are one value, because they run interleaved.
- NvmeWriteBack.FinishesIff: the queue of NVMe addresses is assumed to hold one for every NVMe
  element, and the device to answer every command; the addresses are not modelled.
- The rest of `mtl_op_mem.cpp` (`load_nvme_data`, `transfer_to_stream`) and the absolute DRAM
  addresses of `preload_nvme_blocks`.
- FileClient.Perform: refuses requests that the original would end in an assertion, and requests
  for files that do not exist.
- ExtentMap.MapExtents: byte order of the words is not modelled.
- AgentDriver.Exchange.Configure: covers an agent with a piped input, a source agent, and a sink
  agent, each with one request per round. A single-stage pipeline that reads a file while it
  writes to an output buffer takes requests only in its first round and is not modelled.
- Sockets, process discovery, message texts, profiling and a response lost to an error.
- AgentDriver.Exchange.RunSession: does not claim what is written out when outputs are out of
  step; it then depends on the schedule.
- PageFile.PageFileWindowIff: requires that the page file's blocks are distinct and its extents
  apart, as those of a file are.
- WritePath.Fill: requires a size of at least 1; an empty transfer has no last part, and the
  stream stage would wait for one.
- Padding.InsertPadding: a width of 0 is not modelled (the bit ranges of the original are empty
  there and reversed in the library).
- Operator specifications, image information, build scripts and VHDL wrappers.
