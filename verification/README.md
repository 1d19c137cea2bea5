# RISC-MV: a verified model of the kernel and the virtual machine

This project models the parts of RISC-MV that keep invariants over long runs, and proves those invariants and what
they are good for:

- **RMFS**, the kernel's file system (`kernel/rmfs.c`): extents, bitmaps, the write-back metadata cache, group commit,
  directories, and the write transaction with its rollback. Every disk that ever existed is kept in a ghost log, so that a
  power failure after any block write can be spoken about.
- **Page tables**: the hardware walk of `src/mmu.c`, the kernel's mapping code in `kernel/mmu.c`, user address spaces in
  `kernel/address_space.c`, and the program loader in `kernel/user_loader.c` on top of them.
- **The processor's memory accesses and traps** (`src/cpu.c`): accesses that cross a page, trap entry, and return.
- **The interrupt router** (`src/interrupt.c`) as a state machine over its events.
- **The scheduler's queues** (`kernel/scheduler.c`), **the page manager** (`kernel/pmm.c`), **the heap**
  (`kernel/heap.c`) and **the device manager's address windows** (`src/device_manager.c`).

Code that changes state in place is a class with the source's fields, and each method is proved against a function of the
old state or against the promise itself. What an operation does to the whole is stated on values (snapshots of the state),
and the theorems about runs are lemmas about those values.

## Files

| file | contents |
|---|---|
| `RmfsExtents`, `RmfsAllocator`, `RmfsVolume` | extent lists; bitmaps and allocation; what a volume is and when it is consistent |
| `RmfsUpdate`, `RmfsPatch`, `RmfsState`, `RmfsDirectory` | writing a record; what a write does to bytes; the mounted state and its cache; directory search and paths |
| `RmfsTransaction`, `Rmfs` | plan, publication and outcome of a transaction; the class with every operation |
| `RmfsMeaning`, `RmfsDurability`, `RmfsExposure` | what writes mean to a reader; what a power failure can do; a volume on which a range write shows stale bytes |
| `PageTables`, `KernelMmu` | entries, the hardware walk and trees of tables; the kernel's mapping code |
| `AddressSpaces`, `AddressOperations`, `AddressRights`, `UserSpaces` | invariants of user spaces; effect of each operation; isolation, rights and the software walk; the class |
| `KernelMappings` | changes to the kernel's own tables while user spaces exist |
| `ProgramImage`, `UserLoader` | what a program file asks for; loading it |
| `CpuMemory`, `Traps`, `Processor` | accesses byte by byte; traps and returns over whole runs; the class |
| `InterruptRouter`, `RouterDevice` | the router as a state machine and what holds in every run; the class |
| `SchedulerQueues`, `KernelScheduler` | queues and the invariant that ties them to threads; the class |
| `PhysicalPages`, `PageManager` | the chain of free pages inside the pages; the class |
| `HeapBlocks`, `KernelHeap` | the doubly linked block list; the class |
| `DeviceBars`, `DeviceManager` | first-fit search for address windows; slots, lines and windows of devices |
| `Options` | values that may be missing |

## Model

| member | source | states |
|---|---|---|
| RmfsExtents.AppendExtent | kernel/rmfs.c:308-329 | succeeds exactly when the extent joins the last one or a place is left, and then the list names the old blocks followed by the new ones |
| RmfsExtents.AppendInodeRange | kernel/rmfs.c:331-357 | the result names the old blocks followed by the requested logical slice of the file, wherever extents are cut; a failure has one of the listed causes |
| RmfsExtents.AppendAllocated | kernel/rmfs.c:359-373 | the result names the old blocks followed by the allocated ones, with logical positions continued |
| RmfsExtents.BlockCount | kernel/rmfs.c:375-382 | the number of blocks the extents name |
| RmfsExtents.PhysicalBlock | kernel/rmfs.c:384-395 | the block behind a logical number, 0 past the end |
| RmfsAllocator.AllocateExtents | kernel/rmfs.c:592-630 | takes exactly the lowest free blocks, in order, as extents; succeeds if and only if that many are free and few enough extents name them; a failure leaves the bitmap as it was |
| RmfsAllocator.AllocateInode | kernel/rmfs.c:632-641 | the lowest clear inode bit, or 0 exactly when there is none |
| RmfsAllocator.ReleaseExtents | kernel/rmfs.c:692-703 | clears exactly the bits of the named blocks and counts them |
| RmfsAllocator.MarkExtentBits | kernel/rmfs.c:576-590 | marks exactly the bitmap blocks that hold a bit of the extents, and fails exactly when one lies outside |
| RmfsAllocator.MarkBitmapBit | kernel/rmfs.c:566-574 | marks the bitmap block that holds the bit |
| RmfsVolume.DecodeInode | kernel/rmfs.c:256-285 | accepts exactly the inodes whose extents are chained, lie in the data area and cover the size |
| RmfsPatch.FillBlock | kernel/rmfs.c:1162-1188 | the block buffer ends as the old block below the old end, zero beyond it, and the buffer's bytes where the request falls into it |
| RmfsState.ChooseEntry | kernel/rmfs.c:169-184 | finds the entry that caches the block if there is one, else the first unused entry, else the least recently used one |
| RmfsState.ClosedGroupIsOnDisk | kernel/rmfs.c:813-834 | between groups a mount of the disk is accepted and finds exactly the state in memory, consistent |
| RmfsDirectory.ScanBlock | kernel/rmfs.c:431-456 | first match, else the first empty slot, else a broken slot is reported |
| RmfsDirectory.SearchBlock | kernel/rmfs.c:425-457 | one block of the search keeps the first free slot of all blocks so far and stops at the first match |
| RmfsTransaction.Splice | kernel/rmfs.c:1131-1146 | the new extents name the kept prefix, the allocated blocks and the kept suffix; the retired ones name exactly what was replaced |
| RmfsTransaction.GrowExtents | kernel/rmfs.c:721-741 | one block more at the end, if it joins the last extent or a place is left |
| RmfsTransaction.WrittenBytes | kernel/rmfs.c:1089-1192 | bytes and slack of the written file are those the request makes of its old ones, byte by byte |
| RmfsTransaction.FinishedSound | kernel/rmfs.c:1193-1235 | a published and settled transaction leaves a sound volume whose nodes are the old ones with the file, and for a creation its directory, replaced |
| Rmfs.FileSystem.MetadataBlock | kernel/rmfs.c:169-198 | every block reads as before, no dirty contents are lost on eviction, clean entries equal the disk, and the entry evicted is the least recently used |
| Rmfs.FileSystem.FlushMetadataCache | kernel/rmfs.c:200-211 | afterwards nothing is dirty and every block reads as before |
| Rmfs.FileSystem.ReadInode | kernel/rmfs.c:239-292 | the live record of the inode, or a refusal |
| Rmfs.FileSystem.FindDirectoryEntry | kernel/rmfs.c:408-472 | over all blocks of the directory: the first entry of that name, or where a new one goes |
| Rmfs.FileSystem.Resolve | kernel/rmfs.c:474-506 | the inode to which the path leads through the directories |
| Rmfs.FileSystem.ResolveParent | kernel/rmfs.c:508-537 | the directory to which all but the last name lead |
| Rmfs.FileSystem.LoadBitmap | kernel/rmfs.c:552-564 | the bits of the stored blocks, in order |
| Rmfs.FileSystem.WriteInode | kernel/rmfs.c:643-673 | that record of the table changes and nothing else on disk, cache and disk agreeing |
| Rmfs.FileSystem.WriteDirent | kernel/rmfs.c:675-690 | that slot changes and nothing else on disk |
| Rmfs.FileSystem.ExpandDirectory | kernel/rmfs.c:705-747 | a fresh block without entries at the end of the directory, or the bitmap as it was |
| Rmfs.FileSystem.WriteSuper | kernel/rmfs.c:749-784 | both superblocks hold the record, and the disk between the two writes is safe too |
| Rmfs.FileSystem.FlushBitmap | kernel/rmfs.c:786-799 | every dirty bitmap block is on disk |
| Rmfs.FileSystem.BeginGroup | kernel/rmfs.c:801-811 | both superblocks say DIRTY while the volume says what it said |
| Rmfs.FileSystem.SyncLocked | kernel/rmfs.c:813-834 | success closes the group as one commit of exactly the state in memory; a failure unmounts; at most that state is added to the commits |
| Rmfs.FileSystem.Mount | kernel/rmfs.c:836-973 | nothing is written; an accepted disk passed every check and memory says what the disk says, sound if that is consistent |
| Rmfs.FileSystem.ReadInodeRange | kernel/rmfs.c:989-1023 | the bytes of the file from the offset, at most the capacity, block by block |
| Rmfs.FileSystem.ReadRange | kernel/rmfs.c:1025-1041 | the window of the bytes the path reads |
| Rmfs.FileSystem.WriteData | kernel/rmfs.c:1155-1192 | the images are in the fresh blocks, no block in use is touched, and every disk on the way is safe |
| Rmfs.FileSystem.WriteTransaction | kernel/rmfs.c:1058-1249 | success replaced the named file by exactly what the request makes of it, or created it in the first free slot under the lowest free number, and changed nothing else; a failure that leaves the volume mounted leaves bitmaps, counters, dirty marks and all contents as they were; each new commit is such an outcome |
| Rmfs.FileSystem.WriteFile | kernel/rmfs.c:1251-1261 | the same for a whole file, for every state committed on the way too |
| Rmfs.FileSystem.WriteRange | kernel/rmfs.c:1263-1277 | the same for a range with a new final size |
| Rmfs.FileSystem.Sync | kernel/rmfs.c:1279-1285 | success means a mount of the disk finds exactly the present state |
| Rmfs.FileSystem.Recover | kernel/rmfs.c:836-973 | whatever disk in the log a power failure leaves, a mount is refused or finds a committed state, consistent and ready for use |
| RmfsMeaning.WriteReadsBack | kernel/rmfs.c:1058-1249 | seen by path: the written path holds what the request makes of its old contents, every other path leads where it led and reads what it read |
| RmfsMeaning.PatchedExactly | kernel/rmfs.c:1089-1113 | the file reads as its old bytes patched with the buffer if and only if the slack bytes that the request exposes were zero |
| RmfsMeaning.ExposedWhen | kernel/rmfs.c:1089-1113 | which bytes are exposed: those the file grows over inside its old last block when the write stops short of that block, and no others |
| RmfsMeaning.SlackStaysZero | kernel/rmfs.c:1058-1249 | zeros past the end of every file stay zeros, whatever is written |
| RmfsMeaning.WritesReadBack | kernel/rmfs.c:1058-1249 | from a volume with zeros past every end, each write of a run of any length reads back as the old bytes patched with its buffer |
| RmfsDurability.AtomicWrite | kernel/rmfs.c:749-834 | after a sync, whatever disk a power failure leaves during or after a write, it does not mount, or it is consistent and says the synced state or the state with the whole write |
| RmfsDurability.DurableWrite | kernel/rmfs.c:1251-1285 | a file written and synced is read back from the disk mounted anew |
| RmfsExposure.VolumeIsSound | kernel/rmfs.c:898-920 | a concrete volume of nine blocks mounts and is consistent |
| RmfsExposure.ExposureHappens | kernel/rmfs.c:1089-1113 | on it a one-byte range write that succeeds makes the file read a stale seven instead of a zero |
| PageTables.Translate | src/mmu.c:46-119 | the loop over levels gives the translation that the leaf found by the walk stands for: address, or the kind of fault |
| PageTables.SamePageWalk | src/mmu.c:46-119 | addresses of one page find the same leaf |
| PageTables.LeafWritten | kernel/mmu.c:48-75 | a leaf written into a tree of tables is found by exactly the addresses its entry covers |
| PageTables.TableLinked | kernel/mmu.c:18-27 | an empty table linked where nothing was keeps the tree and every translation |
| KernelMmu.Kernel.AllocateNextTable | kernel/mmu.c:18-27 | follows or makes a table without changing a translation, and fails exactly on a leaf or when no page is left |
| KernelMmu.Kernel.MapLeaf | kernel/mmu.c:29-76 | success maps exactly the addresses of the leaf (modulo 2^39) and nothing else; a failure changes no translation and, with pages left, means a leaf is in the way |
| KernelMmu.Kernel.MapRange | kernel/mmu.c:85-134 | every page done is mapped with the right offset by whichever leaf size covers it and everything else is as before; past 2^39 an address finds the mapping of the last address of the range that wraps to it; a failure with pages left means something is in the way |
| KernelMmu.Kernel.HardwareSees | src/mmu.c:46-119 | the hardware then translates each address of the range to start plus offset with exactly the requested rights, but for a leaf that reaches over the end of memory, and every other address as before |
| KernelMmu.LeafFaithful | kernel/mmu.c:29-76 | a mapped leaf does for every one of its addresses what was asked for if and only if all of it lies below 2^39 and it does not reach over the end of memory |
| KernelMmu.RangeFaithful | kernel/mmu.c:85-134 | the same for a range |
| KernelMmu.WrapHappens | kernel/mmu.c:29-76 | on a fresh kernel the mapping of 2^39 succeeds, 2^39 stays invalid and address 0 is mapped |
| AddressSpaces.SpaceWalk | src/mmu.c:46-119 | which entry decides the hardware walk through a space |
| AddressSpaces.StaysSound | kernel/address_space.c:61-132 | an operation that writes only its space's pages and free ones keeps every other space and the kernel in order |
| AddressOperations.MakePrivate | kernel/address_space.c:61-90 | a private copy of a kernel table changes no translation |
| AddressOperations.AddMapping | kernel/address_space.c:178-191 | the page is translated to the new leaf, nothing else changes, and the record is added |
| AddressOperations.RemoveMapping | kernel/address_space.c:328-339 | the page is no longer translated, nothing else changes, and the record is gone |
| AddressOperations.UserMappedIsRecorded | kernel/address_space.c:262-300 | a user entry is found by the kernel's walk exactly where a mapping is recorded |
| AddressOperations.SpaceCreated | kernel/address_space.c:92-132 | a new space translates everything as the kernel does |
| AddressRights.Isolation | kernel/address_space.c:61-132 | an operation on one space changes no translation of the kernel or of another space |
| AddressRights.IsolatedOverRuns | kernel/address_space.c:61-342 | the same over runs of any length: what the hardware translates for the kernel and for a space that is not acted on stays as at the start |
| KernelMappings.EntryPut | kernel/mmu.c:29-76 | an entry written in a kernel table is such a step of the kernel |
| KernelMappings.TablePut | kernel/mmu.c:18-27 | so is a cleared page linked as a new kernel table |
| KernelMappings.KernelStepSound | kernel/address_space.c:92-132 | a change to the kernel's tables, which all spaces share, keeps every space in order |
| KernelMappings.UserUnmoved | kernel/address_space.c:92-132 | and changes nothing that user mode is let through to, in any space |
| KernelMappings.UserIsolated | kernel/address_space.c:61-342 | over runs in which operations on other spaces and on the kernel's tables mix, user mode in a space not acted on reaches what it reached at the start and nothing else |
| AddressRights.PagesConserved | kernel/address_space.c:28-146 | no operation loses a page or makes one up |
| AddressRights.UserLeaves | kernel/address_space.c:153-260 | a leaf for user mode comes from a private table and is readable, in memory and not both writable and executable |
| AddressRights.WriteXorExecute | kernel/address_space.c:153-260 | no address can be both written and executed in user mode |
| AddressRights.ResolveAgrees | kernel/address_space.c:344-378 | where the kernel has no large page, the software walk and the hardware's user-mode translation agree in both directions |
| AddressRights.ResolveExactly | kernel/address_space.c:344-378 | they agree if and only if there is no large page there, or the word of it that is taken for an entry does not pass for one |
| AddressRights.ResolveDiffers | kernel/address_space.c:344-378 | a concrete sound state with one space where the software walk gives user memory and the hardware none |
| UserSpaces.Machine.Create | kernel/address_space.c:92-132 | a space without mappings that sees what the kernel sees, or nothing taken |
| UserSpaces.Machine.Destroy | kernel/address_space.c:134-146 | exactly the pages the space had from the page manager are free again, external ones not among them |
| UserSpaces.Machine.PrivateLevel0 | kernel/address_space.c:61-90 | the private table of an index, made on first use without changing a translation; refused only for lack of pages or over a large page |
| UserSpaces.Machine.MapAnonymous | kernel/address_space.c:153-194 | a cleared page of the space's own at a free user page with the rights asked for, contents of other pages kept; a failure changes no translation and its cause is stated |
| UserSpaces.Machine.MapPhysical | kernel/address_space.c:196-260 | the whole range or no change of any translation; what was mapped is rolled back; a failure without lack of pages means something was in the way |
| UserSpaces.Machine.FindUserPage | kernel/address_space.c:262-276 | the record of the mapping at an address |
| UserSpaces.Machine.UnmapRange | kernel/address_space.c:302-342 | succeeds if and only if every page of the range is a user mapping, and then exactly these are gone and the space's own pages free; else nothing changes |
| ProgramImage.NoCollision | kernel/user_loader.c:180-187 | segments that were accepted do not meet after rounding to pages |
| ProgramImage.Placement | kernel/user_loader.c:159-179 | an accepted segment lies, rounded, in the user area below the stack, with rights a user page may have |
| ProgramImage.ByteAgrees | src/cpu.c:261-323 | the byte that the model reads from a page is the byte the processor loads |
| UserLoader.Validate | kernel/user_loader.c:125-203 | accepts exactly the segment tables whose segments are good, do not overlap and hold the entry in an executable one, and returns the least address and the greatest end |
| UserLoader.CopyBytes | kernel/user_loader.c:235-248 | the page holds the file's bytes that belong there and zeros elsewhere |
| UserLoader.LoadPage | kernel/user_loader.c:225-249 | one page mapped and filled; what was mapped stays with its contents |
| UserLoader.LoadSegment | kernel/user_loader.c:213-251 | every page of the segment is mapped with its rights and holds its bytes, and no other address is found differently |
| UserLoader.LoadImage | kernel/user_loader.c:253-296 | success: user mode finds every byte of every segment (the file's, or zero past its end) with exactly the segment's rights, a zeroed writable stack, and all else as in the kernel; failure: no space, the same free pages, and one of the three possible causes |
| CpuMemory.TranslateLinear | src/cpu.c:150-181 | inside a page translation keeps distances and a fault is that of the page |
| CpuMemory.BuildSegments | src/cpu.c:183-259 | at most two pieces that together are the addresses the bytes translate to one by one, or the fault of the byte that faults |
| CpuMemory.WritableIsReadable | src/mmu.c:80-84 | where a store is allowed a load is and finds the same byte |
| CpuMemory.StoredExactly | src/cpu.c:325-391 | a store changes the addressed bytes and no other |
| CpuMemory.LoadStored | src/cpu.c:261-391 | what was stored is loaded |
| CpuMemory.SignKept | src/cpu.c:745-759 | the extended register stands for the same signed number |
| Processor.Cpu.ReadMemory | src/cpu.c:261-323 | the bytes that each address translates to on its own, or a fault and no change |
| Processor.Cpu.WriteMemory | src/cpu.c:325-391 | each byte goes where its own address translates to; a page fault on any byte, and without the bus any fault, leaves memory as it was |
| Processor.Cpu.Load | src/cpu.c:1191-1217 | the register gets the value, sign-extended where asked, or no register changes |
| Processor.Cpu.Store | src/cpu.c:1254-1277 | memory gets the value, or a page fault leaves it as it was |
| Processor.Cpu.Push | src/cpu.c:805-830 | the word is written whole and the stack pointer moves, or neither |
| Processor.Cpu.Pop | src/cpu.c:832-848 | the word at the stack pointer, which moves past it, or no change |
| Processor.Cpu.PushThenPop | src/cpu.c:805-848 | what was pushed is popped and the stack pointer is back, if the stack is not on the tables that map it |
| Processor.Cpu.Accessible | src/cpu.c:553-588 | exactly when every byte of the word can be written in memory |
| Processor.Cpu.EnterHandler | src/cpu.c:876-956 | the handler's context, the frame readable at the stack pointer and no other byte of memory written; a failure leaves the context and, with the stack off its tables, memory |
| Processor.Cpu.TakeInterrupt | src/cpu.c:2867-2905 | enters as a trap that will return to the next instruction |
| Processor.Cpu.DeliverException | src/cpu.c:958-992 | enters as a trap of an exception, only while none is handled |
| Processor.Cpu.Return | src/cpu.c:2176-2254 | the context that the words of the frame stand for, or no change; it succeeds whenever the frame can be read and its return address fetched |
| Traps.RoundTrip | src/cpu.c:56-66 | what is saved on entry is restored from the frame, bit by bit |
| Traps.TranslateKept | src/mmu.c:46-119 | memory that differs outside the tables of an address translates it as before |
| Traps.SparedWord | src/cpu.c:876-956 | a trap whose frame lies neither on a word nor on a table that maps it leaves the word as it reads |
| Traps.FlatStack | src/cpu.c:876-956 | without paging every word from the stack pointer up is spared by the next trap |
| Traps.PagedStack | src/cpu.c:876-956 | with paging a word is spared whose bytes are mapped apart from the frame's and whose tables are not in the frame |
| Traps.StepKeeps | src/cpu.c:876-992 | a frame that an event leaves alone, be it work, a trap or a return through any frame, stays as its trap made it |
| Traps.FrameKept | src/cpu.c:876-992 | the same over any stretch of a run, whatever happens to other frames, to the mode and to the tables |
| Traps.ReturnResumes | src/cpu.c:2176-2254 | in every run a return through a frame that was left alone since its trap resumes exactly what that trap interrupted, in whatever order frames are returned through or given up |
| Traps.NestedReturn | src/cpu.c:876-992 | where returns come in the opposite order, pc, both stack pointers, mode, flags and the exception state are those of the interrupted program |
| InterruptRouter.RunGood | src/interrupt.c:97-140 | in every run from a reset a target has at most one active line, and none is idle while an enabled pending line is routed to it |
| InterruptRouter.NextConserves | src/interrupt.c:142-393 | a line is pending or active after an event exactly when the event raises it, or it was and the event is no reset, no clearing of it and no end of it without a second raise |
| InterruptRouter.RaisedStays | src/interrupt.c:194-222 | in every run a raised line stays pending or active until it is ended in that sense |
| InterruptRouter.RaisedAgain | src/interrupt.c:376-393 | a line raised again while in service survives its end of interrupt, whatever comes between |
| InterruptRouter.RunTidy | src/interrupt.c:376-393 | if each end of interrupt follows the taking of its line, a controller holds only active device lines routed to it |
| InterruptRouter.OneHeld | src/interrupt.c:64-95 | and then at most one |
| InterruptRouter.EarlyEoi | src/interrupt.c:376-393 | an end of interrupt keeps that property if and only if the controller had given the line out or the line is delivered again at once |
| InterruptRouter.EarlyEoiHappens | src/interrupt.c:376-393 | a run of three events from reset after which a controller holds a line that is not active, and then two lines |
| RouterDevice.Router.HasActive | src/interrupt.c:97-109 | whether an active line occupies the target |
| RouterDevice.Router.DispatchTarget | src/interrupt.c:111-133 | the lowest enabled pending line of an idle target is delivered |
| RouterDevice.Router.DispatchAll | src/interrupt.c:135-140 | the same for all targets in order |
| RouterDevice.Router.SetRouteOf | src/interrupt.c:169-192 | the step of the state machine; an active line is not rerouted |
| RouterDevice.Router.RaiseLine | src/interrupt.c:194-222 | the step of the state machine, and the direct delivery without it |
| RouterDevice.Router.ClearLine | src/interrupt.c:224-257 | the step of the state machine, and the direct withdrawal without it |
| RouterDevice.Router.ProgrammableReset | src/interrupt.c:259-277 | the reset step |
| RouterDevice.Router.SetEnabledLines | src/interrupt.c:279-294 | the step, refused for lines that no device has |
| RouterDevice.Router.EnableLines | src/interrupt.c:296-311 | the step, refused for lines that no device has |
| RouterDevice.Router.DisableLines | src/interrupt.c:313-327 | the step, refused for lines that no device has |
| RouterDevice.Router.EndOfInterrupt | src/interrupt.c:376-393 | the step, refused for a line that is not active |
| RouterDevice.Router.LowestLine | src/interrupt.c:52-62 | the lowest line of the mask |
| RouterDevice.Router.TakeNext | src/interrupt.c:64-95 | inter-processor interrupts first, the lowest line first, and exactly that line leaves the controller |
| SchedulerQueues.OneProcessor | kernel/scheduler.c:165-188 | no thread runs on two processors |
| SchedulerQueues.WakeOnce | kernel/scheduler.c:229-249 | a wake ends a wait once: it puts the thread in the run queue, out of every other queue, and waking it again does nothing |
| SchedulerQueues.ExpiredExactly | kernel/scheduler.c:629-643 | a pass over the timeouts wakes exactly the threads whose deadline has passed |
| SchedulerQueues.RetriedEnded | kernel/scheduler.c:609-627 | an idle processor's next attempt revives an ended thread exactly when it gives itself back to that thread |
| KernelScheduler.Scheduler.Enqueue | kernel/scheduler.c:154-163 | only a runnable thread that is not queued joins the queue |
| KernelScheduler.Scheduler.Dequeue | kernel/scheduler.c:165-188 | the first thread that fits the processor; the threads passed over go to the back in order |
| KernelScheduler.Scheduler.DetachWait | kernel/scheduler.c:204-219 | out of its wait queue and the timeout queue, invariant kept |
| KernelScheduler.Scheduler.WakeWaiter | kernel/scheduler.c:229-249 | a blocked thread is woken with the result, any other left alone; each wait begun is ended at most once |
| KernelScheduler.Scheduler.WakeOne | kernel/scheduler.c:251-263 | the first waiter moves to the end of the run queue |
| KernelScheduler.Scheduler.WakeAll | kernel/scheduler.c:265-277 | all waiters move to the run queue in order |
| KernelScheduler.Scheduler.Register | kernel/scheduler.c:433-485 | the new threads join the run queue in order, the others unchanged |
| KernelScheduler.Scheduler.Retry | kernel/scheduler.c:609-627 | the first thread that fits is taken; the thread that gave the processor up gets it back exactly when none fits, none is blocked and none runs, even if it has ended; no other ended thread is revived |
| KernelScheduler.Scheduler.Tick | kernel/scheduler.c:1451-1471 | the clock advances and exactly the timed waiters whose deadline has passed are woken; ended threads stay ended, as in every operation but Retry and BlockKernel |
| KernelScheduler.Scheduler.Yield | kernel/scheduler.c:645-656 | the running thread goes to the back and the first thread that fits takes over, the whole new state given |
| KernelScheduler.Scheduler.BlockCurrent | kernel/scheduler.c:831-867 | the running thread joins the wait queue and, if timed, the timeout queue, and the first thread that fits runs next or the processor idles; refused exactly as the source says |
| KernelScheduler.Scheduler.BlockKernel | kernel/scheduler.c:889-954 | the same for a thread inside the kernel, and this revives exactly that thread if it had ended |
| KernelScheduler.Scheduler.BlockForEvent | kernel/scheduler.c:1035-1167 | the running thread blocks without a queue and the first thread that fits runs next |
| KernelScheduler.Scheduler.Exit | kernel/scheduler.c:1352-1383 | the thread ends, those that wait for it are woken in order, and the first thread that fits runs next; nothing happens without a running thread |
| KernelScheduler.Scheduler.Leave | kernel/scheduler.c:1376-1383 | a processor leaves its thread for good and takes the first thread that fits |
| KernelScheduler.Scheduler.RequestStop | kernel/scheduler.c:1205-1230 | every other thread of the process leaves all queues and ends unless a processor works for it |
| KernelScheduler.Scheduler.StopCurrent | kernel/scheduler.c:1232-1246 | the thread on the processor ends exactly when another thread asked its process to stop |
| KernelScheduler.Scheduler.Fault | kernel/scheduler.c:1385-1433 | before the lock is given up all threads of the process are out of all queues and have ended, all others are unchanged and every processor still has its thread |
| PageManager.Manager.SelectNext | kernel/pmm.c:59-80 | the next range with a page in it, skipping no page |
| PageManager.Manager.TakeFresh | kernel/pmm.c:82-90 | the next page of the ranges, 0 only when they are used up |
| PageManager.Manager.Init | kernel/pmm.c:92-125 | accepts exactly the maps whose usable entries have bounds inside memory and a page among them, and then exactly those pages are free |
| PageManager.Manager.AllocPage | kernel/pmm.c:127-147 | a cleared page that was free, 0 only when none is |
| PageManager.Manager.FindRun | kernel/pmm.c:159-195 | finds a run of that many pages in a row in the chain if and only if there is one, and it is the first |
| PageManager.Manager.Splice | kernel/pmm.c:166-175 | exactly the pages of the run leave the chain |
| PageManager.Manager.AllocContiguous | kernel/pmm.c:149-225 | succeeds if and only if the chain has such a run or one range has room; the pages were free and are cleared; a failure leaves the same pages free |
| PageManager.Manager.FreePage | kernel/pmm.c:227-239 | exactly that page is free besides the others, contents of pages in use kept |
| PageManager.Manager.ReleaseRange | kernel/pmm.c:246-259 | exactly the pages of the range become free, and pages still in use keep their contents |
| PhysicalPages.ChainPush | kernel/pmm.c:227-239 | a page pushed keeps the chain inside the pages acyclic and without duplicates |
| KernelHeap.AlignSize | kernel/heap.c:26-35 | the least multiple of the alignment, 0 exactly for sizes that cannot be served |
| KernelHeap.Heap.AppendPages | kernel/heap.c:48-95 | the mapped part grows by whole pages into the last free block, blocks in use unchanged |
| KernelHeap.Heap.SplitTail | kernel/heap.c:97-115 | the block has the size asked for and the rest is a free block behind it |
| KernelHeap.Heap.MergeNext | kernel/heap.c:117-126 | a free neighbour is taken in and the list stays in order |
| KernelHeap.Heap.Malloc | kernel/heap.c:156-178 | the first free block that is large enough, in one scan, if there is one; any block returned is new, aligned and of at least the size, every other block in use is unchanged, and there are at most two scans |
| KernelHeap.FirstOfFits | kernel/heap.c:162-172 | where some free block is large enough there is a first one, so the allocation succeeds |
| KernelHeap.Heap.Calloc | kernel/heap.c:180-187 | the same for a product that does not overflow |
| KernelHeap.Representable | kernel/heap.c:180-183 | the test by division refuses exactly the products that are zero or overflow |
| KernelHeap.Heap.Free | kernel/heap.c:189-212 | that block and no other is no longer in use, and no two neighbours are free; a pointer without the header of a block in use before it is ignored |
| KernelHeap.Heap.Validate | kernel/heap.c:214-242 | accepts exactly the heaps that some list of blocks tiles |
| KernelHeap.Heap.SelfCheck | kernel/heap.c:214-242 | every heap the operations can produce is accepted as soon as it has a block |
| KernelHeap.Heap.InUse | kernel/heap.c:156-178 | payloads in use have no byte in common, lie in what is mapped and are aligned |
| KernelHeap.Heap.AllFree | kernel/heap.c:189-212 | when nothing is in use all that was mapped is one free block |
| DeviceBars.Align | src/device_manager.c:70-80 | an aligned address not below the value, or none |
| DeviceBars.AlignLeast | src/device_manager.c:70-80 | and there is no aligned address between |
| DeviceBars.ConflictEnd | src/device_manager.c:115-159 | whether a window overlaps one in use or pending, and the greatest end among those |
| DeviceBars.JumpSkipsNothing | src/device_manager.c:184-194 | between a conflicting base and the end of its greatest conflict nothing is feasible |
| DeviceBars.AllocateBar | src/device_manager.c:161-197 | the least feasible base, and failure only if there is none |
| DeviceBars.AllocateBars | src/device_manager.c:161-197 | each window of a device is the least one clear of those in use and those before it |
| DeviceBars.AttachedApart | src/device_manager.c:161-197 | windows chosen so keep all windows of all devices apart |
| DeviceManager.Manager.FreeSlot | src/device_manager.c:51-59 | the first empty slot |
| DeviceManager.Manager.AllocateLine | src/device_manager.c:82-94 | the lowest free line from 2 up |
| DeviceManager.Manager.Attach | src/device_manager.c:496-587 | a slot, windows and lines as above, or nothing; no two windows of any devices overlap and no line is given twice |
| DeviceManager.Manager.Detach | src/device_manager.c:606-655 | the slot is empty and its lines are free |
| DeviceManager.Manager.AttachDetach | src/device_manager.c:496-655 | a device that comes and goes leaves slots and lines as they were |

## Findings

Four properties one might expect do not hold of the code. Each has an input that shows it and its exact condition.

- **A range write can show stale bytes.** When a range write grows a file inside its last block but stops short of that
  block, the block is kept as it is, and what lay past the old end becomes part of the file. `PatchedExactly` and
  `ExposedWhen` say exactly when; `RmfsExposure` has a consistent volume, the request and the wrong result.
  `WritesReadBack` shows that it never happens on a volume whose files have zeros past their ends, which all writes keep.
- **The kernel's software walk and the hardware can disagree.** `kernel_address_space_resolve` does not ask whether an
  upper entry is a leaf, so under a large page of the kernel it takes data for an entry. `ResolveExactly` says exactly
  when the two agree; `ResolveDiffers` is a sound state with one space where they do not.
- **An early end of interrupt leaves a stray line.** If software ends a line that its controller has not given out,
  the controller goes on holding it. `EarlyEoi` says exactly when; `EarlyEoiHappens` is such a run.
- **Mappings from 2^39 up wrap.** `kernel_map_leaf` uses nine bits per level, so such an address maps its remainder
  modulo 2^39, an address the walker would refuse as given. `LeafFaithful` and `RangeFaithful` say exactly when a mapping
  does what was asked for; `WrapHappens` is a call on a fresh kernel that succeeds and does not.

## Left out

- RmfsExposure.ExposureHappens: the write may also fail, since the block device may refuse any access; the contract speaks of the case that it succeeds.
- Processor.Cpu.TakeInterrupt: which line is taken from the controller and the vector lookup are parameters (the handler).
- KernelHeap.Heap.Calloc: clearing of the payload is not modelled, for the heap's model has no payload bytes.
- KernelHeap.Heap.Free: asks that the bytes before an aligned pointer into the heap read as the header of a block in use exactly where there is one, since the heap's model has no payload bytes in which a caller could forge one.
- RouterDevice.Router.TakeNext: one atomic step; the retry after a failed compare-and-swap is not modelled.
- DeviceManager.Manager.Attach: whether the module starts and the bus accepts its windows is a parameter.
- DeviceManager.Manager.Detach: whether the bus unmaps the windows is a parameter, and the router's state of the lines is not part of this model.
- KernelScheduler.Scheduler.RequestStop: which threads a processor still works for is a parameter.
- KernelScheduler.Scheduler.StopCurrent: whether another thread asked the process to stop is a parameter.
- KernelScheduler.Scheduler.Exit: which threads wait for the one that ends, and with what result they are woken, are parameters.
- KernelScheduler.Scheduler.BlockForEvent: the search for a child or thread that has ended already comes before the step and is not modelled.
- KernelScheduler.Scheduler.BlockKernel: the result the woken thread reads is that of the wake, which WakeWaiter states; the switch of kernel stacks is not modelled.
- RMFS: the byte layout of records, CRC-32 and the GPT lookup; a block is one of five decoded forms, and a record with a wrong checksum is a form of its own.
- RMFS: the device writes whole blocks atomically and in the order issued; sync does not flush between the bitmaps and the CLEAN superblock, so nothing is claimed for reordered writes.
- RMFS: paths are lists of non-empty names, and memory shortage inside an operation is one of the device's refusals.
- VFS, FAT32, disk images and open-file state.
- The program loader begins at the decoded segment table; header fields, checksums and reading the file from a path are not modelled.
- The kernel's start-up mapping and the hand-over of the boot tables; the direct map is taken to cover memory.
- Arithmetic, vector and floating-point instructions, instruction fetch, and weak memory ordering.
- Devices on the bus answer or refuse as they like and do not change memory.
- Scheduler: intrusive lists are sequences; threads are never removed (reaping and exec), so nothing is said of a processor that idles for a thread which was freed meanwhile; which waiter a child's exit wakes, reads completed by a waker, and the saved register contexts are left out.
- Device manager: fixed devices published at start-up, services, and the register file of the hub.
