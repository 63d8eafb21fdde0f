# Verified models of a series of small kernels

This project models four subsystems of the kernels in Dafny and proves what they promise.

**File system** (`07_file_system`, with `LARGE_FILE_SUPPORT`). Inode table, free-block bitmap, an
index block per file, and a one-block write-back cache per open file. The classes `FileSystem`
and `File` update an array of 512-byte blocks in place and are proved to compute the functions of
`FsOps`. `FsState` holds the invariant (who owns which block), `FsMeaning`, `FsFiles` and
`FsTable` say what each operation means for the bytes of the files, and `FsRefinement`,
`FsTheorems` and `FsSessions` prove that every run is a run of a map from file ids to byte
strings. `FsLimits` gives the exact conditions under which Write, Read and Reset keep their
promise, `FsFullDisk` what becomes of every byte when the disk runs full, and `FsExamples` inputs on
which promises break. `FsSpace` shows that the free list is what the files leave over, so that the map
determines every reply, and `FsIntegrity` that no run of calls leaks or shares a block. `FsScripts`
tells from that map alone which scripts of calls run and what they answer, `FsExercise` puts the kernel's
own exercise through it, and `FsNumbers` states limits and disk layout in plain numbers.

**Virtual memory** (`04_virtual_memory`, and the direct-walk form of `03_paging`). The packed
frame bitmap (`ContFramePool`, `FrameModel`, `FrameRuns`, `PoolInfo`), physical memory and the x86 page walk
(`Paging`; 32-bit paging is section 4.3 and translation caching section 4.10 of volume 3A of the
Intel 64 and IA-32 Architectures Software Developer's Manual), a translation buffer filled by the
kernel's own accesses (`Mmu`), the regions of a pool and their order (`VmRegions`, `VmRegionOrder`), and
all of it as one machine (`VmModel`, `VmOperations`, `VmMachine`, `VmTheorems`), with pools registered at
any moment (`VmBacking`), the frames taken in order (`VmFrameOrder`) and the constants as numbers
(`VmNumbers`). The classes in `PageTable` edit the tables
only through the recursive window and the translation buffer, and are proved to have the effect of
the direct physical edits.

**Locked non-blocking disk** (`06_disk_driver`). The linked ready queue (`ReadyQueue`,
`DiskScheduler`), the device with its busy periods and word transfers (`DiskDevice`), and threads
that lock, issue, poll, transfer, flush and unlock, yielding in the middle (`DiskProtocol`).
`DiskTheorems` proves that every run refines an atomic block store, `DiskProgress` that a held lock is
given up, `DiskWaits` that waiting gives the processor to the other threads, and `DiskNumbers` that
calls move whole blocks.

**Termination and context switch** (`05_scheduler`). Thread statuses, zombies and their reaping
(`ThreadStates`, `TerminatingScheduler`), the order in which threads run and end (`ThreadQueue`), and
`threads_low_switch_to` instruction by instruction
(`ContextSwitch`), over chains of threads on disjoint stacks (`ThreadContexts`), and with an
interrupt in the middle (`SwitchInterrupts`).

The classes carry the step-by-step form of the code; each method's contract equates the new state
with a function of the old one, and the lemmas are about those functions.

## What turned out not to hold, and when it does

Each line names the exact condition and a reachable input.

- Write on a full disk counts bytes that are lost: `FsFullDisk.WriteKeepsIff` (room for the blocks of
  the nonzero bytes), `FsLimits.FullDiskExample`.
- Reset relabels a dirty cached block as block 0, and the file changes even when every byte of it is
  on the disk: `FsLimits.ResetKeepsIff`, `FsExamples.ResetExample`.
- Read returns 0 when position plus count wraps around 32 bits: `FsLimits.ReadCountIff`,
  `FsExamples.ReadWrapExample`.
- A page accessed before the first pool is registered stays mapped outside every region:
  `VmBacking.BootedBackedIff`, `VmBacking.StrayPages`, `VmExamples.EarlyAccessExample`.
- `VMPool::allocate` answers a size above 2^32 - 4096 with a region of no pages:
  `VmRegions.AllocateCoversIff`, `VmExamples.HugeAllocateExample`.
- `VMPool::release` stops the kernel when a page of the region never had a page table, because
  `free_page` reads the entry through the window: `VmMachine.ReleaseMeaning`,
  `VmExamples.UntouchedReleaseExample`.
- `handle_fault` installs frame 0 when the pool is empty: `VmTheorems.FaultKeepsIff`,
  `VmExamples.NoFrameExample`.
- `mark_inaccessible` leaves a Used frame without a head exactly when its range reaches in from
  below the pool: `FrameModel.MarkedKeepsIff`, `VmExamples.MarkBelowExample`.
- `terminate_self` can dispatch the thread that has just ended: `ThreadStates.TerminateSelfKeepsIff`,
  `ThreadStates.DeadThreadRunsOn`.
- A context switch called with interrupts enabled, as `yield` calls it, can lose the caller's return
  address: `SwitchInterrupts.SwitchSafeIff`, `SwitchInterrupts.LostContextExample`.
- The arithmetic status flags are not preserved by a context switch, because the additions before
  `pushfd` change them; the control flags, the interrupt flag among them, are:
  `ThreadContexts.RoundTrip`, `ThreadContexts.StatusLostExample`.
- Without the lock of the thread-safe build two disk users can confuse the device:
  `DiskTheorems.SafeIffNeverConfused`, `DiskTheorems.UnlockedDiskIsConfused`.

## What the callers owe

File system: one handle per file, none on a deleted file, room for a write, no wrap in a read, no
Reset over a dirty cache of a later block (`FsMachine.Allowed`, or told by the map alone
`FsScripts.Permitted`); without room, wrap or Reset owed the
free list stays right all the same (`FsIntegrity.Legal`). Virtual memory: the kernel's code
touches only addresses below the window, a first access finds the frames it needs, sizes round up
without wrapping, and pools lie between the shared region and the window, apart from each other
(`VmMachine.Allowed`). Scheduler: a thread that ends leaves a ready one, and only waiting threads are
resumed (`ThreadStates.Allowed`). Context switch: addresses are multiples of four, stacks are disjoint
and have room for the 68-byte frame (`ThreadContexts.Calls`); a thread does not overwrite the return
address of its function (`ThreadContexts.Respects`).


## Model

| member | source | states |
|---|---|---|
| FsScripts.ScriptsOfFormatted | 07_file_system/file.C:29-248 | On a freshly formatted disk of n blocks a script of calls runs exactly when it is permitted by the map from ids to bytes, the positions and the set of open files written to last, without a word about blocks and caches; its replies and its end are then those of that view, down to which CreateFile answers true and which Reset is harmless. |
| FsExercise.KernelExercise | 07_file_system/kernel.C:103-381 | On any disk of 2048 blocks or more, formatted, all 30 rounds of two 20-byte files and all 30 rounds of two 65536-byte files that the kernel goes through give every answer that their creations, writes, reads and deletions assert, byte for byte, and leave no file behind. |
| FsExercise.ExercisePasses | 07_file_system/kernel.C:103-381 | So do any rounds, with any ids and bytes, whose two files fit on the disk beside their index blocks and the two metadata blocks. |
| FsSpace.FormattedRunsExactly | 07_file_system/file_system.C:335-522 | From a freshly formatted disk of n blocks every allowed run gives, reply for reply, the run of a map from file id to byte string on n blocks: CreateFile answers true exactly when the id is new, fewer than 25 files exist and a block is left over by the index blocks and data blocks of the files. |
| FsNumbers.LargestFile | 07_file_system/file.C:167-207 | On a disk of 131 blocks or more a session of exactly 65536 bytes is accepted whole, reads back, and each of the logical blocks 0 to 127 has a disk block that holds its 512 bytes. |
| FsNumbers.WriteAnswers | 07_file_system/file.C:171-207 | For every file and position p: a write of n bytes with room answers the lesser of n and 128 * 512 - p, and the file then has exactly those bytes there, its other bytes, and a length raised to the end of the write. |
| FsTheorems.RunRefines | 07_file_system/file.C:29-248 | Every run of create, delete, open, close, write, read, rewind, end-of-file test and remount, with any number of files open and dirty at once, gives the replies of a map from file id to byte string, and keeps the invariant of every state. |
| FsSpace.RunAccounts | 07_file_system/file_system.C:220-304 | In every run the free blocks, two metadata blocks, and for each file one index block and one block for every 512 bytes begun add up to the size of the disk, and the unused inodes and the files to 25. |
| FsTheorems.StepRefines | 07_file_system/file_system.C:401-522 | Each single operation does to that map what its specification says: Write splices at the position, Read returns the clamped slice, and every other file is unchanged. |
| FsSessions.SessionReadsBack | 07_file_system/file.C:113-207 | Create, open, write in any pieces, close, reopen, read in any pieces: the reads return exactly the bytes written, up to 65536 of them, across block boundaries, and the file still holds them all. |
| FsSessions.SessionRuns | 07_file_system/file.C:113-207 | Such a session runs to its end whenever there is a free inode and a free block for the index block and each data block, and then returns the bytes written. |
| FsState.MarkedIffOwned | 07_file_system/file_system.C:220-304 | A block is marked used exactly when it is a metadata block, or the index block or a nonzero index entry of exactly one used inode: nothing is leaked or shared. |
| FsIntegrity.NoLeakEver | 07_file_system/file_system.C:220-304 | From a formatted disk, after any run of calls on open handles, on a full disk, with reads that wrap and Resets over unsaved bytes: a block is marked taken exactly when it is a metadata block or is referenced in one place by one used inode. |
| FsLimits.CreateUseDelete | 07_file_system/file_system.C:417-512 | Create, any session on the file, delete: the free list is exactly what it was, and so is every inode but the blank one that was used. |
| FsLimits.DeleteRestores | 07_file_system/file_system.C:480-512 | The same for any state that only that file was changed in, even after the disk ran full. |
| FsRefinement.RemountReproduces | 07_file_system/file_system.C:311-333 | With every handle closed a fresh Mount of the disk gives the very same inode table, free list and files. |
| FsFullDisk.WriteKeepsIff | 07_file_system/file.C:167-207 | Bytes written are in the closed file exactly when every one of them that is not zero goes into a block that the file has, or that the free list has a block for after the earlier blocks that the write reaches and the file lacks; Write counts them either way. |
| FsLimits.ResetKeepsIff | 07_file_system/file.C:230-238 | For every handle: Reset leaves the bytes of the file as they are exactly when the cache is clean, or holds block 0, or agrees on the bytes of the file both with the disk block it was loaded for and with block 0. |
| FsLimits.ReadCountIff | 07_file_system/file.C:121-128 | Read returns what is left of the file, up to n bytes, exactly when position plus n does not wrap around 32 bits; if it wraps, Read returns 0. |
| VmTheorems.BootedRunsAreSafe | 04_virtual_memory/page_table.C:77-283 | From the constructor on, every run of loads, stores, pool registrations, region allocations and releases, in any order, keeps directory, table, data and reserved frames pairwise distinct and not free, the shared pages mapped to themselves, the regions of every pool a partition of it, and free + owned + reserved frames equal to the pool size. |
| VmBacking.BootedBackedIff | 04_virtual_memory/page_table.C:178-198 | From boot: every mapped page lies in an allocated region, in every state from the first registration of a pool on, exactly when no page above the shared region was accessed before that registration. |
| VmBacking.StrayPages | 04_virtual_memory/page_table.C:178-198 | From boot: at the end of any run a page is mapped outside every region exactly when it was accessed before the first pool was registered and no pool has handed it out since. |
| VmMachine.StoredWordReadsBack | 04_virtual_memory/page_table.C:172-283 | A stored word reads back after any run that does not store to that word or release its page, whatever other words of the same page are stored and whatever pages are faulted in, allocated or released. |
| VmMachine.ReleaseMeaning | 04_virtual_memory/vm_pool.C:138-182 | Release succeeds exactly when a region starts at the address, the free table has room and every page of it has a page table; it unmaps exactly those pages, frees exactly the frames they held, and makes exactly those pages illegitimate. |
| VmRegionOrder.RunPromised | 04_virtual_memory/vm_pool.C:90-182 | In every run of a pool without a fired assertion: the answer is the base of the earliest free entry that is long enough, an entry that is cut keeps its place with its base moved up, an entry used up drops out, all others keep their order, and a released region goes last. |
| VmRegionOrder.NewDeleteWalks | 04_virtual_memory/kernel.C:284-301 | On a new pool the k-th round of allocating and releasing one page answers the k-th page, as long as the first region and the tables last. |
| VmTheorems.SameTranslations | 03_paging/page_table.C:126-196 | The window-based fault handler and the direct-walk one leave the same translation for every page below the window, up to the frames they take. |
| VmTheorems.FaultKeepsIff | 04_virtual_memory/page_table.C:207-235 | handle_fault checks no frame number: it keeps the frames accounted for exactly when the pool has the one or two frames it needs. |
| Paging.WalkOfPteAddress | 04_virtual_memory/page_table.C:66-75 | With the last directory entry pointing at the directory, the x86 walk of PTE_address(a) is the physical address of the table entry of a, and fails exactly when the page table of a is absent. |
| Paging.WalkOfPdeAddress | 04_virtual_memory/page_table.C:58-64 | Likewise the walk of PDE_address(a) is the physical address of the directory entry of a. |
| FrameRuns.RunRefines | 04_virtual_memory/cont_frame_pool.C:204-332 | Every run of get_frames, mark_inaccessible and release_frames refines an allocator that knows only the set of disjoint extents handed out. |
| PoolInfo.NeverHandsOutBitmap | 04_virtual_memory/cont_frame_pool.C:158-259 | From a new pool on: after every run of allocations, markings of free ranges and releases of what was handed out, the next allocation does not meet the frame that holds the bitmap of the pool. |
| ContFramePool.ContFramePool.GetFrames | 04_virtual_memory/cont_frame_pool.C:204-259 | The one-pass scan returns the lowest window of n free frames, as one extent, and 0 with no change exactly when there is none (or n is 0), early exit included. |
| DiskTheorems.RefinesAtomicStore | 06_disk_driver/nonblocking_disk.C:97-142 | Every run of threads through the locked disk is a faithful history of an atomic block store in unlock order; no polling assertion fires and the device is never confused. |
| DiskTheorems.ReadsLatestWrite | 06_disk_driver/nonblocking_disk.C:130-142 | Each completed read returned the 512 bytes of the last write completed before it, or the original block. |
| DiskTheorems.MutualExclusion | 06_disk_driver/nonblocking_disk.C:97-128 | At most one thread is between lock and unlock; it holds the lock and is running or queued. |
| DiskTheorems.SafeIffNeverConfused | 06_disk_driver/nonblocking_disk.C:95-144 | On any initial disk: the build is the thread-safe one exactly when no run from boot ever confuses the device. |
| DiskTheorems.HolderTurnComes | 06_disk_driver/scheduler.C:70-96 | A lock holder at position k of the ready queue runs after exactly k + 1 yields, whatever the other threads do. |
| DiskWaits.HoggedIsBounded | 06_disk_driver/nonblocking_disk.C:39-70 | In every run the looks at a busy disk or a taken lock that keep the processor while another thread is ready are no more than the interrupts of the run and the one that was pending. |
| DiskWaits.QueuedThreadRuns | 06_disk_driver/nonblocking_disk.C:39-121 | A thread at position k of the ready queue has run by the time that more such looks than k plus the interrupts have been made, whoever made them. |
| DiskProgress.LockIsReleased | 06_disk_driver/nonblocking_disk.C:39-128 | A held lock has been free by the time its holder has taken, with the disk not busy, as many steps as it had left, or more yields have passed than those until its turn and one round of the queue for each of its busy polls, whatever other threads, device and interrupt do. |
| DiskProgress.LockIsReleasedFromBoot | 06_disk_driver/nonblocking_disk.C:39-128 | From boot: whoever holds the lock in any reachable state, it has been free within 261 such steps of the holder. |
| ThreadStates.RunKeepsStatus | 05_scheduler/scheduler.C:172-360 | Over every allowed run each thread is in exactly one of running, ready, blocked, zombie and freed, and none is lost. |
| ThreadStates.TerminateSelfKeepsIff | 05_scheduler/scheduler.C:309-360 | thread termination keeps that exactly when a thread is ready, or nobody has yielded yet, or the last thread that yielded is waiting. |
| ThreadQueue.TurnComes | 05_scheduler/scheduler.C:172-360 | A ready thread at position k that nobody kills runs after exactly k + 1 steps in which the running thread passes on, blocks or ends, or a thread ahead of it is killed, whatever is created and resumed meanwhile. |
| ThreadQueue.StaysAhead | 05_scheduler/scheduler.C:172-360 | Of two ready threads the one ahead stays ahead until it has run: the successor of a thread that ends is the one that has waited longest. |
| ThreadQueue.FallbackIsLastYielder | 05_scheduler/scheduler.C:262-281 | When a thread ends and nobody is ready, the thread that yielded last in the run is dispatched, and the idle thread if none ever did. |
| ThreadContexts.RoundTrip | 05_scheduler/threads_low.asm:56-116 | A thread that switches away and is switched back in after any chain of other threads finds its general and segment registers, control flags, stack pointer and return address as at its call, and its whole flags word exactly when the additions leave the status bits as they were. |
| ThreadContexts.FreshThreadLives | 05_scheduler/thread.C:77-200 | The life of a thread: constructed on memory of its own while others run, first switched to after any chain of others, it enters thread_start with interrupts off, then its function with interrupts on; after any run in which it computes, switches away and comes back, returning from the function enters thread_shutdown. |
| SwitchInterrupts.SwitchSafeIff | 05_scheduler/threads_low.asm:80-88 | The saved context is right whatever admissible interrupt arrives during the saving part exactly when the interrupt flag is clear at the call; an interrupt is admissible where the flag is set and its handler stays below the stack pointer. |
| SwitchInterrupts.InterruptKeepsIff | 05_scheduler/threads_low.asm:80-88 | Seen from inside: an interrupt leaves the saved context intact exactly when it does not come before one of the instructions 4 to 8. |
| SwitchInterrupts.LostContextExample | 05_scheduler/threads_low.asm:80-88 | A caller with interrupts enabled and an interrupt before the fifth instruction: the saved return address is inside the routine. |
| SwitchInterrupts.RestoreUnharmed | 05_scheduler/threads_low.asm:98-116 | From the complete frame on, an interrupt at any instruction leaves the context that ends up running as it is without it, and changes no word but those the handler uses: the saved frame of the caller stays. |
| ThreadStates.PassOnRotates | 05_scheduler/kernel.C:112-128 | Passing on is the rotation of the FIFO queue, so the fairness results carry over. |
| Bytes.BitFrame | 07_file_system/file_system.C:37-56 | Setting or clearing one bit of a byte leaves the other seven alone. |
| Bytes.WordRoundTrip | 07_file_system/file_system.C:157-161 | Splitting a 32-bit word into four bytes and joining them again is the identity. |
| FsLayout.MarkBlockFrame | 07_file_system/file_system.C:37-56 | Marking one block used or free on disk changes the flag of that block only. |
| FsLayout.FreelistRoundTrip | 07_file_system/file_system.C:151-203 | load_freelist after save_freelist is the identity on size and every flag, for every size up to 4064 blocks. |
| FsLayout.InodesRoundTrip | 07_file_system/file_system.C:103-149 | load_inodes after save_inodes gives back every inode. |
| FsLayout.MountOfSynced | 07_file_system/file_system.C:311-333 | Mounting a disk whose metadata blocks agree with a state gives that state. |
| FsLayout.MountOfFormatted | 07_file_system/file_system.C:335-399 | Mounting a formatted disk gives an empty table and a free list with only the two metadata blocks taken. |
| FsState.RefUnique | 07_file_system/file_system.C:252-281 | No block is referenced from two places. |
| FsState.EntryOfSet | 07_file_system/file_system.C:255-272 | Writing one entry of an index block changes that entry only. |
| FsState.PutData | 07_file_system/file.C:86-92 | Writing a data block of one file changes that logical block of that file and no other. |
| FsState.LinkBlock | 07_file_system/file_system.C:266-280 | Taking a free block as a zeroed logical block changes no byte of any file and keeps the invariant. |
| FsMeaning.FlushMeaning | 07_file_system/file.C:86-92 | Writing the dirty cache back makes the disk hold what the handle showed, and touches no other file. |
| FsMeaning.AllocateMeaning | 07_file_system/file_system.C:237-281 | GetDataBlock with allocation changes nothing but a missing reference, which gets a block if one is free. |
| FsMeaning.LoadMeaning | 07_file_system/file.C:79-106 | LoadBlock changes what no file shows, whichever block is cached before and after. |
| FsMeaning.GrowMeaning | 07_file_system/file.C:202-204 | Raising the length keeps the invariant and every block. |
| FsMeaning.ChunkSplices | 07_file_system/file.C:185-205 | One pass of the write loop splices its bytes in at the position. |
| FsFiles.WriteBacksAll | 07_file_system/file.C:185-205 | After a write every block it reaches is backed by a disk block exactly when the free list had enough blocks for the missing ones. |
| FsFiles.WriteTakes | 07_file_system/file.C:185-205 | A write with room takes exactly the missing blocks from the free list. |
| FsFiles.RoomSplit | 07_file_system/file.C:167-207 | Room for a write is room for its first part and then for the rest. |
| FsFiles.WriteSplices | 07_file_system/file.C:167-207 | The whole write loop splices its bytes in at the position. |
| FsFullDisk.WriteBacksEach | 07_file_system/file.C:185-205 | A block that a write reaches has a disk block afterwards exactly when it had one, or the free list had one for it and for each earlier missing block. |
| FsFullDisk.WriteKept | 07_file_system/file.C:185-205 | With or without room: once written back, a byte in a block with a disk block is the byte written or the one before, and any other byte is zero. |
| FsFullDisk.ClosedFile | 07_file_system/file.C:58-76 | The closed file has the length of the splice, and each byte is that of the splice, or zero where the write found no block. |
| FsIntegrity.StepSound | 07_file_system/file_system.C:401-522 | Every call on an open handle, every creation, deletion of a closed file, opening and remount keeps the ownership invariant, whatever space is left. |
| FsIntegrity.RunSound | 07_file_system/file_system.C:401-522 | So does every run of them. |
| FsSpace.StepAccounts | 07_file_system/file_system.C:401-522 | Each operation keeps the accounts and gives the reply that the map on n blocks determines. |
| FsSpace.CreateAccounts | 07_file_system/file_system.C:417-478 | CreateFile answers true exactly when the map says that an id, an inode and a block are left. |
| FsSpace.DeleteAccounts | 07_file_system/file_system.C:480-512 | DeleteFile gives back one index block and one block for every 512 bytes begun. |
| FsSpace.FreeAllCount | 07_file_system/file_system.C:283-304 | FreeAllBlocks raises the number of free blocks by the blocks of the file. |
| FsSpace.RoomIff | 07_file_system/file.C:185-205 | A write finds room exactly when the disk has the blocks that the file grows by, told from the map alone. |
| FsSpace.WriteLeavesTight | 07_file_system/file.C:185-205 | A write with room leaves the file with disk blocks exactly for the blocks its bytes reach into. |
| FsSpace.SpaceSplit | 07_file_system/file_system.C:220-304 | The space of a map is the sum over its files, whichever is counted first. |
| FsScripts.AllowedIff | 07_file_system/file.C:113-248 | What a call owes its file system, in blocks, caches and handles, is exactly what the view permits. |
| FsScripts.StepIsNext | 07_file_system/file.C:29-248 | Each permitted call does to the view what the view says and answers as it does. |
| FsScripts.CachesKept | 07_file_system/file.C:113-238 | After every call the cache of an open file holds the block of the byte before its position, and block 0 at the start. |
| FsScripts.UnsavedIsNext | 07_file_system/file.C:79-207 | A cache is dirty exactly when the last bytes moved through its handle were written, not read. |
| FsScripts.PermittedRuns | 07_file_system/file.C:29-248 | A permitted script runs from every state in which the accounts hold, with the replies of the view. |
| FsScripts.RunsPermitted | 07_file_system/file.C:29-248 | Every script that runs from there was permitted. |
| FsExercise.RoundPasses | 07_file_system/kernel.C:103-182 | One round, with rewinds before each read or before both: two files created, written, closed, reopened, read and deleted, with the answers as asserted. |
| FsNumbers.FileBlocks | 07_file_system/file_system.H:51 | A file has as many blocks as four-byte entries fit into 512 bytes, 128, and so at most 65536 bytes. |
| FsNumbers.CreateInNumbers | 07_file_system/file_system.C:417-478 | CreateFile answers true exactly when the id is new, there are fewer than 25 files, and the blocks of the files and two more are fewer than the disk has. |
| FsNumbers.CostInNumbers | 07_file_system/file_system.C:237-281 | A file costs one block and one for every 512 bytes begun. |
| FsNumbers.CreatedWhere | 07_file_system/file_system.C:209-234 | A new file takes the first unused inode and the lowest free block, which is zeroed. |
| FsNumbers.DeletedWhere | 07_file_system/file_system.C:494-506 | A deleted file leaves the inode with id -1, index block 0, length 0 and unused. |
| FsNumbers.OpenedCache | 07_file_system/file.C:38-46 | Opening puts block 0 into the cache, or zeros for an empty file, and the cache is clean. |
| FsNumbers.InodeInNumbers | 07_file_system/file_system.C:127-149 | On disk inode i takes bytes 20i to 20i + 12 of block 0: id, index block and length, four bytes each with the lowest first, and the used flag. |
| FsNumbers.FreelistInNumbers | 07_file_system/file_system.C:180-203 | Block 1 starts with the number of blocks, lowest byte first, and the flag of block b is bit b mod 8 of byte 4 + b / 8. |
| FsNumbers.EntryInNumbers | 07_file_system/file_system.C:255-272 | Entry k of an index block is the number in its bytes 4k to 4k + 3, lowest first. |
| FsNumbers.SavedInNumbers | 07_file_system/file_system.C:514-522 | Saving writes block 0 and block 1 and no other block. |
| FsNumbers.FormattedInNumbers | 07_file_system/file_system.C:335-399 | A formatted disk of n blocks has 25 inodes with id -1, blocks 0 and 1 taken and every other block free. |
| FsNumbers.WordIsLittle | 07_file_system/file_system.C:157-161 | A stored word is the sum of its four bytes, each weighed 256 times the one before. |
| FsNumbers.ByteInNumbers | 07_file_system/file_system.C:37-56 | Bit k of a byte counts 2 to the k. |
| FsFiles.ReadKeeps | 07_file_system/file.C:132-147 | The read loop changes no byte of any file. |
| FsFiles.ReadSlices | 07_file_system/file.C:132-147 | The read loop copies out the slice of the file at the position. |
| FsFiles.ReadMeaning | 07_file_system/file.C:113-149 | Read returns the slice from the position, clamped to the length, and advances the position. |
| FsFiles.WriteMeaning | 07_file_system/file.C:167-207 | Write splices its bytes, clamped to 65536, and advances the position. |
| FsTable.SaveMeaning | 07_file_system/file_system.C:514-522 | Saving the metadata changes no file and leaves disk and memory in agreement. |
| FsTable.CreatedMeaning | 07_file_system/file_system.C:436-454 | A created file owns one fresh all-zero index block and no other file is touched. |
| FsTable.CreateMeaning | 07_file_system/file_system.C:417-478 | CreateFile succeeds exactly when the id is new and both an inode and a block are free; the file is then empty. |
| FsTable.DeletedMarks | 07_file_system/file_system.C:283-304 | FreeAllBlocks frees exactly the blocks the inode owns. |
| FsTable.DeleteMeaning | 07_file_system/file_system.C:480-512 | DeleteFile removes the file with the id, if there is one, and touches no other. |
| FsRefinement.OpenMeaning | 07_file_system/file.C:29-50 | Opening shows the file from its start and changes nothing. |
| FsRefinement.CloseMeaning | 07_file_system/file.C:58-76 | Closing leaves on disk what the handle showed, with metadata saved. |
| FsRefinement.CreateRefines | 07_file_system/file_system.C:417-478 | CreateFile adds an empty file to the map, or answers false and changes nothing; which of the two is FsSpace.CreateAccounts. |
| FsRefinement.DeleteRefines | 07_file_system/file_system.C:480-512 | DeleteFile removes the file from the map and answers whether it was there. |
| FsRefinement.OpenRefines | 07_file_system/file.C:29-50 | Opening puts the position of that file at 0. |
| FsRefinement.CloseRefines | 07_file_system/file.C:58-76 | Closing takes the position away and keeps the bytes. |
| FsRefinement.WriteRefines | 07_file_system/file.C:167-207 | Write is the splice of the specification. |
| FsRefinement.ReadRefines | 07_file_system/file.C:113-149 | Read is the clamped slice of the specification. |
| FsRefinement.RewindRefines | 07_file_system/file.C:230-238 | Reset with a clean cache, or with block 0 cached, only moves the position. |
| FsRefinement.AtEofRefines | 07_file_system/file.C:240-248 | EoF answers whether the position is at the end. |
| FsRefinement.RemountRefines | 07_file_system/file_system.C:311-333 | A remount keeps the map. |
| FsTheorems.FormatMounts | 07_file_system/file_system.C:335-399 | Format and Mount give the empty map in a state that satisfies the invariant. |
| FsLimits.ResetShifts | 07_file_system/file.C:230-238 | With a dirty cache Reset turns the first 512 bytes of the file into the cached block, whichever block that is. |
| FsExamples.ResetExample | 07_file_system/file.C:230-238 | From a formatted disk: write blocks a and b, reopen, read a, write b again. Every byte of the file is on the disk, and Reset turns the file into b and b. |
| FsExamples.ReadWrapExample | 07_file_system/file.C:121-128 | From a formatted disk: a two-byte file at position 1 answers a read of 2^32 - 1 bytes with nothing and a read of one byte with its second byte. |
| FsLimits.FullDiskLoses | 07_file_system/file.C:94-103 | On a full disk a write into a missing block is counted, and after closing its bytes read as zeros. |
| FsLimits.FullDiskExample | 07_file_system/file.C:192-200 | Three blocks, one file, one byte: Write answers 1 and the byte reads as zero. |
| FsLimits.MarksDetermined | 07_file_system/file_system.C:220-304 | The free list is a function of what the files own. |
| FileSystem.FileSystem.LoadInodeTable | 07_file_system/file_system.C:103-125 | load_inodes reads the table that the INODES block encodes. |
| FileSystem.FileSystem.SaveInodeTable | 07_file_system/file_system.C:127-149 | save_inodes writes its encoding. |
| FileSystem.FileSystem.LoadFreelist | 07_file_system/file_system.C:151-178 | load_freelist reads the size and every flag that the FREELIST block has a bit for, whatever the size. |
| FileSystem.FileSystem.SaveFreelist | 07_file_system/file_system.C:180-203 | save_freelist writes their encoding. |
| FileSystem.FileSystem.FlushMetadata | 07_file_system/file_system.C:514-522 | FlushMetadata saves both. |
| FileSystem.FileSystem.GetFreeInode | 07_file_system/file_system.C:209-218 | The first unused inode, or -1. |
| FileSystem.FileSystem.GetFreeBlock | 07_file_system/file_system.C:220-234 | The first free data block, now marked, or -1. |
| FileSystem.FileSystem.LookupFile | 07_file_system/file_system.C:401-415 | The first used inode with the id, or none. |
| FileSystem.FileSystem.GetDataBlock | 07_file_system/file_system.C:237-281 | The state and the block that lookup, with allocation on request, gives. |
| FileSystem.FileSystem.FreeAllBlocks | 07_file_system/file_system.C:283-304 | The free list after releasing every block the inode names. |
| FileSystem.FileSystem.Mount | 07_file_system/file_system.C:311-333 | Mount loads the tables that the disk encodes, fails without a disk or with size 0, and stops when the recorded size exceeds the disk. |
| FileSystem.FileSystem.Format | 07_file_system/file_system.C:335-399 | Format writes an empty table and the initial free list, fails below two blocks, and stops above 4064. |
| FileSystem.FileSystem.CreateFile | 07_file_system/file_system.C:417-478 | The new state and the answer are those of the creation function, and false when not mounted. |
| FileSystem.FileSystem.DeleteFile | 07_file_system/file_system.C:480-512 | Likewise for deletion. |
| FileSystem.FileSystem.Unmount | 07_file_system/file_system.C:76-97 | The destructor saves the metadata of a mounted file system. |
| File.File.constructor | 07_file_system/file.C:29-50 | Opens the file with the id, with block 0 cached if there is one. |
| File.File.WriteBack | 07_file_system/file.C:86-92 | Puts a dirty cache on the disk if its logical block has a disk block. |
| File.File.LoadBlock | 07_file_system/file.C:79-106 | Writes a dirty cache back and loads or allocates the block. |
| File.File.Close | 07_file_system/file.C:58-76 | Writes a dirty cache back and saves the metadata. |
| File.File.Read | 07_file_system/file.C:113-149 | State, handle and buffer afterwards are those of the read function; the rest of the buffer is unchanged. |
| File.File.Write | 07_file_system/file.C:167-207 | State and handle afterwards are those of the write function. |
| File.File.Reset | 07_file_system/file.C:230-238 | The handle is rewound and relabelled. |
| File.File.EoF | 07_file_system/file.C:240-248 | Whether the position has reached the length. |
| FrameModel.FindWindowMeaning | 04_virtual_memory/cont_frame_pool.C:218-258 | Trying every start in turn finds the lowest free window, and nothing exactly when there is none. |
| FrameModel.TooFewFrames | 04_virtual_memory/cont_frame_pool.C:211-212 | With fewer free frames than asked for there is no window: the early exit is sound. |
| FrameModel.TakeExtents | 04_virtual_memory/cont_frame_pool.C:238-243 | Taking a window adds exactly that extent. |
| FrameModel.TakeCount | 04_virtual_memory/cont_frame_pool.C:238-243 | Taking n frames lowers the free count by n. |
| FrameModel.ReleaseExtents | 04_virtual_memory/cont_frame_pool.C:300-323 | Releasing removes exactly the extent that starts at the frame. |
| FrameModel.ReleaseCount | 04_virtual_memory/cont_frame_pool.C:307-319 | Releasing raises the free count by the length of the extent. |
| FrameModel.ReleaseOfTake | 04_virtual_memory/cont_frame_pool.C:204-332 | Get followed by release is the identity on the pool. |
| FrameModel.ExtentsDisjoint | 04_virtual_memory/cont_frame_pool.C:204-332 | Distinct extents do not overlap. |
| FrameModel.ExtentsCover | 04_virtual_memory/cont_frame_pool.C:204-332 | The frames that are not free are exactly those of the extents. |
| FrameModel.MarkedIsTake | 04_virtual_memory/cont_frame_pool.C:261-285 | On an in-pool range of free frames mark_inaccessible takes the range as one extent. |
| FrameModel.MarkedKeepsIff | 04_virtual_memory/cont_frame_pool.C:261-285 | Marking keeps every Used frame behind a head exactly when the range does not reach in from below the pool. |
| FrameRuns.GetRefines | 04_virtual_memory/cont_frame_pool.C:204-259 | get_frames is the lowest window that meets no extent, told with extents only. |
| FrameRuns.FreeIffApart | 04_virtual_memory/cont_frame_pool.C:218-258 | The windows of free frames are exactly those that meet no extent. |
| PoolInfo.NewPoolExtents | 04_virtual_memory/cont_frame_pool.C:158-201 | A new pool has handed out nothing but one frame, the one of its bitmap when that lies in the pool. |
| PoolInfo.ExtentStays | 04_virtual_memory/cont_frame_pool.C:204-332 | An extent that no one releases stays as it is over every run, and the pool keeps its size and its heads. |
| PoolInfo.KernelPoolExample | 04_virtual_memory/kernel.C:170-178 | In the pool of the kernel itself, 512 frames from frame 512 on, the first allocation of one frame gives frame 513. |
| PoolInfo.MarkedRange | 04_virtual_memory/cont_frame_pool.C:261-285 | A marked range inside the pool becomes one extent from its first frame on, whatever it held, and takes over the rest of an extent that reached past its end. |
| PoolInfo.MarkedLeft | 04_virtual_memory/cont_frame_pool.C:261-285 | An extent that reached into the range from the left ends where it starts, and the others to the left stay. |
| PoolInfo.MarkedRight | 04_virtual_memory/cont_frame_pool.C:261-285 | The extents to the right stay. |
| ContFramePool.FieldFrame | 04_virtual_memory/cont_frame_pool.C:132-148 | Writing one two-bit field of a byte leaves the other three alone. |
| ContFramePool.SetFieldStates | 04_virtual_memory/cont_frame_pool.C:140-148 | set_state changes the state of that one frame in the packed bitmap. |
| ContFramePool.NeededIsLeast | 04_virtual_memory/cont_frame_pool.C:334-347 | needed_info_frames is the least number of frames that hold two bits a frame. |
| ContFramePool.AllFreeButBitmap | 04_virtual_memory/cont_frame_pool.C:172-186 | In a new pool the frame of the bitmap, the base or the info frame, is a head when it lies in the pool, and every other frame is free. |
| ContFramePool.ContFramePool.constructor | 04_virtual_memory/cont_frame_pool.C:158-201 | Every frame starts free but the one of the bitmap, the base frame or the info frame inside the pool; the count is right, and the pool is linked in front of the list. |
| ContFramePool.ContFramePool.GetState | 04_virtual_memory/cont_frame_pool.C:132-138 | The state read from the packed bitmap is the state of the sequence. |
| ContFramePool.ContFramePool.SetState | 04_virtual_memory/cont_frame_pool.C:140-148 | Exactly one state changes. |
| ContFramePool.ContFramePool.MarkInaccessible | 04_virtual_memory/cont_frame_pool.C:261-285 | Every in-pool frame of the range is marked, the first one as head, with the free count kept right on overlap. |
| ContFramePool.ContFramePool.FreeExtent | 04_virtual_memory/cont_frame_pool.C:300-323 | The freeing loop releases exactly the extent. |
| ContFramePool.PoolList.ReleaseFrames | 04_virtual_memory/cont_frame_pool.C:288-332 | The search over the linked list of disjoint pools frees exactly the extent in the pool the frame belongs to and changes no other pool; it is refused exactly when no pool has the frame as a head. |
| Paging.WindowFrame | 04_virtual_memory/page_table.C:35-40 | Page i of the window shows page table i. |
| Paging.WindowStays | 04_virtual_memory/page_table.C:231-232 | A store outside the directory does not change what the window shows. |
| Paging.LinkFrame | 04_virtual_memory/page_table.C:207-218 | The pages of a new table translate as its entries say and no other translation below the window changes. |
| Paging.LinkOwned | 04_virtual_memory/page_table.C:207-221 | Linking a fresh table gives that frame to the directory slot and takes nothing from anyone. |
| Paging.PteFrame | 04_virtual_memory/page_table.C:231 | Writing one table entry changes the translation of that page only. |
| Paging.MapOwned | 04_virtual_memory/page_table.C:225-235 | Mapping an absent page to a fresh frame gives that frame to the page alone. |
| Paging.UnmapOwned | 04_virtual_memory/page_table.C:277-279 | Clearing an entry gives up exactly the frame of that page. |
| Paging.DataFrame | 04_virtual_memory/page_table.C:172-239 | A store to a data frame changes no translation. |
| Paging.NewDirectoryOwned | 04_virtual_memory/page_table.C:81-97 | A new directory maps itself and nothing else. |
| Mmu.Mmu.Translate | 04_virtual_memory/page_table.C:200-238 | The frame of an address is the one the page walk gives, from the buffer or by the walk, and the buffer stays right. |
| Mmu.Mmu.Load | 04_virtual_memory/page_table.C:200-238 | A load gives the word at the walked address, or a page fault exactly when the walk fails. |
| Mmu.Mmu.StoreWord | 04_virtual_memory/page_table.C:200-238 | A store writes exactly the word at the walked address. |
| Mmu.Mmu.Invlpg | 04_virtual_memory/page_table.C:29-33 | invlpg drops the cached translation of one page. |
| Mmu.Mmu.WriteCr3 | 04_virtual_memory/page_table.C:146-157 | Loading CR3 drops every cached translation. |
| PageTable.PageTable.constructor | 04_virtual_memory/page_table.C:77-143 | The constructor builds the directory and the identity-mapped tables, each frame from the process pool. |
| PageTable.PageTable.Load | 04_virtual_memory/page_table.C:146-170 | After load every cached translation agrees with the walk. |
| PageTable.PageTable.ZeroTable | 04_virtual_memory/page_table.C:216-218 | Zeroing through the window clears exactly the new frame. |
| PageTable.PageTable.LinkStep | 04_virtual_memory/page_table.C:203-221 | Linking through the window and then zeroing equals linking a zeroed table directly, also with frame 0 from an empty pool. |
| PageTable.PageTable.MapStep | 04_virtual_memory/page_table.C:223-238 | The entry written through the window is the direct one and no stale translation remains, whatever frame is installed. |
| PageTable.PageTable.HandleFault | 04_virtual_memory/page_table.C:172-239 | For every address: the handler stops exactly when pools are registered and none has the page allocated; else it leaves memory, frames and tables as the direct form does, with the buffer right, also when the pool is out of frames or the page is one of the window; with the needed frames it keeps the accounting. |
| PageTable.PageTable.LoadWord | 04_virtual_memory/page_table.C:172-239 | Load, fault, retry: the word and the state are those of the access of the model, with any pools registered. |
| PageTable.PageTable.StoreWord | 04_virtual_memory/page_table.C:172-239 | The same for a store, which leaves every cached translation right. |
| PageTable.PageTable.SearchPools | 04_virtual_memory/page_table.C:180-191 | The search over the linked pools finds a legitimate pool exactly when there is one. |
| PageTable.PageTable.RegisterPool | 04_virtual_memory/page_table.C:241-248 | A registered pool goes to the front of the list. |
| PageTable.PageTable.FreePage | 04_virtual_memory/page_table.C:250-283 | free_page stops exactly when the page table is absent, because the handler is called for the window address, and then nothing has changed; else it frees exactly the frame of the page and leaves no stale translation. |
| PageTable.PageTable.UnmapPage | 04_virtual_memory/page_table.C:267-279 | The frame is returned, the entry cleared through the window and the cached translation dropped. |
| PageTable.PageTable.ClearEntry | 04_virtual_memory/page_table.C:277-279 | Clearing the entry through the window writes that one word and leaves no stale translation. |
| PageTable.LinkThenZero | 04_virtual_memory/page_table.C:210-218 | Linking first and zeroing afterwards is the same as zeroing first. |
| PageTable.AgreesAfterMap | 04_virtual_memory/page_table.C:231-232 | A new mapping leaves the buffer right because absent pages are not cached. |
| PageTable.AgreesAfterLink | 04_virtual_memory/page_table.C:207-214 | A new directory entry leaves the buffer right because absent pages are not cached. |
| PageTable.AgreesAfterEntry | 04_virtual_memory/page_table.C:277-279 | After any entry write only that page can have a stale cached translation. |
| VmRegions.NewPoolSuffices | 04_virtual_memory/vm_pool.C:90-182 | In every run of a new pool with at most 255 successful allocations no region-table assertion fires, the regions partition the pool, and their number is at most one more than the allocations. |
| VmRegions.AllocateMeaning | 04_virtual_memory/vm_pool.C:90-136 | For every size below 2^32: first fit stops exactly when a region fits and the table is full, answers 0 exactly when none fits, and else hands out pages of the pool that no region had, and no others; the regions still partition the pool exactly when the size does not wrap. |
| VmRegions.AllocateCoversIff | 04_virtual_memory/vm_pool.C:44-47 | Every byte of a successful allocation is legitimate exactly when the size rounds up without wrapping, that is up to 2^32 - 4096. |
| VmRegions.RoundsUpIff | 04_virtual_memory/vm_pool.C:44-47 | bytes_to_pages covers the size exactly when it does not wrap. |
| VmRegions.ReleaseMeaning | 04_virtual_memory/vm_pool.C:138-182 | Releasing takes away exactly the pages of the region that starts at the address and keeps the partition. |
| VmRegions.NewPoolPartition | 04_virtual_memory/vm_pool.C:66-75 | A new pool is one free region over all its pages. |
| VmRegions.StartsDistinct | 04_virtual_memory/vm_pool.C:147-153 | Two allocated regions never overlap or start at the same page. |
| VmRegionOrder.ServePromised | 04_virtual_memory/vm_pool.C:90-182 | Each call that goes on keeps that promise, for both tables and the answer. |
| VmRegionOrder.PromisedOnce | 04_virtual_memory/vm_pool.C:90-182 | The promise leaves no choice: it determines both tables and the answer. |
| VmRegionOrder.NewDeleteExample | 04_virtual_memory/kernel.C:284-301 | A pool of 256 MB at 512 MB answers three rounds of one page with 0x20000000, 0x20001000 and 0x20002000. |
| PageTable.VMPool.constructor | 04_virtual_memory/vm_pool.C:53-88 | One free region that spans the pool, and the pool is registered. |
| PageTable.VMPool.FindFree | 04_virtual_memory/vm_pool.C:99-103 | The first free region that is long enough. |
| PageTable.VMPool.FindLive | 04_virtual_memory/vm_pool.C:146-153 | The first allocated region that starts at the page. |
| PageTable.VMPool.IsLegitimate | 04_virtual_memory/vm_pool.C:184-198 | True exactly for addresses in an allocated region. |
| PageTable.VMPool.Allocate | 04_virtual_memory/vm_pool.C:90-136 | The tables and the answer are those of first fit; it stops exactly when the table of allocated regions is full, with the pages already cut off. |
| PageTable.VMPool.Release | 04_virtual_memory/vm_pool.C:138-182 | Frees every page of the region and moves it to the free table; it stops exactly when the model does, with its region tables as they were and exactly the pages before the first one without a page table freed. |
| PageTable.ShiftDown | 04_virtual_memory/vm_pool.C:113-117 | The shifting loop removes exactly one entry and keeps the order of the rest. |
| VmModel.NoSharing | 04_virtual_memory/page_table.C:200-238 | No two pages above the shared region share a frame, and none uses the frame of a table, of the directory or a reserved one. |
| VmModel.Conservation | 04_virtual_memory/cont_frame_pool.C:204-332 | Free, owned and reserved frames always add up to the pool. |
| VmModel.MapPageCore | 04_virtual_memory/page_table.C:200-238 | Mapping a page takes exactly the frames it needs and keeps every frame accounted for. |
| VmModel.MapPageFrame | 04_virtual_memory/page_table.C:200-238 | handle_fault makes the page translate to a frame that was free and changes the translation of no other page below the window. |
| VmModel.MapPageRow | 04_virtual_memory/page_table.C:200-238 | It changes the contents of no data frame, also when a new table is linked and zeroed. |
| VmModel.FreePageCore | 04_virtual_memory/page_table.C:250-283 | free_page goes on exactly when the page table exists, and gives back exactly the frame of the page. |
| VmModel.FreePageFrame | 04_virtual_memory/page_table.C:250-283 | It changes the translation of that page only. |
| VmFrameOrder.FaultTakesInOrder | 04_virtual_memory/page_table.C:200-235 | A fault takes the lowest free frame for the page table when that is missing, then the lowest one left for the page, and no other. |
| VmFrameOrder.ConstructTakesInOrder | 04_virtual_memory/page_table.C:81-129 | On a pool that is all free the directory takes the first frame, the shared tables the next ones in order, and every frame behind them stays free. |
| VmFrameOrder.NewTableIsZero | 04_virtual_memory/page_table.C:216-218 | A new page table is all zeros but for the entry of the page that asked for it. |
| VmFrameOrder.FreedEntryIsZero | 04_virtual_memory/page_table.C:277-279 | Freeing a page writes zero over its entry. |
| VmNumbers.EntryInNumbers | 04_virtual_memory/page_table.C:126 | An entry holds the frame number in its top 20 bits, the present and write bits, and no other flag. |
| VmNumbers.WindowInNumbers | 04_virtual_memory/page_table.C:58-75 | The table entry of an address is word a / 4096 of the window from 0xFFC00000 on, the directory entry word a / 2^22 of its last page. |
| VmNumbers.SharedMapped | 04_virtual_memory/page_table.C:100-129 | After the constructor a page below the window is mapped, to itself, exactly when it holds a byte of the shared region. |
| VmNumbers.SharedEntryInNumbers | 04_virtual_memory/page_table.C:107-129 | Its entry is its number times 4096 plus 3, and the flags of its directory entry are present and write. |
| VmNumbers.FaultInNumbers | 04_virtual_memory/page_table.C:207-232 | So is the entry of a page that a fault maps, and the flags of a directory entry that it adds. |
| VmNumbers.PoolInNumbers | 04_virtual_memory/vm_pool.C:66-75 | A new pool is one free region from the page of its base address on, of the fewest pages that hold its size. |
| VmNumbers.TablesInNumbers | 04_virtual_memory/vm_pool.C:105-160 | With 256 allocated regions a further allocation that fits stops the kernel, and with 256 free ones a release does; before that neither. |
| VmNumbers.ManyInNumbers | 04_virtual_memory/vm_pool.C:90-182 | Any run of a new pool with at most 255 successful allocations goes on to its end. |
| VmNumbers.InfoInNumbers | 04_virtual_memory/cont_frame_pool.C:334-347 | One info frame serves 16384 frames. |
| VmOperations.MapPageInv | 04_virtual_memory/page_table.C:172-239 | A fault on any page between the shared region and the window keeps the whole invariant. |
| VmOperations.ReachMeaning | 04_virtual_memory/page_table.C:178-198 | An access goes through exactly when its page is shared or mapped already, or no pool is registered, or the page lies in an allocated region. |
| VmOperations.ReachKeepsRow | 04_virtual_memory/page_table.C:200-238 | It changes what no other page shows. |
| VmOperations.WriteDataRow | 04_virtual_memory/page_table.C:172-239 | A store changes one word of its page and what no other page shows. |
| VmOperations.FreePagesCore | 04_virtual_memory/vm_pool.C:163-168 | Freeing the pages of a range stops exactly when one of them has no page table. |
| VmOperations.FreePagesFrees | 04_virtual_memory/vm_pool.C:163-168 | The frames that become free are exactly those that pages of the range held. |
| VmOperations.FreePagesFrame | 04_virtual_memory/vm_pool.C:163-168 | Exactly the pages of the range become unmapped. |
| VmMachine.AllocMeaning | 04_virtual_memory/vm_pool.C:90-136 | Allocation adds pages that no pool had handed out and touches no memory. |
| VmMachine.RegisterMeaning | 04_virtual_memory/vm_pool.C:53-88 | Registering a pool apart from the others keeps the invariant and hands out no page. |
| VmMachine.StepInv | 04_virtual_memory/page_table.C:172-283 | Every operation, registration included, keeps the whole invariant and stops the kernel exactly in the cases its assertions are for. |
| VmMachine.RunInv | 04_virtual_memory/page_table.C:172-283 | So does every run, whether or not a pool is registered. |
| VmMachine.RunKeepsRow | 04_virtual_memory/page_table.C:172-283 | A mapped page keeps its contents over any run that neither writes to it nor releases it. |
| VmMachine.RunKeepsWord | 04_virtual_memory/page_table.C:172-283 | A word of a mapped page stays over any run that neither stores to it nor releases its page. |
| VmBacking.RegistrationBacksIff | 04_virtual_memory/page_table.C:178-198 | From any state without pools: after the first registration every mapped page lies in an allocated region, over every run, exactly when no page above the shared region is mapped at that moment. |
| VmBacking.RunStray | 04_virtual_memory/page_table.C:172-283 | With a pool registered no run maps a page outside the regions: the stray pages at its end are those that were stray at its start and were never handed out since. |
| VmBacking.StepUnregistered | 04_virtual_memory/page_table.C:178-239 | Before any registration no access stops, and it maps exactly the page it is for. |
| VmTheorems.ConstructInv | 04_virtual_memory/page_table.C:77-143 | The constructor establishes the invariant with one frame for the directory and one per shared table, no other page mapped and no pool registered. |
| VmTheorems.MapDirectFrame | 03_paging/page_table.C:126-196 | By direct physical accesses the faulting page comes to translate to its frame and nothing else below the window changes. |
| VmTheorems.MapPageIgnoresPools | 04_virtual_memory/page_table.C:200-238 | A fault edits memory and frames the same way whatever pools are registered. |
| VmTheorems.FreePagesIgnoresPools | 04_virtual_memory/vm_pool.C:163-168 | So does freeing a range. |
| VmExamples.NoFrameExample | 04_virtual_memory/page_table.C:207-235 | Booted with two frames, the first fault breaks the accounting for every possible assignment of frames. |
| VmExamples.EarlyAccessExample | 04_virtual_memory/page_table.C:178-198 | Booted, one write at 4 MB, then the first pool: the page stays mapped outside every region. |
| VmExamples.UntouchedReleaseExample | 04_virtual_memory/vm_pool.C:163-168 | Booted, a pool at 512 MB, one page allocated and released at once: the release stops the kernel. |
| VmExamples.HugeAllocateExample | 04_virtual_memory/vm_pool.C:90-136 | A new pool answers a request for 2^32 - 1 bytes with its base address and no legitimate page. |
| VmExamples.MarkBelowExample | 04_virtual_memory/cont_frame_pool.C:261-285 | Frames 9 and 10 marked in a pool that starts at 10: frame 10 is Used without a head. |
| DiskDevice.SplitOfJoin | 06_disk_driver/simple_disk.C:62-67 | Two bytes joined to a word and split again are the same bytes. |
| DiskDevice.JoinOfSplit | 06_disk_driver/simple_disk.C:77-81 | A word split to bytes and joined again is the same word. |
| DiskDevice.LbaIs | 06_disk_driver/simple_disk.C:183-187 | The address registers carry the low 28 bits of the block number. |
| DiskDevice.DiskPort.ReadWords | 06_disk_driver/simple_disk.C:62-67 | The read loop fills the buffer with the 512 bytes of the block and leaves the device ready. |
| DiskDevice.DiskPort.WriteWords | 06_disk_driver/simple_disk.C:77-81 | The write loop hands the device exactly the bytes of the buffer. |
| DiskProtocol.BootInv | 06_disk_driver/nonblocking_disk.C:18-33 | The invariant holds at boot. |
| DiskProtocol.AcquireInv | 06_disk_driver/nonblocking_disk.C:104-120 | One pass of the test-and-set makes a holder exactly when there is none. |
| DiskProtocol.MoveInv | 06_disk_driver/simple_disk.C:62-81 | Each transferred word keeps device and holder in step. |
| DiskProtocol.ReleaseInv | 06_disk_driver/nonblocking_disk.C:123-128 | At the unlock the call takes effect on the store, in one step. |
| DiskProtocol.ProceedInv | 06_disk_driver/nonblocking_disk.C:39-142 | Every step of the running thread keeps the device exactly where the code of the holder is. |
| DiskProtocol.RunInv | 06_disk_driver/nonblocking_disk.C:39-142 | So does every run, with threads, device and interrupt in any order. |
| DiskTheorems.HolderIsRunnable | 06_disk_driver/nonblocking_disk.C:97-121 | Whenever the lock is held its holder is running or queued. |
| DiskTheorems.HolderProgresses | 06_disk_driver/nonblocking_disk.C:39-70 | Running while the disk is not busy, the holder comes one step nearer to its unlock. |
| DiskTheorems.OthersLeaveTheHolder | 06_disk_driver/nonblocking_disk.C:104-120 | No other thread and no device step moves the holder or takes its lock. |
| DiskProgress.HeldBounds | 06_disk_driver/nonblocking_disk.C:39-128 | While the lock stays held its holder stays the same; its steps with the disk not busy add up to the work it has done, and the yields stay within the bound. |
| DiskTheorems.RunSchedules | 06_disk_driver/scheduler.C:70-96 | The protocol drives the scheduler by nothing but yields and adds. |
| DiskTheorems.UnlockedDiskIsConfused | 06_disk_driver/nonblocking_disk.C:95-144 | Without the lock, on any disk and for any two threads, a run exists in which the second sends its command into the transfer of the first. |
| DiskWaits.OneOfTwoYields | 06_disk_driver/nonblocking_disk.C:58-68 | Of two looks with no interrupt from the first on, whatever lies between them, one gives the processor to a ready thread. |
| DiskWaits.WaitMoves | 06_disk_driver/nonblocking_disk.C:58-68 | One look yields, or uses up a pending interrupt, and changes nothing else; at the lock it always yields. |
| DiskWaits.PassMoves | 06_disk_driver/scheduler.C:70-96 | A thread outside a disk call that yields goes last in the queue and the head runs. |
| DiskWaits.LooksAreYields | 06_disk_driver/nonblocking_disk.C:39-121 | Over every run each look beyond the interrupts is a yield. |
| DiskNumbers.MovesWholeBlocks | 06_disk_driver/simple_disk.C:52-87 | In every run each finished read has returned 512 bytes and each finished write has stored 512. |
| DiskNumbers.LogGrows | 06_disk_driver/nonblocking_disk.C:123-142 | Only an unlock adds to the history, and it adds the one call that the running thread has finished. |
| DiskNumbers.WordInNumbers | 06_disk_driver/simple_disk.C:62-81 | A word carries the earlier byte in its low half and the later one in its high half. |
| DiskScheduler.Scheduler.Yield | 06_disk_driver/scheduler.C:70-96 | The running thread goes to the tail and the head runs; nothing changes when it is alone. |
| DiskScheduler.Scheduler.Resume | 06_disk_driver/scheduler.C:98-113 | A thread other than the running one goes to the tail. |
| DiskScheduler.Scheduler.Add | 06_disk_driver/scheduler.C:115-122 | The thread goes to the tail. |
| DiskScheduler.Advances | 06_disk_driver/scheduler.C:70-122 | Every yield moves a queued thread one place forward, whatever is added behind it. |
| DiskScheduler.TurnComes | 06_disk_driver/scheduler.C:70-122 | A thread at position k runs after exactly k + 1 yields, regardless of concurrent adds. |
| DiskScheduler.NotEarlier | 06_disk_driver/scheduler.C:70-122 | It does not run earlier. |
| DiskScheduler.FullTurn | 06_disk_driver/scheduler.C:70-96 | n yields of n threads restore the original order. |
| DiskScheduler.YieldKeepsThreads | 06_disk_driver/scheduler.C:70-96 | Yielding loses and duplicates no thread. |
| DiskScheduler.ResumeKeepsDistinct | 06_disk_driver/scheduler.C:98-113 | Resuming a waiting thread, or the running one, leaves no thread queued twice. |
| ReadyQueue.ReadyQueue.PushTail | 06_disk_driver/scheduler.C:41-49 | The linked queue gains the thread at its end. |
| ReadyQueue.ReadyQueue.PopHead | 06_disk_driver/scheduler.C:51-59 | The head leaves, or nothing happens on an empty queue. |
| ReadyQueue.ReadyQueue.Remove | 05_scheduler/scheduler.C:85-105 | The first occurrence of a thread leaves and the order of the rest stays. |
| ReadyQueue.RemoveCounts | 05_scheduler/scheduler.C:85-105 | Exactly one occurrence leaves. |
| ThreadStates.StatusesAreDisjoint | 05_scheduler/scheduler.C:54-144 | Statuses do not overlap and no queue holds a thread twice. |
| ThreadStates.StepCount | 05_scheduler/scheduler.C:172-360 | Every operation moves threads from one status to another; only creation adds one. |
| ThreadStates.FreedOnce | 05_scheduler/scheduler.C:129-144 | A stack is freed once, and its thread never runs, is ready, waits or is a zombie again. |
| ThreadStates.ReapsOnlyTheDead | 05_scheduler/scheduler.C:129-144 | What a call frees belongs to zombies, or to the thread it was asked to kill, and to no running, ready or waiting thread. |
| ThreadStates.ZombiesAreReaped | 05_scheduler/scheduler.C:172-217 | A zombie is freed by the next call that passes on, blocks, resumes or ends a thread. |
| ThreadStates.EndKeepsIff | 05_scheduler/scheduler.C:253-289 | The same condition as for thread_shutdown, for terminate of the running thread. |
| ThreadStates.DeadThreadRunsOn | 05_scheduler/scheduler.C:334-347 | If the only thread that ever yielded ends with nobody ready, it is dispatched again after its own death. |
| ThreadQueue.StepMoves | 05_scheduler/scheduler.C:172-360 | One operation moves a ready thread one place forward, or onto the processor from the front, when the running thread hands over or one ahead is killed, and else not at all. |
| ThreadQueue.MovesForward | 05_scheduler/scheduler.C:172-360 | Over every run a ready thread moves forward by exactly the number of those steps. |
| ThreadQueue.BlockedStays | 05_scheduler/scheduler.C:172-217 | A blocked thread neither runs nor is ready until it is resumed or killed, over every run of the others. |
| ThreadQueue.BlockLeaves | 05_scheduler/scheduler.C:172-193 | A thread that yields without being resumed, with another one ready, is blocked. |
| ThreadQueue.ResumeQueues | 05_scheduler/scheduler.C:195-217 | A resumed thread is the last of the ready ones. |
| ThreadQueue.AloneRunsOn | 05_scheduler/scheduler.C:172-193 | With nobody ready a thread that yields runs on. |
| ThreadQueue.YielderRemembered | 05_scheduler/scheduler.C:184-190 | In every state the remembered thread is the last one of the run that yielded. |
| ThreadQueue.FreesExactly | 05_scheduler/scheduler.C:129-360 | Each call frees exactly the zombies there were, or exactly the thread it kills, or nothing. |
| ThreadQueue.ReapsNewestFirst | 05_scheduler/scheduler.C:129-144 | The zombies are freed in one go, the newest first. |
| ThreadQueue.EndsAsZombie | 05_scheduler/scheduler.C:309-360 | A thread that ends becomes the newest zombie, and its own call does not free its stack. |
| TerminatingScheduler.Scheduler.CleanupZombies | 05_scheduler/scheduler.C:129-144 | The walk frees every zombie and empties the list. |
| TerminatingScheduler.Scheduler.EnqueueZombie | 05_scheduler/scheduler.C:120-126 | The newest zombie goes to the front. |
| TerminatingScheduler.Scheduler.Resume | 05_scheduler/scheduler.C:195-217 | Reap, then enqueue unless it is the idle thread. |
| TerminatingScheduler.Scheduler.Yield | 05_scheduler/scheduler.C:172-193 | Reap, then the head runs, or nothing changes with an empty queue. |
| TerminatingScheduler.Scheduler.TerminateSelf | 05_scheduler/scheduler.C:309-360 | Reap, park as a zombie, dispatch the successor. |
| TerminatingScheduler.Scheduler.Terminate | 05_scheduler/scheduler.C:243-306 | For the running thread park and dispatch; for another one remove and free at once. |
| TerminatingScheduler.Scheduler.PassOnCpu | 05_scheduler/kernel.C:112-128 | resume of oneself and yield is one rotation. |
| ContextSwitch.PrologueMeaning | 05_scheduler/threads_low.asm:80-88 | The first nine instructions put flags, code segment and return address under the argument and change no register but the stack pointer and the status bits. |
| ContextSwitch.SaveMeaning | 05_scheduler/threads_low.asm:64-99 | After the saving part the context of the caller lies in the 68 bytes below its argument, the thread structure points to it, and no other word has changed. |
| ContextSwitch.RestoreMeaning | 05_scheduler/threads_low.asm:106-116 | The restoring part runs whatever context the frame of the new thread holds. |
| ContextSwitch.SwitchMeaning | 05_scheduler/threads_low.asm:56-116 | The whole routine: the caller is saved, the target runs, nothing else in memory changes. |
| ContextSwitch.FirstDispatchMeaning | 05_scheduler/threads_low.asm:118-134 | The short form for the start-up code only loads the context of the target. |
| ThreadContexts.SwitchKeeps | 05_scheduler/threads_low.asm:56-116 | A switch dispatches the saved context of the target, saves the caller, and disturbs nobody else on disjoint stacks. |
| ThreadContexts.StaysParked | 05_scheduler/threads_low.asm:56-116 | A thread that is not switched to keeps its saved context over any run. |
| ThreadContexts.Processor.SwitchTo | 05_scheduler/threads_low.asm:56-134 | Executing the routine instruction by instruction gives the state of the model, in both forms. |
| ThreadContexts.Thread.constructor | 05_scheduler/thread.C:177-200 | A new thread looks as if switched out at the start of thread_start, with function and shutdown addresses above its frame. |
| ThreadContexts.Thread.SetupContext | 05_scheduler/thread.C:103-171 | The pushes of setup_context build that frame and write nothing outside 80 bytes. |
| ThreadContexts.Thread.PushWord | 05_scheduler/thread.C:68-72 | push lowers the stack pointer in the thread structure by four and stores there. |
| ThreadContexts.AddThreadKeeps | 05_scheduler/thread.C:177-200 | Adding a new thread keeps everybody else where they were. |
| ThreadContexts.SpawnKeeps | 05_scheduler/thread.C:177-200 | Constructing a thread on memory nobody uses disturbs nobody, and the new thread counts as switched out. |
| ThreadContexts.StackWordStays | 05_scheduler/threads_low.asm:56-116 | A word of a stack that its own thread leaves alone stays over any run of all threads. |
| ThreadContexts.StatusLostExample | 05_scheduler/threads_low.asm:80-88 | Two threads, there and back at once: called with the carry flag set, the thread comes back with it clear. |
| ThreadContexts.FreshThreadRuns | 05_scheduler/thread.C:77-101 | A new thread that is dispatched enters thread_start with interrupts off, and from there its function with interrupts on and the shutdown address on top of its stack. |
| ThreadContexts.SavedInNumbers | 05_scheduler/threads_low.asm:64-99 | Where a saved frame holds each register, the return address, code segment 8 and the control flags, in bytes from its stack pointer. |
| ThreadContexts.SetUpInNumbers | 05_scheduler/thread.C:103-171 | What the words of a new stack hold: zero registers and flags, code segment 8, data segments 16, the three addresses and a zero. |

## Left out

- The single-block file variant (without `LARGE_FILE_SUPPORT`): strictly easier than the indexed one.
- Crash consistency, several handles on one file, and a handle used after its file is deleted: the code makes no claim about them.
- The padding bytes of an inode on disk and its pointer to the file system are written as zeros; `load_inodes` overwrites the pointer anyway. `sizeof(Inode)` is taken as 20, so there are 25 inodes.
- FileSystem.FileSystem.Mount: for a recorded size above 4064 blocks, which Format never writes, the flags past the bitmap are left open, because the loop then reads past its buffer.
- The bitmap of a frame pool is an array of its own; that it lies in the info frame is not part of the model, and neither is the kernel pool's part in releasing frames, which the invariant shows is never reached for process frames.
- PageTable.PageTable.FreePage: with no pool registered and no page table the fault on the window address is served and links a frame as it is as a page table; what free_page then reads there is left out, as its one caller is `VMPool::release`.
- Speculative fills of the translation buffer and paging-structure caches; the buffer fills on the kernel's accesses only.
- The words that a freshly mapped page shows: the handler does not clear data frames.
- The IDE ports, status bits and the 400 ns delay: an abstract device with busy periods stands for them. Device errors other than a command or word at the wrong moment are not modelled.
- `lock_disk` and `wait_while_busy` are steps of the transition system rather than methods with loops, because their loops end only if other threads run. One step is one pass, and that pass is atomic as threads switch only at yield.
- Overlapping disk calls by one thread and the build without a scheduler.
- The round-robin build: a tick between `resume(self)` and `yield()` enqueues the thread twice, so the two are one step here. The idle thread runs for ever once dispatched.
- TerminatingScheduler.Scheduler.Terminate: terminating a zombie or a freed thread is excluded in the runs, as the code would free it twice.
- Heap allocation of queue nodes and stacks never fails, and double use of freed memory shows only as a thread with two statuses.
- Console output, GDT, IDT and IRQ set-up, timers, boot code, the placeholder memory pools and the older copies of the frame pool in modules 02 and 03.
