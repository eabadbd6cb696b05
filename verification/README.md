# Verified model of the kernel's memory managers, schedulers, RamFS and formatter

A Dafny model of the parts of a small i386 kernel that carry state and invariants: the kernel
heap, the frame bitmap and page tables with `mmap`/`munmap`, the RamFS file system, the
process ring scheduler, the multi-queue task scheduler, and `snprintf` with the /proc files
built on it. Each part comes in two layers. One describes the state as a value and proves
what holds of every call and every run. The other has the objects that the C code updates
in place (headers, rings, linked queues, bitmaps, tables, buffers), and each method is proved
to do what the first layer says. `dafny verify dfyconfig.toml` checks the project.

| part | value layer | objects |
|---|---|---|
| `kernel/mm/kheap.c` | `HeapLayout`, `HeapRuns`, `HeapExact` | `KernelHeap` |
| `kernel/mm/paging.c`, `mmap` and `munmap` of `kernel/proc/process.c` | `Frames`, `WordBits`, `PageMap`, `PageRuns` | `Frames.FrameAllocator`, `Paging` |
| `kernel/fs/ramfs.c` | `RamFsTree`, `RamFsRuns`, `RamFsPaths`, `RamFsNumbers`, `RamFsLaws`, `RamFile`, `RamReaddir` | `RamFs` |
| `kernel/proc/process.c` | `ProcessTable`, `ProcessLaws` | `ProcessRing` |
| `kernel/proc/sched.c` | `TaskSpec`, `TaskTicks`, `TaskLoss`, `TaskLaws` | `TaskQueues` |
| `lib/kprintf.c`, `kernel/proc/procfs.c` | `Formatter`, `ProcFs`, `ProcStatus`, `ProcText` | the methods of the same modules |

`Rings` holds what both circular lists share, `Machine` the 32-bit word and optional values.

## What the code does that its comments do not say

Each of these is a theorem of the model; the code was followed.

- `kmalloc` is exact for requests up to 2^32 - 24. Above that the size arithmetic wraps and
  the block is smaller than requested (`NeedCoversRequest`, `KHeap.Kmalloc`).
- `used_size` adds the requested size and subtracts the block size. It drifts from the sum of
  the live blocks by the bytes of every split that was declined, 0, 8 or 16 at a time
  (`StepUsed`, `UsedSizeLaw`, and runs of four calls for either slack in `UsedSizeDrifts`).
- The frame bitmap lies at 0x100000, which is frame 256, the first frame `alloc_frame` hands
  out. `init_paging` makes it the page directory and clears it, so the first page table gets
  frame 0, which reads as failure, and nothing is mapped (`InitPagingAsPlaced`).
  `init_paging` overwrites frames 256 to 1280 and no others (`InitWritesExactly`); everything
  else said here about paging takes the bitmap to lie outside them.
- `alloc_frame` reports failure as 0, which is right exactly while frame 0 is in use
  (`ZeroMeansExhausted`).
- With the bitmap out of the way, `init_paging` says it maps 4 MB and maps all 4 GB, with 1025
  frames for directory and tables (`InitPaging`). From then on every directory entry has its
  table (`RunKeepsTables`), `mmap` fails exactly when fewer frames than pages are free, and
  `munmap` restores the frames in use exactly (`PageRuns.EveryRun`). Before, with a table
  missing, `mmap` could report success and lose the frame of its last page (`MmapLoses`).
- `unmap_page` and `munmap` free whatever frame a page maps. Unmapping 0x100000 gives away the
  page directory (`DirectoryGivenAway`); `UnmapPageTranslates` and `MunmapKeepsValid` say
  exactly which calls are harmless.
- `mmap` maps nothing and reports success for a length above 2^32 - 4096 (`PageCountCovers`).
- Terminating the current process leaves `current_process` outside the ring
  (`TerminateKeepsInv`, `CurrentLost`). FCFS is the same code as round robin. After 2^32
  creations pids repeat, beginning with that of the kernel process (`PidsRepeat`).
- `schedule` of `sched.c` takes a new task even when the slice of the old one has not run out,
  and the old one is then in no queue (`KnownAfterSchedule`). So without creations every
  queued task gets one tick and is forgotten, until only a new idle task is left
  (`OneTurnEach`, `LastOneKnown`, `OnlyIdleKnown`), and as long as idle tasks can be allocated
  no slice ever runs out (`NoSliceRunsOut`).
- A task that exits on the last tick of its slice comes back as READY or RUNNING
  (`ExitedTaskReturns`, and a run from `sched_init` in `ExitedAndBack`).
- Runtime plus slice of a task is a multiple of ten until its 32-bit counter wraps, and then
  again after every fifth wrap (`RuntimePlusSlice`).
- `ramfs_rmdir` accepts "." and removes the directory it was given (`RmdirExact`,
  `RootRemoved`). A `ramfs_mkdir` that runs out of memory for the dot entries fails but
  leaves a directory without them (`FailedMkdir`), in which "." can then be created
  (`CreateExact`).
- `next_inode` has 32 bits and is never reused knowingly: the inode after 2^32 others gets the
  number of the root (`WrapRepeatsRoot`, and a run in `NumbersRepeat`).
- `ramfs_write` stays inside its buffer exactly when offset plus count is below 2^32
  (`StaysInside`, and eight bytes at 0xFFFFFFFC in `WrapsOutside`).
- `%d` prints "-(" for INT_MIN (`DecimalExact`). `%x` prints its own "0x", so
  /proc/[pid]/status shows "0x0x" (`GenerateStatus`). The tests `offset >= buf_size` in the
  /proc generators never succeed (`ProcFs.Append`).
  `snprintf` returns the truncated count, unlike section 7.19.6.5 of ISO/IEC 9899:1999.

## Reading of the code

- Places that are not valid C (`kernel/mm/paging.c:108`, `kernel/mm/paging.c:122`,
  `kernel/proc/sched.c:65-70`, `kernel/proc/sched.c:106`) are read as intended: the directory
  and the tables are arrays of 1024 words, and the entry bodies are dropped.
- Addresses and sizes are 32-bit: wrap-around is written out as `% 2^32` wherever it can
  happen. The block header has 16 bytes.
- The address split into 10, 10 and 12 bits is that of section 4.3 of the Intel 64 and IA-32
  Architectures Software Developer's Manual, Volume 3A (32-bit paging). Page entries are
  numbers; since addresses are page-aligned and flags below 4096, `|` is addition.
- Physical memory is 1024 words a frame. The bitmap is an array of 32-bit vectors in storage of
  its own.
- Whether an allocation succeeds is a parameter of `create_process`, `create_task`,
  `schedule`, `ramfs_create`, `ramfs_mkdir` and `ramfs_write`: every answer of the heap is
  covered. `kmalloc(0)` always fails.
- Headers of absorbed heap blocks stay in memory and are modelled, since a repeated `kfree`
  reads them.
- A new object has an identity that is not in use. RamFS objects that were freed are gone
  from the model's maps.
- `memcpy`, `memset`, `strcmp` and `strlen` are primitives. `off_t` operands are compared as
  32-bit unsigned words, as C converts them.
- `get_free_mem_size` is a parameter of the /proc generator; the page directory and the stack
  top of a new task are parameters of its creation.
- Inode numbers are creation ranks modulo 2^32; the unbounded rank is kept beside them to say
  that children are younger than their directory.

## Model

| member | source | states |
|---|---|---|
| `HeapLayout.NeedCoversRequest` | kernel/mm/kheap.c:49-52 | the aligned size plus header covers the request if and only if it is at most 2^32 - 24, wasting under 8 bytes; above that the wrapped size is 0, 8 or 16 |
| `HeapLayout.FirstFit` | kernel/mm/kheap.c:55-68 | the block chosen fits and no earlier one does; past the end exactly when none fits |
| `HeapLayout.SpliceTiles` | kernel/mm/kheap.c:71-113 | replacing neighbouring blocks by a chain over the same bytes keeps the tiling of the 16 MB heap |
| `HeapLayout.TakeKeepsInv` | kernel/mm/kheap.c:71-90 | allocating from a fitting block keeps the tiling, the sizes and no two free neighbours; BlocksInNumbers has the sizes in numbers |
| `HeapLayout.ReleaseKeepsInv` | kernel/mm/kheap.c:93-113 | freeing a block and merging on both sides keeps them too |
| `HeapLayout.TakeLive` | kernel/mm/kheap.c:133-137 | allocation adds exactly one live block |
| `HeapLayout.ReleaseLive` | kernel/mm/kheap.c:158-163 | freeing removes exactly that live block |
| `HeapLayout.Ordered` | kernel/mm/kheap.c:71-113 | blocks lie in address order without overlap |
| `HeapLayout.Aligned` | kernel/mm/kheap.c:49-52 | every block starts 8-aligned inside the heap |
| `HeapLayout.GapInOneBlock` | kernel/mm/kheap.c:93-113 | any run of bytes outside live blocks lies in one free block |
| `HeapLayout.FailureIsComplete` | kernel/mm/kheap.c:55-68 | first fit fails if and only if no run of bytes outside live blocks is long enough |
| `HeapLayout.TakeThenRelease` | kernel/mm/kheap.c:116-164 | allocating a block and freeing it restores the exact block list |
| `HeapRuns.RunKeepsInv` | kernel/mm/kheap.c:71-164 | every run of kmalloc and kfree keeps tiling and full coalescing |
| `HeapRuns.LiveSurvives` | kernel/mm/kheap.c:116-164 | a live block keeps address and size over any run that does not free it |
| `HeapRuns.AllocationHonoured` | kernel/mm/kheap.c:116-141 | a successful kmalloc gives an 8-aligned block inside the heap, large enough, new, and apart from all others over every later run that does not free it |
| `HeapRuns.MallocFails` | kernel/mm/kheap.c:116-130 | a failed kmalloc changes nothing |
| `HeapRuns.NestedUseRestores` | kernel/proc/process.c:80-97 | any nesting of allocations and frees restores the exact block list, so the failure paths of create_process leave it unchanged |
| `HeapRuns.MallocThenFree` | kernel/proc/sched.c:159-176 | freeing what kmalloc returned restores the list, also after nested use in between, as in the failure paths of create_task |
| `HeapRuns.FreeAllEmpties` | kernel/mm/kheap.c:144-164 | freeing all live blocks in any order leaves the single initial block |
| `HeapRuns.FreeingAllRestores` | kernel/mm/kheap.c:29-46 | the same after any run from init_kheap |
| `HeapRuns.OutOfMemoryIsReal` | kernel/mm/kheap.c:116-130 | after any run, kmalloc of a nonzero size is NULL if and only if no run of bytes outside live blocks has room for request and header |
| `HeapRuns.StepUsed` | kernel/mm/kheap.c:133-137 | one call moves used_size by the change of the live total minus a slack of 0, 8 or 16, modulo 2^32 |
| `HeapRuns.UsedOverRun` | kernel/mm/kheap.c:159-160 | the same summed over a run |
| `HeapRuns.UsedSizeLaw` | kernel/mm/kheap.c:137-160 | used_size is the live total minus all slack ever taken modulo 2^32, and equals the live total if and only if the slack is 0 modulo 2^32 |
| `HeapExact.UsedSizeDrifts` | kernel/mm/kheap.c:116-164 | kmalloc(n), kmalloc(8), kfree of the first, kmalloc(m): used_size is then n - m below the sum of the live blocks, with 16 and 8 as with 32 and 16 |
| `HeapExact.MallocExact` | kernel/mm/kheap.c:116-141 | the first free block in address order that holds the request, rounded up to 8, and 16 bytes more is taken whole if and only if fewer than 24 bytes would be left, else its front is; every other block stays, and used_size goes up by the bytes needed |
| `HeapExact.FreeExact` | kernel/mm/kheap.c:144-164 | kfree removes exactly that live block, and the list is tiled and coalesced again |
| `HeapExact.FreeCounted` | kernel/mm/kheap.c:160 | used_size goes down by the size of the block |
| `HeapExact.LiveBlocksDetermine` | kernel/mm/kheap.c:93-113 | two lists with the same live blocks are equal, so live blocks and coalescing say all about the list |
| `HeapExact.BlocksInNumbers` | kernel/mm/kheap.c:73 | in every reachable state each block has room for 16 bytes of header and at least 8 more, in the 16 MB from 0xC0000000 on |
| `KernelHeap.KHeap.Init` | kernel/mm/kheap.c:29-46 | one free block of 16 MB |
| `KernelHeap.KHeap.FindFreeBlock` | kernel/mm/kheap.c:55-68 | the walk over the linked headers finds the first fitting block, NULL if there is none |
| `KernelHeap.KHeap.SplitBlock` | kernel/mm/kheap.c:71-90 | the header updates split the block unless the rest is under 24 bytes; links stay mutual |
| `KernelHeap.KHeap.MergeNext` | kernel/mm/kheap.c:96-102 | joins the next block if it is free |
| `KernelHeap.KHeap.MergePrev` | kernel/mm/kheap.c:105-112 | joins the previous block if it is free |
| `KernelHeap.KHeap.MergeBlocks` | kernel/mm/kheap.c:93-113 | both merges together are the release of the value layer; stale headers keep their free mark |
| `KernelHeap.JoinsAreRelease` | kernel/mm/kheap.c:93-113 | merging forwards and then backwards is one splice of up to three blocks |
| `KernelHeap.LinkedSplice` | kernel/mm/kheap.c:71-113 | prev inverts next over the whole list after a splice |
| `KernelHeap.KHeap.Kmalloc` | kernel/mm/kheap.c:116-141 | refines the allocation of the value layer for requests up to 2^32 - 24, and the header of the block found keeps its size if fewer than 24 bytes would be left, else has the size needed; NULL exactly for size 0 or no fit; the block is large enough if and only if nothing wrapped |
| `KernelHeap.KHeap.TakeBlock` | kernel/mm/kheap.c:132-137 | split, mark and count together are the allocation step of the value layer |
| `KernelHeap.KHeap.Kfree` | kernel/mm/kheap.c:144-164 | refines the release of the value layer; a header marked free means no change at all |
| `KernelHeap.KHeap.FreeBlock` | kernel/mm/kheap.c:158-163 | mark, count and merge together are the release of the value layer |
| `KernelHeap.KHeap.KfreeTwice` | kernel/mm/kheap.c:153-156 | an immediately repeated kfree changes nothing, even if a merge absorbed the header |
| `KernelHeap.KHeap.GetKheapInfo` | kernel/mm/kheap.c:167-178 | total, used_size, and their difference modulo 2^32 |
| `WordBits.OneBitChanges` | kernel/mm/paging.c:49-77 | or-ing 1 << a, or masking with its complement, changes bit a of a 32-bit word and no other |
| `Frames.LeastFreeIsLeast` | kernel/mm/paging.c:43-53 | the frame found is free and every lower one in use, unless all are |
| `Frames.ZeroMeansExhausted` | kernel/mm/paging.c:55-57 | 0 means exhaustion if and only if frame 0 is in use |
| `Frames.HeldFramesAreTheRest` | kernel/mm/paging.c:39-79 | over every run that frees no reserved frame, the frames in use are the reserved ones and those held; alloc_frame never returns a held one |
| `Frames.RunSplits` | kernel/mm/paging.c:39-79 | the same from any set of held frames |
| `Frames.SuccessiveFrames` | kernel/mm/paging.c:40-58 | from boot the calls of alloc_frame return 256, 257, ... up to 32767 and then 0 |
| `Frames.AllocThenFree` | kernel/mm/paging.c:40-79 | alloc_frame then free_frame is the identity |
| `Frames.DirectoryLandsOnBitmap` | kernel/mm/paging.c:22-28 | the first frame handed out holds the bitmap, and a cleared bitmap makes the next call return 0 |
| `Frames.FrameAllocator.constructor` | kernel/mm/paging.c:13-37 | the bitmap holds the first 256 frames and used_frames is their number |
| `Frames.FrameAllocator.AllocFrame` | kernel/mm/paging.c:40-58 | the scan sets the bit of the least free frame and no other; used_frames stays the number of set bits |
| `Frames.FrameAllocator.SetOneBit` | kernel/mm/paging.c:44-49 | the update of one word of the bitmap changes the bit of one frame of all 32768 |
| `Frames.FrameAllocator.FreeFrame` | kernel/mm/paging.c:61-79 | clears the bit if it was set; otherwise, or out of range, no change |
| `Frames.FrameAllocator.InitPagingAsPlaced` | kernel/mm/paging.c:102-118 | with the bitmap at 0x100000 the directory overwrites it, the first page table gets frame 0 and nothing is mapped; only the present bit of directory entry 0 is left set |
| `PageMap.MapPageTranslates` | kernel/mm/paging.c:141-170 | exactly one page changes its translation, to the frame plus offset, unless a table was needed and no frame was left |
| `PageMap.MapPageEntry` | kernel/mm/paging.c:161-166 | exactly one entry changes, to the frame asked for with flags | 1 in its low twelve bits, unless a table was needed and no frame was left |
| `PageMap.MapPageKeepsValid` | kernel/mm/paging.c:141-170 | frame 0 and the frames of directory and tables stay distinct and in use |
| `PageMap.UnmapPageTranslates` | kernel/mm/paging.c:173-199 | exactly one page loses its translation; frame 0, directory and tables stay in use if and only if the page mapped none of them |
| `PageMap.PageCountCovers` | kernel/proc/process.c:256 | the page count is the least that covers the length if and only if that is at most 2^32 - 4096; above, it is 0 |
| `PageMap.MunmapEffect` | kernel/proc/process.c:285-300 | munmap frees exactly the frames the range maps and unmaps exactly the range |
| `PageMap.MunmapKeepsValid` | kernel/proc/process.c:285-300 | frame 0, directory and tables stay in use if and only if the range maps none of them |
| `PageMap.MmapGrows` | kernel/proc/process.c:254-283 | with enough frames every page gets a new frame and the frames in use grow by those and the new tables |
| `PageMap.MmapEntries` | kernel/proc/process.c:264-279 | after a success each page of the range that has its table is mapped to a frame that was free, with flags | 1 below it |
| `PageMap.MmapLoses` | kernel/proc/process.c:264-279 | short of frames and with a table missing, a call that reports success has a new data frame in use that no page of the range maps |
| `PageMap.MmapOutside` | kernel/proc/process.c:264-279 | pages outside the range keep their entries |
| `PageMap.EnoughIsCounted` | kernel/proc/process.c:264-279 | there are enough frames if and only if the free ones number at least one a page and one a missing table |
| `PageMap.MmapThenMunmap` | kernel/proc/process.c:254-300 | mmap succeeds and munmap restores the frames in use, new tables apart, if and only if that count holds |
| `PageMap.MmapThenMunmapPages` | kernel/proc/process.c:254-300 | after both, no page of the range is mapped and all others are as before, whether or not mmap succeeded |
| `PageMap.MmapWithTables` | kernel/proc/process.c:254-300 | with every table present, mmap fails if and only if fewer frames than pages are free, and after a success munmap restores the frames in use exactly |
| `PageMap.MmapValid` | kernel/proc/process.c:254-283 | mmap keeps table frames distinct, in use and never handed out |
| `Paging.InstallTable` | kernel/mm/paging.c:147-159 | installing a cleared table in an absent directory entry maps no page |
| `Paging.WriteWord` | kernel/mm/paging.c:161-166 | writing one table word changes one page of the flat map, given distinct tables |
| `Paging.AddressSpace.InitPaging` | kernel/mm/paging.c:102-130 | every one of the 2^32 addresses translates to itself, with 1025 frames used for directory and tables, and every entry present and writable; all other frames keep their contents; takes the bitmap to lie in one of those |
| `Paging.InitWritesExactly` | kernel/mm/paging.c:107-129 | the frames overwritten are 256 to 1280, those of directory and tables, and the bitmap is in one of them |
| `Paging.AddressSpace.CreatePageTable` | kernel/mm/paging.c:82-99 | takes the least free frame and clears it; failure changes nothing |
| `Paging.AddressSpace.MapPage` | kernel/mm/paging.c:141-170 | the two-level update refines the update of the flat map; the table word, and the directory entry of a new table, hold frame and flags | 1, and no other directory entry changes |
| `Paging.AddressSpace.UnmapPage` | kernel/mm/paging.c:173-199 | refines removal from the flat map and frees the frame |
| `Paging.AddressSpace.GetPhysicalAddr` | kernel/mm/paging.c:202-225 | the two-level walk is the translation of the flat map, 0 if unmapped |
| `Paging.AddressSpace.Mmap` | kernel/proc/process.c:254-283 | refines mapping a range, at 0x80000000 for address 0; after a success each page of the range that has its table is present, writable if and only if bit 1 of prot is set and open to user code if and only if bit 2 is; with every table present NULL if and only if fewer frames than pages are free |
| `Paging.AddressSpace.MmapRange` | kernel/proc/process.c:264-279 | its loop stops at the first missing frame and leaves the pages already mapped |
| `Paging.AddressSpace.Munmap` | kernel/proc/process.c:285-300 | refines unmapping a range although each frame is freed twice; the state stays fit for further calls if and only if the range maps neither frame 0, nor the directory, nor a table |
| `Paging.AddressSpace.MunmapOne` | kernel/proc/process.c:291-295 | the second free of a frame is rejected |
| `Paging.PageAtIs` | kernel/proc/process.c:271 | the i-th page address on 32 bits is the i-th page after the first, modulo 2^20 |
| `PageRuns.StepExact` | kernel/mm/paging.c:141-199 | every call leaves directory and tables in place, and keeps their frames in use if and only if it unmaps none of them |
| `PageRuns.RunKeepsTables` | kernel/mm/paging.c:141-199 | so does every run that unmaps none of them |
| `PageRuns.EveryRun` | kernel/proc/process.c:254-300 | after init_paging and any such run, mmap fails if and only if fewer frames than pages are free, and munmap undoes it exactly |
| `PageRuns.KeptNeverHandedOut` | kernel/mm/paging.c:40-58 | in those states alloc_frame never returns frame 0, the directory or a table |
| `PageRuns.DirectoryGivenAway` | kernel/mm/paging.c:187-191 | after unmap_page(0x100000) the next alloc_frame returns the frame of the directory |
| `ProcessTable.TurnComes` | kernel/proc/process.c:144-150 | a READY process becomes current after exactly as many calls as there are READY processes up to it in ring order |
| `ProcessTable.TurnsInRingOrder` | kernel/proc/process.c:144-150 | turns come in ring order |
| `ProcessTable.TurnIsBounded` | kernel/proc/process.c:144-150 | and within as many calls as there are READY processes |
| `ProcessTable.BoundedWaiting` | kernel/proc/process.c:136-178 | the same for schedule under round robin and FCFS on any valid table |
| `ProcessTable.BestReadyIsBest` | kernel/proc/process.c:152-164 | the scan keeps the first READY process of least priority value |
| `ProcessTable.PriorityPicksLeast` | kernel/proc/process.c:152-164 | it selects the READY process least in (priority value, pid), none if and only if none is READY |
| `ProcessLaws.PriorityRuns` | kernel/proc/process.c:152-177 | under the priority policy schedule makes current a READY process that no READY one precedes in (priority value, pid); with none READY the current process stays |
| `ProcessLaws.PriorityRunsAlways` | kernel/proc/process.c:152-177 | the same after every run from boot that hands out fewer than 2^32 pids |
| `ProcessLaws.RoundRobinRuns` | kernel/proc/process.c:144-177 | otherwise the first READY process after the current one round the ring, the current one itself if there is no other |
| `ProcessLaws.OthersStay` | kernel/proc/process.c:111-221 | only schedule switches the current process and only set_scheduler_type the policy |
| `ProcessLaws.CreatedRunsFirst` | kernel/proc/process.c:64-108 | a new process is the last of the ring and READY, with the next pid and the priority asked for, and under the priority policy runs next if its value is the lowest |
| `ProcessLaws.CreatedHasTurn` | kernel/proc/process.c:64-108 | under round robin it has its turn within as many calls as there are READY processes |
| `ProcessTable.TerminateKeepsInv` | kernel/proc/process.c:181-209 | the ring stays increasing in pid with current in it if and only if the pid is 0 or not the current one |
| `ProcessTable.CurrentLost` | kernel/proc/process.c:200-201 | a run from boot after which terminating the current process leaves it in no ring |
| `ProcessTable.ScheduleKeepsInv` | kernel/proc/process.c:136-178 | schedule keeps it |
| `ProcessTable.CreateKeepsInv` | kernel/proc/process.c:64-108 | create_process keeps it if and only if it gets no control block or next_pid does not wrap |
| `ProcessTable.PidsRepeat` | kernel/proc/process.c:73 | once next_pid has wrapped, the next process gets the pid of the kernel process |
| `ProcessTable.TerminateRemoves` | kernel/proc/process.c:187-206 | exactly the process with the pid leaves, never the kernel process |
| `ProcessTable.RunKeepsInv` | kernel/proc/process.c:15-38 | the ring stays increasing in pid with current in it throughout a run if and only if fewer than 2^32 pids have been handed out |
| `ProcessTable.InvAtEnd` | kernel/proc/process.c:15-38 | in particular the ring and current are so at the end of such a run |
| `ProcessRing.Scheduler.constructor` | kernel/proc/process.c:41-61 | a ring of the kernel process alone |
| `ProcessRing.Scheduler.AddProcessToList` | kernel/proc/process.c:15-26 | the pointer updates append the process at the end of the ring, also to an empty one |
| `ProcessRing.Scheduler.RemoveProcessFromList` | kernel/proc/process.c:28-38 | they take exactly that process out, and the head moves on if it was the head |
| `ProcessRing.Scheduler.CreateProcess` | kernel/proc/process.c:64-108 | refines the creation step; a pid is used up once the control block exists; the state stays valid if and only if no pid was used or next_pid did not wrap |
| `ProcessRing.Scheduler.TerminateProcess` | kernel/proc/process.c:181-209 | refines the termination step; the state stays valid if and only if the process was not current |
| `ProcessRing.Scheduler.FindProcess` | kernel/proc/process.c:187-206 | the walk ends and finds the first process with the pid, if any |
| `ProcessRing.Scheduler.NextReady` | kernel/proc/process.c:146-149 | the search ends and finds the next READY process in ring order, or current |
| `ProcessRing.Scheduler.HighestPriority` | kernel/proc/process.c:154-163 | the walk ends and finds the least READY process |
| `ProcessRing.Scheduler.Schedule` | kernel/proc/process.c:136-178 | refines the scheduling step; current stays in the ring |
| `ProcessRing.Scheduler.SetSchedulerType` | kernel/proc/process.c:217-221 | refines the change of policy |
| `TaskSpec.ScheduleKeepsInv` | kernel/proc/sched.c:204-267 | after schedule there is a current task, in no queue, and queue i holds tasks of priority i, each once |
| `TaskSpec.KnownAfterSchedule` | kernel/proc/sched.c:215-266 | when the slice ran out the queued tasks plus current are the same; with slice left exactly those queued remain; with nothing queued only the new idle task |
| `TaskSpec.HighestPriorityRuns` | kernel/proc/sched.c:230-242 | the selected task has the highest queued priority; an expired one is selected again if and only if no strictly higher one is queued |
| `TaskSpec.ExitedTaskReturns` | kernel/proc/sched.c:276-290 | an exiting task stays known if and only if its slice runs out on that call, and then it is READY or RUNNING again, or nothing is queued and no idle task can be allocated |
| `TaskSpec.CreateKeepsInv` | kernel/proc/sched.c:134-201 | create_task keeps the queues, whichever allocation fails |
| `TaskSpec.KnownAfterCreate` | kernel/proc/sched.c:134-201 | exactly the new task is added, at the head of its queue, and only for a priority in range and successful allocations |
| `TaskSpec.ScheduleAccounts` | kernel/proc/sched.c:210-212 | each effective call adds one tick to the runtimes of all tasks ever created, less 2^32 when a counter wraps |
| `TaskSpec.StepKeepsInv` | kernel/proc/sched.c:134-290 | each call keeps queues, slices and current |
| `TaskSpec.RunKeepsInv` | kernel/proc/sched.c:134-290 | so does every run from such a state |
| `TaskSpec.RunAccounts` | kernel/proc/sched.c:210-212 | over every run the runtimes sum to the number of effective calls less 2^32 for each wrap |
| `TaskSpec.BootedKeepsInv` | kernel/proc/sched.c:85-131 | a successful sched_init establishes them |
| `TaskSpec.EveryRun` | kernel/proc/sched.c:85-290 | over every run from sched_init: queue i holds tasks of priority i, each once; 1 to 10 ticks of slice; current never NULL and in no queue after the first schedule; runtimes summing to the number of effective calls less 2^32 for each wrap |
| `TaskTicks.ChargedKeepsTens` | kernel/proc/sched.c:210-217 | one tick keeps runtime plus slice a multiple of ten if and only if the counter does not wrap |
| `TaskTicks.RuntimePlusSlice` | kernel/proc/sched.c:210-217 | over every run, runtime plus slice of a task is a multiple of ten if and only if its counter wrapped a multiple of five times |
| `TaskTicks.NoWrapYet` | kernel/proc/sched.c:210-217 | within 2^32 effective calls no counter wraps, runtimes sum to the number of calls and runtime plus slice is a multiple of ten |
| `TaskLoss.NoSliceRunsOut` | kernel/proc/sched.c:212-225 | over every run in which idle tasks can be allocated the current task has at least nine ticks left, so no task is ever requeued |
| `TaskLoss.OneTurnEach` | kernel/proc/sched.c:227-266 | with slice left and no creation the queued tasks become current one call each, highest priority first, and are then forgotten |
| `TaskLoss.LastOneKnown` | kernel/proc/sched.c:227-266 | after as many calls as tasks were queued only the last of them is known |
| `TaskLoss.OnlyIdleKnown` | kernel/proc/sched.c:244-251 | and after one more only the new idle task |
| `TaskLoss.SliceRunsDown` | kernel/proc/sched.c:244-251 | with nothing queued and no idle task to be had, the current task stays and uses up its slice |
| `TaskLoss.ExitedAndBack` | kernel/proc/sched.c:276-290 | a run from sched_init in which a task exits and is running again after the call |
| `TaskLaws.CreateOutright` | kernel/proc/sched.c:134-201 | a priority below 16 and successful allocations give a READY task with the next pid, a slice of 10 and no runtime at the head of its queue; otherwise at most the pid is used up |
| `TaskLaws.SliceLeft` | kernel/proc/sched.c:227-242 | with slice left the head of the highest nonempty queue runs and no other queue changes |
| `TaskLaws.NothingQueued` | kernel/proc/sched.c:244-251 | with nothing queued a new RUNNING idle task of pid 0 runs, or the outgoing task goes on |
| `TaskLaws.SliceOut` | kernel/proc/sched.c:215-242 | a task whose slice ran out runs on unless a higher priority is queued; else it waits at the head of its queue, READY |
| `TaskLaws.ScheduleRecords` | kernel/proc/sched.c:210-255 | the outgoing task gains one tick and loses one of its slice, or gets a new one of 10; the task dispatched is RUNNING; no other record changes |
| `TaskLaws.ExitedIsZombie` | kernel/proc/sched.c:276-290 | a task that exits with slice left is a zombie, and stays current if and only if there is nothing else to run |
| `TaskLaws.BootOutright` | kernel/proc/sched.c:85-131 | pid 0 of priority 0 is current and queued, pid 1 of priority 5 queued, and the first call of schedule runs the latter |
| `TaskQueues.Scheduler.Init` | kernel/proc/sched.c:85-131 | the queues hold idle at 0 and init at 5, with idle current |
| `TaskQueues.Scheduler.Enqueue` | kernel/proc/sched.c:219-222 | pushes the task at the head of its priority's list |
| `TaskQueues.Scheduler.ChargeCurrent` | kernel/proc/sched.c:210-225 | refines the tick and, at the end of the slice, the requeueing |
| `TaskQueues.Scheduler.Dequeue` | kernel/proc/sched.c:230-242 | the scan pops the head of the highest nonempty list, NULL if all are empty |
| `TaskQueues.Scheduler.CreateIdleTask` | kernel/proc/sched.c:34-82 | a new READY task of priority 0 with pid 0 |
| `TaskQueues.Scheduler.Schedule` | kernel/proc/sched.c:204-267 | refines one scheduling call, including the failure to make an idle task |
| `TaskQueues.Scheduler.TaskExit` | kernel/proc/sched.c:276-290 | refines marking the current task and scheduling |
| `TaskQueues.Scheduler.CreateTask` | kernel/proc/sched.c:134-201 | refines creation at the head of its queue; a bad priority changes nothing |
| `TaskQueues.Scheduler.TimerInterrupt` | kernel/proc/sched.c:293-296 | counts the tick modulo 2^32 and schedules |
| `Formatter.DigitsParse` | lib/kprintf.c:141-144 | decimal digits read back as the number, without leading zeros |
| `Formatter.DecimalExact` | lib/kprintf.c:130-163 | %d prints a numeral that reads back as the value if and only if it is not INT_MIN |
| `Formatter.DecimalCanonical` | lib/kprintf.c:130-156 | above INT_MIN the numeral has a minus sign for negative values only and no leading zero, and no numeral of the value is shorter |
| `Formatter.DecimalUnique` | lib/kprintf.c:130-156 | it is the only numeral of the value of that form |
| `Formatter.Numerals` | lib/kprintf.c:130-156 | -120, 0 and 32768 print as such, INT_MIN as "-(" |
| `Formatter.HexExact` | lib/kprintf.c:164-175 | %x prints 0x and eight digits that read back as the word |
| `Formatter.HexDigitAt` | lib/kprintf.c:170-173 | each digit is that of the word shifted right by four bits a place |
| `Formatter.ReversedAt` | lib/kprintf.c:150-155 | what a reversal holds at each index |
| `Formatter.ReverseBuffer` | lib/kprintf.c:150-155 | the swap loop reverses the digits in place and leaves the rest of the buffer |
| `Formatter.DigitLoop` | lib/kprintf.c:141-144 | the loop leaves the digits in reverse, at most 10 of them |
| `Formatter.FormatDecimal` | lib/kprintf.c:130-156 | the buffer holds the signed numeral, within its 32 characters |
| `Formatter.Put` | lib/kprintf.c:159-161 | copies as much of a text as fits |
| `Formatter.PutHex` | lib/kprintf.c:164-175 | the same for the hexadecimal digits |
| `Formatter.Snprintf` | lib/kprintf.c:117-208 | writes the first min(length, size - 1) characters of the unbounded rendering and a NUL, returns that count, and touches nothing outside |
| `ProcFs.PrefixesChain` | kernel/proc/procfs.c:93-94 | bounded pieces one after the other are the bounded concatenation |
| `ProcFs.Append` | kernel/proc/procfs.c:93-98 | one step of the chain extends the bounded prefix by the rendering, and the offset never reaches buf_size |
| `ProcFs.FieldsRender` | kernel/proc/procfs.c:93-94 | a format of tab-terminated fields prints those fields |
| `ProcFs.ConversionLaws` | lib/kprintf.c:164-195 | what %x, %c, %s with NULL and any other conversion character print before the rest of the format |
| `ProcFs.LineRenders` | kernel/proc/procfs.c:93-94 | the line format prints pid, state, name, priority and runtime |
| `ProcFs.AppendQueue` | kernel/proc/procfs.c:104-130 | the walk over one ready queue appends the line of each task in list order |
| `ProcFs.GeneratePs` | kernel/proc/procfs.c:61-134 | the buffer holds the longest prefix that fits of header, current task and all queued tasks, for every scheduler state |
| `ProcFs.GenerateMeminfo` | kernel/proc/procfs.c:25-46 | the buffer holds the longest prefix of the memory report that fits |
| `ProcStatus.FoundIsDetermined` | kernel/proc/procfs.c:142-166 | the search has one outcome, and finds nothing if and only if neither the current nor any queued task has the pid |
| `ProcStatus.FindInQueue` | kernel/proc/procfs.c:154-161 | finds the first task of one queue with the pid, NULL exactly when none has it |
| `ProcStatus.FindTask` | kernel/proc/procfs.c:142-166 | the current task, else the first in queue order |
| `ProcStatus.RenderOneWord` | kernel/proc/procfs.c:192-194 | a %x field between plain text prints 0x and eight digits there, whatever precedes it |
| `ProcStatus.GenerateStatus` | kernel/proc/procfs.c:137-200 | the buffer holds the longest prefix that fits of the nine lines of the task found, or of the line saying there is none |
| `ProcText.AsIntIsWord` | kernel/proc/procfs.c:93-94 | a 32-bit word is printed as the signed number of the same bits |
| `ProcText.StateWords` | kernel/proc/procfs.c:79-90 | the word for each state |
| `ProcText.LineSpelled` | kernel/proc/procfs.c:93-94 | a line is pid, state, name, priority and runtime in this order, each before a tab |
| `ProcText.PsSpelled` | kernel/proc/procfs.c:61-134 | the list has one line for each task the scheduler knows, the current one first and then the queues from priority 0 upwards |
| `ProcText.MeminfoSpelled` | kernel/proc/procfs.c:31-43 | the lines of the memory report |
| `ProcText.StatusSpelled` | kernel/proc/procfs.c:186-194 | the nine lines of the report on a task, with 0x twice before the three words |
| `RamFsTree.LooksEmptyIsExact` | kernel/fs/ramfs.c:316-320 | the two-pointer test accepts exactly the directories that hold nothing but "." and ".." |
| `RamFsTree.OneRealEntry` | kernel/fs/ramfs.c:206-252 | no inode has two real entries, and the root has none |
| `RamFsTree.ReachesRoot` | kernel/fs/ramfs.c:254-293 | the way up from inode to directory reaches the root from everywhere, so there are no cycles |
| `RamFsTree.FindIsFirst` | kernel/fs/ramfs.c:106-121 | the entry found is the first with the name |
| `RamFsTree.CreateKeepsInv` | kernel/fs/ramfs.c:206-252 | adding a real name keeps the tree: unique names, "." self, ".." parent, one real entry for each inode, children younger than their directory |
| `RamFsRuns.CreateExact` | kernel/fs/ramfs.c:206-252 | ramfs_create keeps the tree if and only if it does not make a dot entry in a directory lacking them |
| `RamFsRuns.MkdirExact` | kernel/fs/ramfs.c:255-293 | the same for ramfs_mkdir |
| `RamFsRuns.RmdirExact` | kernel/fs/ramfs.c:296-336 | ramfs_rmdir keeps the tree if and only if it does not remove the directory it was given |
| `RamFsRuns.RootRemoved` | kernel/fs/ramfs.c:305-333 | rmdir of "." right after ramfs_create_root removes the root |
| `RamFsRuns.UnlinkKeepsInv` | kernel/fs/ramfs.c:339-378 | ramfs_unlink always keeps the tree |
| `RamFsRuns.StepExact` | kernel/fs/ramfs.c:206-378 | which calls keep the tree, and that no others do |
| `RamFsRuns.RunKeepsInv` | kernel/fs/ramfs.c:206-378 | every run with names other than "." and ".." keeps the tree |
| `RamFsRuns.EveryRun` | kernel/fs/ramfs.c:69-103 | in particular after ramfs_create_root |
| `RamFsLaws.CreateOutright` | kernel/fs/ramfs.c:206-252 | a vacant name and successful allocations give an inode of the kind asked for, with the next number, entered at the end of the directory; otherwise at most the number is used up |
| `RamFsLaws.MkdirOutright` | kernel/fs/ramfs.c:255-293 | the same with a directory holding "." and "..", or holding nothing if only those could not be allocated |
| `RamFsLaws.RmdirOutright` | kernel/fs/ramfs.c:322-333 | a call that succeeds takes out one entry of the name, leaving the others in order, and its inode; one that fails changes nothing |
| `RamFsLaws.UnlinkOutright` | kernel/fs/ramfs.c:358-375 | the same for ramfs_unlink |
| `RamFsLaws.FreshOutright` | kernel/fs/ramfs.c:69-103 | the root alone, numbered 1, with both dot entries to itself |
| `RamFsLaws.OthersStay` | kernel/fs/ramfs.c:206-378 | inodes not removed keep number and kind, and their entries unless they are the directory the call was given |
| `RamFsNumbers.CreateNumbers` | kernel/fs/ramfs.c:48 | numbers stay distinct if and only if no inode has the number that is next |
| `RamFsNumbers.EveryRunNumbers` | kernel/fs/ramfs.c:48 | after any run that made at most 2^32 inodes the numbers are distinct |
| `RamFsNumbers.WrapRepeatsRoot` | kernel/fs/ramfs.c:48 | the next inode then gets the number of the root |
| `RamFsNumbers.NumbersRepeat` | kernel/fs/ramfs.c:220-230 | a run after ramfs_create_root that ends with two inodes of the same number |
| `RamFsPaths.CreateLookup` | kernel/fs/ramfs.c:206-252 | succeeds if and only if the name is new in a directory and both allocations succeed; then exactly that name is found differently |
| `RamFsPaths.MkdirLookup` | kernel/fs/ramfs.c:255-293 | the same, and the new directory has "." and ".." |
| `RamFsPaths.FailedMkdir` | kernel/fs/ramfs.c:266-274 | a failed mkdir leaves the inodes unchanged if and only if it did not fail on the dot entries alone |
| `RamFsPaths.RmdirLookup` | kernel/fs/ramfs.c:296-336 | succeeds if and only if the real name leads to a directory without real entries; removes exactly that inode and name |
| `RamFsPaths.UnlinkLookup` | kernel/fs/ramfs.c:339-378 | succeeds if and only if the name leads to a regular file; removes exactly that inode and name |
| `RamFsPaths.MkdirThenRmdir` | kernel/fs/ramfs.c:255-336 | restores everything but the inode counter, also when the dot entries failed |
| `RamFsPaths.CreateThenUnlink` | kernel/fs/ramfs.c:206-378 | restores everything but the inode counter |
| `RamFsPaths.PathTo` | kernel/fs/ramfs.c:106-121 | every inode is found from the root by a path of real names |
| `RamFsPaths.PathIsUnique` | kernel/fs/ramfs.c:106-121 | and by only one |
| `RamFile.RoundUpCovers` | kernel/fs/ramfs.c:174 | the new capacity is a multiple of 4096 that covers the size, or 0 exactly for size 0 or above 2^32 - 4096 |
| `RamFile.StaysInside` | kernel/fs/ramfs.c:170-194 | a write that succeeds stays inside its buffer if and only if offset plus count is below 2^32 |
| `RamFile.WrapsOutside` | kernel/fs/ramfs.c:170-194 | eight bytes at 0xFFFFFFFC into an empty file get a buffer of 4096 bytes and are copied outside it |
| `RamFile.WriteKeepsInv` | kernel/fs/ramfs.c:161-203 | size at most capacity, capacity a multiple of 4096, neither shrinks, and a failed write changes nothing |
| `RamFile.WriteSucceeds` | kernel/fs/ramfs.c:170-180 | a write succeeds if and only if the end fits the buffer or the heap serves at most 2^32 - 4096 bytes; one that fails changes nothing |
| `RamFile.WriteSizes` | kernel/fs/ramfs.c:174-200 | the size is then the greater of itself and the end, the capacity unchanged or the least number of pages that holds the end |
| `RamFile.WriteBytes` | kernel/fs/ramfs.c:194 | the bytes of the buffer lie at the offset in order, all others are as before |
| `RamFile.ReadsReachEnd` | kernel/fs/ramfs.c:150-157 | reads with positive counts, one after the other, reach the end and never pass it; there a read returns 0 |
| `RamFile.NeverShrinks` | kernel/fs/ramfs.c:161-203 | the same for any prefix of any history |
| `RamFile.RunKeepsInv` | kernel/fs/ramfs.c:161-203 | every history keeps size, capacity and written bytes consistent |
| `RamFile.LastWriterWins` | kernel/fs/ramfs.c:161-203 | each byte holds what the latest successful write covering it has at that place of its buffer |
| `RamFile.WrittenByCall` | kernel/fs/ramfs.c:161-203 | and holds something only if a successful write covered it, from which it then comes |
| `RamFile.SizeCoversWrites` | kernel/fs/ramfs.c:196-200 | the size is at least the end of every successful write |
| `RamFile.SizeIsAnEnd` | kernel/fs/ramfs.c:196-200 | and is the end of one of them unless it is 0 |
| `RamFs.Inode.Read` | kernel/fs/ramfs.c:140-158 | returns 0 at or past the end, else the lesser of count and what is left, with each written byte at its latest value; -1 for other kinds |
| `RamFs.Inode.Write` | kernel/fs/ramfs.c:161-203 | the buffer update with growth refines the write of the value layer; the bytes of buf then lie at the offset in order; -1 exactly for other kinds or when the heap refuses, and then nothing changed |
| `RamFs.Inode.WriteThenRead` | kernel/fs/ramfs.c:140-203 | a read at the same place returns what was written |
| `RamFs.Inode.Grow` | kernel/fs/ramfs.c:172-191 | moving to a larger buffer keeps every written byte |
| `RamFs.FindEntry` | kernel/fs/ramfs.c:106-121 | the walk round the ring ends and finds the first entry with the name, NULL if there is none |
| `RamFs.Insert` | kernel/fs/ramfs.c:236-248 | the pointer updates append the entry at the end of the ring, also to an empty one |
| `RamFs.Remove` | kernel/fs/ramfs.c:322-329 | they take exactly that entry out, also the first or the only one |
| `RamFs.FileSystem.constructor` | kernel/fs/ramfs.c:69-103 | a root with "." and ".." leading to itself |
| `RamFs.FileSystem.Create` | kernel/fs/ramfs.c:206-252 | refines creation for every outcome of the allocations; all other rings stay as they are |
| `RamFs.FileSystem.Mkdir` | kernel/fs/ramfs.c:255-293 | refines mkdir, including the failure that leaves a directory without dot entries |
| `RamFs.FileSystem.Rmdir` | kernel/fs/ramfs.c:296-336 | refines rmdir; the tree stays valid if and only if the directory did not remove itself |
| `RamFs.FileSystem.IsEmptyDirectory` | kernel/fs/ramfs.c:310-320 | the pointer test next != prev is the test on the entries |
| `RamFs.FileSystem.Unlink` | kernel/fs/ramfs.c:339-378 | refines unlink and keeps the tree valid |
| `RamFs.FileSystem.Readdir` | kernel/fs/ramfs.c:381-414 | the walk copies the part of the name the offset falls in, at most count characters, and nothing else in the buffer changes |
| `RamFs.Locate` | kernel/fs/ramfs.c:394-411 | the walk ends and finds the entry in whose record the offset falls, none exactly past the end of the stream |
| `RamReaddir.ChunkIsStream` | kernel/fs/ramfs.c:394-413 | one call yields the stream of NUL-terminated names from the offset on; nothing if and only if count is 0 or the offset is past the end |
| `RamReaddir.ChunkExact` | kernel/fs/ramfs.c:397-406 | a call stops at the end of a name, and before it only when it has count characters |
| `RamReaddir.CollectedIsStream` | kernel/fs/ramfs.c:381-414 | repeated calls yield a prefix of the stream, whatever the counts |
| `RamReaddir.WholeDirectory` | kernel/fs/ramfs.c:381-414 | with positive counts they yield exactly the stream and then 0 |
| `RamReaddir.NamesOfStream` | kernel/fs/ramfs.c:397 | cutting the stream at its terminators gives back the names in ring order |

## Left out

- Boot code, context-switch assembly, CR0/CR3 and TLB effects, interrupt setup and saved registers: hardware effects; a switch is a change of the current pointer.
- Devices, shell, VGA, serial and keyboard code: input and output only.
- `kernel/fs/vfs.c`, `kernel/fs/tmpfs.c`, `kernel/loader/elf.c`, `kernel/syscall.c`, the libc files, `kernel/executor.c`, apps and sbin: path resolution and dispatch are stubs, so there is nothing hard to state.
- `kprintf` and the libc `printf`: the same conversions without a bound, plus device output.
- The load-average and descriptor files of procfs, and the slicing of a generated file in the proc_read functions: fixed text and one bounded copy.
- The contents of `lib/string.c` and `lib/mem.c`: used as primitives.
- Names longer than 255 characters, which `strcpy` would write past the field, and process or task names longer than their fields: excluded by the model's unbounded strings.
- A directory whose names exceed 2^32 bytes: its entries would not fit the heap of 16 MB.
- The failure paths of `sched_init`, `init_process_management` and `ramfs_create_root`: the model starts where they succeeded.
- Interrupts in the middle of a call: calls are atomic.
- HeapRuns.RunKeepsInv: frees are of NULL or of a block of the list; what `kfree` does with any other pointer depends on stray memory.
- KernelHeap.KHeap.Kmalloc: for requests above 2^32 - 24 it states what is returned and that the block is too small, not the damaged list that follows.
- RamFs.Inode.Write: requires a range that does not wrap; beyond it the code writes outside the buffer, as RamFile.StaysInside states.
- RamFile.LastWriterWins: the writes of the history do not wrap; see RamFile.StaysInside for those that do.
- Paging.AddressSpace.InitPaging: the bitmap is kept in separate storage, which is what the code does only if the bitmap lies outside frames 256 to 1280; Frames.FrameAllocator.InitPagingAsPlaced says what happens where the source puts it.
- RamFs.Inode.Read: bytes in gaps that no write covered have no specified value.
- Formatter.Snprintf: requires size at least 1 and arguments that match the format, and excludes a format ending in a lone percent sign, where the code reads past the string.
