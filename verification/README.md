# The uCore kernel, modelled and proved in Dafny

uCore is a small x86 teaching kernel written in C. This project models the parts of
it whose correctness rests on invariants that span several functions, and proves what
those parts promise: that the monitor admits one process at a time, that swapping cannot
be seen in the contents of memory, that a two-level page table is a map, that a file is
a sequence of bytes, that allocators hand out disjoint memory and lose none, that timers
fire on the tick they were set for, and so on.

Pointer structures that the C code changes in place are classes with `modifies` clauses.
A linked list is a `seq` field, or a set of pointer maps where the pointers themselves
are the point (process relations, the ring of `malloc`, the skew heap). A protocol whose
steps interleave is a state machine over its atomic steps. Machine widths are written out
where they matter: 32-bit sums that wrap, signed comparisons, page-table words. Each
imperative method is proved against a function of the old state or states its result
outright; what is hard is then proved about those functions.

| file | part of the kernel |
|---|---|
| `Semaphores.dfy`, `Monitor.dfy`, `MonitorSteps.dfy`, `MonitorRuns.dfy`, `Counting.dfy` | semaphores with direct hand-off, the Hoare monitor |
| `Table.dfy`, `PhilosophersSemaphore.dfy`, `PhilosophersMonitor.dfy` | both dining-philosophers solutions, for any number of them |
| `Paging.dfy`, `PageTable.dfy` | page-table entries, the two-level table, reference counts, `copy_range` |
| `Swap.dfy` | page faults and FIFO swapping for one address space |
| `Areas.dfy`, `Vmm.dfy`, `Brk.dfy` | the list of virtual memory areas, `mm_map`, `mm_unmap`, permission checks, `do_brk` |
| `Bitmap.dfy`, `SfsLayout.dfy`, `Sfs.dfy` | the SFS free map, block map, reading, writing, truncating, reclaiming |
| `Heap.dfy`, `Malloc.dfy` | the user-level `malloc` and `free` |
| `Runs.dfy`, `FirstFit.dfy` | the first-fit allocator of physical pages |
| `SkewHeap.dfy` | the skew heap with parent pointers, comparison of strides |
| `Pid.dfy`, `Family.dfy`, `ProcTree.dfy`, `Processes.dfy` | process identifiers, fork, exit, wait |
| `Timer.dfy`, `RoundRobin.dfy` | the timer list, the scheduler |
| `Elf.dfy` | loading one program segment |
| `Wrappers.dfy` | what several modules share: optional results, bytes, 32-bit arithmetic, lists, process states |

## Where the code keeps less than one might expect

Each of these is a proved statement about the code as it is: the exact condition, in terms a
caller could check before the call, and a concrete input on which the code falls short.

- **Swapping.** The contents of memory never depend on eviction. Replies do, for one kind
  of page: one that may be written but not read can be read while it is resident and not
  after it was evicted (`Swap.WriteOnlyPagesShowEviction`, an if-and-only-if;
  `Swap.EvictionShows`, such a page).
- **`mm_unmap`, `mm_map`.** `find_vma` only finds an area that contains the address. A range
  that starts in a hole is therefore left alone by `mm_unmap` even if areas follow in it. The
  result is the old map without the range exactly if the range starts in an area or meets none
  (`Vmm.Mm.MmUnmap`). For the same reason `mm_map` runs into the overlap assertion of
  `insert_vma_struct` exactly if a range starts in a hole and meets an area later
  (`Vmm.Mm.MmMap`). `Vmm.AreaBehindHole` is such a range.
- **`do_brk`.** Growing the heap extends the area that ends at the old end without a look at
  what follows. The areas stay disjoint exactly if the new part of the heap was a hole
  (`Brk.Space.DoBrk`); `Brk.HeapGrowsOverArea` is a heap that grows over another area.
  `mm_brk` unmaps a range that starts in an area before it knows that there is memory for a
  new one; without it the range stays unmapped (`Brk.Space.MmBrk`).
- **`default_init_memmap`.** The new block always goes to the end of the list. The list stays
  sorted exactly if it was and the block is above all others (`FirstFit.Manager.InitMemmap`).
- **`malloc`.** The size plus 63 is computed in 32 bits. The block holds the request exactly
  if the request is at most 4 GB less 64 bytes (`Malloc.UnitsSuffice`); larger requests get a
  block without room (`Malloc.LargestRequestsGetNothing`). The end of the heap that `malloc`
  asks for is a 32-bit sum, too. When it wraps and lands inside the heap, the kernel takes it
  for a wish to shrink and unmaps memory that is in use. `Malloc.KeepsHeap` is the exact
  condition under which a request leaves the heap mapped, `Malloc.HugeRequestUnmapsTakenBlock`
  a request that does not. When the heap grows and the new memory neither fuses with the last
  free block nor follows the node where the search began, the search comes back to that node
  first and asks a second time. If the kernel refuses then, the request fails although the
  first extension had made room (`Malloc.RefusedInSpiteOfRoom`), and the second end may wrap
  where the first did not (`Malloc.SecondRequestUnmaps`). `Malloc.Served` is the exact
  condition for success.
- **Stride comparison.** It is a total preorder on a set of strides exactly if they lie within
  some half of the 32-bit range (`SkewHeap.OrderedInWindow`). In every longer window two strides
  come before each other (`SkewHeap.LongerWindowIsNot`).
- **SFS.** A write that starts inside the block after the last one, when that block cannot be
  had, moves the size of the file beyond its blocks. Exactly then a file that lay in its
  blocks no longer does (`Sfs.LeavesGap`, proved for `Sfs.Sfs.Io`; `Sfs.WriteLeavesGap`, the
  smallest case). In such a file a read creates the missing block. An enlargement that fails
  halfway keeps its new blocks. If the file was empty, it then has size zero and blocks, and
  `sfs_truncfile` and with it `sfs_reclaim` fail an assertion
  (`Sfs.FailedGrowthBlocksReclaim`, `Sfs.GrowthCanFail`).
- **ELF.** A segment without bytes in the file is skipped even if it has a size in memory. That
  is right exactly if its range, rounded to pages, is empty (`Elf.SkippedSegment`); `Elf.ZerosAreNotLoaded` is
  a page of zeros that is missing.
  `mm_map` computes the end of a segment in 32 bits and accepts one whose end wraps around
  into its own first page (`Elf.WrappedHeaderIsAccepted`). An accepted segment is loaded as
  PT_LOAD asks exactly if its size is at most 4 GB less the offset of its start in the page,
  the file has its bytes and all its pages can be had (`Elf.Loader.LoadSegment`). Otherwise
  nothing may be loaded without an error, or a `memset` of about 4 GB starts
  (`Elf.WrappedOutcome`).

## Model

| member | source | states |
|---|---|---|
| `Semaphores.Semaphore.constructor` | ucore_os/kern/sync/sem.c:10-14 | a new semaphore has the given value and nobody waits |
| `Semaphores.Semaphore.Up` | ucore_os/kern/sync/sem.c:16-33 | the first waiter is woken and the value stays 0, or the value grows by one exactly if nobody waits; value > 0 implies an empty queue before and after |
| `Semaphores.Semaphore.Down` | ucore_os/kern/sync/sem.c:35-60 | passes exactly if the value is positive, else the caller queues last |
| `Semaphores.Semaphore.TryDown` | ucore_os/kern/sync/sem.c:73-83 | succeeds exactly if the value is positive and never touches the queue |
| `Semaphores.RunIsFifo` | ucore_os/kern/sync/sem.c:16-60 | over any run, the released units go to the acquirers in the order they arrived, none lost and none made up |
| `MonitorSteps.InitHasInv` | ucore_os/kern/sync/monitor.c:7-23 | monitor_init establishes the monitor's invariant |
| `MonitorSteps.EnterKeepsInv` | ucore_os/kern/sync/check_sync.c:182-182 | taking the monitor's mutex keeps the invariant |
| `MonitorSteps.SignalPostKeepsInv` | ucore_os/kern/sync/monitor.c:26-53 | cond_signal handing the monitor to a waiter keeps the invariant |
| `MonitorSteps.SignalBlockKeepsInv` | ucore_os/kern/sync/monitor.c:26-53 | the signaller going to sleep on next keeps the invariant |
| `MonitorSteps.SignalReturnKeepsInv` | ucore_os/kern/sync/monitor.c:26-53 | the signaller coming back keeps the invariant |
| `MonitorSteps.WaitPostKeepsInv` | ucore_os/kern/sync/monitor.c:57-83 | cond_wait giving the monitor to a signaller or to the mutex keeps the invariant |
| `MonitorSteps.WaitBlockKeepsInv` | ucore_os/kern/sync/monitor.c:57-83 | the waiter going to sleep keeps the invariant |
| `MonitorSteps.WaitReturnKeepsInv` | ucore_os/kern/sync/monitor.c:57-83 | the waiter coming back keeps the invariant |
| `MonitorSteps.LeaveKeepsInv` | ucore_os/kern/sync/check_sync.c:195-198 | leaving through next or mutex keeps the invariant |
| `MonitorSteps.StepKeepsInv` | ucore_os/kern/sync/monitor.c:26-83 | every atomic step of every process keeps the invariant |
| `MonitorRuns.RunKeepsInv` | ucore_os/kern/sync/monitor.c:26-83 | the invariant holds in every state of every interleaving |
| `MonitorRuns.MutualExclusion` | ucore_os/kern/sync/monitor.c:26-83 | in every reachable state mutex, next and all condition values plus the active processes make exactly 1; at most one process is active; next_count and the cv counts equal the signallers and waiters |
| `MonitorRuns.QuiescentMonitorIsFree` | ucore_os/kern/sync/monitor.c:26-83 | when nobody can take a step the monitor is free and only condition waiters sleep: no wake-up is lost |
| `MonitorRuns.HoareHandOff` | ucore_os/kern/sync/monitor.c:26-53 | after a signal that finds a waiter, the next process inside the monitor is one that was waiting on that condition |
| `Table.Left` | ucore_os/kern/sync/check_sync.c:8-8 | the left neighbour on the circle, for any number of philosophers |
| `Table.Right` | ucore_os/kern/sync/check_sync.c:9-9 | the right neighbour on the circle |
| `Table.TestKeepsDistance` | ucore_os/kern/sync/check_sync.c:84-91 | the test lets nobody eat beside an eater, and who stays hungry has an eating neighbour |
| `Table.StopEatingKeepsDistance` | ucore_os/kern/sync/check_sync.c:102-109 | whoever stops eating breaks nothing |
| `PhilosophersSemaphore.NextKeepsInv` | ucore_os/kern/sync/check_sync.c:84-109 | every step of the semaphore solution keeps its invariant |
| `PhilosophersSemaphore.RunKeepsInv` | ucore_os/kern/sync/check_sync.c:84-109 | the invariant holds in every interleaving |
| `PhilosophersSemaphore.Safety` | ucore_os/kern/sync/check_sync.c:84-109 | no two neighbours eat, whoever came back from taking forks is eating, and with the mutex free every hungry philosopher has an eating neighbour |
| `PhilosophersSemaphore.SleepersHaveAnEaterToWakeThem` | ucore_os/kern/sync/check_sync.c:93-109 | when nobody can move but the eaters, every sleeper waits for its fork and has a neighbour at the table who will test it |
| `PhilosophersMonitor.StepKeepsInv` | ucore_os/kern/sync/check_sync.c:169-217 | every step of the monitor solution keeps its invariant |
| `PhilosophersMonitor.RunKeepsInv` | ucore_os/kern/sync/check_sync.c:169-217 | the invariant holds in every interleaving |
| `PhilosophersMonitor.Safety` | ucore_os/kern/sync/check_sync.c:169-217 | the same safety statement for the monitor solution |
| `PhilosophersMonitor.SleepersHaveAnEaterToWakeThem` | ucore_os/kern/sync/check_sync.c:180-217 | the same for the monitor solution: no sleeper is forgotten |
| `Paging.PteWord` | ucore_os/kern/mm/pmm.c:593-616 | an entry gives back the frame and permission bits it was made of, and is present |
| `Paging.SplitPage` | ucore_os/kern/mm/pmm.c:365-414 | directory and table index together determine the page |
| `PageTable.Mmu.constructor` | ucore_os/kern/mm/pmm.c:365-414 | an empty table stands for the empty map |
| `PageTable.Mmu.AllocPage` | ucore_os/kern/mm/pmm.c:159-181 | a free frame with reference count 0, or nothing exactly if none is free |
| `PageTable.Mmu.FindTable` | ucore_os/kern/mm/pmm.c:365-414 | get_pte without create finds a table exactly if there is one |
| `PageTable.Mmu.GetPte` | ucore_os/kern/mm/pmm.c:365-414 | fails exactly if a table is missing and no frame is free; a new table changes no mapping and takes one frame |
| `PageTable.Mmu.Entry` | ucore_os/kern/mm/pmm.c:365-414 | the walk of directory and table agrees with the flat map |
| `PageTable.Mmu.DropRef` | ucore_os/kern/mm/pmm.c:436-473 | one reference less, and the frame is freed with the last one |
| `PageTable.Mmu.PageRemovePte` | ucore_os/kern/mm/pmm.c:436-473 | removes exactly this mapping and its reference |
| `PageTable.Mmu.PageInsert` | ucore_os/kern/mm/pmm.c:593-616 | the flat map gets exactly this entry, or nothing changes; exactly the frames that lost their last mapping become free, also when a page is mapped over itself, and but for one new page table no frame stops being free |
| `PageTable.Mmu.PageRemove` | ucore_os/kern/mm/pmm.c:576-583 | the flat map loses exactly this entry, and exactly the frames without a mapping are freed |
| `PageTable.Mmu.UnmapRange` | ucore_os/kern/mm/pmm.c:475-494 | the flat map loses exactly the range, skipping missing tables misses nothing, and exactly the frames without a mapping are freed |
| `PageTable.SettledSweep` | ucore_os/kern/mm/pmm.c:475-494 | the sweep up to a page and the step to the next one add up, across skipped tables |
| `PageTable.Mmu.CopyPage` | ucore_os/kern/mm/pmm.c:534-571 | a present page gets a frame of its own with equal bytes and user bits; it takes one frame, two with a new page table, and fails exactly if fewer are free: without memory if none is left for the table, else in the assertion |
| `PageTable.Mmu.CopyRange` | ucore_os/kern/mm/pmm.c:520-573 | on success the target has exactly the source's present pages of the range with equal bytes and user bits, on frames of its own; it succeeds exactly if every page finds enough frames, counting those that replaced pages of the target give back; otherwise the page it stops at and the kind of failure; no mapping and no byte outside the range of the target changes, and none of its pages that the source does not have |
| `PageTable.GainNext` | ucore_os/kern/mm/pmm.c:534-571 | replacing a page of the target gives back exactly the frames that lose their last mapping with it, once each |
| `PageTable.FreshTarget` | ucore_os/kern/mm/pmm.c:520-573 | for a target without those pages: enough exactly if one frame for each present page and one for each missing page table are free |
| `Swap.EvictIsInvisible` | ucore_os/kern/mm/swap.c:76-115 | evicting the victim changes no page's contents, slots of different pages stay apart, and the victim is the page that has been resident longest |
| `Swap.TakeKeepsGood` | ucore_os/kern/mm/pmm.c:159-181 | taking a free frame keeps the invariant |
| `Swap.SwapInRestores` | ucore_os/kern/mm/swap.c:117-133 | the slot of a page holds what the page contains |
| `Swap.BringInIsLocal` | ucore_os/kern/mm/vmm.c:581-613 | mapping a frame for a page changes that page alone |
| `Swap.StoreIsLocal` | ucore_os/kern/mm/vmm.c:581-613 | a store changes its page alone |
| `Swap.WriteOnlyPagesShowEviction` | ucore_os/kern/mm/vmm.c:471-618 | eviction changes the reply to a read exactly if the page may not be read |
| `Swap.EvictionShows` | ucore_os/kern/mm/vmm.c:471-618 | a page that may only be written is readable before its eviction and not after it |
| `Swap.Pager.constructor` | ucore_os/kern/mm/swap.c:54-57 | an address space without resident pages |
| `Swap.Pager.Evict` | ucore_os/kern/mm/swap.c:76-115 | one round of swap_out: the first page of the FIFO list goes to its slot |
| `Swap.Pager.SwapOut` | ucore_os/kern/mm/swap.c:76-115 | frees the oldest pages in order, and no content changes; it stops before n pages only when the oldest page cannot be evicted |
| `Swap.Pager.AllocPage` | ucore_os/kern/mm/pmm.c:159-181 | a frame nobody uses, at the price of evictions only; none exactly if no frame is free and the oldest page cannot be evicted |
| `Swap.Pager.BringIn` | ucore_os/kern/mm/swap_fifo.c:44-57 | the page becomes resident at the end of the FIFO list |
| `Swap.Pager.DoPgfault` | ucore_os/kern/mm/vmm.c:471-618 | refused exactly if the area does not allow the access; else the page is resident with the contents it had, and no other page changes; out of memory only with no frame free and no page to evict |
| `Swap.Pager.Touch` | ucore_os/kern/mm/vmm.c:471-618 | an access faults the page in if needed, with the same guarantees, and is out of memory only then |
| `Swap.Pager.Read` | ucore_os/kern/mm/vmm.c:471-618 | returns the contents of the page and changes no contents; panics only when memory and swap are used up |
| `Swap.Pager.Write` | ucore_os/kern/mm/vmm.c:471-618 | changes exactly the byte written; panics only when memory and swap are used up |
| `Swap.Pager.Serve` | ucore_os/kern/mm/vmm.c:471-618 | one access, seen on a flat map from pages to contents; panics only when memory and swap are used up |
| `Swap.Pager.Run` | ucore_os/kern/mm/vmm.c:471-618 | every run of accesses is explained by a flat memory that changes by its stores alone, whatever is evicted meanwhile; it stops early only when memory and swap are used up |
| `Vmm.Mm.Scan` | ucore_os/kern/mm/vmm.c:105-117 | the scan finds the area that contains the address, exactly if there is one |
| `Vmm.Mm.FindVma` | ucore_os/kern/mm/vmm.c:95-125 | the cached lookup agrees with the scan |
| `Vmm.Mm.FindPlace` | ucore_os/kern/mm/vmm.c:137-170 | where an area belongs in the list |
| `Vmm.Mm.InsertVma` | ucore_os/kern/mm/vmm.c:137-170 | the overlap assertions pass exactly if the area meets no other; then it is in its place and the list stays sorted, disjoint and counted |
| `Vmm.Mm.RemoveVma` | ucore_os/kern/mm/vmm.c:683-693 | the area leaves the list, and the cache if it was there |
| `Vmm.Mm.MmMap` | ucore_os/kern/mm/vmm.c:187-220 | the exact conditions of success, refusal and assertion failure, 32-bit end address included; success maps exactly the range |
| `Vmm.Mm.SplitVma` | ucore_os/kern/mm/vmm.c:726-738 | an area with the range strictly inside becomes two |
| `Vmm.Mm.Detach` | ucore_os/kern/mm/vmm.c:740-752 | exactly the areas that meet the range leave the list, in order |
| `Vmm.Mm.ReattachAll` | ucore_os/kern/mm/vmm.c:754-781 | what sticks out of the range goes back, and no assertion fails |
| `Vmm.Mm.MmUnmap` | ucore_os/kern/mm/vmm.c:709-783 | exact error conditions, never an assertion failure; for a range that starts in an area the result is the old map from addresses to flags without the range, and unmap_range is called on exactly the removed addresses; the result is right exactly if the range starts in an area or is a hole |
| `Vmm.AreaBehindHole` | ucore_os/kern/mm/vmm.c:709-724 | a range that starts in a hole and runs into an area: leaving it alone is not unmapping it |
| `Areas.UnmappedMeaning` | ucore_os/kern/mm/vmm.c:709-783 | cutting a range out of a list of areas removes exactly its addresses |
| `Areas.ClipsExact` | ucore_os/kern/mm/vmm.c:754-781 | the ranges passed to unmap_range are exactly the mapped addresses of the range |
| `Areas.NeighboursSuffice` | ucore_os/kern/mm/vmm.c:128-170 | comparing with the two neighbours decides overlap with the whole list |
| `Vmm.Mm.UserMemCheck` | ucore_os/kern/mm/vmm.c:620-650 | true exactly if the range is a user range and every address of it lies in an area with the permission (for stack writes, above its first page) |
| `Vmm.UserMemCheck` | ucore_os/kern/mm/vmm.c:620-652 | the same, and for a kernel thread true exactly for ranges of kernel addresses |
| `Vmm.CopyString` | ucore_os/kern/mm/vmm.c:654-680 | succeeds exactly if a terminated string shorter than the limit lies in readable memory, and then copies it through its terminator; for a kernel thread, which has no address space, readable means kernel memory |
| `Brk.StretchedSorted` | ucore_os/kern/mm/vmm.c:236-242 | extending an area keeps the list sorted and disjoint exactly if nothing is mapped in the way |
| `Brk.StretchedMeaning` | ucore_os/kern/mm/vmm.c:236-242 | and then maps exactly the new range |
| `Brk.Space.MmBrk` | ucore_os/kern/mm/vmm.c:222-249 | exact conditions of every return code and of the assertion failure, for every range; the areas stay disjoint exactly if the range starts in an area or was a hole, and then exactly the range is mapped; without memory a range that started in an area may be left unmapped |
| `Brk.NothingSplits` | ucore_os/kern/process/proc.c:1315-1321 | where no area lies across the end of the heap, shrinking splits none, so mm_unmap cannot run out of memory there |
| `Brk.Space.DoBrk` | ucore_os/kern/process/proc.c:1282-1341 | the new end of the heap for every request, wherever the old one lies: unchanged, lower or higher, with the exact condition of each; what is mapped changes between the old and the new end alone, and rightly so exactly if the new part was a hole, or the old part starts in an area or is a hole |
| `Brk.HeapGrowsOverArea` | ucore_os/kern/process/proc.c:1322-1332 | a heap that grows over another area |
| `Bitmap.Bitmap.constructor` | ucore_os/kern/fs/sfs/bitmap.c:20-56 | exactly the bits below the size are free, padding bits never |
| `Bitmap.Bitmap.Alloc` | ucore_os/kern/fs/sfs/bitmap.c:59-81 | takes the lowest free bit, fails exactly if there is none |
| `Bitmap.Bitmap.Test` | ucore_os/kern/fs/sfs/bitmap.c:94-99 | tells whether the bit is free |
| `Bitmap.Bitmap.Release` | ucore_os/kern/fs/sfs/bitmap.c:102-108 | frees exactly this bit |
| `SfsLayout.RolesApart` | ucore_os/kern/fs/sfs/sfs_inode.c:223-445 | blocks named by inodes in different roles are different |
| `SfsLayout.EntryAfterPut` | ucore_os/kern/fs/sfs/sfs_inode.c:223-278 | a table entry reads back as written and the others stay |
| `SfsLayout.TakeKeepsInv` | ucore_os/kern/fs/sfs/sfs_inode.c:99-110 | allocating a block keeps ownership, counts and all files |
| `SfsLayout.GiveKeepsInv` | ucore_os/kern/fs/sfs/sfs_inode.c:116-121 | freeing a block nobody names keeps them too |
| `SfsLayout.GrowOnce` | ucore_os/kern/fs/sfs/sfs_inode.c:406-427 | a new last block is owned by the file alone, all zeros, and no file changes |
| `SfsLayout.GrowTwice` | ucore_os/kern/fs/sfs/sfs_inode.c:223-278 | the same when the table has to be created with it |
| `SfsLayout.UndoTake` | ucore_os/kern/fs/sfs/sfs_inode.c:272-277 | a table block taken in vain restores the free map |
| `SfsLayout.ShrinkKeepsInv` | ucore_os/kern/fs/sfs/sfs_inode.c:433-445 | dropping the last block keeps the invariant |
| `SfsLayout.ShrinkKeepsBytes` | ucore_os/kern/fs/sfs/sfs_inode.c:433-445 | and all bytes of all other blocks |
| `SfsLayout.WriteIsLocal` | ucore_os/kern/fs/sfs/sfs_io.c:110-124 | writing into a data block changes exactly the addressed bytes of one file |
| `SfsLayout.ReplacedContents` | ucore_os/kern/fs/sfs/sfs_inode.c:642-755 | seen as a sequence, the file has the data at the offset and is longer if need be; between the old end and the data it has what its last block held, or zeros |
| `SfsLayout.WrittenWithin` | ucore_os/kern/fs/sfs/sfs_inode.c:642-755 | for a write within or at the end of the file that is the old sequence with the data spliced in |
| `SfsLayout.PaidMore` | ucore_os/kern/fs/sfs/sfs_inode.c:406-427 | growing a file to t blocks takes t less the old number, and one more when it needs the table for the first time |
| `SfsLayout.OtherContents` | ucore_os/kern/fs/sfs/sfs_inode.c:642-755 | every other file contains what it contained |
| `SfsLayout.RemoveKeepsInv` | ucore_os/kern/fs/sfs/sfs_inode.c:1013-1020 | releasing the inode and table blocks keeps the invariant |
| `Sfs.Sfs.BlockAlloc` | ucore_os/kern/fs/sfs/sfs_inode.c:99-110 | the lowest free block, cleared and counted; fails exactly if there is none |
| `Sfs.Sfs.BlockFree` | ucore_os/kern/fs/sfs/sfs_inode.c:116-121 | the block is free and counted |
| `Sfs.Sfs.BmapGetSub` | ucore_os/kern/fs/sfs/sfs_inode.c:223-278 | the entry, or a new block and if need be a new table; fails exactly if too few blocks are free, and then the free map is as before |
| `Sfs.Sfs.BmapGet` | ucore_os/kern/fs/sfs/sfs_inode.c:290-334 | the same for direct and indirect indices, with the panic for indices out of range |
| `Sfs.Sfs.BmapLoad` | ucore_os/kern/fs/sfs/sfs_inode.c:406-427 | the block at an index, which exists exactly below the number of blocks; the one after the last is created with zeros, and no byte of any file changes |
| `Sfs.Sfs.MoveBlocks` | ucore_os/kern/fs/sfs/sfs_inode.c:684-745 | the three parts of a transfer move exactly the bytes from offset to end, or a prefix of them when blocks run out |
| `Sfs.GrowCodeIs` | ucore_os/kern/fs/sfs/sfs_inode.c:406-427 | the number of free blocks alone decides whether growing ends well, without memory or in the panic for files that are too large |
| `Sfs.ReadsSucceed` | ucore_os/kern/fs/sfs/sfs_inode.c:642-755 | a file that lies in its blocks can always be read |
| `Sfs.SizeAfterWrite` | ucore_os/kern/fs/sfs/sfs_inode.c:747-755 | the return code of a write from the free blocks before it; after it the file lies in its blocks exactly if the write did not leave a gap |
| `Sfs.WriteLeavesGap` | ucore_os/kern/fs/sfs/sfs_inode.c:747-755 | a write at offset 1 of an empty file on a full disk leaves size 1 and no block |
| `Sfs.SignedSum` | ucore_os/kern/fs/sfs/sfs_inode.c:642-656 | the 32-bit end position falls below the offset exactly if the sum does not fit |
| `Sfs.Sfs.IoNolock` | ucore_os/kern/fs/sfs/sfs_inode.c:642-755 | a read returns exactly the bytes of the file, and changes nothing if the file lies in its blocks; a write replaces exactly the bytes it reports, in this file alone, also when it stops early; every return code from the state before the call |
| `Sfs.Sfs.Io` | ucore_os/kern/fs/sfs/sfs_inode.c:762-778 | reads and writes act on a map from files to byte sequences, writes behind the end of the file included; every return code from the state before the call |
| `Sfs.Sfs.BmapFreeSub` | ucore_os/kern/fs/sfs/sfs_inode.c:340-359 | the entry is zero and its block free |
| `Sfs.Sfs.BmapFree` | ucore_os/kern/fs/sfs/sfs_inode.c:365-396 | the block at an index is detached and free |
| `Sfs.Sfs.BmapTruncate` | ucore_os/kern/fs/sfs/sfs_inode.c:433-445 | the last block of a file goes back and the invariant stays |
| `Sfs.Sfs.TruncFile` | ucore_os/kern/fs/sfs/sfs_inode.c:1074-1127 | every return code from the state before the call; the common prefix of the file is kept, exactly the blocks cut off become free, new blocks are zeros |
| `Sfs.Sfs.Reclaim` | ucore_os/kern/fs/sfs/sfs_inode.c:983-1028 | fails exactly for a file of size zero with blocks; else the file is gone, exactly its data blocks, table and inode become free, and no other file changes |
| `Sfs.FailedGrowthBlocksReclaim` | ucore_os/kern/fs/sfs/sfs_inode.c:1074-1127 | enlarging an empty file with too few free blocks fails halfway, and then reclaiming it fails an assertion |
| `Sfs.GrowthCanFail` | ucore_os/kern/fs/sfs/sfs_inode.c:1074-1127 | a disk on which that happens |
| `Heap.UnitsHaveOneBlock` | ucore_os/user/libs/malloc.c:42-146 | free and taken blocks partition the heap: every unit lies in exactly one block |
| `Heap.FreeKeepsInv` | ucore_os/user/libs/malloc.c:113-146 | free keeps the ring circular, sorted, complete and fully coalesced, and all other taken blocks as they are |
| `Heap.FreedLinks` | ucore_os/user/libs/malloc.c:123-143 | the pointers and sizes that free_locked writes are joining the ring and fusing with both neighbours |
| `Heap.TakeWholeKeepsInv` | ucore_os/user/libs/malloc.c:87-103 | taking a whole free block keeps the invariant |
| `Heap.TakePartKeepsInv` | ucore_os/user/libs/malloc.c:87-103 | taking the front of a free block keeps it too |
| `Heap.GrowKeepsInv` | ucore_os/user/libs/malloc.c:42-63 | extending the heap keeps it too |
| `Heap.GrowMeaning` | ucore_os/user/libs/malloc.c:42-63 | afterwards the last free block reaches the new end and has room for the request |
| `Malloc.UnitsSuffice` | ucore_os/user/libs/malloc.c:65-77 | the block holds the request exactly if the size is at most 4 GB less a header |
| `Malloc.LargestRequestsGetNothing` | ucore_os/user/libs/malloc.c:65-77 | the largest request gets one unit |
| `Malloc.DoBrkIsAnswer` | ucore_os/kern/process/proc.c:1282-1341 | the kernel's answer that the allocator works with is do_brk's, in units of a header |
| `Malloc.AnswerToRequest` | ucore_os/kern/process/proc.c:1302-1334 | asking for n units gives room for them, or changes nothing, or shrinks the heap, and that exactly if the sum wraps and lands inside the heap |
| `Malloc.HugeRequestUnmapsTakenBlock` | ucore_os/user/libs/malloc.c:52-56 | a heap and a request that unmaps most of a taken block, whatever room the kernel has |
| `Malloc.RefusedInSpiteOfRoom` | ucore_os/user/libs/malloc.c:84-110 | a request that fails although the first extension made room |
| `Malloc.SecondRequestUnmaps` | ucore_os/user/libs/malloc.c:84-110 | a request whose first end does not wrap, but whose second one unmaps memory in use |
| `Malloc.Allocator.constructor` | ucore_os/user/libs/malloc.c:22-23 | before the first call there is no heap |
| `Malloc.Allocator.FindPlace` | ucore_os/user/libs/malloc.c:117-123 | the walk ends at the node the block comes after, wherever it starts |
| `Malloc.Allocator.FreeLocked` | ucore_os/user/libs/malloc.c:113-146 | exactly this block becomes free, and the invariant stays |
| `Malloc.Allocator.Splice` | ucore_os/user/libs/malloc.c:123-143 | the pointers and sizes it writes |
| `Malloc.Allocator.Morecore` | ucore_os/user/libs/malloc.c:42-63 | extends the heap exactly if the kernel does, and says what the kernel has mapped when it does not |
| `Malloc.Allocator.Take` | ucore_os/user/libs/malloc.c:87-103 | exactly n units of the block become taken |
| `Malloc.Allocator.Search` | ucore_os/user/libs/malloc.c:84-110 | the loop ends after at most two extensions, and none if a free block is large enough; exact conditions of success and of leaving the heap mapped |
| `Malloc.Allocator.MallocLocked` | ucore_os/user/libs/malloc.c:65-111 | a new block of the requested units, disjoint from all taken ones, which stay as they are; exact conditions of success, of holding the request, and of leaving the heap mapped, for every request and every state of the kernel |
| `Runs.CanonicalIsUnique` | ucore_os/kern/mm/default_pmm.c:108-207 | a set of pages has exactly one list of maximal runs in order |
| `Runs.TotalIsSize` | ucore_os/kern/mm/default_pmm.c:108-207 | the lengths of the list add up to the number of free pages |
| `Runs.WithinOneRun` | ucore_os/kern/mm/default_pmm.c:126-159 | contiguous free pages lie within one block |
| `Runs.FirstFitIsLowest` | ucore_os/kern/mm/default_pmm.c:126-159 | the first block that fits starts at the lowest place where n pages are free |
| `Runs.InsertKeepsCanonical` | ucore_os/kern/mm/default_pmm.c:176-206 | merging and inserting gives the canonical list of the larger set, and the closing assertion cannot fail |
| `FirstFit.Manager.constructor` | ucore_os/kern/mm/default_pmm.c:102-106 | nothing is free |
| `FirstFit.Manager.InitMemmap` | ucore_os/kern/mm/default_pmm.c:109-123 | exactly this block becomes free, at the end of the list; the list stays canonical exactly if it was and the block is above all others with a gap |
| `FirstFit.Manager.AllocPages` | ucore_os/kern/mm/default_pmm.c:126-159 | the lowest n contiguous free pages, or nothing exactly if there are none; exactly those stop being free, the list stays canonical and nr_free its size |
| `FirstFit.Manager.FreePages` | ucore_os/kern/mm/default_pmm.c:162-207 | exactly these pages become free and the list stays canonical |
| `FirstFit.Manager.MergeOne` | ucore_os/kern/mm/default_pmm.c:176-193 | one round of the merging loop |
| `FirstFit.Manager.AllocThenFree` | ucore_os/kern/mm/default_pmm.c:126-207 | free after alloc restores the very same list |
| `SkewHeap.MergedNodes` | ucore_os/libs/skew_heap.h:31-64 | merging keeps exactly the nodes of both heaps, once each |
| `SkewHeap.Merge` | ucore_os/libs/skew_heap.h:31-64 | the pointers written in place form the merged tree, parents agreeing with children |
| `SkewHeap.Insert` | ucore_os/libs/skew_heap.h:67-72 | the same with one more node |
| `SkewHeap.Remove` | ucore_os/libs/skew_heap.h:75-93 | removing any node by its pointer leaves exactly the other nodes, properly linked |
| `SkewHeap.MergedOrdered` | ucore_os/libs/skew_heap.h:31-64 | merging keeps heap order |
| `SkewHeap.WithoutOrdered` | ucore_os/libs/skew_heap.h:75-93 | removing keeps heap order |
| `SkewHeap.RootIsLeast` | ucore_os/libs/skew_heap.h:31-93 | the root comes before every node |
| `SkewHeap.WindowIsOrdered` | ucore_os/kern/schedule/default_sched_stride_c:16-27 | within half of the range the wrap-around comparison orders strides as if they never wrapped |
| `SkewHeap.LongerWindowIsNot` | ucore_os/kern/schedule/default_sched_stride_c:16-27 | in every longer window two strides come before each other |
| `SkewHeap.OrderedInWindow` | ucore_os/kern/schedule/default_sched_stride_c:16-27 | a set of strides is ordered by the comparison exactly if it lies within some half of the range |
| `SkewHeap.RootHasLeastStride` | ucore_os/kern/schedule/default_sched_stride_c:16-27 | so the root of an ordered heap has the least stride, counted from the start of the window |
| `Pid.FewerThanProcesses` | ucore_os/kern/process/proc.c:208-247 | the search passes no more identifiers than there are processes |
| `Pid.Pids.Scan` | ucore_os/kern/process/proc.c:222-245 | the scan with its restarts ends at the first free identifier and bounds the next one in use |
| `Pid.Pids.GetPid` | ucore_os/kern/process/proc.c:208-247 | the first free identifier after the last one, around the circle; none in use lies between last_pid and next_safe |
| `Pid.Table.Fork` | ucore_os/kern/process/proc.c:496-579 | refused exactly with MAX_PROCESS processes, else a new unique identifier |
| `Pid.Table.Reap` | ucore_os/kern/process/proc.c:188-204 | reaping keeps what get_pid relies on |
| `Family.OneParent` | ucore_os/kern/process/proc.c:174-204 | a process is in the child list of its parent alone |
| `Family.ForkKeepsTree` | ucore_os/kern/process/proc.c:174-184 | set_links keeps all sibling lists well formed |
| `Family.MoveKeepsTree` | ucore_os/kern/process/proc.c:621-640 | so does one round of the reparenting loop, in spite of the stale younger-sibling pointer it leaves behind |
| `Family.RemoveKeepsTree` | ucore_os/kern/process/proc.c:188-204 | so does remove_links |
| `ProcTree.NoZombieParent` | ucore_os/kern/process/proc.c:585-646 | every listed process is in its parent's list and that parent is no zombie |
| `ProcTree.NoLostWakeup` | ucore_os/kern/process/proc.c:1026-1064 | whoever sleeps in do_wait has a child to wait for, and no child that is waited for is a zombie, be it any or one by its identifier |
| `ProcTree.WakeKeepsGood` | ucore_os/kern/schedule/sched.c:65-86 | waking anybody at any time keeps the invariant |
| `ProcTree.ForkKeepsGood` | ucore_os/kern/process/proc.c:496-579 | fork keeps the invariant of the process table |
| `ProcTree.DieKeepsGood` | ucore_os/kern/process/proc.c:608-620 | becoming a zombie and waking the parent keeps it, but for the children still to be moved |
| `ProcTree.AdoptKeepsGood` | ucore_os/kern/process/proc.c:621-640 | moving a child to init keeps it, init being woken for a zombie |
| `ProcTree.SleepKeepsGood` | ucore_os/kern/process/proc.c:1054-1064 | going to sleep in do_wait keeps it: nobody waits, for any child or for one, while that child is a zombie |
| `ProcTree.ReapKeepsGood` | ucore_os/kern/process/proc.c:1067-1084 | reaping a zombie keeps it |
| `Processes.Table.constructor` | ucore_os/kern/process/proc.c:174-184 | the idle process and init |
| `Processes.Table.WakeupProc` | ucore_os/kern/schedule/sched.c:65-86 | any process that is no zombie can be woken at any time, and the table stays sound |
| `Processes.Table.SetLinks` | ucore_os/kern/process/proc.c:174-184 | the pointers set_links writes |
| `Processes.Table.RemoveLinks` | ucore_os/kern/process/proc.c:188-204 | the pointers remove_links writes, the list and nr_process |
| `Processes.Table.Fork` | ucore_os/kern/process/proc.c:496-579 | the new process is the youngest child of the current one; nr_process is the list length plus one |
| `Processes.Table.Exit` | ucore_os/kern/process/proc.c:585-646 | the process is a zombie without children, its parent does not sleep in do_wait, and its children have become init's, in reversed order |
| `Processes.Table.FindZombie` | ucore_os/kern/process/proc.c:1044-1053 | the walk over the children finds a zombie exactly if there is one |
| `Processes.Table.Wait` | ucore_os/kern/process/proc.c:1015-1085 | reaps exactly if there is a zombie to reap, sleeps exactly if there is only a living child, fails exactly if there is no such child |
| `Timer.Timers.constructor` | ucore_os/kern/schedule/sched.c:52-63 | no timer is pending |
| `Timer.Timers.AddTimer` | ucore_os/kern/schedule/sched.c:116-138 | the new timer has the deadline now plus its ticks, behind those that expire no later, and no other deadline moves |
| `Timer.Timers.DelTimer` | ucore_os/kern/schedule/sched.c:141-161 | the timer is gone, if it was pending, and no other deadline moves |
| `Timer.Timers.RunTimerList` | ucore_os/kern/schedule/sched.c:164-199 | time advances by one and exactly the timers that are due fire, in order |
| `Timer.Timers.HeadIsNotZero` | ucore_os/kern/schedule/sched.c:172-173 | the assertion on the first difference cannot fail |
| `Timer.Timers.NoOverflow` | ucore_os/kern/schedule/sched.c:116-161 | no 32-bit difference or sum of neighbours overflows |
| `Timer.StepKeepsTimer` | ucore_os/kern/schedule/sched.c:116-199 | a pending timer keeps its deadline through every operation but its own deletion, and fires exactly when due |
| `Timer.PendingSinceAdded` | ucore_os/kern/schedule/sched.c:116-199 | over every run, a timer that is not deleted is pending with its deadline until then |
| `Timer.FiresOnTime` | ucore_os/kern/schedule/sched.c:116-199 | over every run, a timer added with t ticks and not deleted fires on exactly the t-th later tick |
| `Timer.FirstAddedFiresFirst` | ucore_os/kern/schedule/sched.c:116-199 | over every run, two timers that are due at the same tick and not deleted fire on it in the order they were added |
| `RoundRobin.Scheduler.constructor` | ucore_os/kern/schedule/sched.c:52-63 | only the idle process runs |
| `RoundRobin.Scheduler.Enqueue` | ucore_os/kern/schedule/default_sched.c:15-25 | at the tail, with a fresh slice if needed |
| `RoundRobin.Scheduler.WakeupProc` | ucore_os/kern/schedule/sched.c:65-86 | the process is runnable, and queued unless it is running or idle |
| `RoundRobin.Scheduler.Schedule` | ucore_os/kern/schedule/sched.c:88-114 | the running process queues if runnable, and the head of the queue, or the idle process, runs |
| `RoundRobin.Scheduler.ProcTick` | ucore_os/kern/schedule/default_sched.c:47-57 | one tick of the slice, and need_resched when it is used up |
| `RoundRobin.StepKeepsInv` | ucore_os/kern/schedule/sched.c:65-114 | every event keeps the queue holding exactly the runnable processes other than the running and the idle one, once each, with slices from 1 to the maximum |
| `RoundRobin.RunKeepsInv` | ucore_os/kern/schedule/sched.c:65-114 | so in every reachable state |
| `RoundRobin.RunsAfterItsTurn` | ucore_os/kern/schedule/sched.c:88-114 | whatever else happens, the process at index i gets the processor with exactly the (i + 1)-th call of schedule and not before |
| `RoundRobin.SliceRunsOut` | ucore_os/kern/schedule/default_sched.c:47-57 | after as many ticks as its slice a process must give up the processor |
| `Elf.Loader.LoadSegment` | ucore_os/kern/process/proc.c:740-819 | refused exactly as mm_map refuses; an accepted segment is loaded exactly if its end does not wrap into its first page, the file has its bytes and all its pages can be had, and then on exactly the pages that were mapped; what happens to the others |
| `Elf.Loader.CopyFromFile` | ucore_os/kern/process/proc.c:762-787 | the first loop loads the file's bytes across page boundaries; it copies nothing if their end wraps, and cannot end well if it lies on the last page of all |
| `Elf.Loader.ClearTail` | ucore_os/kern/process/proc.c:788-804 | the rest of the last page is zero and the assertion after it holds, exactly if the end is not before the bytes of the file; else the memset would run over the page |
| `Elf.Loader.ClearPages` | ucore_os/kern/process/proc.c:805-819 | the pages behind it are zero |
| `Elf.AcceptedRange` | ucore_os/kern/mm/vmm.c:187-195 | an accepted segment lies on exactly the pages mapped for it, or its end wraps around into its first page |
| `Elf.WrappedHeaderIsAccepted` | ucore_os/kern/mm/vmm.c:187-195 | such a header |
| `Elf.WrappedIsNotLoaded` | ucore_os/kern/process/proc.c:787-819 | a segment whose end wraps is not loaded |
| `Elf.SkippedSegment` | ucore_os/kern/process/proc.c:745-748 | a segment without bytes in the file whose first page is not there yet may be skipped exactly if its range, rounded to pages, is empty |
| `Elf.ZerosAreNotLoaded` | ucore_os/kern/process/proc.c:745-748 | a header of one page of zeros that mm_map would accept and that is skipped |
| `Elf.SegmentIsLoaded` | ucore_os/kern/process/proc.c:762-819 | addresses of the segment hold the file's bytes up to the file size and zeros up to the memory size |

## Left out

- Hardware: boot, trap entry, context switch, TLB flushes, drivers. Block and swap I/O always succeeds.
- Interrupt disabling: the bracketed regions are atomic steps, and interleaving happens between semaphore operations.
- Waking by signals: `__down` interrupted by do_kill (the return with wakeup flags) is not modelled; waiters are woken by `up` alone.
- The kernel half of the page directory, and sharing in copy_range (the share argument is not used by the code).
- Unmapping while pages are swapped out: page_remove_pte leaves swap entries and does not unlink frames from the FIFO list, so runs of the pager are made of accesses, faults and evictions.
- The swap managers other than FIFO, and swapping triggered by anything but allocation.
- dup_mmap and exit_mmap.
- SFS directories, mount and unmount (the on-disk checks), inode write-back and reference counting; inodes are the ones in memory.
- Zero-fill when a file is shrunk and enlarged again: the code keeps the old bytes of the last block, and only new blocks are zero.
- Malloc blocks of type 1 (shared memory), which nothing requests; what a program does after the kernel has unmapped part of its heap.
- kmalloc, whose allocator has the same shape as malloc.
- Page reference counts and the reserved flag of pages outside the first-fit list.
- The stride scheduler: its enqueue, dequeue and pick functions are empty exercises; only the comparison is modelled.
- Memory, files and stacks of processes in fork and exit, and the hash table behind find_proc, whose result is a parameter of `Wait`.
- do_kill and the exit of a killed process inside do_wait, except that anyone may be woken at any time (`WakeupProc`).
- The `runs` counters of processes and the warnings printed by wakeup_proc.
- The ELF header, the flags of a segment, brk_start, the user stack and arguments.
