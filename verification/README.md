# Proofs about the wandos kernel

A Dafny model of the memory, scheduling and in-memory storage layers of the wandos
kernel, and proofs about it. Each component is modelled twice. Code that changes things
in place is a class or a method, proved equal to a function on values; the properties are
lemmas about those functions and about every run built from them.

| files | component |
|---|---|
| `Bits`, `Sequences` | powers of two and exclusive or on machine words; lists and sets |
| `Buddy`, `BuddyTiling`, `BuddyRuns`, `BuddyCoalescing`, `BuddyLinks`, `BuddyAllocator`, `LeakyBuddy` | buddy page allocator and zone, its free lists as pointer chains, and the allocator under frees of a first page only |
| `RedBlack`, `VirtualMemoryTree` | rotations and fixups of the red-black tree |
| `PageTable`, `UserMemory`, `FrameZero`, `CopyOnWrite`, `CopyOnWriteRuns`, `PageManager` | two-level page tables, with and without frames enough, copy-on-write clone, page faults |
| `RunQueue`, `SmpScheduler`, `ProcessManager` | intrusive run queues and the round-robin scheduler |
| `Slab`, `SlabAllocator`, `Kmalloc`, `KernelHeap`, `PageHeap` | slab caches, kmalloc and kfree, alone and over the page allocator |
| `Mutex`, `MutexRuns` | sleeping mutex |
| `Cpio`, `MemFs`, `Initramfs`, `MemFile` | newc archive loader, file tree, lookups in a loaded archive, file contents |
| `HashList`, `Ext2` | page cache hash table and ext2 reads through it |
| `HexDump` | hex formatting and hexdump |

How the system is rendered:

- Addresses and page frames are natural numbers; 32-bit wrap-around is written out where
  the source relies on it or suffers from it (buddy addresses, hex fields, the cursor of the
  archive loader, time slices, the page count of large allocations, file capacities, the
  recursion count of the mutex).
- A pointer into memory that the component manages itself (slab pages, free objects,
  inodes) is its address; the links between them are maps from address to address.
  Red-black nodes, run-queue nodes and page-cache nodes are objects.
- What comes from outside is a parameter: pages and frames from the lower allocator, task
  ids, the bytes of the block device, the number of a new inode.
- Concurrent code is a step machine. A step is one section under the lock, and a run is
  any sequence of enabled steps of any participants.

Places where the code does not do what one would expect of it are kept as they are, with
the exact condition under which it does:

- the buddy allocator coalesces fully exactly when the mapped base is aligned to the initial
  block (`RestoresIffAligned`, and for the requests a zone lets through `ZoneRestoresIff`),
  and a zone stays in its region exactly when the initial block is no larger than that
  region (`StaysInRegionIff`); the kernel's own normal zone meets neither
  (`NormalZoneLimits`). The allocator's linked lists hold all free blocks exactly when the
  initial block does not contain address 0, at which a list ends (`LinkedIff`);
- mapping a range gives it the right page-table entries exactly when at most one table of
  it gets no frame: the first such table is put in frame 0, the second empties it
  (`MapManyFlatIff`);
- map_pages and unmap_pages count pages by the size alone: a size above 2^32 - 4096 counts as
  none (`NumPagesMeans`), and from an unaligned address on the last page is missed exactly when
  the last byte spills into it (`UnalignedIff`);
- no run of clones and page faults ever makes a frame that is writable at one user page
  visible at another as long as each step is covered: there is a free frame for everything it
  allocates, and a space to be cloned has no user table above 896 MB. Covered steps are exactly
  those that keep the invariant behind it, that tables are apart and free frames unused
  (`RunIsolatedIff`). The code skips the copy of such a table and leaves it in both directories
  (`SharesTableIff`, `CloneKeepsIff`), and it does not notice a failed allocation and uses
  frame 0 (`MapFreshKeepsIff`); two steps from a fresh address space can end with two spaces
  writing one frame (`FarTableRun`). A clone that shares a table breaks isolation at once
  exactly if the table maps a writable page (`CloneIsolatedIff`), and in any case at the next
  copy-on-write fault under it that finds a free frame (`FarTableFault`). On a machine whose free frames all lie below 896 MB only
  the want of frames is left (`FromLowFrames`);
- freeing into a slab keeps the three lists in order exactly when the slab has room for two
  objects or heads the full list (`FreeOkIff`). kmalloc and kfree reach the other case with
  2048-byte objects (`ListsKeptIff`, `SinglesOutOfOrder`); it spoils only the full list, from
  which nothing is ever handed out, so results never overlap whatever is freed
  (`Kmalloc.RunsNeverOverlap`);
- a slab whose page was refused goes to the mapping of physical page 0, so the heap stays in
  order and hands out nothing live exactly when that happens to no second slab while the first
  is there (`PageHeap.StepKeepsIff`); kfree of a large block hands back its first page and loses
  the others, which costs memory but never lets blocks overlap (`PageRunConserves`);
- a task waits no longer than 100 ticks for each task in front and 100 more exactly when the
  32-bit slice of the running task is at most 100 and not the least value, from which it wraps
  around (`BoundedWaitingIff`). From boot, other slices take 2^31 ticks and more to come about
  (`BoundedFromBoot`), and a lone idle task brings one about (`LateTask`);
- a large kmalloc block covers the request exactly when the rounded size does not wrap
  around (`LargeCovers`);
- the recursion count of the mutex is exact until a holder re-enters at depth 2^32 - 1
  (`DepthExactIff`);
- the archive loader ends with the entries of the archive exactly when the data of every entry
  it accepts ends below 2^32 (`LoadsIff`): otherwise its cursor wraps around and it can take
  the same header for ever (`LoopsForever`, `BackEntryLoops`);
- a file's buffer reaches the end of a write exactly when it did before or that end lies below
  2^31 (`CapacityCovers`);
- the loader hangs every entry of an initramfs under the root while lookups split paths at
  slashes, so the name of an entry finds it exactly when it is nonempty, has no slash and is
  not used again later (`LoadedIsFoundIff`);
- format_hex fills the width exactly when the precision does not exceed the digits or the width
  does not exceed prefix and precision (`HexTextMeans`): excess precision is counted twice;
- ext2 reads return the file exactly up to 268 blocks (`ReadsExt2Iff`, `BlockRightIff`): the code counts on 256
  block numbers in an indirect block of 4096 bytes, which holds 1024, and the double-indirect
  branch uses the block index where it needs a 256th of it.

## Model

| member | source | states |
|---|---|---|
| `Buddy.BuddyIsNeighbour` | kernel/memory/buddy_allocator.cpp:156-159 | the exclusive-or buddy of an address is the block just before or just after it, decided by one bit, and is its own inverse |
| `BuddyAllocator.GetBlockOrder` | kernel/memory/buddy_allocator.cpp:161-170 | the order is the least whose power of two reaches the page count; for 0 the decrement wraps around and the order is 32 |
| `BuddyAllocator.BuddyAllocator.constructor` | kernel/memory/buddy_allocator.cpp:7-45 | after the page information there is one free block, rounded up to a power of two |
| `BuddyAllocator.InfoBytesMeans` | kernel/memory/buddy_allocator.cpp:11-24 | the page information takes whole pages, has a descriptor for every page of the region, and wastes less than a page |
| `BuddyAllocator.BuddyAllocator.AllocatePages` | kernel/memory/buddy_allocator.cpp:47-110 | the search and split loops compute the allocation function on the free lists, failing with 0 and no change |
| `Buddy.AllocateFailsIff` | kernel/memory/buddy_allocator.cpp:50-69 | a request is refused if and only if its order is too large or every list from it on is empty |
| `Buddy.AllocateMeans` | kernel/memory/buddy_allocator.cpp:58-95 | otherwise it gets the first block of the smallest order that has one; each order in between gains exactly the upper half split off there, and no other list changes |
| `BuddyAllocator.BuddyAllocator.TryMergeBuddy` | kernel/memory/buddy_allocator.cpp:184-200 | succeeds exactly when the buddy is free at that order, and removes only it |
| `BuddyAllocator.BuddyAllocator.FreePages` | kernel/memory/buddy_allocator.cpp:112-154 | a page-aligned address of the region is released with merging, any other leaves the lists alone |
| `BuddyTiling.AllocateConserves` | kernel/memory/buddy_allocator.cpp:84-110 | splitting gives up exactly the block handed out, for every measure that is additive over halves |
| `BuddyTiling.ReleaseConserves` | kernel/memory/buddy_allocator.cpp:138-153 | merging adds exactly the block taken back, for every such measure |
| `BuddyRuns.RunConserves` | kernel/memory/buddy_allocator.cpp:47-154 | over every run, free and live blocks together measure what the initial block measures |
| `BuddyRuns.RunTiles` | kernel/memory/buddy_allocator.cpp:47-154 | over every run, each byte of the initial block is in exactly one free or live block, and no other byte in any |
| `BuddyRuns.RunDisjoint` | kernel/memory/buddy_allocator.cpp:47-154 | over every run, no two blocks, free or live, share a byte |
| `BuddyRuns.RunKeepsPages` | kernel/memory/buddy_allocator.cpp:47-154 | over every run, free pages plus live pages stay the pages of the initial block |
| `BuddyRuns.RunOnPages` | kernel/memory/buddy_allocator.cpp:47-154 | from a page-aligned base every block stays page aligned |
| `BuddyCoalescing.RunKeepsAligned` | kernel/memory/buddy_allocator.cpp:84-95 | from an aligned base every free block of order k stays aligned to its size and no two buddies are both free at one order |
| `BuddyCoalescing.RunRestores` | kernel/memory/buddy_allocator.cpp:138-153 | from an aligned base, any run that ends with nothing live ends with exactly the one initial block |
| `BuddyCoalescing.MisalignedRoundTrip` | kernel/memory/buddy_allocator.cpp:138-153 | allocating and freeing one block of the first misaligned order does not restore the initial block |
| `BuddyCoalescing.RestoresIffAligned` | kernel/memory/buddy_allocator.cpp:138-200 | every run that frees everything restores the initial block if and only if the base is aligned to it |
| `BuddyLinks.LinkedIff` | kernel/memory/buddy_allocator.cpp:58-93 | following the links reaches every free block in every state of every run if and only if the initial block does not contain address 0 |
| `BuddyAllocator.Zone.constructor` | kernel/memory/zone.cpp:13-28 | the zone starts with all its pages free and one block over its region |
| `BuddyAllocator.Zone.AllocPages` | kernel/memory/zone.cpp:30-44 | for any order, fails exactly when there are too few free pages, the order is too large or no list from it on has a block; otherwise the free count drops by the block; free and live pages add up to the zone and the state is one that requests can lead to |
| `BuddyAllocator.Zone.FreePages` | kernel/memory/zone.cpp:46-56 | a block that ends inside the zone is counted back, one that reaches past it is ignored |
| `BuddyAllocator.LiveAddress` | kernel/memory/buddy_allocator.cpp:97-109 | in every state the allocator can get into, a live block lies in the initial block, on a page boundary |
| `BuddyAllocator.StaysInRegionIff` | kernel/memory/zone.cpp:13-56 | over all requests that a zone lets through within its page count, every byte ever handed out lies in its region if and only if the rounded-up initial block is no larger than the region |
| `BuddyAllocator.ZoneRestoresIff` | kernel/memory/zone.cpp:30-56 | over all such requests, whenever nothing is live the initial block is whole again if and only if the base is aligned to it |
| `BuddyAllocator.ZoneIsReached` | kernel/memory/zone.cpp:30-56 | what a zone can be brought into by requests, refused ones among them, is a state of a run of its allocator |
| `BuddyAllocator.NormalZoneLimits` | kernel/memory/zone.cpp:13-28 | the normal zone, with its own page count, gets order 18, does not always coalesce and can hand out memory beyond its end |
| `LeakyBuddy.PageRunConserves` | kernel/memory/slab_allocator.cpp:394-399 | over every run in which large blocks may go back as one page, free, live and leaked blocks together measure what the initial block measures, for every additive measure |
| `LeakyBuddy.PageStepKeeps` | kernel/memory/buddy_allocator.cpp:112-154 | so each byte stays in exactly one free, live or leaked block, and blocks stay on pages |
| `LeakyBuddy.LiveApart` | kernel/memory/buddy_allocator.cpp:97-109 | and no byte of the 32-bit address space is in two live blocks |
| `RedBlack.RotateInOrder` | kernel/memory/virtual_memory_tree.cpp:17-58 | both rotations keep the in-order sequence |
| `RedBlack.PushedKeeps` | kernel/memory/virtual_memory_tree.cpp:66-70 | recolouring for a red uncle moves the only defect two levels up |
| `RedBlack.InnerKeeps` | kernel/memory/virtual_memory_tree.cpp:72-75 | turning an inner grandchild into an outer one keeps the one defect |
| `RedBlack.OuterKeeps` | kernel/memory/virtual_memory_tree.cpp:76-78 | recolouring and rotating at the grandparent removes the defect |
| `RedBlack.InsertDone` | kernel/memory/virtual_memory_tree.cpp:98 | with the defect gone, blackening the root gives a red-black tree |
| `RedBlack.RedSiblingKeeps` | kernel/memory/virtual_memory_tree.cpp:128-133 | rotating a red sibling up keeps the missing black where it is, the only defect |
| `RedBlack.BlackSiblingKeeps` | kernel/memory/virtual_memory_tree.cpp:134-137 | reddening a sibling with black children moves the missing black one level up |
| `RedBlack.NearChildKeeps` | kernel/memory/virtual_memory_tree.cpp:139-145 | rotating a red near child above its parent keeps the missing black the only defect |
| `RedBlack.RepairedKeeps` | kernel/memory/virtual_memory_tree.cpp:146-151 | the last rotation supplies the missing black |
| `RedBlack.DeleteDone` | kernel/memory/virtual_memory_tree.cpp:182-183 | blackening x ends with a red-black tree and the same sequence |
| `VirtualMemoryTree.VirtualMemoryTree.LeftRotate` | kernel/memory/virtual_memory_tree.cpp:17-36 | the pointer edits turn a tree in memory into the rotated one, parent and child links consistent, sequence unchanged |
| `VirtualMemoryTree.VirtualMemoryTree.RightRotate` | kernel/memory/virtual_memory_tree.cpp:39-58 | the mirror image of the left rotation |
| `VirtualMemoryTree.VirtualMemoryTree.InsertFixup` | kernel/memory/virtual_memory_tree.cpp:61-99 | from a tree whose only defect is a red z under a red parent it terminates with a red-black tree in memory and the same in-order sequence |
| `VirtualMemoryTree.VirtualMemoryTree.DeleteFixup` | kernel/memory/virtual_memory_tree.cpp:123-184 | from a tree whose only defect is a subtree at x one black short it terminates with a red-black tree in memory and the same in-order sequence |
| `VirtualMemoryTree.TreeFromMemory` | kernel/memory/virtual_memory_tree.cpp:17-58 | at most one tree fits the links in memory, so the tree a fixup leaves behind is the one in memory |
| `PageTable.AddTableKeeps` | kernel/memory/user_memory.cpp:234-240 | a new empty page table adds no mapping and keeps tables apart |
| `PageTable.SetEntryChanges` | kernel/memory/user_memory.cpp:242-250 | storing an entry changes the mapping of its own page only |
| `UserMemory.UserMemory.MapPages` | kernel/memory/user_memory.cpp:219-254 | the loop over pages equals the function that maps a range; where the region is in order and frames suffice, every page with a byte of the range is mapped for the user to the frame of that byte, and no other page changes |
| `UserMemory.UserMemory.UnmapPages` | kernel/memory/user_memory.cpp:257-286 | the loop over pages equals the function that unmaps a range; no page with a byte of the range stays present, and no other page changes |
| `UserMemory.NumPagesMeans` | kernel/memory/user_memory.cpp:221 | the page count is the least that holds the size, and 0 for size 0 and for sizes above 2^32 - 4096, whose rounding wraps around |
| `UserMemory.UnalignedIff` | kernel/memory/user_memory.cpp:219-225 | from an unaligned address on, that many pages hold all bytes if and only if the last byte does not spill into one page more |
| `UserMemory.EnsureTableFlat` | kernel/memory/user_memory.cpp:231-240 | creating a table on demand uses one frame at most, forbids neither the user nor writing, and leaves the flat map of pages as it was |
| `UserMemory.MapManyFlat` | kernel/memory/user_memory.cpp:219-254 | mapping a range sets exactly its pages in the flat map, to consecutive frames with the flags, and no other |
| `UserMemory.UnmapManyFlat` | kernel/memory/user_memory.cpp:257-286 | unmapping clears exactly the range and frees the frame of each present entry once, in order |
| `UserMemory.MapThenUnmap` | kernel/memory/user_memory.cpp:219-286 | mapping an empty range and unmapping it restores the flat map and returns exactly the mapped frames |
| `FrameZero.MapManyFlatIff` | kernel/memory/user_memory.cpp:219-254 | mapping a range sets exactly its pages in the flat map if and only if the missing tables exceed the free frames by at most one |
| `FrameZero.OneShortUnmap` | kernel/memory/user_memory.cpp:219-286 | with one frame too few, mapping an empty range and unmapping it still restores the flat map and returns exactly the mapped frames |
| `CopyOnWrite.CowWordMeans` | kernel/memory/paging.cpp:243-256 | a cloned entry keeps its frame and other flags, is never writable, is copy-on-write exactly if it was that or writable; cloning it again changes nothing |
| `CopyOnWrite.CloneFlat` | kernel/memory/paging.cpp:222-261 | after a clone parent and child agree on every user page, on the old frame, marked as above |
| `CopyOnWrite.DirsChild` | kernel/memory/paging.cpp:222-261 | whether or not the free frames suffice, the child gets the parent's directory entry where no table is copied, the next free frame where one is, and frame 0 when there is none |
| `CopyOnWrite.DirsAreCloned` | kernel/memory/paging.cpp:222-261 | with a free frame for every table, the loop over directory entries leaves marked tables in both spaces and nothing else written |
| `CopyOnWrite.SharesTableIff` | kernel/memory/paging.cpp:229-235 | child and parent share a page table if and only if its frame lies above 896 MB |
| `CopyOnWrite.KernelCloned` | kernel/memory/paging.cpp:193-221 | enough frames for the user part or not, the child's directory has the parent's entries for the first 4 MB and the kernel, an APIC entry of its own that leads to a copy of the table, and nothing else outside the user part; the parent's directory is as before |
| `CopyOnWriteRuns.CloneSharesKernel` | kernel/process/process.cpp:171-206 | so after a clone step every page of the kernel is mapped alike in parent and child |
| `PageManager.CopyTable` | kernel/memory/paging.cpp:243-257 | the inner loop leaves both tables with the marked entries of the old one |
| `PageManager.CopyMemorySpaceCOW` | kernel/memory/paging.cpp:193-264 | the nested loops compute the clone function, enough free frames or not |
| `PageManager.CloneMemorySpace` | kernel/process/process.cpp:171-206 | forking an address space is a clone step of the system, whatever allocation fails, and keeps its invariant exactly when the step is covered |
| `PageManager.CopyCOWPage` | kernel/core/kernel.cpp:12-55 | a copy-on-write page is remapped to a fresh frame, user and writable, no longer copy-on-write and with all other flags kept, and no other page changes; any other fault is refused; no frame is a panic |
| `PageManager.PageFaultHandler` | kernel/core/kernel.cpp:57-106 | which faults are handled; an absent page then maps a fresh frame for the user, writable exactly for a write, without other flags; a copy-on-write page as above; no other page changes |
| `CopyOnWriteRuns.DemandMaps` | kernel/core/kernel.cpp:79-99 | the entry that a lookup gives after a demand fault, and that no other lookup has changed |
| `CopyOnWriteRuns.CopyMaps` | kernel/core/kernel.cpp:12-55 | the same after a copy-on-write fault |
| `CopyOnWriteRuns.MapFreshKeepsIff` | kernel/memory/user_memory.cpp:219-254 | mapping the next free frame at a user page keeps tables apart, the pool unused and writable frames unshared if and only if there is a frame for a missing table too |
| `CopyOnWriteRuns.CloneKeepsIff` | kernel/memory/paging.cpp:193-264 | a clone keeps all that, and keeps tables apart, if and only if there are frames for the directory, the APIC table and every copy, and no user table of the parent lies above 896 MB |
| `CopyOnWriteRuns.CloneIsolatedIff` | kernel/memory/paging.cpp:229-235 | with frames enough, writable frames stay unshared over a clone if and only if no writable page of the parent is mapped by a table above 896 MB |
| `CopyOnWriteRuns.StepKeepsIff` | kernel/core/kernel.cpp:12-106 | each clone, demand fault or write fault keeps the invariant if and only if it is covered, by the two conditions above |
| `CopyOnWriteRuns.RunIsolatedIff` | kernel/core/kernel.cpp:12-106 | in every run of such steps the invariant holds in all states if and only if every step is covered, whatever flags a write fault was decided on |
| `CopyOnWriteRuns.FromFirstSpace` | kernel/core/kernel.cpp:12-106 | from one fresh address space on, as long as steps are covered, a frame writable at a user page is mapped at no other user page of any space |
| `CopyOnWriteRuns.FromLowFrames` | kernel/core/kernel.cpp:12-106 | with all free frames at or below 896 MB that holds as long as no step runs out of frames halfway |
| `CopyOnWriteRuns.FarTableLeaks` | kernel/memory/paging.cpp:229-235 | a write fault whose new table lies above 896 MB, then a clone, ends with two spaces that can write one frame |
| `CopyOnWriteRuns.FarTableRun` | kernel/memory/paging.cpp:229-235 | a run of these two steps from a fresh address space |
| `CopyOnWriteRuns.FarTableFault` | kernel/core/kernel.cpp:12-55 | after a clone that shares a table above 896 MB, one copy-on-write fault at any page under it, with a free frame left, ends with two spaces that can write one frame |
| `RunQueue.ListAdd` | include/kernel/list.h:18-25 | the four stores link a node between two neighbours |
| `RunQueue.ListAddTail` | include/kernel/list.h:33-35 | the list becomes the old nodes and then the new one, linked both ways around |
| `RunQueue.ListDelInit` | include/kernel/list.h:38-47 | the list becomes the old nodes without any one of them, which is a list of its own |
| `RunQueue.ListEmpty` | include/kernel/list.h:50-52 | empty exactly when no node is linked |
| `RunQueue.RunQueue.EnqueueTask` | kernel/smp/smp_scheduler.cpp:69-86 | the queue of tasks gains the task at its end and the count stays exact |
| `RunQueue.RunQueue.TakeFirst` | kernel/smp/smp_scheduler.cpp:46-60 | the queue loses its first task, or is empty and nothing changes |
| `ProcessManager.PerCpu.PickNextTask` | kernel/smp/smp_scheduler.cpp:46-103 | on linked queues, pick with its fallback to the idle task does what the pick steps do |
| `ProcessManager.PerCpu.Schedule` | kernel/process/process.cpp:327-348 | an uninterrupted schedule() is the composition of the CPU's steps; it switches exactly when the slice is used up and there is another task, and then the first queued task or the idle one runs and the old one is last in the queue with a slice of 100; otherwise only the slice changes |
| `ProcessManager.ScheduleRotates` | kernel/process/process.cpp:327-348 | that description, for every CPU state |
| `ProcessManager.ScheduleAt` | kernel/process/process.cpp:327-348 | schedule() neither loses nor doubles a task |
| `ProcessManager.ScheduleIsRun` | kernel/process/process.cpp:327-348 | in any state of the step machine it is a run of steps of its CPU |
| `SmpScheduler.CpuAt` | kernel/process/process.cpp:327-348 | within one CPU a step moves tasks about but neither loses nor doubles one |
| `SmpScheduler.StepKeeps` | kernel/smp/smp_scheduler.cpp:46-103 | a step of any CPU keeps every task in exactly one place, counts exact, idle tasks at home and waiting tasks on a full slice |
| `SmpScheduler.FromBoot` | kernel/smp/smp_scheduler.cpp:28-103 | that holds in every state of every interleaving from boot on |
| `SmpScheduler.CpuWait` | kernel/process/process.cpp:327-343 | no step of a CPU raises a queued task's bound on remaining ticks, and each tick lowers it, until the task runs; slices wrap around in 32 bits |
| `SmpScheduler.ServedWithin` | kernel/process/process.cpp:327-343 | the task at position i of a queue has run once its CPU has taken i * 100 ticks and those the running task has left, and has left schedule(), whatever is enqueued meanwhile and whatever the slices |
| `SmpScheduler.BoundedWaitingIff` | kernel/process/process.cpp:327-343 | in all runs every queued task runs within (i + 1) * 100 ticks if and only if the slice of the running task is above -2^31 and at most 100 |
| `SmpScheduler.BoundedFromBoot` | kernel/process/process.cpp:327-343 | that bound holds in every state from boot on until the CPUs have taken 2^31 + 100 ticks together |
| `SmpScheduler.LateTask` | kernel/process/process.cpp:332-341 | a run from boot in which a lone idle task brings its slice to -2^31 and a task enqueued then is not served within 100 ticks |
| `Slab.SlotInside` | kernel/memory/slab_allocator.cpp:93-97 | every slot lies in its page past the header, is not page aligned, and masking gives back the page |
| `Slab.CapacityMost` | kernel/memory/slab_allocator.cpp:93-97 | a slab holds as many objects as fit behind the header, and one more would not fit |
| `Slab.SuppliedOk` | kernel/memory/slab_allocator.cpp:130-144 | after the supply step there is a slab with a free object, so the object taken is never null |
| `Slab.NeedsPageIff` | kernel/memory/slab_allocator.cpp:130-137 | a new page is asked for if and only if every slot of every slab is live |
| `Slab.TakeOk` | kernel/memory/slab_allocator.cpp:142-164 | alloc hands out a slot that was not live and keeps lists, counters and the partition of slots into free and live |
| `Slab.FreeOkIff` | kernel/memory/slab_allocator.cpp:179-217 | free of a live object keeps all that if and only if the slab has room for two objects or heads the full list |
| `Slab.SingleStaysLinked` | kernel/memory/slab_allocator.cpp:192-204 | otherwise the slab ends up linked in two lists |
| `Slab.InuseCounts` | kernel/memory/slab_allocator.cpp:143-146 | in a cache in order, inuse is the number of live objects in the slab |
| `Slab.LiveSlab` | kernel/memory/slab_allocator.cpp:191-217 | the slab of a live object is on the full or the partial list, according to whether it has a free object |
| `Slab.TakeSound` | kernel/memory/slab_allocator.cpp:142-164 | without the full list in order, alloc still hands out a slot that was not live and keeps slabs, counters and the lists it takes from |
| `Slab.TakesFromPartial` | kernel/memory/slab_allocator.cpp:130 | an unused slab is opened only when no slab has both live and free objects |
| `Slab.FreeSound` | kernel/memory/slab_allocator.cpp:179-217 | free of any live object keeps all that |
| `SlabAllocator.CreateSlab` | kernel/memory/slab_allocator.cpp:226-274 | the loop links all slots of the page into one free list in address order |
| `SlabAllocator.Unlink` | kernel/memory/slab_allocator.cpp:197-213 | the walk finds the slab exactly if it is in the list, and leaves the list without it and all other links alone |
| `SlabAllocator.SlabCache.constructor` | kernel/memory/slab_allocator.cpp:85-100 | a new cache has three empty lists |
| `SlabAllocator.SlabCache.Alloc` | kernel/memory/slab_allocator.cpp:128-173 | on linked slabs, alloc computes the allocation function, returns neither null nor a live object, and keeps the cache in order as far as it was |
| `SlabAllocator.SlabCache.Free` | kernel/memory/slab_allocator.cpp:179-220 | on linked slabs, free of any live object computes the free function; the lists stay in order exactly under the condition above, and what alloc relies on in any case |
| `Kmalloc.GetGeneralCache` | kernel/memory/slab_allocator.cpp:407-417 | the first size class that is large enough, or none above 2048 |
| `Kmalloc.LargeOrder` | kernel/memory/slab_allocator.cpp:342-344 | the least order that reaches the page count computed in 32 bits |
| `Kmalloc.LargeCovers` | kernel/memory/slab_allocator.cpp:341-346 | the block covers the request if and only if the size is at most 2^32 - 4096 |
| `Kmalloc.LargeTight` | kernel/memory/slab_allocator.cpp:341-346 | and half of it would not cover the request |
| `Kmalloc.Dispatch` | kernel/memory/slab_allocator.cpp:382-399 | a live pointer is page aligned exactly if it came from the page allocator; otherwise masking gives the slab it is a slot of, whose header names its cache |
| `Kmalloc.MallocSmallKeeps` | kernel/memory/slab_allocator.cpp:355-366 | a small kmalloc is always served and keeps the heap invariant |
| `Kmalloc.MallocLargeKeeps` | kernel/memory/slab_allocator.cpp:341-352 | so does a large one |
| `Kmalloc.KfreeSmallKeeps` | kernel/memory/slab_allocator.cpp:382-393 | so does kfree of any small result |
| `Kmalloc.KfreeLargeKeeps` | kernel/memory/slab_allocator.cpp:394-399 | so does kfree of a large one |
| `Kmalloc.NoOverlap` | kernel/memory/slab_allocator.cpp:332-367 | in a heap in order, live results lie apart and have the bytes asked for |
| `Kmalloc.RunsNeverOverlap` | kernel/memory/slab_allocator.cpp:332-400 | hence so in every state of every run of kmalloc calls and kfree calls of live results from the empty heap |
| `Kmalloc.ResultFresh` | kernel/memory/slab_allocator.cpp:332-367 | kmalloc returns a pointer that was not live, is live with the size asked for, and leaves all others live |
| `Kmalloc.ListsKeptIff` | kernel/memory/slab_allocator.cpp:332-400 | an operation keeps all lists of all caches in order if and only if it is not the kfree of a 2048-byte object whose slab is behind the head of the full list |
| `Kmalloc.SinglesOutOfOrder` | kernel/memory/slab_allocator.cpp:192-204 | a run from the empty heap that ends with such a kfree and lists out of order |
| `PageHeap.TakeIsFresh` | kernel/memory/slab_allocator.cpp:341-352 | a block from the page allocator is apart from every slab page and large block of the heap, and so usable unless its mapped address is 0 |
| `PageHeap.SecondSlabBreaks` | kernel/memory/slab_allocator.cpp:226-236 | a second slab in the page of the first hands out a live object again if the cache is the same, and breaks the heap if it is another |
| `PageHeap.StepKeepsIff` | kernel/memory/slab_allocator.cpp:226-400 | each kmalloc, kfree of a live result and page operation of others keeps heap and page allocator in order and returns nothing that is live, if and only if no slab page is refused while a slab lies at the mapping of physical page 0 |
| `PageHeap.KfreeLosesPages` | kernel/memory/slab_allocator.cpp:394-399 | kfree of a block of n pages makes one page free and loses n - 1; beyond the end of the region it makes none free |
| `PageHeap.NoSharedByte` | kernel/memory/slab_allocator.cpp:332-367 | no byte of the 32-bit address space, wrap-around included, belongs to two live results |
| `PageHeap.RunsNeverOverlap` | kernel/memory/slab_allocator.cpp:332-400 | hence so in every state of every such run from the start, over the page allocator and with nothing assumed about the pages |
| `KernelHeap.NewCaches` | kernel/memory/slab_allocator.cpp:316-325 | nine distinct empty caches of the nine sizes |
| `KernelHeap.KernelHeap.Kmalloc` | kernel/memory/slab_allocator.cpp:332-367 | null exactly for size 0 or a refused large block; otherwise the heap step above, with a pointer that was not live |
| `KernelHeap.KernelHeap.Kfree` | kernel/memory/slab_allocator.cpp:373-400 | takes any live result, dispatches by alignment and page owner, keeps the heap in order, ends the life of exactly that pointer, and hands the page allocator the page of a large result and nothing else |
| `Mutex.Mutex.WouldDeadlock` | lib/mutex.cpp:217-234 | true exactly if the task is on the wait list |
| `Mutex.Mutex.RemoveWaiter` | lib/mutex.cpp:189-215 | removes the first node of the task and nothing else |
| `Mutex.Mutex.WakeNextWaiter` | lib/mutex.cpp:129-163 | takes the head of the wait list, if there is one |
| `Mutex.Mutex.LockBegin` | lib/mutex.cpp:12-53 | the first locked section of lock equals the Enter function |
| `Mutex.Mutex.LockResume` | lib/mutex.cpp:56-74 | the section after a sleep equals the Resume function |
| `Mutex.Mutex.UnlockNow` | lib/mutex.cpp:80-119 | unlock equals the Unlock function |
| `MutexRuns.NeverDeadlocks` | lib/mutex.cpp:27-32 | a task that calls lock is never on the wait list, so the deadlock test never refuses |
| `MutexRuns.StepKeeps` | lib/mutex.cpp:12-119 | every step keeps owner and recursion equal to the holder and its depth, and waiters distinct sleepers of lock |
| `MutexRuns.MutualExclusion` | lib/mutex.cpp:12-119 | in every state of every interleaving at most one task holds the mutex, the recorded owner |
| `MutexRuns.ResultsMean` | lib/mutex.cpp:12-119 | lock succeeds exactly when nobody holds the mutex or the caller re-enters a recursive one, unlock exactly for the holder |
| `MutexRuns.BeginWaitsIff` | lib/mutex.cpp:42-64 | lock on a held mutex that it does not re-enter puts the caller to sleep as the last waiter if and only if the timeout is not 0; otherwise it fails and changes nothing |
| `MutexRuns.BeginTakes` | lib/mutex.cpp:35-73 | on a mutex that is free or re-entered it succeeds at once |
| `MutexRuns.WakeFailsIff` | lib/mutex.cpp:42-73 | a sleeper that wakes takes the mutex if nobody holds it, fails if and only if it is held and the finite timeout is used up, and else is the last waiter again |
| `MutexRuns.ForeverNeverFails` | lib/mutex.cpp:42-64 | a lock that waits for ever ends only with the mutex |
| `MutexRuns.FailsAfterTimeout` | lib/mutex.cpp:42-64 | over every run, a lock with a finite timeout fails at a wake-up if and only if the mutex is held then and it is the timeout-th |
| `MutexRuns.UnlockWakesFirst` | lib/mutex.cpp:80-119 | the unlock that ends a hold frees the mutex and takes the first waiter off the list; any other leaves the list alone, a failing one everything |
| `MutexRuns.SleepsBounded` | lib/mutex.cpp:42-64 | a lock with a finite timeout sleeps at most that many times, whatever the others do |
| `MutexRuns.DepthExactIff` | lib/mutex.cpp:35-39 | re-entering keeps the depth count exact if and only if it does not reach 2^32 |
| `Cpio.GetField` | include/kernel/cpio.h:37-91 | the digit loop computes the field's value in its integer type |
| `Cpio.HexRoundTrip` | include/kernel/cpio.h:37-91 | reading back a written field, in either letter case, gives its value modulo the type's range |
| `Cpio.MarkShows` | include/kernel/cpio.h:106-110 | the trailer test on memory is a prefix test on the name |
| `Cpio.EntryReadsBack` | kernel/fs/memfs.cpp:157-231 | an encoded entry is found, read back with name, type and data, and passed over exactly |
| `Cpio.ReadEntry` | kernel/fs/memfs.cpp:157-231 | one turn of the loop, on any bytes and with a 32-bit cursor: which header is accepted, the inode made of it and where the cursor goes |
| `Cpio.LoadInitramfs` | kernel/fs/memfs.cpp:143-234 | on any bytes, the state of the loop after any number of turns; it fails exactly if there is no room for a header |
| `Cpio.LoadsIff` | kernel/fs/memfs.cpp:152-231 | the loop ends with the entries of the archive, read without a limit on addresses, if and only if the data of every entry it comes to and accepts ends below 2^32 |
| `Cpio.LoopsForever` | kernel/fs/memfs.cpp:152-231 | an accepted entry whose successor is itself is taken in every turn, with one more inode each time |
| `Cpio.BackEntryLoops` | kernel/fs/memfs.cpp:190-230 | 112 bytes with a size field of 2^32 - 112 are such an entry at every 4-aligned address |
| `Cpio.LoadInverts` | kernel/fs/memfs.cpp:143-234 | reading the format, every list of valid entries and trailer at a 4-aligned address, whatever follows, gives those entries in reverse order in front of the old children |
| `Cpio.LoaderInverts` | kernel/fs/memfs.cpp:143-234 | in a buffer below 4 GB the loader itself ends with them after one turn for each entry and one for the trailer |
| `MemFs.LastComponent` | kernel/fs/memfs.cpp:370-390 | splitting a path at its last slash splits off its last component |
| `MemFs.ComponentsJoin` | kernel/fs/memfs.cpp:250-280 | joining two paths with a slash joins their components, empty ones left out |
| `MemFs.PathUnique` | kernel/fs/memfs.cpp:236-285 | in a well-formed tree an inode has one path at most |
| `MemFs.AddedLookup` | kernel/fs/memfs.cpp:398-402 | a new directory gives its own path a meaning and changes no other |
| `MemFs.RemovedLookup` | kernel/fs/memfs.cpp:417-430 | a removed inode takes the meaning of the paths at or below it and of no other |
| `MemFs.AddedWellFormed` | kernel/fs/memfs.cpp:398-402 | adding keeps parents, children and sibling names consistent |
| `MemFs.RemovedWellFormed` | kernel/fs/memfs.cpp:417-434 | so does removing |
| `MemFs.AddThenRemove` | kernel/fs/memfs.cpp:368-469 | a directory made and removed again leaves the very same tree |
| `MemFs.AddedRooted` | kernel/fs/memfs.cpp:398-402 | adding keeps every inode reachable from the root |
| `MemFs.RemovedRooted` | kernel/fs/memfs.cpp:417-434 | so does removing |
| `MemFs.MemFS.FindInode` | kernel/fs/memfs.cpp:236-285 | the result depends only on the nonempty components of the path |
| `MemFs.MemFS.Mkdir` | kernel/fs/memfs.cpp:368-405 | when it succeeds; that then only the new path has changed its meaning; that removing the new inode gives back the old tree |
| `MemFs.MemFS.Unlink` | kernel/fs/memfs.cpp:407-435 | succeeds exactly for files, and then only paths at or below have changed, to nothing |
| `MemFs.MemFS.Rmdir` | kernel/fs/memfs.cpp:437-469 | succeeds exactly for empty directories below the root, with the same effect on lookup |
| `Initramfs.FoundIff` | kernel/fs/memfs.cpp:226-285 | among inodes hung under the root, a name finds its inode if and only if it is nonempty, has no slash and no inode in front has it |
| `Initramfs.LoadedWellFormedIff` | kernel/fs/memfs.cpp:226-228 | loading on an empty root leaves a well-formed tree, the one that mkdir, unlink and rmdir are proved on, if and only if no name is used twice |
| `Initramfs.LoadedIsFoundIff` | kernel/fs/memfs.cpp:143-285 | after the loader has read an archive on an empty root, find_inode of an entry's name returns that entry if and only if the name is nonempty and has no slash and no later entry has it |
| `MemFile.Inode.Grow` | kernel/fs/memfs.cpp:52-64 | regrowth keeps the contents, doubles what is needed, and all bytes ever copied stay within the new capacity |
| `MemFile.Descriptor.Read` | kernel/fs/memfs.cpp:16-48 | returns the slice at the offset, as far as the file goes |
| `MemFile.Descriptor.Write` | kernel/fs/memfs.cpp:50-70 | overwrites, then extends; capacity stays at most twice the size, regrowth copies at most the capacity; the file never shrinks |
| `MemFile.CapacityCovers` | kernel/fs/memfs.cpp:52-62 | in 32-bit sizes, the capacity reaches the end of a write if and only if it did before or that end is below 2^31; then it is the doubling that write is modelled with |
| `MemFile.Descriptor.Seek` | kernel/fs/memfs.cpp:72-78 | succeeds exactly up to the end of the file |
| `MemFile.WriteThenRead` | kernel/fs/memfs.cpp:16-70 | what was written is read back and the rest has not moved |
| `MemFile.WritesJoin` | kernel/fs/memfs.cpp:50-70 | two writes in a row are one write of both |
| `MemFile.StepKeeps` | kernel/fs/memfs.cpp:16-78 | with any number of descriptors every offset stays within the file |
| `MemFile.ChunksJoin` | kernel/fs/memfs.cpp:16-48 | reading in pieces returns what one read returns |
| `HashList.FindMeans` | kernel/fs/SimplePageCache.cpp:156-163 | searching the chain of a key is looking it up in the map |
| `HashList.HashList.Find` | kernel/fs/SimplePageCache.cpp:156-172 | the node of the key in the map, or none |
| `HashList.HashList.Insert` | kernel/fs/SimplePageCache.cpp:174-189 | the map gains or overwrites the key; a known key keeps its node, a new one gets a new node; no other node moves or changes; the size stays exact |
| `HashList.HashList.Erase` | kernel/fs/SimplePageCache.cpp:191-205 | the map loses the key, success says whether it was there, the size stays exact |
| `HashList.HashList.Clear` | kernel/fs/SimplePageCache.cpp:207-218 | the map becomes empty |
| `Ext2.SimplePageCache.GetPage` | kernel/fs/SimplePageCache.cpp:17-38 | returns the bytes of the device block, in the node it has had since it came into the cache or in a new one, and moves or writes no other |
| `Ext2.SimplePageCache.ReadPage` | kernel/fs/SimplePageCache.cpp:40-53 | the slice of the device block, or nothing if it is not cached or the offset is past the page |
| `Ext2.SimplePageCache.Invalidate` | kernel/fs/SimplePageCache.cpp:105-113 | only that page leaves the cache |
| `Ext2.SimplePageCache.Serve` | kernel/fs/SimplePageCache.cpp:17-113 | over any run of get_page and invalidate, a page that is not invalidated stays the same node with the same contents, and the keys in the cache are those last asked for |
| `Ext2.FileDescriptor.GetBlockId` | drivers/ext2.cpp:688-716 | the block that the code's map gives; for the first 268 blocks it is the one whose number the bytes on the device hold, least significant first |
| `Ext2.FileDescriptor.Read` | drivers/ext2.cpp:718-752 | returns the bytes of the mapped device blocks from the position on, as far as the file goes; within the first 268 blocks they are the bytes that ext2 has there |
| `Ext2.WordIff` | drivers/ext2.cpp:702 | a 32-bit load gives n if and only if the four bytes are n, least significant first |
| `Ext2.BlockRightIff` | drivers/ext2.cpp:688-716 | the code takes the block that ext2 means, on every device, if and only if it is one of the first 268 |
| `Ext2.FileDescriptor.Seek` | drivers/ext2.cpp:538-571 | moves within the file only |
| `Ext2.FileDescriptor.ReadAll` | drivers/ext2.cpp:718-752 | reads of any sizes, with any get_page and invalidate calls on the same cache before each, return together the bytes that one read of the total size returns, of which the same holds |
| `Ext2.ReadsExt2Iff` | drivers/ext2.cpp:688-716 | what the code takes for the file is the file of ext2 with 4096-byte blocks, on every device, if and only if it has at most 268 blocks |
| `HexDump.HexDigits` | lib/debug.cpp:236-252 | the digits made from the last to the first and turned around are those of the value |
| `HexDump.DigitsReadBack` | lib/debug.cpp:236-252 | the digits of a value read back as the value |
| `HexDump.FormatHex` | lib/debug.cpp:226-304 | in the buffer, for all flags, width and precision, stands the padded text as far as there is room, and nothing else has changed |
| `HexDump.HexTextMeans` | lib/debug.cpp:257-301 | given room, the text is prefix, digits without a leading zero that read back as the value, zeros up to the precision or the width, and spaces on the side asked for; it is as long as asked for if and only if the precision does not exceed the digits or the width does not exceed prefix and precision |
| `HexDump.PaddedHex` | lib/debug.cpp:258-268 | zero padding to a width that holds the digits gives exactly that many, which read back as the value |
| `HexDump.PutAddress` | lib/debug.cpp:504-512 | the address field is eight digits and two spaces: the nine-character buffer loses the colon |
| `HexDump.PutLine` | lib/debug.cpp:502-539 | a line with its NUL fills the buffer of 78 exactly |
| `HexDump.DecodeLine` | lib/debug.cpp:502-539 | a decoder that reads the columns up to the first blank one gives back the bytes of the line, the address field its address, and behind the bar stand the printable bytes and dots for the others |
| `HexDump.Hexdump` | lib/debug.cpp:495-548 | one line for each sixteen bytes or part of sixteen, line k showing address 16 k, decoding to its bytes and showing them as text |
| `HexDump.ByteShown` | lib/debug.cpp:495-548 | hence every byte of the input is the value of its own column in its own line |

## Left out

- Page reference counts and compound-page information: allocation and counting index them from different bases, so no count invariant holds.
- BuddyLinks.LinkedIff: for runs of the allocator itself from a page-aligned region, not limited by the page count of a zone.
- BuddyAllocator.BuddyAllocator.constructor: for regions that hold a page beyond their page information; for others the order is 32 and the source writes past its lists.
- BuddyAllocator.Zone.constructor: for zones whose rounded-up initial block ends below 4 GB.
- BuddyAllocator.Zone.AllocPages: orders of 32 and more, whose shift C++ leaves undefined, count as too many pages.
- BuddyAllocator.Zone.FreePages: for live blocks of that order, as callers promise; what kfree does instead is in LeakyBuddy.
- `VirtualMemoryTree::allocate`, `free` and `transplant`: the split drops children and an exact fit is never unlinked; only rotations and fixups are modelled.
- VirtualMemoryTree.VirtualMemoryTree.DeleteFixup: for a non-null x only; the source dereferences x and its sibling without a sentinel.
- The area table of user memory (`find_free_area`, `allocate_area`, `free_area`, `brk`): areas are appended in arrival order while the gap search expects sorted order; the page-table loop of `allocate_area` has the shape of `map_pages`.
- UserMemory.MapManyFlat: with a frame for every missing table; without, FrameZero.MapManyFlatIff, provided frame 0 itself is idle.
- UserMemory.MapThenUnmap: likewise; with one frame too few, FrameZero.OneShortUnmap.
- CopyOnWrite.DirsAreCloned: with a free frame for every copy; CopyOnWrite.DirsChild says what is written without.
- CopyOnWriteRuns.RunIsolatedIff: no unmap steps, because unmapping frees frames regardless of sharing; page contents are not modelled, because the copy starts at the raw fault address; entry flags above bit 11 and the temporary kernel mapping are left out.
- PageManager.CloneMemorySpace: page frame 0 counts as memory that a table can be written to.
- Task states other than runnable, CPU affinity and `find_busiest_cpu`.
- SlabAllocator.SlabCache.Alloc: for a page that is given and is no slab yet; refused pages are in PageHeap.StepKeepsIff.
- Kmalloc.MallocLargeKeeps: for a block that is fresh when it is given; PageHeap.TakeIsFresh proves that of the page allocator's blocks.
- Kmalloc.RunsNeverOverlap: likewise for all pages and blocks; PageHeap.RunsNeverOverlap takes them from the page allocator.
- PageHeap.RunsNeverOverlap: one region of memory, above physical page 0 and below 4 GB; the writes of a slab header to address 0, before a page mapped there is given up, are not modelled.
- KernelHeap.KernelHeap.Kmalloc: for fresh pages, like Kmalloc.RunsNeverOverlap; a refused page is in PageHeap.StepKeepsIff.
- `destroy_slab` and the destructors.
- Mutex.Mutex.WakeNextWaiter: that the woken task becomes runnable is not modelled; a sleeper may wake at any time.
- Calls of lock and unlock without a current task.
- Cpio.LoadInverts: names of at most 254 bytes; longer ones are cut without a terminator.
- Cpio.LoadsIff: for buffers that end at least four bytes below 4 GB.
- Cpio.LoadInitramfs: for buffers that end below 4 GB; the number of turns is a parameter, because the loop need not end.
- MemFs.MemFS.Mkdir: names of at most 254 bytes; longer ones are cut without a terminator.
- MemFile.Descriptor.Write: without the 32-bit wrap-around that MemFile.CapacityCovers describes.
- `iterate` copies names of children from a position on, `open` and `stat` copy what `find_inode` returns into a descriptor or three fields, and the virtual file system layer forwards to the file system mounted at a prefix; they keep no state of their own that an invariant could speak of.
- Page-cache flush, eviction and page limit: stubs in the source; page-cache writes, which nothing writes back.
- Ext2.FileDescriptor.GetBlockId: block indices from 1292 on, for which the double-indirect branch reads past the page.
- Ext2.FileDescriptor.Read: files of at most 1292 blocks for the same reason, on a device that nobody writes; ext2 writes and directories disagree with the read path.
- HexDump.FormatHex: the parsing of format strings and the other conversions of the formatter are left out; hexdump's own formats are constants.
- Process ids, ELF loading and relocation, hardware, interrupts, consoles, system calls and shell commands.
