# Verified models of the kernel's memory stack, server core, task table and loader

This project models the parts of the system that are algorithms with state, and proves what they keep over every
input and every run. `dafny verify dfyconfig.toml` checks all of it.

- **Physical memory, page tables and the kernel heap** (`kernel/memory.c`). `PhysicalMemory` is the frame bitmap with its
  next-fit hint and word-at-a-time search, `MemoryInit` builds it from the memory map, `PageTables` and `AddressSpace` are
  the four-level tables with tables made on demand and reclaimed when empty, `HeapBlocks`, `HeapRequests`, `FreeList` and
  `KernelHeap` are the address-sorted first-fit heap that grows through the other two. `MemoryRuns` states what holds
  over whole runs across the three layers, `MemoryBoot` connects them to the initialised bitmap, and `MemoryDriver` serves
  any list of requests with the operations and shows that this is such a run. `Locks` is the log of spinlocks that every
  operation writes, and `LockOrder` the interleaving of cores that keep to its order. `EntryBits` is the encoding of table
  entries.
- **Server core** (`net/network.c`). `RateLimiter` and `RateRuns` are the fixed-window rate limiter with its in-place
  compaction, `WorkQueue` the linked queue, and `ServerRuns` the interleaving of acceptor, workers and shutdown.
- **Task table** (`kernel/scheduler.c`). `Scheduler` is the table, `SchedulerRuns` its interleavings.
- **Block allocator** (`kernel/arch/x86_64/mm/pmm.c`). `BlockAllocator` and `BlockRuns`.
- **ELF loader** (`kernel/startup.c`). `ElfLoader`.
- **Node pool** (`mm/kernel_tree.h`). `NodePool`.

Code that changes state in place is a class or a method with loops, proved against functions and predicates on values; the
theorems about runs are about the same predicates that appear in the methods' contracts.

## Where the code departs from its intent

Each of these is a theorem, with the input that shows it and the exact condition under which the intended property holds.

- The growth check of the heap adds in 64 bits, so a request large enough to wrap passes it
  (`HeapRequests.GrowthCheckFails`, exact condition of the check in `HeapRequests.GrowthCheckExact`). A size near 2^64 wraps
  to 0 before any check, so that a request for 2^64 - 1 bytes is given a block of none (`HeapRequests.ServeCheats`). When
  kmalloc as a whole gives NULL or a block as large as asked for is `HeapRequests.ServeExact`.
- The rate limiter admits everything from an address it has no room to record (`RateRuns.FullTableAdmitsAll`). A burst stays
  within the limit if and only if the address has an entry or room for one (`RateRuns.BurstExact`), and over any run the
  bound is exceeded by no more than the requests that were not tracked (`RateRuns.RateBound`).
- The connection counter can be one too high, and then stays so for good (`ServerRuns.CounterDrifts`,
  `ServerRuns.DriftLasts`); never more than one, and it is exact if and only if no close found it at zero
  (`ServerRuns.ServerSafety`).
- The hint of the block allocator loses free blocks after an allocation that does not fit at the lowest free block
  (`BlockRuns.HintLoses`, exact condition in `BlockRuns.RunAlloc`). Its counter is exact only if regions flip every block
  (`BlockAllocator.MarkCounted`) and freed blocks were taken (`BlockAllocator.FreeCounted`). Ends of ranges wrap at 2^64, so
  that writes can leave the bitmap (`BlockAllocator.FreeEscapes`, `BlockAllocator.MarkEscapes`; exact conditions in
  `BlockAllocator.FreeStaysIff`, `BlockAllocator.MarkStaysIff`). The three tries of the aligned allocation can only repeat
  the first (`BlockAllocator.Allocator.AllocBlockAligned`).
- The stride of the program header table is computed in a signed 32-bit integer, which a file over 2 GiB can exceed
  (`ElfLoader.StrideCanOverflow`, exact condition in `ElfLoader.StrideInSmallFiles`).
- Freeing a node that is not held closes the free list into a ring (`NodePool.ReleaseIff`). A free that goes on without the
  lock can put a node back on the list that an allocation has just handed out (`NodePool.RacedBreaks`); a step of an
  operation keeps the pool sound if and only if it still finds the head that the operation read (`NodePool.NextSoundIff`),
  which it always does when every free takes the lock (`NodePool.LockedRuns`).
- With the usual offset of the direct map and more than 1 GiB of memory, the heap lies inside the direct map
  (`KernelHeap.HeapInDirectMap`), and growing it destroys the part where the two meet (`KernelHeap.GrowthAvoidsDirectMap`).
- The number of the next task wraps at 2^32, and the task table is sound exactly until then (`Scheduler.Table.Create`).

## Assumptions

- Tables adopted at boot hold only 4 KiB leaves, and physical addresses are below 2^52. Pages are keyed by bits 12..47 of
  the virtual address.
- Address 0 doubles as the failure code of the frame allocator. Handing out frame 0 is modelled as its own outcome
  (`Failed`), which cannot happen when frame 0 is reserved.
- A panic is an outcome of its own and ends the run. So is a heap growth that wraps.
- The boot loader leaves page tables that form a tree without empty tables, in frames that share no byte with a usable
  region.
- All frames are reached through the direct map, which is taken to be intact. `KernelHeap.GrowthKeepsDirectMap` and
  `KernelHeap.GrowthAvoidsDirectMap` say when growing the heap keeps it, which is so whenever the two do not meet.
- `queue_tail` in `enqueue_client` is read as `work_queue_tail`.
- Words of a bitmap are sequences of 64 bits, and table entries are a present bit, a frame and flags; `EntryBits` ties the
  latter to the stored words.
- In the models of interleavings each critical section is one step; in `MemoryRuns` each frame operation, each map or
  unmap, and each section of kmalloc and kfree; in `LockOrder` each acquisition and release.

## Model

| member | source | states |
|---|---|---|
| `PhysicalMemory.Pmm.SetBit` | kernel/memory.c:263-268 | sets the bit of one frame and of no other |
| `PhysicalMemory.Pmm.ClearBit` | kernel/memory.c:271-276 | clears the bit of one frame and of no other |
| `PhysicalMemory.Pmm.FindFirstFree` | kernel/memory.c:288-310 | the word/ctz search refines a bit-by-bit scan: -1 exactly when every frame in range is used, for any bitmap, hint and frame count, else the first free frame in range in cyclic word order from the hint |
| `PhysicalMemory.Pmm.TakeFree` | kernel/memory.c:337-360 | the section under the lock: the next unused frame in search order becomes used and zeroed, none exactly when all are used |
| `PhysicalMemory.VisitedWord` | kernel/memory.c:292-294 | the cyclic word index visits every word once, in order of distance from the hint's word |
| `PhysicalMemory.Pmm.AllocFrame` | kernel/memory.c:335-366 | panics exactly when all frames are used; otherwise one unused frame, the next in search order, becomes used and zeroed, and nothing else changes; the lock is taken in order and released on both paths |
| `PhysicalMemory.Pmm.FreeFrame` | kernel/memory.c:369-387 | panics exactly when the frame is out of range or not in use, otherwise exactly that frame becomes free; the counter stays the number of used frames, and the lock is released on every path |
| `MemoryInit.HighestAddress` | kernel/memory.c:844-860 | the maximum of all region ends |
| `MemoryInit.PlaceBitmap` | kernel/memory.c:872-899 | the spot of the first usable region that can hold the bitmap at a page boundary at or above 1 MiB; none exactly when no region can |
| `MemoryInit.InsideFrames` | kernel/memory.c:909-910 | the frames freed for a region are those lying wholly inside it |
| `MemoryInit.BitmapFrames` | kernel/memory.c:926-927 | the frames taken for the bitmap are those holding a byte of it |
| `MemoryInit.Sizes` | kernel/memory.c:861-867 | a placed bitmap has a bit for every frame and lies below the highest address, so no index is out of range |
| `MemoryInit.MarkAll` | kernel/memory.c:901-904 | after filling with ones every frame in range is used and the counter is their number |
| `MemoryInit.FreeRange` | kernel/memory.c:912-921 | frees exactly the used frames of a range, keeping the counter exact although ranges may overlap |
| `MemoryInit.TakeRange` | kernel/memory.c:929-934 | takes exactly the free frames of a range, keeping the counter exact |
| `MemoryInit.FreeUsable` | kernel/memory.c:906-923 | for any list of possibly overlapping regions, exactly the frames wholly inside some usable one become free |
| `MemoryInit.InitFrames` | kernel/memory.c:843-934 | panics exactly when no region can hold the bitmap; otherwise a frame is free exactly when it lies wholly inside some usable region and holds no byte of the bitmap, and the counter is the number of used frames |
| `MemoryInit.NoMemory` | kernel/memory.c:862-899 | a memory map without memory panics, so the wrapped frame count is never used |
| `PageTables.PathInjective` | kernel/memory.c:455-458 | the four 9-bit indices determine the page number |
| `AddressSpace.AddressIndices` | kernel/memory.c:455-458 | shifting and masking an address gives the indices of its page number |
| `EntryBits.LeafReadsBack` | kernel/memory.c:483-483 | the word stored for a page reads back as present, with its address bits and flags |
| `EntryBits.TableReadsBack` | kernel/memory.c:438-443 | the word stored for a table reads back as its address exactly for page-aligned addresses below 2^52 |
| `EntryBits.FrameField` | kernel/memory.c:33-34 | the address masked with PTE_ADDR_MASK is 4096 times the frame number modulo 2^40 |
| `EntryBits.LeafFrame` | kernel/memory.c:483-483 | the frame of the leaf a map creates is the one its stored address bits name |
| `PageTables.LinkKeepsTree` | kernel/memory.c:422-444 | linking a fresh zeroed frame adds exactly that table to the walk, and the tables stay a tree of used frames, each reached along one path |
| `PageTables.LinkKeepsOccupied` | kernel/memory.c:422-444 | after linking, no table except the new one is empty |
| `PageTables.LinkKeepsMapping` | kernel/memory.c:422-444 | a fresh table translates nothing, so all translations stay |
| `PageTables.UnlinkKeepsTree` | kernel/memory.c:541-564 | unlinking an emptied table removes exactly that table from the walk, so its frame is reachable no more and may be freed |
| `PageTables.UnlinkKeepsMapping` | kernel/memory.c:541-564 | unlinking an emptied table changes no translation |
| `PageTables.UnlinkKeepsOccupied` | kernel/memory.c:541-564 | after unlinking, only the table above can have become empty |
| `PageTables.LeafPatchesMapping` | kernel/memory.c:473-536 | writing a leaf entry changes the translation of one page and of no other |
| `PageTables.LinkAddsFrame` | kernel/memory.c:428-440 | the set of table frames grows by the linked frame, which was none before |
| `PageTables.UnlinkRemovesFrame` | kernel/memory.c:541-564 | the set of table frames shrinks by the unlinked frame |
| `PageTables.DataKeepsTree` | kernel/memory.c:335-366 | writing frames that are no tables, or using more frames, changes nothing the walk sees |
| `AddressSpace.LinkEffect` | kernel/memory.c:422-444 | one allocated level of a walk: tree kept, mapping kept, exactly the new table newly used |
| `AddressSpace.MapEffect` | kernel/memory.c:447-492 | the end of a map: one key of the mapping set, newly used frames are new tables, other frames keep their contents |
| `AddressSpace.UnlinkEffect` | kernel/memory.c:541-564 | one reclaimed table during an unmap: tree kept, mapping kept, exactly that frame given back, and it was in use |
| `AddressSpace.IsTableEmpty` | kernel/memory.c:495-502 | true exactly when no entry is present |
| `AddressSpace.Space.NextLevel` | kernel/memory.c:422-444 | the table below an entry, linked if absent; panic only when every frame is used, failure only when frame 0 was handed out; the locks held are as before |
| `AddressSpace.Space.WalkTo` | kernel/memory.c:462-471 | three levels of it reach the table of the page, and nothing but new tables is added; each failing return has released the lock of the address space |
| `AddressSpace.Space.MapPage` | kernel/memory.c:447-492 | on success exactly one key of the mapping changes, to the given frame and flags; newly used frames are the new tables; the tree and the absence of empty tables are kept; every return but a panic leaves the locks as before |
| `AddressSpace.Space.FindLeaf` | kernel/memory.c:518-532 | the read-only walk finds the page exactly when it is mapped, and each of its four early returns has released the lock |
| `AddressSpace.Space.Reclaim` | kernel/memory.c:541-564 | a table that has become empty is unlinked and its frame given back, which cannot panic; if it is kept, no empty table is left; nothing else of the walk changes |
| `AddressSpace.Space.ReclaimTables` | kernel/memory.c:541-564 | after the cascade no empty table but the root is left |
| `AddressSpace.Space.UnmapPage` | kernel/memory.c:507-570 | returns the frame the page was mapped to, 0 if none; exactly that key leaves the mapping; the frames given back are exactly the tables that are no more; no free of a table panics; every return leaves the locks as before |
| `HeapBlocks.Canonical` | kernel/memory.c:664-681 | the allocated blocks determine the heap: two tilings of a range with no touching free blocks and the same allocated blocks are equal |
| `HeapBlocks.CoalesceHeap` | kernel/memory.c:664-681 | coalescing any aligned tiling gives a tiling of the same range in which no two free blocks touch |
| `HeapBlocks.CoalesceKeepsLive` | kernel/memory.c:664-681 | coalescing neither loses, adds nor changes an allocated block |
| `HeapBlocks.CoalesceSeparate` | kernel/memory.c:664-681 | coalescing changes nothing where no free blocks touch |
| `HeapBlocks.TilesOrdered` | kernel/memory.c:605-623 | blocks lie in address order without overlap |
| `HeapBlocks.TakeHeap` | kernel/memory.c:704-730 | allocation, split or not, keeps tiling, 16-byte alignment and separateness of free blocks, although the split path never coalesces |
| `HeapBlocks.TakeLive` | kernel/memory.c:704-730 | allocation adds the block it hands out and touches no other |
| `HeapBlocks.FreeHeap` | kernel/memory.c:777-798 | freeing keeps the heap well formed and takes away exactly one allocated block |
| `HeapBlocks.RoundTrip` | kernel/memory.c:704-798 | freeing what was just allocated restores the identical heap, split or not |
| `HeapBlocks.FreesCommute` | kernel/memory.c:777-798 | the order of two frees does not matter |
| `HeapBlocks.GrowHeap` | kernel/memory.c:753-767 | adding a region keeps the heap well formed over the longer range and changes no allocated block |
| `HeapBlocks.GrowShape` | kernel/memory.c:753-767 | the grown heap is the old one with the new region, merged with a free block at the old end if there is one |
| `HeapBlocks.GrowFits` | kernel/memory.c:753-773 | after growing for a request, the last block is the first that fits it, so the retry succeeds |
| `HeapRequests.GrowthSmall` | kernel/memory.c:206-213 | away from 2^64 the aligned and page-rounded sizes are the true ones |
| `HeapRequests.GrowthLarge` | kernel/memory.c:626-637 | near 2^64 the growth wraps to one page or to nothing |
| `HeapRequests.GrowthCheckExact` | kernel/memory.c:626-637 | the limit check is right if and only if the new break does not pass 2^64, or a wrapped request meets a heap at its maximum |
| `HeapRequests.GrowthCheckFails` | kernel/memory.c:626-637 | a request of 2^47 bytes passes the check and would move the break below the heap |
| `HeapRequests.RequestSizes` | kernel/memory.c:690-695 | no size computed for a request wraps as long as the break it needs does not |
| `HeapRequests.MallocNull` | kernel/memory.c:685-774 | NULL exactly when no free block fits and the page-rounded growth would pass the limit, and then nothing changes |
| `HeapRequests.MallocHeap` | kernel/memory.c:685-774 | the heap stays well formed and gains one allocated block: aligned, with room for the aligned size, apart from all others |
| `HeapRequests.MallocLowest` | kernel/memory.c:697-741 | if a free block fits, the lowest one that does is used and the heap does not grow |
| `HeapRequests.MallocFree` | kernel/memory.c:685-798 | freeing what was just allocated gives back the identical heap if it did not grow, and otherwise the old heap with the new region merged in |
| `HeapRequests.AlignedEnough` | kernel/memory.c:209-213 | the aligned size is at least the size asked for exactly up to 2^64 - 16, and 0 above |
| `HeapRequests.ServeIsMalloc` | kernel/memory.c:685-774 | while the break does not wrap, kmalloc calls itself at most once and is the allocation described |
| `HeapRequests.ServeHeap` | kernel/memory.c:685-774 | for every size, a kmalloc that is not lost leaves a well-formed heap with every allocated block kept, and a new one if it returns a pointer |
| `HeapRequests.ServeInVain` | kernel/memory.c:685-774 | a request just short of wrapping to 0 grows the heap to its limit and gets NULL |
| `HeapRequests.ServeWrapped` | kernel/memory.c:685-774 | a request whose size wraps to 0 is given any free block or a new page |
| `HeapRequests.ServeLost` | kernel/memory.c:626-773 | a request whose break passes 2^64 otherwise is stopped by the assertion or writes behind the break |
| `HeapRequests.ServeExact` | kernel/memory.c:685-774 | for every heap and every size, kmalloc gives NULL or a block as large as asked for if and only if a condition on break, size and free blocks holds |
| `HeapRequests.ServeCheats` | kernel/memory.c:685-737 | on a heap of one free page a request for 2^64 - 1 bytes is given a block of 0 bytes |
| `FreeList.LinksAreChain` | kernel/memory.c:587-600 | the chain of next fields from the list head runs through exactly the free blocks, in address order |
| `FreeList.InsertAfter` | kernel/memory.c:615-622 | linking a block behind its predecessor puts it on the list at its place |
| `FreeList.RemoveAfter` | kernel/memory.c:706-711 | unlinking a block takes exactly it off the list |
| `FreeList.JoinList` | kernel/memory.c:670-676 | joining two touching free blocks leaves the list of the joined blocks |
| `FreeList.CutList` | kernel/memory.c:717-722 | writing a header into the data area of an unlinked block leaves the list as it was |
| `KernelHeap.Allocator.AddToFreeList` | kernel/memory.c:605-623 | the block becomes free and the list, read through the headers, is again exactly the free blocks in address order |
| `KernelHeap.Allocator.FindFit` | kernel/memory.c:697-741 | the search finds the lowest free block that fits and the free block before it |
| `KernelHeap.Allocator.TakeBlock` | kernel/memory.c:706-730 | unlinking, splitting and marking refine allocation on blocks |
| `KernelHeap.Allocator.CoalesceFreeList` | kernel/memory.c:664-681 | the one-pass loop over the list refines coalescing on blocks, and its magic assertions hold |
| `KernelHeap.Allocator.BackPage` | kernel/memory.c:640-658 | one page of growth is mapped writable and not executable to a frame of its own; a panic only when no frame is left; after a failure, which needs frame 0 free, no page has changed |
| `KernelHeap.Allocator.BackPages` | kernel/memory.c:640-658 | every new page is backed, the frames newly used are those and new tables, and no data is overwritten; a panic only when no frame is left; after a failure the pages up to the break are backed and no other is touched |
| `KernelHeap.Allocator.Expand` | kernel/memory.c:626-661 | refuses exactly when the new break is beyond the limit, and then changes nothing; otherwise the range to the new break is backed; a break that wraps below the old one backs nothing; panics only when no frame is left, and a failure leaves the break where backing stopped |
| `KernelHeap.Allocator.AddRegion` | kernel/memory.c:753-767 | the new region becomes a free block merged with what it touches |
| `KernelHeap.Allocator.GrowFor` | kernel/memory.c:743-767 | for every size: refused, wrapped exactly when the new break is not above the old one, a panic only when no frame is left, or the grown heap with all three layers valid |
| `KernelHeap.Allocator.TryMalloc` | kernel/memory.c:697-771 | one round under the lock: the first block that fits, or exactly one growth, with the lock released on every return |
| `KernelHeap.Allocator.Kmalloc` | kernel/memory.c:685-774 | for every size refines the 64-bit allocation function, with as many rounds as that says; panics only when no frame is left and fails only when frame 0 was free; keeps heap, tables and frames valid together; touches no frame or table when a free block fits; every return releases the heap lock |
| `KernelHeap.Allocator.Kfree` | kernel/memory.c:777-798 | NULL is ignored; otherwise exactly the block of the pointer is freed and coalesced, all three layers stay valid, and the heap lock is released |
| `KernelHeap.Allocator.constructor` | kernel/memory.c:599-602 | the empty heap over a valid address space is valid |
| `KernelHeap.GrowthKeepsDirectMap` | kernel/memory.c:640-658 | growing keeps the direct map if and only if each new heap page in it is backed by the frame that belongs there |
| `KernelHeap.GrowthAvoidsDirectMap` | kernel/memory.c:640-658 | when the frames shown at those pages are in use before, growing keeps the direct map if and only if no new heap page lies in it |
| `KernelHeap.HeapInDirectMap` | kernel/memory.c:14-20 | at the usual offset a heap page lies in the direct map exactly when there is memory beyond 1 GiB and that page |
| `MemoryRuns.BootInv` | kernel/memory.c:941-1006 | an empty heap over tables that form a tree of used frames meets the invariant over all three layers |
| `MemoryBoot.InitInv` | kernel/memory.c:843-943 | the bitmap that initialisation leaves, with boot tables apart from usable regions, meets the invariant over all three layers, and every frame holding a byte of the bitmap is reserved |
| `MemoryBoot.ZeroReserved` | kernel/memory.c:843-934 | frame 0 is reserved exactly when no usable region covers it |
| `MemoryBoot.BitmapForever` | kernel/memory.c:925-934 | whatever runs after boot, no client, heap or table frame ever holds a byte of the bitmap |
| `MemoryBoot.BitmapTouches` | kernel/memory.c:889-894 | a frame holding a byte of the bitmap is a frame of memory and touches the region it was placed in |
| `MemoryRuns.NextKeeps` | kernel/memory.c:335-798 | every frame, map, unmap and kfree step, and every step of kmalloc of any size, alone or between those of other cores, keeps the invariant over all three layers |
| `MemoryRuns.RunKeeps` | kernel/memory.c:335-798 | in every reachable state tables form a tree of used, non-empty frames, blocks tile the heap to the break, every heap page has its own frame, and used frames split disjointly into reserved, table, heap and client frames |
| `MemoryRuns.RunRefines` | kernel/memory.c:422-570 | after any run the walk outside the heap equals the initial mapping with the run's maps and unmaps applied in order, whatever tables came and went |
| `MemoryRuns.UsedCount` | kernel/memory.c:335-387 | the number of used frames is the sum of reserved, table, heap and client frames |
| `MemoryRuns.ReservedForever` | kernel/memory.c:335-798 | frames reserved at boot stay in use and never become a client's, a table or the heap's |
| `MemoryRuns.RunKeepsContents` | kernel/memory.c:335-798 | a frame a client holds and does not write keeps its contents over any run |
| `MemoryDriver.Core.constructor` | kernel/memory.c:941-1006 | an empty heap over the boot tables starts a core that meets the invariant |
| `MemoryDriver.Core.TakeOne` | kernel/memory.c:335-366 | what allocating a frame does is a step of the memory system |
| `MemoryDriver.Core.ReturnOne` | kernel/memory.c:369-387 | what freeing a held frame does is a step |
| `MemoryDriver.Core.MapOne` | kernel/memory.c:447-492 | what mapping a page does is a step, unless no frame is left or frame 0 was handed out |
| `MemoryDriver.Core.UnmapOne` | kernel/memory.c:507-570 | what unmapping a page does is a step |
| `MemoryDriver.Core.MallocOne` | kernel/memory.c:685-774 | what kmalloc does is a step for every size, unless no frame is left, frame 0 was handed out or the growth wraps |
| `MemoryDriver.Core.FreeOne` | kernel/memory.c:777-798 | what kfree of a held pointer does is a step, and every other pointer stays that of an allocated block |
| `MemoryDriver.Core.HandleAll` | kernel/memory.c:335-798 | any list of requests to the six operations is a run of the memory system, and its locks are taken only in the order heap, address space, physical memory and all released; it halts only when no frame is left, frame 0 was handed out or a growth wraps |
| `Locks.Log.Acquires` | kernel/memory.c:223-227 | a lock may be taken only above all locks held |
| `Locks.Log.Releases` | kernel/memory.c:229-231 | only the lock taken last may be released |
| `Locks.FollowAppend` | kernel/memory.c:223-231 | one more action continues from the locks the trace so far has led to |
| `LockOrder.AcquireInv` | kernel/memory.c:223-227 | an acquisition keeps one holder per lock and the order on every core |
| `LockOrder.ReleaseInv` | kernel/memory.c:229-231 | a release keeps one holder per lock and the order on every core |
| `LockOrder.Reachable` | kernel/memory.c:223-231 | in every interleaving each lock has at most one holder and each core holds its locks in order |
| `LockOrder.NoDeadlock` | kernel/memory.c:223-231 | no interleaving on any number of cores deadlocks, and when all are done no lock is held |
| `RateLimiter.ScanIs` | net/network.c:558-583 | the pass keeps exactly the unexpired entries in order, counts the first for the address, and finds it exactly if there is one |
| `RateLimiter.Limiter.Compact` | net/network.c:558-585 | the in-place loop with read and write indices refines that pass |
| `RateLimiter.Limiter.CheckAndUpdate` | net/network.c:546-607 | the new table and the verdict are the check function of the old table |
| `RateRuns.CheckLookup` | net/network.c:546-607 | a check changes the entry of the asking address only, drops expired ones, and keeps one entry per address |
| `RateRuns.TableAgrees` | net/network.c:546-607 | over any run the table holds the current window of each address once, and nothing of it once expired |
| `RateRuns.WindowsKept` | net/network.c:546-607 | windows of an address do not overlap and none admits more than the limit |
| `RateRuns.RateBound` | net/network.c:546-607 | over any run with a clock that never goes back and a limit of at least one, any 60 seconds admit at most twice the limit of an address's requests, and those that found neither an entry nor room |
| `RateRuns.DenialIsEarned` | net/network.c:546-607 | over any such run a denial comes after limit requests of the same address admitted within the last 60 seconds |
| `RateRuns.FullTableAdmitsAll` | net/network.c:588-606 | any table full of other addresses admits all of any number of requests |
| `RateRuns.BurstExact` | net/network.c:546-607 | after any run, every number of requests of an address at one time stays within the limit if and only if it has an entry then or there is room for one |
| `RateRuns.BurstAdmits` | net/network.c:546-607 | what a burst admits is what the run admits when it goes on with those requests |
| `RateRuns.AdmissionsCount` | net/network.c:546-607 | every admission is one of a recorded window or one that was not tracked |
| `WorkQueue.ChainAppend` | net/network.c:500-508 | linking a fresh item behind the tail extends the chain by its client |
| `WorkQueue.Queue.Enqueue` | net/network.c:500-508 | the client becomes the last of the queue, and size and links stay right |
| `WorkQueue.Queue.Dequeue` | net/network.c:523-543 | the oldest client leaves; -1 exactly when there is none |
| `ServerRuns.QueueStep` | net/network.c:470-543 | every step keeps the size equal to the length and bounded, and what came out followed by what is in equal to what went in |
| `ServerRuns.CounterStep` | net/network.c:958-978 | every step keeps the counter within its limit and off from the truth by exactly the closes that found it at zero, at most one |
| `ServerRuns.ServerSafety` | net/network.c:435-543 | over every interleaving the queue is bounded, clients leave in order, each once and to one worker; the counter with the pending increment covers every connection in progress, is exact if and only if no close was clamped, and is never more than one too high |
| `ServerRuns.NothingLeftBehind` | net/network.c:981-1013 | once all workers have exited, the queue is empty and every client ever queued was taken by a worker |
| `ServerRuns.CounterDrifts` | net/network.c:508-518 | a connection closed before it is counted leaves the counter one too high with nothing in progress |
| `ServerRuns.ClampedWhen` | net/network.c:968-974 | a close finds the counter at zero exactly while the one connection in progress has yet to be counted and none was clamped before |
| `ServerRuns.DriftLasts` | net/network.c:958-978 | once too high the counter stays one too high in every continuation, so that one connection less than the limit is admitted |
| `ServerRuns.RefusesForGood` | net/network.c:1148-1160 | with a limit of one, such a server never admits a connection again |
| `Scheduler.Table.constructor` | kernel/scheduler.c:358-369 | all slots invalid, count 0, numbers from 1 |
| `Scheduler.Table.FreeSlot` | kernel/scheduler.c:186-193 | the first slot not in use, -1 exactly when all are |
| `Scheduler.Table.Create` | kernel/scheduler.c:160-241 | fails exactly on a bad priority, no free slot, no arguments or no thread, and then the tasks in use stay; otherwise the first free slot runs the next number; the table stays sound exactly until the 32-bit number wraps |
| `Scheduler.Table.Finish` | kernel/scheduler.c:125-157 | the slot found by number, and no other, is marked done; found exactly when the task is in the table |
| `Scheduler.Table.SetPriority` | kernel/scheduler.c:246-263 | only priorities of the running task with that number change |
| `Scheduler.Table.AdjustPriorities` | kernel/scheduler.c:309-341 | only priorities of running tasks change, and stay in range |
| `Scheduler.Table.Reap` | kernel/scheduler.c:270-306 | in-place compaction is the stable filter of running tasks padded with cleared slots, and the count drops by the finished ones |
| `Scheduler.ReapedSound` | kernel/scheduler.c:270-306 | reaping drops exactly the finished tasks and keeps numbers unique |
| `Scheduler.CreateSound` | kernel/scheduler.c:184-233 | filling a free slot with the next number keeps numbers unique and the count right |
| `SchedulerRuns.StartInv` | kernel/scheduler.c:358-369 | the empty table meets the invariant |
| `SchedulerRuns.NextKeeps` | kernel/scheduler.c:125-306 | every create, finish, priority and reap step keeps the invariant |
| `SchedulerRuns.RunKeeps` | kernel/scheduler.c:125-306 | over every interleaving the count is the slots in use, and each task is in exactly one slot as running, then as done, then in none |
| `SchedulerRuns.OneSlot` | kernel/scheduler.c:125-157 | a thread that ends always finds its task, in exactly one slot, however often slots have moved |
| `SchedulerRuns.ReapedForGood` | kernel/scheduler.c:270-306 | a reaped number is in no slot for the rest of the run |
| `BlockAllocator.RangeCount` | kernel/arch/x86_64/mm/pmm.c:41-52 | setting a range changes the number of taken blocks by those that were in the other state |
| `BlockAllocator.Allocator.Init` | kernel/arch/x86_64/mm/pmm.c:25-39 | every block is taken and counted; a second call does nothing |
| `BlockAllocator.Allocator.SetBlocks` | kernel/arch/x86_64/mm/pmm.c:41-52 | sets exactly the blocks of the range |
| `BlockAllocator.Allocator.FindRun` | kernel/arch/x86_64/mm/pmm.c:63-79 | the single pass with a run counter finds the leftmost all-free run at or above the hint, -1 exactly when there is none |
| `BlockAllocator.Allocator.AllocBlocks` | kernel/arch/x86_64/mm/pmm.c:58-83 | takes the leftmost run at or above the hint; 0 and no change when there is none, no blocks are asked for or nothing is initialised |
| `BlockAllocator.AllocCounted` | kernel/arch/x86_64/mm/pmm.c:58-83 | allocation keeps the counter equal to the number of taken blocks |
| `BlockAllocator.Allocator.FreeBlocks` | kernel/arch/x86_64/mm/pmm.c:105-121 | for every address and count below 2^64 says whether all writes stay in the bitmap, and if so exactly the blocks given are freed and the hint lowered to them; address 0 and blocks out of range are ignored |
| `BlockAllocator.FreeCounted` | kernel/arch/x86_64/mm/pmm.c:105-121 | the counter stays exact if and only if all blocks freed were taken |
| `BlockAllocator.FreeStaysIff` | kernel/arch/x86_64/mm/pmm.c:105-113 | the writes stay in the bitmap if and only if the range check refuses or the end of the range does not wrap |
| `BlockAllocator.FreeEscapes` | kernel/arch/x86_64/mm/pmm.c:105-113 | a count of 2^64 - 1 at block 1 passes the checks and its writes leave the bitmap |
| `BlockAllocator.Allocator.MarkRegion` | kernel/arch/x86_64/mm/pmm.c:123-134 | for every region says whether all writes stay in the bitmap, and if so exactly its blocks are marked and the counter moves by their number, the hint not at all |
| `BlockAllocator.MarkCounted` | kernel/arch/x86_64/mm/pmm.c:123-134 | the counter stays exact if and only if every block of the region was a block of memory in the other state |
| `BlockAllocator.RegionIs` | kernel/arch/x86_64/mm/pmm.c:124-128 | the blocks of a region that reaches a boundary are those wholly inside it |
| `BlockAllocator.MarkStaysIff` | kernel/arch/x86_64/mm/pmm.c:123-131 | the writes stay in the bitmap if and only if the region reaches a block boundary and what lies behind is covered, or the bitmap covers the 2^52 - 1 blocks that a region without boundary wraps to |
| `BlockAllocator.MarkEscapes` | kernel/arch/x86_64/mm/pmm.c:123-131 | a region of 1 KiB inside a block is marked as 2^52 - 1 blocks |
| `BlockAllocator.Allocator.TryAligned` | kernel/arch/x86_64/mm/pmm.c:91-97 | one attempt takes the lowest run if it is aligned and otherwise restores the bitmap with the hint at its start |
| `BlockAllocator.Allocator.AllocBlockAligned` | kernel/arch/x86_64/mm/pmm.c:85-99 | stops on alignment 0 or no multiple of the block size; otherwise succeeds exactly when the lowest run is aligned already: every retry finds the same run |
| `BlockAllocator.AlignedMissed` | kernel/arch/x86_64/mm/pmm.c:85-99 | a bitmap with an aligned free run whose lowest run is not aligned, on which the call returns NULL |
| `BlockRuns.LosslessRuns` | kernel/arch/x86_64/mm/pmm.c:25-134 | over every run of region marks, then allocations that fit at the lowest free block, as single blocks do, and frees of held blocks, every block below the hint is taken; each allocation fails exactly when memory has no such run, a single block exactly when memory is full |
| `BlockRuns.LosslessAlloc` | kernel/arch/x86_64/mm/pmm.c:54-83 | with a lossless hint an allocation fails exactly when memory has no run of its length anywhere, and a single block is the lowest free one |
| `BlockRuns.RunHolding` | kernel/arch/x86_64/mm/pmm.c:58-121 | over every run, of any counts, no block is handed out while held |
| `BlockRuns.RunCounted` | kernel/arch/x86_64/mm/pmm.c:25-134 | the counter is the number of taken blocks over every run whose regions flip all their blocks |
| `BlockRuns.FullCounted` | kernel/arch/x86_64/mm/pmm.c:136-140 | with an exact counter memory is full exactly when used equals total |
| `BlockRuns.RunAlloc` | kernel/arch/x86_64/mm/pmm.c:58-83 | an allocation keeps the hint lossless if and only if its blocks fit at the lowest free block at or above the hint, or nowhere |
| `BlockRuns.HintLoses` | kernel/arch/x86_64/mm/pmm.c:58-83 | after a two-block allocation a single-block one can fail with a block free |
| `ElfLoader.HeadersInFile` | kernel/startup.c:184-255 | every program header of an accepted file is read from inside it |
| `ElfLoader.StrideInSmallFiles` | kernel/startup.c:275-281 | the table stride fits a signed 32-bit integer for all headers exactly when it does for the last one, and always in files up to 2 GiB |
| `ElfLoader.StrideCanOverflow` | kernel/startup.c:275-281 | a larger file can pass every check with a stride that does not fit |
| `ElfLoader.LoadSegment` | kernel/startup.c:285-391 | per address: below the file size the file's data, zero up to the page-rounded end, untouched elsewhere; stopped exactly by a malformed segment or a failed mapping |
| `ElfLoader.SegmentBytes` | kernel/startup.c:359-391 | zeroing the rounded range and copying the file data gives that image of one segment |
| `ElfLoader.LoadStep` | kernel/startup.c:275-407 | loading one more segment turns the image of those before it into the image of all |
| `ElfLoader.LoadSegments` | kernel/startup.c:267-408 | succeeds exactly when the stride fits and every segment is well formed and mapped, and then each byte of memory is as the last nonempty segment covering it says; undefined, from the header before it on, only if a stride does not fit |
| `ElfLoader.ImageUnique` | kernel/startup.c:267-408 | that description determines the final memory |
| `ElfLoader.RoundingAddsNoOverlap` | kernel/startup.c:324-368 | as segments start on page boundaries, their page-rounded ranges meet exactly when the segments do |
| `ElfLoader.AllPresent` | kernel/startup.c:267-408 | segments that do not overlap are all present together, data and zeros |
| `NodePool.Pool.constructor` | mm/kernel_tree.h:435-457 | all nodes are threaded into the free list in order, none held |
| `NodePool.Pool.AllocNode` | mm/kernel_tree.h:460-489 | hands out a node not held; full exactly when every node is held, lock failure exactly when the lock fails, and then nothing changes |
| `NodePool.Pool.InitNode` | mm/kernel_tree.h:492-498 | stores data and hash in one node, held or not, and the free list is untouched |
| `NodePool.Pool.FreeNode` | mm/kernel_tree.h:501-518 | the node becomes the head of the free list; the pool stays sound if and only if it was held; the invalid index is ignored |
| `NodePool.AllocateInv` | mm/kernel_tree.h:473-484 | taking the head leaves the chain of exactly the other free nodes |
| `NodePool.ReleaseInv` | mm/kernel_tree.h:508-515 | freeing a held node puts it in front of the chain |
| `NodePool.ReleaseIff` | mm/kernel_tree.h:501-518 | freeing keeps the pool sound if and only if the node is held |
| `NodePool.RacedBreaks` | mm/kernel_tree.h:501-518 | a free without the lock and an allocation between its writes leave a held node on the free list, to be handed out again |
| `NodePool.PublishIff` | mm/kernel_tree.h:508-513 | a node linked earlier may become the head if and only if the head is still the one it was linked to |
| `NodePool.TakeIff` | mm/kernel_tree.h:473-484 | a node read earlier may be handed out if and only if it is still the head and its link the one read |
| `NodePool.PartsAreWhole` | mm/kernel_tree.h:460-518 | with nothing in between, the parts of an operation are the operation |
| `NodePool.NextSoundIff` | mm/kernel_tree.h:460-518 | for threads whose operations are in parts, and frees that go on without the lock and give it up all the same, a step keeps the pool sound if and only if it finds what its operation read |
| `NodePool.StartSound` | mm/kernel_tree.h:435-457 | a pool just threaded is sound |
| `NodePool.LockedRuns` | mm/kernel_tree.h:435-518 | when every free takes the lock, over every interleaving each step finds what its operation read, so that the pool stays sound |
| `NodePool.LinkedUnique` | mm/kernel_tree.h:435-457 | the chain from the list head is determined, so a finite one has no cycle |
| `NodePool.RunSound` | mm/kernel_tree.h:435-518 | over every interleaving in which each operation ends with the head it read, the chain through left is duplicate-free and exactly the nodes not held, node_count plus its length is the pool size, no node is handed out twice, and full is reported exactly when all are held |

## Left out

- The search for several contiguous frames (kernel/memory.c:311-330): never called, and its run counter is carried across the wrap.
- Serial output, `kprintf`, inline assembly, CR3 and TLB effects, memory orders of atomics: hardware effects.
- The direct-map loop and the kernel mapping of `memory_init` after the frame bitmap (kernel/memory.c:939-1011): straight-line calls of the mapping modelled here.
- The alignment assertions of `vmm_map_page` and `vmm_unmap_page`: pages are named by number.
- The bitmap is an array of its own and not bytes of the frames it occupies; those frames are marked used.
- KernelHeap.Allocator.Kmalloc: does not say what a growth that wrapped writes behind the break, only exactly when that happens.
- KernelHeap.Allocator.Kfree: the pointer is one that kmalloc returned and that is still allocated, or NULL; the panic on a missing mark is not modelled, since the header read may lie anywhere.
- The contents of heap blocks: only their headers are modelled, and the frames under them.
- BlockAllocator.Allocator.FreeBlocks: does not say what writes outside the bitmap do, only exactly when there are any.
- BlockAllocator.Allocator.MarkRegion: the same.
- The counter of the block allocator is an integer: below zero it would wrap, which an exact counter rules out.
- The mapping of the kernel file itself is taken not to be overwritten by a segment, and page protections are not modelled. Files in the other byte order pass the header check but are read in the host's order, as in the source.
- Interleavings inside one map or unmap, whose frame operations other cores' may come between: each is one step.
- SchedulerRuns.RunKeeps: the runs end before the number of the next task wraps at 2^32.
- Limits on the length of address strings in the rate limiter (45 characters): the whole string is compared.
- Sockets, `recv_full`, `send_full`, command handling and logging of net/network.c, and the rest of net/: input and output.
- The binary search tree of mm/kernel_tree.h: the file is cut off in the middle of it. Its ring buffer and visit bitmap would only add easy members.
- kernel/arch/x86_64/mm/paging.c and vmm.c, arch/x86_64/paging.c, mm/memalloc.cpp, kernel/main.c, arch/x86_64/kernel.c and kernel/boot/Main.c: they repeat what is modelled here in a simpler form, or keep no invariant as written.
- Interrupt and segment tables, timers, console, file systems, process managers: hardware tables, input and output, or one-branch facts.
