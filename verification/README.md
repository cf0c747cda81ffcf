# A verified model of the toddler-ng kernel core

These Dafny modules model the memory management of the toddler-ng kernel and the concurrent
protocols and round trips around it, and prove what the code keeps over whole runs.

- **Pages.** The boot memory map (`MemMap`, `BootMap`), the page frame database (`PfnDb`), the buddy
  allocator (`BuddyShape`, `BuddyNodes`, `PageFrames`) and the way from the one to the other and through
  any run of requests (`Boot`). The allocator's lists run through per-page nodes whose metadata may be
  stale; the proofs show that its merge test is right all the same, that free and used blocks always
  tile a region, and that the blocks depend only on what is in use.
- **Address spaces.** The intrusive list (`List`), partitions of a range (`Ranges`), the five lists of
  a process (`AddressSpace`), the shootdown protocol between freeing and reuse (`Tlb`), and the two
  together (`Reclaim`).
- **Page tables.** A radix tree with blocks of several sizes (`PageTree`) and the code that edits it
  (`PageTable`); mapping refines a flat map and unmapping undoes it table by table.
- **Protocols.** The one-shot condition variable (`CondVar`) and the barrier on a thread's stack
  (`Barrier`), as systems of atomic steps in any interleaving: what no step breaks, and that every call
  returns if all threads go on moving; the timed wait queue (`WaitQueue`).
- **Allocators.** Identifiers from summarised bitmaps (`IdAlloc`) and structures from slabs (`Slab`).
- **Round trips.** Paths and mounts (`Vfs`), messages (`Message`), printing and reading of numbers over
  shift-and-subtract division (`Numbers`, `Bits`).

`dafny verify dfyconfig.toml` checks the whole project.

How the model relates to the code:

- A condition under which the source panics is a precondition, or it is proved unreachable; where
  callers meet a panic as an outcome (a full memory map, a block to free that does not exist) it is a
  result.
- A section under one lock is one atomic step. Atomic accesses are sequentially consistent.
- Addresses and page numbers are unbounded, except where the code relies on a width: alignment in the
  boot map, requests for address space, order computation, counters that wrap around, division,
  multiplication, printing, reading.
- What other components decide is a parameter: the frames and pages an allocator offers, clock
  readings, the identity of new objects, the schedule of threads.

What the proofs found out about the code, and state:

- `init_palloc` closes a region at a change of tags without opening the next one, so the page at the
  change is managed by no region (`PageFrames.LostAtOddStreak`, `Boot.TagChangeLosesPage`); none is lost
  exactly if no two adjacent free pages have different tags (`PageFrames.NothingLost`, `Boot.NoBorderNoLoss`).
- `claim_memmap_region` is right on a range inside one entry, apart from all entries, or made up of
  whole entries that meet; on every other range it panics or leaves overlapping entries
  (`MemMap.ClaimWorksIffClaimable`).
- `find_free_memmap_region` answers 0 for a region that it has just claimed at address 0, and exactly
  then is its answer wrong (`BootMap.MemoryMap.FindFreeMemmapRegion`, `BootMap.UsableAtZero`).
- A slab with one block per bucket serves one allocation (`Slab.OneBlockServesOnce`); two or more blocks
  are enough (`Slab.TwoBlocksServe`), and `Slab.SizeUp` says which sizes and counts give a single one,
  for example `Slab.SingleBlockSlab`.
- `id_alloc` never counts an allocation, so it goes by the number of frees and not by what is left. It
  is right exactly while the two agree (`IdAlloc.IdObject.IdAlloc`); once all identifiers of a small
  object are out it hands out one that is not in the range (`IdAlloc.ExhaustOneLevel`).
- `is_wait_queue_ready` calls an empty queue ready when the clock stands at its largest value
  (`WaitQueue.FrontAgreesWithScan`).
- `vm_alloc` grants a request of no bytes at a page boundary, or one that wraps around, and leaves
  lists that no longer partition the area (`AddressSpace.EmptyRequest`); any other request keeps them
  right (`AddressSpace.Process.VmAlloc`). The list of stacks for reuse never keeps one, since its
  threshold is 0.

## Model

| member | source | states |
|---|---|---|
| `BuddyShape.SameFreePagesSameFreeBlocks` | src/kernel/mem/palloc.c:213-331 | the set of free blocks with their orders is determined by the set of free pages alone, for any two tiled and coalesced shapes |
| `BuddyShape.SameUsedSameShape` | src/kernel/mem/palloc.c:213-331 | the whole tiling of a region, free and used, is determined by the blocks in use |
| `BuddyShape.FreeBlockIsMaximal` | src/kernel/mem/palloc.c:265-331 | in a coalesced tiling every free block is an aligned free run that no larger aligned free run contains |
| `BuddyShape.MaximalIsFreeBlock` | src/kernel/mem/palloc.c:265-331 | conversely every maximal aligned free run is exactly one free block |
| `BuddyShape.RunInOneBlock` | src/kernel/mem/palloc.c:337-388 | an aligned run of free pages in a coalesced tiling lies inside one free block, so splitting one block serves every request that can be served |
| `BuddyShape.NoBuddyMeansCoalesced` | src/kernel/mem/palloc.c:265-331 | a tiling that is coalesced but for one block is coalesced once that block has no free buddy of its order |
| `BuddyShape.SplitTiles` | src/kernel/mem/palloc.c:213-263 | splitting a free block keeps the tiling |
| `BuddyShape.SplitKeepsPages` | src/kernel/mem/palloc.c:213-263 | splitting changes no page from free to used or back |
| `BuddyShape.SplitCoalesces` | src/kernel/mem/palloc.c:213-263 | after a split the two halves are the only mergeable pair |
| `BuddyShape.MergeTiles` | src/kernel/mem/palloc.c:265-331 | joining two free buddies keeps the tiling |
| `BuddyShape.MergeKeepsPages` | src/kernel/mem/palloc.c:265-331 | joining changes no page from free to used or back |
| `BuddyShape.MergeCoalesces` | src/kernel/mem/palloc.c:265-331 | after a join only the joined block can still have a free buddy |
| `BuddyShape.TakeCoalesces` | src/kernel/mem/palloc.c:357-377 | taking the block that was the exception leaves a coalesced tiling |
| `BuddyShape.GreedyIsCoalesced` | src/kernel/mem/palloc.c:579-626 | the greedy initial decomposition has no mergeable pair |
| `BuddyShape.ExtendGreedy` | src/kernel/mem/palloc.c:579-626 | appending the largest aligned block that fits keeps the decomposition greedy |
| `BuddyNodes.MetadataTestIsGenuine` | src/kernel/mem/palloc.c:265-331 | the test on possibly stale node metadata succeeds if and only if the node is a free block of that order in that region |
| `BuddyNodes.SplitFirstCore` | src/kernel/mem/palloc.c:213-263 | splitting the first block of a list keeps lists, metadata, tiling and the page counter consistent |
| `BuddyNodes.MergePairCore` | src/kernel/mem/palloc.c:265-331 | removing two buddies and inserting their union keeps them consistent, and both removals are possible |
| `BuddyNodes.TakeFirstCore` | src/kernel/mem/palloc.c:357-377 | handing out the first block of a list keeps them consistent |
| `BuddyNodes.GiveBackCore` | src/kernel/mem/palloc.c:488-506 | putting a used block back on its list keeps them consistent |
| `BuddyNodes.UnlinkChain` | src/kernel/mem/palloc.c:116-154 | relinking the predecessor removes exactly one node from an acyclic list |
| `BuddyNodes.AppendGrows` | src/kernel/mem/palloc.c:579-626 | one step of the initial tiling keeps the lists and metadata of the part tiled so far |
| `BuddyNodes.GrownCore` | src/kernel/mem/palloc.c:579-626 | the finished initial tiling is consistent, coalesced and has no block in use |
| `PageFrames.PageAllocator.InsertNode` | src/kernel/mem/palloc.c:105-114 | the node becomes the head of its order list; no other list or region changes |
| `PageFrames.PageAllocator.FindPrevious` | src/kernel/mem/palloc.c:116-154 | the walk ends at the predecessor of the node; its panic is unreachable |
| `PageFrames.PageAllocator.RemoveNode` | src/kernel/mem/palloc.c:116-154 | the node leaves its order list, wherever in it it is; no other list or region changes |
| `PageFrames.PageAllocator.CalcPallocOrder` | src/kernel/mem/palloc.c:165-180 | the least order whose block holds the pages |
| `PageFrames.PageAllocator.BuddySplit` | src/kernel/mem/palloc.c:213-263 | splits a block, from larger ones if need be; fails only if no block of that order or above is free; blocks in use and free pages stay |
| `PageFrames.PageAllocator.BuddyOf` | src/kernel/mem/palloc.c:265-331 | the buddy of an aligned block and the block the two would form |
| `PageFrames.PageAllocator.CombineOnce` | src/kernel/mem/palloc.c:265-331 | one step joins the block with a genuine free buddy, or the region is coalesced already |
| `PageFrames.PageAllocator.BuddyCombine` | src/kernel/mem/palloc.c:265-331 | combining ends in a coalesced region with the same free pages and the same blocks in use |
| `PageFrames.BuddyTest` | src/kernel/mem/palloc.c:265-331 | what the metadata test finds decides whether the region is coalesced |
| `PageFrames.PageAllocator.AllocateBlock` | src/kernel/mem/palloc.c:357-377 | a free aligned run of the order, now in use; 0 if and only if there is no such run |
| `PageFrames.PageAllocator.PallocRegion` | src/kernel/mem/palloc.c:337-388 | grants an aligned block of the least order that holds the pages; fails if and only if that order is the maximal one or no aligned free run of it exists; a failure changes nothing |
| `PageFrames.PageAllocator.PallocTag` | src/kernel/mem/palloc.c:390-428 | grants from the first region with matching tags that has an aligned free run of the order; the result is 0 if and only if no region has one, and then nothing changes; with the mode that asks for all bits, each bit of the mask is set in the tags of the region; with the mode that ignores tags, 0 means that no region at all has such a run |
| `MemTags.MatchSet` | src/kernel/mem/palloc.c:403-408 | SetAll matches if and only if every bit of the mask is set in the tags, SetAny if and only if some bit is, bit by bit over 32 bits |
| `MemTags.MatchUnset` | src/kernel/mem/palloc.c:409-414 | UnsetAll matches if and only if no bit of the mask is set in the tags, UnsetAny if and only if some bit is not |
| `MemTags.MatchRest` | src/kernel/mem/palloc.c:395-402 | Ignore always matches, Exact if and only if all bits agree, an unknown way never |
| `PageFrames.PageAllocator.PallocFirst` | src/kernel/mem/palloc.c:440-442 | tries the ways in turn and grants by the first that any region satisfies |
| `PageFrames.PageAllocator.PallocDirectMapped` | src/kernel/mem/palloc.c:430-449 | the region has the bits of normal and of directly mapped memory, and of direct access if any such region can serve; 0 if and only if no region with the first two bits can serve |
| `PageFrames.PageAllocator.Palloc` | src/kernel/mem/palloc.c:451-473 | 0 if and only if no region at all can serve; a region with better tags is preferred whenever one can serve |
| `MemTags.MappedChoice` | src/kernel/mem/palloc.c:430-449 | the four ways that are tried find exactly the regions with the wanted bits, best first |
| `MemTags.AnyChoice` | src/kernel/mem/palloc.c:451-473 | the seven ways that are tried find every region, best tags first |
| `PageFrames.PageAllocator.FreeBlock` | src/kernel/mem/palloc.c:475-517 | the block goes back on its list and is merged until the region is coalesced |
| `PageFrames.PageAllocator.Pfree` | src/kernel/mem/palloc.c:475-517 | the block is free again and merged as far as it goes; the result is its page count; no other block changes; the history of the region grows by one step |
| `PageFrames.PageAllocator.SameUseSameBlocks` | src/kernel/mem/palloc.c:337-517 | in the history of any region of a valid allocator, two moments with the same blocks in use have exactly the same blocks |
| `PageFrames.PageAllocator.FreeingAllRestores` | src/kernel/mem/palloc.c:337-626 | a region with no block in use consists of exactly the greedy blocks that it was created with |
| `PageFrames.FreeUndoesAlloc` | src/kernel/mem/palloc.c:337-517 | freeing what was just allocated undoes all splits |
| `PageFrames.PageAllocator.PickOrder` | src/kernel/mem/palloc.c:579-626 | the largest order whose aligned block fits before the limit |
| `PageFrames.PageAllocator.InitRegion` | src/kernel/mem/palloc.c:579-626 | the pages of a region are tiled greedily, all free, coalesced, with exact counters |
| `PageFrames.PageAllocator.AddRegion` | src/kernel/mem/palloc.c:579-626 | a new region above the existing ones, which do not change |
| `PageFrames.PageAllocator.InitPalloc` | src/kernel/mem/palloc.c:628-684 | builds one region per run of free pages with equal tags; a page is managed if and only if it is free and the streak of tag changes that ends at it is even; every free page is managed if and only if no two adjacent free pages have different tags |
| `PageFrames.LostAtOddStreak` | src/kernel/mem/palloc.c:645-672 | the scan records a page if and only if it is free and the number of consecutive tag changes that end at it is even |
| `PageFrames.NothingLost` | src/kernel/mem/palloc.c:645-672 | the scan records every free page if and only if no two adjacent free pages have different tags |
| `Boot.TagChangeLosesPage` | src/kernel/mem/palloc.c:628-684 | at the database of two adjacent free pages with different tags the allocator manages the first and not the second |
| `Boot.SortedIsOrdered` | src/kernel/mem/pfn.c:87-148 | the sorted boot map is what the page database asks for |
| `Boot.BordersAreStreak` | src/kernel/mem/pfn.c:87-168 | tag changes in the database are the borders between usable map entries with different tags |
| `Boot.InitMemory` | src/kernel/kernel.c:232-236 | from a sorted boot map over the database to the allocator: a page is managed if and only if it is not page 0, lies wholly inside a usable entry and the streak of tag borders that ends at it is even; a region has the tags of every usable entry that its pages lie in |
| `Boot.NoBorderNoLoss` | src/kernel/mem/palloc.c:628-684 | no usable page but page 0 is lost if and only if no two adjacent pages lie in usable entries with different tags |
| `Boot.ServeAlloc` | src/kernel/mem/palloc.c:390-428 | a request is granted if and only if some region can serve it: the first such region hands out one block of the least order, which the caller then holds; otherwise nothing changes |
| `Boot.ServeRelease` | src/kernel/mem/palloc.c:475-517 | the block goes back to its region, where its pages are free again, and the caller no longer holds it; no other region changes |
| `Boot.Serve` | src/kernel/mem/palloc.c:390-517 | over any sequence of requests and releases each one is answered in its turn, on the state the one before left; the managed pages and the tags of the regions stay the same, and the blocks in use are exactly those that the caller holds |
| `Boot.BootAndServe` | src/kernel/kernel.c:232-236 | from a sorted boot map over any sequence of requests and releases, each answered in its turn from an allocator with nothing in use: every page in use is usable and not page 0, the blocks depend only on what is in use, and once everything is given back every region has the blocks it was created with |
| `Bits.Clz` | src/libk/lib/bit.c:195-215 | the leading zeros bracket the number between two powers of two |
| `Bits.PopCount32` | src/libk/lib/bit.c:152-163 | the number of one bits |
| `Bits.PopCountOfPower` | src/libk/lib/bit.c:152-163 | a number has exactly one bit if and only if it is the power of two below it |
| `PfnBuild.PfnDatabase.ConstructPfndb` | src/kernel/mem/pfn.c:87-168 | every slot is written, and describes the one map entry that its page lies wholly in, or a hole |
| `PfnBuild.PfnDatabase.constructor` | src/kernel/mem/pfn.c:70-87 | there is a slot for every page from the first entry to the last |
| `PfnBuild.PfnDatabase.InitPfndb` | src/kernel/mem/pfn.c:198-213 | every slot describes the entry its page lies wholly in, or a hole; page 0 is withheld |
| `PfnBuild.PageFlags` | src/kernel/mem/pfn.c:87-168 | every page is swappable if it lies in a usable entry and the kernel's otherwise, mapped if it lies in any entry, and without tags outside usable entries; but for page 0 a page is in use if and only if it is the kernel's |
| `PfnBuild.FreeIffUsable` | src/kernel/mem/pfn.c:87-213 | a page is free if and only if it is not page 0 and lies wholly inside one usable entry, and then it has the tags of that entry |
| `PfnBuild.InsideOnlyOne` | src/kernel/mem/pfn.c:87-168 | a page lies wholly inside at most one entry of an ordered map |
| `PfnBuild.BetweenIsHole` | src/kernel/mem/pfn.c:87-168 | a page between two rounded entries lies wholly inside none |
| `MemMap.ClaimWorksIffClaimable` | src/libk/lib/memmap.c:110-199 | a claim retypes exactly the claimed addresses and keeps the map sorted if and only if the range is claimable; otherwise it panics or leaves overlapping entries |
| `MemMap.InsideOrApartIsClaimable` | src/libk/lib/memmap.c:110-199 | a range inside one entry or apart from all entries is claimable |
| `MemMap.ClaimCorrect` | src/libk/lib/memmap.c:110-199 | the claim loop retypes exactly the claimed addresses |
| `MemMap.ClaimFails` | src/libk/lib/memmap.c:110-199 | on a range that is not claimable the loop panics or leaves overlapping entries |
| `MemMap.MergeRetypes` | src/libk/lib/memmap.c:93-108 | merging equal neighbours changes the type of no address and keeps the map sorted |
| `MemMap.MergeMerges` | src/libk/lib/memmap.c:93-108 | merging leaves no two neighbours that touch and have the same type |
| `MemMap.SameTypesSameMap` | src/libk/lib/memmap.c:93-108 | a sorted and merged map is determined by the types of the addresses |
| `MemMap.SameTypesSameMerge` | src/libk/lib/memmap.c:93-108 | two sorted maps that give every address the same type have the same merge |
| `MemMap.ClaimIsDetermined` | src/libk/lib/memmap.c:110-199 | the map after a claim depends on the types of the addresses before it and not on how the entries were cut |
| `BootMap.MemoryMap.InsertEntry` | src/libk/lib/memmap.c:19-32 | an entry is inserted in place, unless the map is full |
| `BootMap.MemoryMap.RemoveEntry` | src/libk/lib/memmap.c:39-53 | an entry is removed in place and the slot it frees is zeroed |
| `BootMap.MemoryMap.SplitEntry` | src/libk/lib/memmap.c:55-69 | an entry is cut in two at the offset, unless the map is full |
| `BootMap.MemoryMap.SplitMiddle` | src/libk/lib/memmap.c:71-91 | an entry is cut in three and the middle one retyped, unless the map is full |
| `BootMap.MemoryMap.MergeConsecutive` | src/libk/lib/memmap.c:93-108 | the in-place merge equals the merge of the values and leaves no two neighbours that touch and have the same type |
| `BootMap.MemoryMap.ClaimStep` | src/libk/lib/memmap.c:118-186 | one turn of the loop in place equals one turn on the values, full map included |
| `BootMap.MemoryMap.ClaimMemmapRegion` | src/libk/lib/memmap.c:110-199 | the in-place claim, panics included, equals the claim of the values and leaves equal neighbours merged |
| `BootMap.MemoryMap.FindFreeMemmapRegion` | src/libk/lib/memmap.c:259-308 | claims the lowest aligned block in the first usable entry with the wanted tags that holds one: it was usable throughout and is now used, and no other address changes; if no entry holds one nothing changes; the answer 0 means that no entry suits if and only if the first suitable entry does not start at address 0 |
| `BootMap.LowestNext` | src/libk/lib/memmap.c:265-274 | an entry passes the test of the search if and only if it holds an aligned block of the size, and the lowest one is where the search claims |
| `BootMap.UsableAtZero` | src/libk/lib/memmap.c:259-308 | on a map with a usable entry at address 0 the search claims it and answers 0 |
| `BootMap.BootGrantsDisjoint` | src/libk/lib/memmap.c:259-308 | over any run of boot allocations no two regions overlap |
| `List.List.Insert` | src/kernel/struct/list.c:45-60 | the node comes after the given one; all links stay consistent and the count is exact |
| `List.List.Remove` | src/kernel/struct/list.c:24-43 | the node is out of the list; all links stay consistent |
| `List.List.FindPlace` | src/kernel/struct/list.c:62-88 | on any list, sorted or not, the search ends at a place; its panic is unreachable |
| `List.List.InsertSortedNode` | src/kernel/struct/list.c:62-88 | the node goes before the first one that does not compare smaller |
| `List.List.Merge` | src/kernel/struct/list.c:90-106 | the node is merged with a predecessor it touches and then with a successor the result touches; at most two nodes are left over |
| `List.List.InsertMergeSorted` | src/kernel/struct/list.c:108-117 | sorted insertion followed by both merges |
| `List.List.PopFront` | src/kernel/struct/list.c:154-157 | the first node leaves the list, if there is one |
| `List.List.PopBack` | src/kernel/struct/list.c:159-162 | the last node leaves the list, if there is one |
| `List.List.PushBack` | src/kernel/struct/list.c:149-152 | the node becomes the last |
| `List.InsertSortedKeepsOrder` | src/kernel/struct/list.c:62-88 | sorted insertion keeps an ascending list ascending |
| `Ranges.CutKeepsPartition` | src/kernel/proc/vm.c:210-244 | replacing a block of a partition by blocks that cover it keeps the partition |
| `Ranges.InsertMergeKeeps` | src/kernel/proc/vm.c:48-59 | inserting a missing block into the sorted free list with merging keeps the partition and leaves no two free blocks touching |
| `Ranges.AloneIsWhole` | src/kernel/proc/vm.c:367-383 | free blocks that do not touch and cover the whole area are the one block that is the area |
| `Ranges.SameBusySameFree` | src/kernel/proc/vm.c:367-383 | the free list is determined by the busy blocks |
| `AddressSpace.Process.constructor` | src/kernel/proc/vm.c:72-86 | a process starts with its whole area available in one block |
| `AddressSpace.Process.VmAlloc` | src/kernel/proc/vm.c:167-272 | with a base, refuses if and only if no available range starts at or below the rounded base and ends at or above the rounded end; without one, if and only if every available range is smaller than the rounded size; takes the first that fits, in words of 64 bits; a refusal changes nothing; a granted request cuts the block and joins the sorted list of blocks in use; counters stay exact; partition and order survive if and only if the rounded end is above the rounded base |
| `AddressSpace.Process.TakeAt` | src/kernel/proc/vm.c:210-244 | the four ways to cut a block, empty and wrapping requests included, and what they do to the spare structs |
| `AddressSpace.CarvedOk` | src/kernel/proc/vm.c:210-244 | cutting a range that lies inside an available block keeps partition and order, whichever of the four ways applies |
| `AddressSpace.GrantedOk` | src/kernel/proc/vm.c:167-272 | putting a range to use keeps partition and order if and only if it is not empty and ends inside the area |
| `AddressSpace.Process.FindFit` | src/kernel/proc/vm.c:184-197 | the first available block that is large enough, or that contains the requested range where a base is given; every earlier one is too small, or does not contain it |
| `AddressSpace.RoundingIsTight` | src/kernel/proc/vm.c:169-170 | rounding goes to the nearest page boundaries below and above |
| `AddressSpace.RequestIsCovered` | src/kernel/proc/vm.c:169-171 | a request that does not wrap around becomes exactly the whole pages that it touches |
| `AddressSpace.WholeArea` | src/kernel/proc/vm.c:167-272 | a fresh process grants its whole area to a request of that size |
| `AddressSpace.Process.VmAllocThread` | src/kernel/proc/vm.c:92-165 | a stack comes from the reuse list or off the end of the last available block; fails, changing nothing, if and only if both are impossible |
| `AddressSpace.Process.TakeBack` | src/kernel/proc/vm.c:116-138 | cuts the end off the last available block or changes nothing |
| `AddressSpace.Process.FreeRemovedBlock` | src/kernel/proc/vm.c:278-308 | a stack passes through the reuse list and its lowest block is queued for sanitizing; any other block is queued itself |
| `AddressSpace.Process.VmFree` | src/kernel/proc/vm.c:316-330 | frees the block in use at the base, if there is one, and says which block is to be sanitized |
| `AddressSpace.Process.VmPurge` | src/kernel/proc/vm.c:389-406 | no block stays in use and the count is theirs; all of them arrive on the list of blocks to sanitize, but for those that change places with stacks waiting for reuse |
| `AddressSpace.Process.MoveToSanitUnmapped` | src/kernel/proc/vm.c:442-448 | the block moves from one sanitizing list to the other |
| `AddressSpace.Process.ReturnToAvail` | src/kernel/proc/vm.c:367-383 | the block rejoins the available list, merged; merged structs are freed and the counters stay exact |
| `AddressSpace.Process.MoveSanitToAvail` | src/kernel/proc/vm.c:367-383 | all sanitized blocks become available; if nothing is active any more the available list is the one original block |
| `AddressSpace.Process.Drained` | src/kernel/proc/process.c:162-180 | when no block is active, the available list is the original block and exactly one struct is live |
| `AddressSpace.Process.VmDestroy` | src/kernel/proc/vm.c:408-436 | the last step frees one struct and leaves none |
| `AddressSpace.DrainedIsWhole` | src/kernel/proc/process.c:162-180 | a layout without active blocks is one whole block |
| `AddressSpace.SameActiveSameAvail` | src/kernel/proc/vm.c:367-383 | however blocks were handed out and returned, the same active blocks leave the same available list |
| `AddressSpace.CutMiddleOk` | src/kernel/proc/vm.c:224-235 | cutting the middle out of a block keeps partition and order |
| `AddressSpace.ReturnOk` | src/kernel/proc/vm.c:367-383 | returning a block with merging keeps partition and order |
| `AddressSpace.FreedOk` | src/kernel/proc/vm.c:278-308 | freeing a block keeps partition and order |
| `AddressSpace.RequestIsEmpty` | src/kernel/proc/vm.c:167-171 | a request covers a page unless it asks for nothing at a page boundary |
| `AddressSpace.BadBlockBreaks` | src/kernel/proc/vm.c:246-253 | a block in use that is empty or ends past the area breaks the partition |
| `AddressSpace.EmptyRequestTouches` | src/kernel/proc/vm.c:224-235 | an empty request strictly inside an available block cuts it into two that touch |
| `AddressSpace.EmptyRequest` | src/kernel/proc/vm.c:167-272 | no bytes at a page boundary inside a fresh area: granted, an empty block is in use, the available block is in two touching pieces, and the lists are no longer right |
| `Tlb.ReleasedWasSeenByAll` | src/kernel/proc/tlb.c:73-137 | in every interleaving, a block is released only after every CPU has invalidated it |
| `Tlb.SeenIsPrefixOfAsked` | src/kernel/proc/tlb.c:96-117 | each CPU invalidates each request at most once and in order |
| `Tlb.QueueIsOrdered` | src/kernel/proc/tlb.c:73-137 | sequence numbers in the queue strictly increase and stay below the next one |
| `Tlb.QueueIsCounted` | src/kernel/proc/tlb.c:73-137 | every queued request, the last one included, waits for exactly the CPUs behind it |
| `Tlb.RunKeepsInv` | src/kernel/proc/tlb.c:73-137 | every interleaving of requests, walks and reaps keeps the invariant |
| `Tlb.WalkKeeps` | src/kernel/proc/tlb.c:96-117 | a walk keeps the invariant and brings the CPU up to date |
| `Tlb.ReapKeeps` | src/kernel/proc/tlb.c:119-137 | a reap keeps the invariant |
| `Tlb.ReapTakesAllReady` | src/kernel/proc/tlb.c:119-137 | after a reap no request that everyone acknowledged is queued anywhere |
| `Tlb.EveryoneWalkedReleasesAll` | src/kernel/proc/tlb.c:96-137 | once every CPU has walked, one reap releases everything requested |
| `Tlb.Shootdown.AllSeenAllReleased` | src/kernel/proc/tlb.c:96-137 | once every CPU has invalidated everything and a reap has been made, nothing is queued |
| `Tlb.Shootdown.RequestShootdown` | src/kernel/proc/tlb.c:73-90 | queues the block with the next number and one acknowledgement per CPU; on one CPU serves it on the spot |
| `Tlb.Shootdown.WalkQueue` | src/kernel/proc/tlb.c:96-117 | the loop with its running sequence number equals the step of the protocol |
| `Tlb.Shootdown.ReapQueue` | src/kernel/proc/tlb.c:119-137 | the loop equals the step and leaves no acknowledged request |
| `Tlb.Shootdown.Service` | src/kernel/proc/tlb.c:96-137 | one service is a walk and a reap |
| `Reclaim.Reclaimer.BackOnlyAfterAllHaveSeen` | src/kernel/proc/tlb.c:73-137 | in every state of a process and its shootdown queue, an address of a freed block is available or in use again only after every CPU has invalidated that block |
| `Reclaim.Reclaimer.Free` | src/kernel/proc/vm.c:278-330 | the block in use at the base goes to the list of blocks to sanitize and exactly that block is asked for; on one CPU it is unmapped at once |
| `Reclaim.FreedIsRetired` | src/kernel/proc/vm.c:278-308 | with no stack waiting for reuse, the block to sanitize is the freed block itself |
| `Reclaim.Reclaimer.Alloc` | src/kernel/proc/vm.c:167-272 | an allocation between services: grants and refuses as vm_alloc does, and the tie between lists and queue stays |
| `Reclaim.Reclaimer.AllocThread` | src/kernel/proc/vm.c:92-165 | a stack comes off the end of the last available block, since none ever waits for reuse; refused if and only if that block is too small |
| `Reclaim.Reclaimer.ForeignRequest` | src/kernel/proc/tlb.c:73-90 | a request of another process joins the queue and changes nothing in this one |
| `Reclaim.Reclaimer.Service` | src/kernel/proc/tlb.c:96-137 | the CPU has invalidated everything asked; no request with no acknowledgement outstanding stays queued; exactly the own blocks among the newly released requests move, in order, from the one sanitizing list to the other; nothing else changes |
| `Reclaim.Reclaimer.ServeAll` | src/kernel/proc/tlb.c:96-137 | once every CPU has served, in any order, with no request in between, nothing waits and every own block that was asked for is unmapped |
| `Reclaim.Reclaimer.Recover` | src/kernel/proc/vm.c:367-383 | after every CPU has served and the cleaner has run, every address that was to be sanitized is available again, and the whole area if nothing is in use |
| `Reclaim.Reclaimer.Clean` | src/kernel/proc/vm.c:367-383 | every address of a sanitized block becomes available and nothing else changes; the tie between lists and queue stays |
| `Reclaim.BackInAvail` | src/kernel/proc/vm.c:367-383 | an address of a sanitized block is in an available block once the list of sanitized blocks is empty |
| `Reclaim.ReapKeeps` | src/kernel/proc/tlb.c:119-137 | every own block that a reap takes off the queue is found on the list of blocks to sanitize, and moving it on keeps partition and tie |
| `Reclaim.SanitizedIsNowhereElse` | src/kernel/proc/vm.c:278-308 | an address of a block to sanitize is in no block that is available or in use |
| `PageTable.PageTables.Translate` | src/libk/lib/page.c:128-181 | the walk over the tables gives the translation of the tree |
| `PageTable.PageTables.GetBlockLevel` | src/libk/lib/page.c:39-60 | the first level whose blocks are allowed, aligned on both sides and no larger than what is left |
| `PageTable.PageTables.AllocTable` | src/libk/lib/page.c:103-115 | a zeroed table in a frame not in use hangs below the entry; no leaf changes |
| `PageTable.PageTables.MapPage` | src/libk/lib/page.c:198-262 | one leaf is added, tables above it as needed; no other leaf changes and no table is left empty |
| `PageTable.PageTables.MapRange` | src/libk/lib/page.c:264-306 | pages of the range translate in order, every other page as before, whatever blocks are chosen |
| `PageTable.PageTables.MapAddresses` | src/libk/lib/page.c:264-306 | the same for byte addresses: exactly the pages that the range touches are mapped, in order, and the result is their number |
| `PageTable.PageTables.UnmapPage` | src/libk/lib/page.c:312-363 | one leaf is cleared and exactly the tables that become empty are freed |
| `PageTable.PageTables.UnmapRange` | src/libk/lib/page.c:365-398 | pages of the range are unmapped, every other page translates as before |
| `PageTable.PageTables.MapThenUnmap` | src/libk/lib/page.c:264-398 | unmapping what was mapped restores the very same tables in the same frames |
| `PageTable.PageTables.IsEmptyTable` | src/libk/lib/page.c:347-351 | a table counts as empty if and only if no entry is in use |
| `PageTable.UnmapUndoesMap` | src/libk/lib/page.c:264-398 | a tree mapped and unmapped equals the original tree |
| `PageTable.OverlayTranslates` | src/libk/lib/page.c:264-306 | laying the blocks of a range over a tree translates exactly the range anew |
| `PageTable.StripTranslates` | src/libk/lib/page.c:365-398 | taking them out unmaps exactly the range |
| `PageTable.PageInBlock` | src/libk/lib/page.c:39-59 | every page of a range is in one of its blocks, with the right frame |
| `PageTable.BlockInRange` | src/libk/lib/page.c:39-59 | every block lies in the range and maps to the same offset |
| `PageTable.BlockAllowed` | src/libk/lib/page.c:39-60 | every block of a range is at a level that may hold blocks |
| `PageTable.OverlayAllowed` | src/libk/lib/page.c:264-304 | mapping a range puts leaves only at levels that may hold blocks |
| `PageTable.TargetIsFree` | src/libk/lib/page.c:242-262 | where a block is vacant its entry is empty, since a table there would have a leaf |
| `PageTree.SameLeavesSameTree` | src/libk/lib/page.c:312-363 | two parts of one tree without empty tables are equal if their leaves are |
| `PageTree.SameLeavesSameTranslation` | src/libk/lib/page.c:128-181 | translation depends on the leaves only |
| `PageTree.TableHasLeaf` | src/libk/lib/page.c:312-363 | below every table that is not empty there is a leaf |
| `PageTree.LeafIsTranslation` | src/libk/lib/page.c:88-97 | a leaf on the way to a page is its translation |
| `PageTree.UnmappedIsZero` | src/libk/lib/page.c:128-181 | translation gives 0 if and only if there is no leaf on the way |
| `PageTree.LeafKeeps` | src/libk/lib/page.c:242-262 | setting a leaf keeps a tree without empty tables |
| `PageTree.HangKeeps` | src/libk/lib/page.c:212-221 | adding a table keeps the tree, but for the new table |
| `PageTree.ClearKeeps` | src/libk/lib/page.c:343-344 | clearing a leaf keeps the tree, but for its table |
| `PageTree.DropKeeps` | src/libk/lib/page.c:346-362 | freeing an empty table keeps the tree, but for the table above |
| `CondVar.NoLostWakeup` | src/libc/kth/condvar.c:30-97 | in every interleaving, if the signal is set and no signaler is between its first compare-and-swap and the end of its wake call, nobody sleeps or is about to |
| `CondVar.NoEarlyReturn` | src/libc/kth/condvar.c:30-58 | no wait returns before a signal |
| `CondVar.StuckMeansDone` | src/libc/kth/condvar.c:30-97 | if the signal is set and no thread can move, every waiter has returned |
| `CondVar.WakeIsNeverVoid` | src/kernel/proc/wait.c:206-280 | a signaler that reaches the wake call finds the bits as it left them and wakes every sleeper |
| `CondVar.EveryoneReturns` | src/libc/kth/condvar.c:30-97 | if anyone signals, every waiter and every signaler has returned after 4 + 8n rounds in each of which all n threads move, in any order and number |
| `CondVar.SignalArrives` | src/libc/kth/condvar.c:76-80 | a signaler sets the signal within four moves of its own, whatever the others do to the word |
| `CondVar.MoveUsesUp` | src/libc/kth/condvar.c:30-97 | once the signal is set, every move that changes anything uses up one of at most eight moves per thread: no loop can go on forever |
| `CondVar.SpinsOut` | src/libc/kth/condvar.c:35-41 | as long as there is no signal, a waiter looks at the word once more than its spin limit and then turns to the kernel; with a negative limit it spins forever |
| `CondVar.SignalIsForever` | src/libc/kth/condvar.c:71-97 | the signal is never taken back |
| `CondVar.StepKeepsInv` | src/libc/kth/condvar.c:30-97 | every atomic step of every thread keeps the invariant |
| `CondVar.OwedStays` | src/kernel/proc/wait.c:81-160 | a wake-up that is owed to a sleeper stays owed until the wake call |
| `CondVar.SleeperIsOwed` | src/kernel/proc/wait.c:81-160 | a waiter that decides to sleep is owed a wake-up |
| `CondVar.WakeEmpties` | src/kernel/proc/wait.c:206-280 | after the wake call nobody sleeps |
| `Barrier.NobodyLeavesEarly` | src/kernel/atomic/barrier.c:29-80 | a thread that has left its r-th round proves that every thread has arrived in its r-th |
| `Barrier.RoundsStayTogether` | src/kernel/atomic/barrier.c:29-80 | no thread is more than one round ahead of another |
| `Barrier.TouchedRecordIsAlive` | src/kernel/atomic/barrier.c:29-80 | a record is touched only while its owner is in the barrier as the one first thread of the very round the toucher is in |
| `Barrier.SomeoneCanMove` | src/kernel/atomic/barrier.c:29-80 | there is no deadlock |
| `Barrier.EveryonePasses` | src/kernel/atomic/barrier.c:29-80 | if all threads go on moving, every thread arrives as often as asked for: for k arrivals of each of n threads 7(k + 1)n rounds are enough, in each of which all threads move in any order and number |
| `Barrier.MoveAdvances` | src/kernel/atomic/barrier.c:29-80 | every move that changes anything brings its thread further, and no move sets another thread back |
| `Barrier.StepKeepsInv` | src/kernel/atomic/barrier.c:29-80 | every atomic step keeps the invariant |
| `Barrier.ArriveKeeps` | src/kernel/atomic/barrier.c:51-52 | an arrival is counted in the record of the open round |
| `Barrier.ResetKeeps` | src/kernel/atomic/barrier.c:57-63 | the pointer is reset only when all have arrived and nobody is left in the round before |
| `Barrier.DrainKeeps` | src/kernel/atomic/barrier.c:67-71 | the first thread returns only when it is the last |
| `IdAlloc.IdObject.constructor` | src/kernel/struct/id.c:67-92 | every identifier of the range is free, none is out, and every summary bit is right; there are one, two or three levels as the range fits in a word, in a word of words, or needs more |
| `IdAlloc.CreateL2` | src/kernel/struct/id.c:24-40 | two levels with right summaries and exactly the range set |
| `IdAlloc.CreateL3` | src/kernel/struct/id.c:42-65 | three levels with right summaries and exactly the range set |
| `IdAlloc.IdObject.IdAlloc` | src/kernel/struct/id.c:98-140 | -1 if and only if the counter equals the range; the answer is right (-1 when nothing is free, else the least free identifier, and exactly that one is taken) if and only if all identifiers are out exactly when the frees are minus the range in the width of the counter; a wrong answer other than -1 lies outside the range, on one level a word size above the base |
| `IdAlloc.IdObject.CounterSays` | src/kernel/struct/id.c:98-174 | the counter is at the range if and only if the frees are minus the range in its width; nothing is free if and only if the whole range is out |
| `IdAlloc.IdObject.RightUntilExhausted` | src/kernel/struct/id.c:98-140 | before the frees come near the width of the counter, the answer is right if and only if some identifier is left |
| `IdAlloc.ExhaustOneLevel` | src/kernel/struct/id.c:98-140 | a fresh object of one level hands out its whole range and then an identifier outside of it |
| `IdAlloc.IdObject.FindLeast` | src/kernel/struct/id.c:111-117 | following the least bit of each level ends at the least free identifier, or past the end of the bitmaps if there is none |
| `IdAlloc.IdObject.TakeBit` | src/kernel/struct/id.c:121-136 | clears the bit and the summary bits above it exactly as far as words become zero |
| `IdAlloc.IdObject.IdFree` | src/kernel/struct/id.c:146-174 | frees exactly that identifier; the counter goes down by one, wrapping around, and stays minus the number of frees |
| `IdAlloc.IdObject.PutBack` | src/kernel/struct/id.c:156-170 | sets the bit and every summary bit above it, and all summaries stay right |
| `IdAlloc.LeastBelow` | src/kernel/struct/id.c:111-117 | the least bit of the word below the least bit is the least of its level |
| `IdAlloc.PutKeeps` | src/kernel/struct/id.c:121-136 | changing one bit rightly leaves only the bit above it in doubt |
| `IdAlloc.IdObject.CountTrailingZeros` | src/libk/lib/bit.c:245-289 | the least set bit of a word, or the word size if and only if the word is zero |
| `Slab.SlabObject.Salloc` | src/kernel/mem/salloc.c:233-289 | a block no live object has; fails if and only if a new bucket is needed and there are no pages; chains, partial list and counters stay exact |
| `Slab.SlabObject.Sfree` | src/kernel/mem/salloc.c:301-338 | exactly that object is live no more; chains, partial list and counters stay exact |
| `Slab.SlabObject.AllocBucket` | src/kernel/mem/salloc.c:67-104 | all blocks of a new bucket are chained |
| `Slab.SlabObject.Insert` | src/kernel/mem/salloc.c:112-123 | the in-place insertion equals the step on values |
| `Slab.SlabObject.Remove` | src/kernel/mem/salloc.c:125-138 | the in-place removal equals the step on values |
| `Slab.PagesFor` | src/kernel/mem/salloc.c:178-183 | the least power of two of pages that holds the bytes |
| `Slab.SizeUp` | src/kernel/mem/salloc.c:147-217 | at least as many blocks as asked for fit behind the header, on the least power of two of pages, and are aligned; there is a single block if and only if one was asked for and some power of two of pages holds one block of that size and alignment but not two |
| `Slab.LiveObjectsDisjoint` | src/kernel/mem/salloc.c:67-104 | no two live objects overlap |
| `Slab.ObjectInBucket` | src/kernel/mem/salloc.c:67-104 | an object lies inside its bucket and after its header |
| `Slab.ObjectAligned` | src/kernel/mem/salloc.c:163-170 | an object is aligned if its bucket is |
| `Slab.TwoBlocksServe` | src/kernel/mem/salloc.c:233-255 | with two or more blocks per bucket an allocation fails only for want of pages |
| `Slab.OneBlockBreaks` | src/kernel/mem/salloc.c:233-275 | with one block per bucket the first allocation makes the count of partial buckets -1 |
| `Slab.OneBlockServesOnce` | src/kernel/mem/salloc.c:233-275 | with one block per bucket, of any sequence of calls exactly the first that gets pages is served |
| `Slab.SingleBlockSlab` | src/kernel/mem/salloc.c:147-275 | asking for one object of 3000 bytes per bucket gives a single block, and such a slab serves at most one call |
| `Slab.TakeOldKeeps` | src/kernel/mem/salloc.c:233-275 | allocating from a partial bucket keeps every chain, list and counter right |
| `Slab.TakeNewKeeps` | src/kernel/mem/salloc.c:233-275 | allocating from a new bucket does too |
| `Slab.GiveKeeps` | src/kernel/mem/salloc.c:301-332 | freeing in a bucket that keeps live objects does too |
| `Slab.GiveLastKeeps` | src/kernel/mem/salloc.c:301-332 | freeing the last object gives the bucket back |
| `Slab.InsertList` | src/kernel/mem/salloc.c:112-123 | insertion at the head keeps a doubly linked list |
| `Slab.RemoveList` | src/kernel/mem/salloc.c:125-138 | removal from any place keeps a doubly linked list |
| `WaitQueue.FrontAgreesWithScan` | src/kernel/proc/wait.c:62-75 | the readiness check that looks at the front only agrees with a scan of the queue if and only if the queue is not empty or the clock is not at its end |
| `WaitQueue.Queue.Sleep` | src/kernel/proc/wait.c:151-160 | the thread joins before the first one whose deadline is not earlier, and the queue stays sorted |
| `WaitQueue.Queue.Remove` | src/kernel/proc/wait.c:206-271 | taking any thread out keeps the queue sorted |
| `WaitQueue.Queue.IsReady` | src/kernel/proc/wait.c:62-75 | some thread is due, but for an empty queue at the end of the clock |
| `WaitQueue.Queue.WakeExpired` | src/kernel/proc/wait.c:180-204 | under a clock that does not go back, no thread is woken before its time and none that was due at the last reading is left |
| `WaitQueue.InsertSorts` | src/kernel/proc/wait.c:23-34 | sorted insertion keeps deadlines sorted |
| `WaitQueue.Deadline` | src/kernel/proc/wait.c:137-140 | no timeout is the largest time; otherwise the sum, and a time before now where the sum wraps around |
| `Vfs.WalkUndoesRealPath` | src/system/vfs/vfs.c:913-961 | walking the real path of an entry that is neither a symbolic link nor mounted on leads to that entry, across any nesting of mounts |
| `Vfs.CoveredLeadsToMount` | src/system/vfs/vfs.c:275-283 | the path of an entry that is mounted on leads to the root mounted there instead |
| `Vfs.NamesLeadBack` | src/system/vfs/vfs.c:222-308 | walking the names from the root leads back to the entry |
| `Vfs.SegmentsOfPath` | src/system/vfs/vfs.c:240-294 | splitting a real path gives its names |
| `Vfs.LookupFindsChild` | src/system/vfs/vfs.c:190-220 | looking a child up by its name finds it |
| `Vfs.SegmentsConcat` | src/system/vfs/vfs.c:222-300 | a path is split at its slashes, however many there are in a row |
| `Vfs.SlashesCollapse` | src/system/vfs/vfs.c:222-300 | repeated slashes walk like one, and one at the end like none |
| `Vfs.DotStays` | src/system/vfs/vfs.c:191-196 | a segment "." anywhere in a path leaves the walk where it is |
| `Vfs.DotDotGoesUp` | src/system/vfs/vfs.c:197-205 | ".." leads to the parent, from the root of a mount to the parent of the entry it covers, and from the root of all to itself |
| `Vfs.MissingEnds` | src/system/vfs/vfs.c:210-220 | where no cached child has the name the walk ends without an entry, whatever follows |
| `Vfs.EnterUndoesJump` | src/system/vfs/vfs.c:275-283 | entering a mount undoes the jump to its entry |
| `Vfs.SymlinkEnds` | src/system/vfs/vfs.c:229-301 | the walk stops at a symbolic link, whatever follows |
| `Vfs.AttachTakesEffect` | src/system/vfs/vfs.c:48-58 | a newly cached child is found under its name below its parent, and every other entry is still found where it was |
| `Vfs.MountTakesEffect` | src/system/vfs/vfs.c:496-554 | after mounting on an entry its path leads to the new root, and every other entry is still found where it was |
| `Vfs.AttachKeeps` | src/system/vfs/vfs.c:48-58 | caching a new child keeps the tree |
| `Vfs.MountKeeps` | src/system/vfs/vfs.c:496-554 | mounting keeps the tree |
| `Vfs.FileTree.Attach` | src/system/vfs/vfs.c:48-58 | the new entry is the first child of its parent |
| `Vfs.FileTree.Mount` | src/system/vfs/vfs.c:496-554 | mounts, or fails, changing nothing, on an entry that is mounted on or has children |
| `Vfs.FileTree.RealSize` | src/system/vfs/vfs.c:916-925 | the length pass counts the path and its final NUL |
| `Vfs.FileTree.RealPath` | src/system/vfs/vfs.c:913-961 | writes the path and a NUL if and only if they fit; otherwise the buffer is unchanged |
| `Vfs.FileTree.Copy` | src/system/vfs/vfs.c:942-956 | the copy pass writes exactly what the length pass counted |
| `Vfs.FileTree.WalkPath` | src/system/vfs/vfs.c:222-308 | the loop over the path equals the walk of its segments |
| `Message.Msg.AppendParam` | src/libsys/ipc.c:59-63 | the number is appended and nothing else changes |
| `Message.Msg.AppendInt` | src/libsys/ipc.c:65-69 | the int is appended as a word |
| `Message.Msg.TryAppendData` | src/libsys/ipc.c:92-114 | the bytes are appended in a window of whole words if and only if they fit; otherwise nothing changes |
| `Message.Msg.AppendStr` | src/libsys/ipc.c:116-147 | the text up to its first zero or the given size is appended with a final zero; a size without a text only reserves the window; no text and no size is an empty window |
| `Message.Msg.GetParam` | src/libsys/ipc.c:153-159 | the number appended at that index |
| `Message.Msg.GetInt` | src/libsys/ipc.c:161-165 | the int of the number appended at that index |
| `Message.Msg.GetData` | src/libsys/ipc.c:167-182 | the bytes appended at that index, padded to whole words; nothing for an empty window |
| `Message.Msg.SetParam` | src/libsys/ipc.c:205-211 | replaces the number at that index and nothing else |
| `Message.Msg.CopyData` | src/libsys/ipc.c:184-199 | copies as many bytes as window and buffer allow and leaves the rest of the buffer |
| `Message.CopyMsg` | src/kernel/proc/ipc.c:91-118 | the receiver carries exactly what the sender appended |
| `Message.WindowsDisjoint` | src/libsys/ipc.c:71-147 | windows of different parameters share no byte |
| `Message.IntRoundTrip` | src/libsys/ipc.c:65-69 | every int survives the way through a word of 32 or 64 bits |
| `Message.WindowAppended` | src/libsys/ipc.c:71-90 | a new window leaves all earlier parameters as they were |
| `Message.CopyCarries` | src/kernel/proc/ipc.c:91-118 | copying header, parameters in use and words in use copies the message |
| `Numbers.Divide` | src/libk/lib/math.c:107-162 | the quotient and the remainder, for every divisor but 0 |
| `Numbers.Multiply` | src/libk/lib/math.c:9-20 | the product modulo the width |
| `Numbers.ToDec` | src/libk/print/vkprintf.c:21-58 | as many decimal digits as asked for, standing for the number |
| `Numbers.ToHex` | src/libk/print/vkprintf.c:11-41 | as many hexadecimal digits as asked for, standing for the number |
| `Numbers.SkipZeros` | src/libk/print/vkprintf.c:121-124 | the shortest digits for the same number |
| `Numbers.Print` | src/libk/print/vkprintf.c:84-190 | the shortest form in the base of the format, with prefix or sign |
| `Numbers.Stou64` | src/libk/lib/string.c:251-288 | the loop equals the reading of the digits |
| `Numbers.ReadsNumber` | src/libk/lib/string.c:251-288 | any digits in lower or upper case, after an optional sign and prefix and in front of anything else, are read as the number they stand for, negated where there is a sign, modulo 2^64; a letter counts as 0 in base 10 |
| `Numbers.DecimalReadsBack` | src/libk/lib/string.c:251-288 | a plain decimal number is read back |
| `Numbers.HexReadsBack` | src/libk/lib/string.c:251-288 | a plain hexadecimal number is read back, with its prefix or without |
| `Numbers.NegativeReadsBack` | src/libk/lib/string.c:300-308 | a negative decimal number is read back as an int |
| `Numbers.UnsignedRoundTrip` | src/libk/print/vkprintf.c:84-190 | every unsigned number of 32 or 64 bits, printed in decimal or hexadecimal, reads back |
| `Numbers.SignedRoundTrip` | src/libk/print/vkprintf.c:110-126 | every int, printed with its sign, reads back |

## Left out

- Page attributes and the bit layout of page table entries: an entry is invalid, a leaf or a table; the source passes the executable flag where it means the cacheable one.
- PageTable.PageTables.AllocTable: the frame allocator never fails; the source asserts that it does not.
- PageTable.PageTables.MapPage: asks for a vacant block above page 0; the source also accepts a mapping that exists with equal attributes, and panics on a different one and on page 0.
- PageTable.PageTables.MapRange: asks for a vacant range, for the same reason.
- PageTable.PageTables.MapAddresses: asks for a vacant range, for the same reason.
- PageFrames.PageAllocator.InitPalloc: asks for no more runs of pages than there are regions (32); the source does not check and writes past its array.
- Boot.InitMemory: asks for the same bound on the runs of pages of the map.
- PageFrames.PageAllocator.PallocRegion: asks for at most 2^15 pages; the source panics above.
- PageFrames.PageAllocator.PallocDirectMapped: gives 0 where the source panics for want of such pages.
- find_free_memmap_region_for_palloc: the retries of the search with other tags, and reserving the room of the database and of the nodes.
- BootMap.MemoryMap.FindFreeMemmapRegion: asks that rounding up to the alignment does not wrap around, and for two free slots in the map.
- Tags of boot map entries under splitting and merging: tags are looked at only when a region is searched for.
- Reclaim.Reclaimer: allocation asks for a request that keeps the lists right; one process is followed and the requests of all others are any requests.
- AddressSpace.Process: blocks are values in lists; the pointers of the lists are modelled in `List`. Freeing the pages of a block, reference counts of the process and the other `vm_map` calls are not modelled.
- IdAlloc.IdObject.constructor: a range of exactly one machine word is excluded, since the source then shifts by the word size.
- IdAlloc.IdObject.IdAlloc: with several levels and nothing free the source reads and clears bits outside of the bitmaps; what it reads there is a parameter and what it clears is not modelled.
- Tlb: shootdown on CPUs without address space identifiers, where the acknowledgement comes before the flush.
- CondVar: purging of the wait queue when a process exits, and waiting with a timeout.
- Barrier: a barrier for one thread, which returns at once.
- WaitQueue: waking by object is covered only as removal from any place.
- Numbers.Divide: the 64-bit form asks for a quotient below 2^32, since the source shifts a 32-bit one; signed division and 64-bit multiplication are not modelled for the same kind of reason.
- Numbers.Print: the binary format and unknown formats.
- Vfs.FileTree.Mount: asks for an entry that is neither a symbolic link nor the root of another mount; the source mounts on those too, where no walk leads.
- Vfs: looking an entry up in a file system that has not cached it, following symbolic links, trimming the cache.
- Message: the 64-bit parameter helpers and the rest of the IPC rendezvous.
- Slab: constructors and destructors of objects.
- Reader-writer locks, semaphores, futex locks, kernel events, the hash dictionary, the C library's heap, scheduling, IPC queues, drivers, firmware and architecture code.
