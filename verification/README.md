# DESIROS kernel: a verified model

A Dafny model of the core of a small i386 kernel, with proofs of what its memory management, file system blocks,
clock, scheduler and formatted printing do. `dafny verify dfyconfig.toml` checks everything.

- **Kernel memory** (`kernel_state`, `slab_*`, `range_moves`, `paging_lemmas`, `page_contents`, `allocation_costs`, `kernel_contracts`, `kernel`,
  `kmalloc_contracts`, `kernel_theorems`): virtual ranges with first fit, splitting and coalescing; the slab allocator
  that takes its pages from the ranges while the ranges take their structures from it; kmalloc on top of both. One
  class holds the state of the three files. What callers see is stated as the objects and page ranges they *hold*;
  `Inv` is what every operation keeps, and `Quiet` adds that no range is in hand and no two free ranges touch.
- **User address spaces** (`arenas`, `usage_statistics`, `arena_edits`, `address_space`): a list of arenas is read as a
  map from addresses to resource, offset, rights and flags; unmapping deletes from it and mapping overrides it.
- **Physical pages** (`rings`, `page_accounting`, `physmem`): the circular lists as linked objects on the heap, and
  reference counting over two of them.
- **Clock** (`c_arithmetic`, `calendar`, `clock`), **ext2** (`disks`, `directory_records`, `directory`,
  `directory_edits`, `bitmaps`, `inode_slots`, `block_groups`, `products`), **block devices** (`block_devices`),
  **scheduler** (`scheduler`), **printf** (`numerals`, `formats`, `printing`).

Where the code does not do what its comments promise, the model follows the code and says exactly when the promise is
kept:

- A mapping that is glued to the next arena only keeps that arena's offset unshifted (`ArenaEdits.GluedAfterOnly`,
  `AddressSpaces.Mapped`).
- Mapping or unmapping with the right to execute only changes the read-only counter (`UsageStatistics.StepIsExact`).
- The first page of a kernel that starts in the middle of a page, above the BIOS window, is marked free
  (`PhysicalMemory.CoreIsInUse`).
- `alloc_inode` places inodes as if they were 128 bytes without gaps (`InodeSlots.AllocatedSlot`).
- The last second before 2^32 is indistinguishable from the error of `clock_mktime` (`Clock.TimeTReadsBack`).
- `init_cache` accepts one kind of cache that can hold no object (`SlabGeometry.FittedIsShaped`), and divides by 0 for the
  three largest object sizes (`SlabGeometry.InitCache`).
- `free_object` accepts objects that are free already and structures in use (`KernelTheorems.FreedKeepsIff`).
- `add_dir_entry` never looks for room and writes past a full block (`DirectoryEdits.AddDirEntry`,
  `DirectoryEdits.FullBlockHasNoPlace`).
- Two used ranges that `kvmm_setup` makes overlap by a page (`KernelTheorems.SetupOverlaps`).
- `remove_dir_entry` leaves a block with a single record alone (`DirectoryEdits.Removed`).

A structure is named by its address, physical memory, the page table and the disk are explicit state, and the outcome
of allocations made elsewhere is a parameter.

## Model

| member | source | states |
|---|---|---|
| KernelMemory.Kernel.CacheAlloc | mem/kvmm_slab.c:469-556 | the mutual recursion through growing and range allocation terminates; success adds exactly one held object of that cache and failure none; the reserve of range structures is two again either way; the answer is 0 only when the cache had to grow and no free range has the pages that its slabs, an off-slab header and a nested slab of range structures need, or too few physical pages are left; on success the count of free objects tells how many slabs were added |
| KernelContracts.MinimumKept | mem/kvmm_slab.c:523-556 | a cache that has its minimum of free objects still has it after giving one away |
| KernelContracts.SecondFails | mem/kvmm_slab.c:540-552 | when the growth that restores the minimum fails, what was there at the start was too little for both growths |
| AllocationCosts.StarvedWithoutMinimum | mem/kvmm_slab.c:469-556 | a cache without a minimum fails to give an object exactly when it has none and cannot grow |
| KernelTheorems.AllocSucceeds | mem/kvmm_slab.c:469-556 | a cache without a minimum gives an object whenever it has a free one or memory is left for one growth |
| KernelMemory.Kernel.CacheGrow | mem/kvmm_slab.c:366-439 | a grown cache has a slab with a free object at its head; held objects and ranges are as before, on success and on failure; it fails only when nothing fits or too few physical pages are left, the off-slab header counted, and a success uses up no more than a bound |
| KernelContracts.HeaderFails | mem/kvmm_slab.c:418-427 | when no off-slab header can be had after the pages of the slab were, there was too little for both at the start |
| KernelMemory.Kernel.PopObject | mem/kvmm_slab.c:479-521 | the first free object of the head slab, and no other object, becomes held; a slab that becomes full goes to the end of the list, the others stay where they are; all invariants are kept |
| KernelMemory.Kernel.AddSlab | mem/kvmm_slab.c:277-313 | the objects of the new slab are all free, at their places in order, and it goes first in the list; its range and its off-slab header stop being held, every invariant holds |
| KernelMemory.Kernel.ChooseRange | mem/kvmm.c:212-263 | first fit, with the whole range or a split from its front; none only when nothing fits or the slab of structures that a split may need cannot be had |
| KernelMemory.Kernel.SplitRange | mem/kvmm.c:240-263 | the first pages of the chosen range become a new range; only when the reserve of structures had to be restored may it start one page further on, the page that went to structures in between |
| KernelMemory.Kernel.TakeRange | mem/kvmm.c:212-269 | the range taken was free, is the front of the first fit up to one page and joins the used list in order; nothing else changes owner, and nothing is mapped in it |
| KernelMemory.Kernel.MapPages | mem/kvmm.c:275-316 | every page of the range gets a physical page of its own that could still be handed out, different from those of all other pages under management, and whose descriptor names the range; pages outside keep theirs; or the range has more pages than there are physical pages left |
| KernelContracts.MappingGoesOn | mem/kvmm.c:281-316 | one more page of the range gets a physical page that no page under management has; the ones mapped before keep theirs, and every invariant holds |
| PageContents.UnmappedKeepsPages | mem/kvmm.c:365-370 | unmapping a range leaves the physical pages of all that stays held and of every address outside the managed bytes, and loses none |
| PageContents.KeepsPagesTrans | mem/kvmm.c:192-448 | over two operations in a row whatever is held throughout keeps its physical pages |
| KernelMemory.Kernel.NewRange | mem/kvmm.c:212-325 | one more range is held, of the asked size, from the first fit, and when asked each of its pages has its own fresh physical page; whatever was held keeps its physical pages and no physical page is lost; otherwise nothing more is held, and only because no free range has the pages or there are too few physical pages: those to map, and one for structures when the reserve is at two |
| KernelMemory.Kernel.DelRange | mem/kvmm.c:328-448 | the worklist terminates; exactly the range and the ranges of range-structure slabs that became empty leave the used list, nothing is left in hand, and no two free ranges touch |
| KernelMemory.Kernel.PutBack | mem/kvmm.c:358-445 | one turn of the worklist: the current range is free and merged with the neighbours it touches; every range emptied by that waits exactly once |
| KernelMemory.Kernel.MergeAt | mem/kvmm.c:384-401 | two touching free ranges become one, and the range of a structure slab emptied by it comes back as the only new range |
| KernelMemory.Kernel.CoalescePrev | mem/kvmm.c:377-405 | merges with the preceding free range exactly when they touch, the circular predecessor included |
| KernelMemory.Kernel.CoalesceNext | mem/kvmm.c:407-433 | merges with the following free range exactly when they touch; afterwards no two free ranges touch |
| KernelMemory.Kernel.UnmapPages | mem/kvmm.c:365-370 | the pages of the range are mapped no longer and all others as before; exactly the frames that lost their last mapping by it can be handed out again |
| PagingLemmas.UnmapManyUnmaps | mem/kvmm.c:365-370 | the same of the function that the loop computes |
| KernelMemory.Kernel.GetClosestPreceding | mem/kvmm.c:49-68 | the last range of a sorted list that starts no later than the address |
| KernelMemory.Kernel.FindSuitableFree | mem/kvmm.c:75-88 | the first free range of at least that many pages |
| KernelMemory.Kernel.LookupRange | mem/kvmm.c:116-150 | the range found through the physical page, or by scanning, is the one used range that covers the address; none only if there is none |
| KernelMemory.Kernel.FreeObject | mem/kvmm_slab.c:212-274 | an address is accepted exactly when an object of a slab starts there, free ones and structures in use included; then it goes to the front of the free list and nothing else changes, and the slab is named exactly when all its objects are free and the cache keeps its minimum without it; a held object alone stops being held |
| KernelTheorems.FreedKeepsIff | mem/kvmm_slab.c:236-271 | giving back a slot keeps the invariants exactly when a caller holds the object |
| KernelTheorems.FreedTwice | mem/kvmm_slab.c:257-260 | an object that is free already gets on the free list a second time |
| KernelTheorems.FreedStructure | mem/kvmm_slab.c:257-260 | the structure of a range in use is put on a free list |
| KernelTheorems.FreedHeader | mem/kvmm_slab.c:257-260 | the header of a slab in use is put on a free list |
| KernelMemory.Kernel.CacheReleaseSlab | mem/kvmm_slab.c:177-210 | an empty slab leaves its cache and its range becomes free or is handed over; nothing else stops being held |
| KernelMemory.Kernel.CacheFree | mem/kvmm_slab.c:317-332 | answers 0 exactly for slots; a held object is given back and its slab released when empty, a slot that nobody holds only changes the free list, any other address changes nothing |
| KernelMemory.Kernel.ReleaseStructRange | mem/kvmm_slab.c:337-361 | the structure is given back; the range of its slab is returned exactly when that slab disappeared |
| KernelMemory.Kernel.KvmmFree | mem/kvmm.c:476-490 | accepts exactly the bases of page ranges bound to no slab; -4 exactly for bases of ranges bound to one, -1 for all other addresses, and then nothing changes |
| KernelContracts.ManagedIsResolvable | mem/kvmm.c:116-150 | every address under management meets what the lookup expects of a mapped page |
| KernelMemory.Kernel.Kmalloc | mem/kmalloc.c:74-96 | one new block of at least the size asked for and on mapped pages, from the smallest class that holds it, less than four times too large, or as whole pages, each with its own fresh physical page; the answer is 0 only when the cache of the class has no free object and cannot grow, no free range has the pages, there are too few physical pages, or the size is in the last page of 32 bits |
| KernelMemory.Kernel.Kfree | mem/kmalloc.c:99-114 | answers 0 exactly for slots and bases of plain ranges; a block held is no longer held and the others still are; any refused address changes nothing |
| KmallocContracts.BaseIsNoSlot | mem/kmalloc.c:99-114 | the base of a plain range is never a slot, so kfree leaves it to kvmm_free |
| KernelMemory.Kernel.Run | mem/kmalloc.c:74-114 | over any run of kmalloc and kfree, the invariants hold and the blocks held are exactly those allocated and not freed |
| KernelMemory.Kernel.RunRanges | mem/kvmm.c:192-448 | over any run of kvmm_new_range and kvmm_del_range, of any sizes and mapped or not, the ranges held are exactly those taken and not given back, and objects held are untouched |
| KernelTheorems.RunConserves | mem/kvmm.c:192-448 | after such a run the free pages, the pages of the caller and the other pages in use are apart and are together the bytes managed at the start |
| KernelTheorems.SetupOverlaps | mem/kvmm.c:581-600 | two used ranges made at boot overlap exactly when the bootstrap stack ends no later than the kernel |
| KernelTheorems.BlocksApart | mem/kvmm_slab.c:249-313 | live objects, on-slab headers and page ranges in use are pairwise disjoint |
| KernelTheorems.BlockInside | mem/kvmm_slab.c:98-167 | each lies inside its range, and objects lie below an on-slab header |
| KernelTheorems.FramesApart | mem/kvmm.c:281-316 | two mapped addresses of different blocks on different pages are on different physical pages |
| PageContents.ObjectIsBacked | mem/kvmm_slab.c:366-439 | every byte of an object of a cache that maps its slabs is on a mapped page |
| KernelTheorems.FreeAndUsedTile | mem/kvmm.c:95-110 | free and used ranges are disjoint and together cover exactly the managed bytes |
| KernelTheorems.DeletedBytes | mem/kvmm.c:328-448 | deleting a range frees its bytes and those of the cascaded slabs, as if nothing had been merged |
| KernelTheorems.CascadeIsUsed | mem/kvmm_slab.c:337-361 | the ranges freed in cascade were all used ranges of slabs |
| KernelTheorems.StartIsQuiet | mem/kvmm_slab.c:676-719 | a state with one slab of range structures and the caches of kmalloc meets all the invariants and is ready for any run |
| KernelTheorems.KmallocCacheFits | mem/kmalloc.c:34-72 | the caches in that state are what init_cache makes of the table of kmalloc |
| SlabLemmas.HeadTestIsEnough | mem/kvmm_slab.c:479-521 | since full slabs come last, a full or missing head means that the cache has no free object at all |
| SlabLemmas.IsObject | mem/kvmm_slab.c:212-274 | the alignment and bound tests accept exactly the addresses where an object starts |
| SlabLemmas.ObjectsApart | mem/kvmm_slab.c:277-313 | two objects of a slab do not overlap |
| SlabLemmas.PopKeeps | mem/kvmm_slab.c:479-521 | taking an object keeps every invariant, counters and list order included |
| SlabLemmas.PushKeeps | mem/kvmm_slab.c:212-274 | giving an object back keeps every invariant, a slab that was full going first |
| SlabBinding.AddSlabKeeps | mem/kvmm_slab.c:277-313 | binding a new slab to its range keeps every invariant |
| SlabBinding.RemoveSlabKeeps | mem/kvmm_slab.c:177-210 | releasing an empty slab keeps every invariant; its range and off-slab header become held |
| SlabBinding.EmptyHasNoLive | mem/kvmm_slab.c:212-274 | a slab with all its objects on the free list has no live object |
| RangeMoves.CarvedKeeps | mem/kvmm.c:226-263 | splitting pages off the front of a free range keeps every invariant and loses no byte |
| RangeMoves.MergedKeeps | mem/kvmm.c:377-433 | merging touching free ranges keeps every invariant and the managed bytes |
| RangeMoves.UsedPutKeeps | mem/kvmm.c:95-110 | insertion at the place found keeps the used list sorted |
| RangeMoves.FreePutKeeps | mem/kvmm.c:95-110 | insertion at the place found keeps the free list sorted |
| PagingLemmas.LookupAgrees | mem/kvmm.c:116-150 | the descriptor of the physical page names the one used range a scan would find |
| PagingLemmas.UnmappedKeeps | mem/kvmm.c:365-370 | unmapping a range leaves nothing mapped in it and keeps every invariant |
| KmallocContracts.HeldOnce | mem/kmalloc.c:99-114 | no address is both an object held and the base of a range held, so kfree takes the right path |
| KmallocContracts.FreeAnswer | mem/kvmm.c:476-490 | the tests of kvmm_free single out the bases of ranges bound to no slab |
| KmallocContracts.OwnsMore | mem/kmalloc.c:74-96 | a block just allocated was not yet held by its caller |
| KmallocContracts.OwnsLess | mem/kmalloc.c:99-114 | freeing one block leaves the caller the others |
| SlabGeometry.InitCache | mem/kvmm_slab.c:98-167 | as many objects as fit, and the header on the slab exactly when there is room beside them; each error code and when; the division by 0 exactly for object sizes above 2^32 - 4 |
| SlabGeometry.AlignedSizeWraps | mem/kvmm_slab.c:108-118 | the aligned size is 0 exactly for sizes above 2^32 - 4, and otherwise the next multiple of 4 |
| SlabGeometry.FittedIsUnique | mem/kvmm_slab.c:120-165 | the parameters determine the cache |
| SlabGeometry.FittedIsShaped | mem/kvmm_slab.c:140-165 | an accepted cache has the shape the allocator relies on unless it can hold nothing, which happens exactly when a header was asked for without room beside an object |
| Words.AlignSupIsEnough | include/macros.h:28-30 | alignment rounds up by less than a page, and wraps to 0 exactly for sizes in the last page |
| AddressSpaces.AddressSpace.Unmap | mem/uvmm.c:323-509 | addresses of the interval disappear, every other address keeps resource, offset, rights and flags; the answers in order; the counters stay the sums |
| AddressSpaces.AddressSpace.UnmapInterval | mem/uvmm.c:352-489 | the loop over the circular list terminates having cut every arena that meets the interval |
| AddressSpaces.AddressSpace.CutArena | mem/uvmm.c:370-487 | each of the four cases replaces the arena by what is left of it, and says whether a later arena can be concerned |
| AddressSpaces.AddressSpace.FindEnclosingOrNext | mem/uvmm.c:221-240 | the first arena that ends after the address |
| AddressSpaces.AddressSpace.MapInterval | mem/uvmm.c:801-917 | on a free interval: map override, unless the request is continued by the next mapping but does not continue the previous one; then offsets are wrong by its size, exactly |
| AddressSpaces.AddressSpace.Glue | mem/uvmm.c:819-892 | the four cases give the one list in which the request and the neighbours it continues are one arena |
| AddressSpaces.AddressSpace.MapFixed | mem/uvmm.c:687-928 | the errors in the order of the tests; on success the interval is unmapped and every address of the request shows the resource from the offset asked for, or from the address itself if it is anonymous, with its rights, unless the request is glued to the next arena alone |
| AddressSpaces.AcceptedMaps | mem/uvmm.c:707-779 | a map at a fixed address is accepted exactly for a positive size that does not wrap, a page-aligned user interval below the top, an offset that does not wrap unless anonymous, and, if shared, rights that the resource allows |
| AddressSpaces.AcceptedUnmaps | mem/uvmm.c:329-340 | an unmap is accepted exactly for a page-aligned user interval of positive size rounded up to pages, or a size in the last page of 32 bits, which unmaps nothing |
| AddressSpaces.RequestIsShown | mem/uvmm.c:797-919 | the pages of a request show its resource from its offset on, unless it is glued to the next arena alone |
| AddressSpaces.AddressSpace.AccountChange | mem/uvmm.c:987-1043 | each counter moves by the size, up, down or not at all, in the whole address space and, for shared arenas, in the shared part |
| AddressSpaces.AddressSpace.Run | mem/uvmm.c:323-928 | over any run of unmaps and fixed maps that are not execute-only, arenas stay sorted and disjoint and all counters equal the sums they stand for |
| AddressSpaces.PlacedOverrides | mem/uvmm.c:801-919 | a fixed mapping overrides its interval and leaves every other address alone, exactly when it is not glued to the next arena alone |
| ArenaEdits.CutMeaning | mem/uvmm.c:370-487 | cutting one arena unmaps only addresses of the interval |
| ArenaEdits.CutCounts | mem/uvmm.c:392-482 | the bytes counted off are those of the arena in the interval |
| ArenaEdits.BeforeIsTested | mem/uvmm.c:819-826 | the test on the previous arena holds exactly when its mapping continues into the request |
| ArenaEdits.AfterIsTested | mem/uvmm.c:828-835 | the test on the next arena holds exactly when the request continues into its mapping |
| ArenaEdits.GluedMeaning | mem/uvmm.c:837-892 | gluing maps the request and changes no other address, in three of the four cases |
| ArenaEdits.GluedAfterOnly | mem/uvmm.c:860-866 | glued with the next arena only, the request and that arena end up too far in the resource by the size of the request |
| AddressSpaces.OnePageTooFar | mem/uvmm.c:860-866 | a concrete request glued to the next arena only, which is mapped one page too far |
| ArenaEdits.GluedCounts | mem/uvmm.c:917-917 | gluing adds the size of the request to the sums of the counters that count its rights |
| UsageStatistics.StepIsExact | mem/uvmm.c:1010-1043 | a change of rights is counted as it should exactly when the right to write changes, or neither side may write and the right to read changes |
| UsageStatistics.CountableIsExact | mem/uvmm.c:1010-1043 | mapping and unmapping are counted exactly unless the rights are execute-only |
| UsageStatistics.ExecuteOnly | mem/uvmm.c:1023-1026 | an execute-only arena takes its size off the read-only counter when mapped and again when unmapped |
| UsageStatistics.SumFits | mem/uvmm.c:1000-1008 | the sums fit in a word, so the counters equal them |
| Rings.InsertAtLeft | include/list.h:53-58 | the item joins the circle just before another one; before the head is also after the tail |
| Rings.InsertBefore | include/list.h:61-64 | the item joins before another one, and becomes the head before the head |
| Rings.InsertAfter | include/list.h:67-72 | the item joins after another one |
| Rings.AddHead | include/list.h:74-80 | the ring lists the item, then the old contents |
| Rings.AddTail | include/list.h:82-87 | the ring lists the old contents, then the item |
| Rings.DeleteItem | include/list.h:90-99 | the ring lists the other items in order, and the item has no links left |
| Rings.PopHead | include/list.h:101-104 | the head comes out, the rest stays a ring |
| Rings.Foreach | include/list.h:108-112 | visits each item once, from head to tail |
| Rings.Collapse | include/list.h:130-134 | empties the list, item by item from the head |
| PhysicalMemory.PhysMem.Setup | mem/physmem.c:64-171 | on success page i has count 1 exactly when it is in the BIOS window or between the start of the kernel and the end of the descriptors, and 0 otherwise; both rings are well formed and list their pages from the last to the first; the descriptors of all pages fit behind the kernel; otherwise both are empty |
| PhysicalMemory.PhysMem.RefNew | mem/physmem.c:175-195 | the first free page goes to the end of the used ring with one reference, or 0 |
| PhysicalMemory.PhysMem.RefAt | mem/physmem.c:220-245 | one more reference; a free page changes rings; the answers |
| PhysicalMemory.PhysMem.Unref | mem/physmem.c:248-279 | one reference less; a page without any goes to the head of the free ring; the answers |
| PhysicalMemory.PhysMem.Run | mem/physmem.c:64-279 | any run keeps the rings well formed and the accounts those of PageAccounting.Run |
| PhysicalMemory.InitialOK | mem/physmem.c:100-167 | after the setup the two lists share out all the pages but page 0, by their counts |
| PhysicalMemory.InitialCounts | mem/physmem.c:100-167 | the pages in use are those of the BIOS window and of the kernel |
| PhysicalMemory.CountsAtStart | mem/physmem.c:116-167 | the count of each page after the setup, from its address, the window and the kernel |
| PhysicalMemory.InitialDescends | mem/physmem.c:145-167 | the setup leaves both lists in descending order |
| PhysicalMemory.CoreTopIs | mem/physmem.c:83-91 | the top of the kernel is the end of its image and the size of the descriptors, both rounded up to pages, modulo 2^32; without a wrap it is no lower than the end of the descriptors |
| PhysicalMemory.CoreIsInUse | mem/physmem.c:116-143 | all the pages of the kernel are in use exactly when it is not below the BIOS window and does not start above it in the middle of a page |
| PhysicalMemory.UnalignedKernel | mem/physmem.c:130-141 | a concrete kernel whose first page is marked free |
| PageAccounting.StepKeeps | mem/physmem.c:175-279 | every call keeps the free list to the pages with count 0 and the used list to the others |
| PageAccounting.Answers | mem/physmem.c:175-279 | the answer of each call from the count before it: a new reference to a free page answers 0 and to one in use 1, the last reference given back answers 1, another one 0, and a page without descriptor or references -1 |
| PageAccounting.RunCounts | mem/physmem.c:175-279 | after any run the count of a page is its count before plus references taken minus references given back |
| PageAccounting.NewIsUnreferenced | mem/physmem.c:175-195 | a page handed out as new is one that nobody holds, at any point of any run |
| PageAccounting.NewThenUnref | mem/physmem.c:175-279 | giving a new page straight back restores both lists, in order |
| Clock.Tm.MkTime | clock.c:39-153 | for all fields, the instant is kept while normalising; the answer is that instant modulo 2^32, or -1 before 1970 or above 2^32 - 1; the day of the year, the instant and the weekday of the date, written out without the table of months |
| Clock.Tm.NormaliseTime | clock.c:47-64 | seconds, minutes and hours end up in their ranges and the total, with the days carried, is the same |
| Clock.Tm.NormaliseMonth | clock.c:65-70 | the month ends up in its range and counts the same months |
| Clock.Tm.NormaliseDay | clock.c:71-85 | both loops terminate with a day that its month has, at the same instant |
| Clock.Tm.DaysBeforeYear | clock.c:97-111 | the closed form is the number of days before the year; the overflow tests only succeed on instants out of range |
| Clock.Tm.DayOfYear | clock.c:113-119 | the days of the months before, and the day |
| Clock.Tm.CountSeconds | clock.c:87-149 | the sum is the instant, and -1 exactly for instants above 2^32 - 1, which the overflow tests single out; the day of the year and the weekday |
| Calendar.DaysBeforeIs | clock.c:30-31 | the days before a month from a formula in place of the table: 0, 31, and (153 (mon - 2) + 2) / 5 + 59, one more in a leap year |
| Calendar.DaysToIs | clock.c:97-119 | the days from 1970 to any month of any year in closed form |
| Clock.SameFormula | clock.c:97-130 | the instant of a normalised date equals section 4.16 of IEEE Std 1003.1-2017 |
| Clock.BeforeTheEpoch | clock.c:88-88 | the year is before 1970 exactly when the instant is negative |
| Clock.TimeTReadsBack | clock.c:152-152 | the signed answer determines the instant; the last second answers like an error |
| Calendar.ClosedForm | clock.c:97-111 | the closed form is the sum of the lengths of all the years since 1970 |
| Calendar.YearAddsUp | clock.c:30-31 | the twelve months of the table make up a year |
| Calendar.LeapYearIsGregorian | clock.c:20-20 | the macro with C remainders is the Gregorian rule, for negative years too |
| Calendar.QuotientsCountLeapDays | clock.c:104-111 | truncated quotients and their corrections are the floors of the standard formula |
| CArithmetic.Truncated | clock.c:47-66 | C quotients and remainders, for negative numbers too |
| Directories.FindDirEntry | fs/ext2/ext2_internal.c:136-184 | finds a name exactly when some record of the directory has it, and copies the first one that does; the loop over the blocks terminates |
| DirectoryEdits.RemoveDirEntry | fs/ext2/ext2_internal.c:466-504 | the record chain still covers the block exactly and lists the same entries in order minus the one of that name; untouched when the name is not there, when the record is alone, and outside the block |
| DirectoryEdits.AddDirEntry | fs/ext2/ext2_internal.c:433-464 | the block lists the old entries and then the new one exactly when the new name ends inside it; with room for the padded record nothing outside the block changes, and without it only what follows the last record does |
| DirectoryEdits.AddedPastTheEnd | fs/ext2/ext2_internal.c:449-463 | without a place for the name the block does not list the new entry |
| DirectoryEdits.RoomIsPlace | fs/ext2/ext2_internal.c:449-463 | with records on multiples of 4 the record is written inside the block exactly when the name fits |
| DirectoryEdits.FullBlockHasNoPlace | fs/ext2/ext2_internal.c:449-463 | a concrete full block, after which any new record lands in the next one |
| DirectoryEdits.AddedThenRemoved | fs/ext2/ext2_internal.c:433-504 | a name added is found, and removing it gives back the old listing |
| DirectoryEdits.RemovedIsGone | fs/ext2/ext2_internal.c:466-504 | after removing a name that is there at most once no record has it, exactly when its record was not the only one |
| DirectoryRecords.ChainShift | fs/ext2/ext2_internal.c:136-184 | a listing depends on the bytes of the block alone, wherever they are copied to |
| DirectoryRecords.RecordsList | fs/ext2/ext2_internal.h:183-189 | records written one after the other, byte by byte, list their inodes, types and names in order |
| Disks.StrCmp | klibc.c:107-117 | 0 exactly when the two C strings are the same |
| BlockGroups.Ext2.AllocBlock | fs/ext2/ext2_internal.c:346-366 | sets the lowest clear bit of the first usable group that has one, and nothing else on the disk: bit n % 8 of byte n / 8 of the bitmap block of the group, n being the rank of the block in it |
| BlockGroups.Ext2.FreeBlock | fs/ext2/ext2_internal.c:407-418 | clears the bit of the block, at the same place, and nothing else |
| BlockGroups.Ext2.ReadInode | fs/ext2/ext2_internal.c:217-256 | returns the bytes of the slot of the inode, at its rank in the table of its group |
| BlockGroups.Ext2.WriteInode | fs/ext2/ext2_internal.c:258-283 | replaces the bytes of the slot, at the same place, and nothing else; the error for numbers below 1 |
| BlockGroups.Ext2.AllocInode | fs/ext2/ext2_internal.c:368-391 | takes the first clear bit of the bitmap in memory, sets it on the disk at its place in the inode bitmap block of the group, and writes the inode at its packed place; no other byte changes |
| BlockGroups.AllocatedMeans | fs/ext2/ext2_internal.c:346-366 | the specification of alloc_block in terms of blocks, bytes and bits |
| BlockGroups.FreedMeans | fs/ext2/ext2_internal.c:407-418 | the same for free_block |
| BlockGroups.InodeAllocatedMeans | fs/ext2/ext2_internal.c:368-391 | the same for alloc_inode |
| BlockGroups.SlotMeans | fs/ext2/ext2_internal.c:233-245 | the address of an inode: so many whole blocks into the table of its group, and so many inodes into the block |
| BlockGroups.AllocThenFree | fs/ext2/ext2_internal.c:346-418 | a block allocated and then freed leaves the whole disk as it was |
| BlockGroups.AllocSetsOne | fs/ext2/ext2_internal.c:346-366 | no block that was marked in any group is handed out, and no other bit of any group changes |
| BlockGroups.WriteThenRead | fs/ext2/ext2_internal.c:217-283 | an inode written is the one read back, and no other inode changes |
| BlockGroups.AllocatedInodeIsRead | fs/ext2/ext2_internal.c:217-391 | an inode allocated is read back under its number, for 128-byte inodes and for the first inode of a group |
| BlockGroups.AllocKeepsSync | fs/ext2/ext2_internal.c:368-391 | the bitmaps in memory stay those on the disk |
| InodeSlots.SlotsApart | fs/ext2/ext2_internal.c:233-245 | different inode numbers have disjoint bytes |
| InodeSlots.AllocatedSlot | fs/ext2/ext2_internal.c:380-382 | the place used by alloc_inode is where the inode is looked for exactly when inodes are 128 bytes or it is the first of its group |
| InodeSlots.SecondInode | fs/ext2/ext2_internal.c:380-382 | with 256-byte inodes the second inode of a group is looked for elsewhere |
| Bitmaps.MarkSetsOne | fs/ext2/ext2_internal.c:357-358 | marking or unmarking changes one bit |
| Bitmaps.BitWeight | fs/ext2/ext2_internal.c:353-358 | bit k of a byte is the digit of weight 2^k |
| Bitmaps.UnmarkAfterMark | fs/ext2/ext2_internal.c:413-415 | unmarking a bit just marked restores the byte |
| BlockDevices.GenericRead | block_dev.c:232-288 | terminates with exactly the bytes of the disk from the first block of the device plus the offset on, as many as asked for or left on the device, for any offset, length and block size; the rest of the buffer is untouched |
| BlockDevices.ReadBlock | block_dev.c:245-280 | the wanted part of one block |
| BlockDevices.PartitionIsPart | block_dev.c:185-195 | reading a partition inside its parent, itself a partition or not, is reading the parent from the first block of the partition on, cut at its end |
| BlockDevices.Registry.RegisterPartition | block_dev.c:155-207 | the errors; identities and unique numbers stay unique; the new device has the block size of its parent and starts so many blocks further, and is inside it exactly when its blocks are |
| BlockDevices.Registry.RegisterDisk | block_dev.c:95-142 | the errors; the disk is registered with first block 0 |
| BlockDevices.Registry.Lookup | block_dev.c:75-92 | a registered device with that identity, or none has it |
| Scheduler.Cpu.Schedule | schedule.c:82-159 | the current process becomes ready, the choice of the two loops becomes current and running; alone, the process stays |
| Scheduler.ChoiceIsNearest | schedule.c:137-148 | the choice is the ready process nearest after the current one in cyclic order, process 0 exactly when no other is ready |
| Scheduler.PassedOverIsNearer | schedule.c:137-148 | a ready process that is passed over gets strictly nearer |
| Scheduler.NoStarvation | schedule.c:137-156 | a process that stays ready is chosen within MAXPID - 1 calls, whatever the other states do |
| Printing.VsnPrintf | klibc.c:461-666 | returns the length of the whole text and leaves its first min(length, len - 1) characters, a zero, and the rest of the buffer as it was; -1 and nothing written without a buffer, a format or any room |
| Printing.Output.Put | klibc.c:471-476 | one more character counts, and is stored while it fits |
| Printing.Output.Step | klibc.c:479-660 | one character of the format prints its piece, with the flags and arguments it leaves |
| Printing.Output.PutUnsigned | klibc.c:511-545 | the digits of the number, without overrunning the digit buffer |
| Printing.Output.PutSigned | klibc.c:555-590 | sign and digits, INT_MIN included, without overrunning the digit buffer |
| Printing.Output.PutHex | klibc.c:618-649 | the 16 shifted nibbles print the hexadecimal numeral without leading zeros |
| Formats.NumbersReadBack | klibc.c:509-651 | what %u, %d, %i, %x and %p print reads back as the argument |
| Formats.PlainText | klibc.c:479-485 | text without % prints itself |
| Formats.TextDirectives | klibc.c:592-660 | %s prints the string, or (null) for a null pointer, %c the character modulo 256, %% a percent sign, and an unknown directive itself with the l or ll before it |
| Formats.NumberDirectives | klibc.c:509-651 | %u, %lu, %llu, %d, %i, %ld, %lld, %x, %lx, %llx and %p print the numeral of their argument in base 10 or 16, with its sign and without leading zeros |
| Formats.PartByPart | klibc.c:479-660 | a format prints its parts one after the other, the flags and arguments carried over |
| Numerals.DigitsReadBack | klibc.c:511-524 | numerals of any base read back |
| Numerals.DigitsAreNumeral | klibc.c:511-524 | the digits are characters of 0123456789abcdef, without a leading zero, each the remainder of the number by the base |
| Numerals.SignedReadsBack | klibc.c:555-590 | signed numerals read back |
| Numerals.NibbleIsDigit | klibc.c:628-631 | the shifted 64-bit nibble is the next hexadecimal digit |

## Left out

- KernelMemory.Kernel.CacheReleaseSlab: clears the slab field of the range before an off-slab header is freed; the code does it just after.
- KernelMemory.Kernel.CacheAlloc: the memory that is said to be enough is exact when one slab is added; when two are, each is counted with the most it can need.
- KernelMemory.Kernel.CacheFree: does not say what happens when freeing a slot that nobody holds makes its slab look empty, after which the code releases a slab with objects in use.
- KernelMemory.Kernel.Kfree: leaves the same case out.
- KernelMemory.Kernel.LookupRange: an address whose page is mapped outside every range in use is not looked up; the code then trusts whatever range the descriptor of the frame last named. No address under management is such an address (KernelContracts.ManagedIsResolvable).
- KernelMemory.Kernel.UnmapPages: a frame goes back to the pool when nothing else in the page table maps it; references from elsewhere are not followed.
- KernelMemory.Kernel.GetClosestPreceding: the range lists are sequences of values here; the pointer surgery of list.h is proved once, in Rings, and not repeated under the ranges.
- KernelTheorems.StartIsQuiet: not the state that kvmm_setup builds, where two used ranges overlap (KernelTheorems.SetupOverlaps) and the caches are never committed; this is a start that does meet the invariants.
- AddressSpaces.AddressSpace.MapFixed: a resource whose mmap callback refuses is not modelled. The two callbacks in the tree (elf32.c:179, drivers/zero.c:222) always answer 0.
- PhysicalMemory.PhysMem.RefAt: reference counts are unbounded; the code has 32 bits for them.
- Clock.Tm.MkTime: the fields are unbounded integers, so overflows of int in extreme fields are not modelled.
- DirectoryEdits.AddDirEntry: names have at most 255 bytes, and past the end of the disk nothing is stored.
- DirectoryEdits.RemoveDirEntry: names are unique in the block, and blocks are smaller than 65536 bytes so that lengths fit in 16 bits.
- BlockGroups.Ext2.AllocInode: the metadata addresses are computed without the 32-bit wrap of the code.
- BlockDevices.GenericRead: the blocks of the device are on the disk, and read_block does not fail.
- Printing.VsnPrintf: the arguments have the types of the directives, and the text is shorter than 2^31.
- Creating and destroying caches at run time, zeroed slabs, and the boot-time setup of the caches.
- The search for a free user interval, resizing and brk: the search can answer an address inside an arena, and resize takes the previous arena for the next one.
- The list of arenas of each resource, the recycling of arena structures, phys_total, and the callbacks of resources.
- Mutexes and wait queues, ext2 indirect blocks and file contents, writing to block devices, saving registers on a process switch, interrupts, paging tables, drivers, system calls, ELF loading.
