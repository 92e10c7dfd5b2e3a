# Memory management of an x86-64 hobby kernel, modelled in Dafny

This project models the memory-management core of a small x86-64 kernel. It
has four parts:

- **The physical frame allocator** (`BitmapAllocator`, module `FrameAllocator`).
  It keeps one bit per 4 KiB frame (set means free) and three byte counters
  (free, used, reserved). It is built from the boot memory map. It hands out
  the lowest free frame and takes frames back.
- **Paging** (module `Paging`). It builds the four-level x86-64 page tables
  (PML4, PDPT, PD, PT). Missing intermediate tables are taken from the frame
  allocator. Unmapping a page clears entries and gives empty tables back.
  Addresses are translated by walking the tables, and the boot address space
  is built here.
- **The virtual address range allocator** (`k_virtual_address_range_allocator`,
  module `RangeAllocator`). It keeps a list of page runs, hands them out first
  fit, takes them back and merges free neighbours.
- **The kernel heap** (module `KernelHeap`). It backs its virtual window with
  frames, maps them page by page, grows by a fixed step up to a ceiling, and
  tracks the bytes in use.

Where the kernel changes state in place, the model is imperative:

- `BitmapAllocator` holds its bitmap in an `array<bool>`.
- `Mmu` holds physical memory (the page-table frames) and `cr3`.
- `VirtualRangeAllocator` holds the descriptor list, head first, as a sequence.
- `Heap` holds the heap's globals.

Most methods are proved equal to a pure function of the old state: `Lock`,
`Allocate`, `MapPageSpec`, `MapPages`, `UnmapSpec`, `AddRangeSpec`,
`ExpandLoop`, and so on. The properties the kernel relies on are proved about
those functions as lemmas. The exceptions are `Heap.Allocate`,
`Heap.ExpandAndRetry`, `Heap.Free` and the methods of the `Freelist`
stand-in. Their ensures relate the new state to the old one directly.

Page-table entries and addresses are naturals. The model spells out 64-bit
wrap-around (`Basics.Wrap`) where the kernel's address arithmetic can
overflow. The frame allocator's three byte counters are exact integers, which
can go below zero. The kernel's `uint64_t` counters are those integers modulo
2^64: `FrameAllocator.Agrees` states this, and the `...Agrees` lemmas prove
that every lock and free keeps it. Bit operations on page-table entries (`|`, `>>`, `& mask`) are
defined in module `Bits` and linked to division and remainder.

Two places where the kernel's own declarations and comments promise more
than its code does. The model follows the code:

- `pagingVirtualToPhysical` returns `ADDRESS_EXCLUDE` of a large PDPT or PD
  entry, without the offset inside the page (paging.cpp:332 and :340). The
  4 KiB path adds the offset (paging.cpp:348). See
  `Paging.HugePageDropsOffset` for the 1 GiB PDPT page and
  `Paging.LargePageDropsOffset` for the 2 MiB PD page.
- The header declares `allocateRange(pages, request)`. The definition takes
  only `pages`.

## Model

Some pure functions have no row of their own. Their properties are stated by
the lemmas that name them:

- `Paging.Translate` (the walk of `pagingVirtualToPhysical`): `TranslateKeepsOffset`, `HugePageDropsOffset`, `LargePageDropsOffset`, `MapPagesMapsPage`, `MapThenTranslate`, `KeepsMapped`, `UnmapThenTranslate`.
- `RangeAllocator.AddRangeSpec`: `AddRangeKeeps`, `AddRangeDropsHead`, `AddRangeLosesUsedRange`, `AddRangeUnsorted`.
- `RangeAllocator.MergePass`: `MergePassKeeps`, `MergePassLeavesPair`.
- `RangeAllocator.AllocateSpec`: `AllocateFirstFit`, `AllocateDropsSurplus`.
- `RangeAllocator.FreeSpec`: `FreeGivesBack`.
- `KernelHeap.InitLoop`: `InitLoopStep`, `InitLoopFrames`, `InitLoopKeeps`, `InitLoopMapsPage`, `InitLoopKeepsMapped`.
- `KernelHeap.ExpandLoop`: `ExpandLoopStep`, `ExpandLoopStop`, `ExpandLoopFrames`, `ExpandLoopKeeps`, `ExpandLoopMapsPage`, `ExpandLoopKeepsMapped`, `ExpandLoopFailure`, `ExpandRevisitsHeap`, `ExpandLeaksMappedPage`.

| member | source | states |
|---|---|---|
| FrameAllocator.UsablePlusReserved | kernel/src/memory/bitmap_allocator.cpp:34-37 | the bytes counted free plus those counted reserved are the sum of all entry lengths |
| FrameAllocator.PageLoopCount | kernel/src/memory/bitmap_allocator.cpp:39 | a loop stepping by PAGE_SIZE while below `length` runs length rounded up to pages times |
| FrameAllocator.FreeCountUpdate | kernel/src/memory/bitmap_allocator.cpp:139 | setting one bit changes the number of free frames by one in the direction of the change, or not at all |
| FrameAllocator.AllUsed | kernel/src/memory/bitmap_allocator.cpp:25 | the cleared temporary bitmap marks every frame used |
| FrameAllocator.MarkEntry | kernel/src/memory/bitmap_allocator.cpp:39-46 | marking one entry keeps the bitmap's size |
| FrameAllocator.MarkMemmap | kernel/src/memory/bitmap_allocator.cpp:30-47 | marking the whole map keeps the bitmap's size |
| FrameAllocator.MarkMemmapFromUsed | kernel/src/memory/bitmap_allocator.cpp:25-47 | after the pass, a frame is free exactly when the last entry covering it is USABLE |
| FrameAllocator.LastCoverUsableSpec | kernel/src/memory/bitmap_allocator.cpp:30-47 | "last covering entry is USABLE" holds iff some USABLE entry covers the frame and no later entry does (both directions) |
| FrameAllocator.Lock | kernel/src/memory/bitmap_allocator.cpp:125-141 | locking does nothing before init or on a used frame; otherwise it marks the frame used, changes no other bit, moves a page from free to used and keeps the total |
| FrameAllocator.Free | kernel/src/memory/bitmap_allocator.cpp:143-159 | freeing does nothing before init or on a free frame; otherwise it marks the frame free, changes no other bit and keeps the total; a frame past the end of the bitmap (read as used, its write ignored) leaves every bit alone while the counters still move a page from used to free |
| FrameAllocator.FirstFreeFrom | kernel/src/memory/bitmap_allocator.cpp:167-169 | the result is the lowest free frame at or above the start; None means there is none |
| FrameAllocator.NextBlock | kernel/src/memory/bitmap_allocator.cpp:161-171 | the result is page aligned; it is the lowest free frame's address, or 0 when none is free or before init |
| FrameAllocator.Allocate | kernel/src/memory/bitmap_allocator.cpp:117-123 | returns the lowest free frame and marks it used; the free count drops by one and a page moves from free to used; with no free frame it returns 0 and changes nothing; the total is kept |
| FrameAllocator.AllocateKeepsUsed | kernel/src/memory/bitmap_allocator.cpp:117-123 | a used frame stays used across an allocation |
| FrameAllocator.FoundWhenFree | kernel/src/memory/bitmap_allocator.cpp:161-171 | an initialised allocator whose bitmap counts a free frame finds one (`Found` is `Some`); `allocatePage` returns its address, which is 0 only for frame 0 |
| FrameAllocator.AllocateZeroIffFrameZero | kernel/src/memory/bitmap_allocator.cpp:117-123 | on an initialised allocator with a free frame, `allocatePage` returns 0 exactly when frame 0 is free, so a nonzero result is guaranteed whenever frame 0 is used |
| FrameAllocator.LockAgrees | kernel/src/memory/bitmap_allocator.cpp:125-141 | when the kernel's `uint64_t` counters are the model's modulo 2^64, they still are after `_lockBlock` subtracts and adds PAGE_SIZE with wrap-around |
| FrameAllocator.FreeAgrees | kernel/src/memory/bitmap_allocator.cpp:143-159 | the same for `_freeBlock`, also where `_usedMemory` wraps below zero |
| FrameAllocator.AllocateAgrees | kernel/src/memory/bitmap_allocator.cpp:117-123 | the same for `allocatePage`, whose counters move as in `_lockBlock` |
| FrameAllocator.StaysUsed | kernel/src/memory/bitmap_allocator.cpp:117-159 | across any sequence of allocate and free calls that does not free it, a used frame stays used |
| FrameAllocator.NoDoubleAllocation | kernel/src/memory/bitmap_allocator.cpp:117-159 | two allocations returning the same frame have a free of that frame between them |
| FrameAllocator.AlignPageUp | kernel/src/memory/bitmap_allocator.cpp:88 | the rounded value is page aligned and lies within one page above its argument |
| FrameAllocator.LockFrames | kernel/src/memory/bitmap_allocator.cpp:88-89 | locking a window of frames keeps the total, the reserved counter and the free-counter drift; each locked free frame moves a page from free to used |
| FrameAllocator.LockFramesBits | kernel/src/memory/bitmap_allocator.cpp:88-89 | after locking, a frame is free iff it was free and lies outside the window |
| FrameAllocator.LockFramesAgrees | kernel/src/memory/bitmap_allocator.cpp:88-89 | the same for locking the bitmap's frames one by one |
| FrameAllocator.ScanPlace | kernel/src/memory/bitmap_allocator.cpp:51-73 | the result is the first free frame in range from which `need` frames are free; None means no free frame in range has that room |
| FrameAllocator.BitmapPlaceMissesRoom | kernel/src/memory/bitmap_allocator.cpp:51 | a map with room at frame 1 and a 1-byte bitmap gets no place, because the scan stops at the byte count |
| FrameAllocator.BitmapPlaceAllFinds | kernel/src/memory/bitmap_allocator.cpp:49-73 | the corrected scan over every frame finds a place, no higher than any frame with enough room |
| FrameAllocator.InitializedSize | kernel/src/memory/bitmap_allocator.cpp:19-27 | the bitmap holds 8 bits per byte of (memory/PAGE_SIZE + 1)/8 bytes, and every frame number fits a 64-bit address |
| FrameAllocator.BitmapFits | kernel/src/memory/bitmap_allocator.cpp:21 | for a 64-bit memory size, the bitmap describes no frame at or above 2^64 |
| FrameAllocator.InitializedBits | kernel/src/memory/bitmap_allocator.cpp:12-90 | after init, a frame is free iff its last covering entry is USABLE and it is outside the frames locked for the bitmap |
| FrameAllocator.InitializedPlacesBitmap | kernel/src/memory/bitmap_allocator.cpp:49-89 | when the scan finds room, the frames under the bitmap are USABLE memory and are marked used after init |
| FrameAllocator.InitializedCounters | kernel/src/memory/bitmap_allocator.cpp:12-90 | after init, reserved is the non-USABLE bytes; free + used is the USABLE bytes; the total is the map's size; used is a page per frame locked by the bitmap |
| FrameAllocator.CountMemory | kernel/src/memory/bitmap_allocator.cpp:173-185 | the memory size is the 64-bit sum of the entries' lengths |
| FrameAllocator.BitmapAllocator.constructor | kernel/src/memory/bitmap_allocator.cpp:5-10 | a new allocator has zero counters, an empty bitmap and is not initialised |
| FrameAllocator.BitmapAllocator.LockBlock | kernel/src/memory/bitmap_allocator.cpp:125-141 | the new state is `Lock` of the old one |
| FrameAllocator.BitmapAllocator.FreeBlock | kernel/src/memory/bitmap_allocator.cpp:143-159 | the new state is `Free` of the old one |
| FrameAllocator.BitmapAllocator.FreePage | kernel/src/memory/bitmap_allocator.cpp:92-95 | the new state is `Free` of the old one; the total is kept |
| FrameAllocator.BitmapAllocator.NextBlockAddr | kernel/src/memory/bitmap_allocator.cpp:161-171 | returns `NextBlock` of the state, below 2^64, and changes nothing |
| FrameAllocator.BitmapAllocator.AllocatePage | kernel/src/memory/bitmap_allocator.cpp:117-123 | the address and new state are `Allocate` of the old state |
| FrameAllocator.BitmapAllocator.MarkEntryPages | kernel/src/memory/bitmap_allocator.cpp:39-46 | the bitmap becomes `MarkEntry` of the old bitmap |
| FrameAllocator.BitmapAllocator.ClassifyFrames | kernel/src/memory/bitmap_allocator.cpp:30-47 | the bitmap becomes `MarkMemmap` of the old one; free grows by the USABLE bytes and reserved by the others |
| FrameAllocator.BitmapAllocator.LockBitmapFrames | kernel/src/memory/bitmap_allocator.cpp:88-89 | the new state is `LockFrames` of the old one |
| FrameAllocator.BitmapAllocator.FindBitmapPlace | kernel/src/memory/bitmap_allocator.cpp:49-73 | the place found is `BitmapPlace` of the bitmap, with the scan bounded by the byte count as written |
| FrameAllocator.BitmapAllocator.Initialize | kernel/src/memory/bitmap_allocator.cpp:12-90 | a second call changes nothing; the first leaves the state `Initialized(mm)`, whose bits and counters the lemmas above describe |
| Paging.OrPresent | kernel/src/memory/paging.cpp:33 | an entry ORed with flags is present iff either part is |
| Paging.OrLarge | kernel/src/memory/paging.cpp:331 | an entry ORed with flags is a large page iff either part is |
| Paging.OrParts | kernel/src/memory/paging.cpp:33-36 | OR acts on the address bits and the flag bits independently |
| Paging.OrAddressOffset | kernel/src/memory/paging.cpp:348 | ORing an aligned address with a page offset is adding them |
| Paging.AddressIsAligned | kernel/src/memory/paging.cpp:45 | `ADDRESS_EXCLUDE` gives an aligned address and is idempotent |
| Paging.ClearPresentKeeps | kernel/src/memory/paging.cpp:222 | clearing the present bit keeps the address and the page-size bit |
| Paging.Store | kernel/src/memory/paging.cpp:37 | writing one entry changes that entry and nothing else |
| Paging.Zero | kernel/src/memory/paging.cpp:35 | clearing a table zeroes its entries and leaves every other table alone |
| Paging.LinkTable | kernel/src/memory/paging.cpp:23-62 | one intermediate level keeps the total and every used frame; it takes at most one frame |
| Paging.LinkCreatesTable | kernel/src/memory/paging.cpp:31-41 | a missing table is allocated; the entry gets the level flags and the new table's address |
| Paging.LinkKeepsOthers | kernel/src/memory/paging.cpp:23-62 | no other entry changes, except those of a newly allocated table, which are cleared |
| Paging.LinkFollowsTable | kernel/src/memory/paging.cpp:42-62 | a present entry is followed with no allocation; with override its flags are replaced and its address kept |
| Paging.BuildPath | kernel/src/memory/paging.cpp:23-142 | the three levels keep the total and every used frame, and take at most three frames |
| Paging.SetLeaf | kernel/src/memory/paging.cpp:144-160 | a missing or overridden leaf gets the flags and the frame; a present one is kept without override; nothing else changes |
| Paging.MapPageSpec | kernel/src/memory/paging.cpp:11-161 | mapping a page keeps the total and every used frame, and takes at most three frames |
| Paging.MapPages | kernel/src/memory/paging.cpp:170-180 | mapping n pages keeps the total and every used frame, and takes at most 3n frames; `MapPagesMapsPage` gives each page's translation and `MapPagesKeepsMapped` the pages mapped before |
| Paging.BootMappings | kernel/src/memory/paging.cpp:284-296 | the three boot mappings keep the total and every used frame, and never free a frame |
| Paging.SamePageIndices | kernel/src/memory/paging.cpp:25 | two addresses in one 4 KiB page have the same four indices |
| Paging.SameLargePageIndices | kernel/src/memory/paging.cpp:336-340 | two addresses in one 2 MiB page have the same upper three indices |
| Paging.IndicesIgnoreOffset | kernel/src/memory/paging.cpp:344-348 | adding a page offset to an aligned address changes no index, and the offset is that value |
| Paging.TranslateKeepsOffset | kernel/src/memory/paging.cpp:342-348 | through 4 KiB tables, translating base + o gives the frame + o |
| Paging.LargePageDropsOffset | kernel/src/memory/paging.cpp:336-340 | through a 2 MiB page, every address translates to the page's base |
| Paging.SameHugePageIndices | kernel/src/memory/paging.cpp:322-332 | two addresses in one 1 GiB page have the same PML4 and PDPT indices |
| Paging.HugePageDropsOffset | kernel/src/memory/paging.cpp:328-332 | through a 1 GiB page, every address translates to the page's base |
| Paging.LargePageKeepsOffset | kernel/src/memory/paging.cpp:339-340 | the corrected translation maps an address in a 2 MiB page to base + its offset, and distinct addresses to distinct bytes |
| Paging.HugePageKeepsOffset | kernel/src/memory/paging.cpp:331-332 | the corrected translation maps an address in a 1 GiB page to base + its offset, and distinct addresses to distinct bytes |
| Paging.TranslateWithOffsetAgrees | kernel/src/memory/paging.cpp:318-349 | away from large pages the corrected and as-written translations agree |
| Paging.LinkStepEntry | kernel/src/memory/paging.cpp:23-62 | from a blank or present table entry, with level flags that are present, not large and carry no address, the entry is present, not large, and points at the next table |
| Paging.LinkStep | kernel/src/memory/paging.cpp:23-62 | the same, and the next table is the old one when present, or cleared when just allocated |
| Paging.MapKeepsMapped | kernel/src/memory/paging.cpp:151 | without override, mapping an already-mapped page changes nothing |
| Paging.MapThenTranslate | kernel/src/memory/paging.cpp:11-161 | after mapping virt to phys, virt + o translates to phys + o |
| Paging.AllocateMissesHeld | kernel/src/memory/bitmap_allocator.cpp:117-123 | `allocatePage` never returns a frame that is marked used at a nonzero address, and such a frame stays used |
| Paging.AllocateKeeps | kernel/src/memory/bitmap_allocator.cpp:117-123 | an allocation keeps every used frame used and touches no page table |
| Paging.LinkKeeps | kernel/src/memory/paging.cpp:23-62 | linking a level without override keeps every present entry of every table in a used frame |
| Paging.LinkKeepsEntry | kernel/src/memory/paging.cpp:23-62 | the same for one entry: it keeps its value and its table stays used |
| Paging.LinkHeld | kernel/src/memory/paging.cpp:23-62 | from a blank entry or one pointing at a used table, the entry ends present, not large and pointing at a used table; the next level's entry is the old one or 0 for a fresh table; at most one frame is taken |
| Paging.BuildPathHeld | kernel/src/memory/paging.cpp:23-142 | for a page ready to map through used tables, with three frames to spare, the walk's three entries point at the used tables the links return, and the leaf is still not present |
| Paging.BuildPathKeeps | kernel/src/memory/paging.cpp:23-142 | the three links without override keep every present entry of every used table |
| Paging.MapKeeps | kernel/src/memory/paging.cpp:11-161 | mapping any page without override keeps every used frame used and every present entry of every used table |
| Paging.KeepsMapped | kernel/src/memory/paging.cpp:318-349 | a page mapped through used tables keeps its walk, leaf and translation across any change that keeps those entries |
| Paging.MapKeepsOtherPages | kernel/src/memory/paging.cpp:11-161 | mapping a page without override leaves every page already mapped through used tables mapped, with the same translation |
| Paging.MapMakesMapped | kernel/src/memory/paging.cpp:11-161 | mapping a page ready for it, through used tables and with frames to spare, leaves it mapped through used tables to `phys`, translating to `phys` plus its offset, and keeps every other present entry |
| Paging.AllocateForPage | kernel/src/memory/bitmap_allocator.cpp:117-123 | with frames to spare, the frame taken for a page is aligned and nonzero, the tables and used frames stay, and one fewer frame is left |
| Paging.AllocateMapKeeps | kernel/src/memory/paging.cpp:11-161 | taking a frame and mapping it without override keeps every present entry of every used table |
| Paging.MapPagesKeepsMapped | kernel/src/memory/paging.cpp:170-180 | mapping a range page by page leaves every page already mapped through used tables mapped, with the same translation |
| Paging.MapNextKeepsMapped | kernel/src/memory/paging.cpp:176-179 | one more page of the range leaves such a page as it was |
| Paging.AlignedWrap | kernel/src/memory/paging.cpp:176-179 | an aligned frame k pages further on, wrapped to 64 bits, is still aligned |
| Paging.MapPagesMapsPage | kernel/src/memory/paging.cpp:170-180 | page k of the range, when ready to map through used tables at its turn with three frames to spare, ends the whole range mapped through used tables and translates to phys + k*PAGE_SIZE (wrapped) plus its offset |
| Paging.MapPagesMapsTurn | kernel/src/memory/paging.cpp:176-179 | the same for the last page of the range, at its own turn |
| Paging.NoPresentFrom | kernel/src/memory/paging.cpp:191-193 | the scan from `start` says empty iff no entry from `start` on is present |
| Paging.IsPagetableEmpty | kernel/src/memory/paging.cpp:189-195 | with the scan started at 0, empty iff no entry is present |
| Paging.UninitialisedScanMissesEntry | kernel/src/memory/paging.cpp:191 | a scan starting past the only present entry reports a table in use as empty |
| Paging.Mmu.PagetableEmpty | kernel/src/memory/paging.cpp:189-195 | the scan from `scanStart` reports empty iff no entry from there on is present |
| Paging.UnmapSpec | kernel/src/memory/paging.cpp:197-273 | with any level of the walk missing, unmapping changes nothing and returns 0; otherwise it returns the leaf's frame; the total and the bitmap's size are kept |
| Paging.UnmapReclaimsEmptyTables | kernel/src/memory/paging.cpp:218-266 | the leaf loses its present bit; each level above loses it, and the table below is freed, exactly when every table below was reclaimed and its scan reports it empty; the PML4 is never freed; nothing else changes; scanning from 0 a table is never reported empty above one that was kept |
| Paging.UnmapThenTranslate | kernel/src/memory/paging.cpp:197-273 | after unmapping, the address translates to 0 |
| Paging.UnmapFreesLiveTable | kernel/src/memory/paging.cpp:189-262 | with the scan started past a neighbour's live entry, the PT holding it is freed and unlinked, and the neighbour stops translating though its entry is still present |
| Paging.UnmapFullScanKeepsNeighbours | kernel/src/memory/paging.cpp:189-262 | with the scan from entry 0, a PT that still maps a neighbour is kept, no frame is freed and the neighbour's translation is unchanged |
| Paging.StaleEntryCorruptsLink | kernel/src/memory/paging.cpp:31-37 | a non-present entry with a stale address, ORed with a new table's address, points at neither |
| Paging.LinkTableCleared | kernel/src/memory/paging.cpp:31-37 | the corrected link matches the kernel's on present entries and takes the same frames |
| Paging.ClearedLinkIgnoresStaleAddress | kernel/src/memory/paging.cpp:31-37 | the corrected link makes a missing entry point exactly at the new table, whatever the stale bits held |
| Paging.Mmu.LinkLevel | kernel/src/memory/paging.cpp:23-62 | the new state and next table are `LinkTable` of the old state |
| Paging.Mmu.SwitchSpace | kernel/src/memory/paging.cpp:302-307 | cr3 holds the new root; memory is unchanged |
| Paging.Mmu.Initialize | kernel/src/memory/paging.cpp:280-300 | a frame is taken for the root; the new state is the three boot mappings into it; cr3 is that root |
| Paging.Mmu.MapPageInSpace | kernel/src/memory/paging.cpp:11-161 | the new state is `MapPageSpec` of the old one |
| Paging.Mmu.MapPage | kernel/src/memory/paging.cpp:163-168 | the same, in the address space cr3 names |
| Paging.Mmu.MapMemoryInTable | kernel/src/memory/paging.cpp:170-180 | the new state is `MapPages` over size rounded up to pages, so page k translates to phys + k*PAGE_SIZE by `MapPagesMapsPage` |
| Paging.Mmu.MapMemory | kernel/src/memory/paging.cpp:182-187 | the same, in the address space cr3 names |
| Paging.Mmu.UnmapPageInSpace | kernel/src/memory/paging.cpp:197-273 | the new state and returned frame are `UnmapSpec` of the old state, whose effects `UnmapReclaimsEmptyTables` and `UnmapThenTranslate` state; cr3 and the bitmap object are kept |
| Paging.Mmu.UnmapPage | kernel/src/memory/paging.cpp:275-278 | the same, in the address space cr3 names |
| Paging.Mmu.VirtualToPhysical | kernel/src/memory/paging.cpp:318-349 | a missing PML4 entry gives 0; through 4 KiB tables the page offset is kept |
| Paging.Mmu.CopyKernelMappings | kernel/src/memory/paging.cpp:352-357 | PML4 entries 256..511 at `dest` become the current ones; every other entry is unchanged |
| RangeAllocator.FreePagesConcat | kernel/src/memory/virtual_address_range_allocator.cpp:80-125 | free pages and the used descriptors add up over concatenated lists |
| RangeAllocator.Splice | kernel/src/memory/virtual_address_range_allocator.cpp:35-43 | replacing a slice of the list changes the free pages and used descriptors by exactly that slice |
| RangeAllocator.FreePagesUpdate | kernel/src/memory/virtual_address_range_allocator.cpp:64-65 | changing one descriptor changes the free pages and the used count by its difference |
| RangeAllocator.JoinFits | kernel/src/memory/virtual_address_range_allocator.cpp:84-91 | merging two adjacent free runs gives one run of their combined pages, still within 2^64 |
| RangeAllocator.MergePassKeeps | kernel/src/memory/virtual_address_range_allocator.cpp:80-104 | a merge pass keeps the used descriptors and the free pages, and never lengthens the list |
| RangeAllocator.MergePassLeavesPair | kernel/src/memory/virtual_address_range_allocator.cpp:83-103 | three adjacent free runs leave a mergeable pair after one pass |
| RangeAllocator.MergeFullHead | kernel/src/memory/virtual_address_range_allocator.cpp:80-104 | the corrected merge keeps the head's base and status |
| RangeAllocator.MergeFullSettles | kernel/src/memory/virtual_address_range_allocator.cpp:80-104 | the corrected merge leaves no adjacent free pair and keeps the list sorted |
| RangeAllocator.MergeFullCounts | kernel/src/memory/virtual_address_range_allocator.cpp:80-104 | the corrected merge keeps the used descriptors and the free pages |
| RangeAllocator.LastAbove | kernel/src/memory/virtual_address_range_allocator.cpp:26-33 | `found` is the last descriptor whose base is above the new one; None means no base is above it |
| RangeAllocator.AddRangeKeeps | kernel/src/memory/virtual_address_range_allocator.cpp:12-46 | adding to an empty list, or after a higher base, adds the new pages and keeps every used descriptor |
| RangeAllocator.AddRangeDropsHead | kernel/src/memory/virtual_address_range_allocator.cpp:39-43 | with no higher base the old head is lost from the list |
| RangeAllocator.AddRangeLosesUsedRange | kernel/src/memory/virtual_address_range_allocator.cpp:39-43 | a used head descriptor disappears when a higher range is added |
| RangeAllocator.AddRangeUnsorted | kernel/src/memory/virtual_address_range_allocator.cpp:29-38 | inserting after the last higher base leaves the list out of order |
| RangeAllocator.InsertSortedShape | kernel/src/memory/virtual_address_range_allocator.cpp:25-43 | the corrected insertion keeps a sorted list sorted and every run within 2^64 |
| RangeAllocator.InsertSortedCounts | kernel/src/memory/virtual_address_range_allocator.cpp:25-43 | the corrected insertion adds the new free pages and keeps the used descriptors |
| RangeAllocator.AddRangeSortedKeeps | kernel/src/memory/virtual_address_range_allocator.cpp:12-46 | the corrected add keeps the list sorted and fully merged, adds the new pages and keeps every used descriptor |
| RangeAllocator.FirstFitFrom | kernel/src/memory/virtual_address_range_allocator.cpp:51-57 | the result is the first free descriptor with enough pages; None means there is none |
| RangeAllocator.AllocateFirstFit | kernel/src/memory/virtual_address_range_allocator.cpp:48-78 | with no fit, returns 0 and keeps the list; otherwise it marks the first fit used with exactly `pages` pages, returns its base and changes nothing else |
| RangeAllocator.AllocateDropsSurplus | kernel/src/memory/virtual_address_range_allocator.cpp:64-75 | a 4-page run allocated for 1 page loses its other 3 pages |
| RangeAllocator.SplitPiecesAccount | kernel/src/memory/virtual_address_range_allocator.cpp:67-75 | the corrected split gives the used part plus a free remainder, with pages adding up |
| RangeAllocator.AllocateSplitAccounts | kernel/src/memory/virtual_address_range_allocator.cpp:48-78 | the corrected allocation returns the first fit's base, stays inside it and removes exactly `pages` free pages |
| RangeAllocator.FindBaseFrom | kernel/src/memory/virtual_address_range_allocator.cpp:110-111 | the result is the first descriptor with that base; None means there is none |
| RangeAllocator.MarkFree | kernel/src/memory/virtual_address_range_allocator.cpp:123 | marking a used run free adds its pages to the free pages and removes exactly that descriptor from the used ones |
| RangeAllocator.FreeGivesBack | kernel/src/memory/virtual_address_range_allocator.cpp:106-125 | an unknown or already free base changes nothing; freeing a used run gives its pages back, and the used descriptors afterwards are those before it and after it, in order, without it |
| RangeAllocator.VirtualRangeAllocator.constructor | kernel/src/memory/virtual_address_range_allocator.cpp:8-10 | a new allocator has an empty list |
| RangeAllocator.VirtualRangeAllocator.AddRange | kernel/src/memory/virtual_address_range_allocator.cpp:12-46 | the new list is `AddRangeSpec` of the old one |
| RangeAllocator.VirtualRangeAllocator.AllocateRange | kernel/src/memory/virtual_address_range_allocator.cpp:48-78 | the new list and the base are `AllocateSpec` of the old list |
| RangeAllocator.VirtualRangeAllocator.MergeAll | kernel/src/memory/virtual_address_range_allocator.cpp:80-104 | the new list is one `MergePass` of the old one |
| RangeAllocator.VirtualRangeAllocator.FreeRange | kernel/src/memory/virtual_address_range_allocator.cpp:106-125 | the new list is `FreeSpec` of the old one |
| KernelHeap.Freelist.constructor | kernel/src/memory/heap.cpp:12 | the stand-in freelist starts empty |
| KernelHeap.Freelist.Init | kernel/src/memory/heap.cpp:16 | the freelist covers start..end with nothing handed out |
| KernelHeap.Freelist.Allocate | kernel/src/memory/heap.cpp:38 | 0 means no room and nothing changes; otherwise the block is recorded with its size |
| KernelHeap.Freelist.Free | kernel/src/memory/heap.cpp:86 | returns the block's size and forgets it; an unknown pointer returns 0 |
| KernelHeap.Freelist.Expand | kernel/src/memory/heap.cpp:75 | the capacity grows by the step |
| KernelHeap.InitLoopStep | kernel/src/memory/heap.cpp:25-28 | one iteration takes a frame and maps page `page` at start + PAGE_SIZE*page |
| KernelHeap.InitLoopFrames | kernel/src/memory/heap.cpp:25-28 | backing the initial heap keeps the total and every used frame |
| KernelHeap.InitLoopKeeps | kernel/src/memory/heap.cpp:25-28 | the loop keeps every used frame used and every present entry of every used table |
| KernelHeap.InitLoopMapsPage | kernel/src/memory/heap.cpp:25-28 | the page the loop is at, when ready to map through used tables with four frames to spare, ends the loop mapped to the frame taken for it plus its offset |
| KernelHeap.InitLoopKeepsMapped | kernel/src/memory/heap.cpp:25-28 | a page mapped through used tables before the loop, or by an earlier turn, keeps its mapping and translation |
| KernelHeap.ExpandLoopStep | kernel/src/memory/heap.cpp:64-73 | an iteration with a frame maps it at `virt` and moves on a page |
| KernelHeap.ExpandLoopStop | kernel/src/memory/heap.cpp:66-70 | with no free frame the loop stops and reports failure |
| KernelHeap.ExpandLoopKeeps | kernel/src/memory/heap.cpp:64-73 | the loop, finished or stopped, keeps every used frame used and every present entry of every used table |
| KernelHeap.ExpandLoopMapsPage | kernel/src/memory/heap.cpp:64-73 | the page the loop is at, when ready to map through used tables with four frames to spare, ends the loop mapped to the frame taken for it plus its offset, whether the loop finishes or stops |
| KernelHeap.ExpandLoopKeepsMapped | kernel/src/memory/heap.cpp:64-73 | a page mapped through used tables before the loop, or by an earlier turn, keeps its mapping and translation |
| KernelHeap.ExpandLoopFailure | kernel/src/memory/heap.cpp:66-70 | a failed loop ends right after an `allocatePage` that returned 0, with what that call did to the allocator |
| KernelHeap.VisitsAligned | kernel/src/memory/heap.cpp:64 | the loop visits n pages over n*PAGE_SIZE bytes |
| KernelHeap.VisitsSplit | kernel/src/memory/heap.cpp:64 | the visits over a range split at a page boundary add up |
| KernelHeap.ExpandLoopFrames | kernel/src/memory/heap.cpp:64-73 | the loop keeps the total and every used frame; on success it consumed at least one frame per visited page |
| KernelHeap.ExpandRevisitsHeap | kernel/src/memory/heap.cpp:64 | growing a heap of n pages by m visits n + m pages and, on success, spends n + m frames |
| KernelHeap.RevisitCount | kernel/src/memory/heap.cpp:64 | the loop from heapStart visits n + m pages |
| KernelHeap.ExpandLeaksMappedPage | kernel/src/memory/heap.cpp:66-72 | over a mapped page a frame is taken, the mapping is left alone, and the frame is lost |
| KernelHeap.ExpandNewPagesFrames | kernel/src/memory/heap.cpp:64-73 | the corrected loop from heapEnd visits m pages and spends m frames |
| KernelHeap.AddedIsProduct | kernel/src/memory/heap.cpp:75 | `e` expansions add `e * step` bytes to the free list |
| KernelHeap.Heap.constructor | kernel/src/memory/heap.cpp:9-13 | the heap starts uninitialised with the given step, ceiling and flags |
| KernelHeap.Heap.Initialize | kernel/src/memory/heap.cpp:15-31 | the globals are set, used is 0, the free list covers the span, and the page tables are `InitLoop` over (end - start)/PAGE_SIZE + 1 pages, whose mapping and non-interference the `InitLoop` lemmas state |
| KernelHeap.Heap.BackInitialPages | kernel/src/memory/heap.cpp:25-28 | the loop leaves the page tables as `InitLoop` |
| KernelHeap.Heap.Expand | kernel/src/memory/heap.cpp:55-80 | over the ceiling it fails with nothing changed; otherwise the tables follow `ExpandLoop` from heapStart, whose effects the `ExpandLoop` lemmas state; on success the end and capacity grow by the step; on failure they are kept |
| KernelHeap.Heap.BackPages | kernel/src/memory/heap.cpp:64-73 | the loop's tables and result are `ExpandLoop` |
| KernelHeap.Heap.Allocate | kernel/src/memory/heap.cpp:33-53 | after some number of successful expansions, each growing the end and capacity by the step within the ceiling, a result is non-null, recorded with its size, and `heapUsed` grows by it; with no expansion the tables are untouched; a panic leaves `heapUsed` and the blocks unchanged, with no room for `size`, after an expansion refused at the ceiling or stopped by `allocatePage` returning 0 |
| KernelHeap.Heap.ExpandAndRetry | kernel/src/memory/heap.cpp:41-49 | with no room, a successful expansion is followed by another allocation; a failed one panics with `heapUsed`, the blocks, the end and capacity unchanged |
| KernelHeap.Heap.Free | kernel/src/memory/heap.cpp:82-87 | `heapUsed` drops by the freed block's size (64-bit) and the block is forgotten; an unknown pointer changes nothing; the free list's base, capacity and top are kept |

## Left out

- Logging (`logDebugn`, `logWarnn`) and the `VERBOSE_PAGING` traces are left out. They change no state.
- The direct map (`PAGING_APPLY_DIRECTMAP`, `PAGING_REMOVE_DIRECTMAP`) is the identity. Physical memory is a map from a table's frame address to its 512 entries. A table never written reads as zeros.
- Page-table entries and addresses are naturals. Wrap-around is written out only where the kernel's address arithmetic can overflow. The frame allocator's byte counters are exact integers instead of `uint64_t`. Their values modulo 2^64 are the kernel's (`FrameAllocator.Agrees`).
- The `freeMemory()`, `usedMemory()` and `reservedMemory()` accessors are not modelled as members. The model reads the fields directly.
- Frame 0 is not kept out of the bitmap. When it is the lowest free frame, `allocatePage` returns address 0, which its callers read as failure (bitmap_allocator.cpp:117-123). `FrameAllocator.AllocateZeroIffFrameZero` states exactly when this happens. The paging and heap lemmas that rely on a nonzero frame require frame 0 to be used (`Paging.CanSupply`).
- The kernel's `Bitmap` helper class is not part of this model. Its assumed behaviour is: a read past the end reports the frame used, a write past the end is ignored, and `getSize` is the number of bits. `FrameAllocator.IsFree` and `FrameAllocator.SetBit` follow this. So `FrameAllocator.Free` of a frame past the end leaves the bits alone but still moves a page from used to free, as the counters in bitmap_allocator.cpp:154-155 do.
- FrameAllocator.Lock: the `free`, `used` and `reserved` counters are exact integers, not `uint64_t`, and may go below zero where the kernel's wrap. The kernel's counters are their values modulo 2^64, kept by `FrameAllocator.LockAgrees`.
- FrameAllocator.Free: the `free`, `used` and `reserved` counters are exact integers, not `uint64_t`, and may go below zero where the kernel's wrap. The kernel's counters are their values modulo 2^64, kept by `FrameAllocator.FreeAgrees`.
- FrameAllocator.Allocate: the `free`, `used` and `reserved` counters are exact integers, not `uint64_t`, and may go below zero where the kernel's wrap. The kernel's counters are their values modulo 2^64, kept by `FrameAllocator.AllocateAgrees`.
- FrameAllocator.LockFrames: the `free`, `used` and `reserved` counters are exact integers, not `uint64_t`, and may go below zero where the kernel's wrap. The kernel's counters are their values modulo 2^64, kept by `FrameAllocator.LockFramesAgrees`.
- FrameAllocator.BitmapAllocator.LockBlock: the `free`, `used` and `reserved` counters are exact integers, not `uint64_t`, and may go below zero where the kernel's wrap. The kernel's counters are their values modulo 2^64, kept by `FrameAllocator.LockAgrees`.
- FrameAllocator.BitmapAllocator.FreeBlock: the `free`, `used` and `reserved` counters are exact integers, not `uint64_t`, and may go below zero where the kernel's wrap. The kernel's counters are their values modulo 2^64, kept by `FrameAllocator.FreeAgrees`.
- FrameAllocator.BitmapAllocator.FreePage: the `free`, `used` and `reserved` counters are exact integers, not `uint64_t`, and may go below zero where the kernel's wrap. The kernel's counters are their values modulo 2^64, kept by `FrameAllocator.FreeAgrees`.
- FrameAllocator.BitmapAllocator.AllocatePage: the `free`, `used` and `reserved` counters are exact integers, not `uint64_t`, and may go below zero where the kernel's wrap. The kernel's counters are their values modulo 2^64, kept by `FrameAllocator.AllocateAgrees`.
- FrameAllocator.BitmapAllocator.LockBitmapFrames: the `free`, `used` and `reserved` counters are exact integers, not `uint64_t`, and may go below zero where the kernel's wrap. The kernel's counters are their values modulo 2^64, kept by `FrameAllocator.LockFramesAgrees`.
- FrameAllocator.BitmapAllocator.Initialize: the relocation of the bitmap (bitmap_allocator.cpp:77-85) has no state of its own. The copy equals the temporary array, so one array stands for both.
- FrameAllocator.BitmapAllocator.Initialize: the `stale` parameter stands for the value of the uninitialised `bitmapPage` when the scan finds no room. The model does not wrap `stale * PAGE_SIZE` to 64 bits.
- FrameAllocator.BitmapAllocator.Initialize: the memory map must lie inside the 64-bit address space with a total length below 2^64 (`WellFormedMemmap`). The memory map, which comes from the bootloader (stivale2), is a parameter.
- Paging.MapPages: `MapPagesMapsPage` needs each page, at its own turn, to be ready to map (`ReadyToMap`), with its walk held (`PathHeld`) and three frames to spare (`CanSupply`). These are preconditions, because tables that existed before the call may share a frame.
- Paging.Mmu.MapMemoryInTable: a `size` above 2^64 - PAGE_SIZE is excluded. There the kernel's 64-bit offset wraps and the loop does not end.
- Paging.Mmu.Initialize: the boot flags (`PAGING_DEFAULT_FLAGS`) are a parameter, because the header defining them is not part of this model. `GiB_SIZE` is 2^30.
- Paging.Mmu.Initialize: the new PML4 frame is used without being cleared, as in the kernel. Whatever entries the frame held stay in the model's memory.
- The current root is the field `cr3`, written only by Paging.Mmu.SwitchSpace. `pagingGetCurrentSpace` (paging.cpp:309-316) is a read of that field, with no member of its own.
- Paging.UnmapSpec: `scanStart` is one value used for all three emptiness scans of a call. The kernel's uninitialised `int i` could hold a different value at each call, including a negative one; negative starts are not modelled.
- Paging.Mmu.UnmapPageInSpace: the same single, non-negative `scanStart` as Paging.UnmapSpec.
- Paging.Mmu.UnmapPage: the same single, non-negative `scanStart` as Paging.UnmapSpec.
- Paging.MapMakesMapped: the tables are followed through the used frames the allocator holds. Two pre-existing tables sharing one frame are not ruled out, so the lemma needs the page to be ready to map (`ReadyToMap`), its walk held (`PathHeld`) and frames to spare (`CanSupply`) as preconditions rather than deriving them.
- KernelHeap.Heap.Initialize: its ensures states the page tables as `InitLoop`. That each page ends up mapped to its frame is stated by `KernelHeap.InitLoopMapsPage` for a page that is ready to map, whose walk is held and with four frames to spare at its turn. These conditions are preconditions, not consequences of earlier turns.
- KernelHeap.Heap.Expand: its ensures states the page tables as `ExpandLoop`. That each page ends up mapped is stated by `KernelHeap.ExpandLoopMapsPage` under the same per-page preconditions as `KernelHeap.InitLoopMapsPage`. Aliasing between tables that existed before the loop is not ruled out.
- KernelHeap.Heap.Allocate: the pages an expansion maps are described by the `ExpandLoop` lemmas and not repeated in the method's ensures.
- `useRange` and `getRanges` are declared in the range allocator's header but not defined in its source. They are not modelled.
- The fields `lastSplit` and `requestBy` are never read or written. They are not modelled.
- RangeAllocator.VirtualRangeAllocator.MergeAll: a merge is modelled as unlinking the absorbed descriptor. The kernel then `delete`s the node that follows, which is still linked, and logs through it (virtual_address_range_allocator.cpp:93-99). That use after free is outside the model.
- RangeAllocator.VirtualRangeAllocator.AllocateRange: `new` for a split descriptor always succeeds in the model.
- The list is a sequence, head first, so aliasing between descriptor nodes is not modelled.
- KernelHeap.Freelist: the heap's `k_freelist_allocator` (freelist_allocator.cpp) is not part of this model. `Freelist` is a stand-in with only the behaviour the heap relies on: `init`, `allocate` (null when there is no room), `free` (returns the block's size) and `expand`.
- KernelHeap.Heap: `kernelPanic` on an uninitialised heap becomes `requires initialized`. A panic on a failed allocation is the `Panicked` result.
- KernelHeap.Heap: `K_HEAP_EXPANSION_STEP` and `K_HEAP_MAX_EXPANSION` come from a header that is not part of this model. They are constructor parameters, with step > 0, the ceiling plus the step below 2^64, and the ceiling plus PAGE_SIZE below 2^64. Under these constraints, `virt += PAGE_SIZE` in `heapExpand` cannot wrap.
- KernelHeap.Heap: `pagingMapPage(virt, phys)` uses the default flags and `override = false` from the paging header. The flags are the heap's `flags` field.
- `operator new`, `new[]`, `delete` and `delete[]` (heap.cpp:89-103) are one-line calls to Heap.Allocate and Heap.Free. They are not repeated.
- Concurrency, interrupts and the `cr3` load's effect on the TLB are left out.

## Findings

| source | as written | input that shows it | evidently intended | confidence | as-written member | corrected member |
|---|---|---|---|---|---|---|
| kernel/src/memory/paging.cpp:31-37 | a missing table's entry is ORed with the new table's address without clearing the old bits | an entry 0x5000 (not present, stale address) and a new table at 0x3000: the entry points at 0x7000 | the entry holds exactly the new table's address | high, not executed | Paging.StaleEntryCorruptsLink | Paging.ClearedLinkIgnoresStaleAddress |
| kernel/src/memory/paging.cpp:191 | `int i;` is never initialised, so the scan may start past present entries | a table whose only present entry is 0, scanned from 1: reported empty | scan from entry 0 | high, not executed | Paging.UninitialisedScanMissesEntry | Paging.IsPagetableEmpty |
| kernel/src/memory/paging.cpp:189-262 | unmapping scans each table with that uninitialised index, so a table still in use can be freed | a PT mapping `virt` and a neighbour at entry 0, scanned from entry 1: the PT is freed, unlinked, and the neighbour stops translating | scan from entry 0, keep a table with a present entry | high, not executed | Paging.UnmapFreesLiveTable | Paging.UnmapFullScanKeepsNeighbours |
| kernel/src/memory/paging.cpp:340 | a 2 MiB page translates to its base, without the offset inside the page | any address in a 2 MiB page other than its first byte | base plus the offset inside the large page | medium, not executed | Paging.LargePageDropsOffset | Paging.LargePageKeepsOffset |
| kernel/src/memory/paging.cpp:332 | a 1 GiB page translates to its base, without the offset inside the page | any address in a 1 GiB page other than its first byte | base plus the offset inside the huge page | medium, not executed | Paging.HugePageDropsOffset | Paging.HugePageKeepsOffset |
| kernel/src/memory/virtual_address_range_allocator.cpp:64-67 | `pages` is assigned before the split test, so the surplus is never split off | a free 4-page run allocated for 1 page: the other 3 pages are lost | split off the surplus as a free run | high, not executed | RangeAllocator.AllocateDropsSurplus | RangeAllocator.AllocateSplitAccounts |
| kernel/src/memory/virtual_address_range_allocator.cpp:39-43 | a range at or above every base replaces the head and links to the head's successor | a used head at 0x1000 and a new range at 0x3000: the used head is gone | insert in front of the head | high, not executed | RangeAllocator.AddRangeLosesUsedRange | RangeAllocator.AddRangeSortedKeeps |
| kernel/src/memory/virtual_address_range_allocator.cpp:29-38 | the new range goes after the last higher base, which breaks the order | ranges at 0x1000 and 0x5000, adding 0x3000: the list ends 0x5000, 0x3000 | insert in base order | high, not executed | RangeAllocator.AddRangeUnsorted | RangeAllocator.InsertSortedShape |
| kernel/src/memory/virtual_address_range_allocator.cpp:83-103 | after a merge the pass moves on, so a run that could merge again is skipped | three adjacent free one-page runs: two runs remain that could merge | merge until no adjacent free pair remains | medium, not executed | RangeAllocator.MergePassLeavesPair | RangeAllocator.MergeFullSettles |
| kernel/src/memory/heap.cpp:64 | the expansion loop starts at heapStart and maps the whole heap again | a heap of n pages grown by m: n + m frames are taken, and n of them leak over pages already mapped | map only the new pages, from heapEnd | high, not executed | KernelHeap.ExpandRevisitsHeap | KernelHeap.ExpandNewPagesFrames |
| kernel/src/memory/bitmap_allocator.cpp:51 | the scan for the bitmap's place stops at the bitmap's byte count, not its bit count | frames 0 used and 1..7 free, with a 1-byte bitmap: frame 1 has room but none is found | scan every frame of the bitmap | medium, not executed | FrameAllocator.BitmapPlaceMissesRoom | FrameAllocator.BitmapPlaceAllFinds |
