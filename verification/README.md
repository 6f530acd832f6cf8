# elfboot, modelled and proved

elfboot is a boot loader for x86 with its own memory management, PCI enumeration, file systems and C
library. This project models the parts of it that carry state and proves what they promise. The code
is modelled as it is written. Where it falls short of its intent, a lemma gives a concrete state or
input that shows it, and another says for all inputs exactly when the code does meet the intent.

## The memory manager

- `Memblock.dfy` (with `Regions.dfy` and `MemblockAdd.dfy`) is the boot-time array of free regions,
  edited in place. Removing a range that ends below 4 GiB is exact. The fusion after an add moves
  entries without lowering the count. One add to separated nonempty regions leaves a sorted and
  exact array exactly when a region already reaches the end of the range or none abuts it, else the
  last region is there twice; but it may leave an empty region, and then the next add goes wrong.
  Add after add is right exactly as long as each range is clear of all regions or inside one that
  begins below it. `Rounding.dfy` is the bit formula behind its alignments, which rounds up to a
  multiple exactly for powers of two.
- `PageAlloc.dfy` is the buddy allocator in place. Its methods equal the functions of `PageMap.dfy`
  and `Allocating.dfy`. `Partition.dfy` says who owns each page. `Freeing.dfy`, `Allocating.dfy`,
  `Canonical.dfy`, `Runs.dfy` and `Accounting.dfy` prove what every run keeps: the free lists are
  the maximal aligned blocks of free pages, allocation never fails while an aligned run is free and
  takes the smallest block that suffices, the one freed last first, and nothing is lost. The merge
  loop looks at the FREE flag of the buddy but not at its order; `UnsafeFree.dfy` proves the exact
  condition under which a free is safe, and `Witnesses.dfy` shows states in which it is not.
- `Rings.dfy` is the circular list of pointers; its operations are those on sequences that the
  allocators use.
- `Carve.dfy` and `Boot.dfy` go from the memory map of the firmware and an empty array of regions to
  free blocks and close the circle: whatever run of allocations follows, every byte of a page that
  is ever handed out lies in a page handed over from the map, and none is a reserved byte or a byte
  of the page map. The map has 64-bit fields of which the code reads the low 32 bits, so an entry
  from 4 GiB on is taken for low memory; that is the one way, rounding to pages aside, in which
  memory that the firmware does not report gets in. The page map is never cleared; the allocator
  comes up valid exactly when no page left unmanaged was flagged FREE there. Boot gives up exactly
  when there is no room for the page map, or when the lowest room uses up the end of a region.
- `Slub.dfy` (with `Slabs.dfy` and `SlabPool.dfy`) is the object allocator in place on top of it.
  `SlabRuns.dfy` follows any sequence of its calls: objects in use are exactly those handed out and
  not given back, they share no byte, and nothing leaks. `SlabHeads.dfy` shows that `bfree` finds
  the slab of every object as long as all slabs are single pages, and how a slab of two pages
  misleads it; `SlabOrder.dfy` which object comes next.

## Devices, files and the library

- `Pci.dfy` is the mutually recursive scan of the buses. It ends for every configuration space, and
  its list is the least closed set of addresses exactly when there is memory for that many devices.
- `Superblock.dfy`, `Ext2Map.dfy`, `Ext2.dfy`, `Ext2File.dfy` and `Ext2Holes.dfy` go from sectors to
  blocks to file bytes. The code looks for a block along the path of the format for all blocks but
  the triply indirect ones, where it never does; only files with blocks below 4 KiB can have those
  within the reach of a 32-bit offset. Along that path it finds every block that the format holds. A
  hole, however, is read through block 0 of the device, and seen as a hole for all files exactly
  when that block cannot be read or holds only zeros for pointers. A file read can end early when it
  does not start at a block boundary; the exact condition is proved.
- `Vfs.dfy` is path lookup through the node cache, against a plain walk of the directories.
- `Division.dfy`, `Crc.dfy`, `Numbers.dfy` and `Strings.dfy` are the 64-by-32-bit division, the
  checksum, number printing and parsing, and tokenising in place.

`Arithmetic.dfy` and `Dyadic.dfy` hold facts about products, quotients and aligned blocks;
`Wrappers.dfy` is the pointer that may be null.

`dafny verify dfyconfig.toml` checks everything.

## Conventions

Methods of a class change its fields or arrays as the source does; their contracts tie the new state
to a function of the old one, and the lemmas are about those functions. Numbers are unbounded except
where the source relies on a width: counters and sizes of 32 bits, offsets of 64 bits and shift
counts are then written out. A null pointer is `None` or `Null`; error codes are results.

## Model

| member | source | states |
|---|---|---|
| `PageMap.PageBuddyIsBuddy` | src/include/elfboot/page.h:89-109 | XOR of a page address with 2^order pages is, for an aligned page, the other half of the parent block |
| `PageMap.WithoutOne` | src/include/elfboot/list.h:121-125 | deleting an entry from a list keeps the others in order |
| `PageMap.NoneBefore` | src/mm/page_alloc.c:127-131 | the lists of all orders from the wanted one up to the one found are empty |
| `Partition.BuddyIsHead` | src/mm/page_alloc.c:241-257 | the first page of a buddy never lies in the middle of a block: FREE flags that initialisation leaves on inner pages are never read |
| `Freeing.MergeLoopCoalesces` | src/mm/page_alloc.c:196-214 | when it stops safely, the merge loop leaves the coalesced partition: no two free buddies of equal order, lists and map in step |
| `Freeing.MergeLoopKeepsHeads` | src/mm/page_alloc.c:180-214 | merging loses the compound head of no live page |
| `Freeing.CoalesceKeeps` | src/mm/page_alloc.c:196-214 | coalescing only moves block boundaries among free pages |
| `Freeing.SafeFree` | src/mm/page_alloc.c:216-235 | a safe free turns exactly the live block into free pages, leaves every other owner alone and the lists canonical |
| `Freeing.MergedIsFirst` | src/mm/page_alloc.c:196-214 | the block that the merge loop ends with is the first on its list |
| `UnsafeFree.FreeIsSafeExactlyWhen` | src/mm/page_alloc.c:196-223 | freeing lists only free or freed pages if and only if the walk up stops at a page without the FREE flag (line 205 compares no orders) |
| `Witnesses.EveryPartitionIsHeld` | src/mm/page_alloc.c:56-70 | every partition into blocks is represented by some page map and lists |
| `Witnesses.SwallowsALivePage` | src/mm/page_alloc.c:205-209 | a state in which one free puts a live page on a free list |
| `Witnesses.SwallowsUnmanagedPages` | src/mm/page_alloc.c:205-209 | a state in which one free lists pages that nobody manages |
| `Witnesses.StaleFlagIsSwallowed` | src/mm/page_alloc.c:205-209 | a page that nobody manages, its record flagged FREE because the map is never cleared: one free lists it |
| `Witnesses.ThirdFreeIsUnsafe` | src/mm/page_alloc.c:196-214 | from every state with four live pages in an aligned block of four, two safe frees make the third unsafe |
| `Witnesses.MisleadsALivePage` | src/mm/page_alloc.c:148-149 | an allocation overwrites the compound head of a live page in the buddy range |
| `CanonicalForm.AllFreeRun` | src/mm/page_alloc.c:196-214 | an aligned run of free pages always lies inside one free block |
| `CanonicalForm.FreeBlocksAreMaximal` | src/mm/page_alloc.c:196-214 | the blocks on the lists are exactly the maximal aligned blocks of free pages |
| `CanonicalForm.SameFreePagesSameLists` | src/mm/page_alloc.c:106-223 | the set of free pages determines every free list (as a set) and every counter |
| `Allocating.FixSplits` | src/mm/page_alloc.c:106-120 | splitting down keeps the representation, the partition and its canonical form |
| `Allocating.SplitKeeps` | src/mm/page_alloc.c:106-120 | a split keeps the wanted block, frees the rest of the block in hand and touches no other page |
| `Allocating.TakeRepresents` | src/mm/page_alloc.c:122-152 | taking a listed block leaves lists and map in step, and says where every compound head points |
| `Allocating.AllocSound` | src/mm/page_alloc.c:122-157 | a successful allocation hands out an aligned block of pages that were all free and nothing else changes hands |
| `Allocating.AllocFailsExactlyWhen` | src/mm/page_alloc.c:122-157 | NULL if and only if no aligned run of 2^order pages is entirely free |
| `Allocating.AllocTakesSmallest` | src/mm/page_alloc.c:122-131 | best fit: a successful allocation cuts its block from the first listed free block of an order below which no sufficient free block exists |
| `Allocating.FreedIsNext` | src/mm/page_alloc.c:56-62 | after a safe free the next allocation of the order of the block that the page has come to lie in gets that block |
| `Allocating.AllocKeepsHeadsExactlyWhen` | src/mm/page_alloc.c:91-104 | an allocation keeps all compound heads right if and only if the buddy range holds no live page with another head |
| `Allocating.BuddyInsideExactlyWhen` | src/mm/page_alloc.c:148-149 | the heads written for the buddy stay inside the map of one megabyte exactly for the orders below the largest |
| `Runs.RunConserves` | src/mm/page_alloc.c:106-223 | over every run of allocations and safe frees the set of managed pages is the same |
| `Runs.HistoryIndependence` | src/mm/page_alloc.c:106-223 | two runs that end with the same free pages end with the same free lists and counters |
| `Runs.AllocThenFreeIsSafeWhen` | src/mm/page_alloc.c:122-152 | freeing what was just allocated is safe exactly when freeing the whole block it was cut from would have been |
| `Runs.AllocThenFreeRestores` | src/mm/page_alloc.c:122-223 | an allocation and its safe free restore every list (as a multiset) and every counter |
| `Accounting.CountersCountFreePages` | src/mm/page_alloc.c:56-78 | the counters, weighted by block size, add up to the number of free pages |
| `Accounting.RunConservesPages` | src/mm/page_alloc.c:56-223 | free pages by the counters plus live pages is constant over every run |
| `Rings.ListHead.constructor` | src/include/elfboot/list.h:105-109 | a ring of one |
| `Rings.ListEmpty` | src/include/elfboot/list.h:87-90 | true exactly when nothing follows the head |
| `Rings.Inserted` | src/include/elfboot/list.h:72-79 | four pointer writes around a place of a ring give the ring with the entry at that place |
| `Rings.Removed` | src/include/elfboot/list.h:81-85 | two pointer writes around an entry give the ring without it |
| `Rings.ListAdd` | src/include/elfboot/list.h:111-114 | the entry comes first, the others keep their order, and another list stays as it is |
| `Rings.ListAddTail` | src/include/elfboot/list.h:116-119 | the entry comes last |
| `Rings.ListDel` | src/include/elfboot/list.h:121-125 | the entry is gone and unlinked, and another list stays as it is |
| `Rings.ListMoveWithin` | src/include/elfboot/list.h:127-131 | the entry comes first in its own list |
| `Rings.ListMove` | src/include/elfboot/list.h:127-131 | the entry leaves one list and comes first in the other |
| `Carve.PageAligned` | src/mm/page_alloc.c:41-44 | an address is aligned for an order exactly when its page number is |
| `Carve.StartOrder` | src/mm/page_alloc.c:267-276 | the order the carving starts from is the largest that fits into the rest, capped at 8 |
| `Carve.CarveStep` | src/mm/page_alloc.c:241-257 | initialising one block of unmanaged pages makes it a listed free block, whatever the records of its pages held |
| `Carve.StaysClean` | src/mm/page_alloc.c:241-257 | when carving leaves the records of all other pages alone, no unmanaged page is flagged FREE afterwards exactly when none of those left unmanaged was before |
| `Carve.CarveAscends` | src/mm/page_alloc.c:241-257 | carving upwards leaves every list in order of address |
| `Carve.CarveCanonical` | src/mm/page_alloc.c:259-287 | a block carved greedily next to its predecessors never has a free buddy |
| `PageAlloc.PageAllocator.constructor` | src/mm/page_alloc.c:310-327 | over any uncleared map the lists and the managed pages are in order; the allocator is valid exactly when no page of the map happens to be flagged FREE |
| `PageAlloc.PageAllocator.FreePageAdd` | src/mm/page_alloc.c:56-62 | in place: page at the head of its list, counter up |
| `PageAlloc.PageAllocator.FreePageAppend` | src/mm/page_alloc.c:64-70 | in place: page at the end of its list, counter up |
| `PageAlloc.PageAllocator.FreePageDel` | src/mm/page_alloc.c:72-78 | in place: page off the list of its order, counter down by one with 32-bit wrap-around |
| `PageAlloc.PageAllocator.PageSetCompoundHead` | src/mm/page_alloc.c:91-104 | in place: exactly the pages of the range inside the map get the head |
| `PageAlloc.PageAllocator.FreePageFix` | src/mm/page_alloc.c:106-120 | the loop in place is the splitting function |
| `PageAlloc.PageAllocator.GetFreePages` | src/mm/page_alloc.c:122-152 | the loop over the orders in place is the allocation function, of which `Allocating.AllocTakesSmallest` and `Allocating.AllocSound` say what it takes |
| `PageAlloc.PageAllocator.AllocPages` | src/mm/page_alloc.c:154-157 | keeps the allocator valid; NULL exactly when no aligned run is free; otherwise the block is cut from the first listed free block of the smallest order that suffices, and nothing else changes hands |
| `PageAlloc.PageAllocator.MergePages` | src/mm/page_alloc.c:180-194 | in place: both pages off their lists, orders up by one, the left page heads the joined block |
| `PageAlloc.PageAllocator.MergeFreePage` | src/mm/page_alloc.c:196-214 | the merge loop in place is the merge function |
| `PageAlloc.PageAllocator.FreePage` | src/mm/page_alloc.c:216-235 | keeps the allocator valid exactly when the walk up stops at a page that is not FREE |
| `PageAlloc.PageAllocator.CompoundPageInit` | src/mm/page_alloc.c:241-257 | in place: the pages of the block as initialisation leaves them |
| `PageAlloc.PageAllocator.NextOrder` | src/mm/page_alloc.c:267-276 | the order chosen is the largest that both the rest and the alignment allow |
| `PageAlloc.PageAllocator.CarveNext` | src/mm/page_alloc.c:264-286 | one turn in place: the next greedy block becomes free, all other owners and records stay, and lists in order of address remain so |
| `PageAlloc.PageAllocator.PageMapFreeBootmem` | src/mm/page_alloc.c:259-287 | over any map: exactly the pages of the region become free, in greedy blocks, and no other record changes; next to no other free pages the result is canonical |
| `Rounding.LeastMultiple` | src/include/elfboot/core.h:18-19 | for a power of two the bit formula gives the least multiple from an address up |
| `Rounding.AlignsExactlyWhen` | src/include/elfboot/core.h:18-19 | the formula gives a multiple for every address if and only if the alignment is a power of two |
| `Rounding.SixDoesNotAlign` | src/include/elfboot/core.h:18-19 | the address 7 and the alignment 6 give 8 |
| `Rounding.RoundUpWraps` | src/include/elfboot/core.h:18-19 | in 32 bits only a result of 2^32 wraps around, to 0 |
| `Memblock.AdjustIsExactWhen` | src/mm/memblock.c:44-61 | for every range of the 32-bit address space the recomputed end is the rounded end if and only if that is below 4 GiB; otherwise it is 0 |
| `Memblock.LastPageEndsAtZero` | src/mm/memblock.c:44-61 | the last page of the address space gets the end 0 |
| `Regions.NotBelow` | src/mm/memblock.c:236-253 | the first candidate that fits is the lowest fit of all |
| `Regions.TrimSplit` | src/mm/memblock.c:180-189 | splitting a region around the range removes exactly the range and ends the removal |
| `Regions.TrimHead` | src/mm/memblock.c:200-203 | cutting the head of a region ends the removal exactly |
| `Regions.TrimTail` | src/mm/memblock.c:191-209 | cutting the tail of a region keeps the removal going |
| `Regions.TrimDrop` | src/mm/memblock.c:191-198 | dropping a covered region and looking at the same index again keeps the removal going |
| `Memblock.MemblockType.InsertRegion` | src/mm/memblock.c:100-116 | in place: the entry at the index, later ones one up, size added |
| `Memblock.MemblockType.DelRegion` | src/mm/memblock.c:158-213 | for every range of the 32-bit address space: exactly the page-rounded range is removed and sortedness, alignment and separation are kept, unless its end is 4 GiB, in which case nothing is; the result reports success exactly when a region crosses the end; the total size stays in step exactly when nothing is split |
| `Memblock.MemblockType.FindInRange` | src/mm/memblock.c:236-253 | whatever is found lies in a region and in the range; for a power of two it is the lowest fitting address, or 0 exactly when nothing fits |
| `Memblock.MemblockType.AllocRange` | src/mm/memblock.c:255-264 | a result is the lowest fit and has been removed exactly; 0 although something fits exactly when no region crosses the end of the fit |
| `Memblock.LastPageFits` | src/mm/memblock.c:255-264 | the only free page fits a page, and no region reaches beyond it |
| `Memblock.LastPageIsLost` | src/mm/memblock.c:255-264 | so asking for a page answers 0 and leaves no memory behind |
| `Memblock.MemblockType.FusionRegion` | src/mm/memblock.c:63-98 | the two fusions in place are the fusion function, of which `MemblockAdd.FusionCovers` and `MemblockAdd.FiredFusionJoins` say what it leaves |
| `Memblock.MemblockType.InsertGaps` | src/mm/memblock.c:134-147 | the loop in place is the walk that inserts the missing pieces |
| `Memblock.MemblockType.AddRegion` | src/mm/memblock.c:118-156 | added to separated nonempty regions, the array always covers exactly the old regions and the range; it ends up sorted if and only if a region already reaches the end of the range or none abuts it, else it is sorted but for the last region, which is there twice; and it is separated and nonempty, so that the same holds of the next add, if and only if the range is clear of all regions or inside one that begins below it |
| `MemblockAdd.PiecesAreRight` | src/mm/memblock.c:134-150 | before fusion: sorted, covering exactly old regions and range; and when fusion will fire |
| `MemblockAdd.FusionDuplicates` | src/mm/memblock.c:63-98 | a fusion that fires leaves the last region in the array twice |
| `MemblockAdd.FusionCovers` | src/mm/memblock.c:63-98 | a fusion covers exactly what was covered, for every array |
| `MemblockAdd.FiredFusionJoins` | src/mm/memblock.c:63-98 | a fusion that fires joins exactly two entries, the range and the region below it if they touch, else the range and the region above |
| `MemblockAdd.AbuttingAddRepeatsLast` | src/mm/memblock.c:118-156 | an add that abuts a region without being held by one leaves the last region twice; without it the array is sorted and exact |
| `MemblockAdd.BetweenTwoJoinsOne` | src/mm/memblock.c:82-97 | adding the page between two regions joins it to the lower one alone, where a comment promises both |
| `MemblockAdd.AddIsRightExactlyWhen` | src/mm/memblock.c:118-156 | the exact condition under which adding to separated nonempty regions leaves a sorted array; exact it always is; it may still hold an empty region or two that touch |
| `MemblockAdd.EmptyInFront` | src/mm/memblock.c:134-147 | a right add can leave an empty region in front |
| `Memblock.RightAddThenWrong` | src/mm/memblock.c:121-156 | after such an add the next one, clear of all regions, overwrites the first entry and leaves the array out of order |
| `MemblockAdd.AddStaysTidyExactlyWhen` | src/mm/memblock.c:118-156 | the condition that chains: separated nonempty regions are separated, nonempty and exactly the old ones and the range afterwards if and only if the range is clear of all or inside one that begins below it |
| `MemblockAdd.ClearAddKeepsSeparated` | src/mm/memblock.c:118-156 | a range that neither overlaps nor touches keeps the regions separated and adds one |
| `MemblockAdd.ClearAddIsTidy` | src/mm/memblock.c:118-156 | after a clear add nothing is fused, and the regions cover exactly the old ones and the range |
| `MemblockAdd.TwoPagesTwice` | src/mm/memblock.c:63-98 | adding the second page of memory to the first one leaves both in the array twice |
| `MemblockAdd.LongerRangeTwice` | src/mm/memblock.c:118-156 | adding a range that begins with a region and reaches beyond it leaves an empty region and the rest twice |
| `Boot.PageMapFreeBootmem` | src/mm/page_alloc.c:289-308 | over any map: exactly the pages of regions that end within it become free, listed in order of address, and the records of all others stay |
| `Boot.ReserveAll` | src/arch/x86/setup.c:158-174 | after all reservations exactly the bytes outside every page-rounded reserved range remain |
| `Boot.OfferIsReportedExactlyWhen` | src/arch/x86/memory.c:90-103 | every byte that an entry hands over is one that it reports if and only if it lies below 4 GiB or its size is cut to nothing |
| `Boot.HighPageIsOfferedLow` | src/arch/x86/memory.c:90-103 | a page that the firmware reports above 4 GiB is handed over as one at 128 KiB, which nobody reports |
| `Boot.PagesAreReportedExactlyWhen` | src/arch/x86/memory.c:90-103 | rounded to pages, every byte handed over is one that the entry reports if and only if it lies below 4 GiB and its own ends are page boundaries |
| `Boot.PagesOffered` | src/arch/x86/memory.c:90-103 | a page handed over holds a byte that the firmware reports if no entry from 4 GiB on is taken for low memory; if all entries end at page boundaries, too, every byte of it |
| `Boot.LowBytesAreOfferedExactlyWhen` | src/arch/x86/memory.c:90-103 | an entry hands over all its usable bytes from 64 KiB to 1 MiB if and only if the cut leaves enough of its size and its end does not wrap around to the start or below |
| `Boot.LowBytesAreOffered` | src/arch/x86/memory.c:72-105 | every byte from 64 KiB to 1 MiB of an entry that ends below 4 GiB is handed over |
| `Boot.ClearIsAway` | src/mm/memblock.c:118-156 | a range is clear of the regions that hold others exactly when no byte of those is within it or next to it |
| `Boot.InsideIsNested` | src/mm/memblock.c:118-156 | a range is inside one region exactly when the ranges held have all its bytes and the one below |
| `Boot.AddRange` | src/mm/memblock.c:118-156 | one more range: the array holds exactly all ranges, in separated nonempty regions, if and only if the new one is away from the earlier ones or nested in them |
| `Boot.MemblockSetup` | src/arch/x86/memory.c:72-105 | if every range handed over can be added to those before it, the array, empty at first, ends up with exactly the pages of all: separated, nonempty, page-aligned |
| `Boot.CommonMapOffers` | src/arch/x86/memory.c:90-103 | 640 KiB, the memory from 1 MiB on and one gigabyte from 4 GiB on: the last is handed over as the lowest gigabyte |
| `Boot.CommonMapGoesWrong` | src/arch/x86/memory.c:72-105 | what that map leaves in the array: an empty region and one up to 1 GiB twice |
| `Boot.MapPlaced` | src/mm/page_alloc.c:310-327 | the page map goes to the lowest room for it; there is none, or the byte behind it is not left, exactly when boot gives up |
| `Boot.Start` | src/mm/page_alloc.c:310-337 | gives up exactly when what the reservations leave has no room for the page map between 64 KiB and 1 MiB, or when the byte behind the pages of the lowest room is not left; otherwise the map is there, what is left is exactly the given regions without reservations and page map; its pages within the map become free, and a page is managed only if all its bytes lie there; the allocator is valid if and only if no page left unmanaged was flagged FREE in the memory of the map |
| `Boot.RunsHandOutGoodBytes` | src/mm/page_alloc.c:122-235 | any set that holds all bytes of all managed pages holds, after any run, every byte of every page handed out, and that page was free |
| `Boot.BootUp` | src/arch/x86/setup.c:183-211 | from the empty array through the firmware map, the reservations and the page map to any run of allocations and safe frees: boot gives up exactly when there is no lowest room for the page map with a byte left behind it; otherwise exactly the pages left within the map become free; every byte of every page handed out lies in a page handed over from the map, outside all reservations and outside the page map; if no entry from 4 GiB on is taken for low memory, in a page that holds a byte of usable memory; if all entries end at page boundaries, it is usable memory itself |
| `Pci.GroundedInClosed` | src/core/pci.c:294-366 | a listed device that was found from a start bus or behind an earlier bridge lies in every closed set |
| `Pci.ListMore` | src/core/pci.c:311-348 | putting a new device in front keeps the list free of duplicates and grounded |
| `Pci.ClosedIsLarger` | src/core/pci.c:294-366 | while a device that the scan would list is missing, every closed set has more addresses than the list |
| `Pci.PciScanner.FindDevice` | src/core/pci.c:258-286 | finds a device exactly when its address is listed |
| `Pci.PciScanner.ProbeBridge` | src/core/pci.c:294-309 | a listed bridge: the bus behind it is scanned, whatever cycles the bridges form |
| `Pci.PciScanner.AllocDevice` | src/core/pci.c:311-348 | the new device is listed and everything behind it scanned |
| `Pci.PciScanner.ProbeFunc` | src/core/pci.c:350-366 | a function that answers is listed afterwards |
| `Pci.PciScanner.ProbeSlot` | src/core/pci.c:368-386 | all functions of the slot that can be found are listed |
| `Pci.PciScanner.ProbeBus` | src/core/pci.c:388-392 | all devices of the bus are listed |
| `Pci.PciScanner.Init` | src/core/pci.c:394-415 | for every configuration space the scan ends; no duplicates; the list is contained in every closed set, and closed itself if and only if there is memory for the devices of some closed set |
| `Slabs.SlotsFillBlock` | src/mm/slub.c:114-119 | the slots of a slab fill its block of pages exactly: one page of as many slots as it holds, or the smallest block that holds one |
| `Slabs.IndexFitsExactlyWhen` | src/mm/slub.c:88-102 | for every 32-bit size: served up to 32768 by the smallest fitting power of two, refused above, except that sizes above 2^31 wrap to the smallest cache |
| `Slabs.HugeSizeGetsEightBytes` | src/mm/slub.c:88-102 | a size of 2^31 + 1 is given the cache of 8 bytes |
| `SlabPool.ObjectsDisjoint` | src/mm/slub.c:121-193 | objects in use, of whatever caches, share no byte |
| `SlabPool.ObjectLeadsHome` | src/mm/slub.c:195-207 | address to page to compound head leads from any object in use to its own slab and cache |
| `SlabPool.InuseCounts` | src/mm/slub.c:121-157 | the slots that are not on the free list are exactly the objects in use, and `inuse` counts them |
| `SlabPool.ExchangeInUse` | src/mm/slub.c:149-157 | moving a slab between lists changes which of its own slots are in use and no other object |
| `SlabPool.GivenFromPartial` | src/mm/slub.c:248-262 | giving an object from a listed slab takes it off and puts it back on the list its count demands |
| `SlabPool.TakenBackOk` | src/mm/slub.c:209-239 | taking an object back moves the slab to the partial list, or off all lists exactly when it was the last object |
| `Slub.SlabAllocator.constructor` | src/mm/slub.c:328-365 | empty caches of powers of two, with the slots and the order of a slab that their size asks for, are consistent, and no object is in use |
| `SlabRuns.GiveEffect` | src/mm/slub.c:121-157 | handing out an object of a partial slab: it was nobody's, it is in use now, and nothing else changes |
| `SlabRuns.NewEffect` | src/mm/slub.c:159-193 | a block that was free becomes a slab with exactly its first object in use |
| `SlabRuns.TakeBackEffect` | src/mm/slub.c:209-239 | taking an object back: exactly that object is no longer in use, and the slab goes exactly when it was the last |
| `SlabRuns.AllocateEffect` | src/mm/slub.c:264-275 | NULL exactly when no slab has a free slot and no block is left, and then nothing changes; otherwise an object that nobody held |
| `SlabRuns.StepEffect` | src/mm/slub.c:209-285 | every call changes the set of objects in use exactly as its caller expects, and keeps the pages that are free or in slabs |
| `SlabRuns.RunTracksObjects` | src/mm/slub.c:209-285 | after every run of allocations and safe frees the objects in use are exactly those handed out and not given back |
| `SlabRuns.RunKeepsObjectsApart` | src/mm/slub.c:209-285 | no two objects held after any run share a byte |
| `SlabRuns.RunKeepsSpare` | src/mm/slub.c:209-285 | every run keeps the cache sizes and the set of pages that are free or in slabs |
| `SlabRuns.NothingLeaks` | src/mm/slub.c:209-285 | a run that begins and ends without objects in use restores every free list of the page allocator (as a multiset) and every counter |
| `SlabRuns.EveryObjectIsFound` | src/mm/slub.c:195-207 | while all compound heads are right, `bfree` finds the slab of every object in use |
| `SlabHeads.SinglePageIsClear` | src/mm/page_alloc.c:148-149 | while all heads are right, taking a single free page overwrites the head of no live page |
| `SlabHeads.RunKeepsHeads` | src/mm/slub.c:209-285 | every run of calls on caches with slabs of one page keeps all compound heads right |
| `SlabHeads.RunFindsObjects` | src/mm/slub.c:195-207 | so after every such run `bfree` finds the slab of every object in use |
| `SlabHeads.SizesToAPageAreSmall` | src/mm/slub.c:277-285 | `bmalloc` of up to 4096 bytes is such a call |
| `SlabHeads.PairMisleadsBfree` | src/mm/slub.c:195-207 | three allocations, two of a page and one of two pages, lead `bfree` from the second object to the slab of the first |
| `SlabHeads.PoisedHeap` | src/mm/slub.c:328-365 | four free pages and empty caches of 4096 and 8192 bytes are a heap in which that happens |
| `SlabOrder.NextFromCurrent` | src/mm/slub.c:121-157 | an allocation takes the first free slot of the slab used last, which stays the current one while it has another |
| `SlabOrder.FreedIsCurrent` | src/mm/slub.c:209-239 | the slab of an object given back becomes the current one, with that slot last |
| `SlabOrder.ObjectsInOrder` | src/mm/slub.c:159-193 | a new slab is used up in order of address |
| `SlabOrder.AllocateCounts` | src/mm/slub.c:172-193 | `total_slabs` goes up by one exactly when a new slab is made |
| `SlabOrder.ReleaseCounts` | src/mm/slub.c:209-239 | and never down |
| `SlabRuns.StepOfFree` | src/mm/slub.c:241-246 | a free is one step, whichever slab is named: an object in use belongs to one slab of one cache |
| `Slub.SlabAllocator.CachePage` | src/mm/slub.c:134-147 | in a consistent pool: a slab of this cache with a free slot, NULL exactly when it has none, and nothing changes |
| `Slub.SlabAllocator.CacheSetup` | src/mm/slub.c:159-170 | the loop lists the slots in order |
| `Slub.SlabAllocator.CacheAdopt` | src/mm/slub.c:172-193 | a fresh block becomes an empty slab and is counted |
| `Slub.SlabAllocator.CacheAllocObject` | src/mm/slub.c:248-262 | fetch, count and fix up in place |
| `Slub.SlabAllocator.CacheAlloc` | src/mm/slub.c:264-275 | from every consistent state: an object that no one held, NULL exactly when no slab has a free slot and no block is left; the state stays consistent, and compound heads that were right stay right exactly when the buddy range of a new block is clear |
| `Slub.SlabAllocator.PutBack` | src/mm/slub.c:209-239 | in place: object to the end of the free list, counters, and the list the slab belongs on |
| `Slub.SlabAllocator.Bfree` | src/mm/slub.c:209-246 | from every consistent state, for an object whose own page leads to its slab: exactly that object is no longer in use; an empty slab goes back, which is safe exactly when the merge loop stops at a page that is not FREE |
| `Slub.SlabAllocator.Bmalloc` | src/mm/slub.c:277-285 | from every consistent state: an unused object of the smallest fitting power of two; exactly when it fails; the result is a state from which the next call may start |
| `Slub.SlabAllocator.Serve` | src/mm/slub.c:209-285 | one call in place is one step on values |
| `Slub.SlabAllocator.ServeAll` | src/mm/slub.c:209-285 | any sequence of calls in place ends, with the same answers, as the run on values |
| `Division.DivL` | src/arch/x86/math.c:27 | the divide instruction: quotient below 2^32 because the upper half is below the divisor |
| `Division.ArchDiv` | src/arch/x86/math.c:4-30 | the two-step division is quotient and remainder for every 64-bit value and nonzero 32-bit divisor |
| `Division.PowIsPower` | src/core/math.c:43-55 | the halving recursion is the power |
| `Superblock.StoredSizeIsRightExactlyWhen` | src/include/elfboot/super.h:28-29 | the 16-bit field holds the block size if and only if that is below 64 KiB; from there on it holds 0, and every division by it faults |
| `Superblock.SectorsOfBlock` | src/fs/super.c:32-50 | sector numbers of a block are exact, and a block has no sector at all when it is smaller than one |
| `Superblock.BlockCount` | src/fs/super.c:61-67 | for a positive length the precomputed number of blocks is exactly enough |
| `Superblock.ZeroLengthWraps` | src/fs/super.c:61-67 | a length of zero at a block boundary wraps around to nearly all blocks |
| `Superblock.ReadBlock` | src/fs/super.c:69-77 | on success the buffer holds exactly the bytes of the block; it is left alone when a block is smaller than a sector |
| `Superblock.ReadOffset` | src/fs/super.c:97-131 | succeeds exactly when there is memory for a block and every block of the range can be read, and then the buffer starts with exactly those bytes and nothing behind them changes |
| `Ext2Map.LocateIsHome` | src/fs/ext2fs/ext2fs.c:107-141 | below 12 + N + N^2 the loop over the levels looks where the format keeps the block |
| `Ext2Map.PathIsRightExactlyWhen` | src/fs/ext2fs/ext2fs.c:125-136 | for every block size that fits its field and every block that a 32-bit offset reaches: the path is right if and only if blocks have 4 KiB or more, or the block is not triply indirect (the stride becomes N^3) |
| `Ext2Map.OffsetReach` | src/fs/ext2fs/ext2fs.c:112 | from 4 KiB blocks on no 32-bit offset reaches the triply indirect blocks |
| `Ext2Map.NoOffsetFaults` | src/fs/ext2fs/ext2fs.c:125-127 | no 32-bit offset makes the loop over the levels divide by zero |
| `Ext2Map.FirstTriplyIndirectBlock` | src/fs/ext2fs/ext2fs.c:125-136 | with 1 KiB blocks the first triply indirect block is looked up along [1, 0, 0], where [0, 0, 0] belongs |
| `Ext2Map.DigitsDetermine` | src/fs/ext2fs/ext2fs.c:97-101 | the base-N digits of an index determine it |
| `Ext2Map.SecondIndirectPath` | src/fs/ext2fs/ext2fs.c:87-105 | in the layout of the format block 12 + N + iN + j hangs below root 13 along [i, j] |
| `Ext2Map.ThirdIndirectPath` | src/fs/ext2fs/ext2fs.c:87-105 | and block 12 + N + N^2 + iN^2 + jN + l below root 14 along [i, j, l] |
| `Ext2Map.PathsAreDistinct` | src/fs/ext2fs/ext2fs.c:87-105 | in the layout of the format distinct logical blocks have distinct root and index paths |
| `Ext2Map.ThirdLevelIsShifted` | src/fs/ext2fs/ext2fs.c:125-136 | with blocks of 1 KiB or more, triply indirect block i is looked up along the path of block (i + N^2) mod N^3 |
| `Ext2Map.LocatePathsAreDistinct` | src/fs/ext2fs/ext2fs.c:107-141 | with blocks of 1 KiB or more the code looks along distinct paths for distinct blocks, triply indirect ones included |
| `Ext2Map.SmallBlocksAreMissing` | src/fs/ext2fs/ext2fs.c:125-136 | with smaller blocks no level fits the first two triply indirect blocks, and 2^32 / N^3 - 1 is answered for them |
| `Ext2Map.LocatePathsAreDistinctExactlyWhen` | src/fs/ext2fs/ext2fs.c:107-141 | distinct blocks that a 32-bit offset reaches get distinct paths if and only if blocks have 1 KiB or more |
| `Ext2.PointerIsStored` | src/fs/ext2fs/ext2fs.c:101 | four bytes on the device, least significant first, are read as the block number that they are |
| `Ext2.IndirectBlock` | src/fs/ext2fs/ext2fs.c:87-105 | the loop that ends by unsigned wrap-around is the walk through the pointers along the digits |
| `Ext2.IndirectBlocks` | src/fs/ext2fs/ext2fs.c:107-141 | block 12 + i is pointer i of the block that pointer 12 names, block 12 + N + iN + j pointer j of the block that pointer i of the block at pointer 13 names |
| `Ext2.InodeBlock` | src/fs/ext2fs/ext2fs.c:107-141 | for every 32-bit offset: the block found at the place that the levels give, 0 without memory, the last quotient when no level fits |
| `Ext2.BlockIsInTree` | src/fs/ext2fs/ext2fs.c:107-141 | for every block that is not triply indirect the answer is what the pointers along the path of the format lead to, a zero pointer followed like any other |
| `Ext2Holes.WalkMeetsHole` | src/fs/ext2fs/ext2fs.c:94-102 | up to the first zero pointer on the way the walk is that of the format; from there on the format has nothing, and the code follows the rest of the way from block 0 |
| `Ext2Holes.BlockIsStoredExactlyWhen` | src/fs/ext2fs/ext2fs.c:107-141 | for every block that is not triply indirect the answer is what the tree of the format holds if and only if no zero pointer stands on the way, or nothing is found from block 0 on |
| `Ext2Holes.StoredIsFound` | src/fs/ext2fs/ext2fs.c:107-141 | a block that the format holds is always found |
| `Ext2Holes.HolesAreSeenExactlyWhen` | src/fs/ext2fs/ext2fs.c:94-102 | all files read back as the format has them, holes included, if and only if block 0 of the device cannot be read or holds only zero pointers |
| `Ext2Holes.HoleReadAs` | src/fs/ext2fs/ext2fs.c:94-102 | without a singly indirect block, pointer i of block 0 is taken for logical block 12 + i |
| `Ext2Holes.MagicIsTakenForABlock` | src/fs/ext2fs/ext2fs.c:222-229 | on every mounted volume with blocks of 2 KiB or more and a readable block 0, a hole reads as the block whose number ends in the magic number of the superblock |
| `Ext2File.CutIsExactWhen` | src/fs/ext2fs/ext2fs.c:165 | a block is looked up as itself if and only if it starts below 4 GiB |
| `Ext2File.BlockAtFourGiB` | src/fs/ext2fs/ext2fs.c:165 | with 1 KiB blocks the block at 4 GiB is taken for block 0 |
| `Ext2File.InodeRead` | src/fs/ext2fs/ext2fs.c:143-181 | the answer counts leading present blocks, and that many bytes of the file, no others, arrive |
| `Ext2File.ReadsAllExactlyWhen` | src/fs/ext2fs/ext2fs.c:157-181 | a read is complete if and only if every touched block is there and the blocks of the bare length reach the end of the range |
| `Ext2File.AnswerWhenAllArrive` | src/fs/ext2fs/ext2fs.c:157-181 | when all blocks arrive the answer is the length, or the end of ceil(length / block size) blocks less the offset in the first block, whichever is less |
| `Ext2File.AnswerWhenOneIsMissing` | src/fs/ext2fs/ext2fs.c:157-181 | when a block is the first that does not arrive, the answer is what lies before it |
| `Ext2File.AlignedReadsComplete` | src/fs/ext2fs/ext2fs.c:157-178 | a read from a block boundary delivers its whole length when its blocks arrive |
| `Ext2File.ReadEndsEarly` | src/fs/ext2fs/ext2fs.c:157-178 | one block from its second byte on comes one byte short |
| `Ext2File.FileByteIsInTree` | src/fs/ext2fs/ext2fs.c:87-181 | below 4 GiB and, for blocks of less than 4 KiB, below the triply indirect blocks, bytes read are those of the blocks that the pointers along the path of the format lead to |
| `Ext2Holes.FileByteIsStored` | src/fs/ext2fs/ext2fs.c:87-181 | within the same bounds every byte whose block the format holds is the byte of that block |
| `Crc.MakeEntry` | src/crypto/crc32.c:20-31 | the inner loop computes eight shifts of the byte at the top |
| `Crc.TableStep` | src/crypto/crc32.c:49-50 | one table step takes in the eight bits of a byte, sign extension included |
| `Crc.TakeWord` | src/crypto/crc32.c:49-50 | taking in up to 32 bits one by one is adding them at the top and shifting |
| `Crc.TakeBitsContinues` | src/crypto/crc32.c:36-53 | a concatenation continues from the register of its first part |
| `Crc.BurstsAreDetected` | src/crypto/crc32.c:36-53 | messages that differ only within 32 consecutive bits have different checksums |
| `Crc.Crc32.InitTable` | src/crypto/crc32.c:12-34 | the table holds the entry of every byte |
| `Crc.Crc32.Checksum` | src/crypto/crc32.c:36-53 | for every message the result is the bit-at-a-time checksum, most significant bit first; the error code exactly without table and memory |
| `Numbers.TakeDigits` | src/core/printf.c:94-101 | repeated division leaves the numeral reversed, in at most 66 places |
| `Numbers.Format.PutString` | src/core/printf.c:31-44 | the string cut to its precision, padded on the side the flags say |
| `Numbers.Format.PutNumber` | src/core/printf.c:63-126 | sign, numeral and padding for every 64-bit number; it hangs exactly when the precision exceeds the number of digits |
| `Numbers.FiveDigitsOfOne` | src/core/printf.c:114-119 | the number 1 with precision 5 hangs |
| `Numbers.PrintedWidth` | src/core/printf.c:63-126 | the output is as long as the width or as the number needs |
| `Numbers.PrintsNumeral` | src/core/printf.c:72-101 | what is printed is the numeral of the number in capital letters without leading zeros |
| `Numbers.PrintedMagnitude` | src/core/printf.c:84-92 | of the absolute value if signed, of the 64-bit pattern if not |
| `Numbers.DigitValueIs` | src/core/string.c:245 | a character has the value d exactly when it is digit d, in either case |
| `Numbers.ReadsNumeral` | src/core/string.c:232-258 | every numeral in base 2 to 16, with letters in either case and any mix, is read as its number modulo 2^32 and up to its end, unless 0x stands in front in base 16 |
| `Numbers.ReadsPrefixed` | src/core/string.c:220-258 | a numeral behind 0x or 0X is read in base 16, given or guessed |
| `Numbers.ReadsGuessed` | src/core/string.c:220-230 | otherwise a guess takes a numeral that begins with 0 for octal, any other for decimal |
| `Numbers.ReadsSigned` | src/core/string.c:260-266 | `strtol` on a numeral that fits, with a sign or without |
| `Numbers.StrToUl` | src/core/string.c:220-258 | in place: value and end of the digits, with the guessed base and the prefix, as the reading function says |
| `Numbers.StrToL` | src/core/string.c:260-266 | the signed value and the end, in the given or the guessed base |
| `Numbers.RoundTripExactlyWhen` | src/core/string.c:232-258 | reading back a printed 64-bit number gives it modulo 2^32 exactly when no blanks come first or it is zero |
| `Numbers.BlankOneReadsZero` | src/core/string.c:232-258 | the number 1 printed five wide is read back as 0 |
| `Numbers.SignedRoundTripExactlyWhen` | src/core/string.c:260-266 | the same for signed 32-bit numbers |
| `Strings.StrChr` | src/core/string.c:123-131 | the first place of a character, the terminator included; NULL exactly when it is not there |
| `Strings.StrSpn` | src/core/string.c:145-153 | the length of the longest prefix of given characters |
| `Strings.StrCspn` | src/core/string.c:155-166 | the length of the longest prefix without them |
| `Strings.StrTokR` | src/core/string.c:188-216 | the next delimiter-free run, where to go on, and the one byte that is overwritten |
| `Strings.Tokenizer.StrTok` | src/core/string.c:168-186 | the same with the place kept inside |
| `Strings.SpansAreAllRuns` | src/core/string.c:188-216 | the runs visited are maximal, in order, and all of them |
| `Strings.RunsAreUnique` | src/core/string.c:188-216 | there is only one such list of runs |
| `Strings.Pieces` | src/core/string.c:188-216 | repeated calls return exactly the maximal runs, stop, and overwrite only delimiters that end a run |
| `Strings.TokenReads` | src/core/string.c:188-216 | every token still reads as its run after all later calls |
| `Vfs.TrailLeadsToIno` | src/fs/fs.c:213-224 | the names that lead to a cached node lead to its inode in the directories |
| `Vfs.TrailsDiffer` | src/fs/fs.c:183-224 | different nodes are at the ends of different trails |
| `Vfs.InsertKeepsGood` | src/include/elfboot/tree.h:151-158 | inserting what the directory has, after the cache had no such name, keeps sibling names distinct |
| `Vfs.StepAgrees` | src/fs/fs.c:198-224 | one part of a path: cache and directories agree |
| `Vfs.LookupAgrees` | src/fs/fs.c:226-271 | a lookup ends where the plain walk of the directories ends, or is missing, or leaves the root upwards, exactly when that does |
| `Vfs.LookupRepeats` | src/fs/fs.c:226-271 | repeating a lookup at any later time gives the same node and changes nothing |
| `Vfs.AnyHistoryAgrees` | src/fs/fs.c:226-289 | both hold after any sequence of earlier lookups |
| `Vfs.Cache.LookupTreeFast` | src/fs/fs.c:183-196 | the first child of that name |
| `Vfs.CachedStep` | src/fs/fs.c:198-211 | what the cache knows of one part of a path is what a plain step in the directories gives |
| `Vfs.Cache.LookupTreeNode` | src/fs/fs.c:198-211 | in a cache in order: the place that a plain step in the directories leads to, or nothing, exactly for an ordinary name under which no cached node hangs below |
| `Vfs.Cache.LookupTreeSlow` | src/fs/fs.c:213-224 | what the directory has is inserted as the last child |
| `Vfs.Cache.LookupTree` | src/fs/fs.c:226-271 | tokenising while looking up, in place, is the lookup of the components of the path from the node of the request, flagged absolute or not; without memory for the copy nothing is found and nothing changes |
| `Vfs.AbsoluteStartsAtRootExactlyWhen` | src/fs/fs.c:244-251 | a request flagged absolute gets the walk from the root for every path if and only if its node is the root: the start that line 247 picks is never read |

## Left out

- PageAlloc.PageAllocator.FreePageDel: the free lists and the lists of slabs are sequences; that pointer rings behave like them is proved in `Rings.dfy` on its own. Deleting a page that is on no list changes no sequence (the source writes through null pointers there); the counter still goes down, with 32-bit wrap-around.
- PageAlloc.PageAllocator.PageSetCompoundHead: pages at or past the end of the page map are skipped, where the source writes past the map; `Allocating.BuddyInsideExactlyWhen` says when that happens.
- PageAlloc.PageAllocator.constructor: the page map has a length that is a multiple of the largest block; addresses of uninitialised pages and the memory that holds the map itself are not linked to the bytes of `Boot.BootUp`.
- PageAlloc.PageAllocator.FreePage: the argument is the first page of a live block, which is what callers pass; freeing anything else has no meaning in the source.
- Memblock.MemblockType.DelRegion: regions end below 4 GiB, so that their own ends do not wrap around, and ranges lie in the 32-bit address space; an array with room for the split is required, because the source checks no bound.
- Memblock.MemblockType.AddRegion: does not model a full array, which the source does not check either, and says how the array is right or wrong only for separated nonempty regions.
- Memblock.MemblockType.FindInRange: the start of the range is positive, so that 0 always means failure; for an alignment that is no power of two only that the result lies in a region and in the range.
- Memblock.MemblockType.AllocRange: the alignment is a power of two, as in every call of the source.
- Boot.MemblockSetup: the ranges handed over satisfy the conditions named under Boot.BootUp.
- Boot.BootUp: the ranges handed over, each rounded to pages and cut to 32 bits, are nonempty, end below 4 GiB, are each away from the earlier ones or nested in them (`Boot.AddRange`: otherwise the array goes wrong), and fit the array together with the reservations; ranges from 1 MiB on go to a second array that is not part of this model, as is the call that asks the firmware.
- Slub.SlabAllocator.constructor: `bmem_cache_create`, its names and constructors and the order in which the boot cache comes up are not modelled; `total_slabs` is never lowered, as in the source.
- Slub.SlabAllocator.Bfree: the argument is an object in use whose page leads to its slab; a stale or foreign pointer is outside the model.
- Slub.SlabAllocator.Bmalloc: sizes are 32-bit numbers, and a shift by 32 is taken as the processor takes it, by 0.
- Pci.PciScanner.Init: the configuration space is a total function that does not change while it is scanned; `bmalloc` succeeds a given number of times; what is copied from the configuration space into a listed device is left out.
- Superblock.ReadOffset: lengths are positive (a length of zero is `Superblock.ZeroLengthWraps`), and a block is at least a sector and below 64 KiB.
- Superblock.ReadBlock: `bdev_read` succeeds or fails as a function of the sectors.
- Ext2.BlockIsInTree: says nothing of holes; `Ext2Holes.BlockIsStoredExactlyWhen` does.
- Ext2.InodeBlock: when no level fits, the last quotient is returned as a block number, as in the source; block sizes fit their field, because with a larger one every call divides by zero (`Superblock.StoredSizeIsRightExactlyWhen`).
- Ext2Map.PathIsRightExactlyWhen: blocks behind the last triply indirect one, which the format does not have, are left out.
- Ext2Map.DigitsDetermine: `pow` is not cut to 64 bits; its arguments stay below 2^32 here.
- Numbers.Format.PutNumber: the width arithmetic on `pad` and `pre` does not overflow; `vsprintf` itself, which parses the format and takes the arguments, is left out.
- Numbers.StrToUl: strings hold no terminator inside; endless strings are left out.
- Crc.Crc32.Checksum: the buffer is a sequence of the given length.
- Vfs.Cache.LookupTree: `finddir` is a function of the directory's inode and the name, and nodes can always be allocated; mounts, names of 64 characters and more, and requests without a node are left out. What follows the address that a root's missing parent gives is not modelled.
- `isofs`, the directory search of ext2, drivers, boot menu, configuration files, boot protocols, module loading and the assembly: either plumbing for hardware or wrappers around what is proved here.
- Page contents: nothing is said about clearing pages or copying objects.
