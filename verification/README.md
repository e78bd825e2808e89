# A verified model of Skylight's memory stack

Skylight is a small x86-64 kernel. This project models its page-frame manager, its four-level page
tables, the address space it builds for itself at boot and its kernel heap, and beside them the PS/2
keyboard decoder and the integer printers. Each piece is written twice: as imperative Dafny with the
source's own fields, links and loops, and as functions on plain values that say what those fields stand
for. The methods are proved to compute the functions; the theorems are proved about the functions, for
all inputs, all states and all runs.

| file | what it models |
|---|---|
| `Descriptors.dfy` | page-table entries and the virtual-address indexer, bit for bit |
| `PageTree.dfy`, `PageSteps.dfy` | the tree of tables in physical memory, and what one write does to it |
| `PageEdits.dfy` | editing a page with any 16-bit flags |
| `AddressSpace.dfy` (module `Paging`) | map, walk, unmap, edit, remap |
| `PageTheorems.dfy` | what those mean for translations and access rights |
| `PagingRuns.dfy` | runs of those operations from a zeroed root |
| `Reload.dfy` | the address space built at boot |
| `Sections.dfy` | the page-frame manager on section lists, against a map from address to USED, FREE or BAD |
| `Orders.dfy` | inserting into and removing from the order of a linked list |
| `SectionList.dfy` | the manager as it is: slots, links, index, loops that rebuild the list they walk |
| `PageRuns.dfy` | runs of the manager's operations |
| `BootMap.dfy`, `Boot.dfy` | the section list built from the boot loader's memory map |
| `Addresses.dfy`, `KernelBoot.dfy` | addresses as numbers and as words, and the kernel's address space built from the frames of the booted manager |
| `Segments.dfy`, `Heap.dfy`, `HeapRuns.dfy` | the heap as a row of segments, as headers in memory, and in runs |
| `HeapPages.dfy`, `BackedHeap.dfy`, `BackedRuns.dfy` | mapping the pages under the heap, the heap together with them, and runs of both |
| `HeapBoot.dfy` | the heap in the address space built at boot |
| `Wrappers.dfy`, `Sequences.dfy` | a value that may be missing; a part of a sequence exchanged for another |
| `Numerals.dfy`, `Printers.dfy` | numbers in a base, and `utoa`, `itoa`, `__int_str` |
| `ScanCodes.dfy`, `Keyboard.dfy` | the framing and meaning of scan codes, and the interrupt handler |

`dafny verify dfyconfig.toml` checks everything.

## What the proofs found

* `paging_desc_set_address` ORs. Mapping over a leaf gives the wanted frame exactly when the bits of the
  old frame all belong to the new one (`NewLeafEntryPoints`, `MapTranslates`; `NewLeafEntryMixes` is a case
  where they do not).
* `paging_edit_page` masks its flags nowhere: it ORs them into three upper entries, follows two of those
  after the OR, and writes them into the leaf. Every table stays in its place and the page on its frame
  exactly when the flag bits above the low twelve are already set in all four entries (`EditKeeps`). The
  leaf alone does not decide (`EditLosesPage`).
* `pmm_lock_page` on a page where an empty section starts subtracts one from zero pages, and only then
  breaks the list (`LockWorks`). An allocation can leave such a section behind (`LockFails`).
* `pmm_free_page` frees a page exactly in the cases of `Freeable`: it does nothing inside a section
  (`FreeFails`), and nothing for a one-page section next to a FREE one (`FreeWorks`).
* Freeing the page just allocated restores the list, apart from the empty sections the allocation
  dropped, exactly when the page had been taken by growing a USED section or was a section by itself with
  another behind it (`FreeUndoesAlloc`; `FreeForgets` is a case where it was not). When it was the whole of
  the last section and not taken by growing, the free reads through the NULL link behind it
  (`FreeAtTheEnd`).
* When the memory map ends with free memory, `pmm_start` leaves what it should if its own pages lie before
  the run of free regions that ends the map, or start that run and leave a page of it. For every other map
  `pmm_lock_page` reads through the NULL link of the last section (`Boot.StartReadsNull`, `Boot.Start`;
  `StartFails` is such a map).
* In general, among the pages at which no empty section starts, `pmm_lock_page` reads through that link for
  exactly those behind the start of the last section, and for that start when the section is a single page
  (`LockReadsNull`). `pmm_lock_pages` does for exactly the free stretches that are not a `Stretch`
  (`LockManyReadsNull`), and `pmm_alloc_pool` when it takes all of the last section (`PoolTakesLast`).
  `pmm_alloc_page` does when no page is free and the last section is empty (`ScanReadsNull`), a state it can
  bring about itself (`AllocFails`). `pmm_free_page` does for exactly the pages behind the start of the last
  section, and for that start when the section is a single page that is not FREE, with no empty section
  before it (`FreeReadsNullAt`).
* `utoa` always ends its text within the bytes it clears (`UtoaEnds`). `itoa` leaves a negative number with
  as many digits as its table allows without a terminating zero in the bytes it clears; `ItoaBases` says in
  which bases that can happen. Base ten is not one of them.

## Model

| member | source | states |
|---|---|---|
| Descriptors.NewLeafEntryPoints | kernel/src/mem/paging/paging.c:62-66 | the entry written for a page is the wanted frame with the wanted flags if and only if the bits of the frame already there belong to the new frame |
| Descriptors.FieldsRead | kernel/src/mem/paging/paging.h:42-47 | the address is bits 12 to 51 of an entry and its flags the twelve below, whatever the top bits are |
| Descriptors.NewTableEntryPoints | kernel/src/mem/paging/paging.c:20-22 | over an empty entry, a new table's entry is present, points at the table and carries all the flags |
| Descriptors.NewLeafEntryMixes | kernel/src/mem/paging/paging.h:42-47 | a case where it is not: frame 0x5000 mapped over frame 0x3000 becomes 0x7000 |
| Descriptors.SetFlagsKeepsFrame | kernel/src/mem/paging/paging.h:87-93 | `paging_desc_set_flags` with any 16-bit flags keeps the address of its one descriptor if and only if the flag bits above the low twelve are already in it |
| Descriptors.CopyDescriptor | kernel/src/mem/paging/paging.c:187-191 | an entry's own address and low flags, written into an empty entry, give the entry back |
| Descriptors.AssignInjective | kernel/src/mem/paging/paging.h:49-62 | two addresses have the same four indices if and only if they agree on bits 12 to 47 |
| Descriptors.AssignReads | kernel/src/mem/paging/paging.h:49-62 | each of the four indices is its own nine bits of the address: 39 to 47, 30 to 38, 21 to 29, 12 to 20 |
| Descriptors.CanonicalPagesDistinct | kernel/src/mem/paging/paging.h:49-62 | page-aligned canonical addresses have the same indices only if they are the same address |
| Descriptors.GrantedByLeaf | kernel/src/mem/paging/paging.c:20-66 | rights ANDed over four entries (section 4.6 of the Intel SDM, Volume 3A) are the leaf's when the upper entries hold all its flags |
| PageTree.WidenEntry | kernel/src/mem/paging/paging.c:25-28 | adding flags to a present upper entry keeps every table in its place and changes that one slot only |
| PageTree.WriteLeaf | kernel/src/mem/paging/paging.c:62-66 | a write in a last-level table changes one slot and no table, because no table hangs at two places |
| PageTree.LinkTable | kernel/src/mem/paging/paging.c:16-23 | a zeroed page from outside the tree, linked at an absent entry, adds one table at one place and leaves a tree |
| PageSteps.LinkThenMap | kernel/src/mem/paging/paging.c:17-24 | linking a new table and then identity-mapping it in the tree it hangs in extends the tree by exactly the frames taken |
| PageSteps.LeafStep | kernel/src/mem/paging/paging.c:62-66 | writing the leaf keeps the tree sound: no shared table, free frames outside it, rights decided by leaves |
| Paging.AddressSpace.NextTable | kernel/src/mem/paging/paging.c:14-28 | one level: finds or allocates, clears, links and identity-maps the next table; fails only when fewer frames are left than tables are missing |
| Paging.AddressSpace.MapPage | kernel/src/mem/paging/paging.c:8-68 | the recursive map: ends, takes exactly the missing tables' frames, keeps the tree sound, writes the one leaf, identity-maps each new table, changes no other translation, and gives no upper entry a flag that was not asked for, but PRESENT and WRITE |
| Paging.AddressSpace.WalkPage | kernel/src/mem/paging/paging.c:70-101 | returns the frame found by following present entries, NULL where a table is missing |
| Paging.AddressSpace.UnmapPage | kernel/src/mem/paging/paging.c:103-137 | clears that page's leaf and nothing else, in any sound state |
| Paging.AddressSpace.EditPage | kernel/src/mem/paging/paging.c:140-158 | for any 16-bit flags memory becomes `Edited`; when the flags fit the four entries, that page's leaf takes them, the three entries on its path gain exactly them, every other entry stays and the address space stays sound |
| PageEdits.EditKeeps | kernel/src/mem/paging/paging.c:140-158 | in every sound state with the page's tables there, for any 16-bit flags: all tables stay in place and the page keeps its frame if and only if the flag bits above the low twelve are already set in its three upper entries and its leaf |
| PageEdits.EditSound | kernel/src/mem/paging/paging.c:140-158 | then the address space stays sound and only that page's flags and path change |
| PageEdits.EditLosesPage | kernel/src/mem/paging/paging.c:145-154 | in a sound address space, an edit whose flags fit the leaf but not the root's entry: a mapped page walks to NULL afterwards, and the flags end up in two pages that are no tables |
| Paging.AddressSpace.RemapPage | kernel/src/mem/paging/paging.c:160-196 | NULL and no change when a table of the old page is missing; otherwise the old leaf is cleared and mapped at the new page |
| PageTheorems.OneParent | kernel/src/mem/paging/paging.c:8-68 | every table below the root is pointed at by one present entry, at the level and index of its place |
| PageTheorems.MapTranslates | kernel/src/mem/paging/paging.c:8-101 | after a map the page walks to the frame (if and only if the old frame fits in it), each new table walks to itself, every other canonical page walks where it did |
| PageTheorems.RemapMoves | kernel/src/mem/paging/paging.c:160-196 | the new page gets the very entry the old one had, the old one walks to NULL, and apart from new tables nothing else moves |
| PageTheorems.RightsAreTheLeafs | kernel/src/mem/paging/paging.c:20-66 | in every sound state the rights of a page along its four levels are those of its leaf |
| PageTheorems.KernelRights | kernel/src/mem/paging/paging.h:16 | a page mapped for the kernel is present, writable and closed to user code in the rights combined over its four levels |
| PageTheorems.TablesAreSupervisor | kernel/src/mem/paging/paging.c:22-24 | each frame a map turns into a table is mapped to itself with just those rights |
| PagingRuns.Serve | kernel/src/mem/paging/paging.c:8-196 | every lawful sequence of map, unmap, edit and remap from a zeroed root, each request allowed at the stage it meets, is served request by request, each with its own effect on the memory before it; at every stage the tables form a tree with one parent entry each, no table is a free frame, and rights are the leaf's; as many frames as places serve all requests |
| PagingRuns.PlannedIsLawful | kernel/src/mem/paging/paging.c:8-196 | a run planned ahead is lawful: no page of a free frame is mapped to anything else, and edits come after a map of the page, with flags below 0x1000 |
| PagingRuns.UntouchedStays | kernel/src/mem/paging/paging.c:8-196 | over any part of such a run a page no request names, other than a free frame's own, keeps its descriptor |
| PagingRuns.MappedStays | kernel/src/mem/paging/paging.c:8-196 | an empty page mapped by one request walks to its frame for the rest of the run, as long as no request names it |
| PagingRuns.TreeHasOneParentEach | kernel/src/mem/paging/paging.c:8-196 | in a tree an entry is present and names a table if and only if it stands at the table's place |
| PageTheorems.SixFramesSuffice | kernel/src/mem/paging/paging.c:14-60 | when the free frames share a 2 MiB region, six of them are enough for any map |
| Reload.EmptyTree | kernel/src/mem/paging/reload.c:14-16 | a zeroed root is a sound tree that maps nothing |
| Reload.PlannedStep | kernel/src/mem/paging/reload.c:21-22 | one mapping of the boot plan keeps every earlier one |
| Reload.MapRegion | kernel/src/mem/paging/reload.c:19-24 | the inner loop: each page of a region is mapped to itself at its own address and at the upper-half alias, present, writable and closed to user code, and all earlier translations stay |
| Reload.ReloadKernelMap | kernel/src/mem/paging/reload.c:13-32 | every page of every region that is not NOUSE is mapped to itself at both addresses, every image page to its load address, each present, writable and closed to user code; no page is mapped beyond these and the own pages of the frames handed in, and the value put in cr3 is the root when the root is a page of such a region |
| KernelBoot.HandoutsAreGood | kernel/src/mem/paging/reload.c:14 | pages handed out by the manager `pmm_start` leaves, whether or not its list ends with FREE memory, are usable as tables, all different, and each a page of a region the boot code maps |
| KernelBoot.ReloadAfterStart | kernel/src/mem/paging/reload.c:13-32 | with those frames all of this holds and the value put in cr3 is the root, without further hypothesis |
| KernelBoot.CounterReaches | kernel/src/mem/paging/reload.c:20 | the loop over a region reaches every page of it |
| Addresses.WordsInOrder | kernel/src/mem/paging/reload.c:20 | addresses as machine words are ordered as the addresses are |
| Addresses.WordOfNextPage | kernel/src/mem/paging/reload.c:20 | adding 0x1000 to the word of a page gives the word of the next page |
| Sections.AllocRefines | kernel/src/mem/pmm/pfa.c:61-95 | unless the scan follows the NULL link, alloc returns the lowest FREE page, or NULL exactly when there is none, turns only that page USED and keeps the list in form, FREE memory at its end or not |
| Sections.AllocFails | kernel/src/mem/pmm/pfa.c:67-75 | a list whose last free page is handed out, after which the next scan unlinks the empty last section through its NULL link |
| Sections.ScanReadsNullAt | kernel/src/mem/pmm/pfa.c:67-75 | the scan follows the NULL link if and only if the last section is empty and no FREE section has a page |
| Sections.FreeSets | kernel/src/mem/pmm/pfa.c:97-156 | unless it follows the NULL link, free either changes no section at all or makes that one page FREE and keeps the list in form |
| Sections.FreeWorks | kernel/src/mem/pmm/pfa.c:97-156 | a page is FREE after the call if and only if it was, or it is `Freeable` |
| Sections.FreeableIs | kernel/src/mem/pmm/pfa.c:101-154 | a page is `Freeable` if and only if its section is not FREE, no empty section starts at it, and it is the last of several pages, the first of several, or the only one and between two sections that are not FREE |
| Sections.FreeFails | kernel/src/mem/pmm/pfa.c:138-153 | a case where it is not: the middle page of three in use |
| Sections.FreeForgets | kernel/src/mem/pmm/pfa.c:84-117 | a page split off a FREE section behind BAD memory stays USED when freed at once |
| Sections.FreeUndoesAlloc | kernel/src/mem/pmm/pfa.c:76-156 | freeing the page just allocated follows the NULL link if and only if the page was the whole of the last section and not taken by growing a USED one; it restores the cleaned list if and only if the page was taken by growing or was a whole section with another behind it |
| Sections.FreeAtTheEnd | kernel/src/mem/pmm/pfa.c:104-115 | a list on which the page just allocated is the last section, so that freeing it follows the NULL link |
| Sections.FreeReadsNullAt | kernel/src/mem/pmm/pfa.c:101-138 | free follows the NULL link if and only if the page lies behind the start of the last section, or is all of that section, which is not FREE, and no empty section comes before it |
| Sections.LockSets | kernel/src/mem/pmm/pfa.c:158-219 | lock makes that one page USED in every grow, split and merge case, unless an empty section starts there |
| Sections.LockWorks | kernel/src/mem/pmm/pfa.c:183-190 | lock does its work if and only if no empty section starts at the page; otherwise its page count wraps around |
| Sections.LockReadsNull | kernel/src/mem/pmm/pfa.c:162-197 | for a page at which no empty section starts, lock follows the NULL link behind the last section if and only if the page lies behind that section's start or is all of it |
| Sections.LockFails | kernel/src/mem/pmm/pfa.c:76-94 | a list on which an allocation leaves an empty section, and locking the page behind it breaks the list |
| Sections.LockBreaks | kernel/src/mem/pmm/pfa.c:183-190 | whenever an empty section starts at the page, that section is left with 2^64 - 1 pages |
| Sections.LockManySets | kernel/src/mem/pmm/pfa.c:226-231 | locking a stretch of FREE pages makes exactly that stretch USED |
| Sections.LockManyReadsNull | kernel/src/mem/pmm/pfa.c:226-231 | locking a stretch of FREE pages follows the NULL link if and only if the list ends with FREE memory and the stretch neither ends before the last section nor starts it and leaves a page of it |
| Sections.PoolRefines | kernel/src/mem/pmm/pfa.c:263-275 | unless locking follows the NULL link, a pool gets the lowest FREE section that is long enough and its pages turn USED, no others; with none, nothing changes its state |
| Sections.WellFormedIsSafe | kernel/src/mem/pmm/pfa.c:61-275 | in a list that does not end with FREE memory neither alloc nor a pool follows the NULL link |
| Sections.PoolTakesLast | kernel/src/mem/pmm/pfa.c:263-268 | locking a pool follows the NULL link if and only if the first FREE section long enough is the last one and the pool takes all of it |
| Sections.MergedOfPass | kernel/src/mem/pmm/pmm.c:89-108 | a pass of recombine, which skips the section it has just fused, does not change the final fused list |
| Sections.PassShrinks | kernel/src/mem/pmm/pmm.c:87-109 | a pass makes the list shorter unless no two neighbours are alike, so recombine ends |
| Sections.RecombineRefines | kernel/src/mem/pmm/pmm.c:83-110 | no two neighbours in one state, every address in the state it was in, and the list stays in form unless all of it is BAD |
| SectionList.UnusedIsUnlinked | kernel/src/mem/pmm/pmm.c:28-62 | a slot is outside the list exactly when both its links are NULL |
| SectionList.Manager.NewSection | kernel/src/mem/pmm/pmm.c:39-54 | hands out the slot at the index, else the first unused one; none once the index is past the end; never a linked slot |
| SectionList.Manager.Reindex | kernel/src/mem/pmm/pmm.c:28-37 | the index becomes the first unused slot, or 0 |
| SectionList.Manager.Split | kernel/src/mem/pmm/pfa.c:17-36 | the node keeps what lies below the address, a new node behind it gets the rest, links mirror each other |
| SectionList.Manager.CombineNext | kernel/src/mem/pmm/pfa.c:38-47 | a node of the same state behind takes this one in and its slot becomes unused |
| SectionList.Manager.CombinePrev | kernel/src/mem/pmm/pfa.c:49-57 | a node of the same state before takes this one in and its slot becomes unused |
| SectionList.Manager.AllocPage | kernel/src/mem/pmm/pfa.c:61-95 | the loop over links that drops empty sections while it walks computes `AllocSecs`, and fails if and only if it would follow the NULL link of an empty last section |
| SectionList.Manager.FreePage | kernel/src/mem/pmm/pfa.c:97-156 | the loop over links computes `FreeSecs` in all its branches, and fails if and only if it would follow the NULL link behind the last section |
| SectionList.Manager.LockPage | kernel/src/mem/pmm/pfa.c:158-219 | the loop over links, which goes on after a split, computes `LockSecs`, and fails if and only if it would follow the NULL link behind the last section |
| SectionList.Manager.LockPages | kernel/src/mem/pmm/pfa.c:226-231 | the loop computes `LockMany` and fails if and only if one of its steps does; only its first step can need new slots |
| SectionList.Manager.AllocPool | kernel/src/mem/pmm/pfa.c:263-275 | search and lock compute `PoolSecs`, and fail if and only if the lock does |
| SectionList.Manager.Recombine | kernel/src/mem/pmm/pmm.c:83-110 | ends, and leaves the fully fused list with the slots it freed unused |
| SectionList.Manager.Append | kernel/src/mem/pmm/pmm.c:176-183 | a new last section in the next slot |
| SectionList.Manager.InsertGap | kernel/src/mem/pmm/pmm.c:186-193 | a section linked in between the last one and the one before |
| PageRuns.StepKeeps | kernel/src/mem/pmm/pfa.c:61-275 | every operation that does not follow the NULL link keeps the list in form, hands out only FREE pages nobody holds, and leaves held pages USED, even when a page nobody holds is freed |
| PageRuns.RunKeeps | kernel/src/mem/pmm/pfa.c:61-275 | over every run the list stays in form, covers the same memory, and no page is handed out twice while it is held |
| PageRuns.HandoutsRise | kernel/src/mem/pmm/pfa.c:61-95 | successive allocations return different, rising, page-aligned pages that were FREE: what page tables are made of |
| BootMap.BuildDescribes | kernel/src/mem/pmm/pmm.c:168-196 | the list built from the memory map has each page of a region USED for signal 1, FREE for 0 and BAD for any other, and each gap BAD |
| BootMap.BuiltIsWellFormed | kernel/src/mem/pmm/pmm.c:168-198 | fused, that list is a chain with a BAD head, and well formed if and only if the map does not end with free memory |
| BootMap.TailIsLast | kernel/src/mem/pmm/pmm.c:168-198 | when it does, the last section is the run of touching free regions that ends the map |
| Boot.AddRegion | kernel/src/mem/pmm/pmm.c:171-195 | one round of the loop: the entry's section first, then one for the gap before it |
| Boot.Start | kernel/src/mem/pmm/pmm.c:129-206 | fails if and only if it would follow the NULL link; otherwise the running manager: the data in the first free region that can hold it, a 64th of the free memory rounded up to 64 MiB, with a slot for every 40 bytes begun; its own pages USED, other pages USED, FREE or BAD by their signal, gaps BAD, list well formed if and only if the map does not end with free memory |
| BootMap.FreeBytesAdds | kernel/src/mem/pmm/pmm.c:138-142 | the free memory is the sum of the lengths of the FREE regions |
| Boot.StartReadsNull | kernel/src/mem/pmm/pmm.c:198-205 | locking the manager's own pages follows the NULL link behind the last section if and only if the map ends with free memory and the data neither ends before the run of free regions that ends it nor starts that run and leaves a page of it |
| Boot.StartFails | kernel/src/mem/pmm/pmm.c:151-205 | a map for which it does: two touching free regions, the first too small for the data |
| Segments.NothingLost | kernel/src/mem/heap/allocator.c:22-149 | segment lengths and 32 bytes a header add up to the heap |
| Segments.Disjoint | kernel/src/mem/heap/allocator.c:22-149 | two segments share no byte |
| Segments.ExpandHelps | kernel/src/mem/heap/allocator.c:86-107 | an expansion brings `malloc` one retry nearer to a fit, which is why it ends |
| Segments.ExpandOk | kernel/src/mem/heap/allocator.c:86-107 | expanding keeps tiling, alignment and coalescing and the same blocks in use |
| Segments.MallocRefines | kernel/src/mem/heap/allocator.c:128-149 | for a rounded size: at most two expansions, then the lowest free segment long enough; one more block in use, 16-byte aligned |
| Segments.MallocServes | kernel/src/mem/heap/allocator.c:116-149 | for the very size asked for: NULL if and only if it is zero; otherwise one new block of at least those bytes and at most 47 more, 16-byte aligned, not above any free segment that has them; the heap grows only if no free segment has them, by the least whole pages for the size, or twice that |
| Segments.NoneTooMany | kernel/src/mem/heap/allocator.c:146-148 | `malloc` never expands once more than it must |
| Segments.ReleaseOk | kernel/src/mem/heap/allocator.c:109-114 | free takes just its block out of use, joins it with free neighbours on both sides and keeps the heap sound |
| Segments.FreeUndoesMalloc | kernel/src/mem/heap/allocator.c:22-144 | free right after a malloc that found room restores the exact row of segments |
| Heap.KernelHeap.Split | kernel/src/mem/heap/allocator.c:22-41 | the header behind is written and linked both ways, the last header follows; nothing happens for less than 16 bytes |
| Heap.KernelHeap.CombineForward | kernel/src/mem/heap/allocator.c:43-56 | a free segment behind is joined on, links mirror each other, the last header follows |
| Heap.KernelHeap.CombineBackward | kernel/src/mem/heap/allocator.c:58-60 | a free segment before takes this one in |
| Heap.KernelHeap.Initialize | kernel/src/mem/heap/allocator.c:72-83 | one free segment that fills the heap |
| Heap.KernelHeap.Expand | kernel/src/mem/heap/allocator.c:87-106 | the headers: the least whole pages not below the length, behind the heap, joined to a free last segment |
| HeapPages.MapPages | kernel/src/mem/heap/allocator.c:65-70 | the mapping loop: each page is mapped to a frame of its own, present, writable and closed to user code, no page moves but those and the new tables' pages, and enough frames make it succeed; the loop in `heap_expand` is the same |
| BackedHeap.Initialize | kernel/src/mem/heap/allocator.c:64-84 | the pages are mapped and the one header is written: every page of the heap walks to a frame of its own that is no longer free; it fails only when fewer frames are left than pages and missing tables |
| BackedHeap.Expand | kernel/src/mem/heap/allocator.c:86-107 | the least whole pages for the length are mapped and then the headers updated: every page of the longer heap walks to a frame of its own, the old ones to the frames they had |
| BackedHeap.Malloc | kernel/src/mem/heap/allocator.c:116-149 | `malloc` with the first initialization and each expansion mapping its pages: the promise of `Serves` for the size asked for, every page of the heap has a frame of its own and keeps it, and the call takes exactly one frame a new page and one a new table |
| BackedHeap.FreshRoom | kernel/src/mem/heap/allocator.c:118-119 | there is room for a heap in every fresh address space whose free frames lie below it |
| BackedRuns.Serve | kernel/src/mem/heap/allocator.c:22-149 | over every lawful run of `malloc` and `free` the heap and the addresses handed out are the run's, and every page of the heap keeps a frame of its own; it fails only when the frames run out |
| BackedRuns.RunGrows | kernel/src/mem/heap/allocator.c:22-149 | the heap never gets shorter |
| HeapBoot.HeapHasRoom | kernel/src/mem/paging/reload.c:13-32 | the address space built at boot maps nothing at the addresses of a heap above all memory, and its free frames lie below them |
| HeapBoot.BootAndRun | kernel/src/mem/heap/allocator.c:116-149 | in that address space, with the frames of the booted manager, every lawful run of `malloc` and `free` is served and every page of the heap has a frame of its own, as long as there are frames for the places of tables and the pages of the heap |
| Heap.KernelHeap.Free | kernel/src/mem/heap/allocator.c:109-114 | the headers after it are those of `Release` |
| Heap.KernelHeap.Malloc | kernel/src/mem/heap/allocator.c:116-149 | on the headers: search, split and retry compute `Mallocs`, keep the promise of `Serves` for the size asked for, and the retry ends |
| HeapRuns.RunKeeps | kernel/src/mem/heap/allocator.c:22-149 | over every run the blocks in use are those handed out and not freed, each with at least the bytes asked for, disjoint, in a heap that stays tiled and coalesced |
| HeapRuns.FirstIsConsistent | kernel/src/mem/heap/allocator.c:118-119 | the first heap with nothing handed out is a state such a run can start from |
| HeapRuns.MallocStep | kernel/src/mem/heap/allocator.c:116-149 | an address handed out is not one that is still held, and its block has at least the bytes asked for |
| Numerals.NumeralReads | kernel/src/extra/itoa.c:114-120 | a numeral stands for its number and has no leading zero |
| Numerals.NumeralUnique | kernel/src/extra/itoa.c:114-120 | no other row of digits does |
| Numerals.TableIsExact | kernel/src/extra/itoa.c:9-27 | each entry is the largest number of digits of a 64-bit number in that base |
| Printers.Fill | kernel/src/extra/itoa.c:114-120 | the loop whose condition never fails ends exactly at the first position, before its 8-bit index wraps |
| Printers.Utoa | kernel/src/extra/itoa.c:87-123 | the buffer holds the numeral, which is no longer than the table says, then zeros up to the digit count plus one, then what it held; other bases write nothing |
| Printers.UtoaEnds | kernel/src/extra/itoa.c:91-122 | for every 64-bit number the text is ended by a zero byte inside the cleared bytes, and none stands in it |
| Printers.Itoa | kernel/src/extra/itoa.c:30-84 | the same with a sign, for every number above the smallest |
| Printers.ReadsBack | kernel/src/extra/itoa.c:87-123 | the text is digits, letters in lower case, reads back as the number and has no needless zero in front |
| Printers.SignedReadsBack | kernel/src/extra/itoa.c:30-84 | the same for `itoa`, behind a '-' if and only if the number is negative |
| Printers.ItoaEnds | kernel/src/extra/itoa.c:63-71 | a zero byte ends the text within the cleared bytes if and only if it is not a negative number of maximal length |
| Printers.ItoaBases | kernel/src/extra/itoa.c:63-71 | some number is left unended in a base if and only if the power below the table's is less than 2^63 |
| Printers.ItoaDecimalEnds | kernel/src/extra/itoa.c:63-71 | never in base ten; in base 16 there is such a number |
| Printers.IntStr | kernel/src/extra/std/printf.c:15-49 | what `Prints` says and a terminating zero; the rest of the buffer stays |
| Printers.IntStrPrints | kernel/src/extra/std/printf.c:18-49 | the text starts with '-' if and only if the number is negative, with '+' or a space if and only if it is not and that is asked for; the rest reads back as the absolute value, letters upper case for 16 and lower case for 17 |
| Printers.IntStrAgrees | kernel/src/extra/std/printf.c:15-49 | unsigned and unpadded, it writes what `utoa` writes |
| ScanCodes.AtMostEight | kernel/src/iodev/hid/ps2/ps2_kbd.c:86-118 | no scan code grows past the eight-byte buffer |
| ScanCodes.PartialIs | kernel/src/iodev/hid/ps2/ps2_kbd.c:86-118 | which bytes can be waiting for more, said of the whole row of them |
| ScanCodes.StreamIsCut | kernel/src/iodev/hid/ps2/ps2_kbd.c:144-159 | any stream is cut into consecutive chunks of one to eight bytes, none lost and none twice |
| ScanCodes.WholesComeBack | kernel/src/iodev/hid/ps2/ps2_kbd.c:86-159 | a stream put together from whole scan codes is cut into exactly those |
| ScanCodes.KnownIsWhole | kernel/src/iodev/hid/ps2/ps2_kbd.c:248-502 | every scan code of the table, Print Screen and Pause included, is cut out whole |
| ScanCodes.KnownTranslates | kernel/src/iodev/hid/ps2/ps2_kbd.c:134-142 | every scan code of the table gets its key, a break code the make code's plus 0x80 |
| ScanCodes.OnlyKnown | kernel/src/iodev/hid/ps2/ps2_kbd.c:248-502 | nothing else is given a key |
| ScanCodes.MakeComesBack | kernel/src/iodev/hid/ps2/ps2_kbd.c:248-502 | a make code is found again from its key in the table ordered by keys; the keypad's two keys with one code are the only exception |
| ScanCodes.TypedIsRead | kernel/src/iodev/hid/ps2/ps2_kbd.c:86-502 | keys typed one after the other arrive as those keys in that order |
| ScanCodes.RenderFits | kernel/src/iodev/hid/ps2/ps2_kbd.c:134-142 | up to eight bytes fit the 64 bits they are gathered in, so the shift loses none |
| Keyboard.Ps2Keyboard.HandleScancode | kernel/src/iodev/hid/ps2/ps2_kbd.c:134-142 | the loop renders the bytes and registers one key, none for no bytes |
| Keyboard.Ps2Keyboard.Interrupt | kernel/src/iodev/hid/ps2/ps2_kbd.c:144-159 | the buffer follows the decoder and never overflows; while not listening the byte is dropped and the keyboard masked |
| Keyboard.Receive | kernel/src/iodev/hid/ps2/ps2_kbd.c:144-159 | after any number of interrupts, buffer and keys are the decoder's |

## Left out

- Paging.AddressSpace.MapPage: where the allocator has no page left the source clears the page at NULL; the model stops and says so. Addresses of free frames are in the lower half and page-aligned, and the slot a new table is identity-mapped in is empty or its own already.
- Paging.AddressSpace.EditPage: when the flags do not fit, or a table of the page is missing, the source goes on in whatever memory the entries name; `Edited` says which words it changes, and nothing more is claimed of them.
- Paging.AddressSpace.RemapPage: the source passes the old entry's address and narrows the entry in one argument list; the model evaluates it left to right.
- Reload.ReloadKernelMap: no region holds page zero, whose walk could not be told from NULL, and memory lies below the last 512 GiB of the lower half, so that its alias does not meet the kernel image.
- SectionList.Manager.AllocPage: the flag that forbids allocations before boot is done, and the free-memory counter, which early returns skip, are not modelled.
- SectionList.Manager.FreePage: pages are aligned and not page zero; where the source follows a NULL link the model stops and says so, and what that read or write would do is not modelled. The same holds for SectionList.Manager.LockPage, AllocPage, LockPages and AllocPool.
- SectionList.Manager.Split: a spare slot is required, because the source does not check for NULL; the last slot may reach past the data area by less than its size, as in the source.
- SectionList.Manager.AllocPool: the list of pools itself, and freeing and reallocating pools.
- Sections.RecombineRefines: when all of memory is BAD the list shrinks to its head, whose links are both NULL, so its slot counts as unused; the manager is not used in that state.
- Boot.Start: the map is sorted, disjoint, page-aligned and starts with the unusable first megabyte, and its metadata has room for two sections an entry and one more; the dump of sections is not modelled.
- BackedHeap.Malloc: sizes and addresses are unbounded, so no sum wraps at 64 bits; `realloc` and `calloc` are not modelled. The bytes of blocks are not modelled, so a client that writes past its block is not either. The same holds for Heap.KernelHeap.Malloc, the part of it that works on the headers.
- HeapPages.MapPages: with no frame left it stops, where the source goes on to map page zero.
- BackedHeap.Expand: the room the heap grows into is unmapped and in the lower half, and every free frame lies below the heap.
- PagingRuns.Serve: a page that a free frame will be identity-mapped at is mapped to that frame only, and an edited page has its tables and room for the flags.
- Printers.Itoa: the smallest 64-bit number, whose negation overflows and is undefined in C, is left out.
- Printers.IntStr: padding, which appends to whatever the caller's buffer holds; the rest of `vprintf`.
- ScanCodes.KnownTranslates: the 249 cases of the table are grouped by their leading bytes, so a break code is its make code's case with 0x80 set.
- Keyboard.Ps2Keyboard.Interrupt: commands to the keyboard, its lights, and the ring buffer of keystrokes.
- Translation-lookaside buffers, `invlpg` and loading cr3 have no effect here.
- The scheduler, the ELF loader, devices, the shell and all drawing.
