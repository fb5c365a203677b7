# gapxos memory management, verified

A model in Dafny of the memory management core of the gapxos kernel and of its
boot loader, with proofs of what that code promises. `dafny verify dfyconfig.toml`
checks the whole project.

- **Virtual memory manager.** `AvlTree`, `AvlProofs` and `AvlSearch` hold the
  interval tree as a value; `AvlHeap` is the same tree of nodes relinked in
  place. `Intervals` is the plain ordered list the tree stands for, `VmmTree`
  the refinement between the two, `WideSpans` what happens beyond the span the
  refinement holds for. `VmmRuns` states one invariant over tree, page tables and
  frames and proves it over every run; `VmmConsequences` draws from it.
  `MemoryManagers` has the manager object, `LockProtocol` the spin lock under any
  number of CPUs.
- **Page tables.** `PageTables` has one translation function, following section
  4.5 (4-level paging) and section 4.6 (access rights) of the Intel SDM Volume
  3A, that serves all three writers: `set_page` and `free_page`
  (`PagingProofs`), `_init_paging` (`PhysicalMap`, `PhysicalWindow`) and the
  loader's `add_page` (`LoaderTables`). `PteBits` ties the records to 64-bit
  words; `AddressSpaces` is the editor as it runs. `Unchecked` says what
  `set_page` does to a page that is mapped already, by a large page or by its own.
- **Physical pages.** `BootMemory` and `PmmBoot` are the boot-time searches and
  the filling of the free-page stack, `LowPages` the taking of its lowest page,
  `PmmInit` the whole of `pmm_init`; `Frames` accounts for every frame;
  `PhysicalPages` has the stack as an object. `KernelStart` joins loader,
  `pmm_init` and the kernel's own memory manager.
- **Loader.** `LoaderImage` loads segments byte by byte, `LoaderOrigin` finds
  them a place, `LoaderBoot` puts origin, first tables and segments together,
  `LoaderProgram` is the loader as it runs.
- **Heap, descriptor table, APIC table.** `HeapSpec` (lists of blocks),
  `HeapMemory` and `HeapProgram` (headers linked by addresses), `Gdt`,
  `GdtProgram` (the table on that heap), `Madt`.

`Words` has the machine-word arithmetic and `ByteMemory` the byte loops that
several of them share.

## Where the code differs from what it promises

The model follows the code. Where a promise does not hold, the theorems named
say when it does and give an input on which it does not.

- `_delete_node` reads `parent` before setting it and has no branch for a
  successor that is a leaf right child. `AvlTree.DeleteAsWritten` is that code
  with the unset pointer read as null; `AvlProofs.DeleteAsWrittenIff` says when
  it is right. Everything about the manager uses `AvlTree.Delete`, where the
  successor is unlinked from its real parent.
- Heights along a deep successor spine are not refreshed, so runs of the manager
  promise order and contents but not balance (`AvlProofs.DeleteAvlIff`).
- `avl_below` keeps a difference of addresses in a 32-bit integer. Up to 0x80001
  pages it finds every lower neighbour (`VmmTree.BelowAt`); for every larger span
  it misses one on a balanced tree, and a run leaves two free neighbours
  unmerged (`WideSpans.BelowMisses`, `WideSpans.WideSpanUnmerged`).
- New page tables are used without being zeroed; runs assume that frames on the
  stack read as zero (`VmmConsequences.NewTableShows`).
- The comment on `set_page` says that a frame already mapped is freed first; the
  code does not do that. A frame is lost exactly when a usable page is set to
  another frame (`Unchecked.SetPageLosesIff`,
  `Unchecked.OverwrittenFrameIsLost`). The manager never does so.
- `malloc_pages` and `map_memory` check neither the address nor the frames they
  get. With no room in the range they start at address 0, which the loader left
  under a 2 MiB page: physical page 0 is overwritten and page 0 stays where it
  was (`Unchecked.FirstTurnOverwrites`); every page is mapped as asked if and only
  if there was room (`Unchecked.MallocRightIff`, `Unchecked.MapRightIff`). With room
  but without frames, frame 0 is used; the invariant survives if and only if the
  stack has what each page needs in its turn (`Frames.MapPagesKeepsIff`,
  `VmmRuns.PlaceAndMapKeepsIff`, `Frames.ShortageMapsZero`).
- `pmm_init` uses the buffer of the free-page stack, and `_init_paging` its new
  tables, through their physical addresses, which reach only the first 8 MiB. It
  runs without a fault if and only if the stack, at eight bytes a page, ends there
  and the lowest free pages, as many as are needed for tables, lie there
  (`PmmInit.RunsThroughIff`). With 4 GiB of free memory or more the stack alone
  does not fit and it always faults (`PmmInit.FourGigabytesFault`); the tables
  fault without a low page, and always from 2 TiB on
  (`PhysicalWindow.HighPageFaults`, `PhysicalWindow.TwoTerabytesFault`).
- `check_memory_bounds` compares strictly, so that a range starting on the last
  byte of a group is missed (`BootMemory.OffGridFails`), and skips one byte after
  a jump (`BootMemory.SkippedByteFails`).
- `find_elf64_phys_origin` subtracts the padding unchecked, cuts the address to
  32 bits and keeps a difference in a signed 32-bit integer. The address is right
  if and only if the entry it was taken from has room and its first page boundary
  is below 4 GiB (`LoaderOrigin.OriginRightIff`); inputs for the three failures
  are `LoaderOrigin.OriginEscapes`, `LoaderOrigin.OriginTruncates` and
  `LoaderOrigin.OriginPassesOver`. `load_elf64_module` does not check for a zero
  origin.
- Heap `free` does not reset the link of the freed block and relinks through the
  wrong slot (`HeapSpec.FreeRightIff`). A page given back is unmapped
  (`VmmConsequences.FreedBlockFaults`) but stays in the page list: `malloc` faults
  if and only if no page before the first such page offers a block, whatever the
  size (`HeapSpec.WalkFaultsIff`), and always once the first page of the list has
  been given back (`HeapSpec.OnlyBlockFreedFaults`).
- `_add_entry` keeps 32 bits of the base (`Gdt.RoundTripIff`). When the table is
  full it frees the old block after taking the new one, which by the item above
  is the wrong order: the live table ends up on the heap's free list if and only
  if both blocks are in one page (`GdtProgram.DoublingIff`), as after `gdt_init`
  on an empty heap (`GdtProgram.InitFreesTable`). Two ordinary allocations later
  `malloc` comes to the live table (`GdtProgram.TableHandedOut`); a TSS put there
  destroys the kernel data descriptor (`Gdt.TssOverwrites`). Selectors last as
  long as the live table is not handed out (`Gdt.SelectorLasts`,
  `Gdt.InitLasts`). Tables from 4096 bytes on are longer than their blocks
  (`HeapSpec.EnoughIff`).
- An NMI record for all processors is recognised by the number 0xff in x2APIC
  entries too; the model does the same.

## Model

| member | source | states |
|---|---|---|
| `AvlProofs.RotateLeftKeeps` | kernel/system/mem_mgmt/vmm/avl_tree.c:28-35 | a left rotation keeps the in-order list, whatever the stored heights |
| `AvlProofs.RotateRightKeeps` | kernel/system/mem_mgmt/vmm/avl_tree.c:37-44 | a right rotation keeps the in-order list, whatever the stored heights |
| `AvlProofs.RebalanceKeeps` | kernel/system/mem_mgmt/vmm/avl_tree.c:64-77 | rebalancing never changes the in-order list, for any stored heights, even stale ones |
| `AvlProofs.RebalanceAvl` | kernel/system/mem_mgmt/vmm/avl_tree.c:64-77 | two AVL subtrees whose ranks differ by at most two come out as an AVL tree with exact stored heights, at most one higher or lower |
| `AvlProofs.InsertList` | kernel/system/mem_mgmt/vmm/avl_tree.c:46-80 | the list after insertion is the old list with the entry put in address order |
| `AvlProofs.InsertSpot` | kernel/system/mem_mgmt/vmm/avl_tree.c:46-80 | what putting in order means: smaller addresses before, larger after, an equal address overwritten in its own node, nothing else changed |
| `AvlProofs.InsertEntrySorted` | kernel/system/mem_mgmt/vmm/avl_tree.c:46-80 | the list stays strictly sorted by address |
| `AvlProofs.InsertAvl` | kernel/system/mem_mgmt/vmm/avl_tree.c:46-80 | insertion into an AVL tree gives an AVL tree with exact heights, at most one higher |
| `AvlProofs.DeleteList` | kernel/system/mem_mgmt/vmm/avl_tree.c:82-137 | deletion, with the successor unlinked properly, removes exactly the entry at the address: all other intervals stay in order, those before it keep their nodes, one node is given back; any stored heights will do and no rotation goes through a missing child |
| `AvlProofs.DeleteAvl` | kernel/system/mem_mgmt/vmm/avl_tree.c:82-137 | without a successor two or more levels down, deletion restores exact heights and balance, at most one lower |
| `AvlProofs.CutSpineAvl` | kernel/system/mem_mgmt/vmm/avl_tree.c:103-118 | cutting the successor from a longer left spine leaves an AVL tree if and only if the successor's parent was level |
| `AvlProofs.DeleteDeep` | kernel/system/mem_mgmt/vmm/avl_tree.c:103-137 | with a deep successor no stored height changes and nothing rotates; the result is an AVL tree if and only if the successor's parent was level |
| `AvlProofs.DeleteAvlIff` | kernel/system/mem_mgmt/vmm/avl_tree.c:82-137 | deletion restores the AVL invariant if and only if the successor, when deep, had a level parent |
| `AvlProofs.AsWrittenLength` | kernel/system/mem_mgmt/vmm/avl_tree.c:103-118 | the code as written loses no entry from the list exactly when the successor is a leaf right child, and otherwise does what proper deletion does |
| `AvlProofs.DeleteAsWrittenIff` | kernel/system/mem_mgmt/vmm/avl_tree.c:103-118 | the code as written, with an unset parent read as null, deletes properly if and only if the successor is not a leaf right child |
| `AvlProofs.AvlIsFlat` | kernel/system/mem_mgmt/vmm/avl_tree.c:8-26 | an AVL tree of height h has at least 2^((h+1)/2) nodes |
| `AvlProofs.AvlFitsWidths` | kernel/system/mem_mgmt/vmm/avl_tree.c:8-26 | with 64-bit addresses no AVL tree is higher than 128, so the 16-bit height cannot wrap |
| `AvlProofs.BalanceFitsInt8` | kernel/system/mem_mgmt/vmm/avl_tree.c:18-26 | the 8-bit balance takes the same branches as the true one while ranks are below 254, and at 254 it does not |
| `AvlSearch.FindIsScan` | kernel/system/mem_mgmt/vmm/avl_tree.c:187-202 | on a sorted tree the search by start address is the linear scan of the list |
| `AvlSearch.MinSizeIsScan` | kernel/system/mem_mgmt/vmm/avl_tree.c:150-164 | the search for a fitting free node is the scan of the list from the high end, on any tree |
| `AvlSearch.BelowIsScan` | kernel/system/mem_mgmt/vmm/avl_tree.c:167-184 | while distances fit the 32-bit difference, the search by end address is the linear scan |
| `AvlSearch.BelowSound` | kernel/system/mem_mgmt/vmm/avl_tree.c:167-184 | below 4 GiB of distance a hit really ends at the address |
| `AvlHeap.RotateLeftNode` | kernel/system/mem_mgmt/vmm/avl_tree.c:28-35 | in place: the nodes are relinked to the rotated tree, no node is lost or shared |
| `AvlHeap.RotateRightNode` | kernel/system/mem_mgmt/vmm/avl_tree.c:37-44 | in place: the nodes are relinked to the rotated tree, no node is lost or shared |
| `AvlHeap.RebalanceNode` | kernel/system/mem_mgmt/vmm/avl_tree.c:64-77 | in place: height refreshed and rotations done as in the list-preserving rebalancing |
| `AvlHeap.InsertNode` | kernel/system/mem_mgmt/vmm/avl_tree.c:46-80 | in place: the heap structure becomes the inserted tree, with at most one new node and all others reused |
| `AvlHeap.FindSuccessor` | kernel/system/mem_mgmt/vmm/avl_tree.c:103-107 | the loop ends at the leftmost node of the right subtree and its parent |
| `AvlHeap.TakeSuccessor` | kernel/system/mem_mgmt/vmm/avl_tree.c:103-118 | in place: the node takes over the successor's interval and the successor is unhooked from its place |
| `AvlHeap.DeleteNode` | kernel/system/mem_mgmt/vmm/avl_tree.c:82-137 | in place: the heap structure becomes the tree without the entry, using only nodes it had |
| `AvlHeap.MinSizeNode` | kernel/system/mem_mgmt/vmm/avl_tree.c:150-164 | the node returned is the one that holds the entry the search over the tree finds, null if none |
| `AvlHeap.BelowNode` | kernel/system/mem_mgmt/vmm/avl_tree.c:167-184 | the node returned is the one that holds the entry the search by end finds, null if none |
| `AvlHeap.FindNode` | kernel/system/mem_mgmt/vmm/avl_tree.c:187-202 | the node returned is the one that holds the entry the search by start finds, null if none |
| `Intervals.LastFit` | kernel/system/mem_mgmt/vmm/mem_mgmt.c:33-52 | the interval chosen is free, long enough, and no later one is |
| `Intervals.AllocateManaged` | kernel/system/mem_mgmt/vmm/mem_mgmt.c:33-52 | a successful allocation keeps the range tiled by non-empty intervals with no two free neighbours |
| `Intervals.FreeManaged` | kernel/system/mem_mgmt/vmm/mem_mgmt.c:96-127 | freeing keeps the range tiled with no two free neighbours, for any argument at all |
| `Intervals.AllocateBlocks` | kernel/system/mem_mgmt/vmm/mem_mgmt.c:33-52 | the blocks in use after an allocation are those before and the new one |
| `Intervals.FreeBlocks` | kernel/system/mem_mgmt/vmm/mem_mgmt.c:96-127 | freeing removes the block in use at that address and no other |
| `Intervals.Canonical` | kernel/system/mem_mgmt/vmm/mem_mgmt.c:96-127 | two managed lists with the same blocks in use are the same list: maximal coalescing leaves no trace of history |
| `Intervals.FreeUndoesAllocate` | kernel/system/mem_mgmt/vmm/mem_mgmt.c:96-127 | freeing a fresh allocation restores the very same interval list |
| `Intervals.AllocateComplete` | kernel/system/mem_mgmt/vmm/mem_mgmt.c:33-52 | allocation fails if and only if no run of that many free pages exists anywhere in the range |
| `Intervals.AllocateHighest` | kernel/system/mem_mgmt/vmm/mem_mgmt.c:33-52 | the block handed out is not below any free interval that could hold it |
| `VmmTree.AllocVirtRefines` | kernel/system/mem_mgmt/vmm/mem_mgmt.c:33-52 | the tree operation does to the list exactly what the list allocation does, success and failure alike, and keeps nodes distinct |
| `VmmTree.RemainderAbsent` | kernel/system/mem_mgmt/vmm/mem_mgmt.c:33-52 | no node starts where the split-off remainder will, so the insertion never overwrites one |
| `VmmTree.DeleteAt` | kernel/system/mem_mgmt/vmm/mem_mgmt.c:96-127 | deleting a listed entry drops it alone and leaves the nodes before it where they were |
| `VmmTree.AbsorbedByList` | kernel/system/mem_mgmt/vmm/mem_mgmt.c:112-118 | the node held as prev survives the removal of its right neighbour and ends up holding both intervals |
| `VmmTree.AbsorbAfterList` | kernel/system/mem_mgmt/vmm/mem_mgmt.c:120-124 | the free interval after the freed one is merged into it, a used one is left alone |
| `VmmTree.CoalesceList` | kernel/system/mem_mgmt/vmm/mem_mgmt.c:112-124 | the two merging steps together merge the freed interval with both free neighbours |
| `VmmTree.FreeVirtRefines` | kernel/system/mem_mgmt/vmm/mem_mgmt.c:96-127 | the tree work of freeing does to the list exactly what list freeing does, for spans up to 0x80001 pages |
| `VmmTree.BelowAt` | kernel/system/mem_mgmt/vmm/avl_tree.c:167-184 | on a tiling of at most 0x80001 pages the search by end finds the lower neighbour of every entry, and nothing for the first |
| `WideSpans.BelowMisses` | kernel/system/mem_mgmt/vmm/avl_tree.c:167-184 | for every larger span there is a balanced tree that tiles it, with distinct nodes, on which the search misses the neighbour that ends at the address |
| `WideSpans.WideSpanUnmerged` | kernel/system/mem_mgmt/vmm/mem_mgmt.c:33-127 | for every larger span there is a run of allocations and frees from creation on after which two free intervals lie side by side |
| `PteBits.FrameOfAddress` | kernel/system/mem_mgmt/vmm/paging.c:13-17 | bits 12 to 47 of an address are its page number without the upper 16 bits |
| `PteBits.OrIsOr` | kernel/system/mem_mgmt/vmm/paging.c:25-44 | ORing the flag word into a 64-bit entry is the flag update of the record |
| `PteBits.MaskedIs` | kernel/system/mem_mgmt/vmm/paging.c:62-62 | a masked address is an entry with that frame and no flags |
| `PteBits.NewTableIs` | kernel/system/mem_mgmt/vmm/paging.c:25-26 | a new table's entry is its frame and the present bit |
| `PteBits.LeafIs` | kernel/system/mem_mgmt/vmm/paging.c:54-65 | the word that is stored for a page is the leaf entry of the model |
| `PteBits.FreedAddressIs` | kernel/system/mem_mgmt/vmm/paging.c:81-84 | the address given back is that of the frame in the entry |
| `PagingProofs.OnePlace` | kernel/system/mem_mgmt/vmm/paging.c:19-49 | no table is reached through two entries: the tables are a tree without sharing |
| `PagingProofs.WalkGrants` | kernel/system/mem_mgmt/vmm/paging.c:19-49 | from any table on the way the rights computed on the walk are those of the leaf |
| `PagingProofs.TranslateGrants` | kernel/system/mem_mgmt/vmm/paging.c:19-75 | the rights the processor computes over all four levels equal the rights of the leaf |
| `PagingProofs.DescentArrives` | kernel/system/mem_mgmt/vmm/paging.c:19-49 | the walk ends in the one level-1 table of the page, takes exactly the missing tables from the stack and changes no translation |
| `PagingProofs.SetPageRefines` | kernel/system/mem_mgmt/vmm/paging.c:54-75 | setting a page refines an update of a flat map: it translates as asked, every other page keeps translation and entry, tables stay a blank-backed tree, frames taken are exactly the missing tables |
| `PagingProofs.FreePageRefines` | kernel/system/mem_mgmt/vmm/paging.c:77-87 | freeing a page refines a removal: it faults afterwards, every other page keeps its translation, a usable frame and nothing else goes back on the stack |
| `PhysicalPages.Pmm.AllocPage` | kernel/system/mem_mgmt/pmm.c:150-155 | hands out the page pushed last, zero and no change when there is none; with page 0 not on the stack, zero is returned if and only if the stack is empty |
| `PhysicalPages.Pmm.FreePage` | kernel/system/mem_mgmt/pmm.c:157-159 | the page is the next one handed out and all others stay |
| `PhysicalPages.Pmm.TakeLowest` | kernel/system/mem_mgmt/pmm.c:31-46 | takes the first least page out of the stack and keeps the order of the others |
| `PhysicalPages.Pmm.FindLowest` | kernel/system/mem_mgmt/pmm.c:31-39 | the scan finds the first least page |
| `PhysicalPages.Pmm.CloseGap` | kernel/system/mem_mgmt/pmm.c:40-45 | the shifting loop closes the gap in place |
| `AddressSpaces.AddressSpace.Level` | kernel/system/mem_mgmt/vmm/paging.c:23-29 | in place: one level of the walk, the new table popped from the stack and linked, flags ORed in |
| `AddressSpaces.AddressSpace.GetPageTableEntry` | kernel/system/mem_mgmt/vmm/paging.c:19-49 | in place: three levels down to the level-1 table of the page |
| `AddressSpaces.AddressSpace.SetPageAt` | kernel/system/mem_mgmt/vmm/paging.c:54-75 | in place: tables and stack become those of the refinement of the flat map; address bits outside 12 to 47 play no part |
| `AddressSpaces.AddressSpace.FreePageAt` | kernel/system/mem_mgmt/vmm/paging.c:77-87 | in place: tables and stack become those of the refinement of the flat map, whenever the resulting stack fits its buffer |
| `AddressSpaces.AddressSpace.TakeLowestFrame` | kernel/system/mem_mgmt/pmm.c:31-46 | the lowest byte address taken is the lowest frame, and the other frames keep their order |
| `AddressSpaces.AddressSpace.ZeroPage` | kernel/system/mem_mgmt/pmm.c:25-28 | the loop zeroes all 512 entries of a frame and nothing else |
| `AddressSpaces.AddressSpace.FillPage` | kernel/system/mem_mgmt/pmm.c:71-73 | the loop fills a table with 512 consecutive 2 MiB pages |
| `AddressSpaces.AddressSpace.BuildLowest` | kernel/system/mem_mgmt/pmm.c:60-73 | in place: the lowest page becomes the table of the gigabyte; faults if and only if it is not reached through its physical address |
| `AddressSpaces.AddressSpace.MapGigabyte` | kernel/system/mem_mgmt/pmm.c:49-92 | in place: one gigabyte of the window is mapped with pages taken from the low end of the stack, one if the upper table is there and otherwise two; faults if and only if a table is not reached through its physical address |
| `AddressSpaces.AddressSpace.EnsureTable` | kernel/system/mem_mgmt/pmm.c:81-87 | in place: the upper table of the window exists afterwards, a zeroed low page if it had to be made; faults if and only if that page is not reached through its physical address |
| `AddressSpaces.AddressSpace.InitPagingLoop` | kernel/system/mem_mgmt/pmm.c:49-92 | in place: either no write faults and the loop maps every gigabyte of the length, or it faults, exactly as specified |
| `Frames.MapOneKeeps` | kernel/system/mem_mgmt/vmm/mem_mgmt.c:67-68 | mapping a page keeps stack, tables, mapped data and tree nodes disjoint with constant union, and leaves all other translations alone |
| `Frames.FreeOneKeeps` | kernel/system/mem_mgmt/vmm/mem_mgmt.c:109-110 | unmapping a mapped page needs no frame, loses none, and returns its frame exactly when it is usable |
| `Frames.MapPagesKeeps` | kernel/system/mem_mgmt/vmm/mem_mgmt.c:67-89 | with the frames each page needs in its turn, the whole mapping loop keeps every frame accounted for and maps exactly the pages of the block |
| `Frames.MapPagesKeepsIff` | kernel/system/mem_mgmt/vmm/mem_mgmt.c:67-89 | with frame 0 not among the frames, the mapping loop keeps every frame accounted for if and only if the frames are there: a shortage always does harm |
| `Frames.MapOneShort` | kernel/system/mem_mgmt/vmm/mem_mgmt.c:67-68 | a page mapped without the frames for it gives frame 0 to the page or to a table |
| `Frames.ShortageMapsZero` | kernel/system/mem_mgmt/vmm/mem_mgmt.c:67-68 | with the stack empty and the tables there, the page is mapped to physical page 0 |
| `Frames.FreePagesKeeps` | kernel/system/mem_mgmt/vmm/mem_mgmt.c:109-110 | the whole freeing loop keeps every frame accounted for and unmaps exactly the pages of the block |
| `VmmRuns.StepKeeps` | kernel/system/mem_mgmt/vmm/mem_mgmt.c:54-127 | every operation with room and the frames it needs keeps the invariant: tiling, coalescing, distinct nodes, frame accounting, and pages mapped exactly where blocks are in use |
| `VmmRuns.PlaceAndMapKeepsIff` | kernel/system/mem_mgmt/vmm/mem_mgmt.c:54-94 | with room in the range, an allocation keeps the invariant if and only if the stack has the frames each page needs in its turn |
| `VmmRuns.RunKeeps` | kernel/system/mem_mgmt/vmm/mem_mgmt.c:54-127 | so does every run of such operations, in any order |
| `VmmRuns.CreateInv` | kernel/system/mem_mgmt/vmm/mem_mgmt.c:8-12 | a new manager over an unmapped range satisfies the invariant |
| `VmmRuns.EveryRun` | kernel/system/mem_mgmt/vmm/mem_mgmt.c:8-127 | from creation on, over every run: the tree is never empty, its intervals tile exactly the initial range with no two free neighbours, no frame is lost, gained or used twice |
| `VmmRuns.ForeignFrameStaysOut` | kernel/system/mem_mgmt/vmm/mem_mgmt.c:75-94 | a frame outside the accounted ones, such as one given to map_memory, is on the free stack after no run |
| `VmmConsequences.FreeUndoesAlloc` | kernel/system/mem_mgmt/vmm/mem_mgmt.c:33-127 | on trees: freeing what was just allocated gives back the same interval list |
| `VmmConsequences.FrameCount` | kernel/system/mem_mgmt/vmm/mem_mgmt.c:54-127 | stack, tables, mapped data and node pages always add up to the number of frames |
| `VmmConsequences.StepKeepsTables` | kernel/system/mem_mgmt/vmm/paging.c:19-87 | no operation ever gives a page table back |
| `VmmConsequences.StackNeverOverflows` | kernel/system/mem_mgmt/pmm.c:150-159 | over every such run the stack never holds more than at the start, so its buffer cannot overflow |
| `VmmConsequences.FreeAlwaysFits` | kernel/system/mem_mgmt/vmm/mem_mgmt.c:96-127 | after every such run, freeing any address fits the buffer, at each page of the block |
| `VmmConsequences.ZeroMeansEmpty` | kernel/system/mem_mgmt/pmm.c:150-155 | over every such run pmm_alloc_page gives zero if and only if the stack is empty |
| `VmmConsequences.MappedIffHandedOut` | kernel/system/mem_mgmt/vmm/mem_mgmt.c:54-127 | in a manager in order the processor finds a page of the range if and only if it lies in a block handed out |
| `VmmConsequences.FreedBlockFaults` | kernel/system/mem_mgmt/vmm/mem_mgmt.c:96-127 | after free_pages of a block in use every page of it faults |
| `VmmConsequences.NewTableShows` | kernel/system/mem_mgmt/vmm/paging.c:25-44 | pages under a new table stay unmapped if and only if the frame taken for it holds no present entry |
| `Unchecked.SetPageUnderBig` | kernel/system/mem_mgmt/vmm/paging.c:19-75 | setting a page under a 2 MiB page writes the entry into the memory the large page maps, takes no frame, and leaves the page translated by the large page |
| `Unchecked.FirstTurnOverwrites` | kernel/system/mem_mgmt/vmm/mem_mgmt.c:54-94 | with no room the first turn overwrites an entry of physical page 0 and page 0 stays mapped to itself |
| `Unchecked.MappedWhenRoom` | kernel/system/mem_mgmt/vmm/mem_mgmt.c:67-89 | with room and frames each page of the block translates as asked in its turn, to a frame of the machine or the one given |
| `Unchecked.MappedAfterLoop` | kernel/system/mem_mgmt/vmm/mem_mgmt.c:67-89 | so it does in the tables as the whole loop leaves them |
| `Unchecked.NotAfterLoop` | kernel/system/mem_mgmt/vmm/mem_mgmt.c:54-94 | with no room, a loop of at most 512 pages does not leave page 0 mapped as asked |
| `Unchecked.MallocRightIff` | kernel/system/mem_mgmt/vmm/mem_mgmt.c:54-73 | under the identity map, malloc_pages maps every page as asked, in its turn and after the loop, if and only if the allocation found room; without room the statement about the end of the loop is for at most 512 pages |
| `Unchecked.MapRightIff` | kernel/system/mem_mgmt/vmm/mem_mgmt.c:75-94 | under the identity map, map_memory maps every page as asked, in its turn and after the loop, if and only if the allocation found room; without room the statement about the end of the loop is for at most 512 pages |
| `Unchecked.SetPageLosesIff` | kernel/system/mem_mgmt/vmm/paging.c:51-75 | setting a page loses a frame if and only if the page was usable and does not get the same usable frame again |
| `Unchecked.OverwrittenFrameIsLost` | kernel/system/mem_mgmt/vmm/paging.c:51-75 | a page of four tables set to another frame: the old frame is on no stack, no table and behind no page |
| `MemoryManagers.MemoryManager.constructor` | kernel/system/mem_mgmt/vmm/mem_mgmt.c:8-12 | a manager with one free node over the whole range, its lock free |
| `MemoryManagers.MemoryManager.AllocVirt` | kernel/system/mem_mgmt/vmm/mem_mgmt.c:33-52 | in place: the node found is shrunk through its pointer after the insertion relinked the tree around it, and the tree is the one of the refinement |
| `MemoryManagers.MemoryManager.TakeNode` | kernel/system/mem_mgmt/vmm/mem_mgmt.c:38-51 | in place: the remainder is inserted, then the node found is shrunk and marked in use |
| `MemoryManagers.MemoryManager.MallocPages` | kernel/system/mem_mgmt/vmm/mem_mgmt.c:54-73 | in place: tree, tables and stack after the call are those of the run step, null for no pages, lock released |
| `MemoryManagers.MemoryManager.MapMemory` | kernel/system/mem_mgmt/vmm/mem_mgmt.c:75-94 | in place: tree, tables and stack after the call are those of the run step, null for no pages or an unaligned address, lock released |
| `MemoryManagers.MemoryManager.MapFresh` | kernel/system/mem_mgmt/vmm/mem_mgmt.c:67-68 | the loop maps a fresh frame for each page of the block |
| `MemoryManagers.MemoryManager.MapGiven` | kernel/system/mem_mgmt/vmm/mem_mgmt.c:88-89 | the loop maps consecutive given frames |
| `MemoryManagers.MemoryManager.FreePagesAt` | kernel/system/mem_mgmt/vmm/mem_mgmt.c:96-127 | in place: unknown and free addresses are ignored with nothing asked of the buffer, otherwise pages, tree and stack are those of the run step; lock released on every path |
| `MemoryManagers.MemoryManager.Lookup` | kernel/system/mem_mgmt/vmm/mem_mgmt.c:100-105 | the node found is that of the tree, and says of its block what the tree says |
| `MemoryManagers.MemoryManager.MarkFree` | kernel/system/mem_mgmt/vmm/mem_mgmt.c:107-107 | in place: the node found is marked free and no other node changes |
| `MemoryManagers.MemoryManager.FreeFound` | kernel/system/mem_mgmt/vmm/mem_mgmt.c:107-124 | in place: the node found is marked free, its pages are freed and its interval merged, through pointers that stay valid |
| `MemoryManagers.MemoryManager.FreeLoop` | kernel/system/mem_mgmt/vmm/mem_mgmt.c:109-110 | the loop frees each page of the block; only usable pages need room in the buffer |
| `MemoryManagers.MemoryManager.CoalesceNodes` | kernel/system/mem_mgmt/vmm/mem_mgmt.c:112-124 | in place: both merges through the pointers n, prev and after, which stay valid across the deletions |
| `MemoryManagers.MemoryManager.AbsorbedByNode` | kernel/system/mem_mgmt/vmm/mem_mgmt.c:112-118 | in place: prev is still the node of its interval after its right neighbour was deleted |
| `MemoryManagers.MemoryManager.AbsorbAfterNode` | kernel/system/mem_mgmt/vmm/mem_mgmt.c:120-124 | in place: the freed node takes over the free interval after it |
| `LockProtocol.HappenExclusive` | kernel/system/mem_mgmt/vmm/mem_mgmt.c:14-30 | every single step of any CPU keeps exclusion: at most one CPU inside, and the lock byte set exactly when one is |
| `LockProtocol.AlwaysExclusive` | kernel/system/mem_mgmt/vmm/mem_mgmt.c:14-127 | mutual exclusion and the meaning of the lock byte for any number of CPUs and every interleaving, with or without space and frames |
| `LockProtocol.HappenSafe` | kernel/system/mem_mgmt/vmm/mem_mgmt.c:14-30 | every step of any CPU, entering with the space and frames it needs, keeps safety: exclusion, and the section, if run to its end, leaves the manager in order |
| `LockProtocol.AlwaysSafe` | kernel/system/mem_mgmt/vmm/mem_mgmt.c:14-127 | a manager in order whenever the lock is free, for any number of CPUs and any interleaving in which each operation enters with the space and frames it needs |
| `LockProtocol.StartSafe` | kernel/system/mem_mgmt/vmm/mem_mgmt.c:8-30 | before any call the lock is free and the system safe |
| `LockProtocol.WorkTowardsFinish` | kernel/system/mem_mgmt/vmm/mem_mgmt.c:54-127 | each small step inside the section leads to the same final manager as the whole operation |
| `LockProtocol.ExitReleases` | kernel/system/mem_mgmt/vmm/mem_mgmt.c:54-127 | every way through the section ends with the lock released, the operation done and no other CPU disturbed |
| `BootMemory.SearchSound` | kernel/boot/common_boot.c:72-88 | a region found lies inside the memory given and, with base, size and range ends on the 8-byte grid and no range starting on the last byte of a group, meets no unsafe range |
| `BootMemory.SearchComplete` | kernel/boot/common_boot.c:72-88 | if nothing is found, no region with one spare byte was clear |
| `BootMemory.SearchReturns` | kernel/boot/common_boot.c:72-88 | a stretch that passes byte by byte is returned |
| `BootMemory.CheckMemoryBounds` | kernel/boot/common_boot.c:72-88 | the loop terminates with the result of the search, sound and complete as above |
| `BootMemory.OffGridFails` | kernel/boot/common_boot.c:72-88 | for every range that starts on the last byte of a group the strict comparison lets the search return memory the range overlaps |
| `BootMemory.SkippedByteFails` | kernel/boot/common_boot.c:72-88 | for every range that ends one byte after another and holds that byte, a search from inside the other skips the byte after its jump and returns it |
| `BootMemory.ScanTable` | kernel/boot/common_boot.c:7-70 | each nested loop widens the bounds to exactly the tables below |
| `BootMemory.GetPageTableArea` | kernel/boot/common_boot.c:7-70 | the least interval of frames with every table scanned in it: both ends are tables scanned |
| `BootMemory.ReachedIsScanned` | kernel/boot/common_boot.c:7-70 | every table the walk can reach is among those scanned, when none is at frame zero |
| `BootMemory.AreaCovers` | kernel/boot/common_boot.c:7-70 | every table found from the root lies in the area |
| `BootMemory.ScannedIsReached` | kernel/boot/common_boot.c:7-70 | when absent entries hold no address, the tables scanned are exactly those the walk can reach |
| `PmmBoot.GetStackSize` | kernel/boot/common_boot.c:90-96 | the loop computes the bytes reserved: one slot for each whole page of available memory |
| `PmmBoot.FillFits` | kernel/system/mem_mgmt/pmm.c:103-148 | never more pages are pushed than get_stack_size made room for, whatever the memory map |
| `PmmBoot.FillStack` | kernel/system/mem_mgmt/pmm.c:103-148 | in place: the loops fill the stack inside the buffer and find the end of memory; they fault if and only if a slot pushed to is not reached through the physical address of the buffer |
| `PmmBoot.StackIsExact` | kernel/system/mem_mgmt/pmm.c:103-148 | for a sorted map the stack and the low page kept back are exactly the whole, available, safe pages other than page zero, without repeats |
| `PmmBoot.StackIsFree` | kernel/system/mem_mgmt/pmm.c:103-145 | whatever the map, a page on the stack is a whole, available, safe page of some entry |
| `PmmBoot.StackKeepsClear` | kernel/system/mem_mgmt/pmm.c:99-145 | whatever the map, a page on the stack meets no unsafe range that starts on a page boundary |
| `PmmBoot.StackHasNoTable` | kernel/boot/main.c:128-159 | whatever the map, with the page-table area among the unsafe ranges no page on the stack is a live page table |
| `PmmInit.FilledOk` | kernel/system/mem_mgmt/pmm.c:103-145 | for a sorted map the filled stack, as frames, has no repeats, no frame 0, no live table, and lies below the end of memory |
| `PmmInit.RunsThroughIff` | kernel/system/mem_mgmt/pmm.c:103-148 | pmm_init runs without a fault if and only if its stack, at eight bytes a page, ends at or below 8 MiB and the lowest pages it makes into tables are below 8 MiB |
| `PmmInit.FourGigabytesFault` | kernel/system/mem_mgmt/pmm.c:103-148 | with 0x100000 free pages, 4 GiB, or more, pmm_init always faults, wherever the buffer is |
| `PmmInit.BufferStays` | kernel/system/mem_mgmt/pmm.c:31-92 | the slots reached while the stack was filled are reached at every later turn, where the stack is read and shifted |
| `PmmInit.PmmInitReady` | kernel/system/mem_mgmt/pmm.c:103-148 | the whole of pmm_init, when it runs through: physical memory is in the window, other translations as before, the stack is that of the map without its smallest frames, which became tables, no page left on it is zero, repeated or a live table, and the stack is still reached |
| `PmmInit.TablesFromStack` | kernel/system/mem_mgmt/pmm.c:49-92 | every table of _init_paging is an old one or a page that was on the stack |
| `PmmInit.Initialise` | kernel/system/mem_mgmt/pmm.c:103-148 | the steps composed in place: a fault exactly when a slot of the stack or a table is not reached, otherwise the low page kept back and the state of the specification |
| `LowPages.LowIndex` | kernel/system/mem_mgmt/pmm.c:31-39 | the first index of the least page |
| `LowPages.DropLowTakesSmallest` | kernel/system/mem_mgmt/pmm.c:31-46 | taking the low page k times takes the k smallest and keeps the others in order |
| `LowPages.LowFrames` | kernel/system/mem_mgmt/pmm.c:31-46 | taking the lowest page is the same by byte address and by frame number |
| `PhysicalMap.MapGiBLeaf` | kernel/system/mem_mgmt/pmm.c:49-92 | one gigabyte mapped, with one page or two as needed, shows in its window and nowhere else |
| `PhysicalMap.CanMapIff` | kernel/system/mem_mgmt/pmm.c:49-92 | a gigabyte needs one page if its upper table is there and otherwise two |
| `PhysicalMap.InitPagingStack` | kernel/system/mem_mgmt/pmm.c:49-92 | the stack suffices if and only if it holds one page for each gigabyte and one for each absent upper table; exactly so many lowest pages are taken |
| `PhysicalMap.InitPagingLeaf` | kernel/system/mem_mgmt/pmm.c:49-92 | after any part of the loop, with the pages it needs, exactly the windows done show large pages and the tables are in order |
| `PhysicalWindow.TurnWritesIff` | kernel/system/mem_mgmt/pmm.c:57-91 | a turn writes without a fault if and only if the pages it takes are below 8 MiB |
| `PhysicalWindow.IdentityLasts` | kernel/system/mem_mgmt/pmm.c:49-92 | the identity map and its surroundings last through a turn |
| `PhysicalWindow.AllWritesIff` | kernel/system/mem_mgmt/pmm.c:49-92 | the loop writes without a fault if and only if the lowest free pages it needs are all below 8 MiB |
| `PhysicalWindow.HighPageFaults` | kernel/system/mem_mgmt/pmm.c:60-73 | without a free page below 8 MiB the first turn faults |
| `PhysicalWindow.TwoTerabytesFault` | kernel/system/mem_mgmt/pmm.c:49-92 | from 2 TiB of memory on the loop always faults, whatever pages are free |
| `PhysicalWindow.BufferReachedIff` | kernel/system/mem_mgmt/pmm.c:103-104 | the buffer of the free-page stack is reached through its address if and only if it ends below 8 MiB |
| `PhysicalWindow.SlotsReachedIff` | kernel/system/mem_mgmt/pmm.c:103-131 | the first n slots of the stack are reached through the address of its buffer if and only if they end at or below 8 MiB |
| `PhysicalWindow.IdentityStays` | kernel/system/mem_mgmt/pmm.c:49-92 | the identity map lasts through any part of the loop |
| `PhysicalWindow.InitPagingMaps` | kernel/system/mem_mgmt/pmm.c:49-92 | if no write faults, every physical address below the length is found at its place in the window, kernel only, and no translation outside changes |
| `PhysicalWindow.InitPagingTakesLowest` | kernel/system/mem_mgmt/pmm.c:31-92 | the pages used are the smallest, one for each gigabyte and one for each absent upper table, the rest keeps its order; no write faults if and only if they are all below 8 MiB |
| `LoaderTables.StepIsDescend` | loader/loader.c:84-101 | where all links are writable, a level of add_page is a level of the kernel's own walk |
| `LoaderTables.AddPageMaps` | loader/loader.c:72-108 | add_page maps one page, writable, kernel only, executable as told; every other page keeps its translation; tables stay a tree; frames taken are exactly the missing tables |
| `LoaderTables.AddPagePlaces` | loader/loader.c:84-103 | add_page takes the table positions on the way to the page, and a frame for each that had none |
| `LoaderTables.AddPagesMaps` | loader/loader.c:162-163 | the page loop maps the run and nothing else |
| `LoaderTables.PoolSufficesIff` | loader/loader.c:84-101 | the pool suffices for a run if and only if it has a frame for each table position on the way to its pages that has no table yet, and exactly so many are taken |
| `ByteMemory.ZeroIs` | loader/loader.c:18-21 | zeroing sets the range and no other byte |
| `ByteMemory.CopyIs` | loader/loader.c:23-31 | a forward copy to a place apart sets it to the source bytes and changes no other byte |
| `LoaderImage.TakenFitsSpan` | loader/loader.c:134-146 | segments that do not overlap take no more bytes than their virtual span |
| `LoaderImage.LoadGoes` | loader/loader.c:155-167 | before each header the tables are in order, the pool lasts, the image is packed from the origin on and no other byte is written |
| `LoaderImage.LoadSufficesIff` | loader/loader.c:155-167 | the pool lasts for all headers if and only if it has a frame for each table position on the way to a page of some segment that is not taken at the start |
| `LoaderImage.ModestKernelFits` | loader/loader.c:155-167 | a kernel that spans at most 488 MiB, wherever it is linked, needs at most 249 tables of the 250 |
| `LoaderImage.LoadPlaces` | loader/loader.c:155-167 | every byte of every segment is found at its virtual address with its file content or zero, and stays so while later segments are loaded |
| `LoaderImage.LoadSpares` | loader/loader.c:155-167 | pages of no segment keep their translation |
| `LoaderOrigin.ChosenExactly` | loader/loader.c:44-68 | for any 64-bit entry: it ends the search if and only if it has room from its page boundary on or ends before that boundary, and the address is the boundary cut to 32 bits |
| `LoaderOrigin.FirstChosen` | loader/loader.c:44-68 | the first entry that ends the search, by what it means and not by the arithmetic |
| `LoaderOrigin.OriginIsFirst` | loader/loader.c:44-68 | the address returned is the page boundary in that entry cut to 32 bits, zero if there is none |
| `LoaderOrigin.OriginRightIff` | loader/loader.c:44-68 | for any map: the address is aligned, not too low and inside the entry it was taken from if and only if that entry has room and its first page boundary is below 4 GiB |
| `LoaderOrigin.PassedOver` | loader/loader.c:49-54 | an entry with room is passed over only if it starts 2 GiB or more below the least address, and then always, unless it reaches the last 4 GiB of the 64-bit range |
| `LoaderOrigin.SearchFailsIff` | loader/loader.c:44-68 | when the search fails, among entries that do not reach those last 4 GiB |
| `LoaderOrigin.OriginEscapes` | loader/loader.c:56-63 | a one-byte entry past a boundary makes the search answer with memory beyond it |
| `LoaderOrigin.OriginTruncates` | loader/loader.c:62-63 | memory above 4 GiB with room is answered with an address outside it |
| `LoaderOrigin.OriginPassesOver` | loader/loader.c:49-54 | an entry with room, 2 GiB below the least address, is answered with zero |
| `LoaderBoot.SpanIs` | loader/loader.c:134-144 | the span found holds every segment |
| `LoaderBoot.FirstTablesOk` | loader/loader.c:174-197 | the first tables are a tree without sharing over a blank pool |
| `LoaderBoot.FirstMaps` | loader/loader.c:189-196 | the first 8 MiB are mapped to themselves, by 2 MiB pages |
| `LoaderBoot.StackMapped` | loader/loader.c:203-206 | the stack page is mapped at the top of the address space with three tables, leaving 250 in the pool, no other translation changing |
| `LoaderBoot.KernelSurroundings` | loader/loader.c:199-248 | a page of no segment: the identity map and the stack page survive the loading of all segments, and no other page is mapped |
| `LoaderBoot.KernelThere` | loader/loader.c:110-248 | with an origin given, the kernel is in place: segment bytes, identity map, stack page, no other page mapped, nothing written outside the image, exactly the tables needed, in order and below it |
| `LoaderBoot.KernelLoaded` | loader/loader.c:44-248 | whatever the memory map, if the entry the search stops at has room for the image below 4 GiB, the origin lies in it and the kernel is in place there |
| `LoaderBoot.StartsWithLowIdentity` | loader/loader.c:189-248 | the kernel starts with page 0 under a large page on frame 0 |
| `LoaderBoot.StartsWithIdentityOnly` | loader/loader.c:189-248 | with no segment below 64 TiB the kernel starts with the first 8 MiB mapped to themselves, no other low page mapped, and its tables among them |
| `KernelStart.TopEntries` | loader/loader.c:155-206 | of the top-level entries only those of low memory, the kernel and the stack page are in use |
| `KernelStart.LoaderPrepares` | kernel/boot/main.c:128-159 | what the loader leaves, with what the boot code adds, is all that pmm_init needs: tables in order, identity map, empty window |
| `KernelStart.KernelVmmStarts` | kernel/system/system.c:14-26 | boot from one end to the other: the kernel loaded, pmm_init run through and free frames reading as zero, the kernel's memory manager starts with the invariant of all runs over all frames of the machine |
| `LoaderProgram.FindOrigin` | loader/loader.c:44-68 | the loop returns the address of the search |
| `LoaderProgram.FindSpan` | loader/loader.c:134-144 | the loop finds least start and greatest end |
| `LoaderProgram.Loader.InitPageStructure` | loader/loader.c:174-197 | in place: tables and bump pointer become the first tables |
| `LoaderProgram.Loader.AddPageAt` | loader/loader.c:72-108 | in place: tables and bump pointer become those of the one-page mapping, for the address of a page |
| `LoaderProgram.Loader.ZeroMemory` | loader/loader.c:18-21 | in place: memory becomes the zeroed one |
| `LoaderProgram.Loader.CopyMemory` | loader/loader.c:23-31 | in place: memory becomes the forward copy |
| `LoaderProgram.Loader.MapSegment` | loader/loader.c:162-163 | in place: the page loop of a segment |
| `LoaderProgram.Loader.LoadSegments` | loader/loader.c:155-167 | in place: tables and memory become those after all headers |
| `LoaderProgram.Loader.LoadModule` | loader/loader.c:110-170 | a file with a wrong header changes nothing and gives zero; otherwise span, origin and segments as specified and the entry point returned |
| `LoaderProgram.Loader.Boot` | loader/loader.c:199-248 | from first tables to loaded kernel in place: origin and kernel image are right whenever the entry the search stops at has room below 4 GiB |
| `HeapSpec.FirstFit` | kernel/system/mem_mgmt/heap.c:27-31 | the first block strictly longer than the size |
| `HeapSpec.FirstPage` | kernel/system/mem_mgmt/heap.c:24-34 | the first page with such a block |
| `HeapSpec.Neighbour` | kernel/system/mem_mgmt/heap.c:93-113 | where the walk over the free list stops: the first neighbour of the block, or the end |
| `HeapSpec.MallocKeeps` | kernel/system/mem_mgmt/heap.c:54-83 | malloc keeps the heap in order, adds one block to one page's list and leaves all other blocks in use as they were |
| `HeapSpec.EnoughIff` | kernel/system/mem_mgmt/heap.c:24-83 | the block handed out is long enough if and only if at most 4048 bytes were asked for |
| `HeapSpec.PageTiled` | kernel/system/mem_mgmt/heap.c:40-83 | headers and blocks tile the first 4096 bytes of each page: a byte is in a block if and only if it lies after the page header |
| `HeapSpec.BlocksOfPageApart` | kernel/system/mem_mgmt/heap.c:54-83 | no two blocks of a page share a byte |
| `HeapSpec.LiveApart` | kernel/system/mem_mgmt/heap.c:54-83 | no two blocks in use overlap, in one page or in two |
| `HeapSpec.FreeRightIff` | kernel/system/mem_mgmt/heap.c:85-116 | in a heap in order free is right, list and bytes, if and only if the block is its page's most recent one |
| `HeapSpec.FreeLastKeeps` | kernel/system/mem_mgmt/heap.c:85-116 | freeing the most recent block keeps the page in order |
| `HeapSpec.FreeUndoesTake` | kernel/system/mem_mgmt/heap.c:54-116 | freeing a block just taken restores both lists and all lengths |
| `HeapSpec.ScriptRestores` | kernel/system/mem_mgmt/heap.c:54-116 | any properly nested use, each page keeping another block in use, leaves the heap exactly as it was |
| `HeapSpec.WalkFaultsIff` | kernel/system/mem_mgmt/heap.c:24-34 | with pages given back still in the list, malloc reads an unmapped header, and faults, if and only if no page before the first of them offers a block, whatever the size |
| `HeapSpec.ReadsIff` | kernel/system/mem_mgmt/heap.c:24-34 | the walk comes to a page if and only if no page before it offers a block |
| `HeapSpec.OnlyBlockFreedFaults` | kernel/system/mem_mgmt/heap.c:24-116 | a block taken from an empty heap and freed again: the only page is given back and every later malloc faults |
| `HeapSpec.RunKeeps` | kernel/system/mem_mgmt/heap.c:54-116 | every run of malloc and of frees of a page's most recent block, in which no walk comes to a page given back, keeps all pages tiled and apart, with no block of a page given back in use |
| `HeapSpec.EveryRunServes` | kernel/system/mem_mgmt/heap.c:54-116 | after any such run a further malloc whose walk does not fault hands out enough bytes, in a page that is still there, away from every block in use, none of which moves |
| `HeapMemory.FreeEnd` | kernel/system/mem_mgmt/heap.c:93-98 | through pointers: without a neighbour the block and all that followed it in the used list are hung on the free list |
| `HeapMemory.FreeBelow` | kernel/system/mem_mgmt/heap.c:100-103 | through pointers: the free block below grows over the freed one |
| `HeapMemory.FreeAboveFirst` | kernel/system/mem_mgmt/heap.c:105-109 | through pointers: with the first free block above, the block goes back into the used list, longer |
| `HeapMemory.FreeAbove` | kernel/system/mem_mgmt/heap.c:105-109 | through pointers: with a later free block above, the block replaces the free block before that one |
| `HeapMemory.NewPageRep` | kernel/system/mem_mgmt/heap.c:36-51 | through pointers: a new page is hung on the end of the page list with one free block |
| `HeapProgram.Heap.FindFree` | kernel/system/mem_mgmt/heap.c:24-52 | the pointer walks find the block the lists specify, adding a page when none fits; they fault if and only if they come to a page given back |
| `HeapProgram.Heap.Split` | kernel/system/mem_mgmt/heap.c:57-69 | in place, for lists that may share their end: the block is cut off the end of the free one and hung on the used list |
| `HeapProgram.Heap.Whole` | kernel/system/mem_mgmt/heap.c:70-82 | in place, for lists that may share their end: the whole free block moves to the used list, and to the free list too where the ends are one |
| `HeapProgram.Heap.Malloc` | kernel/system/mem_mgmt/heap.c:54-83 | in place: it faults if and only if its walk comes to a page given back, otherwise memory holds the lists of the specification, all pages in order |
| `HeapProgram.Heap.TakeHead` | kernel/system/mem_mgmt/heap.c:54-83 | in place, whatever shape the lists are in: malloc of the whole first block of a free list |
| `HeapProgram.Heap.HangPage` | kernel/system/mem_mgmt/heap.c:40-51 | in place: the new page is hung on the end of the page list with one free block |
| `HeapProgram.Heap.Free` | kernel/system/mem_mgmt/heap.c:85-116 | in place, for any lists and any block in use: memory holds the lists the specification gives, wrong ones included, and the page is given back exactly when no block of it is in use |
| `Gdt.DecodeEncode` | kernel/system/gdt/gdt.c:35-52 | a stored descriptor reads as what was asked for with base and limit modulo 2^32 |
| `Gdt.RoundTripIff` | kernel/system/gdt/gdt.c:35-52 | it reads back exactly if and only if base and limit are below 2^32 |
| `Gdt.TssBaseLost` | kernel/system/gdt/gdt.c:90-96 | a TSS in the kernel's address range loses the upper half of its base |
| `Gdt.AddKeeps` | kernel/system/gdt/gdt.c:21-55 | the new descriptor is at its selector and all earlier ones read as before, table doubled or not |
| `Gdt.AddAtIs` | kernel/system/gdt/gdt.c:21-55 | in memory, a new block apart from the table is all that _add_entry needs to add its entry to the bytes of the table |
| `Gdt.RunKeeps` | kernel/system/gdt/gdt.c:21-55 | a selector in use leads to the same descriptor over any further run in which malloc does not hand out the live table |
| `Gdt.SelectorLasts` | kernel/system/gdt/gdt.c:21-55 | each selector returned on success keeps decoding to what was asked for over every later such run, if and only if base and limit were below 2^32 |
| `Gdt.InitLasts` | kernel/system/gdt/gdt.c:57-66 | the code selectors recorded at start decode to 64-bit code segments as long as the live table is not handed out |
| `Gdt.TssOverwrites` | kernel/system/gdt/gdt.c:90-96 | a TSS that malloc puts on the live table overwrites the kernel data descriptor, which survives if and only if the stack pointer is below 2^32 |
| `GdtProgram.DoublingIff` | kernel/system/gdt/gdt.c:24-31 | in any heap in order: the new table is on a free list after the exchange if and only if it is in the page of the old one; every block in use stays off the free lists, and the heap in order, if and only if it is in another page and the old table was the most recent block of its own |
| `GdtProgram.InitFreesTable` | kernel/system/gdt/gdt.c:57-66 | gdt_init on an empty heap leaves the live table on the free list: the lists it leaves, for every page address |
| `GdtProgram.NewBlockApart` | kernel/system/gdt/gdt.c:26-27 | in a heap in order a block handed out that is as long as asked for is apart from the live table |
| `GdtProgram.TableHandedOut` | kernel/system/gdt/gdt.c:57-66 | a run of the code: gdt_init on an empty heap, an allocation of 3880 to 3903 bytes, and the walk for 32 to 63 bytes ends at the live table |
| `GdtProgram.DescriptorTable.Start` | kernel/system/gdt/gdt.c:57-66 | in place, on any heap in order: the block, five entries with one exchange of blocks, both code selectors, and the heap as that exchange leaves it |
| `GdtProgram.DescriptorTable.AddEntry` | kernel/system/gdt/gdt.c:21-55 | in place, on the heap: zero and no change when the limit is refused; a full table moves to the block malloc gives and its old block is freed; a fault exactly when the walk of malloc faults |
| `GdtProgram.DescriptorTable.Exchange` | kernel/system/gdt/gdt.c:25-30 | in place: malloc, memcpy and free in the order of the code, on memory and heap |
| `GdtProgram.DescriptorTable.CopyTable` | kernel/system/gdt/gdt.c:27-27 | the loop is the forward copy of the table |
| `GdtProgram.DescriptorTable.WriteEntry` | kernel/system/gdt/gdt.c:33-52 | in place: eight bytes change and spell the descriptor |
| `Madt.Find` | kernel/system/apic/apic.c:44-53 | the first element of the processor, none before it |
| `Madt.StepIs` | kernel/system/apic/apic.c:43-135 | one record changes what is known of its own processor only and keeps processors unique |
| `Madt.FoldIs` | kernel/system/apic/apic.c:137-201 | after any number of records each processor is listed once with its last local APIC record and its last NMI record |
| `Madt.ParseIs` | kernel/system/apic/apic.c:137-212 | the final list equals the map: last records win, an NMI for all processors overrides every other |
| `Madt.MixingIsFree` | kernel/system/apic/apic.c:137-212 | mixing the same local APIC records and the same NMI records differently says the same of every processor |
| `Madt.WalkEndsIff` | kernel/system/apic/apic.c:140-142 | the walk over the entries ends if and only if every entry it comes to has a positive length |
| `Madt.ApicInfo.RegisterLapic` | kernel/system/apic/apic.c:43-66 | in place: the element is updated where it is, or a new one put in front |
| `Madt.ApicInfo.SetNmi` | kernel/system/apic/apic.c:105-135 | in place: the element is updated where it is, or a new one put in front; the number for all goes to the global setting |
| `Madt.ApicInfo.ApplyGlobal` | kernel/system/apic/apic.c:203-211 | in place: the loop sets every element's NMI and nothing else |
| `Madt.ApicInfo.ParseMadt` | kernel/system/apic/apic.c:137-212 | in place: the list, the global setting and the address are those of the specification |

## Left out

- `kernel/system/mem_mgmt/vmm/node_alloc.c`: nodes are fresh objects. The pages they live in are taken and given back by two operations of the runs in `VmmRuns`; in `LockProtocol` and in the manager object they stay as they are.
- Assembly and hardware: boot code, `invlpg` and TLB state, accessed and dirty bits, MSRs, port I/O, IPIs, CPU start-up.
- User and kernel writes to mapped data pages: memory is page tables and, in the loader, image bytes; that the loader's tables and its image do not overlap is part of `LoaderBoot.KernelInPlace`.
- The detour of `set_page` and `free_page` through the window: the model writes the tables directly; that the window shows every physical page is `PhysicalWindow.InitPagingMaps`.
- 64-bit wrap-around of virtual addresses in the manager and of entry ends in memory maps outside the loader; widths are modelled where a result depends on them.
- Multiboot tag walking, ELF program header decoding, ACPI table mapping and checksums: the results start from decoded records.
- Raw bytes of APIC table entries, the I/O APIC, interrupt override and NMI source lists: the results start from decoded entries, and the lists left out only gain an element in front.
- `display.c` and console output.
- The bookkeeping of unavailable ranges in `pmm.c`: at most 32 are assumed.
- `gdt_get_info` and the fields of a TSS.
- AvlHeap.DeleteNode: proved for the code with the successor's parent set; the pointer left unset in the source has no value to model, and its effect is in `AvlProofs.DeleteAsWrittenIff` on values.
- AddressSpaces.AddressSpace.InitPagingLoop: says nothing of a stack with too few pages, on which the index of the source goes below zero; `PhysicalMap.InitPagingStack` says how many are enough.
- MemoryManagers.MemoryManager.FreePagesAt: assumes that the stack's buffer has room for the usable pages given back; `VmmConsequences.FreeAlwaysFits` proves that it has, over every run.
- PmmInit.PmmInitReady: for a map in address order without overlaps and the page-table area among the unsafe ranges; `PmmBoot.StackIsFree` holds of any map.
- KernelStart.KernelVmmStarts: for a kernel linked at 0xffff800000000000 and below 16 MiB long, loader tables in the first 8 MiB, and memory below 63.5 TiB.
- LoaderProgram.Loader.AddPageAt: assumes that the zeroed megabyte still has the tables needed, exactly as many as `LoaderImage.LoadSufficesIff` says; beyond them the source goes on into memory that was not zeroed. It takes the address of a page; that of the loader's stack is one by the layout of the loader, whose uninitialised data starts on a page with the stack.
- Unchecked.MallocRightIff: for an allocation without room of more than 512 pages nothing is said of the tables at the end of the loop, which may by then have overwritten a page table at 2, 4 or 6 MiB.
- LoaderBoot.KernelLoaded: says nothing of an image that would cross 4 GiB, where the 32-bit pointers of the loader wrap, nor of the wrong places `LoaderOrigin.OriginRightIff` tells apart.
- HeapProgram.Heap.Malloc: for a heap in order, as every run of malloc and last-in frees leaves it, and in `HeapProgram.Heap.TakeHead` for one case of any other; assumes that the size is below 2^64 - 24 and that `malloc_pages` gives a page apart from those in the list, so that a page given back is not mapped again.
- GdtProgram.DescriptorTable.AddEntry: a full table needs a heap in order; block headers are kept apart from the bytes of blocks, so that writing a header inside the live table counts as handing it out.
- Widths in the interval tree over runs: balances are unbounded there. The 8-bit balance agrees below rank 254 (`AvlProofs.BalanceFitsInt8`), which every balanced tree satisfies (`AvlProofs.AvlFitsWidths`); runs whose deletions leave unbalanced trees are assumed to stay below it.
- HeapSpec.EnoughIff: the 24 largest 64-bit sizes are left out, for which the size plus a header wraps.
- LoaderImage.LoadPlaces: for page-aligned segments of whole pages that do not overlap, as the loader assumes; other files are not described.
