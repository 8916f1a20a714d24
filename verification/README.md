# uCore memory management, heaps and file-system images: a verified model

This project models parts of the uCore teaching kernel for RISC-V and proves what they promise.

* **Demand paging with swap** (Sv39, PageState, PageOps, PageGrowth, PageMapping, PageWalk,
  PageCounts, Paging, PagingRun, with Vma and LinkedList).  `Kernel` holds frames, reference counts
  and the swap disk
  and updates them in place.  Its invariant says that the table pages form a tree without sharing,
  that every count is the number of mappings, and that every page on the swap manager's list is
  mapped once at its recorded address.  Main results: over any run of loads and stores, frames,
  entries and disk slots together behave like a plain memory of words, so that a load yields the
  word last stored there, whatever page is evicted when; and over any sequence of insertions, removals and evictions the counts stay
  exact iff every victim is mapped at its recorded address and nowhere else.
* **Buddy allocator** (Bits, BuddyTree, BuddyNodes, Buddy, BuddySystem).  The array `longest` is a
  function of the set of outstanding blocks, so histories do not matter; allocation fails only when
  no aligned free block exists, and otherwise gives the lowest one.
* **Slab allocator** (SlabState, Slab) on top of the buddy zones.
* **Skew heap** (SkewTree, SkewHeap) with parent pointers and an amortised logarithmic bound.
* **File-system image builder** (BlockTree, Mksfs): block tree with cursors, exact ownership of
  block numbers, free bitmap.
* **LRU ageing** (Lru), **best fit with coalescing** (BestFit), **areas of an address space** (Vma),
  **printing and reading numbers** (Numbers).

Code that works on objects is a class whose methods make the same writes in the same order.  A
method is proved against a function on plain values (`Evict`, `InsertPage`, `Allocated`, `Carved`,
`MergeTree`, ...), and lemmas about those functions state what the code is for.  Some predicates
come in a closed form (`Inv` for `Sound`, `Grown` for `Growth`, ...), which says the same and is
unfolded by mentioning `Open`; PageGrowth explains them.

What the code needs of its callers appears as `requires`: a zone size between 2 and 2^30 that is no
power of two; requests from 1 to 2^32 pages; pages of the reserved tail are not freed; a swapped
page has number v with v + 1 < `max_swap_offset` (7 with the disk of 56 sectors, so six pages);
pages for the page tables and one more when a fault is handled; a free page when a slab is made;
number bases from 2 to 16 for printing.

## Where code and expectation differ

The model follows the code.  These places do not do what their comments or surroundings suggest:

* `do_pgfault` gives a page of an area that is not writable neither read nor write permission
  (`Paging.FaultFlags`).
* A fault on a page that is already mapped takes its entry for a swap entry and panics in
  `swap_offset` (`Sv39.PresentPagePanics`).
* `page_remove` and `page_insert` leave a page on the swap manager's list when they take away its
  mapping or give it a second one, and `swap_out` asserts only that the entry at the victim's
  recorded address is valid.  The counts survive exactly when that entry maps the victim and is its
  only mapping (`PageOps.EvictRefExact`, `PageCounts.RunCounts`); `PageCounts.StaleVictim` is a run
  in which they do not.
* A page that is unmapped and allocated again while still on the list is handed to the swap manager
  a second time.  The list is a set here, so that is harmless; in the source `list_add` links an
  entry that is linked already, and the list is no ring any more.
* The walk of `page_insert` may evict the very page that is about to be inserted, make it the
  missing table and let `page_insert` map this table as a user page.  Counts, tree and free pages
  stay right.  Some choice of victims leads there exactly when the page is on the list and fewer
  pages are free than tables are missing (`PageWalk.InsertSafe`); `PagingRun.SelfEvictionReached`
  gets there from the boot state.
* The buddy free looks for the zone by the rounded-up size, so where the rounded-up ranges of two
  zones meet, it takes the first zone (`BuddySystem.BuddyManager.FreePages`), right or wrong.
* `page_insert` is commented as always returning 0; it returns `-E_NO_MEM` when a table page cannot
  be had (`Paging.Kernel.PageInsert`).
* A cache for objects of size 0 hands out addresses in the page behind the slab
  (`SlabState.SizeMatters`).
* `alloc_cache_block` picks the hash chain by its parameter, which is always 0, and not by the new
  number, so `search_cache_block` would miss most blocks (`Mksfs.Sfs.SearchMisses`); it is never
  called because the cursors are always right (`Mksfs.Sfs.UpdateCache`).
* Freeing a block behind the last free chunk in best fit does not leave the loop after the append,
  and the next round links the block to itself.  The list is intact exactly when the block lies in
  front of the last free chunk or nothing is free (`BestFit.BestFitManager.FreePages`, `NoRing`).
* Padding of negative numbers with spaces or '-' puts the fill between the minus and the digits, so
  the text cannot be read back (`Numbers.SignedRoundTrip` says exactly when it can).
* `strtol` is commented as accepting "0X"; only "0x" is skipped (`Numbers.HexPrefix`,
  `Numbers.CapitalPrefix`).

## Model

| member | source | states |
|---|---|---|
| PagingRun.Run | lab3/code/kern/mm/vmm.c:343-440 | over any sequence of loads and stores, with faults wherever a translation is missing and victims chosen in any way, each load yields the word last stored to the same addr / 8, or the one present there at the start; at the end the present pages agree with a plain map of words after the same stores |
| PagingRun.RunPages | lab3/code/kern/mm/vmm.c:343-440 | the run itself, page by page: the values read are those of a plain map from page to contents that started with what was present |
| PagingRun.WordsRun | lab3/code/kern/mm/vmm.c:343-440 | the plain map of pages behaves like the plain map from addr / 8 to words |
| PagingRun.LoadsLastStored | lab3/code/kern/mm/vmm.c:343-440 | running over that map, a load yields the last word stored to the same addr / 8 before it |
| PagingRun.AddressParts | lab3/code/kern/mm/mmu.h:45-48 | page number * 4096, word * 8 and the rest make up the address again; page number * 512 + word is addr / 8 |
| PagingRun.SameWord | lab3/code/kern/mm/mmu.h:38-48 | two addresses have the same indices and the same word of the page iff they agree in addr / 8 |
| PagingRun.Load | lab3/code/kern/mm/vmm.c:343-440 | a load returns the word at addr % 4096 / 8 of the page that every plain memory agreeing with frames, entries and disk has there, and no present page changes its contents |
| PagingRun.Store | lab3/code/kern/mm/vmm.c:343-440 | a store changes the word at addr % 4096 / 8 of that one page in the plain memory and nothing else |
| PagingRun.Translate | lab3/code/kern/mm/vmm.c:343-440 | after the walk, and a fault if the walk fails, the page is mapped alone to a frame; no present page changes its contents |
| PagingRun.Boot | lab3/code/kern/mm/pmm.c:171-180 | the boot state with three free pages can start such runs |
| PagingRun.FaultStep | lab3/code/kern/mm/vmm.c:389-435 | a fault keeps every mapped page readable, writable and mapped once |
| PagingRun.StillEnough | lab3/code/kern/mm/vmm.c:389-435 | after a fault there are again pages for the missing tables and one more |
| Paging.Kernel.constructor | lab3/code/kern/init/entry.S:48-55 | the boot table, with only the kernel slot set, satisfies the whole paging invariant with every user entry 0 |
| Paging.BootSound | lab3/code/kern/init/entry.S:48-55 | the same on values: sound, no user page present |
| Paging.Kernel.PmmAlloc | lab3/code/kern/mm/pmm.c:51-71 | a free page is taken, whichever it is; none only if none is free |
| Paging.Kernel.FreePage | lab3/code/kern/mm/pmm.c:73-81 | the page joins the free pages with reference count 0 |
| Paging.Kernel.AllocPage | lab3/code/kern/mm/pmm.c:51-71 | the retry loop ends after at most one eviction; it fails exactly when nothing is free and swapping is off; the page handed out is nobody else's, every present page keeps its contents, and the swap manager's list is in order iff it was before |
| Paging.Kernel.FindPte | lab3/code/kern/mm/pmm.c:225-281 | the walk with create 0 finds exactly the leaf slot of the page number in the table tree, or reports that its table is missing |
| Paging.Kernel.NextTable | lab3/code/kern/mm/pmm.c:253-263 | one level of the walk: follows the slot or hangs in a cleared page; succeeds unless pages run out with swapping off; no entry changes |
| Paging.Kernel.GetPte | lab3/code/kern/mm/pmm.c:225-281 | the slot of the page number; with create it fails exactly when the missing tables outnumber the free pages with swapping off, and even then no mapping and no contents change; nothing is evicted while free pages suffice |
| Paging.Kernel.GetPage | lab3/code/kern/mm/pmm.c:284-293 | the mapped page, or none when the entry is not valid |
| Paging.Kernel.PageRemovePte | lab3/code/kern/mm/pmm.c:298-333 | the write-by-write form of Unmap |
| Paging.Kernel.PageRemove | lab3/code/kern/mm/pmm.c:338-343 | exactly that mapping goes, its page is freed iff it was the last (a mapped table never is), and the counts stay exact, whatever is on the swap manager's list and even if tables are mapped; a list in order stays so iff the page is not on it |
| Paging.Kernel.InsertAt | lab3/code/kern/mm/pmm.c:361-374 | the write-by-write form of InsertPage |
| Paging.Kernel.PageInsert | lab3/code/kern/mm/pmm.c:354-375 | -E_NO_MEM exactly when swapping is off and the tables cannot be had, with no mapping changed; else 0, the page is mapped with its permissions and everything else is as one of the outcomes of the walk left it; counts, tree and free pages stay in order in any case, but a table ends up mapped iff the walk evicted the page and made it that table, which takes swapping on, the page on the list and fewer free pages than missing tables; a list in order stays so iff no page on it gains or loses a mapping |
| PageWalk.InsertSafe | lab3/code/kern/mm/pmm.c:354-375 | from a sound state, page_insert leaves everything in order for every choice of victims and free pages in its walk iff the page is not on the swap manager's list or as many pages are free as tables are missing |
| PageWalk.InsertAfterWalk | lab3/code/kern/mm/pmm.c:354-375 | after any walk either everything is in order or the page is a table and, with counts, tree and free pages in order, this table is mapped |
| PageWalk.SpoilingWalk | lab3/code/kern/mm/pmm.c:254-279 | with the page on the list and too few pages free there is a walk that makes the page a table |
| PageWalk.WalkedInUse | lab3/code/kern/mm/pmm.c:254-279 | a page in use stays in use over every walk, and becomes a table only in that case |
| PagingRun.SelfEvictionReached | lab3/code/kern/mm/pmm.c:354-375 | this happens after the boot state with three free pages and one page fault: page_insert of the faulted page in front of a missing leaf table maps that table |
| PageMapping.InsertedEntries | lab3/code/kern/mm/pmm.c:354-375 | after page_insert the entry there is the page number with exactly the flags of perm and V, its value written out; get_page at that address gives the page, and every other page number has its old entry |
| PageMapping.InsertMappings | lab3/code/kern/mm/pmm.c:354-375 | the inserted page gains that mapping, the replaced page loses it, all others keep theirs |
| PageMapping.InsertFrees | lab3/code/kern/mm/pmm.c:362-369 | an insertion frees a page iff it takes away its last mapping, and never the inserted one, also when it was there already, nor a table |
| PageMapping.InsertInv | lab3/code/kern/mm/pmm.c:354-375 | everything stays in order iff the page is allocated and no table |
| PageMapping.InsertRefs | lab3/code/kern/mm/pmm.c:361-374 | the counts stay exact for every page, free pages and tables included |
| PageMapping.InsertCounted | lab3/code/kern/mm/pmm.c:361-374 | tree, entries and free pages stay in order too for every allocated page but the top table |
| PageMapping.InsertSwap | lab3/code/kern/mm/pmm.c:361-374 | the swap manager's list stays in order iff no page on it gains or loses a mapping |
| PageMapping.WalkedTo | lab3/code/kern/mm/pmm.c:356-360 | an allocated page is still allocated after the walk if it is not on the list or only free pages were used |
| Paging.Kernel.PgdirAllocPage | lab3/code/kern/mm/pmm.c:384-403 | an allocated page inserted at any address, mapped there and nowhere else with one reference; fails exactly when swapping is off and the tables take the last free page, and then gives the page back |
| Paging.FreshRef | lab3/code/kern/mm/pmm.c:394-394 | the assertion that the new page has one reference holds |
| Paging.FreshStep | lab3/code/kern/mm/vmm.c:394-399 | at an address where nothing was, the page comes in and every other page keeps its contents |
| PageMapping.GiveBack | lab3/code/kern/mm/pmm.c:387-390 | freeing the page after a failed insertion leaves things as if it had never been asked for |
| Paging.Kernel.SwapOutPage | lab3/code/kern/mm/swap.c:104-117 | the writes of one eviction make up Evict; counts and free pages stay in order iff the victim is mapped at its recorded address and nowhere else; so it is in every sound state |
| Paging.EvictSteps | lab3/code/kern/mm/swap.c:104-117 | slot write, entry write and page release, in this order, equal the one-step eviction |
| Paging.Kernel.SwapOut | lab3/code/kern/mm/swap.c:85-122 | n rounds free n pages, and n is returned; no page present before changes its contents |
| PageOps.EvictSameMemory | lab3/code/kern/mm/swap.c:104-117 | eviction of a page mapped only at its recorded address is invisible in the plain memory: the victim is on disk at slot page number + 1, all others are where they were |
| PageOps.EvictContentsOnDisk | lab3/code/kern/mm/swap.c:104-117 | the victim and the pages that were on disk already keep their contents |
| PageOps.EvictEntries | lab3/code/kern/mm/swap.c:104-117 | exactly one entry changes, to the swap entry |
| PageOps.EvictInv | lab3/code/kern/mm/swap.c:104-117 | an eviction keeps everything in order iff the victim is mapped at its recorded address and nowhere else |
| PageOps.EvictRefExact | lab3/code/kern/mm/swap.c:104-117 | for every victim that passes the assertion, the counts are exact afterwards iff the entry at its recorded address maps it and its count is 1: neither is checked |
| Paging.VictimEntry | lab3/code/kern/mm/swap.c:115-115 | below the kernel slot the number written is the swap entry of the page |
| Paging.Kernel.SwapIn | lab3/code/kern/mm/swap.c:124-142 | a page nobody else has, holding what the swapped-out page held |
| PageMapping.LoadedFromSlot | lab3/code/kern/mm/swap.c:130-137 | the slot named by the entry still holds the page after the allocation may have evicted another one |
| Paging.Kernel.IdeWriteSecs | lab3/code/kern/driver/ide.c:28-33 | exactly the named sectors change |
| Paging.Kernel.IdeReadSecs | lab3/code/kern/driver/ide.c:20-26 | the contents of exactly the named sectors |
| Paging.Kernel.SwapfsWrite | lab3/code/kern/fs/swapfs.c:23-26 | the 512 words of the page go to the 512 words from entry / 256 * 512 on; all others are untouched |
| Paging.Kernel.SwapfsRead | lab3/code/kern/fs/swapfs.c:18-21 | the page is filled from the 512 words from entry / 256 * 512 on |
| PageOps.EvictSlots | lab3/code/kern/mm/swap.c:108-108 | different pages have different slots: only the victim's slot changes |
| PageOps.EvictWrites | lab3/code/kern/mm/swap.c:104-117 | what an eviction writes: the page into slot la / 4096 + 1 of the disk, and (la / 4096 + 1) * 256 into the entry of la |
| Paging.Kernel.DoPgfault | lab3/code/kern/mm/vmm.c:343-440 | -E_INVAL iff no area contains the address, with nothing changed; -E_NO_MEM exactly with swapping off and the page mapped, swapped out, or the last page gone, with no mapping changed; otherwise the page is present with its contents, alone in its frame, and the permissions follow the area; the value of the new entry is given bit by bit: U and V, and R and W iff the area is writable |
| Paging.Kernel.BringPage | lab3/code/kern/mm/vmm.c:391-437 | the same for the part behind the area lookup |
| Paging.Kernel.FaultPte | lab3/code/kern/mm/vmm.c:391-394 | the entry looked at, with its tables made; it and the pages left decide whether the fault fails |
| Paging.Kernel.FillPage | lab3/code/kern/mm/vmm.c:394-435 | a fresh page for entry 0, else the page from disk |
| Paging.TablesReady | lab3/code/kern/mm/vmm.c:391-394 | what is left after the tables are made decides whether the rest of the fault can fail |
| Paging.FaultFlags | lab3/code/kern/mm/vmm.c:362-365 | pages of areas that are not writable get neither the read nor the write flag |
| Paging.BroughtEntry | lab3/code/kern/mm/vmm.c:362-435 | the new entry is (0x80000 + page) * 1024 + 23 in a writable area and (0x80000 + page) * 1024 + 17 in any other |
| PageMapping.BringIn | lab3/code/kern/mm/vmm.c:425-430 | mapping a filled page that was just handed out: only that page becomes present, all contents stay |
| PageOps.UnmapInv | lab3/code/kern/mm/pmm.c:321-332 | unmapping any page keeps counts, tree and free pages in order, mapped tables or not; a list in order stays so iff the page is not on it |
| PageOps.MappedRef | lab3/code/kern/mm/pmm.h:121-133 | the count of a mapped page is the number of its mappings, at least 1 |
| PageOps.MapNewInv | lab3/code/kern/mm/pmm.c:361-374 | a new mapping of any allocated page but the top table keeps counts, tree and free pages in order; a list in order stays so iff the page is not on it |
| PageOps.ReflagInv | lab3/code/kern/mm/pmm.c:364-372 | re-inserting the page that is there keeps the invariant |
| PageOps.AddTableInv | lab3/code/kern/mm/pmm.c:259-262 | a new table changes no entry, no mapping and no contents, and has one reference |
| PageOps.TakeFreeInv | lab3/code/kern/mm/pmm.c:51-71 | a page taken from the free ones has count 0 and is mapped nowhere |
| PageCounts.RunCounts | lab3/code/kern/mm/pmm.c:298-375 | over any sequence of allocations, new tables, page_insert of any allocated page but the top table, page_remove, swap_map_swappable and swap_out the counts stay exact iff every victim is mapped at its recorded address and nowhere else |
| PageCounts.NoEvictions | lab3/code/kern/mm/pmm.c:298-375 | without evictions they always do, whatever is on the swap manager's list |
| PageCounts.StepCounts | lab3/code/kern/mm/pmm.c:298-375 | of all steps only an eviction of another kind of victim spoils the counts, and it always does |
| PageCounts.StepTables | lab3/code/kern/mm/pmm.c:298-375 | of all steps only the insertion of a table lets a table be mapped |
| PageCounts.SelfEvicted | lab3/code/kern/mm/pmm.c:354-375 | the steps of a page_insert that evicts its own page and makes it the leaf table keep the counts exact and end with this table mapped |
| PageCounts.StaleVictim | lab3/code/kern/mm/swap.c:104-117 | from every sound state with a page on the list and another page free: page_remove of the first, a fault at its address and swap_out of the first pass all assertions and spoil the counts, which are exact until then |
| PageCounts.StaleEvicted | lab3/code/kern/mm/swap.c:108-116 | that swap_out frees the page a second time, overwrites the disk slot with its data and takes the other page's mapping but not its reference |
| PagingRun.StaleVictimReached | lab3/code/kern/mm/swap.c:104-117 | such a state is reached from the boot state by one page fault |
| PageOps.StoreContents | lab3/code/kern/mm/vmm.c:389-391 | a write through a page mapped once changes the contents of one virtual page |
| PageOps.MakeSwappableInv | lab3/code/kern/mm/swap.c:70-74 | counts stay exact; a list in order stays so iff the new page is mapped at the recorded address, which has a disk slot, and nowhere else |
| PageGrowth.AllocatedGrowth | lab3/code/kern/mm/pmm.c:51-71 | handing out a page evicts at most, adds no table, and conserves free + swappable + table pages |
| PageGrowth.GrowthTrans | lab3/code/kern/mm/pmm.c:225-281 | such steps compose: over any number of them every page keeps its contents and fixed pages keep their frames |
| PageState.WalkIsEntry | lab3/code/kern/mm/pmm.c:225-281 | the walk through memory alone reads the entry the table tree gives |
| PageState.SameSlot | lab3/code/kern/mm/pmm.c:280-280 | two addresses have the same leaf slot iff their 27-bit page numbers agree |
| PageState.TableWrite | lab3/code/kern/mm/pmm.c:259-262 | hanging in a cleared table keeps the tree unshared and every entry |
| PageState.LeafWrite | lab3/code/kern/mm/pmm.c:372-372 | writing a leaf word changes exactly one entry |
| PageState.DataWrite | lab3/code/kern/mm/pmm.c:261-261 | writing a page that is no table changes neither tree nor entries |
| Sv39.SameIndices | lab3/code/kern/mm/mmu.h:38-42 | the three indices agree iff the 27 bits above the offset do |
| Sv39.IndexNumber | lab3/code/kern/mm/mmu.h:38-45 | below the kernel slot the indices are the digits of la / PGSIZE |
| Sv39.NumberInjective | lab3/code/kern/mm/mmu.h:38-42 | the page number determines the indices |
| Sv39.PteRoundTrip | lab3/code/kern/mm/pmm.h:110-140 | pte2page undoes pte_create, and the entry is valid |
| Sv39.PteFlags | lab3/code/kern/mm/pmm.h:138-140 | each of the flags 2 to 512 is in the entry iff it is in the permission word, V is always set, and page and flags add up to the entry |
| Sv39.PermissionFlags | lab3/code/kern/mm/vmm.c:362-365 | the permission word with U, R and W gives an entry with R and W, the one with U alone an entry with neither |
| Sv39.SwapEntryFacts | lab3/code/kern/mm/swap.c:115-115 | a swap entry is not valid, not 0, and gives its slot back |
| Sv39.SwapEntryValue | lab3/code/kern/mm/swap.c:115-115 | a swap entry is (la / 4096 + 1) * 256, so the slot of a page is one more than its number |
| Sv39.PresentPagePanics | lab3/code/kern/mm/swap.h:25-31 | a fault on a page that is present would panic in swap_offset, for every page and permission |
| Vma.MmStruct.constructor | lab3/code/kern/mm/vmm.c:63-77 | an empty address space is valid |
| Vma.MmStruct.FindVma | lab3/code/kern/mm/vmm.c:93-117 | null iff no area has start <= addr < end, else the one area that does, cache or not; an area found becomes the cache |
| Vma.MmStruct.SearchList | lab3/code/kern/mm/vmm.c:100-110 | the list search finds an area with the address iff there is one |
| Vma.MmStruct.FindPlace | lab3/code/kern/mm/vmm.c:135-144 | the place behind the last area that starts no later |
| Vma.MmStruct.InsertVmaStruct | lab3/code/kern/mm/vmm.c:131-160 | accepts iff start < end and every area ends at or before the start or starts at or after the end; then the ring gains it in order, else nothing changes |
| Vma.NeighboursDecide | lab3/code/kern/mm/vmm.c:146-154 | comparing with two neighbours decides overlap with every area |
| Vma.InsertedAreas | lab3/code/kern/mm/vmm.c:157-157 | the areas stay sorted and disjoint |
| Vma.OnlyOne | lab3/code/kern/mm/vmm.c:93-117 | at most one area contains an address |
| Vma.SearchMeaning | lab3/code/kern/mm/vmm.c:96-110 | an answer of null means that addr < start or end <= addr for every area, any other that start <= addr < end for the answer |
| LinkedList.InsertBetween | lab3/code/libs/list.h:141-146 | the four link writes; they yield the longer ring whenever the neighbours are consecutive |
| LinkedList.ListAdd | lab3/code/libs/list.h:53-56 | the ring with the element behind the given one |
| LinkedList.ListAddBefore | lab3/code/libs/list.h:66-69 | the ring with the element in front of the given one |
| LinkedList.ListDel | lab3/code/libs/list.h:91-94 | the ring without the element |
| LinkedList.InsertedLinks | lab3/code/libs/list.h:141-146 | those link values make the inserted sequence a ring |
| LinkedList.RemovedLinks | lab3/code/libs/list.h:154-158 | those link values make the shortened sequence a ring |
| Bits.NextPowerOf2 | lab2/code/buddy_system_pmm.c:24-32 | for 1 to 2^32 the least power of two that is no smaller (below twice the argument); 0 for 0 |
| Bits.Pow2IsExp2 | lab2/code/buddy_system_pmm.c:24-32 | the powers of two in all these statements are the numbers 2^k |
| Bits.AndBits | lab2/code/buddy_system_pmm.h:12-12 | the & of the model is the bitwise one: a bit is set iff it is set in both |
| Bits.OrBits | lab2/code/buddy_system_pmm.c:26-30 | the | of the model is the bitwise one |
| Bits.ShrBits | lab2/code/buddy_system_pmm.c:26-30 | bit i of x >> k is bit k + i of x |
| Bits.BitMeaning | lab8/code/tools/mksfs.c:330-330 | bit 0 is the parity and the other bits are those of the half |
| Bits.SmearCovers | lab2/code/buddy_system_pmm.c:26-30 | the five shift-or steps set every bit below the top one |
| Bits.PowerOfTwoTest | lab2/code/buddy_system_pmm.h:12-12 | x & (x - 1) is 0 iff x is a power of two |
| Buddy.ZoneSizes | lab2/code/buddy_system_pmm.c:39-44 | for zone sizes that are no power of two both roundings are right and the tail fits |
| Buddy.BuddyZone.constructor | lab2/code/buddy_system_pmm.c:35-75 | the array is the canonical one for the reserved tail alone, and free_size counts the rest |
| Buddy.BuddyZone.FillFull | lab2/code/buddy_system_pmm.c:54-62 | after the fill loop each node has its full size |
| Buddy.BuddyZone.FindTail | lab2/code/buddy_system_pmm.c:63-70 | going right reaches the node of the reserved tail |
| Buddy.BuddyZone.MarkTaken | lab2/code/buddy_system_pmm.c:115-121 | a zero and maxima on the way up give the canonical array with that block added |
| Buddy.BuddyZone.RaiseMax | lab2/code/buddy_system_pmm.c:118-121 | the climb with maxima restores the canonical array |
| Buddy.BuddyZone.FindNode | lab2/code/buddy_system_pmm.c:108-113 | the descent ends at an available block of the size, and no lower one is available |
| Buddy.BuddyZone.Take | lab2/code/buddy_system_pmm.c:106-125 | the lowest available block of the size becomes outstanding; it was disjoint from all others and from the tail |
| Buddy.BuddyZone.FindTaken | lab2/code/buddy_system_pmm.c:148-155 | the climb from a page finds the node and size of its outstanding block, or nothing iff the page is free |
| Buddy.BuddyZone.Free | lab2/code/buddy_system_pmm.c:142-171 | exactly the block of the page is released, whatever length was passed; a free page changes nothing, array included |
| Buddy.BuddyZone.RaiseMerge | lab2/code/buddy_system_pmm.c:160-171 | the climb with merging restores the canonical array |
| BuddyTree.LongestDecides | lab2/code/buddy_system_pmm.c:98-98 | the value of a node reaches m iff an available aligned block of m pages lies below it |
| BuddyTree.LongestMerge | lab2/code/buddy_system_pmm.c:164-170 | two halves wholly free make the parent wholly free, otherwise the parent has the maximum |
| BuddyTree.LongestAboveTaken | lab2/code/buddy_system_pmm.c:120-120 | above an outstanding block the maximum is right |
| BuddyTree.Laminar | lab2/code/buddy_system_pmm.c:108-116 | aligned blocks are disjoint or nested |
| BuddyTree.AlignedMeaning | lab2/code/buddy_system_pmm.c:116-116 | aligned means a power of two that divides the offset |
| BuddyTree.AvailableMeaning | lab2/code/buddy_system_pmm.c:107-136 | a block is available iff its size is a power of two that divides its offset, it lies in the zone, and it has no page in common with an outstanding block |
| BuddyTree.PagesConserved | lab2/code/buddy_system_pmm.c:123-123 | free pages and outstanding pages add up to the zone |
| BuddyNodes.NodeOffset | lab2/code/buddy_system_pmm.c:116-116 | (index + 1) * node_size - size is the offset of the node |
| BuddyNodes.CanonicalUnique | lab2/code/buddy_system_pmm.c:54-75 | the array is a function of the outstanding blocks: equal sets, equal arrays |
| BuddyNodes.RootDecides | lab2/code/buddy_system_pmm.c:97-102 | the root test is right: some aligned free block exists iff longest[0] is large enough |
| BuddyNodes.DescentPick | lab2/code/buddy_system_pmm.c:108-113 | preferring the left child keeps a fitting block below and none in front |
| BuddyNodes.AscentFound | lab2/code/buddy_system_pmm.c:151-155 | the first zero on the way up is the node of the page's block |
| BuddyNodes.ClimbMax | lab2/code/buddy_system_pmm.c:118-121 | one climbing step repairs one more level |
| BuddyNodes.ClimbMerge | lab2/code/buddy_system_pmm.c:160-171 | one merging step repairs one more level |
| BuddySystem.BuddyManager.InitMemmap | lab2/code/buddy_system_pmm.c:35-75 | a further zone, other zones unchanged |
| BuddySystem.BuddyManager.AllocPages | lab2/code/buddy_system_pmm.c:86-126 | fails iff no zone has an aligned free block of the rounded size; else the lowest such block of the first such zone; other zones unchanged |
| BuddySystem.BuddyManager.FreePages | lab2/code/buddy_system_pmm.c:128-172 | releases the block of that page in the only zone that has it; pages of no zone are ignored |
| BuddySystem.BuddyManager.NrFreePages | lab2/code/buddy_system_pmm.c:174-181 | the number of pages in no outstanding block and no tail, over all zones |
| BuddySystem.BuddyManager.AllocPage | lab2/code/buddy_system_pmm.c:86-126 | one page of some zone becomes outstanding, one free page less, no other page affected |
| BuddySystem.BuddyManager.FreePage | lab2/code/buddy_system_pmm.c:128-172 | the exact reverse of AllocPage for that page |
| BuddySystem.AllocThenFree | lab2/code/buddy_system_pmm.c:86-172 | freeing a block by any of its pages right after allocating it restores the array exactly |
| BuddySystem.FreeEverything | lab2/code/buddy_system_pmm.c:128-172 | freeing all blocks in any order, with repetitions, returns to the initial array |
| SkewHeap.Init | lab8/code/libs/skew_heap.h:23-27 | all links null |
| SkewHeap.Merge | lab8/code/libs/skew_heap.h:29-59 | the links in place form MergeTree, parents included; of two roots the first is the new one iff the comparison answers -1; the parent of the result is left alone; the number of calls is MergeCalls |
| SkewHeap.Insert | lab8/code/libs/skew_heap.h:61-67 | a linked heap with one entry more |
| SkewHeap.Remove | lab8/code/libs/skew_heap.h:69-85 | removing any member leaves a linked tree, the tree RemoveTree |
| SkewHeap.Replanted | lab8/code/libs/skew_heap.h:75-84 | redirecting the one child link of the parent replants the merged subtree; the rest of the tree is untouched |
| SkewHeap.ParentOf | lab8/code/libs/skew_heap.h:73-73 | in a linked tree a member's parent field names the one entry that has it as a child |
| SkewHeap.Run | lab8/code/libs/skew_heap.h:29-85 | m insertions and root removals yield the fold of the single operations and take at most m * (3k + 1) merge calls beyond the potential, where 2^k bounds the size; from empty at most m * (3k + 1): O(m log m) |
| SkewHeap.RunOrdered | lab8/code/libs/skew_heap.h:29-85 | over such a run heap order is kept for every total preorder |
| SkewHeap.RunRootFirst | lab8/code/libs/skew_heap.h:29-85 | after any such run from empty the comparison of any entry with the root does not answer -1 |
| SkewHeap.StepRootFirst | lab8/code/libs/skew_heap.h:61-85 | the same after one insertion and after the removal of any entry |
| SkewHeap.OpBound | lab8/code/libs/skew_heap.h:61-85 | the amortised bound of one operation |
| SkewTree.MergeNodes | lab8/code/libs/skew_heap.h:29-59 | the entries are the union, none twice |
| SkewTree.MergeOrdered | lab8/code/libs/skew_heap.h:29-59 | heap order is kept for every total preorder |
| SkewTree.MinimumAtRoot | lab8/code/libs/skew_heap.h:29-59 | in heap order no entry comes before the root |
| SkewTree.RootFirst | lab8/code/libs/skew_heap.h:37-37 | in heap order the comparison of any entry with the root does not answer -1 |
| SkewTree.ComparisonOrders | lab8/code/libs/skew_heap.h:37-37 | a comparison whose answers -1 and 1 mirror each other, with not -1 transitive, orders the keys |
| SkewTree.RemoveNodes | lab8/code/libs/skew_heap.h:69-85 | exactly the removed entry is missing |
| SkewTree.RemoveOrdered | lab8/code/libs/skew_heap.h:69-85 | removal of any member keeps heap order |
| SkewTree.MergeAmortised | lab8/code/libs/skew_heap.h:29-59 | calls plus the potential after are covered by the potential before and a logarithmic credit |
| SkewTree.MergeBound | lab8/code/libs/skew_heap.h:29-59 | calls + potential after - potential before <= 3k + 1 when the sizes and 2 fit in 2^k |
| SkewTree.CallsOnSpines | lab8/code/libs/skew_heap.h:29-59 | the calls counted lie between the shorter right spine and both right spines together, plus one |
| SkewTree.SizeCounts | lab8/code/libs/skew_heap.h:29-59 | the size in the bound is the number of entries |
| Slab.SlabAllocator.constructor | lab2/code/slub_pmm.c:36-47 | the cache of caches alone, no slabs; its objects are 72 bytes, and as many as fit with their indices into a page |
| Slab.SlabAllocator.InitBufctl | lab2/code/slub_pmm.c:243-246 | the loop writes the linear index list ended by -1 and nothing behind it |
| Slab.SlabAllocator.CacheGrow | lab2/code/slub_pmm.c:233-250 | one page from the buddy zones becomes a slab, all its objects free; free pages + slabs is conserved |
| Slab.SlabAllocator.PickSlab | lab2/code/slub_pmm.c:320-327 | the first partial slab, else the first free one, else a new one |
| Slab.SlabAllocator.TakeObject | lab2/code/slub_pmm.c:329-342 | the write-by-write form of Allocated |
| Slab.SlabAllocator.CacheAlloc | lab2/code/slub_pmm.c:316-343 | a slot that was not live becomes live, no other slot changes and no object its contents; slot k of page p has the address p * 4096 + 2 * num + k * objsize; the slab is the first partial one, else the first free one, else a new one; free pages + slabs is conserved |
| Slab.SlabAllocator.GiveObject | lab2/code/slub_pmm.c:353-364 | the write-by-write form of Returned |
| Slab.SlabAllocator.CacheFree | lab2/code/slub_pmm.c:346-365 | from the address alone exactly that slot stops being live; no object changes its contents |
| Slab.SlabAllocator.SlabDestroy | lab2/code/slub_pmm.c:253-260 | the slab's page goes back to the buddy zones: one free page more |
| Slab.SlabAllocator.DestroyList | lab2/code/slub_pmm.c:287-293 | the loop empties one list, front to back, returning a page per slab |
| Slab.SlabAllocator.DestroySlabs | lab2/code/slub_pmm.c:285-309 | the free pages rise by exactly the slabs of the cache; other caches keep theirs |
| Slab.SlabAllocator.CacheDestroy | lab2/code/slub_pmm.c:283-312 | the same, and the cache's own record is freed; objects of other caches keep their contents |
| Slab.SlabAllocator.CacheCreate | lab2/code/slub_pmm.c:266-279 | a record that was not in use becomes an empty cache of that object size; num objects and their indices fill the page, and one more would not fit |
| SlabState.ChainPop | lab2/code/slub_pmm.c:334-337 | taking the head leaves a proper list of the other free slots |
| SlabState.ChainPush | lab2/code/slub_pmm.c:358-360 | putting a slot in front makes a proper list again |
| SlabState.ReturnedData | lab2/code/slub_pmm.c:357-360 | the one word written is outside all objects, of every cache |
| SlabState.GrownData | lab2/code/slub_pmm.c:243-246 | the list of a new slab is written over no object |
| SlabState.NewChain | lab2/code/slub_pmm.c:243-246 | the initial list visits every slot once and ends at -1 |
| SlabState.NumFills | lab2/code/slub_pmm.c:272-272 | num * (2 + objsize) <= 4096 < (num + 1) * (2 + objsize) for every object size |
| SlabState.SixteenBits | lab2/code/slub_pmm.c:243-246 | an index in 16 bits is read back as it was, -1 included |
| SlabState.ListByUse | lab2/code/slub_pmm.c:329-364 | a slab is on the full list iff all its objects are in use, on the free list iff none is, and otherwise on the partial list |
| SlabState.UseCounts | lab2/code/slub_pmm.c:329-364 | inuse is the number of live objects of the slab |
| SlabState.GrownOk | lab2/code/slub_pmm.c:233-250 | a new slab keeps the invariant: acyclic lists of exactly the free slots, and slab lists by occupancy |
| SlabState.AllocatedOk | lab2/code/slub_pmm.c:329-342 | allocation keeps it and makes exactly one slot live |
| SlabState.ReturnedOk | lab2/code/slub_pmm.c:353-364 | freeing keeps it and makes exactly one slot not live |
| SlabState.DestroyedOk | lab2/code/slub_pmm.c:253-260 | destroying a slab keeps it |
| SlabState.AllocThenFree | lab2/code/slub_pmm.c:316-365 | freeing the object just allocated restores the whole state, list order included |
| SlabState.Recover | lab2/code/slub_pmm.c:349-355 | address rounding and division recover the page and index the allocation used |
| SlabState.SizeMatters | lab2/code/slub_pmm.c:349-355 | the page is recovered iff the object size is not 0: objects of size 0 lie at the start of the next page |
| SlabState.LiveInPage | lab2/code/slub_pmm.c:332-334 | live objects lie behind bufctl and inside their page |
| SlabState.NoOverlap | lab2/code/slub_pmm.c:332-334 | two live objects, of any caches, do not overlap |
| SlabState.ObjectWrites | lab2/code/slub_pmm.c:332-334 | writing to objects leaves the allocator's state intact |
| SlabState.CreatedLive | lab2/code/slub_pmm.c:266-279 | each cache still has a live record of its own |
| SlabState.DestroyedLive | lab2/code/slub_pmm.c:310-311 | the same after a cache is gone |
| Mksfs.CreateSfs | lab8/code/tools/mksfs.c:223-254 | fails iff the image cannot hold more than its bitmap; else the root alone, with as many blocks as whole ones fit into the image, but at most 524288, and a bitmap with a bit for each |
| Mksfs.BlocksMeaning | lab8/code/tools/mksfs.c:227-231 | the number of blocks is the number of whole blocks in the image, but at most 524288 (for images below 16 TiB) |
| Mksfs.FirstMeaning | lab8/code/tools/mksfs.c:232-232 | the bitmap has a bit for each block, and one bitmap block less would not do |
| Mksfs.Sfs.constructor | lab8/code/tools/mksfs.c:237-253 | numbering starts behind the bitmap and unused_blocks counts the rest |
| Mksfs.Sfs.AllocIno | lab8/code/tools/mksfs.c:173-180 | numbers are handed out in order, until none is left |
| Mksfs.Sfs.AllocCacheBlock | lab8/code/tools/mksfs.c:182-190 | a cleared block with the next number, entered in chain 0, because the parameter is hashed and not the number |
| Mksfs.Sfs.SearchCacheBlock | lab8/code/tools/mksfs.c:192-199 | a block of the number's own chain with that number, or null iff there is none |
| Mksfs.Sfs.SearchMisses | lab8/code/tools/mksfs.c:182-199 | so the search would find a cached block iff its number hashes to 0, which fails for number 3 |
| Mksfs.HashValues | lab8/code/tools/mksfs.c:42-51 | all chains are below 1024; 1 and 3 hash to 632 and 874 |
| Mksfs.Sfs.UpdateCache | lab8/code/tools/mksfs.c:382-395 | with the right cursor the search branch and its assertion are never reached |
| Mksfs.Sfs.AppendToDirect | lab8/code/tools/mksfs.c:406-408 | the tree over the longer sequence |
| Mksfs.Sfs.AppendToSingle | lab8/code/tools/mksfs.c:409-414 | the same through the single-indirect block, made on first use |
| Mksfs.Sfs.EnsureDouble | lab8/code/tools/mksfs.c:416-418 | the double-indirect block is the cursor l2 |
| Mksfs.Sfs.EnsureLeaf | lab8/code/tools/mksfs.c:419-419 | the leaf block for the position is the cursor l1 and is entered in l2 |
| Mksfs.Sfs.AppendToLeaf | lab8/code/tools/mksfs.c:415-422 | the tree over the longer sequence, with at most two new index blocks |
| Mksfs.Sfs.AppendBlock | lab8/code/tools/mksfs.c:397-426 | succeeds iff the file is below 32768 blocks and the index blocks can be had; then lookup gives all the blocks and the new one, and sizes and cursors are right |
| Mksfs.Sfs.AddBlock | lab8/code/tools/mksfs.c:428-437 | allocate a block and append it: every number in use is still owned exactly once; no other file changes |
| Mksfs.Sfs.NewInode | lab8/code/tools/mksfs.c:201-212 | a new empty file owns the next number |
| Mksfs.Sfs.BitmapBlock | lab8/code/tools/mksfs.c:319-332 | bit b of word w, counted from the lowest, is set iff start <= 32 w + b < end, and the words are 32 bits |
| Mksfs.Sfs.FreeMap | lab8/code/tools/mksfs.c:312-334 | bit b of word w of bitmap block i is set iff next_ino <= 32768 i + 32 w + b < ninos, so the set bits number unused_blocks |
| Mksfs.Sfs.FlushBlocks | lab8/code/tools/mksfs.c:337-342 | what is written is every index block, under its own number, and nothing else |
| Mksfs.Sfs.ImageComplete | lab8/code/tools/mksfs.c:312-349 | in the written image every block of every file is found through direct, indirect or double-indirect |
| Mksfs.Sfs.FlushSpares | lab8/code/tools/mksfs.c:337-342 | index blocks are written over no data block, no inode and no reserved block |
| Mksfs.SameBlock | lab8/code/tools/mksfs.c:182-190 | two index blocks of any files never share a number |
| Mksfs.OwnershipStep | lab8/code/tools/mksfs.c:397-437 | an append keeps exact ownership: the data block and each new index block get one owner |
| Mksfs.OwnershipNew | lab8/code/tools/mksfs.c:201-212 | so does a new inode |
| Mksfs.ExtendedAt | lab8/code/tools/mksfs.c:406-422 | which index positions an append fills |
| BlockTree.LookupFinds | lab8/code/tools/mksfs.c:397-426 | the i-th lookup gives the i-th appended number, for every i below the length |
| BlockTree.LookupMeaning | lab8/code/tools/mksfs.c:397-426 | which word of which block names block i: direct, through the indirect block, or through the leaf (i - 1036) / 1024 of the double-indirect one |
| BlockTree.NewIndexCount | lab8/code/tools/mksfs.c:397-426 | an append makes an index block at position 12, two at 1036 and one every 1024 after that |
| BlockTree.AppendDirect | lab8/code/tools/mksfs.c:406-408 | direct step on values |
| BlockTree.AppendSingle | lab8/code/tools/mksfs.c:409-414 | single-indirect step on values |
| BlockTree.AppendLeaf | lab8/code/tools/mksfs.c:415-422 | double-indirect step on values, new leaf or old |
| BlockTree.LeafPlace | lab8/code/tools/mksfs.c:416-421 | quotient and remainder name leaf and slot, within 1024 each |
| Bits.OrBit | lab8/code/tools/mksfs.c:330-330 | or with a power of two sets exactly that bit |
| Lru.LruManager.constructor | lab3/code/kern/mm/swap_lru.c:34-45 | an empty list |
| Lru.LruManager.MapSwappable | lab3/code/kern/mm/swap_lru.c:46-60 | the page goes to the front, stamped with the present tick |
| Lru.LruManager.SwapOutVictim | lab3/code/kern/mm/swap_lru.c:64-77 | the last page, and no page on the list was last seen touched earlier |
| Lru.LruManager.Tick | lab3/code/kern/mm/swap_lru.c:79-104 | ends with the touched pages, then the others, each in its old order, A and D cleared; the list stays sorted by stamp |
| Lru.LruManager.Walk | lab3/code/kern/mm/swap_lru.c:82-102 | the walk terminates although moved pages come by again |
| Lru.LruManager.MoveTouched | lab3/code/kern/mm/swap_lru.c:86-98 | one touched page goes to the front with its bits cleared |
| Lru.SelectAll | lab3/code/kern/mm/swap_lru.c:79-104 | no page is lost or doubled by a tick |
| Lru.SelectMembers | lab3/code/kern/mm/swap_lru.c:79-104 | the front part holds exactly the touched pages |
| Lru.ListAfter | lab3/code/kern/mm/swap_lru.c:79-104 | the order of stamps survives a tick |
| Lru.LastIsOldest | lab3/code/kern/mm/swap_lru.c:64-77 | the last page has the oldest stamp |
| Lru.ClearedFlags | lab3/code/kern/mm/swap_lru.c:86-98 | only the two bits of the entry change |
| Lru.TouchedBits | lab3/code/kern/mm/swap_lru.c:88-94 | a page counts as touched iff bit 6 or bit 7 of its entry is set, that is, iff clearing changes the entry |
| BestFit.BestFitManager.constructor | lab2/code/best_fit_pmm.c:63-67 | nothing free |
| BestFit.BestFitManager.FindBest | lab2/code/best_fit_pmm.c:114-129 | the smallest sufficient chunk, the lowest among equals; none iff none suffices |
| BestFit.BestFitManager.AllocPages | lab2/code/best_fit_pmm.c:108-144 | NULL iff no chunk suffices; else the best chunk loses its first n pages, and links, sizes and flags follow; nr_free falls by n, and there are still gaps between the chunks |
| BestFit.BestFitManager.FreePages | lab2/code/best_fit_pmm.c:146-203 | the list is in order afterwards iff the block lies in front of the last free chunk or nothing was free; then it stays ordered with gaps between the chunks; otherwise the block ends linked to itself; nr_free rises by n |
| BestFit.BestFitManager.InsertFree | lab2/code/best_fit_pmm.c:161-174 | the insertion loop finds the place, or in the tail case appends and then links the block behind itself |
| BestFit.BestFitManager.NoRing | lab2/code/best_fit_pmm.c:170-172 | after the tail case nothing with the head in it is a ring |
| BestFit.TailCase | lab2/code/best_fit_pmm.c:165-174 | freeing page 0 and then page 2 of an empty memory spoils the list |
| BestFit.BestFitManager.MergeBack | lab2/code/best_fit_pmm.c:176-192 | joins with the chunk in front iff they touch |
| BestFit.BestFitManager.MergeAhead | lab2/code/best_fit_pmm.c:194-202 | joins with the chunk behind iff they touch |
| BestFit.CarvedOk | lab2/code/best_fit_pmm.c:131-142 | allocation keeps the list coalesced and takes n from the sum |
| BestFit.CarvedCovers | lab2/code/best_fit_pmm.c:131-142 | exactly the pages handed out stop being free |
| BestFit.ReturnedOk | lab2/code/best_fit_pmm.c:158-202 | freeing keeps it coalesced, and the free pages are the old ones and the freed ones |
| BestFit.InsertedOk | lab2/code/best_fit_pmm.c:165-174 | after the insertion only the two neighbours can touch the new chunk |
| BestFit.Gaps | lab2/code/best_fit_pmm.c:158-202 | between two free chunks in a row there is a page that is not free |
| Numbers.PrintNum | lab3/code/libs/printfmt.c:36-52 | the digits in the base, padded in front to the width |
| Numbers.DigitChars | lab3/code/libs/printfmt.c:51-51 | a digit below ten is the character 48 + d, any other 97 + d - 10 |
| Numbers.DigitAt | lab3/code/libs/printfmt.c:36-52 | digit i from the right is that of num shortened by i digits, modulo the base |
| Numbers.NoLeadingZero | lab3/code/libs/printfmt.c:36-52 | the digits start with 0 iff the number is 0 |
| Numbers.LowerCase | lab3/code/libs/printfmt.c:51-51 | every digit printed is one of 0 to 9 or a to f |
| Numbers.PaddedShape | lab3/code/libs/printfmt.c:44-51 | the text has the larger of width and digits characters: padding characters, then the digits |
| Numbers.Texts | lab3/code/libs/printfmt.c:225-261 | %lo of 8 is 10, %lx of 255 is ff, %04lu of 42 is 0042 |
| Numbers.PrintLong | lab3/code/libs/printfmt.c:225-261 | %ld prints a signed decimal, %lu, %lo and %lx the argument modulo 2^64 in base 10, 8 and 16; a minus comes before the padding |
| Numbers.Strtol | lab3/code/libs/string.c:203-259 | value and stop position as defined by Parsed, for every base |
| Numbers.HexPrefix | lab3/code/libs/string.c:222-224 | in base 16 two characters are skipped iff they are a zero and a small x |
| Numbers.CharValues | lab3/code/libs/string.c:235-242 | capital and small letters have the values 10 to 35, the characters 0 to 9 those of the digits |
| Numbers.ChosenBase | lab3/code/libs/string.c:222-230 | base 0: a leading 0x chooses 16, any other leading zero 8, everything else 10 |
| Numbers.ReadTexts | lab3/code/libs/string.c:203-259 | with base 0, -0x1F is read as -31, 017 as 15 and a tab, +19 and z as 19 up to the z |
| Numbers.CapitalPrefix | lab3/code/libs/string.c:222-224 | 0x1f is read as 31, but of 0X1f only the zero |
| Numbers.ScanDigits | lab3/code/libs/string.c:232-253 | the maximal run of digits of the base, and its value |
| Numbers.DigitsValue | lab3/code/libs/printfmt.c:36-52 | the printed digits, zeros in front or not, have the number as their value |
| Numbers.UnsignedRoundTrip | lab3/code/libs/string.c:203-259 | padded with zeros or spaces, in the base it was printed in, a number is read back exactly and to the end |
| Numbers.SignedRoundTrip | lab3/code/libs/string.c:203-259 | for every long but the smallest, width and padding: read back exactly iff no padding comes between a minus and the digits |
| Numbers.NoOverflow | lab3/code/libs/string.c:251-252 | no intermediate value exceeds the final one |
| Numbers.PrintAndRead | lab3/code/libs/printfmt.c:225-261 | printing with %ld and reading with base 10 |
| Numbers.PrintAndReadUnsigned | lab3/code/libs/printfmt.c:235-261 | a non-negative long printed with %lo is read back in base 8, with %lx in base 16 and with %lu in base 10 |

## Left out

- Physical placement of a buddy zone: where `longest` and `begin_page` lie, and the page flags set at start-up; zones are ranges of page numbers.
- Buddy zones above 2^30 pages, and the 32-bit `index` and `node_size` of the free path beyond that.
- Kernel addresses: the walk never enters slot 511, whose entry maps a gigabyte of kernel memory directly.
- TLB flushes, control registers, interrupt masking, traps, console and clock; addresses are translated by the walk alone.
- The accessed and dirty bits during paging runs; ageing by them is modelled by itself in Lru, with the entries of all pages as one array.
- Runs with `swap_init_ok` off: the single operations are proved for both values, the runs with swapping on.
- The FIFO and clock policies: the victim is any page of the swap manager's list, which is a set here; the clock's scan takes the list head for a page.
- Failing disk transfers (`ide_read_secs` and `ide_write_secs` always return 0) and a failing victim choice.
- Instruction fetches and loads below word size in runs; words are 64 bits and addresses select the word they lie in.
- Removing areas, `mm_destroy`, and the reset of the cache: areas are only added.
- The list links inside slab pages: the three lists of a cache are sequences of page numbers in the order the list operations leave; `cache_chain` is left out.
- The bytes of a cache record: caches are a map keyed by the record's address, and setting one up writes no page.
- Running out of pages in `cache_grow`, whose NULL check comes too late to help; a free page is required.
- Freeing an object of a cache with objects of size 0: the division by `objsize` has no value.
- `best_fit_init_memmap`, and the first-fit manager, whose free path is the same.
- Freeing what is not allocated, in the slab and best-fit managers, is excluded by preconditions (best fit asserts it); the buddy free of a free page is modelled.
- The host side of the image builder: directory walking, hard links and the inode hash, `pwrite`, the bytes of directory entries; running out of blocks ends the program, so after a failure nothing is promised.
- 32-bit wrap-around of `inode.size`: files are at most 128 MiB.
- Parsing of the format string in `vprintfmt` and the conversions without the long flag, which narrow the argument first; %s, %c, %e and %p.
- Signed overflow in `strtol`: values are unbounded, and `NoOverflow` shows that printed numbers do not overflow.
- Self-checks (`check_*`), user programs and the other labs' copies of the same files.
- SkewHeap.Run: counts calls of `skew_heap_merge` for insertions and root removals; removal of inner entries is proved correct without a bound.
- Paging.Kernel.FindPte: get_pte with create 0 is modelled apart from the creating walk, since it changes nothing.
- Paging.Kernel.AllocPage: requests of one page only, as everywhere in the paging code; larger requests are never answered by evictions.
- Paging.Kernel.GetPte: addresses below the kernel slot only, as for FindPte and GetPage; the entry of that slot names memory and not a table.
- Paging.Kernel.SwapOut: starts with a list in order that has n pages; otherwise evictions are stated one at a time, by SwapOutPage.
- Paging.Kernel.DoPgfault: starts from a state whose list is in order, as do its parts BringPage, FaultPte and FillPage.
- Buddy.ZoneSizes: up to 2^30 pages, as for the BuddyZone constructor and InitMemmap, since the fill loop counts 2 * size nodes in an int.
- BuddySystem.BuddyManager.AllocPage: the call that succeeds; AllocPages has the case without a free page.
- Slab.SlabAllocator.constructor: without cache_chain.
- Slab.SlabAllocator.CacheCreate: without the link into cache_chain, which nothing reads.
- Mksfs.Sfs.AddBlock: without the bytes written to the new block and the link count.
- Mksfs.Sfs.NewInode: without the real number, the type and the inode's hash chain.
- BestFit.BestFitManager.FreePages: without the reference counts that the first loop clears.
- Paging.Kernel.PageInsert: starts from a state in which no table is mapped; PageCounts has the insertions after that, for a leaf table that is there.
- BuddySystem.BuddyManager.InitMemmap: zones whose rounded-up ranges do not meet; otherwise a page of the later zone can lie in the range of the earlier one, and its free goes there.
