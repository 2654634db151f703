# A verified model of the arkoi_os kernel

This project models the memory management of arkoi_os, a 32-bit x86 kernel, and
the library code and drivers around it, and proves what the rest of the kernel
relies on.  `dafny verify dfyconfig.toml` checks everything.

**Physical memory** (`pmm.c`).  Each region has a pool of page headers and eleven
intrusive free lists.  `Region` keeps both as the source does, updated in place;
a pointer into the pool is an index.  The abstract state is a tiling: for every
page, the block that owns it.  `Tiling`, `TilingSteps`, `Carve` and `Runs` prove
on tilings that free blocks are always the maximal aligned runs of unallocated
pages, hence that history does not matter and that freeing everything restores
the initial carve; `Region` proves that headers and lists follow the tiling,
although headers of pages inside a block hold stale values; `Pmm` lifts this to
all regions and to addresses.  `Handout` gives the order in which single pages are
handed out as a queue read off the free lists.

**Virtual memory** (`vmm.c`).  Physical memory is an array of frames of 1024 words,
page tables and data alike.  `Paging` defines translation by the two-level table
walk (section 4.3, "32-Bit Paging", of the Intel SDM, Volume 3A) and proves what
stores do to it; `Ownership` is the invariant on who owns which frame; `Boot` is
what the kernel starts with; `Vmm` runs mapping, unmapping and demand paging on top
of the allocator; `Space` says what one event does to the address space as a value
and proves what follows for every run.

**Formatted output** (`kstdio.c`, `kcursor.c`): the bounded formatter against an
unbounded rendering, and number printers against parsers.  **Event buffer**
(`kbuffer.c`): a ring against a drop-oldest queue, with pops that interrupts push
into.  **Screen** (`vga.c`), **boot information** (`multiboot2.c`), **keyboard**
and **serial port table**: smaller refinements.

## Reading the model

- Addresses and sizes are unbounded integers; where the source's 32-bit
  arithmetic can wrap, the wrap is written out (`WORD` is 2^32).
- `NULL` is address 0, as in the source.  A block at address 0 is therefore handed
  out as what reads as `NULL`, and `pmm_free(NULL)` does nothing: the contracts of
  `Pmms.Pmm.Free`, `Vmms.Vmm.MapPage` and `Vmms.Vmm.PageFault` say what follows.
- A panic is a result value; the machine stops there.
- `pmm_free` may be given any address that is not in the middle of a block
  (`MayFree`): the double-free guard reads the header of the page it is given.
- Regions are added disjoint from one another.  With a start above 0xFFFFF000 the
  rounded start wraps; `BoundsInsideIff` shows that the region taken over is inside
  the one requested exactly when the start is not above it.
- The frames of the page directory and of the identity table belong to no region.
  Accesses the kernel makes through `physical_to_virtual` are taken to reach the
  frame; `TablesReachable` proves that they do in every run with memory below 4 MiB
  that unmaps nothing in the boot windows.
- `kmemset` does nothing when its address is 0, so a fault on virtual page 0 is
  served with a frame that is not cleared; `FaultServiced` states both cases.

Where comments and code disagree the model follows the code.  Region bounds are
rounded inwards (`pmm.c` lines 147-148; `pmm.h` lines 70-74 say outwards).  An
allocation that fails panics (`pmm.h` says it returns `NULL`).  A push into a full
ring replaces the oldest element (`kbuffer.h` speaks of available space).
`kvsnprintf` counts the terminator (`kstdio.h` says it does not).

## Model

| member | source | states |
|---|---|---|
| `Tiling.BuddyIsHead` | kernel/src/lib/memory/pmm.c:86-100 | the page where a block's buddy would start is always the first page of some block, of no larger order; so the headers consulted when freeing are never stale |
| `Tiling.RunInsideFreeTile` | kernel/src/lib/memory/pmm.c:68-84 | every unallocated aligned run lies inside one free block, so searching the lists from the wanted order upwards is complete |
| `Tiling.CanonicalForm` | kernel/src/lib/memory/pmm.c:320-347 | in a canonical tiling a block is free if and only if it is a maximal aligned run, of order at most 10, of unallocated pages |
| `Tiling.SameLiveSameTiling` | kernel/src/lib/memory/pmm.c:211-348 | two reachable states of a region with the same live blocks are equal |
| `TilingSteps.TakeCanon` | kernel/src/lib/memory/pmm.c:234-239 | taking a free block keeps the tiling canonical |
| `TilingSteps.SplitCanon` | kernel/src/lib/memory/pmm.c:241-254 | halving an allocated block and freeing the upper half keeps it canonical |
| `TilingSteps.MergeCanon` | kernel/src/lib/memory/pmm.c:321-345 | merging two buddies keeps it canonical |
| `TilingSteps.GiveCanon` | kernel/src/lib/memory/pmm.c:347-347 | freeing a block keeps it canonical when its buddy is no free block of its order |
| `TilingSteps.SplitLive` | kernel/src/lib/memory/pmm.c:241-254 | a split replaces one live block by its lower half |
| `TilingSteps.MergeLive` | kernel/src/lib/memory/pmm.c:331-344 | a merge with a free buddy replaces one live block by its parent |
| `Carve.InitialCanon` | kernel/src/lib/memory/pmm.c:180-201 | assigning each page its largest fitting aligned run is a gap-free tiling without equal-order free buddies below order 10 |
| `Carve.GreedyBlock` | kernel/src/lib/memory/pmm.c:182-200 | the largest order that may start at a boundary is that of the block there, and the next boundary follows it |
| `Carve.NothingLiveIsInitial` | kernel/src/lib/memory/pmm.c:180-201 | the only reachable state with nothing allocated is the initial carve |
| `Runs.ApplyFacts` | kernel/src/lib/memory/pmm.c:211-348 | one allocation or free keeps the tiling canonical and changes the live blocks by exactly that block |
| `Runs.AnyRun` | kernel/src/lib/memory/pmm.c:211-348 | after any run of allocations and frees from the carve, the free blocks are the maximal unallocated runs, and with nothing live the carve is back |
| `Runs.HistoryIndependent` | kernel/src/lib/memory/pmm.c:211-348 | two runs that leave the same blocks live leave the same free blocks |
| `Runs.AllocThenFree` | kernel/src/lib/memory/pmm.c:211-348 | freeing what was just allocated restores the region exactly |
| `FreeLists.ChainRemove` | kernel/src/lib/memory/pmm.c:107-117 | unlinking a header leaves the chain of the others, in order |
| `FreeLists.ListsPush` | kernel/src/lib/memory/pmm.c:122-125 | pushing a header that is in no list keeps all lists acyclic and disjoint |
| `FreeLists.ListsRemove` | kernel/src/lib/memory/pmm.c:102-120 | unlinking keeps all eleven lists acyclic and disjoint |
| `RegionSteps.TakeInv` | kernel/src/lib/memory/pmm.c:234-239 | headers and lists agree with the tiling after a block was taken |
| `RegionSteps.SplitInv` | kernel/src/lib/memory/pmm.c:244-253 | and after a split, whatever the upper half's header held |
| `RegionSteps.MergeInv` | kernel/src/lib/memory/pmm.c:331-344 | and after a merge, whatever is left in the swallowed header |
| `RegionSteps.GiveInv` | kernel/src/lib/memory/pmm.c:347-347 | and after the merged block was listed |
| `Regions.XorFindsBuddy` | kernel/src/lib/memory/pmm.c:91-93 | XOR of a block's byte offset with its size is the offset of the other half of its parent |
| `Regions.Region.constructor` | kernel/src/lib/memory/pmm.c:157-201 | a new region satisfies the invariant with the initial tiling; each list holds its blocks from the highest page to the lowest |
| `Regions.Region.BiggestOrder` | kernel/src/lib/memory/pmm.c:182-191 | the inner loop finds the largest order that is aligned at the offset and fits |
| `Regions.Region.CarveAll` | kernel/src/lib/memory/pmm.c:180-201 | the carving loop ends with headers and lists in agreement with the tiling, lists from the highest page to the lowest |
| `Regions.Region.HeadersTellLists` | kernel/src/lib/memory/pmm.c:102-125 | a block head is in the list of its order exactly when its header says free, in no other list, and no other page is in any list; lists are acyclic |
| `Regions.Region.FindBlockByAddress` | kernel/src/lib/memory/pmm.c:45-66 | the header of an aligned address of the region, `NULL` for every other address |
| `Regions.Region.GetBuddyBlock` | kernel/src/lib/memory/pmm.c:86-100 | the buddy's first page when it is in the region, else `NULL`, also when the address sum wraps |
| `Regions.Region.AddToFreelist` | kernel/src/lib/memory/pmm.c:122-125 | the header becomes the first of its list, and only its `next` changes |
| `Regions.Region.RemoveFromFreelist` | kernel/src/lib/memory/pmm.c:102-120 | succeeds exactly on members and removes exactly that header |
| `Regions.Region.TakeBlock` | kernel/src/lib/memory/pmm.c:234-239 | detaches a free block of the order; the panic on a failed removal is unreachable |
| `Regions.Region.SplitBlock` | kernel/src/lib/memory/pmm.c:241-254 | one split; the unchecked buddy lookup never yields `NULL` |
| `Regions.Region.SplitDown` | kernel/src/lib/memory/pmm.c:241-256 | the loop shrinks the live block to the wanted order |
| `Regions.Region.FirstNonEmpty` | kernel/src/lib/memory/pmm.c:221-232 | the least order with a free block; there is none exactly when no aligned run of the order is unallocated |
| `Handouts.TakingPops` | kernel/src/lib/memory/pmm.c:221-254 | taking the first block of the lowest non-empty list and splitting it down to a page removes the first of the pages to come and leaves the order of the others |
| `Handouts.ListsPages` | kernel/src/lib/memory/pmm.c:102-125 | the pages to come are exactly the unused pages of the region, each once |
| `Regions.Region.AllocOrder` | kernel/src/lib/memory/pmm.c:221-258 | panics exactly when no aligned run is unallocated; otherwise takes the first block of the lowest sufficient list, hands out its start, lists the halves not needed, and is one step of the state machine |
| `Regions.Region.BuddyMerges` | kernel/src/lib/memory/pmm.c:322-329 | the header test answers what the tiling says about the buddy, which is a block head whenever it is in range |
| `Regions.Region.Coalesce` | kernel/src/lib/memory/pmm.c:331-344 | one merge; the coalescing panic is unreachable |
| `Regions.Region.CoalesceAll` | kernel/src/lib/memory/pmm.c:320-347 | the loop frees exactly the block it was given; the merged block is first of its list, the buddies merged are gone from theirs, and all else is in its old order |
| `Regions.Region.Free` | kernel/src/lib/memory/pmm.c:306-348 | on a block head, panics exactly if the block is free already; otherwise it is one step of the state machine, the merged block becomes the first of its list, each list on the way loses exactly the buddy merged, and there is a merge exactly if the buddy was free |
| `Handouts.ReleasedPage` | kernel/src/lib/memory/pmm.c:347-347 | a single page freed without a merge is the next of its region to be handed out |
| `Alignment.AlignDownPage` | kernel/src/lib/kmemory.c:49-51 | masking rounds down to the page |
| `Alignment.AlignUpPage` | kernel/src/lib/kmemory.c:45-47 | masking rounds up to the page, and wraps to 0 above 0xFFFFF000 |
| `Alignment.BoundsExact` | kernel/src/lib/memory/pmm.c:139-155 | the pages taken over are exactly the whole pages inside the request; overflow is detected exactly |
| `Alignment.BoundsShape` | kernel/src/lib/memory/pmm.c:139-155 | overflow is detected exactly and bounds are aligned wherever the start lies |
| `Alignment.BoundsInsideIff` | kernel/src/lib/memory/pmm.c:147-153 | the bounds stay inside the request if and only if the start is at most 0xFFFFF000 |
| `Alignment.WrappedBounds` | kernel/src/lib/memory/pmm.c:147-153 | a one-byte request at 0xFFFFF001 that takes over nearly all memory |
| `Extents.LiveDisjoint` | kernel/src/lib/memory/pmm.c:211-259 | live blocks never overlap, within a region or across regions |
| `Pmms.Pmm.NoOverlap` | kernel/src/lib/memory/pmm.c:211-259 | the same for the live blocks of the manager at any time |
| `Pmms.SizeToOrder` | kernel/src/lib/memory/pmm.c:11-30 | the least order that holds the size, less than twice the size above one page; exactly the sizes above 4 MiB have none |
| `Pmms.Pmm.FindRegionForOrder` | kernel/src/lib/memory/pmm.c:68-84 | the first region with an unallocated aligned run of the order |
| `Handouts.UpcomingPops` | kernel/src/lib/memory/pmm.c:68-84 | the next page of all regions is that of the first region that has one |
| `Pmms.Pmm.NextPagesExact` | kernel/src/lib/memory/pmm.c:211-259 | the pages to come, over all regions, are exactly the unused pages, each once |
| `Pmms.Pmm.AllocOrder` | kernel/src/lib/memory/pmm.c:211-259 | panics exactly when the order is invalid or no region has such a run; otherwise only the first region that has one changes, and hands out the first block of its lowest sufficient list; single pages are handed out in the order of the pages to come |
| `Extents.UnusedWithout` | kernel/src/lib/memory/pmm.c:211-259 | conservation: the pages of a block taken leave the unused pages, and no other page does |
| `Pmms.Pmm.AllocBlock` | kernel/src/lib/memory/pmm.c:211-259 | one more live block, inside one region, aligned relative to its start, disjoint from every live block; exactly its pages stop being unused |
| `Pmms.Pmm.AllocSize` | kernel/src/lib/memory/pmm.c:273-284 | the same with the least order that holds the size; sizes above 4 MiB are rejected, size 0 yields `NULL` |
| `Pmms.Pmm.AllocPages` | kernel/src/lib/memory/pmm.c:261-271 | the same for a number of pages, without overflow |
| `Pmms.Pmm.FindRegionByAddress` | kernel/src/lib/memory/pmm.c:32-43 | the region containing an address, if any |
| `Pmms.Pmm.Free` | kernel/src/lib/memory/pmm.c:286-348 | frees exactly the live block at the address, whose pages become unused, and lists it as `Regions.Region.Free` does; a single page that is not merged is the next to be handed out unless an earlier region has one; does nothing for 0; panics for everything else |
| `Pmms.Pmm.AddRegion` | kernel/src/lib/memory/pmm.c:139-209 | appends one region with the exact bounds and the initial carve, whose pages come after all others, blocks of one size from the highest down; or panics on overflow, or does nothing |
| `Pmms.Pmm.NothingLive` | kernel/src/lib/memory/pmm.c:286-348 | when no block is live every region is back to its carve |
| `Extents.SameExtentsSameTilings` | kernel/src/lib/memory/pmm.c:211-348 | the live blocks, by address, determine the state of every region |
| `Pmms.SameLiveSameState` | kernel/src/lib/memory/pmm.c:211-348 | two managers of the same regions with the same live blocks are in the same state |
| `Paging.StoreEffect` | kernel/src/lib/memory/vmm.c:138-145 | a table store changes translation exactly at the pages that share the entry |
| `Paging.InstallHarmless` | kernel/src/lib/memory/vmm.c:64-80 | hooking in a zeroed table changes no translation |
| `Paging.DataStoreHarmless` | kernel/src/lib/memory/vmm.c:205-206 | stores to frames that are no tables change no translation |
| `Paging.MapThenUnmap` | kernel/src/lib/memory/vmm.c:124-183 | mapping a page and unmapping it restores every translation |
| `Ownership.SharesExactly` | kernel/src/lib/memory/vmm.c:104-113 | an entry serves one page, or the two pages at the same offset of the boot windows |
| `Ownership.InstallOwned` | kernel/src/lib/memory/vmm.c:64-83 | a new table keeps tables distinct and apart from demand-mapped frames, and sets no page-size bit |
| `Ownership.FillOwned` | kernel/src/lib/memory/vmm.c:134-145 | filling an absent entry disturbs no page faulted in |
| `Ownership.FaultOwned` | kernel/src/lib/memory/vmm.c:193-203 | a page faulted in gets a frame of its own |
| `Ownership.ClearOwned` | kernel/src/lib/memory/vmm.c:166-177 | clearing an entry keeps ownership for the pages that do not share it |
| `Boot.PreInit` | kernel/src/lib/memory/vmm.c:86-113 | every bit of directory and identity table after boot, and nothing else written |
| `Boot.BootTranslation` | kernel/src/lib/memory/vmm.c:97-113 | exactly the first 4 MiB are mapped, at 0 and at the kernel base |
| `Boot.BootReachable` | kernel/src/lib/memory/vmm.c:24-26 | with the boot tables the kernel reaches a frame through its window if and only if it is below 4 MiB |
| `Boot.UnmapKeepsWindow` | kernel/src/lib/memory/vmm.c:153-183 | unmapping outside the two boot windows leaves the kernel its window |
| `Spaces.MappedBits` | kernel/src/lib/memory/vmm.c:72-77 | every bit of the entry and of the directory entry of a page just mapped: the flags as given, the others as before |
| `Spaces.FaultBits` | kernel/src/lib/memory/vmm.c:185-207 | a page faulted in is present, writable and not for user mode, in these words, and its frame is all zeros |
| `Spaces.ServicedWasServiceable` | kernel/src/lib/memory/vmm.c:185-211 | a serviced fault was of the non-present kind and without translation, and the pages to come were enough for data and table and not page 0 |
| `Spaces.PageZeroMatters` | kernel/src/lib/memory/vmm.c:193-203 | with page 0 out of use a fault is serviceable if and only if, besides, one page is unused (two without a table); with page 0 among no more pages than needed it never is |
| `Spaces.StopsExactly` | kernel/src/lib/memory/vmm.c:124-211 | no event takes effect in a state in which it stops the machine |
| `Spaces.DemandExactly` | kernel/src/lib/memory/vmm.c:153-211 | in any run the pages backed by demand are exactly those that some fault served, or that were there before, and that no later successful unmap hit through their entry |
| `Spaces.DataForever` | kernel/src/lib/memory/vmm.c:50-84 | in any run a frame handed out for data never becomes a page table |
| `Spaces.FrameNeverTable` | kernel/src/lib/memory/vmm.c:64-83 | a frame given to a faulting page is a page table at no time of the run, before or after, unmapped or not |
| `Spaces.FramesNeverReused` | kernel/src/lib/memory/vmm.c:193-203 | no two faults of a run get the same frame |
| `Spaces.WindowStaysOpen` | kernel/src/lib/memory/vmm.c:124-211 | in a run that unmaps nothing in the boot windows the kernel keeps reaching the first 4 MiB |
| `Spaces.TablesReachable` | kernel/src/lib/memory/vmm.c:24-26 | with all memory below 4 MiB, every page table of every state of such a run is found at the address the kernel accesses it at |
| `Vmms.Vmm.constructor` | kernel/src/lib/memory/vmm.c:86-113 | boot establishes the ownership invariant |
| `Vmms.Vmm.GetOrCreatePte` | kernel/src/lib/memory/vmm.c:50-84 | the entry of the address, in the existing table or in a fresh zeroed one, without changing a translation; panics exactly when a table is needed and no page is unused |
| `Vmms.Vmm.NewTable` | kernel/src/lib/memory/vmm.c:64-80 | the new table is a frame not in use before; the directory entry carries the flags |
| `Vmms.Vmm.MapPage` | kernel/src/lib/memory/vmm.c:124-151 | takes effect if and only if the addresses are aligned, the page has no translation and the table, if needed, gets a page other than page 0; the exact change of memory, translation and pages, and every bit of the entries written; a refusal changes nothing unless page 0 was taken; panics exactly when a table is needed and no page is unused |
| `Vmms.Vmm.UnmapPage` | kernel/src/lib/memory/vmm.c:153-183 | succeeds exactly on mapped pages; the exact memory and translation change, the entry all zeros |
| `Vmms.Vmm.MapAndUnmap` | kernel/src/lib/memory/vmm.c:124-183 | unmapping after a successful mapping succeeds and restores every translation and the demand pages |
| `Vmms.Vmm.ZeroThrough` | kernel/src/lib/memory/vmm.c:205-206 | clearing through the virtual address clears the frame and no other word, since no store redirects a later one |
| `Vmms.Vmm.ServeFault` | kernel/src/lib/memory/vmm.c:193-207 | a served fault maps a fresh frame and changes no translation outside the shared entry; a panic means a translation, too few pages, or page 0 among those to come; where there was a translation the page taken is given back |
| `Vmms.Vmm.PageFault` | kernel/src/lib/memory/vmm.c:185-211 | a fault is serviced if and only if it is of the non-present kind, the page has no translation, and the one or two pages that the allocator hands out next exist and are not page 0; the frame is the first of them, zeroed, its entry present, writable and not for user mode, and no other translation changes |
| `Vmms.Vmm.Run` | kernel/src/lib/memory/vmm.c:124-211 | any run of faults, maps and unmaps is a sequence of states, each following from the one before by what the event does, with tables, demand pages and slots kept apart in each; it ends early exactly where an event stops the machine |
| `Numbers.DecRoundTrip` | kernel/src/lib/kstdio.c:14-37 | decimal output parses back; a leading zero only for 0 |
| `Numbers.SignedRoundTrip` | kernel/src/lib/kstdio.c:39-54 | every signed 32-bit value parses back, the most negative included |
| `Numbers.HexRoundTrip` | kernel/src/lib/kstdio.c:56-74 | enough nibbles parse back, in either case |
| `Numbers.HexPrinted` | kernel/src/lib/kstdio.c:76-87 | `%x` parses back and has no superfluous leading zero |
| `Numbers.HexAt` | kernel/src/lib/kstdio.c:67-73 | shift and mask select the digits of that output |
| `Numbers.DigitCodes` | kernel/src/lib/kstdio.c:11-12 | the digits as bytes, in either case |
| `Cursors.Cursor.WriteByte` | kernel/src/lib/kcursor.c:48-60 | appends the byte, or nothing when full; writes nowhere else |
| `Cursors.Cursor.Write` | kernel/src/lib/kcursor.c:62-78 | appends all or nothing |
| `Cursors.Cursor.Divisor` | kernel/src/lib/kstdio.c:19-24 | the largest power of ten not above the value, without leaving 32 bits |
| `Cursors.Cursor.WriteU32Dec` | kernel/src/lib/kstdio.c:14-37 | the two loops print the decimal digits, as far as they fit |
| `Cursors.Cursor.WriteI32Dec` | kernel/src/lib/kstdio.c:39-54 | the same for signed words |
| `Cursors.Cursor.WriteHexNibbles` | kernel/src/lib/kstdio.c:56-74 | prefix and nibbles, as far as they fit |
| `Cursors.Cursor.HexDigitCount` | kernel/src/lib/kstdio.c:76-83 | the number of significant nibbles |
| `Formats.EmitIsPrefix` | kernel/src/lib/kstdio.c:93-165 | bounded output is a prefix of the unbounded rendering, within bounds, and all of it when it fits |
| `Formats.EmitIsGreedy` | kernel/src/lib/kstdio.c:109-156 | something is dropped only if the buffer is full or a string is too long for what is left |
| `Formats.RenderSpells` | kernel/src/lib/kstdio.c:130-156 | what each conversion prints, in terms of parsers and byte values: signed for d and i, unsigned for u, hexadecimal in the right case and with 0x exactly under # for x and X, 0x and eight digits for p, the low byte for c, the string or NULL for s, else the character |
| `Formats.Directive` | kernel/src/lib/kstdio.c:118-156 | a directive prints that, takes its bytes and at most one argument, and the rest follows; without room a string is dropped and anything else cut off |
| `Formats.PlainText` | kernel/src/lib/kstdio.c:105-116 | a format without % renders to itself |
| `Formats.PlainByte` | kernel/src/lib/kstdio.c:108-116 | a byte other than % stands for itself |
| `Formats.CutShort` | kernel/src/lib/kstdio.c:118-128 | a format that ends inside a directive prints nothing more |
| `Formats.WriteSpecifier` | kernel/src/lib/kstdio.c:130-156 | each conversion appends its rendering as far as it fits, says whether it fitted, and then has printed what `RenderSpells` says |
| `Formats.WriteDirective` | kernel/src/lib/kstdio.c:105-156 | one turn of the loop: rendering, format bytes and arguments consumed, early exits |
| `Formats.Vsnprintf` | kernel/src/lib/kstdio.c:93-165 | the buffer holds the bounded rendering and a terminator, nothing else is written, and the result is the length plus one; sizes 0 and 1 write nothing |
| `Rings.FullIffNoRoom` | kernel/src/lib/kbuffer.c:62-76 | full and empty tests against the contents |
| `Rings.PushRefines` | kernel/src/lib/kbuffer.c:19-36 | a push is a push on the drop-oldest queue of capacity one less |
| `Rings.RunRefines` | kernel/src/lib/kbuffer.c:19-52 | any run of pushes and pops hands out and leaves what the drop-oldest queue of capacity minus one does |
| `Rings.PushesRefine` | kernel/src/lib/kbuffer.c:19-36 | any number of pushes leaves the last elements of old contents and pushed ones |
| `Rings.DropsCount` | kernel/src/lib/kbuffer.c:24-33 | how often the tail moves is what does not fit |
| `Rings.SlotAfter` | kernel/src/lib/kbuffer.c:19-36 | what any slot holds after any number of pushes |
| `Rings.PassedCheck` | kernel/src/lib/kbuffer.c:70-76 | an emptiness check that passes is right even when pushes fall between its two loads |
| `Rings.InterruptedPop` | kernel/src/lib/kbuffer.c:38-52 | a pop with pushes between check, address, copy, load and store: the element handed out in every case, the oldest unless two pushes between address and copy find the ring full; what is left is what an atomic pop leaves if and only if no push between address and store finds the ring full, or those after the second load of the tail number one modulo the capacity |
| `Rings.QuietPopLinearises` | kernel/src/drivers/keyboard.c:87-95 | while the ring does not fill up an interrupted pop loses nothing and keeps order |
| `Rings.LostElement` | kernel/src/lib/kbuffer.c:47-51 | a push into a full ring between copy and advance loses an element |
| `Rings.OvertakenElement` | kernel/src/lib/kbuffer.c:47-48 | two pushes into a full ring between address and copy make the pop hand out the newest element |
| `Rings.SizeExact` | kernel/src/lib/kbuffer.c:54-60 | the 32-bit size is right if and only if the sum does not wrap, always so up to capacity 2^31 |
| `Rings.CyclicBuffer.Push` | kernel/src/lib/kbuffer.c:19-36 | the queue push, on the mutable buffer |
| `Rings.CyclicBuffer.Pop` | kernel/src/lib/kbuffer.c:38-52 | takes the oldest element, fails exactly when empty |
| `Rings.CyclicBuffer.Size` | kernel/src/lib/kbuffer.c:54-60 | the number of elements if and only if the 32-bit sum does not wrap, which it never does up to capacity 2^31 |
| `Rings.CyclicBuffer.IsFull` | kernel/src/lib/kbuffer.c:62-68 | capacity minus one elements |
| `Rings.CyclicBuffer.IsEmpty` | kernel/src/lib/kbuffer.c:70-76 | no elements |
| `Vga.ScrollShows` | kernel/src/drivers/vga.c:14-29 | scrolling shows the page one row further down |
| `Vga.WriteShows` | kernel/src/drivers/vga.c:57-58 | storing a cell changes the page under the cursor |
| `Vga.Screen.constructor` | kernel/src/drivers/vga.c:36-42 | a cleared screen is 2000 spaces in the current colour |
| `Vga.Screen.MoveUp` | kernel/src/drivers/vga.c:15-21 | the in-place copy moves every row up intact |
| `Vga.Screen.Scroll` | kernel/src/drivers/vga.c:14-29 | rows move up, the last is blank in the current colour, the cursor is on it |
| `Vga.Screen.SetCursor` | kernel/src/drivers/vga.c:78-82 | positions outside the screen are ignored |
| `Vga.Screen.SetColor` | kernel/src/drivers/vga.c:44-46 | the colour of later characters |
| `Vga.Screen.WriteChar` | kernel/src/drivers/vga.c:48-69 | a line feed takes the cursor to the start of the next row, any other character is stored with the colour at the cursor, which moves on by one cell; the screen keeps showing the end of the page |
| `Vga.Layout` | kernel/src/drivers/vga.c:48-69 | on the unbounded page every character stands at the position that the text before it gives, one cell further for a character and the start of the next row of 80 for a line feed, in the colour last set; all other cells are blank; so is the cursor given |
| `Vga.PlainPosition` | kernel/src/drivers/vga.c:57-69 | without line feeds character i stands at row i / 80, column i % 80 |
| `Vga.Play` | kernel/src/drivers/vga.c:36-76 | after any run of colours and characters since a clear the screen is the last 25 rows of that page: each character not scrolled off in the low byte of its cell and its colour in the high byte, blanks elsewhere, the cursor behind the last |
| `Multiboot.MeaningGrows` | kernel/src/arch/x86/boot/multiboot2.c:96-113 | handling one tag after another accumulates the in-order filters of all map entries, all modules in order, and the last strings |
| `Multiboot.StrLen` | kernel/src/lib/kstring.c:3-7 | the length up to the terminator |
| `Multiboot.BootInfo.ParseMemoryMap` | kernel/src/arch/x86/boot/multiboot2.c:12-47 | available and reserved entries are appended in order, others skipped, for any entry size of at least 24 |
| `Multiboot.BootInfo.ParseCommandLine` | kernel/src/arch/x86/boot/multiboot2.c:49-55 | the string of the tag |
| `Multiboot.BootInfo.ParseModule` | kernel/src/arch/x86/boot/multiboot2.c:57-74 | one module more, with its bounds and string |
| `Multiboot.BootInfo.ParseName` | kernel/src/arch/x86/boot/multiboot2.c:76-82 | the string of the tag |
| `Multiboot.TagsExist` | kernel/src/arch/x86/boot/multiboot2.c:84-117 | every tag sequence has a boot information structure, with any padding |
| `Multiboot.TagOnBytes` | kernel/src/arch/x86/boot/multiboot2.c:12-82 | an encoded tag, read off its bytes: type word 1 sets the command line, 2 the name, 3 appends a module, 6 appends the entries of type 1 to RAM and of type 2 to reserved, and any other adds nothing |
| `Multiboot.TagsOnBytes` | kernel/src/arch/x86/boot/multiboot2.c:84-117 | the same for all tags up to the one of type 0, each at the next multiple of 8 |
| `Multiboot.BootInfo.ParseTag` | kernel/src/arch/x86/boot/multiboot2.c:96-113 | one tag adds what its bytes say |
| `Multiboot.BootInfo.ParseBootInfo` | kernel/src/arch/x86/boot/multiboot2.c:84-117 | on every structure that holds a tag sequence, whatever the padding, parsing ends with exactly what the tags mean, which is what the bytes say |
| `Keyboard.DecodeResumes` | kernel/src/drivers/keyboard.c:67-81 | decoding may stop anywhere and resume from the state left |
| `Keyboard.ModifierFollowsKeys` | kernel/src/drivers/keyboard.c:46-51 | a modifier is held if and only if the last make or break code of its keys is a make code, or there is none and it was held before |
| `Keyboard.CapsFollowsParity` | kernel/src/drivers/keyboard.c:52-54 | caps lock follows the parity of its make codes |
| `Keyboard.EventOfByte` | kernel/src/drivers/keyboard.c:38-65 | every byte but the prefixes makes one event, in order, with its scancode and the modifiers after it |
| `Keyboard.Driver.HandleScancode` | kernel/src/drivers/keyboard.c:38-65 | modifiers and event of one scancode |
| `Keyboard.Driver.Handler` | kernel/src/drivers/keyboard.c:67-81 | one interrupt decodes the bytes it consumes: all, or those up to the first prefix byte |
| `Keyboard.Driver.Session` | kernel/src/drivers/keyboard.c:67-81 | over any interrupts, each consumes what it is offered up to the first prefix byte, and state and queue are what decoding the concatenation makes of them |
| `Keyboard.SplitIrrelevant` | kernel/src/drivers/keyboard.c:67-81 | two drivers that start alike and consume the same bytes end alike, however the bytes fall to interrupts |
| `Serial.Ports.Slot` | kernel/src/drivers/serial.c:14-25 | the record of the port, or the end of the list |
| `Serial.Ports.Upsert` | kernel/src/drivers/serial.c:27-45 | one record per port, appended or updated in place; no other record changes |
| `Serial.Ports.GetPort` | kernel/src/drivers/serial.c:83-94 | the cached lookup equals the list walk |

## Left out

- Port I/O, control registers, TLB flushes and all assembly: hardware effects; a flush is the identity here.
- UART, PIT, PIC, GDT and IDT programming: single-expression encodings and device behaviour.
- The early allocator `emm_alloc`: storage for regions, pools and lists is always available, so its exhaustion panic does not appear.
- `pmm_init` and the truncation of 64-bit memory-map values to 32 bits.
- Regions.Region.Free: takes the first page of a block only; on other pages the source acts on a stale header.
- Pmms.Pmm.Free: excludes aligned addresses inside a block, for the same reason.
- Pmms.Pmm.AddRegion: takes pages that no region has; the source does not check for overlap.
- Rings.InterruptedPop: the copy of an element is one access; a push may also tear the bytes of an element being copied.
- Nested page faults while the kernel writes to a page table outside its 4 MiB window.
- The positions of the bits inside a page-table entry: an entry is a record of named bits.
- `kmemset` and `kmemcpy` on bytes: page clearing works a word at a time, ring elements and strings are copied as values.
- Null pointers passed to the cursor, ring and formatter functions: each returns false or 0 at once.
- Format arguments that do not match the format: undefined in C.
- Characters at or above 0x80 on the screen, and the hardware cursor.
- `keyboard_scancode_to_ascii`, `kprintf`, `kpanic`, boot information printing: tables and output plumbing.
- Linked lists of regions, boot regions, modules and serial records are sequences; walking to their end is an append.
