# The kernel's memory stack, verified

A Dafny model of the memory management of the MISSY kernel, with proofs. Five layers rest on one
another, each against the simple view it must agree with:

| layer | modules | abstract view |
|---|---|---|
| frame allocator (`balloc.c`) | `BitWords`, `BlockSpec`, `BlockAllocators` | a set of blocks in use |
| page tables (`memory_virt.c`) | `Paging`, `AddressSpace`, `SharedSpaces`, `VirtualMemory`, `SpaceRuns`, `SharedRuns` | a partial map from page number to frame |
| heap break (`kmemory.c`) | `ByteMemory`, `HeapFrames`, `FrameOwners`, `GrowthCost`, `KernelSpaces`, `KernelBoot` | the break, the pages under it, their bytes, and what a growth costs |
| kernel heap (`kalloc.c`) | `HeapTiles`, `HeapLists`, `HeapSearch`, `LiveBlocks`, `WrittenFree`, `KernelHeaps`, `HeapRuns`, `HeapCalls` | a row of blocks laid side by side |
| number text (`itoa_s.c`, `strtol.c`) | `NumberSpec`, `NumberRoutines` | natural numbers |

The layers are stacked for real. `KernelHeap` keeps every header but the static one in kernel
memory: it reads and writes them, on word boundaries or not, through `KernelSpace.Peek` and `Poke`,
which are byte-wise loads and stores of `Mmu`, which walks a two-level page table held in a physical
memory of 2^20 frames (section 4.3 of the Intel SDM, Volume 3A). `Mmu` edits those tables only through
the virtual addresses of the self-referencing directory entry, and takes table frames from
`BlockAllocator`, whose bitmap is an array of 32-bit words.

Each class carries a `Valid()` that ties its fields to the abstract view; each method's contract
gives its new state as a function of the old one, and the lemmas beside it say what those functions
mean.

- A heap is `Valid` when the row of blocks tiles the bytes from 0xD0000000 to the break, each block has
  room for its header, every live header holds its block's size, memory links the static header and
  the free blocks into one circle in address order, and `free_hdr` is a member of it; in the byte
  reading, moreover, no two free blocks touch.
- An address space is a `GoodSpace` when the directory maps itself, each other present entry names a
  writable table of its own, no table is without a present entry, and the directory and all tables are
  non-null blocks whose bit is set.
- A kernel space is `Tidy` when, moreover, the heap frames are distinct held blocks apart from the
  tables, every heap page through the last one is mapped, and the rest of the region is unmapped; its
  `Tops` are the pages up to which the pool never runs down to its last block just where a page table is
  due (`NeverStarved`), and it is `Healthy` when that is the whole region. Growth, header writes,
  `kspace_brk`, `kspace_sbrk` and `kernel_alloc` all keep it tidy and take away no top.

## Two readings of `kernel_free`

Lines 101 and 109 of kalloc.c add a size in bytes to a header pointer, which C scales by eight; lines
69 and 136 use the same field as bytes. A `KernelHeap` carries its `reading` of the two lines, and every
method is proved for both.

- **As compiled**: every merge the two tests make is wrong (`EveryMergeIsWrong`), neighbours are never
  merged (`NeighboursStayApart`), and a hit puts bytes of a live block on the free list
  (`WrittenFreeCoversLiveIff`, `FreeListsLiveBytes`). A call of `kernel_free` leaves a valid heap if and only
  if neither test hits (`Free`), which is when the list is right unless neighbours should have merged
  (`WrittenListIsRightIff`). Calls of `kernel_alloc` and `kernel_free` keep the heap valid until the first hit
  (`Alloc`, `Free`, `Drive`), a caller can tell beforehand whether one is due (`FreeMisleads`,
  `TwoGrowthsMiss`), and blocks once cut apart are never joined again (`CompiledRunNeverJoins`).
- **In bytes**: neighbours merge, no test misleads, and the theorems about coalescing hold: the free list
  is determined by the free bytes, freeing everything leaves one block, and an allocation followed by
  its free restores the heap. Rows of the table that hold in this reading alone say "byte reading".

## What the proofs found

- As compiled, a `kernel_alloc` that finds no fit calls `morecore` exactly twice when it succeeds: the rover
  is left just before the new region, which therefore comes after it, and a full circle ends before
  the region is tried. The first of the two regions is carved. In the byte reading the same happens
  unless the heap's last block was free and takes the region over. If the second call is refused, NULL
  comes back with a fitting free block on the list. The first request, from an empty heap, is
  `FirstRequestCompared`; on the heap that the kernel boots with it gets 0xD0000301 as compiled and moves
  the break to 0xD0000800 (`BootAndAsk`).
- `kernel_alloc` for a size that is no multiple of the header size can spoil the list: the kernel itself
  asks for 255 bytes (kernel/kernel/kernel.c:151). The heap stays valid if and only if the first fit
  after the rover leaves nothing or at least eight bytes (`KernelHeap.Alloc`, `CarveKeepsTiling`), which a
  caller can find out beforehand (`LeavesRoomNext`); 255 bytes from a block of 264 do not
  (`OddRequestSpoilsSize`).
- `kspace_brk` answers 0 without moving the break when the target page lies below the last mapped
  page, which a growth that failed partway leaves. Two `kspace_sbrk` calls then return the same
  address (`StaleBreakHandsOutTwice`; `SuccessiveRangesApart` is the exact condition).
- `vmmngr_map_page` installs the block allocator's null answer as a table: the page is then mapped
  through frame 0, whose contents are lost (`EmptyPoolMapsThroughFrameZero`), and the space stays good if
  and only if the table was there or a block was (`MapKeepsGoodSpace`). On a fresh heap region, growth
  can meet this if and only if the pool starts with 1025 k + 1 blocks, k below 128
  (`FreshPoolNeverStarved`), and then does so at `GrowOnePage`.
- `vmmngr_create_address_space` leaves the temporary page mapped, so a second call returns -1
  (`Mmu.CreateAddressSpace`), and copies entry 1023 as it is, so the new space's window edits the
  directory it was copied from (`CreatedWindowEditsTheOriginal`).
- `vmmngr_switch_address_space` leaves `pdir_physical` alone, so the next map that succeeds goes into
  the directory that was left and loads it into cr3 again (`Mmu.SwitchThenMap`). The other space sees
  the page exactly if its own entry names the table that the page went into (`OtherSpaceAfterMap`).
- Spaces that share entries stay alike over any run that adds and frees no table under a shared entry
  (`RunSeenAlike`), and each single call keeps the entries shared exactly then (`StepKeepsSharerIff`). An
  unmap that frees a shared table leaves the other space naming a freed block; the next map that takes
  this block as a table shows its page there at a wrong address (`FreedTableComesBack`).
- `vmmngr_initialize` writes the last entry of the new directory through its physical address
  (memory_virt.c:96). The copy maps itself if and only if that page is identity-mapped, as the boot
  tables do for the first 4 MB; otherwise its window opens on the old directory
  (`CloneMapsItselfIff`, `Mmu.CloneInto`).
- `balloc_free` counts up whatever the bit was: the counter law survives if and only if the block was in
  use (`BlockAllocator.Free`). The counter is exact while no more bits are set than there are blocks;
  `balloc_init_region` and `balloc_get` may set bits past the end of memory (`FreeBlockCount`).
- A region call covers its whole region exactly when the remainders of start and length sum to at
  most one block (`SpanCoversRegion`); with an aligned start it takes at most one block too many.
- `strtol` holds 2^31 in a signed long (taken to wrap): after a minus sign it is right if and only if no
  digit follows 2^31 or the overflow flag still rises later (`ExactIff`); in an even base the digits so
  far are otherwise forgotten, so "-21474836480" reads as 0 without an error (`MinThenNumberReadsNumber`).
  Leading blanks take the character after them along (`SkipBlanks`), base 0 divides by zero unless an `O`
  comes first, and the end pointer stops at the last digit, not after it (`Strtol`).
- The `0x` prefix test in `strtol` compares a character plus one with `'x'` and never holds, so in
  base 16 it reads `0` and stops at the `x`; `itoa_s` prints `0` in any base above 16.

## What the model asks of its callers

- Region calls stay inside the bitmap, and `balloc_free` names a block that has a bit.
- A page to map is page-aligned and its directory index is not 1023.
- A `kernel_alloc` that has to grow the heap finds it able to: each region it can come to ask for wraps no
  address, starts from a break that is in step or catches up, meets no empty pool exactly at a page
  table, and misleads no compiled test when it is freed (`MayGrow`). One that fits asks for none of this.

## Model

| member | source | states |
|---|---|---|
| `KernelHeaps.KernelHeap.Alloc` | kernel/kernel/memory/kalloc.c:43-87 | in either reading and for a request of any size `kernel_alloc` ends after at most two calls of `morecore`, none if and only if some member holds size + 8 bytes; each region that is added moves the break by the least number that is at least 1024 and at least size + 16; it succeeds if and only if a member fits or the break can go far enough, for two regions as compiled; the answer is the tail of the first fit after the rover, every member passed on the way being too small, or, after a growth, of the first fresh block; the heap stays valid, so memory links the new row, if and only if the first fit leaves nothing or room for a header; no byte of another live block changes |
| `KernelHeaps.KernelHeap.SearchFrom` | kernel/kernel/memory/kalloc.c:57-83 | in either reading the `for(;;)` loop ends, and the header it unlinks through is at every step the current predecessor on the list, also after resuming from a merged-away header |
| `KernelHeaps.KernelHeap.TakeFrom` | kernel/kernel/memory/kalloc.c:60-75 | the fitting member is taken whole or loses its tail, the rover is left on its predecessor, and the heap stays valid if and only if the remainder is nothing or holds a header |
| `KernelHeaps.KernelHeap.TakeWhole` | kernel/kernel/memory/kalloc.c:63-64 | an exact fit leaves the list; the row keeps the block, now live; other live blocks keep every byte |
| `KernelHeaps.KernelHeap.TakeTail` | kernel/kernel/memory/kalloc.c:66-71 | for any size the tail becomes a live block and the head keeps its place; valid again if and only if the head still holds its header; no other live block is written either way |
| `LiveBlocks.OddRequestSpoilsSize` | kernel/kernel/memory/kalloc.c:66-71 | an input where it does not: 255 bytes from a block of 264 leave one byte, and the size written for it reads back as 67329 |
| `KernelHeaps.KernelHeap.EnsureList` | kernel/kernel/memory/kalloc.c:50-54 | the first call builds the circle of the zero-size static header alone; later calls leave the rover |
| `KernelHeaps.KernelHeap.GrowAndRestart` | kernel/kernel/memory/kalloc.c:78-83 | after a refusal nothing changed and enough was out of reach; after a growth in either reading the search stands before the static header again, with the fresh blocks, and only those, fitting |
| `KernelHeaps.KernelHeap.Morecore` | kernel/kernel/memory/kalloc.c:123-139 | succeeds exactly when the break can go to break + max(1024, size + 8), and then moves it there; the row gains that many bytes as one block freed in the heap's reading; the heap is valid again unless a compiled test hits, the returned header then links to the static one even if it was merged away, and no live byte changes |
| `KernelHeaps.KernelHeap.LinkFreed` | kernel/kernel/memory/kalloc.c:97-117 | on any linked heap, coalesced or not, and for either reading of the two additions: the search and both tests leave memory linking exactly the list those tests make, rover on the predecessor, every other live block untouched |
| `KernelHeaps.KernelHeap.Free` | kernel/kernel/memory/kalloc.c:92-118 | in either reading memory links the list that the two tests make, the rover is on the predecessor, every byte of every other live block is as before, and the heap is valid with the block freed, merged in bytes and alone as compiled, if and only if no compiled test hits: neither the block's address plus eight times its size, modulo 2^32, is the next member, nor the predecessor's the block |
| `KernelHeaps.KernelHeap.FreeHeader` | kernel/kernel/memory/kalloc.c:97-117 | the same by header address, as `morecore` uses it: a block at the heap's end is left linking to the static header |
| `KernelHeaps.KernelHeap.FreeMisleads` | kernel/kernel/memory/kalloc.c:97-109 | the search and both tests, nothing written, decide beforehand whether a free will leave a valid heap |
| `KernelHeaps.KernelHeap.TwoGrowthsMiss` | kernel/kernel/memory/kalloc.c:123-139 | a walk of the list decides whether two regions can be added without a hit |
| `KernelHeaps.KernelHeap.FindPredecessor` | kernel/kernel/memory/kalloc.c:97-99 | on any circular address-ordered list and any block not on it, from every starting member, the search ends at the predecessor in circular order, both wrap cases included |
| `KernelHeaps.KernelHeap.MergeRight` | kernel/kernel/memory/kalloc.c:101-107 | for either reading, memory holds the list less the member the test took over, the block's header ready to be linked in; only that header is written |
| `KernelHeaps.KernelHeap.MergeLeft` | kernel/kernel/memory/kalloc.c:109-115 | for either reading, memory links the list with the predecessor grown over the block, or with the block after it; only the predecessor's header is written |
| `WrittenFree.WrittenListIsRightIff` | kernel/kernel/memory/kalloc.c:101-115 | as compiled, the list after a free is the one it should be if and only if each scaled test agrees with its byte test, and that is if and only if all four fail |
| `WrittenFree.EveryMergeIsWrong` | kernel/kernel/memory/kalloc.c:101-115 | a scaled test never hits a neighbour |
| `WrittenFree.WrittenFreeMergesNothingIff` | kernel/kernel/memory/kalloc.c:101-115 | on any tiled row the compiled list is that of the row with the block freed alone if and only if neither test hits |
| `WrittenFree.WrittenFreeCoversLiveIff` | kernel/kernel/memory/kalloc.c:101-115 | a member of the compiled list overlaps another live block if and only if a test hits a member other than by wrapping round to the static header |
| `WrittenFree.HitLosesTheList` | kernel/kernel/memory/kalloc.c:101-115 | after a hit no memory that links the compiled list links the free blocks of the row |
| `WrittenFree.ListAfterReading` | kernel/kernel/memory/kalloc.c:101-115 | in either reading the list after a free is that of the row with the block freed in that reading if and only if no compiled test hits |
| `WrittenFree.GrowthMissesIff` | kernel/kernel/memory/kalloc.c:101-139 | freeing a new region hits if and only if the last member's scaled end is the end of the heap or the region's wraps round to the static header |
| `WrittenFree.NeighboursStayApart` | kernel/kernel/memory/kalloc.c:101-115 | an input: two neighbours freed one after the other stay two blocks |
| `WrittenFree.FreeListsLiveBytes` | kernel/kernel/memory/kalloc.c:101-107 | an input: 16 live, 112 live and 64 free bytes; freeing the first puts 80 bytes on the list, over the live block |
| `HeapLists.PredUnique` | kernel/kernel/memory/kalloc.c:97-99 | a block has at most one predecessor in circular address order |
| `HeapLists.PredExists` | kernel/kernel/memory/kalloc.c:97-99 | and it has one, whenever it is not itself a member |
| `HeapLists.SearchStopsAtPred` | kernel/kernel/memory/kalloc.c:97-99 | the two exit tests together hold at the predecessor and at no other member |
| `HeapLists.FreeListInOrder` | kernel/kernel/memory/kalloc.c:97-117 | the list of any tiled row is in strictly increasing address order from the static header, with room for headers |
| `HeapLists.FreeListSpaced` | kernel/kernel/memory/kalloc.c:97-117 | in the coalesced rows of the byte reading no two members touch |
| `HeapLists.LiveBlockPred` | kernel/kernel/memory/kalloc.c:97-99 | a live block's predecessor is the last free block before it in the row, or the static header |
| `HeapLists.LinesByBytes` | kernel/kernel/memory/kalloc.c:101-115 | with a step of one byte the two tests make the list that merging neighbours makes |
| `HeapLists.FreeListAfterFree` | kernel/kernel/memory/kalloc.c:101-117 | that list is the list of the row with the block freed and merged |
| `HeapLists.FreeListAfterCarve` | kernel/kernel/memory/kalloc.c:63-71 | unlinking or shrinking one member gives the list of the row with that block carved |
| `HeapLists.BlockOfMember` | kernel/kernel/memory/kalloc.c:60-75 | every member after the static header is a free block of the row, at the same place in the order |
| `HeapSearch.FullCircle` | kernel/kernel/memory/kalloc.c:78-81 | back at the rover without a fit means no member fits, or one region was added unmerged |
| `HeapSearch.PendingAfterMore` | kernel/kernel/memory/kalloc.c:78-83 | where rover and search stand after a growth in either reading, merged or not, and that only the fresh members fit |
| `HeapSearch.ListAfterGrowth` | kernel/kernel/memory/kalloc.c:123-139 | growth adds a member, or in bytes lengthens a last one that ends the heap, and leaves all others |
| `HeapTiles.CarveKeepsTiling` | kernel/kernel/memory/kalloc.c:63-71 | carving any number of bytes keeps the row tiled with room for every header if and only if it leaves nothing or at least a header |
| `HeapTiles.FreeKeepsTiling` | kernel/kernel/memory/kalloc.c:101-117 | in the byte reading freeing keeps the row gapless, without overlap, and fully coalesced |
| `HeapTiles.GrowKeepsTiling` | kernel/kernel/memory/kalloc.c:123-139 | growth at the end keeps the row gapless in either reading, and coalesced in the byte reading |
| `HeapTiles.FreeUndoesCarve` | kernel/kernel/memory/kalloc.c:63-117 | in the byte reading carving a block and freeing it again gives back the very same row |
| `HeapTiles.FreesSeparated` | kernel/kernel/memory/kalloc.c:101-117 | the free blocks of a coalesced row lie in address order with a gap between any two |
| `HeapTiles.TilesApart` | kernel/kernel/memory/kalloc.c:43-139 | two blocks of the row never overlap |
| `HeapRuns.RunKeepsHeapTiled` | kernel/kernel/memory/kalloc.c:43-139 | over any run of served, refused and freeing calls whose remainders leave room and whose tests miss, the blocks tile the heap exactly, free plus live bytes equal its size, and in the byte reading no free blocks touch |
| `HeapRuns.CompiledRunNeverJoins` | kernel/kernel/memory/kalloc.c:43-139 | as compiled, every block start stays a block start over any such run |
| `HeapRuns.FirstRequestCompared` | kernel/kernel/kernel.c:151 | the kernel's first request, for 255 bytes from an empty heap, in both readings: two regions apart, the first carved, against one block of 2048 |
| `HeapCalls.FirstRequest` | kernel/kernel/kernel.c:151 | `kernel_alloc (255)` on an empty heap in a healthy space: the pointer, the break and the whole row afterwards, in both readings |
| `HeapRuns.EveryByteHasOneBlock` | kernel/kernel/memory/kalloc.c:43-139 | each byte of the heap lies in exactly one block |
| `HeapRuns.FreeListIsCanonical` | kernel/kernel/memory/kalloc.c:97-117 | coalesced heaps with the same free bytes have the same free list, whatever their histories |
| `HeapRuns.FreeingAllLeavesOneBlock` | kernel/kernel/memory/kalloc.c:92-118 | in the byte reading freeing all live blocks in any order leaves the static header and one block over the whole heap |
| `HeapRuns.AllocThenFreeRestores` | kernel/kernel/memory/kalloc.c:63-117 | in the byte reading an allocation that did not grow, then its free, restores the heap |
| `HeapCalls.Drive` | kernel/kernel/memory/kalloc.c:43-118 | in either reading, any sequence of requests and returns, made by real calls up to the first that is refused, would leave no room, or would mislead a compiled test, is a possible run of those events, one for each request; memory still links the row that the run ends in, and the pointers still held are those of distinct live blocks |
| `HeapCalls.AllocIsOneEvent` | kernel/kernel/memory/kalloc.c:43-87 | in either reading a real call of `kernel_alloc` is one event, served exactly when a pointer comes back, and a possible one, the heap valid, if and only if the next fit leaves room; tidiness, tops and step are passed on |
| `HeapCalls.FreeIsOneEvent` | kernel/kernel/memory/kalloc.c:92-118 | in either reading a real call of `kernel_free` on a live block is one event, possible and leaving a valid heap if and only if no compiled test hits; tidiness and break are passed on |
| `HeapCalls.LeavesRoomNext` | kernel/kernel/memory/kalloc.c:57-75 | a walk of any linked list, coalesced or not, decides beforehand whether a request fits and will leave room |
| `KernelSpaces.KernelSpace.Brk` | kernel/kernel/memory/kmemory.c:91-138 | succeeds exactly when the target is in the region, the pool can pay for every new page and table, and nobody mapped one of the pages; then it costs exactly that, and a failed growth has spent the whole pool; in every outcome each page through the last one is mapped, old translations and all held memory outside the tables are unchanged, and tidiness and tops are kept |
| `KernelSpaces.KernelSpace.Sbrk` | kernel/kernel/memory/kmemory.c:143-155 | with the break in step or behind, and a pool that pays up to the target: returns the old break exactly when the target can be reached, moves it unless the target page lies below the last one, keeps all heap bytes, takes away no later target the pool pays for, and leaves every farther target exactly as reachable as it was |
| `KernelSpaces.KernelSpace.Grow` | kernel/kernel/memory/kmemory.c:111-131 | the page loop goes through exactly when the pool covers all pages and missing tables and the pages are unmapped; how far it got otherwise |
| `KernelSpaces.KernelSpace.GrowOnePage` | kernel/kernel/memory/kmemory.c:115-131 | one turn, in any valid state: one page on a frame of its own, one more block if a table was missing; a page mapped by others gives the block back; the state stays valid if and only if the table was there or the pool was not down to one block, and otherwise the new table is frame 0 |
| `KernelSpaces.KernelSpace.InitializeSpace` | kernel/kernel/memory/kmemory.c:72-86 | panics exactly on an empty pool; else the heap is its first page, break at its start, valid if and only if that page's table was there or could be paid for |
| `KernelSpaces.KernelSpace.StaleBreakHandsOutTwice` | kernel/kernel/memory/kmemory.c:104-155 | after any growth that runs the pool dry before its target, two requests within the break's page both return the same address |
| `KernelSpaces.SuccessiveRangesApart` | kernel/kernel/memory/kmemory.c:104-155 | two successful `kspace_sbrk` ranges are disjoint if and only if the first target page is not below the last mapped page |
| `KernelSpaces.AffordableAfterGrowth` | kernel/kernel/memory/kmemory.c:109-135 | growing in two steps reaches exactly the targets that one step reaches |
| `GrowthCost.CostSplits` | kernel/kernel/memory/kmemory.c:113-131 | pages and new tables of a growth are the sum over its two halves, tables shared by both counted once |
| `GrowthCost.NeverStarvedAfterGrowth` | kernel/kernel/memory/kmemory.c:113-131 | a growth leaves the rest of the region as safe from a missing table block as it was |
| `KernelSpaces.FreshPoolNeverStarved` | kernel/kernel/memory/kmemory.c:113-131 | on a fresh region growth can run dry just at a page table if and only if the pool holds 1025 k + 1 blocks, k below 128 |
| `FrameOwners.RunKeepsOwners` | kernel/kernel/memory/kmemory.c:113-131 | over any run of maps, unmaps and page growths whose tables can be paid for, no frame has two owners, each owned frame is a non-null block in use, and every heap page through the last one is mapped |
| `FrameOwners.StepKeepsSound` | kernel/kernel/memory/kmemory.c:113-131 | each single move keeps the kernel sound if and only if its table is there or can be paid for |
| `FrameOwners.SoundHasOneOwnerPerFrame` | kernel/kernel/memory/kmemory.c:113-131 | directory, any tables and any heap frames are pairwise distinct |
| `KernelSpaces.KernelSpace.OneOwnerPerFrame` | kernel/kernel/memory/kmemory.c:113-131 | in every valid state, however many tables and heap pages there are, no frame has two owners and each has its bitmap bit set |
| `HeapFrames.OwnershipAfterMap` | kernel/arch/i386/memory/memory_virt.c:152-186 | mapping any unmapped page keeps heap frames owned, apart from the tables, and untouched, even through a null table |
| `HeapFrames.OwnershipAfterUnmap` | kernel/arch/i386/memory/memory_virt.c:189-227 | so does unmapping any page outside the heap, even when it frees a table |
| `KernelSpaces.KernelSpace.MapElsewhere` | kernel/arch/i386/memory/memory_virt.c:152-186 | a map by anyone else is a move of the run model, keeps every heap byte, stays valid if and only if the table or a block is there, and healthy if and only if it moreover spares the heap's pages and its tables' blocks |
| `KernelSpaces.KernelSpace.UnmapElsewhere` | kernel/arch/i386/memory/memory_virt.c:189-227 | an unmap by anyone else, outside the heap, is one too, stays valid, and says exactly when it stays healthy |
| `KernelSpaces.KernelSpace.Poke` | kernel/kernel/memory/kalloc.c:68-70 | a header word written at any heap address changes its four bytes only, no translation, and not what the break can reach |
| `HeapFrames.HeapMemAfterPut` | kernel/kernel/memory/kalloc.c:68-70 | distinct heap addresses live in distinct bytes of physical memory |
| `KernelBoot.ReserveRegions` | kernel/kernel/memory/kmemory.c:51-62 | a block is in use afterwards if and only if it was before or some entry of a type other than 1 spans it, from the block of its start through length / 4096 blocks on, on the low 32 bits; an empty map panics |
| `KernelBoot.KmemoryInitialize` | kernel/kernel/memory/kmemory.c:41-68 | from the boot tables: a valid manager on the first free block as directory, all translations kept; in use are exactly that block, blocks 0 to 256, the kernel with its bitmap, and what the map reserves; panics exactly on no memory or no map |
| `KernelBoot.BootThenRun` | kernel/kernel/memory/kmemory.c:51-62 | after that, no allocator run that never releases a block reserved by the map hands it out |
| `KernelBoot.BootHeap` | kernel/kernel/kernel.c:98-99 | the two initializers in turn leave a healthy kernel space and an empty valid heap of either reading, so every later contract can be met; panics exactly on no memory, no map, or no block left |
| `KernelBoot.BootAndAsk` | kernel/kernel/kernel.c:98-151 | the initializers and that request in turn: as compiled the answer is 0xD0000301 with the break at 0xD0000800 |
| `VirtualMemory.Mmu.MapPage` | kernel/arch/i386/memory/memory_virt.c:152-186 | from any state in which the window opens on the manager's directory, switched or not: refines insertion into the flat map, or returns -1 and changes nothing; the table frame is whatever the block allocator answered; valid afterwards if and only if the table or a block was there and cr3 is the manager's directory, which a successful map loads |
| `VirtualMemory.Mmu.MapIntoNewTable` | kernel/arch/i386/memory/memory_virt.c:172-180 | entry, zeroing and page entry written through the window make the answered frame, null included, a table with that one entry |
| `VirtualMemory.Mmu.UnmapPage` | kernel/arch/i386/memory/memory_virt.c:189-227 | from the same states refines removal: returns the frame that was mapped or 0, frees the table exactly when it has no present entry left, and ends on the manager's directory |
| `VirtualMemory.Mmu.TableIsIdle` | kernel/arch/i386/memory/memory_virt.c:207-215 | the scan finds exactly whether any entry is present |
| `VirtualMemory.Mmu.DropIdleTable` | kernel/arch/i386/memory/memory_virt.c:217-218 | the freed block is the one the entry named, and only that entry is cleared |
| `VirtualMemory.Mmu.ZeroTable` | kernel/arch/i386/memory/memory_virt.c:178 | clearing through the window clears that table's frame and no other |
| `VirtualMemory.Mmu.Initialize` | kernel/arch/i386/memory/memory_virt.c:77-107 | moves to a copy on a fresh block whose last entry is its own address + 3 and whose others, that of the temporary page's table aside, are the old directory's; keeps every translation outside the window, costs one block net, and touches no other held memory; -1 and no move if the temporary page 0xCFFFF was mapped |
| `VirtualMemory.Mmu.CreateAddressSpace` | kernel/arch/i386/memory/memory_virt.c:112-136 | the new directory repeats entries 0-255 and 768-1023 and keeps its others, so pages below 0x40000 and from 0xC0000 up to the window translate alike; the temporary page 0xCFFFF stays mapped, other held memory stays as it was |
| `VirtualMemory.Mmu.CopyEntries` | kernel/arch/i386/memory/memory_virt.c:127-132 | the copying loops through the temporary page write those entries of the new directory and nothing else |
| `VirtualMemory.Mmu.CloneInto` | kernel/arch/i386/memory/memory_virt.c:92-96 | the copy goes to the new directory's frame, and its last entry to whatever frame the page at its physical address maps |
| `VirtualMemory.Mmu.SwitchAddressSpace` | kernel/arch/i386/memory/memory_virt.c:141-149 | going to a created space leaves the shared pages' translations, and the window open on the manager's directory, so the state stays editable; going back to that directory makes it valid again |
| `VirtualMemory.Mmu.SwitchThenMap` | kernel/arch/i386/memory/memory_virt.c:141-186 | after a switch to a created space, a map goes into the directory that was left and, if it succeeds, loads that one into cr3 again; what the created space then translates the page to, by the table its own entry names; under a shared entry the two spaces stay alike exactly when the table was there |
| `VirtualMemory.Mmu.VirtualToPgidx` | kernel/arch/i386/memory/memory_virt.c:232-241 | table and entry index are quotient and remainder of the page number by 1024 |
| `Paging.WindowLandsOnTables` | kernel/arch/i386/memory/memory_virt.c:160-176 | through a window on directory d, seen from d or from a directory whose entry 1023 names d, 0xFFC00000 + 0x1000 i + 4 j walks to word j of d's table i, is unmapped without such a table, and 0xFFFFF000 + 4 i walks to d's entry i |
| `Paging.EntryParts` | kernel/arch/i386/memory/memory_virt.c:24-25 | bit 0 of an entry is present, bit 1 writable, and the frame lies above the 12 flag bits |
| `AddressSpace.MapInsertsOnePage` | kernel/arch/i386/memory/memory_virt.c:152-186 | the edited tables translate one more page, and no other differently, null table or not |
| `AddressSpace.MapWritesEntry` | kernel/arch/i386/memory/memory_virt.c:157-180 | the page's entry is phys + 3, a new table's is its address + 3 and its other words 0, no other directory entry changes, and only a new table's block joins those in use |
| `AddressSpace.MapKeepsGoodSpace` | kernel/arch/i386/memory/memory_virt.c:152-186 | mapping keeps self-reference, distinct tables, no idle table, and all of them non-null and held, if and only if the table was there or the block for it was not null |
| `AddressSpace.EmptyPoolMapsThroughFrameZero` | kernel/arch/i386/memory/memory_virt.c:172-180 | with no block left and no table, the page is mapped through frame 0, whose contents are replaced, and the space is no longer good |
| `AddressSpace.UnmapRemovesOnePage` | kernel/arch/i386/memory/memory_virt.c:189-227 | the edited tables translate one page less, and no other differently, table freed or not |
| `AddressSpace.UnmapDropsIdle` | kernel/arch/i386/memory/memory_virt.c:201-219 | the table and its block stay if and only if another page under it is mapped; the words cleared are 0, and no other directory entry changes |
| `AddressSpace.UnmapKeepsGoodSpace` | kernel/arch/i386/memory/memory_virt.c:189-227 | unmapping keeps the space good |
| `AddressSpace.MapThenUnmapRestores` | kernel/arch/i386/memory/memory_virt.c:152-227 | mapping an unmapped page and unmapping it restores translations and blocks in use exactly |
| `SpaceRuns.RunRefinesFlatMap` | kernel/arch/i386/memory/memory_virt.c:152-227 | any run of maps and unmaps does to the flat view what the same run does to a plain map, and ends in a good space |
| `SpaceRuns.BootIsGoodSpace` | kernel/arch/i386/init/kboot.asm:133-211 | the boot tables are a good space, identity-mapping the first 4 MB, with temporary page and heap region unmapped |
| `SharedSpaces.CloneTranslatesAlike` | kernel/arch/i386/memory/memory_virt.c:92-96 | a directory copied with its last entry redirected to itself is a good space with the same flat view |
| `SharedSpaces.CloneMapsItselfIff` | kernel/arch/i386/memory/memory_virt.c:92-96 | the copied directory maps itself if and only if the page at its physical address is identity-mapped; else its window opens on the directory it was copied from |
| `SharedSpaces.MoveToClone` | kernel/arch/i386/memory/memory_virt.c:77-107 | map, copy, unmap under the copy: the view survives and one block is spent, table needed or not |
| `SharedSpaces.MoveKeepsHeld` | kernel/arch/i386/memory/memory_virt.c:77-107 | the same move leaves every held frame outside the tables as it was |
| `SharedSpaces.EntriesAfterMove` | kernel/arch/i386/memory/memory_virt.c:88-104 | after map, copy and unmap the new directory holds the old entries and itself |
| `SharedRuns.RunSeenAlike` | kernel/arch/i386/memory/memory_virt.c:112-227 | over any run of maps and unmaps that adds and frees no table under a shared entry, entries stay shared and both spaces translate every page under them alike |
| `SharedRuns.StepKeepsSharerIff` | kernel/arch/i386/memory/memory_virt.c:152-227 | one call keeps the other directory a sharer if and only if it does not add or free such a table |
| `SharedRuns.UnmapKeepsSharingIff` | kernel/arch/i386/memory/memory_virt.c:189-219 | an unmap keeps the entries shared if and only if it frees no table under one of them |
| `SharedRuns.MapKeepsSharingIff` | kernel/arch/i386/memory/memory_virt.c:152-186 | a map does if and only if its table is there or its entry is not shared |
| `SharedRuns.FreedTableComesBack` | kernel/arch/i386/memory/memory_virt.c:172-219 | after an unmap that frees a shared table, a map that takes the block as a table elsewhere shows its page in the other space at an address where nothing is mapped |
| `SharedSpaces.OtherSpaceAfterMap` | kernel/arch/i386/memory/memory_virt.c:152-186 | any other held directory, under shared and private entries alike, translates a mapped page to its new frame if its entry names the table the page went into, and otherwise as before |
| `SharedSpaces.MapSeenAlikeIffTableShared` | kernel/arch/i386/memory/memory_virt.c:157-180 | one map under a shared entry is seen alike right after it if and only if the table was already there |
| `SharedSpaces.UnmapSeenAlike` | kernel/arch/i386/memory/memory_virt.c:189-219 | one unmap is seen alike right after it, also when it frees the table |
| `SharedSpaces.CreatedWindowEditsTheOriginal` | kernel/arch/i386/memory/memory_virt.c:130-132 | through a created directory the window reaches the directory it was copied from |
| `BlockAllocators.BlockAllocator.constructor` | kernel/kernel/memory/balloc.c:53-82 | exactly blocks 0 to 256 and those of the kernel with its bitmap are in use, overlaps counted once |
| `BlockAllocators.BlockAllocator.InitRegion` | kernel/kernel/memory/balloc.c:87-103 | the blocks from start / 4096 through start / 4096 + length / 4096 join those in use, and no others; the counter stays total minus set bits, modulo 2^32 |
| `BlockAllocators.BlockAllocator.DeinitRegion` | kernel/kernel/memory/balloc.c:108-124 | the same blocks leave those in use, and no others; same counter law |
| `BlockAllocators.BlockAllocator.Get` | kernel/kernel/memory/balloc.c:128-139 | hands out the lowest clear block and marks it; null changes nothing |
| `BlockAllocators.BlockAllocator.Free` | kernel/kernel/memory/balloc.c:159-168 | clears the block's bit and counts up, whatever the bit was; the counter law holds afterwards if and only if the block was in use; null is ignored |
| `BlockAllocators.BlockAllocator.FreeN` | kernel/kernel/memory/balloc.c:172-181 | exactly the blocks from addr / 4096 on leave those in use, `count` of them, block 0 excepted when the address is null |
| `BlockAllocators.BlockAllocator.FirstFree` | kernel/kernel/memory/balloc.c:196-216 | the word-skipping scan finds what the bit-by-bit scan finds |
| `BlockAllocators.BlockAllocator.FirstFreeInUnit` | kernel/kernel/memory/balloc.c:204-211 | the inner loop finds the lowest clear bit of a word that is not full |
| `BlockAllocators.BlockAllocator.FreeBlockCount` | kernel/kernel/memory/balloc.c:185 | free count plus set bits is the total if and only if no more bits are set than there are blocks |
| `BlockAllocators.BlockAllocator.UsedBlockCount` | kernel/kernel/memory/balloc.c:186 | always the number of set bits |
| `BlockSpec.LowestClearIsLowest` | kernel/kernel/memory/balloc.c:196-216 | the scan returns a clear block with none clear below it, or 0 when all are set |
| `BlockSpec.SkipUsed` | kernel/kernel/memory/balloc.c:199-213 | skipping a stretch of set bits does not change the answer |
| `BlockSpec.GetFailsOnlyWhenFull` | kernel/kernel/memory/balloc.c:128-139 | with block 0 reserved, null means that every bit is set, and nothing else |
| `BlockSpec.PositiveCounterFindsBlock` | kernel/kernel/memory/balloc.c:128-139 | with no bit set past the end of memory and a positive counter, the block found lies in memory |
| `BlockSpec.HeldBlockIsNeverHanded` | kernel/kernel/memory/balloc.c:87-181 | no run hands out a block in use that the run never releases |
| `BlockSpec.ReleasesIff` | kernel/kernel/memory/balloc.c:108-181 | the calls said to release a block are those that take it out of use |
| `BlockSpec.ReservedRegionIsNeverHanded` | kernel/kernel/memory/kmemory.c:57-62 | in particular no block of a region reserved at boot |
| `BlockSpec.SpanIsFromStart` | kernel/kernel/memory/balloc.c:89-93 | for every start, aligned or not, a region call visits length / 4096 + 1 blocks, the first of them the block of start |
| `BlockSpec.SpanCoversRegion` | kernel/kernel/memory/balloc.c:87-103 | the span holds every byte of the region if and only if the remainders do not spill over |
| `BlockSpec.AlignedSpanHasOneSpareBlock` | kernel/kernel/memory/balloc.c:87-103 | with an aligned start exactly one block is spare when the length is a whole number of blocks, none otherwise |
| `BitWords.MarkedAfterUpdate` | kernel/kernel/memory/balloc.c:31-33 | setting or clearing a bit of a word changes the set of marked blocks by that block |
| `BitWords.FullWord` | kernel/kernel/memory/balloc.c:202 | a word equals 0xffffffff exactly when all 32 bits are set |
| `NumberRoutines.Libc.ItoaS` | libc/stdlib/itoa_s.c:20-50 | writes the digits of the number, most significant first and in 0-9 and a-f only, and a terminator; the rest of the destination is untouched; the 32-slot buffer is never overrun |
| `NumberRoutines.Libc.ExtractDigits` | libc/stdlib/itoa_s.c:36-41 | the division loop fills at most 32 slots with the digits reversed |
| `NumberRoutines.Libc.ReverseInto` | libc/stdlib/itoa_s.c:43-48 | the copying loop turns them round and terminates them |
| `NumberRoutines.Libc.Strtol` | libc/stdlib/strtol.c:22-131 | digits alone, or after a plus, read as their number or LONG_MAX, after a minus as its negative or LONG_MIN, with ERANGE (3) raised exactly when the number lies beyond, for runs of any length, unless a run after a minus goes on past 2^31 unflagged, when it is the wrapped accumulator; the same behind an `O` in base 0; a text that starts with `0x` reads as 0 in base 16; 0 and ERANGE for a base outside 2 to 36; the end pointer is the last digit |
| `NumberRoutines.Libc.DigitLoop` | libc/stdlib/strtol.c:78-112 | the loop leaves the wrapping accumulator and the sticky flag of the longest digit run, and says how far it read |
| `NumberRoutines.Libc.SkipBlanks` | libc/stdlib/strtol.c:38-40 | a text that starts with spaces or tabs continues after the first character that is neither; any other text is left as it is |
| `NumberRoutines.Libc.BlanksComeFirst` | libc/stdlib/strtol.c:38-75 | sign, prefix and digits behind blanks are those of the text that remains |
| `NumberSpec.ExactIff` | libc/stdlib/strtol.c:77-130 | accumulator and flag are those of the number, if and only if there is no minus sign, no proper prefix of the digits denotes 2^31, or the flag is raised |
| `NumberSpec.PassedDigitsAreForgotten` | libc/stdlib/strtol.c:101-109 | in an even base the digits up to 2^31 count for nothing once another follows |
| `NumberSpec.MinThenNumberReadsNumber` | libc/stdlib/strtol.c:101-130 | minus, the digits of 2^31 and further digits below it read as the negative of the further digits, without ERANGE |
| `NumberSpec.CutoffIsExact` | libc/stdlib/strtol.c:78-101 | the cutoff test fires exactly when one more digit would pass the limit |
| `NumberSpec.DigitsDenote` | libc/stdlib/itoa_s.c:13-41 | the printed digits denote the number, are digits of the base in 0-9 and a-f, and have no leading zero |
| `NumberSpec.DigitsCountUp` | libc/stdlib/strtol.c:89-94 | ten digits and both alphabets count up from 0 and from 10, and no other character is a digit |
| `NumberSpec.BufferBoundIsExact` | libc/stdlib/itoa_s.c:14-40 | 32 slots suffice in every base, and binary numbers from 2^31 on need all of them |
| `NumberSpec.ReadBackWhatWasPrinted` | libc/stdlib/strtol.c:77-130 | reading back what `itoa_s` printed gives min(n, LONG_MAX) if and only if the base is at most 16 or n is 0 |

## Left out

- KernelHeaps.KernelHeap.Alloc: growths outside `MayGrow`: a break that would wrap 32 bits, a target below the last mapped page after a growth that failed partway (`StaleBreakHandsOutTwice` says what `kspace_sbrk` does there), a pool that runs dry exactly at a page table, and what the search does with the list that a hit in `morecore` leaves (`Morecore` and `FreeHeader` say which list that is, and that it is not the row's).
- KernelSpaces.KernelSpace.Brk: whole growths that meet the pool's last block exactly at a missing table; `GrowOnePage` says what that one turn does, `NeverStarved` rules it out up to the target, is kept by every growth, and holds at boot exactly as `FreshPoolNeverStarved` says.
- VirtualMemory.Mmu.Initialize: an empty pool, and a directory block outside the identity-mapped memory; `Mmu.CloneInto` says what line 96 leaves in the latter.
- VirtualMemory.Mmu.CreateAddressSpace: an empty pool when the temporary page has no table; `MapPage` says what that call then does.
- BlockAllocators.BlockAllocator.FreeN: blocks not in use, for which `Free` gives the law, and an address range that runs past 32 bits.
- NumberRoutines.Libc.Strtol: base 0 without the `O` prefix, where line 79 divides by zero, and blanks that never end; signed overflow of the accumulator and of the last negation, undefined in C, wraps in two's complement.
- NumberRoutines.Libc.ItoaS: bases below 2, for which the C loop does not end or divides by zero.
- KernelSpaces.KernelSpace.UnmapElsewhere: an unmap of a page of the heap by other kernel code, which ends the heap.
- KernelBoot.KmemoryInitialize: machines whose first free block lies outside the low 4 MB or whose pool lacks a block for a table; the memory map and memory size come as arguments; Multiboot and ACPI table reading are not part of this model.
- VirtualMemory.Mmu.SwitchAddressSpace: switches to directories whose entry 1023 does not name the manager's directory; after such a switch the window would edit another directory.
- `balloc_get_n` and `block_alloc_first_free_n` (balloc.c:143-155 and :220-255): no caller, and the search mixes masks with indices, so the code settles no property.
- Placement of the bitmap behind the kernel (balloc.c:56-61 and :75): the bitmap is an array of its own, the kernel's range a parameter.
- The TLB, the timing of cr3 loads, accessed and dirty bits, large pages and privilege bits: the hardware walk is a function of memory and cr3.
- The boot assembly: its tables are an assumption about the initial memory.
- `kernel/arch/i386/memory/i386_memory.c`: an older copy of the break code that is not built.
- Terminal, keyboard, interrupt and descriptor-table set-up, devices, syscalls, string functions: device access or single steps.
