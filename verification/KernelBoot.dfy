/** kmemory_initialize: from the memory map to a running address-space manager. */
module KernelBoot {
  import opened Paging
  import opened AddressSpace
  import opened SharedSpaces
  import opened BlockSpec
  import opened BlockAllocators
  import opened VirtualMemory
  import opened SpaceRuns
  import opened BitWords
  import opened GrowthCost
  import opened KernelSpaces
  import opened HeapFrames
  import opened HeapTiles
  import opened KernelHeaps
  import HeapCalls

  /** A memory-map entry: 64-bit base and length; type 1 is usable memory. */
  datatype MmapEntry = MmapEntry(base: nat, length: nat, kind: int)

  /** The span an entry reserves: the casts keep the low 32 bits. */
  ghost function EntrySpan(e: MmapEntry): set<nat> {
    if e.kind == 1 then {} else Span(e.base % 0x1_0000_0000, e.length % 0x1_0000_0000)
  }

  ghost function ReservedBy(entries: seq<MmapEntry>): set<nat> {
    if entries == [] then {} else ReservedBy(entries[..|entries| - 1]) + EntrySpan(entries[|entries| - 1])
  }

  /** A block is reserved by the map exactly when some entry of a type other than 1 spans it. */
  lemma {:induction false} ReservedByIff(entries: seq<MmapEntry>, b: nat)
    ensures b in ReservedBy(entries) <==>
      exists k :: 0 <= k < |entries| && SpannedBy(entries[k], b)
    decreases |entries|
  {
    if entries != [] {
      hide EntrySpan, SpannedBy;
      var less, last := entries[..|entries| - 1], |entries| - 1;
      ReservedByIff(less, b);
      SpanOfEntry(entries[last], b);
      assert SpannedBy(entries[last], b) ==> b in ReservedBy(entries);
      assert forall k :: 0 <= k < last ==> entries[k] == less[k];
    }
  }

  lemma SpanOfEntry(e: MmapEntry, b: nat)
    ensures b in EntrySpan(e) <==> SpannedBy(e, b)
  {
    SpanIsFromStart(e.base % 0x1_0000_0000, e.length % 0x1_0000_0000);
  }

  ghost predicate SpannedBy(e: MmapEntry, b: nat) {
    var start, length := e.base % 0x1_0000_0000, e.length % 0x1_0000_0000;
    e.kind != 1 && start / 4096 <= b <= start / 4096 + length / 4096
  }

  lemma ReservedByOneMore(entries: seq<MmapEntry>, k: nat)
    requires k < |entries|
    ensures ReservedBy(entries[..k + 1]) == ReservedBy(entries[..k]) + EntrySpan(entries[k])
  {
    assert entries[..k + 1][..k] == entries[..k];
  }

  lemma NothingReserved()
    ensures ReservedBy([]) == {}
  {
  }

  lemma ReservedBlocks(entries: seq<MmapEntry>)
    ensures forall b: nat :: b in ReservedBy(entries) <==>
      exists k :: 0 <= k < |entries| && entries[k].kind != 1
                  && entries[k].base % 0x1_0000_0000 / 4096 <= b
                  && b <= entries[k].base % 0x1_0000_0000 / 4096 + entries[k].length % 0x1_0000_0000 / 4096
  {
    forall b: nat
      ensures b in ReservedBy(entries) <==> exists k :: 0 <= k < |entries| && SpannedBy(entries[k], b)
    {
      ReservedByIff(entries, b);
    }
    assert forall b: nat, k :: 0 <= k < |entries| ==> (SpannedBy(entries[k], b) <==>
      && entries[k].kind != 1 && entries[k].base % 0x1_0000_0000 / 4096 <= b
      && b <= entries[k].base % 0x1_0000_0000 / 4096 + entries[k].length % 0x1_0000_0000 / 4096);
  }

  /** The reserved regions lie inside the bitmap. */
  ghost predicate InsideBitmap(e: MmapEntry, bits: nat) {
    e.kind != 1 ==> e.base % 0x1_0000_0000 / BLOCK_SIZE + e.length % 0x1_0000_0000 / BLOCK_SIZE < bits
  }

  /** Lines 59-60, for one entry. */
  method ReserveEntry(balloc: BlockAllocator, e: MmapEntry)
    requires balloc.Valid() && InsideBitmap(e, balloc.Bits())
    modifies balloc, balloc.bmp
    ensures balloc.Valid() && balloc.used == old(balloc.used) + EntrySpan(e)
  {
    hide Marked, CounterFor, Span, Step;
    if e.kind != 1 {
      balloc.InitRegion(e.base % 0x1_0000_0000, e.length % 0x1_0000_0000);
    }
  }

  /** The loop over the memory map; false stands for the panic on an empty map. */
  method ReserveRegions(balloc: BlockAllocator, entries: seq<MmapEntry>) returns (ok: bool)
    requires balloc.Valid() && forall k :: 0 <= k < |entries| ==> InsideBitmap(entries[k], balloc.Bits())
    modifies balloc, balloc.bmp
    ensures ok <==> entries != []
    ensures balloc.Valid() && balloc.used == old(balloc.used) + ReservedBy(entries)
    ensures forall b: nat :: b in balloc.used <==>
      || b in old(balloc.used)
      || exists k :: 0 <= k < |entries| && entries[k].kind != 1
                  && entries[k].base % 0x1_0000_0000 / 4096 <= b
                  && b <= entries[k].base % 0x1_0000_0000 / 4096 + entries[k].length % 0x1_0000_0000 / 4096
  {
    hide Marked, CounterFor, Span, InsideBitmap, ReservedBy, EntrySpan;
    ReservedBlocks(entries);
    ok := entries != [];
    ghost var was := balloc.used;
    NothingReserved();
    assert entries[..0] == [];
    var k := 0;
    while k < |entries|
      invariant 0 <= k <= |entries| && balloc.Valid()
      invariant balloc.used == was + ReservedBy(entries[..k])
    {
      ReservedByOneMore(entries, k);
      ReserveEntry(balloc, entries[k]);
      k := k + 1;
    }
    assert entries[..k] == entries;
  }

  /** The blocks in use when the address-space manager starts. */
  ghost function BootUsed(kernelStart: nat, kernelSize: nat, bits: nat, entries: seq<MmapEntry>): set<nat> {
    Span(0, 0x100000) + Span(kernelStart, kernelSize + bits) + ReservedBy(entries)
  }

  /** What the machine must offer: the kernel and every reserved region lie inside the bitmap, the
      first free block lies in the first 4 MB, which are identity-mapped, and one more is left for
      the temporary page's table. */
  ghost predicate BootFits(memorySize: nat, kernelStart: nat, kernelSize: nat, entries: seq<MmapEntry>) {
    var bits := BitmapBits(memorySize);
    && kernelSize + bits < 0x1_0000_0000 && 256 < bits
    && kernelStart / 4096 + (kernelSize + bits) / 4096 < bits
    && (forall k :: 0 <= k < |entries| ==> InsideBitmap(entries[k], bits))
    && var used := BootUsed(kernelStart, kernelSize, bits, entries);
       var n := LowestClear(used, 0, bits);
       0 < n < 1024 && LowestClear(used + {n}, 0, bits) != 0
  }

  /** kmemory_initialize on the boot tables; false stands for either panic. */
  method KmemoryInitialize(memorySize: nat, kernelStart: nat, kernelSize: nat, entries: seq<MmapEntry>,
                           bootRam: Ram, ghost stack: nat) returns (ok: bool, mmu: Mmu?)
    requires memorySize < 0x1_0000_0000 && kernelStart < 0x1_0000_0000
    requires memorySize != 0 ==> BootFits(memorySize, kernelStart, kernelSize, entries)
    requires BootLayout(bootRam, stack)
    ensures ok <==> memorySize != 0 && entries != []
    ensures ok ==> mmu != null && fresh(mmu) && fresh(mmu.balloc) && fresh(mmu.balloc.bmp)
    ensures ok ==>
      var used := BootUsed(kernelStart, kernelSize, BitmapBits(memorySize), entries);
      var n := LowestClear(used, 0, BitmapBits(memorySize));
      && mmu.Valid() && mmu.Dir() == n && mmu.balloc.used == used + {n}
      && mmu.FlatMap() == Flat(bootRam, BOOT_DIR) && mmu.balloc.Bits() == BitmapBits(memorySize)
      && 0 < n && n !in used && forall b: nat :: b < n ==> b in used
    ensures ok ==> Span(0, 0x100000) <= BootUsed(kernelStart, kernelSize, BitmapBits(memorySize), entries)
    ensures ok ==> forall b: nat :: b in mmu.balloc.used <==>
      || b == mmu.Dir()
      || b <= 256
      || kernelStart / 4096 <= b <= kernelStart / 4096 + (kernelSize + 32 * (memorySize / 4096 / 32 + 1)) / 4096
      || exists k :: 0 <= k < |entries| && entries[k].kind != 1
                  && entries[k].base % 0x1_0000_0000 / 4096 <= b
                  && b <= entries[k].base % 0x1_0000_0000 / 4096 + entries[k].length % 0x1_0000_0000 / 4096
  {
    hide Marked, CounterFor, Span, GoodSpace, BootLayout, ReservedBy, InsideBitmap, Flat, PageAt, LowestClear,
         BootUsed, BitmapBits;
    UsedAtBoot(memorySize, kernelStart, kernelSize, entries);
    if memorySize == 0 {
      return false, null;
    }
    var balloc := new BlockAllocator(memorySize, kernelStart, kernelSize);
    assert balloc.Bits() == BitmapBits(memorySize);
    ok := ReserveRegions(balloc, entries);
    assert balloc.used == BootUsed(kernelStart, kernelSize, BitmapBits(memorySize), entries);
    mmu := new Mmu(balloc, bootRam, 0x7F000);
    if !ok {
      return;
    }
    StartsInitialized(mmu, stack, BootUsed(kernelStart, kernelSize, BitmapBits(memorySize), entries));
    var r := mmu.Initialize();
    ok := r == 0;
  }

  /** After kmemory_initialize, no run of the block allocator that never releases a block which an entry
      of the memory map reserves hands that block out. */
  method BootThenRun(memorySize: nat, kernelStart: nat, kernelSize: nat, entries: seq<MmapEntry>, bootRam: Ram,
                     ghost stack: nat, ghost run: seq<BlockSpec.Op>, ghost k: nat, ghost b: nat)
    returns (ok: bool, mmu: Mmu?)
    requires memorySize < 0x1_0000_0000 && kernelStart < 0x1_0000_0000
    requires memorySize != 0 ==> BootFits(memorySize, kernelStart, kernelSize, entries)
    requires BootLayout(bootRam, stack)
    requires k < |entries| && entries[k].kind != 1
    requires
      var start, length := entries[k].base % 0x1_0000_0000, entries[k].length % 0x1_0000_0000;
      start / 4096 <= b <= start / 4096 + length / 4096
    requires forall j :: 0 <= j < |run| ==> !Releases(run[j], b)
    ensures ok <==> memorySize != 0
    ensures ok ==> mmu != null && mmu.Valid() && b * 4096 !in Handed(mmu.balloc.used, mmu.balloc.Bits(), run)
  {
    hide BootFits, BootLayout, Flat, BootUsed, BitmapBits, LowestClear, Mmu.Valid;
    ok, mmu := KmemoryInitialize(memorySize, kernelStart, kernelSize, entries, bootRam, stack);
    if ok {
      HeldBlockIsNeverHanded(mmu.balloc.used, mmu.balloc.Bits(), run, b);
    }
  }

  /** The blocks in use before the address-space manager takes one, by number. */
  lemma UsedAtBoot(memorySize: nat, kernelStart: nat, kernelSize: nat, entries: seq<MmapEntry>)
    ensures BitmapBits(memorySize) == 32 * (memorySize / 4096 / 32 + 1)
    ensures forall b: nat :: b in BootUsed(kernelStart, kernelSize, BitmapBits(memorySize), entries) <==>
      || b <= 256
      || kernelStart / 4096 <= b <= kernelStart / 4096 + (kernelSize + BitmapBits(memorySize)) / 4096
      || exists k :: 0 <= k < |entries| && entries[k].kind != 1
                  && entries[k].base % 0x1_0000_0000 / 4096 <= b
                  && b <= entries[k].base % 0x1_0000_0000 / 4096 + entries[k].length % 0x1_0000_0000 / 4096
  {
    hide ReservedBy, Span;
    ReservedBlocks(entries);
    SpanIsFromStart(0, 0x100000);
    SpanIsFromStart(kernelStart, kernelSize + BitmapBits(memorySize));
  }

  lemma StartsInitialized(mmu: Mmu, stack: nat, used: set<nat>)
    requires mmu.balloc.Valid() && mmu.balloc.used == used && Span(0, 0x100000) <= used
    requires mmu.cr3 == 0x7F000 && BootLayout(mmu.ram, stack)
    requires var n := LowestClear(used, 0, mmu.balloc.Bits());
      0 < n < 1024 && LowestClear(used + {n}, 0, mmu.balloc.Bits()) != 0
    ensures mmu.CanInitialize() && TEMP_PAGE !in mmu.RootMap() && mmu.Root() == BOOT_DIR
    ensures var n := LowestClear(used, 0, mmu.balloc.Bits()); n !in used && forall b: nat :: b < n ==> b in used
  {
    hide Marked, CounterFor, Span, GoodSpace, BootLayout, Flat, PageAt, LowestClear;
    LowestClearIsLowest(used, 0, mmu.balloc.Bits());
    BootIsGoodSpace(mmu.ram, stack, used);
    InFlat(mmu.ram, BOOT_DIR, TEMP_PAGE);
    InFlat(mmu.ram, BOOT_DIR, LowestClear(used, 0, mmu.balloc.Bits()));
  }

  /** The blocks left when the kernel heap starts. */
  ghost function LeftAtBoot(memorySize: nat, kernelStart: nat, kernelSize: nat, entries: seq<MmapEntry>): int {
    BitmapBits(memorySize) - |BootUsed(kernelStart, kernelSize, BitmapBits(memorySize), entries)| - 1
  }

  /** kmemory_initialize, then kspace_initialize: the kernel starts with a healthy, empty heap. The
      pool must not hold one block more than some number of full heap tables with their pages. */
  method BootHeap(memorySize: nat, kernelStart: nat, kernelSize: nat, entries: seq<MmapEntry>,
                  bootRam: Ram, kernelEnd: Word, base: nat, reading: Reading, ghost stack: nat)
    returns (ok: bool, heap: KernelHeap?)
    requires memorySize < 0x1_0000_0000 && kernelStart < 0x1_0000_0000
    requires memorySize != 0 ==>
      && BootFits(memorySize, kernelStart, kernelSize, entries)
      && !OneBeyondTables(LeftAtBoot(memorySize, kernelStart, kernelSize, entries))
    requires BootLayout(bootRam, stack)
    requires 0 < base && base + HEADER <= 0xD0000000
    ensures ok <==> memorySize != 0 && entries != [] && LeftAtBoot(memorySize, kernelStart, kernelSize, entries) != 0
    ensures ok ==> heap != null && heap.Valid() && heap.tiles == [] && heap.reading == reading
    ensures ok ==> heap.freeHdr == 0 && heap.space.kernelBreak == 0xD0000000
    ensures ok ==>
      var mmu := heap.space.mmu;
      fresh(heap) && fresh(heap.space) && fresh(mmu) && fresh(mmu.balloc) && fresh(mmu.balloc.bmp)
    ensures ok ==> heap.space.Healthy() && heap.space.Synced()
  {
    hide Marked, CounterFor, Span, GoodSpace, BootLayout, ReservedBy, InsideBitmap, Flat, PageAt, LowestClear,
         NeverStarved, HeapFramesOwned, HasTable, BootUsed, BitmapBits, OneBeyondTables, Mmu.Valid, BootFits;
    heap := null;
    var mmu;
    ok, mmu := KmemoryInitialize(memorySize, kernelStart, kernelSize, entries, bootRam, stack);
    if !ok {
      return;
    }
    StartsSustained(mmu, bootRam, stack, BootUsed(kernelStart, kernelSize, BitmapBits(memorySize), entries));
    var space := new KernelSpace(mmu, kernelEnd);
    ok := space.InitializeSpace();
    if ok {
      space.HeapCoversBreak();
      heap := new KernelHeap(space, base, reading);
    }
  }

  /** The kernel's own first request, kernel_alloc (255), on the heap that the initializers leave. As
      compiled it takes two regions of 1024 bytes and cuts the block from the first; in bytes the regions
      are one block. */
  method BootAndAsk(memorySize: nat, kernelStart: nat, kernelSize: nat, entries: seq<MmapEntry>,
                    bootRam: Ram, kernelEnd: Word, base: nat, reading: Reading, ghost stack: nat)
    returns (ok: bool, heap: KernelHeap?, r: Word)
    requires memorySize < 0x1_0000_0000 && kernelStart < 0x1_0000_0000
    requires memorySize != 0 ==>
      && BootFits(memorySize, kernelStart, kernelSize, entries)
      && !OneBeyondTables(LeftAtBoot(memorySize, kernelStart, kernelSize, entries))
    requires BootLayout(bootRam, stack)
    requires 0 < base && base + HEADER <= 0xD0000000
    ensures ok <==> memorySize != 0 && entries != [] && LeftAtBoot(memorySize, kernelStart, kernelSize, entries) != 0
    ensures ok ==> heap != null && heap.Valid() && heap.space.Healthy() && heap.space.kernelBreak == 0xD0000800
    ensures ok ==> r == if reading.AsCompiled? then 0xD0000301 else 0xD0000701
  {
    hide BootFits, BootLayout, LeftAtBoot, OneBeyondTables, KernelHeap.Valid, KernelSpace.Healthy;
    r := 0;
    ok, heap := BootHeap(memorySize, kernelStart, kernelSize, entries, bootRam, kernelEnd, base, reading, stack);
    if ok {
      r := HeapCalls.FirstRequest(heap);
    }
  }

  /** What kspace_initialize needs, from what kmemory_initialize leaves. */
  lemma StartsSustained(mmu: Mmu, bootRam: Ram, stack: nat, used: set<nat>)
    requires mmu.Valid() && BootLayout(bootRam, stack) && Span(0, 0x100000) <= used
    requires mmu.FlatMap() == Flat(bootRam, BOOT_DIR)
    requires mmu.balloc.used == used + {LowestClear(used, 0, mmu.balloc.Bits())}
    requires LowestClear(used, 0, mmu.balloc.Bits()) > 0
    requires !OneBeyondTables(mmu.balloc.Bits() - |used| - 1)
    ensures mmu.balloc.Clear() == mmu.balloc.Bits() - |used| - 1 && mmu.balloc.Clear() != 1
    ensures forall p: nat :: START_PAGE <= p < MAX_PAGE + 1 ==> p !in mmu.FlatMap()
    ensures NeverStarved(mmu.ram, mmu.Dir(), mmu.balloc.Clear(), START_PAGE, MAX_PAGE + 1)
  {
    hide Marked, CounterFor, Span, GoodSpace, BootLayout, Flat, PageAt, LowestClear, NeverStarved, HasTable,
         OneBeyondTables;
    OneMore(used, mmu.balloc.Bits());
    mmu.balloc.NullMeansNoneClear();
    OneTooMany(mmu.balloc.Clear());
    FreshRegion(mmu.ram, mmu.Dir(), mmu.balloc.used, bootRam, stack, used, mmu.balloc.Clear());
  }

  lemma OneMore(used: set<nat>, bits: nat)
    requires LowestClear(used, 0, bits) > 0
    ensures |used + {LowestClear(used, 0, bits)}| == |used| + 1
  {
    LowestClearIsLowest(used, 0, bits);
  }

  lemma OneTooMany(left: int)
    ensures !OneBeyondTables(left) ==> left != 1
  {
  }

  /** Translating as the boot tables do, the heap region is empty and needs all its tables. */
  lemma FreshRegion(ram: Ram, dir: int, held: set<nat>, bootRam: Ram, stack: nat, used: set<nat>, clear: nat)
    requires IsFrame(dir) && GoodSpace(ram, dir, held) && Flat(ram, dir) == Flat(bootRam, BOOT_DIR)
    requires BootLayout(bootRam, stack) && Span(0, 0x100000) <= used
    ensures forall p: nat :: START_PAGE <= p < MAX_PAGE + 1 ==> p !in Flat(ram, dir)
    ensures NeverStarved(ram, dir, clear, START_PAGE, MAX_PAGE + 1) <==> !OneBeyondTables(clear)
  {
    hide Span, GoodSpace, BootLayout, Flat, PageAt, NeverStarved, HasTable;
    BootIsGoodSpace(bootRam, stack, used);
    forall p: nat | START_PAGE <= p < MAX_PAGE + 1
      ensures p !in Flat(ram, dir)
    {
      InFlat(bootRam, BOOT_DIR, p);
    }
    UnmappedRegionHasNoTables(ram, dir, held);
    FreshPoolNeverStarved(ram, dir, clear);
  }
}
