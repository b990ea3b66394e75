/** Counting what a growth of the kernel heap costs. */
module GrowthCost {
  import opened Paging

  /** Growing from page `first`: does page `p` need a page table of its own? */
  ghost predicate NeedsTable(ram: Ram, dir: int, first: nat, p: nat)
    requires IsFrame(dir) && p < 0xFFC00
  {
    !HasTable(ram, dir, p / 1024) && (p == first || p % 1024 == 0)
  }

  /** How many page tables the pages first .. hi - 1 need. */
  ghost function NewTables(ram: Ram, dir: int, first: nat, hi: nat): nat
    requires IsFrame(dir) && hi <= 0xFFC00
    decreases hi
  {
    if hi <= first then 0
    else NewTables(ram, dir, first, hi - 1) + (if NeedsTable(ram, dir, first, hi - 1) then 1 else 0)
  }

  /** Blocks taken by growing over pages first .. hi - 1: the pages and their tables. */
  ghost function Cost(ram: Ram, dir: int, first: nat, hi: nat): nat
    requires IsFrame(dir) && first <= hi <= 0xFFC00
  {
    hi - first + NewTables(ram, dir, first, hi)
  }

  /** With `clear` blocks left, growth up to page `top` never spends its last block on a page
      whose table is still missing. */
  ghost predicate NeverStarved(ram: Ram, dir: int, clear: int, first: nat, top: nat)
    requires IsFrame(dir) && top <= 0xFFC00
  {
    forall p: nat :: first <= p < top && NeedsTable(ram, dir, first, p) ==> clear - Cost(ram, dir, first, p) != 1
  }

  /** Where the table of page p was present or has been created on the way to `mid`. */
  ghost predicate TablesAfterGrowth(ram: Ram, ram': Ram, dir: int, first: nat, mid: nat)
    requires IsFrame(dir) && first <= mid <= 0xFFC00
  {
    forall i: Index :: i < 1023 ==>
      (HasTable(ram', dir, i) <==> HasTable(ram, dir, i) || (first < mid && first / 1024 <= i <= (mid - 1) / 1024))
  }

  lemma NeedsTableAfterGrowth(ram: Ram, ram': Ram, dir: int, first: nat, mid: nat, p: nat)
    requires IsFrame(dir) && first <= mid <= p < 0xFFC00 && TablesAfterGrowth(ram, ram', dir, first, mid)
    ensures NeedsTable(ram', dir, mid, p) <==> NeedsTable(ram, dir, first, p)
  {
    hide Present;
    var i: Index := p / 1024;
    assert p == 1024 * i + p % 1024;
  }

  lemma {:induction false} CostSplits(ram: Ram, ram': Ram, dir: int, first: nat, mid: nat, hi: nat)
    requires IsFrame(dir) && first <= mid <= hi <= 0xFFC00 && TablesAfterGrowth(ram, ram', dir, first, mid)
    ensures Cost(ram, dir, first, hi) == Cost(ram, dir, first, mid) + Cost(ram', dir, mid, hi)
    decreases hi
  {
    hide TablesAfterGrowth, NeedsTable;
    if mid < hi {
      CostSplits(ram, ram', dir, first, mid, hi - 1);
      NeedsTableAfterGrowth(ram, ram', dir, first, mid, hi - 1);
    }
  }

  lemma {:induction false} CostGrows(ram: Ram, dir: int, first: nat, mid: nat, hi: nat)
    requires IsFrame(dir) && first <= mid <= hi <= 0xFFC00
    ensures Cost(ram, dir, first, mid) + (hi - mid) <= Cost(ram, dir, first, hi)
    decreases hi
  {
    hide NeedsTable;
    if mid < hi {
      CostGrows(ram, dir, first, mid, hi - 1);
    }
  }

  /** The next page of a growth: what it costs, and why the pool is not down to one block. */
  lemma NextPage(ram: Ram, ram': Ram, dir: int, clear: int, first: nat, p: nat, top: nat)
    requires IsFrame(dir) && first <= p < top <= 0xFFC00 && TablesAfterGrowth(ram, ram', dir, first, p)
    requires NeverStarved(ram, dir, clear, first, top)
    ensures HasTable(ram', dir, p / 1024) || clear - Cost(ram, dir, first, p) != 1
    ensures var tables := if HasTable(ram', dir, p / 1024) then 0 else 1;
      Cost(ram, dir, first, p + 1) == Cost(ram, dir, first, p) + 1 + tables
  {
    hide Present;
    NeedsTableAfterGrowth(ram, ram', dir, first, p, p);
  }

  /** A growth that went part of the way leaves the rest of the way as safe as it was. */
  lemma NeverStarvedAfterGrowth(ram: Ram, ram': Ram, dir: int, clear: int, first: nat, mid: nat, top: nat)
    requires IsFrame(dir) && first <= mid <= top <= 0xFFC00 && TablesAfterGrowth(ram, ram', dir, first, mid)
    requires NeverStarved(ram, dir, clear, first, top)
    ensures NeverStarved(ram', dir, clear - Cost(ram, dir, first, mid), mid, top)
  {
    hide TablesAfterGrowth, NeedsTable, Cost;
    forall p: nat | mid <= p < top && NeedsTable(ram', dir, mid, p)
      ensures clear - Cost(ram, dir, first, mid) - Cost(ram', dir, mid, p) != 1
    {
      NeedsTableAfterGrowth(ram, ram', dir, first, mid, p);
      CostSplits(ram, ram', dir, first, mid, p);
    }
  }

  lemma {:induction false} CostSameDir(ram: Ram, ram': Ram, dir: int, first: nat, hi: nat)
    requires IsFrame(dir) && first <= hi <= 0xFFC00 && ram'[dir] == ram[dir]
    ensures Cost(ram', dir, first, hi) == Cost(ram, dir, first, hi)
    decreases hi
  {
    hide Present;
    if first < hi {
      CostSameDir(ram, ram', dir, first, hi - 1);
    }
  }

  lemma NeverStarvedSameDir(ram: Ram, ram': Ram, dir: int, clear: int, first: nat, top: nat)
    requires IsFrame(dir) && first <= top <= 0xFFC00 && ram'[dir] == ram[dir]
    requires NeverStarved(ram, dir, clear, first, top)
    ensures NeverStarved(ram', dir, clear, first, top)
  {
    hide Present, Cost;
    forall p: nat | first <= p < top && NeedsTable(ram', dir, first, p)
      ensures clear - Cost(ram', dir, first, p) != 1
    {
      CostSameDir(ram, ram', dir, first, p);
      assert NeedsTable(ram, dir, first, p);
    }
  }

  lemma NoTablesYet(ram: Ram, dir: int, first: nat)
    requires IsFrame(dir) && first <= 0xFFC00
    ensures TablesAfterGrowth(ram, ram, dir, first, first) && Cost(ram, dir, first, first) == 0
  {
  }

  lemma TablesAfterOneMore(ram: Ram, ram1: Ram, ram2: Ram, dir: int, first: nat, mid: nat)
    requires IsFrame(dir) && first <= mid < 0xFFC00 && TablesAfterGrowth(ram, ram1, dir, first, mid)
    requires forall i: Index :: i < 1023 ==> (HasTable(ram2, dir, i) <==> HasTable(ram1, dir, i) || i == mid / 1024)
    ensures TablesAfterGrowth(ram, ram2, dir, first, mid + 1)
  {
    hide Present;
    assert first < mid ==> mid / 1024 == (mid - 1) / 1024 || mid / 1024 == (mid - 1) / 1024 + 1;
  }
}

/** The kernel heap's break (kmemory.c), over the frame allocator and the page tables. */
module KernelSpaces {
  import opened Paging
  import opened AddressSpace
  import opened SharedSpaces
  import opened BlockSpec
  import opened VirtualMemory
  import opened GrowthCost
  import opened BitWords
  import opened ByteMemory
  import opened HeapFrames
  import FrameOwners

  const ENOMEM := 4

  /** Page `p` joined the heap, over a frame of its own, and no other translation changed. */
  ghost predicate OnePageMore(p: nat, heap: map<nat, nat>, flat: map<nat, Page>, heap': map<nat, nat>,
                              flat': map<nat, Page>) {
    && p !in heap && p !in flat && p in heap'
    && heap' == heap[p := heap'[p]]
    && flat' == flat[p := Page(heap'[p], true)]
  }

  /** The table of page p is there, and the others as before. */
  ghost predicate GainsTable(ram: Ram, ram': Ram, dir: int, p: nat)
    requires IsFrame(dir)
  {
    forall i: Index :: i < 1023 ==> (HasTable(ram', dir, i) <==> HasTable(ram, dir, i) || i == p / 1024)
  }

  /** What was mapped stays mapped alike, and the pages first .. hi - 1 join the heap, on frames
      of their own that they are mapped to; no other translation changed. */
  ghost predicate HeapGrew(first: nat, hi: nat, heap: map<nat, nat>, flat: map<nat, Page>, heap': map<nat, nat>,
                           flat': map<nat, Page>) {
    && heap'.Keys == heap.Keys + Interval(first, hi)
    && (forall p :: p in heap ==> heap'[p] == heap[p])
    && (forall p :: p in flat ==> p in flat' && flat'[p] == flat[p])
    && (forall p :: p in flat' && p !in flat ==> p in Interval(first, hi))
    && (forall p :: p in Interval(first, hi) ==> p in flat' && flat'[p] == Page(heap'[p], true))
    && (forall p :: p in Interval(first, hi) ==> p !in heap && p !in flat)
  }

  lemma HeapGrewByOne(first: nat, p: nat, heap: map<nat, nat>, flat: map<nat, Page>,
                      heap1: map<nat, nat>, flat1: map<nat, Page>, heap2: map<nat, nat>, flat2: map<nat, Page>)
    requires first <= p && HeapGrew(first, p, heap, flat, heap1, flat1) && OnePageMore(p, heap1, flat1, heap2, flat2)
    ensures HeapGrew(first, p + 1, heap, flat, heap2, flat2)
  {
    assert Interval(first, p + 1) == Interval(first, p) + {p};
  }

  lemma NothingGrew(first: nat, heap: map<nat, nat>, flat: map<nat, Page>)
    ensures HeapGrew(first, first, heap, flat, heap, flat)
  {
  }

  lemma RegionStaysFree(first: nat, hi: nat, heap: map<nat, nat>, flat: map<nat, Page>, heap': map<nat, nat>,
                        flat': map<nat, Page>)
    requires START_PAGE <= first <= hi && HeapGrew(first, hi, heap, flat, heap', flat')
    requires heap.Keys == Interval(START_PAGE, first) && forall p: nat :: first <= p < MAX_PAGE + 1 ==> p !in flat
    ensures heap'.Keys == Interval(START_PAGE, hi) && forall p: nat :: hi <= p < MAX_PAGE + 1 ==> p !in flat'
  {
  }

  /** The pages up to which a growth from page `first` never runs dry exactly at a page table. */
  ghost function TopsOf(ram: Ram, dir: int, clear: int, first: nat): iset<nat>
    requires IsFrame(dir)
  {
    iset top: nat | top <= MAX_PAGE + 1 && NeverStarved(ram, dir, clear, first, top)
  }

  /** A break at `addr`, if it lies in the region, is not past the last such page. */
  ghost predicate Pays(tops: iset<nat>, addr: nat) {
    addr <= 0xEFFFF000 ==> addr / 4096 + 1 in tops
  }

  /** A growth, all the way or until the pool is empty, takes away none of them. */
  lemma TopsAfterGrowth(ram: Ram, ram': Ram, dir: int, clear: int, first: nat, hi: nat, clear': int, ok: bool)
    requires IsFrame(dir) && first <= hi <= MAX_PAGE + 1
    requires ok ==> TablesAfterGrowth(ram, ram', dir, first, hi) && clear' == clear - Cost(ram, dir, first, hi)
    requires !ok ==> clear' == 0
    ensures TopsOf(ram, dir, clear, first) <= TopsOf(ram', dir, clear', hi)
  {
    hide TablesAfterGrowth, NeedsTable, Cost;
    forall top: nat | top <= MAX_PAGE + 1 && NeverStarved(ram, dir, clear, first, top)
      ensures NeverStarved(ram', dir, clear', hi, top)
    {
      if hi <= top {
        StillSustains(ram, ram', dir, clear, first, hi, clear', ok, top);
      }
    }
  }

  lemma StillSustains(ram: Ram, ram': Ram, dir: int, clear: int, first: nat, hi: nat, clear': int, ok: bool, top: nat)
    requires IsFrame(dir) && first <= hi <= top <= MAX_PAGE + 1 && NeverStarved(ram, dir, clear, first, top)
    requires ok ==> TablesAfterGrowth(ram, ram', dir, first, hi) && clear' == clear - Cost(ram, dir, first, hi)
    requires !ok ==> clear' == 0
    ensures NeverStarved(ram', dir, clear', hi, top)
  {
    hide TablesAfterGrowth, NeedsTable;
    if ok {
      NeverStarvedAfterGrowth(ram, ram', dir, clear, first, hi, top);
    }
  }

  lemma TopsSameDir(ram: Ram, ram': Ram, dir: int, clear: int, first: nat)
    requires IsFrame(dir) && ram'[dir] == ram[dir]
    ensures TopsOf(ram', dir, clear, first) == TopsOf(ram, dir, clear, first)
  {
    hide NeverStarved;
    forall top: nat | top <= MAX_PAGE + 1
      ensures NeverStarved(ram', dir, clear, first, top) <==> NeverStarved(ram, dir, clear, first, top)
    {
      NoneStarvedPast(ram, dir, clear, first, top);
      NoneStarvedPast(ram', dir, clear, first, top);
      if first <= top {
        if NeverStarved(ram, dir, clear, first, top) {
          NeverStarvedSameDir(ram, ram', dir, clear, first, top);
        }
        if NeverStarved(ram', dir, clear, first, top) {
          NeverStarvedSameDir(ram', ram, dir, clear, first, top);
        }
      }
    }
  }

  lemma NoneStarvedPast(ram: Ram, dir: int, clear: int, first: nat, top: nat)
    requires IsFrame(dir) && top <= 0xFFC00
    ensures top <= first ==> NeverStarved(ram, dir, clear, first, top)
  {
  }

  lemma FirstPageAffordable(ram: Ram, dir: int, clear: int)
    requires IsFrame(dir) && NeverStarved(ram, dir, clear, START_PAGE, MAX_PAGE + 1)
    ensures HasTable(ram, dir, START_PAGE / 1024) || clear != 1
  {
    hide HasTable;
    NoTablesYet(ram, dir, START_PAGE);
    NextPage(ram, ram, dir, clear, START_PAGE, START_PAGE, MAX_PAGE + 1);
  }

  lemma FirstPageSustains(ram: Ram, ram': Ram, dir: int, clear: int, clear': int)
    requires IsFrame(dir) && NeverStarved(ram, dir, clear, START_PAGE, MAX_PAGE + 1)
    requires forall i: Index :: i < 1023 ==>
      (HasTable(ram', dir, i) <==> HasTable(ram, dir, i) || i == START_PAGE / 1024)
    requires clear' == clear - 1 - (if HasTable(ram, dir, START_PAGE / 1024) then 0 else 1)
    ensures NeverStarved(ram', dir, clear', START_PAGE + 1, MAX_PAGE + 1)
  {
    hide HasTable, TablesAfterGrowth, NeverStarved, Cost;
    NoTablesYet(ram, dir, START_PAGE);
    NextPage(ram, ram, dir, clear, START_PAGE, START_PAGE, MAX_PAGE + 1);
    TablesAfterOneMore(ram, ram, ram', dir, START_PAGE, START_PAGE);
    StillSustains(ram, ram', dir, clear, START_PAGE, START_PAGE + 1, clear', true, MAX_PAGE + 1);
  }

  /** With none of the region's tables present, every 1024 pages cost 1025 blocks. */
  lemma {:induction false} FreshCost(ram: Ram, dir: int, hi: nat)
    requires IsFrame(dir) && START_PAGE <= hi <= MAX_PAGE + 1
    requires forall i: Index :: START_PAGE / 1024 <= i <= MAX_PAGE / 1024 ==> !HasTable(ram, dir, i)
    ensures Cost(ram, dir, START_PAGE, hi) == hi - START_PAGE + (hi - START_PAGE + 1023) / 1024
    decreases hi
  {
    hide HasTable;
    if hi > START_PAGE {
      FreshCost(ram, dir, hi - 1);
      assert START_PAGE / 1024 <= (hi - 1) / 1024 <= MAX_PAGE / 1024;
    }
  }

  /** The pool holds one block more than some number of full heap tables with their pages. */
  predicate OneBeyondTables(left: int) {
    left % 1025 == 1 && left / 1025 < 128
  }

  /** That is exactly when growth over a fresh region can run dry at a page table. */
  lemma FreshPoolNeverStarved(ram: Ram, dir: int, clear: nat)
    requires IsFrame(dir)
    requires forall i: Index :: START_PAGE / 1024 <= i <= MAX_PAGE / 1024 ==> !HasTable(ram, dir, i)
    ensures NeverStarved(ram, dir, clear, START_PAGE, MAX_PAGE + 1) <==> !OneBeyondTables(clear)
  {
    hide HasTable, Cost;
    if clear % 1025 == 1 && clear / 1025 < 128 {
      var p: nat := START_PAGE + 1024 * (clear / 1025);
      FreshCost(ram, dir, p);
      assert p % 1024 == 0 && NeedsTable(ram, dir, START_PAGE, p);
    }
    forall p: nat | START_PAGE <= p < MAX_PAGE + 1 && NeedsTable(ram, dir, START_PAGE, p)
                    && clear - Cost(ram, dir, START_PAGE, p) == 1
      ensures clear % 1025 == 1 && clear / 1025 < 128
    {
      FreshCost(ram, dir, p);
      var k := (p - START_PAGE) / 1024;
      assert p - START_PAGE == 1024 * k && clear == 1025 * k + 1;
    }
  }

  /** No table is idle, so a region without pages has no tables. */
  lemma UnmappedRegionHasNoTables(ram: Ram, dir: int, used: set<nat>)
    requires IsFrame(dir) && GoodSpace(ram, dir, used)
    requires forall p: nat :: START_PAGE <= p < MAX_PAGE + 1 ==> p !in Flat(ram, dir)
    ensures forall i: Index :: START_PAGE / 1024 <= i <= MAX_PAGE / 1024 ==> !HasTable(ram, dir, i)
  {
    hide Present, FrameOf, WriteBit, Flat, PageAt;
    forall i: Index | START_PAGE / 1024 <= i <= MAX_PAGE / 1024
      ensures !HasTable(ram, dir, i)
    {
      if HasTable(ram, dir, i) {
        var j: Index :| Present(ram[TableOf(ram, dir, i)][j]);
        InFlat(ram, dir, 1024 * i + j);
      }
    }
  }

  /** A table that was missing is the frame that was offered, null or not. */
  lemma MissingTableIsNew(ram: Ram, dir: int, used: set<nat>, p: nat, phys: Word, t: nat)
    requires GoodSpace(ram, dir, used) && p < 0xFFC00 && IsFrame(t) && (t !in used || t == 0)
    ensures !HasTableFor(ram, dir, p) ==> TableOf(MapRam(ram, dir, p, phys, t), dir, p / 1024) == t
  {
    hide Present, FrameOf, WriteBit;
    TableEntry(t);
    if !HasTableFor(ram, dir, p) {
      NotStructure(ram, dir, used, t);
      assert AddTable(ram, dir, p, t, Or3(phys))[dir] == ram[dir][p / 1024 := t * 4096 + 3];
    }
  }

  /** Growth depends on the heap region's tables alone. */
  lemma {:induction false} CostSameTables(ram: Ram, ram': Ram, dir: int, first: nat, hi: nat)
    requires IsFrame(dir) && START_PAGE <= first <= hi <= MAX_PAGE + 1
    requires forall i: Index :: START_PAGE / 1024 <= i <= MAX_PAGE / 1024 ==>
      (HasTable(ram', dir, i) <==> HasTable(ram, dir, i))
    ensures Cost(ram', dir, first, hi) == Cost(ram, dir, first, hi)
    decreases hi
  {
    hide HasTable;
    if first < hi {
      CostSameTables(ram, ram', dir, first, hi - 1);
      assert START_PAGE / 1024 <= (hi - 1) / 1024 <= MAX_PAGE / 1024;
    }
  }

  lemma NeverStarvedSameTables(ram: Ram, ram': Ram, dir: int, clear: int, first: nat)
    requires IsFrame(dir) && START_PAGE <= first <= MAX_PAGE + 1
    requires forall i: Index :: START_PAGE / 1024 <= i <= MAX_PAGE / 1024 ==>
      (HasTable(ram', dir, i) <==> HasTable(ram, dir, i))
    ensures NeverStarved(ram', dir, clear, first, MAX_PAGE + 1) <==> NeverStarved(ram, dir, clear, first, MAX_PAGE + 1)
  {
    hide HasTable, Cost;
    forall p: nat | first <= p < MAX_PAGE + 1
      ensures NeedsTable(ram', dir, first, p) <==> NeedsTable(ram, dir, first, p)
      ensures Cost(ram', dir, first, p) == Cost(ram, dir, first, p)
    {
      CostSameTables(ram, ram', dir, first, p);
      assert START_PAGE / 1024 <= p / 1024 <= MAX_PAGE / 1024;
    }
  }

  /** An unmap drops at most the page's own table, and gives back its block. */
  lemma TablesAfterUnmap(ram: Ram, dir: int, used: set<nat>, p: nat)
    requires IsFrame(dir) && GoodSpace(ram, dir, used) && p < 0xFFC00
    ensures forall i: Index :: i < 1023 && i != p / 1024 ==>
      (HasTable(UnmapRam(ram, dir, p), dir, i) <==> HasTable(ram, dir, i))
    ensures !Empties(ram, dir, p) ==> (HasTable(UnmapRam(ram, dir, p), dir, p / 1024) <==> HasTable(ram, dir, p / 1024))
    ensures |UnmapUsed(ram, dir, used, p)| == |used| - (if Empties(ram, dir, p) then 1 else 0)
  {
    hide Present, FrameOf, WriteBit;
    NullEntry();
    if HasTableFor(ram, dir, p) {
      EditKeepsShape(ram, dir, used, p, 0);
      assert TableOf(ram, dir, p / 1024) in used;
    }
  }

  lemma UnmapOfAbsentPage(ram: Ram, dir: int, used: set<nat>, p: nat)
    requires IsFrame(dir) && p < 0xFFC00 && p !in Flat(ram, dir) && !Empties(ram, dir, p)
    ensures UnmapRam(ram, dir, p) == ram && UnmapUsed(ram, dir, used, p) == used
  {
    InFlat(ram, dir, p);
  }

  /** No table is idle, so unmapping a page that is not mapped frees none. */
  lemma AbsentPageEmptiesNothing(ram: Ram, dir: int, used: set<nat>, p: nat)
    requires GoodSpace(ram, dir, used) && p < 0xFFC00 && PageAt(ram, dir, p).None?
    ensures !Empties(ram, dir, p)
  {
    hide Present, FrameOf, WriteBit;
  }

  lemma FlatAfterGrowth(first: nat, p: nat, heap: map<nat, nat>, flat: map<nat, Page>, heap': map<nat, nat>,
                        flat': map<nat, Page>)
    requires first <= p && HeapGrew(first, p, heap, flat, heap', flat')
    ensures p in flat <==> p in flat'
  {
  }

  lemma KeepsHeldTwice(ram: Ram, ram1: Ram, ram2: Ram, dir: int, used: set<nat>, used1: set<nat>, used2: set<nat>)
    requires KeepsHeld(ram, dir, used, ram1, dir, used1) && KeepsHeld(ram1, dir, used1, ram2, dir, used2)
    ensures KeepsHeld(ram, dir, used, ram2, dir, used2)
  {
    hide IsStructure;
  }

  lemma KeepsHeldOfLess(ram: Ram, ram': Ram, dir: int, less: set<nat>, used: set<nat>, used': set<nat>)
    requires KeepsHeld(ram, dir, used, ram', dir, used') && less <= used
    ensures KeepsHeld(ram, dir, less, ram', dir, used')
  {
    hide IsStructure;
  }

  /** Heap frames are held and no part of the tables, so their contents stay. */
  lemma HeldKeepsFrames(ram: Ram, ram': Ram, dir: int, used: set<nat>, used': set<nat>, heap: map<nat, nat>)
    requires KeepsHeld(ram, dir, used, ram', dir, used') && HeapFramesOwned(ram, dir, used, heap)
    ensures KeepsFrames(heap, ram, ram')
  {
    hide IsStructure, PageAt;
  }

  /** With `clear` blocks left and the heap mapped through page `last`, can the break go to a? */
  ghost predicate Affordable(ram: Ram, dir: int, clear: int, last: nat, a: Word)
    requires IsFrame(dir)
  {
    a <= 0xEFFFF000 && (a / 4096 > last ==> clear >= Cost(ram, dir, last + 1, a / 4096 + 1))
  }

  /** Growing on the way to a target spends exactly what the target needed anyway. */
  lemma AffordableAfterGrowth(ram: Ram, ram': Ram, dir: int, clear: int, clear': int, last: nat, last': nat)
    requires IsFrame(dir) && last <= last' <= MAX_PAGE
    requires TablesAfterGrowth(ram, ram', dir, last + 1, last' + 1)
    requires clear' == clear - Cost(ram, dir, last + 1, last' + 1) && clear' >= 0
    ensures forall a: Word :: a / 4096 >= last' ==>
      (Affordable(ram', dir, clear', last', a) <==> Affordable(ram, dir, clear, last, a))
  {
    hide TablesAfterGrowth, Cost;
    forall a: Word | a / 4096 >= last' && a <= 0xEFFFF000
      ensures Affordable(ram', dir, clear', last', a) <==> Affordable(ram, dir, clear, last, a)
    {
      CostSplits(ram, ram', dir, last + 1, last' + 1, a / 4096 + 1);
    }
  }

  lemma AffordableSameDir(ram: Ram, ram': Ram, dir: int, clear: int, last: nat)
    requires IsFrame(dir) && ram'[dir] == ram[dir]
    ensures forall a: Word :: Affordable(ram', dir, clear, last, a) <==> Affordable(ram, dir, clear, last, a)
  {
    hide Cost;
    forall a: Word | a / 4096 > last && a <= 0xEFFFF000
      ensures Affordable(ram', dir, clear, last, a) <==> Affordable(ram, dir, clear, last, a)
    {
      CostSameDir(ram, ram', dir, last + 1, a / 4096 + 1);
    }
  }

  /** From `from` on, the same targets can be reached. */
  ghost predicate ReachesAlike(reach: iset<Word>, reach': iset<Word>, from: int) {
    forall a: Word :: a >= from ==> (a in reach' <==> a in reach)
  }

  /** The break after a successful call: a target page below the last page moves nothing. */
  function NewBreak(brk: Word, lastPage: nat, addr: Word): Word {
    if addr / 4096 >= lastPage then addr else brk
  }

  /** Two kspace_sbrk calls that both succeed hand out disjoint ranges exactly when the first
      one's target page is not below the last mapped page. */
  lemma SuccessiveRangesApart(brk: Word, lastPage: nat, inc1: nat, inc2: nat)
    requires inc1 > 0 && inc2 > 0 && brk + inc1 < 0x1_0000_0000
    ensures var second := NewBreak(brk, lastPage, brk + inc1);
      (brk + inc1 <= second || second + inc2 <= brk) <==> (brk + inc1) / 4096 >= lastPage
  {
  }

  class KernelSpace {
    const mmu: Mmu
    var kernelBreak: Word
    var kheapLastPage: Word
    var kheapBase: Word
    var errno: int
    /** The pages that the break code itself mapped, with the frames it gave them. */
    ghost var heap: map<nat, nat>

    constructor (mmu: Mmu, kernelEnd: Word)
      requires mmu.Valid()
      ensures this.mmu == mmu && Valid() && kernelBreak == kernelEnd && LastPage() == START_PAGE - 1 && heap == map[]
    {
      this.mmu := mmu;
      kernelBreak, kheapLastPage, kheapBase, errno := kernelEnd, 0xCFFFF000, 0, 0;
      heap := map[];
    }

    ghost function LastPage(): nat
      reads this
    {
      kheapLastPage / 4096
    }

    ghost function Repr(): set<object> {
      {this, mmu, mmu.balloc, mmu.balloc.bmp}
    }

    /** Pages from the start of the heap through the last page are all mapped. */
    ghost predicate Covered()
      reads this, mmu
    {
      forall p: nat :: START_PAGE <= p <= LastPage() ==> p in mmu.FlatMap()
    }

    ghost predicate Valid()
      reads this, mmu, mmu.balloc, mmu.balloc.bmp
    {
      && mmu.Valid()
      && kheapLastPage % 4096 == 0 && START_PAGE - 1 <= LastPage() <= MAX_PAGE
      && HeapFramesOwned(mmu.ram, mmu.Dir(), mmu.balloc.used, heap)
      && (forall p :: p in heap ==> START_PAGE <= p <= LastPage())
      && Covered()
    }

    /** The break lies in the last page: what every successful forward growth establishes. */
    ghost predicate Synced()
      reads this
    {
      kernelBreak / 4096 == LastPage()
    }

    /** Growing through page top - 1 never runs dry exactly at a page table. */
    ghost predicate Sustains(top: nat)
      requires top <= 0xFFC00
      reads this, mmu, mmu.balloc
    {
      NeverStarved(mmu.ram, mmu.Dir(), mmu.balloc.Clear(), LastPage() + 1, top)
    }

    // ----- growth -----

    /** All that map, unmap and growth change, as one value. */
    ghost function Snapshot(): FrameOwners.Kernel
      reads this, mmu, mmu.balloc
    {
      FrameOwners.Kernel(mmu.ram, mmu.balloc.used, heap, LastPage())
    }

    lemma ValidIsSound()
      requires Valid()
      ensures FrameOwners.Sound(Snapshot(), mmu.Dir())
    {
      hide GoodSpace, Flat, PageAt, IsStructure, Marked, CounterFor, HeapFramesOwned, FrameOf;
      var k, d := Snapshot(), mmu.Dir();
      forall p: nat | START_PAGE <= p <= k.last
        ensures p in Flat(k.ram, d)
      {
        assert p in mmu.FlatMap();
      }
    }

    /** The next page's table is there, or the pool is not down to the one block for the page. */
    ghost predicate CanGrow()
      requires LastPage() < MAX_PAGE
      reads this, mmu, mmu.balloc
    {
      HasTable(mmu.ram, mmu.Dir(), (LastPage() + 1) / 1024) || mmu.balloc.Clear() != 1
    }

    /** One turn of kspace_brk's loop, in any valid state. It leaves a valid one exactly when the table
        is there or the pool is not down to one block; otherwise the new table is frame 0. */
    method GrowOnePage() returns (ok: bool)
      requires Valid() && LastPage() < MAX_PAGE
      modifies Repr()
      ensures Valid() <==> old(CanGrow())
      ensures mmu.Dir() == old(mmu.Dir()) && kernelBreak == old(kernelBreak) && errno == old(errno)
      ensures ok == old(mmu.balloc.Clear() != 0 && LastPage() + 1 !in mmu.FlatMap())
      ensures ok ==> LastPage() == old(LastPage()) + 1
      ensures ok ==> OnePageMore(LastPage(), old(heap), old(mmu.FlatMap()), heap, mmu.FlatMap())
      ensures ok && Valid() ==>
        var tables := if old(HasTable(mmu.ram, mmu.Dir(), (LastPage() + 1) / 1024)) then 0 else 1;
        mmu.balloc.Clear() == old(mmu.balloc.Clear()) - 1 - tables
      ensures ok ==> GainsTable(old(mmu.ram), mmu.ram, mmu.Dir(), LastPage())
      ensures !Valid() ==> ok && TableOf(mmu.ram, mmu.Dir(), LastPage() / 1024) == 0 && mmu.balloc.Clear() == 0
      ensures !ok ==> heap == old(heap) && mmu.ram == old(mmu.ram) && mmu.balloc.used == old(mmu.balloc.used)
      ensures !ok ==> LastPage() == old(LastPage()) + (if old(mmu.balloc.Clear()) == 0 then 0 else 1)
      ensures Valid() ==> KeepsHeld(old(mmu.ram), mmu.Dir(), old(mmu.balloc.used), mmu.ram, mmu.Dir(), mmu.balloc.used)
      ensures FrameOwners.Moves(old(Snapshot()), FrameOwners.Grow, Snapshot(), mmu.Dir(), mmu.balloc.Bits())
    {
      hide GoodSpace, Flat, PageAt, IsStructure, MapRam, HeapFramesOwned, Present, FrameOf, WriteBit, Marked,
           CounterFor, HasTable, KeepsHeld, MapUsed, TableOf, Interval, GainsTable, FrameOwners.Moves;
      ghost var k := Snapshot();
      mmu.NothingChanged();
      ghost var ram, used := mmu.ram, mmu.balloc.used;
      ghost var p := LastPage() + 1;
      mmu.balloc.NullMeansNoneClear();
      FrameOwners.MappedPageHasTable(ram, mmu.Dir(), p);
      var block, f := TakeHeapBlock();
      if block == 0 {
        FrameOwners.GrowIsAMove(k, Snapshot(), mmu.Dir(), mmu.balloc.Bits());
        return false;
      }
      kheapLastPage := kheapLastPage + 4096;
      ok := MapHeapPage(block, kheapLastPage, f, p);
      if mmu.Valid() {
        KeepsHeldOfLess(ram, mmu.ram, mmu.Dir(), used, used + {f}, mmu.balloc.used);
      }
      if !ok {
        mmu.balloc.Free(block);
      }
      FrameOwners.GrowIsAMove(k, Snapshot(), mmu.Dir(), mmu.balloc.Bits());
    }

    /** balloc_get, for a heap page: the block is no part of the tables and no heap frame yet. */
    method TakeHeapBlock() returns (block: Word, ghost f: nat)
      requires Valid()
      modifies mmu.balloc, mmu.balloc.bmp
      ensures Valid() && (block == 0 <==> old(mmu.balloc.Clear()) == 0)
      ensures block == GetResult(old(mmu.balloc.used), mmu.balloc.Bits())
      ensures f == LowestClear(old(mmu.balloc.used), 0, mmu.balloc.Bits())
      ensures block == 0 ==> mmu.balloc.used == old(mmu.balloc.used)
      ensures block != 0 ==>
        && block == f * 4096 && IsFrame(f) && f != 0 && mmu.balloc.used == old(mmu.balloc.used) + {f}
        && mmu.balloc.used - {f} == old(mmu.balloc.used)
        && !IsStructure(mmu.ram, mmu.Dir(), f) && (forall q :: q in heap ==> heap[q] != f)
        && mmu.balloc.Clear() == old(mmu.balloc.Clear()) - 1
        && (GetResult(mmu.balloc.used, mmu.balloc.Bits()) == 0 <==> mmu.balloc.Clear() == 0)
    {
      hide GoodSpace, Flat, PageAt, IsStructure, HeapFramesOwned, Present, FrameOf, WriteBit, Marked, CounterFor;
      ghost var used := mmu.balloc.used;
      f := LowestClear(used, 0, mmu.balloc.Bits());
      LowestClearIsLowest(used, 0, mmu.balloc.Bits());
      mmu.balloc.NullMeansNoneClear();
      block := mmu.balloc.Get();
      mmu.balloc.NullMeansNoneClear();
      if block != 0 {
        FreshBlock(mmu.ram, mmu.Dir(), used, heap, f);
      }
    }

    /** The call of vmmngr_map_page in the loop, and the heap page it adds, whether or not a missing
        table could be paid for. */
    method MapHeapPage(block: Word, virt: Word, ghost f: nat, ghost p: nat) returns (ok: bool)
      requires mmu.Valid() && HeapFramesOwned(mmu.ram, mmu.Dir(), mmu.balloc.used, heap)
      requires virt == p * 4096 && START_PAGE <= p <= MAX_PAGE && forall q :: q in heap ==> q < p
      requires block == f * 4096 && IsFrame(f) && f != 0 && f in mmu.balloc.used
      requires !IsStructure(mmu.ram, mmu.Dir(), f) && forall q :: q in heap ==> heap[q] != f
      modifies this`heap, mmu, mmu.balloc, mmu.balloc.bmp
      ensures mmu.Valid()
        <==> old(HasTable(mmu.ram, mmu.Dir(), p / 1024) || GetResult(mmu.balloc.used, mmu.balloc.Bits()) != 0)
      ensures mmu.Dir() == old(mmu.Dir()) && HeapFramesOwned(mmu.ram, mmu.Dir(), mmu.balloc.used, heap)
      ensures mmu.balloc.Valid()
      ensures ok == old(p !in mmu.FlatMap())
      ensures !ok ==>
        mmu.Valid() && heap == old(heap) && mmu.ram == old(mmu.ram) && mmu.balloc.used == old(mmu.balloc.used)
      ensures ok ==> heap == old(heap)[p := f] && mmu.FlatMap() == old(mmu.FlatMap())[p := Page(f, true)]
      ensures ok ==>
        var tables := if old(HasTable(mmu.ram, mmu.Dir(), p / 1024)) || !mmu.Valid() then 0 else 1;
        |mmu.balloc.used| == old(|mmu.balloc.used|) + tables
      ensures ok ==> GainsTable(old(mmu.ram), mmu.ram, mmu.Dir(), p)
      ensures !mmu.Valid() ==> TableOf(mmu.ram, mmu.Dir(), p / 1024) == 0
      ensures mmu.Valid() ==>
        KeepsHeld(old(mmu.ram), mmu.Dir(), old(mmu.balloc.used), mmu.ram, mmu.Dir(), mmu.balloc.used)
      ensures
        var t := LowestClear(old(mmu.balloc.used), 0, mmu.balloc.Bits());
        && IsFrame(t)
        && mmu.ram == MapRam(old(mmu.ram), mmu.Dir(), p, block, t)
        && mmu.balloc.used == MapUsed(old(mmu.ram), mmu.Dir(), old(mmu.balloc.used), p, t)
    {
      hide GoodSpace, Flat, PageAt, IsStructure, HeapFramesOwned, Present, FrameOf, WriteBit, Marked, CounterFor,
           KeepsHeld, MapRam, HasTable, TableOf;
      ghost var ram, d, used := mmu.ram, mmu.Dir(), mmu.balloc.used;
      ghost var t := LowestClear(used, 0, mmu.balloc.Bits());
      LowestClearIsLowest(used, 0, mmu.balloc.Bits());
      InFlat(ram, d, p);
      FrameOwners.MappedPageHasTable(ram, d, p);
      mmu.ValidIsEditable();
      var r := mmu.MapPage(block, virt);
      ok := r != -1;
      MapOfPresentPage(ram, d, used, p, block, t);
      MissingTableIsNew(ram, d, used, p, block, t);
      if HasTable(ram, d, p / 1024) || t != 0 {
        MapKeepsHeld(ram, d, used, p, block, t);
      }
      if ok {
        OwnershipAfterMap(ram, d, used, heap, p, block, t);
        OwnershipOfNewPage(ram, d, used, heap, p, f, t);
        TablesAfterMap(ram, d, used, p, block, t);
        heap := heap[p := f];
      }
    }

    /** The pages first .. hi - 1 are mapped nowhere yet. */
    ghost predicate Unmapped(first: nat, hi: nat)
      reads mmu
    {
      forall p: nat :: first <= p < hi ==> p !in mmu.FlatMap()
    }

    /** The loop of kspace_brk. It goes through exactly when the pool can pay for every page and
        table, and nobody else has mapped one of the pages. */
    method Grow(n: nat) returns (ok: bool, ghost hi: nat)
      requires Valid() && LastPage() + n <= MAX_PAGE && Sustains(LastPage() + 1 + n)
      modifies Repr()
      ensures Valid() && mmu.Dir() == old(mmu.Dir()) && kernelBreak == old(kernelBreak) && errno == old(errno)
      ensures ok <==>
        && old(mmu.balloc.Clear()) >= old(Cost(mmu.ram, mmu.Dir(), LastPage() + 1, LastPage() + 1 + n))
        && old(Unmapped(LastPage() + 1, LastPage() + 1 + n))
      ensures ok ==> LastPage() == old(LastPage()) + n
      ensures ok ==>
        mmu.balloc.Clear() ==
        old(mmu.balloc.Clear()) - old(Cost(mmu.ram, mmu.Dir(), LastPage() + 1, LastPage() + 1 + n))
      ensures ok ==> TablesAfterGrowth(old(mmu.ram), mmu.ram, mmu.Dir(), old(LastPage()) + 1, LastPage() + 1)
      ensures old(LastPage()) <= LastPage() <= old(LastPage()) + n
      ensures old(LastPage()) < hi <= LastPage() + 1 && (ok ==> hi == LastPage() + 1)
      ensures HeapGrew(old(LastPage()) + 1, hi, old(heap), old(mmu.FlatMap()), heap, mmu.FlatMap())
      ensures !ok && old(Unmapped(LastPage() + 1, LastPage() + 1 + n)) ==>
        && hi == LastPage() + 1 && mmu.balloc.Clear() == 0
        && old(mmu.balloc.Clear()) == Cost(old(mmu.ram), mmu.Dir(), old(LastPage()) + 1, LastPage() + 1)
      ensures KeepsHeld(old(mmu.ram), mmu.Dir(), old(mmu.balloc.used), mmu.ram, mmu.Dir(), mmu.balloc.used)
    {
      hide GoodSpace, Flat, PageAt, IsStructure, HeapFramesOwned, HasTable, TablesAfterGrowth, NeverStarved, Cost,
           Marked, CounterFor, HeapGrew, Covered, KeepsHeld;
      ghost var ram, d, clear, first := mmu.ram, mmu.Dir(), mmu.balloc.Clear(), LastPage() + 1;
      ghost var heap0, flat0, used0 := heap, mmu.FlatMap(), mmu.balloc.used;
      mmu.NothingChanged();
      NoTablesYet(ram, d, first);
      NothingGrew(first, heap0, flat0);
      for k := 0 to n
        invariant Valid() && mmu.Dir() == d && kernelBreak == old(kernelBreak) && errno == old(errno)
        invariant LastPage() + 1 == first + k
        invariant forall p: nat :: first <= p < first + k ==> p !in flat0
        invariant TablesAfterGrowth(ram, mmu.ram, d, first, first + k)
        invariant mmu.balloc.Clear() == clear - Cost(ram, d, first, first + k)
        invariant HeapGrew(first, first + k, heap0, flat0, heap, mmu.FlatMap())
        invariant KeepsHeld(ram, d, used0, mmu.ram, mmu.Dir(), mmu.balloc.used)
      {
        hi := first + k;
        ok := GrowNext(ram, clear, first, first + k, first + n, heap0, flat0, used0);
        if !ok {
          return;
        }
      }
      mmu.balloc.NullMeansNoneClear();
      ok, hi := true, first + n;
    }

    method GrowNext(ghost ram: Ram, ghost clear: int, ghost first: nat, ghost p: nat, ghost top: nat,
                    ghost heap0: map<nat, nat>, ghost flat0: map<nat, Page>, ghost used: set<nat>) returns (ok: bool)
      requires Valid() && LastPage() + 1 == p && first <= p < top <= MAX_PAGE + 1
      requires NeverStarved(ram, mmu.Dir(), clear, first, top)
      requires TablesAfterGrowth(ram, mmu.ram, mmu.Dir(), first, p)
      requires mmu.balloc.Clear() == clear - Cost(ram, mmu.Dir(), first, p)
      requires HeapGrew(first, p, heap0, flat0, heap, mmu.FlatMap())
      requires KeepsHeld(ram, mmu.Dir(), used, mmu.ram, mmu.Dir(), mmu.balloc.used)
      modifies Repr()
      ensures Valid() && mmu.Dir() == old(mmu.Dir()) && kernelBreak == old(kernelBreak) && errno == old(errno)
      ensures KeepsHeld(ram, mmu.Dir(), used, mmu.ram, mmu.Dir(), mmu.balloc.used)
      ensures ok ==> LastPage() == p && p !in flat0 && HeapGrew(first, p + 1, heap0, flat0, heap, mmu.FlatMap())
      ensures ok ==> TablesAfterGrowth(ram, mmu.ram, mmu.Dir(), first, p + 1)
      ensures ok ==> mmu.balloc.Clear() == clear - Cost(ram, mmu.Dir(), first, p + 1)
      ensures !ok ==> clear < Cost(ram, mmu.Dir(), first, top) || p in flat0
      ensures !ok ==> p - 1 <= LastPage() <= p && HeapGrew(first, p, heap0, flat0, heap, mmu.FlatMap())
      ensures !ok && p !in flat0 ==> LastPage() == p - 1 && mmu.balloc.Clear() == 0
      ensures !ok ==> mmu.balloc.Clear() == old(mmu.balloc.Clear())
    {
      hide GoodSpace, Flat, PageAt, IsStructure, HeapFramesOwned, HasTable, TablesAfterGrowth, NeverStarved, Cost,
           Marked, CounterFor, HeapGrew, OnePageMore, KeepsHeld, Covered;
      NextPage(ram, mmu.ram, mmu.Dir(), clear, first, p, top);
      CostGrows(ram, mmu.Dir(), first, p, top);
      FlatAfterGrowth(first, p, heap0, flat0, heap, mmu.FlatMap());
      ghost var ram1, heap1, flat1, used1 := mmu.ram, heap, mmu.FlatMap(), mmu.balloc.used;
      ok := GrowOnePage();
      KeepsHeldTwice(ram, ram1, mmu.ram, mmu.Dir(), used, used1, mmu.balloc.used);
      if ok {
        TablesAfterOneMore(ram, ram1, mmu.ram, mmu.Dir(), first, p);
        HeapGrewByOne(first, p, heap0, flat0, heap1, flat1, heap, mmu.FlatMap());
      }
    }

    // ----- the break -----

    /** kspace_brk. A target page below the last one is reported as done without moving the break. */
    method Brk(addr: Word) returns (r: int, ghost hi: nat)
      requires Valid() && (addr <= 0xEFFFF000 ==> Sustains(addr / 4096 + 1))
      modifies Repr()
      ensures Valid() && mmu.Dir() == old(mmu.Dir())
      ensures r == 0 || r == -1
      ensures errno == if r == -1 then 4 else old(errno)
      ensures r == 0 <==> old(CanReach(addr))
      ensures r == 0 <==>
        && addr <= 0xEFFFF000
        && (addr / 4096 > old(LastPage()) ==>
              && old(mmu.balloc.Clear()) >= old(Cost(mmu.ram, mmu.Dir(), LastPage() + 1, addr / 4096 + 1))
              && forall p: nat :: old(LastPage()) < p <= addr / 4096 ==> p !in old(mmu.FlatMap()))
      ensures kernelBreak == if r == 0 && addr / 4096 >= old(LastPage()) then addr else old(kernelBreak)
      ensures r == 0 ==> LastPage() == if addr / 4096 > old(LastPage()) then addr / 4096 else old(LastPage())
      ensures r == 0 && addr / 4096 > old(LastPage()) ==>
        && mmu.balloc.Clear() ==
           old(mmu.balloc.Clear()) - old(Cost(mmu.ram, mmu.Dir(), LastPage() + 1, addr / 4096 + 1))
        && TablesAfterGrowth(old(mmu.ram), mmu.ram, mmu.Dir(), old(LastPage()) + 1, LastPage() + 1)
      ensures addr > 0xEFFFF000 || addr / 4096 <= old(LastPage()) ==>
        LastPage() == old(LastPage()) && mmu.ram == old(mmu.ram) && mmu.balloc.used == old(mmu.balloc.used)
      ensures old(LastPage()) < hi <= LastPage() + 1 && (r == 0 ==> hi == LastPage() + 1)
      ensures HeapGrew(old(LastPage()) + 1, hi, old(heap), old(mmu.FlatMap()), heap, mmu.FlatMap())
      ensures KeepsHeld(old(mmu.ram), mmu.Dir(), old(mmu.balloc.used), mmu.ram, mmu.Dir(), mmu.balloc.used)
      ensures old(Tidy()) ==> Tidy() && old(Tops()) <= Tops()
      ensures old(Tidy()) && r == -1 ==> addr > 0xEFFFF000 || mmu.balloc.Clear() == 0
      ensures old(Tidy()) && r == -1 && addr <= 0xEFFFF000 ==>
        && old(LastPage()) <= LastPage() < addr / 4096
        && old(mmu.balloc.Clear()) == Cost(old(mmu.ram), mmu.Dir(), old(LastPage()) + 1, LastPage() + 1)
    {
      hide GoodSpace, Flat, PageAt, IsStructure, HeapFramesOwned, HasTable, TablesAfterGrowth, NeverStarved, Cost,
           Marked, CounterFor, HeapGrew, OnePageMore, FrameOf, KeepsHeld, TopsOf;
      mmu.NothingChanged();
      ghost var ram, clear, first, heap0, flat0 := mmu.ram, mmu.balloc.Clear(), LastPage() + 1, heap, mmu.FlatMap();
      NothingGrew(LastPage() + 1, heap, mmu.FlatMap());
      hi := LastPage() + 1;
      if addr > 0xEFFFF000 {
        errno := ENOMEM;
        return -1, hi;
      }
      if PageMask(addr) == kheapLastPage {
        kernelBreak := addr;
      } else if PageMask(addr) > kheapLastPage {
        var ok;
        ok, hi := Grow((PageMask(addr) - kheapLastPage) / 4096);
        if old(Tidy()) {
          RegionStaysFree(first, hi, heap0, flat0, heap, mmu.FlatMap());
          TopsAfterGrowth(ram, mmu.ram, mmu.Dir(), clear, first, hi, mmu.balloc.Clear(), ok);
        }
        if !ok {
          errno := ENOMEM;
          return -1, hi;
        }
        kernelBreak := addr;
      }
      r := 0;
    }

    /** The heap region belongs to the break code alone. Growth keeps this. */
    ghost predicate Tidy()
      reads this, mmu, mmu.balloc, mmu.balloc.bmp
    {
      && Valid()
      && heap.Keys == Interval(START_PAGE, LastPage() + 1)
      && Unmapped(LastPage() + 1, MAX_PAGE + 1)
    }

    /** The pages up to which growth never runs the pool dry exactly at one of its page tables.
        Growth takes away none of them. */
    ghost function Tops(): iset<nat>
      reads this, mmu, mmu.balloc
    {
      TopsOf(mmu.ram, mmu.Dir(), mmu.balloc.Clear(), LastPage() + 1)
    }

    /** The pool pays for a break at `addr`. */
    ghost predicate PaysFor(addr: nat)
      reads this, mmu, mmu.balloc
    {
      Pays(Tops(), addr)
    }

    lemma PaysForMapped(addr: nat)
      requires addr / 4096 <= LastPage() <= MAX_PAGE
      ensures PaysFor(addr)
    {
      NoneStarvedPast(mmu.ram, mmu.Dir(), mmu.balloc.Clear(), LastPage() + 1, addr / 4096 + 1);
    }

    /** Tidy, and no growth at all can run dry at a table. */
    ghost predicate Healthy()
      reads this, mmu, mmu.balloc, mmu.balloc.bmp
    {
      Tidy() && MAX_PAGE + 1 in Tops()
    }

    lemma HealthyPays(addr: nat)
      requires Healthy()
      ensures PaysFor(addr)
    {
      hide Cost, NeedsTable;
    }

    /** When kspace_brk reports success. */
    ghost predicate CanReach(addr: Word)
      reads this, mmu, mmu.balloc
    {
      && addr <= 0xEFFFF000
      && (addr / 4096 > LastPage() ==>
            && mmu.balloc.Clear() >= Cost(mmu.ram, mmu.Dir(), LastPage() + 1, addr / 4096 + 1)
            && Unmapped(LastPage() + 1, addr / 4096 + 1))
    }

    /** The targets for which kspace_brk reports success. */
    ghost function Reach(): iset<Word>
      reads this, mmu, mmu.balloc
    {
      iset a: Word | CanReach(a)
    }

    /** What the break can reach, and what the pool pays for. No write to the heap changes either. */
    ghost function Outlook(): (iset<Word>, iset<nat>)
      reads this, mmu, mmu.balloc
    {
      (Reach(), Tops())
    }

    /** kspace_sbrk, with the break in step or behind: the old break, or -1 for the C code's all-ones
        pointer. */
    method Sbrk(increment: nat) returns (r: int)
      requires Tidy() && kernelBreak + increment < 0x1_0000_0000 && PaysFor(kernelBreak + increment)
      modifies Repr()
      ensures Tidy() && old(Tops()) <= Tops()
      ensures r == if old(CanReach(kernelBreak + increment)) then old(kernelBreak) else -1
      ensures kernelBreak == old(kernelBreak) +
        (if r != -1 && (old(kernelBreak) + increment) / 4096 >= old(LastPage()) then increment else 0)
      ensures r != -1 ==> kernelBreak == NewBreak(old(kernelBreak), old(LastPage()), old(kernelBreak) + increment)
      ensures r != -1 ==>
        LastPage() == if (old(kernelBreak) + increment) / 4096 >= old(LastPage())
          then (old(kernelBreak) + increment) / 4096 else old(LastPage())
      ensures r == -1 ==> old(LastPage()) <= LastPage()
      ensures errno == if r == -1 then 4 else old(errno)
      ensures r != -1 ==> ReachesAlike(old(Reach()), Reach(), kernelBreak)
      ensures r == -1 ==> kernelBreak + increment > 0xEFFFF000 || mmu.balloc.Clear() == 0
      ensures old(kernelBreak) + increment > 0xEFFFF000 ==> r == -1 && LastPage() == old(LastPage())
      ensures Preserves(old(Mem()), Mem())
    {
      hide GoodSpace, Flat, PageAt, IsStructure, HeapFramesOwned, HasTable, TablesAfterGrowth, NeverStarved, Cost,
           Marked, CounterFor, Covered, HeapMem, FrameOf, Reach, CanReach, Affordable, KeepsHeld, ByteOf, Tops;
      var oldBreak := kernelBreak;
      ghost var ram, used, heap0, clear, last := mmu.ram, mmu.balloc.used, heap, mmu.balloc.Clear(), LastPage();
      BeyondRegion(kernelBreak + increment);
      PaysSustains(kernelBreak + increment);
      ReachIsAffordable();
      var status, _ := Brk(kernelBreak + increment);
      HeldKeepsFrames(ram, mmu.ram, mmu.Dir(), used, mmu.balloc.used, heap0);
      HeapMemGrows(ram, mmu.ram, heap0, heap);
      if status != 0 {
        errno := ENOMEM;
        return -1;
      }
      ReachIsAffordable();
      mmu.balloc.NullMeansNoneClear();
      if LastPage() > last {
        AffordableAfterGrowth(ram, mmu.ram, mmu.Dir(), clear, mmu.balloc.Clear(), last, LastPage());
      }
      r := oldBreak;
    }

    /** A growth that runs the pool dry before its target, and two requests after it that stay in the
        page of the break: both are answered with the same address. */
    method StaleBreakHandsOutTwice(addr: Word, inc1: nat, inc2: nat) returns (status: int, first: int, second: int)
      requires Tidy() && Synced() && !CanReach(addr) && addr <= 0xEFFFF000 && PaysFor(addr) && mmu.balloc.Clear() > 0
      requires (kernelBreak + inc1) / 4096 == (kernelBreak + inc2) / 4096 == LastPage()
      modifies Repr()
      ensures status == -1 && Tidy() && old(LastPage()) < LastPage()
      ensures first == second == old(kernelBreak) == kernelBreak
    {
      hide GoodSpace, Flat, PageAt, IsStructure, HeapFramesOwned, HasTable, TablesAfterGrowth, NeverStarved, Cost,
           Marked, CounterFor, Covered, HeapMem, FrameOf, Reach, Affordable, KeepsHeld, HeapGrew, Preserves, Valid;
      PaysSustains(addr);
      NothingCosts(LastPage() + 1);
      ghost var hi;
      status, hi := Brk(addr);
      PaysForMapped(kernelBreak + inc1);
      first := Sbrk(inc1);
      PaysForMapped(kernelBreak + inc2);
      second := Sbrk(inc2);
    }

    lemma NothingCosts(first: nat)
      requires first <= 0xFFC00
      ensures Cost(mmu.ram, mmu.Dir(), first, first) == 0
    {
    }

    /** What can be reached can be reached in two steps, the first to any break on the way. */
    lemma ReachDown(a: Word, b: Word)
      requires Tidy() && b <= a && a in Reach()
      ensures b in Reach()
    {
      hide GoodSpace, Flat, Cost, NeverStarved, HeapFramesOwned, Marked, CounterFor, Reach, CanReach;
      ReachIsAffordable();
      if b / 4096 > LastPage() {
        CostGrows(mmu.ram, mmu.Dir(), LastPage() + 1, b / 4096 + 1, a / 4096 + 1);
      }
    }

    lemma InReach(a: Word)
      ensures a in Reach() <==> CanReach(a)
    {
    }

    lemma BeyondRegion(a: Word)
      ensures CanReach(a) ==> a <= 0xEFFFF000
    {
    }

    /** In a healthy space only the pool and the region's end limit the break. */
    lemma ReachIsAffordable()
      requires Tidy()
      ensures forall a: Word :: a in Reach() <==> Affordable(mmu.ram, mmu.Dir(), mmu.balloc.Clear(), LastPage(), a)
    {
      hide GoodSpace, Flat, Cost, NeverStarved, HeapFramesOwned, Marked, CounterFor;
    }

    lemma PaysSustains(addr: nat)
      requires PaysFor(addr)
      ensures addr <= 0xEFFFF000 ==> Sustains(addr / 4096 + 1)
    {
    }

    /** The heap pages as one flat memory. */
    ghost function Mem(): Mem
      reads this, mmu
    {
      HeapMem(mmu.ram, heap)
    }

    /** While the break lies in a mapped page, every byte below it is a byte of a heap page. */
    lemma HeapCoversBreak()
      requires Tidy() && kernelBreak / 4096 <= LastPage()
      ensures forall a: nat :: 0xD0000000 <= a < kernelBreak ==> a in Mem()
    {
      hide GoodSpace, PageAt, IsStructure, NeverStarved, ByteOf;
      forall a: nat | 0xD0000000 <= a < kernelBreak
        ensures a in Mem()
      {
        assert START_PAGE <= a / 4096 <= LastPage();
        assert a / 4096 in heap.Keys;
      }
    }

    /** A heap address reaches its own frame through the hardware walk. */
    lemma HeapWalk(a: nat)
      requires Valid() && a in Mem()
      ensures a < 0x1_0000_0000 && a / 4096 in heap
      ensures var word := a - a % 4;
        && mmu.Mapped(word) && Walk(mmu.ram, mmu.Root(), word) == Some(HeapLoc(heap, a))
        && Mem()[a] == ByteOf(At(mmu.ram, HeapLoc(heap, a)), a % 4)
      ensures !IsStructure(mmu.ram, mmu.Dir(), heap[a / 4096])
    {
      hide GoodSpace, PageAt, IsStructure, Walk, Present, FrameOf, ByteOf;
      WordOfByte(a);
      WalkIsPageAt(mmu.ram, mmu.Dir(), a - a % 4);
    }

    lemma WordOfByte(a: nat)
      ensures var word := a - a % 4;
        && word % 4 == 0 && word / 4096 == a / 4096 && word % 4096 / 4 == a % 4096 / 4
    {
    }

    /** Reading a byte of kernel memory at a heap address. */
    method PeekByte(a: nat) returns (b: Byte)
      requires Valid() && a in Mem()
      ensures b == Mem()[a]
    {
      hide GoodSpace, HeapFramesOwned, HeapMem, Walk, Flat, ByteOf;
      HeapWalk(a);
      var w := mmu.Load(a - a % 4);
      b := ByteOf(w, a % 4);
    }

    /** Writing a byte at a heap address changes that byte and no translation. */
    method PokeByte(a: nat, b: Byte)
      requires Valid() && a in Mem()
      modifies mmu`ram
      ensures Valid()
      ensures Mem() == old(Mem())[a := b]
      ensures mmu.FlatMap() == old(mmu.FlatMap()) && mmu.ram[mmu.Dir()] == old(mmu.ram)[mmu.Dir()]
      ensures old(Tidy()) ==> Tidy() && Outlook() == old(Outlook())
    {
      hide GoodSpace, HeapFramesOwned, HeapMem, Walk, Flat, IsStructure, FrameOf, Present, NeverStarved, Cost, Reach,
           CanReach, Affordable, Marked, CounterFor, ByteOf, WithByte, TopsOf;
      HeapWalk(a);
      if Tidy() {
        ReachIsAffordable();
      }
      ghost var ram, d, used := mmu.ram, mmu.Dir(), mmu.balloc.used;
      var w := mmu.Load(a - a % 4);
      mmu.Store(a - a % 4, WithByte(w, a % 4, b));
      OwnershipAfterWrite(ram, d, used, heap, a, WithByte(w, a % 4, b));
      HeapMemAfterPut(ram, d, used, heap, a, b);
      assert mmu.FlatMap() == old(mmu.FlatMap());
      if old(Tidy()) {
        TopsSameDir(ram, mmu.ram, d, mmu.balloc.Clear(), LastPage() + 1);
        AffordableSameDir(ram, mmu.ram, d, mmu.balloc.Clear(), LastPage());
        ReachIsAffordable();
        assert Reach() == old(Reach());
      }
    }

    /** Reading a word at a heap address, on a word boundary or not. */
    method Peek(a: nat) returns (w: Word)
      requires Valid() && HasWord(Mem(), a)
      ensures w == WordAt(Mem(), a)
    {
      hide Valid, Mem, Join;
      var b0 := PeekByte(a);
      var b1 := PeekByte(a + 1);
      var b2 := PeekByte(a + 2);
      var b3 := PeekByte(a + 3);
      w := Join(b0, b1, b2, b3);
    }

    /** Writing a word at a heap address changes its four bytes and no translation. */
    method Poke(a: nat, w: Word)
      requires Valid() && HasWord(Mem(), a)
      modifies mmu`ram
      ensures Valid()
      ensures Mem() == PutWord(old(Mem()), a, w)
      ensures mmu.FlatMap() == old(mmu.FlatMap()) && mmu.ram[mmu.Dir()] == old(mmu.ram)[mmu.Dir()]
      ensures old(Tidy()) ==> Tidy() && Outlook() == old(Outlook())
    {
      hide Valid, Mem, ByteOf, Tidy, Outlook, Flat;
      PokeByte(a, ByteOf(w, 0));
      PokeByte(a + 1, ByteOf(w, 1));
      PokeByte(a + 2, ByteOf(w, 2));
      PokeByte(a + 3, ByteOf(w, 3));
    }

    // ----- the start of the heap, and other users of the page tables -----

    /** kspace_initialize; false stands for the panic. The answer of vmmngr_map_page is ignored, and
        so is a null block for a missing table. */
    method InitializeSpace() returns (ok: bool)
      requires Valid() && heap == map[] && LastPage() == START_PAGE - 1
      modifies Repr()
      ensures ok <==> old(mmu.balloc.Clear()) != 0
      ensures kheapBase == GetResult(old(mmu.balloc.used), mmu.balloc.Bits())
      ensures ok && old(START_PAGE !in mmu.FlatMap()) ==> heap == map[START_PAGE := kheapBase / 4096]
      ensures ok ==> kernelBreak == 0xD0000000 && LastPage() == START_PAGE && Synced() && (Valid() <==> old(CanGrow()))
      ensures ok && old(Unmapped(START_PAGE, MAX_PAGE + 1) && Sustains(MAX_PAGE + 1)) ==> Healthy()
    {
      hide GoodSpace, Flat, PageAt, IsStructure, MapRam, HeapFramesOwned, Present, FrameOf, WriteBit, HasTable,
           TablesAfterGrowth, NeverStarved, Cost, Marked, CounterFor, HeapGrew, OnePageMore, KeepsHeld, Interval;
      ghost var ram, flat, clear := mmu.ram, mmu.FlatMap(), mmu.balloc.Clear();
      ghost var f;
      FrameOwners.MappedPageHasTable(ram, mmu.Dir(), START_PAGE);
      kheapBase, f := TakeHeapBlock();
      if kheapBase == 0 {
        return false;
      }
      ok := MapHeapPage(kheapBase, 0xD0000000, f, START_PAGE);
      kernelBreak := 0xD0000000;
      kheapLastPage := 0xD0000000;
      if old(Unmapped(START_PAGE, MAX_PAGE + 1) && Sustains(MAX_PAGE + 1)) {
        FirstPageAffordable(ram, mmu.Dir(), clear);
        FirstPageIsHealthy(ram, flat, clear);
      }
      ok := true;
    }

    lemma FirstPageIsHealthy(ram: Ram, flat: map<nat, Page>, clear: int)
      requires Valid() && LastPage() == START_PAGE && heap.Keys == {START_PAGE}
      requires mmu.FlatMap().Keys == flat.Keys + {START_PAGE} && forall p: nat :: START_PAGE <= p < MAX_PAGE + 1 ==>
        p !in flat
      requires NeverStarved(ram, mmu.Dir(), clear, START_PAGE, MAX_PAGE + 1)
      requires forall i: Index :: i < 1023 ==>
        (HasTable(mmu.ram, mmu.Dir(), i) <==> HasTable(ram, mmu.Dir(), i) || i == START_PAGE / 1024)
      requires mmu.balloc.Clear() == clear - 1 - (if HasTable(ram, mmu.Dir(), START_PAGE / 1024) then 0 else 1)
      ensures Healthy()
    {
      hide GoodSpace, Flat, PageAt, HeapFramesOwned, HasTable, NeverStarved, Cost, Marked, CounterFor;
      FirstPageSustains(ram, mmu.ram, mmu.Dir(), clear, mmu.balloc.Clear());
      assert heap.Keys == Interval(START_PAGE, START_PAGE + 1);
    }

    /** A map of page p keeps the heap region to the break code, and the pool from running dry at one
        of its tables. */
    ghost predicate MapSparesHeap(p: nat)
      requires p < 0xFFC00
      reads this, mmu, mmu.balloc
    {
      && !(LastPage() < p <= MAX_PAGE)
      && (HasTable(mmu.ram, mmu.Dir(), p / 1024)
          || NeverStarved(mmu.ram, mmu.Dir(), mmu.balloc.Clear() - 1, LastPage() + 1, MAX_PAGE + 1))
    }

    /** vmmngr_map_page by anyone else: the state stays valid exactly when the table or a block for it
        is there, and healthy exactly when the map moreover spares the heap. */
    method MapElsewhere(phys: Word, virt: Word) returns (r: int)
      requires Valid() && phys % 4096 == 0 && DirIndex(virt) != 1023
      modifies mmu, mmu.balloc, mmu.balloc.bmp
      ensures Valid()
        <==> old(HasTable(mmu.ram, mmu.Dir(), DirIndex(virt)) || GetResult(mmu.balloc.used, mmu.balloc.Bits()) != 0)
      ensures r == (if old(virt / 4096 in mmu.FlatMap()) then -1 else 0)
      ensures mmu.FlatMap() == if r == -1
        then old(mmu.FlatMap()) else old(mmu.FlatMap())[virt / 4096 := Page(phys / 4096, true)]
      ensures Preserves(old(Mem()), Mem())
      ensures var move := FrameOwners.Map(virt / 4096, phys);
        FrameOwners.Moves(old(Snapshot()), move, Snapshot(), mmu.Dir(), mmu.balloc.Bits())
      ensures old(Healthy()) && Valid() ==>
        (Healthy() <==> r == -1 || old(virt / 4096 < 0xFFC00 && MapSparesHeap(virt / 4096)))
    {
      hide GoodSpace, Flat, PageAt, IsStructure, HeapFramesOwned, Present, FrameOf, WriteBit, Marked, CounterFor,
           HeapMem, MapRam, MapUsed, NeverStarved, Interval, HasTable, DirIndex;
      ghost var ram, d, used, p, flat := mmu.ram, mmu.Dir(), mmu.balloc.used, virt / 4096, mmu.FlatMap();
      ghost var t := LowestClear(used, 0, mmu.balloc.Bits());
      LowestClearIsLowest(used, 0, mmu.balloc.Bits());
      PageOutsideWindow(virt);
      mmu.ValidIsEditable();
      r := mmu.MapPage(phys, virt);
      if r == 0 {
        OwnershipAfterMap(ram, d, used, heap, p, phys, t);
        TablesAfterMap(ram, d, used, p, phys, t);
        TableBlockCounted(ram, d, used, p, t);
        if old(Healthy()) && Valid() {
          HealthAfterTables(ram, flat, p, mmu.balloc.Clear());
        }
      } else {
        MapOfPresentPage(ram, d, used, p, phys, t);
      }
      HeapMemGrows(ram, mmu.ram, heap, heap);
    }

    lemma TableBlockCounted(ram: Ram, dir: int, used: set<nat>, p: nat, t: nat)
      requires IsFrame(dir) && p < 0xFFC00
      ensures t !in used || HasTable(ram, dir, p / 1024) ==>
        |MapUsed(ram, dir, used, p, t)| == |used| + (if HasTable(ram, dir, p / 1024) then 0 else 1)
    {
    }

    /** When health survives a change to one page outside the heap, with `clear` blocks left after it. */
    lemma HealthAfterTables(ram: Ram, flat: map<nat, Page>, p: nat, clear: int)
      requires Valid() && p < 0xFFC00 && clear == mmu.balloc.Clear()
      requires heap.Keys == Interval(START_PAGE, LastPage() + 1) && !(START_PAGE <= p <= LastPage())
      requires forall q: nat :: LastPage() + 1 <= q < MAX_PAGE + 1 ==> q !in flat
      requires forall q :: q != p ==> (q in mmu.FlatMap() <==> q in flat)
      requires forall i: Index :: i < 1023 && i != p / 1024 ==>
        (HasTable(mmu.ram, mmu.Dir(), i) <==> HasTable(ram, mmu.Dir(), i))
      ensures LastPage() < p <= MAX_PAGE && p in mmu.FlatMap() ==> !Healthy()
      ensures !(LastPage() < p <= MAX_PAGE) ==>
        (Healthy() <==> NeverStarved(ram, mmu.Dir(), clear, LastPage() + 1, MAX_PAGE + 1))
    {
      hide GoodSpace, Flat, PageAt, HeapFramesOwned, HasTable, NeverStarved, Marked, CounterFor, Interval;
      if !(LastPage() < p <= MAX_PAGE) {
        NeverStarvedSameTables(ram, mmu.ram, mmu.Dir(), clear, LastPage() + 1);
      }
    }

    /** vmmngr_unmap_page by anyone else, outside the heap. It gives back a table's block at most, and
        keeps the space healthy unless that block brings the pool down to one at a table later on. */
    method UnmapElsewhere(virt: Word) returns (phys: Word)
      requires Valid() && DirIndex(virt) != 1023
      requires !(START_PAGE <= virt / 4096 <= LastPage())
      modifies mmu, mmu.balloc, mmu.balloc.bmp
      ensures Valid()
      ensures phys == old(if virt / 4096 in mmu.FlatMap() then mmu.FlatMap()[virt / 4096].frame * 4096 else 0)
      ensures mmu.FlatMap() == old(mmu.FlatMap()) - {virt / 4096}
      ensures Preserves(old(Mem()), Mem())
      ensures var move := FrameOwners.Unmap(virt / 4096);
        FrameOwners.Moves(old(Snapshot()), move, Snapshot(), mmu.Dir(), mmu.balloc.Bits())
      ensures old(Healthy()) ==>
        (Healthy() <==> old(virt / 4096 < 0xFFC00 && (!Empties(mmu.ram, mmu.Dir(), virt / 4096)
                        || NeverStarved(mmu.ram, mmu.Dir(), mmu.balloc.Clear() + 1, LastPage() + 1, MAX_PAGE + 1))))
    {
      hide GoodSpace, Flat, PageAt, IsStructure, Present, FrameOf, WriteBit, Marked, CounterFor, HeapMem, UnmapRam,
           UnmapUsed, NeverStarved, Interval, HasTable, DirIndex, Empties, HeapFramesOwned;
      ghost var ram, d, used, p, flat := mmu.ram, mmu.Dir(), mmu.balloc.used, virt / 4096, mmu.FlatMap();
      PageOutsideWindow(virt);
      OwnershipAfterUnmap(ram, d, used, heap, p);
      TablesAfterUnmap(ram, d, used, p);
      if Healthy() {
        RegionTablesStay(p);
      }
      mmu.ValidIsEditable();
      phys := mmu.UnmapPage(virt);
      HeapMemGrows(ram, mmu.ram, heap, heap);
      if old(Healthy()) {
        if LastPage() < p <= MAX_PAGE {
          UnmapOfAbsentPage(ram, d, used, p);
        }
        HealthAfterTables(ram, flat, p, mmu.balloc.Clear());
      }
    }

    /** In a healthy space no table of the heap region is emptied by an unmap outside the heap. */
    lemma RegionTablesStay(p: nat)
      requires Healthy() && p < 0xFFC00 && !(START_PAGE <= p <= LastPage())
      ensures LastPage() < p <= MAX_PAGE ==> p !in mmu.FlatMap() && !Empties(mmu.ram, mmu.Dir(), p)
    {
      hide Present, FrameOf, WriteBit, Flat, HeapFramesOwned, NeverStarved, Marked, CounterFor;
      if LastPage() < p <= MAX_PAGE {
        assert p !in mmu.FlatMap();
        InFlat(mmu.ram, mmu.Dir(), p);
        AbsentPageEmptiesNothing(mmu.ram, mmu.Dir(), mmu.balloc.used, p);
      }
    }

    lemma PageOutsideWindow(virt: Word)
      requires DirIndex(virt) != 1023
      ensures virt / 4096 < 0xFFC00 && virt / 4096 / 1024 == DirIndex(virt)
    {
    }

    /** No frame has two owners: directory, tables and heap frames are pairwise distinct blocks, and
        each has its bit set in the bitmap. */
    lemma OneOwnerPerFrame()
      requires Valid()
      ensures FrameOwners.NoFrameHasTwoOwners(Snapshot(), mmu.Dir())
      ensures forall o :: FrameOwners.Owned(Snapshot(), mmu.Dir(), o).Some? ==>
        FrameOwners.Owned(Snapshot(), mmu.Dir(), o).value in Marked(mmu.balloc.bmp[..])
    {
      hide GoodSpace, HeapFramesOwned, Flat, Marked, CounterFor, FrameOwners.Owned;
      ValidIsSound();
      FrameOwners.SoundHasOneOwnerPerFrame(Snapshot(), mmu.Dir());
    }
  }
}
