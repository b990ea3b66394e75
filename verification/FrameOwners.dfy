/** Runs of map, unmap and heap growth, and who owns each frame. */
module FrameOwners {
  import opened Paging
  import opened AddressSpace
  import opened BlockSpec
  import opened HeapFrames

  /** What the calls change: memory, the blocks in use, the heap pages with their frames, and the
      last page of the heap. */
  datatype Kernel = Kernel(ram: Ram, used: set<nat>, heap: map<nat, nat>, last: nat)

  ghost predicate Sound(k: Kernel, dir: int) {
    && IsFrame(dir) && GoodSpace(k.ram, dir, k.used) && HeapFramesOwned(k.ram, dir, k.used, k.heap)
    && 0 in k.used && START_PAGE - 1 <= k.last <= MAX_PAGE
    && (forall p :: p in k.heap ==> START_PAGE <= p <= k.last)
    && (forall p: nat :: START_PAGE <= p <= k.last ==> p in Flat(k.ram, dir))
  }

  datatype Move = Map(page: nat, phys: Word) | Unmap(page: nat) | Grow

  /** What the calls ask of their callers. */
  ghost predicate Asks(k: Kernel, m: Move) {
    match m
    case Map(p, phys) => p < 0xFFC00 && phys % 4096 == 0
    case Unmap(p) => p < 0xFFC00 && !(START_PAGE <= p <= k.last)
    case Grow => START_PAGE - 1 <= k.last < MAX_PAGE
  }

  /** A table that is missing can be paid for. A growth takes the block for the page first. */
  ghost predicate TableReady(k: Kernel, dir: int, bits: nat, m: Move)
    requires IsFrame(dir) && Asks(k, m)
  {
    match m
    case Map(p, _) => HasTableFor(k.ram, dir, p) || LowestClear(k.used, 0, bits) != 0
    case Unmap(_) => true
    case Grow =>
      var f := LowestClear(k.used, 0, bits);
      f == 0 || HasTableFor(k.ram, dir, k.last + 1) || LowestClear(k.used + {f}, 0, bits) != 0
  }

  lemma NextIsFrame(used: set<nat>, bits: nat)
    requires bits <= 0x100000
    ensures IsFrame(LowestClear(used, 0, bits))
  {
    LowestClearIsLowest(used, 0, bits);
  }

  ghost function After(k: Kernel, dir: int, bits: nat, m: Move): Kernel
    requires IsFrame(dir) && bits <= 0x100000 && Asks(k, m)
  {
    NextIsFrame(k.used, bits);
    match m
    case Map(p, phys) =>
      var t := LowestClear(k.used, 0, bits);
      Kernel(MapRam(k.ram, dir, p, phys, t), MapUsed(k.ram, dir, k.used, p, t), k.heap, k.last)
    case Unmap(p) => Kernel(UnmapRam(k.ram, dir, p), UnmapUsed(k.ram, dir, k.used, p), k.heap, k.last)
    case Grow => AfterGrow(k, dir, bits)
  }

  /** One turn of kspace_brk's loop: a frame for the next page, and a block for its table if that is
      missing. A page that is mapped already is skipped and its frame given back. */
  ghost function AfterGrow(k: Kernel, dir: int, bits: nat): Kernel
    requires IsFrame(dir) && bits <= 0x100000 && START_PAGE - 1 <= k.last < MAX_PAGE
  {
    NextIsFrame(k.used, bits);
    var f, p := LowestClear(k.used, 0, bits), k.last + 1;
    if f == 0 then k
    else if p in Flat(k.ram, dir) then k.(last := p)
    else
      NextIsFrame(k.used + {f}, bits);
      var t := LowestClear(k.used + {f}, 0, bits);
      Kernel(MapRam(k.ram, dir, p, f * 4096, t), MapUsed(k.ram, dir, k.used + {f}, p, t), k.heap[p := f], p)
  }

  /** Move m takes one kernel state to the other. */
  ghost predicate Moves(k: Kernel, m: Move, k': Kernel, dir: int, bits: nat) {
    IsFrame(dir) && bits <= 0x100000 && Asks(k, m) && k' == After(k, dir, bits, m)
  }

  /** A growth as its steps do it: the state stays, moves on over a mapped page, or gains a page. */
  lemma GrowIsAMove(k: Kernel, k': Kernel, dir: int, bits: nat)
    requires IsFrame(dir) && bits <= 0x100000 && START_PAGE - 1 <= k.last < MAX_PAGE
    requires
      var f, t := LowestClear(k.used, 0, bits), LowestClear(k.used + {LowestClear(k.used, 0, bits)}, 0, bits);
      if f == 0 then k' == k
      else if k.last + 1 in Flat(k.ram, dir) then k' == Kernel(k.ram, k.used, k.heap, k.last + 1)
      else
        && IsFrame(f) && IsFrame(t) && k'.heap == k.heap[k.last + 1 := f] && k'.last == k.last + 1
        && k'.ram == MapRam(k.ram, dir, k.last + 1, f * 4096, t)
        && k'.used == MapUsed(k.ram, dir, k.used + {f}, k.last + 1, t)
    ensures Moves(k, Grow, k', dir, bits)
  {
    hide Flat, MapRam, MapUsed, LowestClear;
  }

  lemma MapKeepsSound(k: Kernel, dir: int, bits: nat, p: nat, phys: Word)
    requires Sound(k, dir) && bits <= 0x100000 && Asks(k, Map(p, phys))
    ensures Sound(After(k, dir, bits, Map(p, phys)), dir) <==> TableReady(k, dir, bits, Map(p, phys))
  {
    hide GoodSpace, Flat, HeapFramesOwned, MapRam, MapUsed;
    LowestClearIsLowest(k.used, 0, bits);
    var t := LowestClear(k.used, 0, bits);
    MapInsertsOnePage(k.ram, dir, k.used, p, phys, t);
    MapKeepsGoodSpace(k.ram, dir, k.used, p, phys, t);
    NullStaysHeld(k.ram, dir, k.used, p, t);
    if p in Flat(k.ram, dir) {
      MapOfPresentPage(k.ram, dir, k.used, p, phys, t);
    } else {
      OwnershipAfterMap(k.ram, dir, k.used, k.heap, p, phys, t);
    }
  }

  lemma NullStaysHeld(ram: Ram, dir: int, used: set<nat>, p: nat, t: nat)
    requires IsFrame(dir) && p < 0xFFC00 && 0 in used
    ensures 0 in MapUsed(ram, dir, used, p, t)
  {
  }

  lemma UnmapKeepsSound(k: Kernel, dir: int, bits: nat, p: nat)
    requires Sound(k, dir) && bits <= 0x100000 && Asks(k, Unmap(p))
    ensures Sound(After(k, dir, bits, Unmap(p)), dir)
  {
    hide GoodSpace, Flat, HeapFramesOwned, UnmapRam, UnmapUsed;
    UnmapRemovesOnePage(k.ram, dir, k.used, p);
    UnmapKeepsGoodSpace(k.ram, dir, k.used, p);
    OwnershipAfterUnmap(k.ram, dir, k.used, k.heap, p);
    NullSurvivesUnmap(k.ram, dir, k.used, p);
  }

  lemma NullSurvivesUnmap(ram: Ram, dir: int, used: set<nat>, p: nat)
    requires GoodSpace(ram, dir, used) && p < 0xFFC00 && 0 in used
    ensures 0 in UnmapUsed(ram, dir, used, p)
  {
    hide Present, FrameOf, WriteBit;
  }

  lemma GrowKeepsSound(k: Kernel, dir: int, bits: nat)
    requires Sound(k, dir) && bits <= 0x100000 && Asks(k, Grow)
    ensures Sound(After(k, dir, bits, Grow), dir) <==> TableReady(k, dir, bits, Grow)
  {
    hide GoodSpace, Flat, HeapFramesOwned, MapRam, MapUsed, IsStructure;
    LowestClearIsLowest(k.used, 0, bits);
    var f, p := LowestClear(k.used, 0, bits), k.last + 1;
    if f != 0 {
      LowestClearIsLowest(k.used + {f}, 0, bits);
      var t := LowestClear(k.used + {f}, 0, bits);
      FreshBlock(k.ram, dir, k.used, k.heap, f);
      MappedPageHasTable(k.ram, dir, p);
      if p !in Flat(k.ram, dir) {
        MapInsertsOnePage(k.ram, dir, k.used + {f}, p, f * 4096, t);
        MapKeepsGoodSpace(k.ram, dir, k.used + {f}, p, f * 4096, t);
        NullStaysHeld(k.ram, dir, k.used + {f}, p, t);
        OwnershipOfNewPage(k.ram, dir, k.used + {f}, k.heap, p, f, t);
      }
    }
  }

  lemma MappedPageHasTable(ram: Ram, dir: int, p: nat)
    requires IsFrame(dir) && p < 0xFFC00
    ensures p in Flat(ram, dir) ==> HasTableFor(ram, dir, p)
  {
    hide Present, FrameOf, WriteBit;
    InFlat(ram, dir, p);
  }

  /** A move keeps the kernel sound exactly when its table is there or can be paid for. */
  lemma StepKeepsSound(k: Kernel, dir: int, bits: nat, m: Move)
    requires Sound(k, dir) && bits <= 0x100000 && Asks(k, m)
    ensures Sound(After(k, dir, bits, m), dir) <==> TableReady(k, dir, bits, m)
  {
    match m
    case Map(p, phys) => MapKeepsSound(k, dir, bits, p, phys);
    case Unmap(p) => UnmapKeepsSound(k, dir, bits, p);
    case Grow => GrowKeepsSound(k, dir, bits);
  }

  // ----- owners -----

  /** Who can own a frame. */
  datatype Owner = Directory | Table(i: Index) | HeapPage(p: nat)

  ghost function Owned(k: Kernel, dir: int, o: Owner): Option<nat>
    requires IsFrame(dir)
  {
    match o
    case Directory => Some(dir)
    case Table(i) => if i < 1023 && HasTable(k.ram, dir, i) then Some(TableOf(k.ram, dir, i)) else None
    case HeapPage(p) => if p in k.heap then Some(k.heap[p]) else None
  }

  /** No frame has two owners, and every owned frame is a non-null block in use. */
  ghost predicate NoFrameHasTwoOwners(k: Kernel, dir: int)
    requires IsFrame(dir)
  {
    && (forall a, b :: a != b && Owned(k, dir, a).Some? && Owned(k, dir, b).Some? ==>
          Owned(k, dir, a) != Owned(k, dir, b))
    && (forall a :: Owned(k, dir, a).Some? ==> Owned(k, dir, a).value in k.used && Owned(k, dir, a).value != 0)
  }

  lemma SoundHasOneOwnerPerFrame(k: Kernel, dir: int)
    requires Sound(k, dir)
    ensures NoFrameHasTwoOwners(k, dir)
  {
    hide Present, FrameOf, WriteBit, PageAt, Flat;
    forall a, b | a != b && Owned(k, dir, a).Some? && Owned(k, dir, b).Some?
      ensures Owned(k, dir, a) != Owned(k, dir, b)
    {
      if a.Table? && b.Table? {
        assert a.i < b.i || b.i < a.i;
      }
    }
  }

  // ----- runs -----

  ghost predicate Allowed(k: Kernel, dir: int, bits: nat, ms: seq<Move>)
    requires IsFrame(dir) && bits <= 0x100000
    decreases |ms|
  {
    || ms == []
    || (Asks(k, ms[0]) && TableReady(k, dir, bits, ms[0]) && Allowed(After(k, dir, bits, ms[0]), dir, bits, ms[1..]))
  }

  ghost function AfterRun(k: Kernel, dir: int, bits: nat, ms: seq<Move>): Kernel
    requires IsFrame(dir) && bits <= 0x100000 && Allowed(k, dir, bits, ms)
    decreases |ms|
  {
    if ms == [] then k else AfterRun(After(k, dir, bits, ms[0]), dir, bits, ms[1..])
  }

  /** Over any run of maps, unmaps and growths whose tables can be paid for, no frame has two owners,
      every owned block is in use, and every heap page through the last one is mapped. */
  lemma {:induction false} RunKeepsOwners(k: Kernel, dir: int, bits: nat, ms: seq<Move>)
    requires IsFrame(dir) && Sound(k, dir) && bits <= 0x100000 && Allowed(k, dir, bits, ms)
    ensures Sound(AfterRun(k, dir, bits, ms), dir) && NoFrameHasTwoOwners(AfterRun(k, dir, bits, ms), dir)
    decreases |ms|
  {
    hide Sound, After, TableReady, NoFrameHasTwoOwners;
    if ms == [] {
      SoundHasOneOwnerPerFrame(k, dir);
    } else {
      StepKeepsSound(k, dir, bits, ms[0]);
      RunKeepsOwners(After(k, dir, bits, ms[0]), dir, bits, ms[1..]);
    }
  }
}
