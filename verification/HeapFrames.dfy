/** The frames of the kernel heap: who owns them, and the bytes they hold. */
module HeapFrames {
  import opened Paging
  import opened AddressSpace
  import opened SharedSpaces
  import opened ByteMemory

  /** Page numbers of KHEAP_PAGE_START and KHEAP_PAGE_MAX. */
  const START_PAGE: nat := 0xD0000
  const MAX_PAGE: nat := 0xEFFFF

  /** Which physical word a heap address lives in. */
  ghost function HeapLoc(heap: map<nat, nat>, a: nat): Loc
    requires a / 4096 in heap
  {
    Loc(heap[a / 4096], a % 4096 / 4)
  }

  /** Heap pages are mapped to their own frames; those are held blocks, pairwise distinct and
      apart from the directory and every table. */
  ghost predicate HeapFramesOwned(ram: Ram, dir: int, used: set<nat>, heap: map<nat, nat>)
    requires IsFrame(dir)
  {
    && (forall p :: p in heap ==> START_PAGE <= p <= MAX_PAGE && PageAt(ram, dir, p) == Some(Page(heap[p], true)))
    && (forall p :: p in heap ==>
          heap[p] in used && IsFrame(heap[p]) && heap[p] != 0 && !IsStructure(ram, dir, heap[p]))
    && (forall p, q :: p in heap && q in heap && p != q ==> heap[p] != heap[q])
  }

  ghost predicate KeepsFrames(heap: map<nat, nat>, ram: Ram, ram': Ram) {
    forall q :: q in heap && IsFrame(heap[q]) ==> ram'[heap[q]] == ram[heap[q]]
  }

  /** Mapping a fresh page leaves heap frames owned and untouched. */
  lemma OwnershipAfterMap(ram: Ram, dir: int, used: set<nat>, heap: map<nat, nat>, p: nat, phys: Word, t: nat)
    requires IsFrame(dir) && GoodSpace(ram, dir, used) && HeapFramesOwned(ram, dir, used, heap)
    requires p < 0xFFC00 && p !in Flat(ram, dir) && phys % 4096 == 0
    requires IsFrame(t) && (HasTableFor(ram, dir, p) || t !in used || t == 0)
    ensures HeapFramesOwned(MapRam(ram, dir, p, phys, t), dir, MapUsed(ram, dir, used, p, t), heap)
    ensures forall q :: q in heap ==> MapRam(ram, dir, p, phys, t)[heap[q]] == ram[heap[q]]
  {
    hide GoodSpace, Flat, PageAt, IsStructure, MapRam;
    MapInsertsOnePage(ram, dir, used, p, phys, t);
    var ram' := MapRam(ram, dir, p, phys, t);
    forall q | q in heap
      ensures PageAt(ram', dir, q) == Some(Page(heap[q], true)) && !IsStructure(ram', dir, heap[q])
      ensures ram'[heap[q]] == ram[heap[q]]
    {
      InFlat(ram, dir, q);
      InFlat(ram', dir, q);
      BystanderAfterMap(ram, dir, used, p, phys, t, heap[q]);
    }
  }

  /** The page just mapped joins the heap. */
  lemma OwnershipOfNewPage(ram: Ram, dir: int, used: set<nat>, heap: map<nat, nat>, p: nat, f: nat, t: nat)
    requires IsFrame(dir) && GoodSpace(ram, dir, used) && HeapFramesOwned(ram, dir, used, heap)
    requires START_PAGE <= p <= MAX_PAGE && p !in Flat(ram, dir)
    requires IsFrame(f) && f in used && f != 0 && !IsStructure(ram, dir, f) && forall q :: q in heap ==> heap[q] != f
    requires IsFrame(t) && (HasTableFor(ram, dir, p) || t !in used || t == 0)
    ensures HeapFramesOwned(MapRam(ram, dir, p, f * 4096, t), dir, MapUsed(ram, dir, used, p, t), heap[p := f])
  {
    hide GoodSpace, Flat, PageAt, IsStructure, MapRam;
    var ram' := MapRam(ram, dir, p, f * 4096, t);
    OwnershipAfterMap(ram, dir, used, heap, p, f * 4096, t);
    MapInsertsOnePage(ram, dir, used, p, f * 4096, t);
    InFlat(ram', dir, p);
    BystanderAfterMap(ram, dir, used, p, f * 4096, t, f);
  }

  /** Unmapping a page outside the heap frees no heap frame and moves none. */
  lemma OwnershipAfterUnmap(ram: Ram, dir: int, used: set<nat>, heap: map<nat, nat>, p: nat)
    requires IsFrame(dir) && GoodSpace(ram, dir, used) && HeapFramesOwned(ram, dir, used, heap)
    requires p < 0xFFC00 && p !in heap
    ensures HeapFramesOwned(UnmapRam(ram, dir, p), dir, UnmapUsed(ram, dir, used, p), heap)
    ensures KeepsFrames(heap, ram, UnmapRam(ram, dir, p))
  {
    hide GoodSpace, Flat, PageAt, IsStructure, UnmapRam, UnmapUsed;
    UnmapRemovesOnePage(ram, dir, used, p);
    var ram' := UnmapRam(ram, dir, p);
    forall q | q in heap
      ensures PageAt(ram', dir, q) == Some(Page(heap[q], true)) && ram'[heap[q]] == ram[heap[q]]
      ensures !IsStructure(ram', dir, heap[q]) && heap[q] in UnmapUsed(ram, dir, used, p)
    {
      InFlat(ram, dir, q);
      InFlat(ram', dir, q);
      BystanderAfterUnmap(ram, dir, used, p, heap[q]);
    }
  }

  /** A block that was clear is no part of the tables and no heap frame. */
  lemma FreshBlock(ram: Ram, dir: int, used: set<nat>, heap: map<nat, nat>, f: nat)
    requires IsFrame(dir) && GoodSpace(ram, dir, used) && HeapFramesOwned(ram, dir, used, heap)
    requires IsFrame(f) && f !in used
    ensures !IsStructure(ram, dir, f) && (forall q :: q in heap ==> heap[q] != f)
    ensures GoodSpace(ram, dir, used + {f}) && HeapFramesOwned(ram, dir, used + {f}, heap)
    ensures used + {f} - {f} == used
  {
    hide Present, FrameOf, WriteBit, PageAt;
  }

  lemma TablesAfterMap(ram: Ram, dir: int, used: set<nat>, p: nat, phys: Word, t: nat)
    requires GoodSpace(ram, dir, used) && p < 0xFFC00 && p !in Flat(ram, dir) && IsFrame(t)
    requires HasTableFor(ram, dir, p) || t !in used || t == 0
    ensures forall i: Index :: i < 1023 ==>
      (HasTable(MapRam(ram, dir, p, phys, t), dir, i) <==> HasTable(ram, dir, i) || i == p / 1024)
  {
    hide Present, FrameOf, WriteBit, Flat;
    TableEntry(t);
    InFlat(ram, dir, p);
    var ram' := MapRam(ram, dir, p, phys, t);
    if HasTableFor(ram, dir, p) {
      EditKeepsShape(ram, dir, used, p, Or3(phys));
    } else {
      assert ram'[dir] == ram[dir][p / 1024 := t * 4096 + 3];
    }
  }

  /** The bytes of the heap pages, by virtual address. */
  ghost function HeapMem(ram: Ram, heap: map<nat, nat>): Mem {
    map a: nat | a < 0x1_0000_0000 && a / 4096 in heap && IsFrame(heap[a / 4096]) ::
      ByteOf(ram[heap[a / 4096]][a % 4096 / 4], a % 4)
  }

  /** Every address of `m` keeps its byte in `m'`. */
  ghost predicate Preserves(m: Mem, m': Mem) {
    forall a :: a in m ==> a in m' && m'[a] == m[a]
  }

  lemma HeapMemGrows(ram: Ram, ram': Ram, heap: map<nat, nat>, heap': map<nat, nat>)
    requires forall p :: p in heap ==> p in heap' && heap'[p] == heap[p]
    requires KeepsFrames(heap, ram, ram')
    ensures Preserves(HeapMem(ram, heap), HeapMem(ram', heap'))
  {
  }

  lemma SameWord(a: nat, b: nat)
    ensures a / 4096 == b / 4096 && a % 4096 / 4 == b % 4096 / 4 && a % 4 == b % 4 ==> a == b
  {
    AddressParts(a);
    AddressParts(b);
  }

  lemma AddressParts(a: nat)
    ensures a == 4096 * (a / 4096) + 4 * (a % 4096 / 4) + a % 4
  {
    var page, offset := a / 4096, a % 4096;
    var word, byte := offset / 4, offset % 4;
    assert a == 4096 * page + offset && offset == 4 * word + byte;
    QuotientIs(a, 4, 1024 * page + word, byte);
  }

  /** Different heap addresses live in different bytes: rewriting one byte of a word changes one
      address only. */
  lemma HeapMemAfterPut(ram: Ram, dir: int, used: set<nat>, heap: map<nat, nat>, a: nat, b: Byte)
    requires IsFrame(dir) && HeapFramesOwned(ram, dir, used, heap)
    requires a < 0x1_0000_0000 && a / 4096 in heap
    ensures var w := At(ram, HeapLoc(heap, a));
      HeapMem(Put(ram, HeapLoc(heap, a), WithByte(w, a % 4, b)), heap) == HeapMem(ram, heap)[a := b]
  {
    hide PageAt, IsStructure, ByteOf, WithByte;
    var w := At(ram, HeapLoc(heap, a));
    var ram' := Put(ram, HeapLoc(heap, a), WithByte(w, a % 4, b));
    forall c: nat | c < 0x1_0000_0000 && c / 4096 in heap
      ensures ByteOf(ram'[heap[c / 4096]][c % 4096 / 4], c % 4) ==
              if c == a then b else ByteOf(ram[heap[c / 4096]][c % 4096 / 4], c % 4)
    {
      SameWord(a, c);
      ByteOfWithByte(w, a % 4, b, c % 4);
    }
  }

  lemma OwnershipAfterWrite(ram: Ram, dir: int, used: set<nat>, heap: map<nat, nat>, a: nat, w: Word)
    requires IsFrame(dir) && GoodSpace(ram, dir, used) && HeapFramesOwned(ram, dir, used, heap)
    requires a < 0x1_0000_0000 && a / 4096 in heap
    ensures var ram' := Put(ram, HeapLoc(heap, a), w);
      && GoodSpace(ram', dir, used) && HeapFramesOwned(ram', dir, used, heap)
      && Flat(ram', dir) == Flat(ram, dir) && ram'[dir] == ram[dir]
  {
    hide GoodSpace, Flat, PageAt, IsStructure, Present, FrameOf;
    var ram' := Put(ram, HeapLoc(heap, a), w);
    BystanderWrite(ram, ram', dir, used, heap[a / 4096]);
    StructureIgnoresOtherFrames(ram, ram', dir, heap[a / 4096]);
    forall p | p in heap
      ensures PageAt(ram', dir, p) == Some(Page(heap[p], true)) && !IsStructure(ram', dir, heap[p])
    {
      InFlat(ram, dir, p);
      InFlat(ram', dir, p);
      StructureSameDir(ram, ram', dir, heap[p]);
    }
  }
}
