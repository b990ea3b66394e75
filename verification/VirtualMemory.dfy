/** The address-space manager of memory_virt.c: it edits tables only through virtual addresses. */
module VirtualMemory {
  import opened Paging
  import opened AddressSpace
  import opened SharedSpaces
  import opened BlockSpec
  import opened BlockAllocators
  import opened BitWords

  class Mmu {
    const balloc: BlockAllocator
    var ram: Ram
    var cr3: Word
    var pdirPhysical: Word
    var pdirVirtual: Word

    /** The machine as the boot code leaves it: tables in memory, no manager yet. */
    constructor (balloc: BlockAllocator, bootRam: Ram, bootCr3: Word)
      ensures this.balloc == balloc && ram == bootRam && cr3 == bootCr3
      ensures pdirPhysical == 0 && pdirVirtual == 0
    {
      this.balloc := balloc;
      ram, cr3, pdirPhysical, pdirVirtual := bootRam, bootCr3, 0, 0;
    }

    /** The frame of the directory that the hardware walks from. */
    ghost function Root(): nat
      reads this
    {
      FrameOf(cr3)
    }

    /** The frame of the directory that the manager keeps. */
    ghost function Dir(): nat
      reads this
    {
      FrameOf(pdirPhysical)
    }

    ghost predicate Valid()
      reads this, balloc, balloc.bmp
    {
      && balloc.Valid() && 0 in balloc.used
      && cr3 % 4096 == 0 && pdirPhysical == cr3 && pdirVirtual == 0xFFFFF000
      && GoodSpace(ram, Dir(), balloc.used)
    }

    /** As Valid, but the processor may walk from another directory, as long as the window seen from
        there opens on the manager's: the state that an address-space switch leads to. */
    ghost predicate Editable()
      reads this, balloc, balloc.bmp
    {
      && balloc.Valid() && 0 in balloc.used
      && cr3 % 4096 == 0 && pdirPhysical % 4096 == 0 && pdirVirtual == 0xFFFFF000
      && GoodSpace(ram, Dir(), balloc.used)
      && OpensOn(ram, Root(), Dir()) && IsSafeRoot()
    }

    /** The walk starts at the manager's directory, or at a held block that is no part of its tables. */
    ghost predicate IsSafeRoot()
      reads this, balloc
      requires IsFrame(Dir())
    {
      Root() == Dir() || (Root() in balloc.used && Root() != 0 && !IsStructure(ram, Dir(), Root()))
    }

    lemma ValidIsEditable()
      ensures Valid() <==> Editable() && pdirPhysical == cr3
    {
      hide Present, FrameOf, WriteBit, NoIdleTable, Owned, Marked, CounterFor;
    }

    ghost function FlatMap(): map<nat, Page>
      reads this
    {
      Flat(ram, Dir())
    }

    /** What the processor translates, outside the window. */
    ghost function RootMap(): map<nat, Page>
      reads this
    {
      Flat(ram, Root())
    }

    // ----- the processor's view of memory -----

    ghost predicate Mapped(va: Word)
      reads this
    {
      va % 4 == 0 && Walk(ram, Root(), va).Some?
    }

    method Load(va: Word) returns (w: Word)
      requires Mapped(va)
      ensures w == At(ram, Walk(ram, Root(), va).value)
    {
      var loc := Walk(ram, FrameOf(cr3), va).value;
      w := ram[loc.frame][loc.word];
    }

    method Store(va: Word, w: Word)
      requires Mapped(va)
      modifies this`ram
      ensures ram == Put(old(ram), old(Walk(ram, Root(), va)).value, w)
    {
      var loc := Walk(ram, FrameOf(cr3), va).value;
      ram := ram[loc.frame := ram[loc.frame][loc.word := w]];
    }

    // ----- window accesses: what the C code's pointer expressions read and write, through a window
    // on directory d -----

    /** pdir_virtual[i] */
    method LoadDirEntry(i: Index, ghost d: nat) returns (w: Word)
      requires OpensOn(ram, Root(), d) && pdirVirtual == 0xFFFFF000
      ensures w == ram[d][i]
    {
      hide Walk, Present, FrameOf;
      WindowLandsOnTables(ram, Root(), d, i, 0);
      w := Load(pdirVirtual + 4 * i);
    }

    /** pdir_virtual[i] = w */
    method StoreDirEntry(i: Index, w: Word, ghost d: nat)
      requires OpensOn(ram, Root(), d) && pdirVirtual == 0xFFFFF000
      modifies this`ram
      ensures ram == Put(old(ram), Loc(d, i), w)
    {
      hide Walk, Present, FrameOf;
      WindowLandsOnTables(ram, Root(), d, i, 0);
      Store(pdirVirtual + 4 * i, w);
    }

    /** p_table[j], where p_table is 0xFFC00000 + i * 0x1000 */
    method LoadTableEntry(i: Index, j: Index, ghost d: nat) returns (w: Word)
      requires OpensOn(ram, Root(), d) && HasTable(ram, d, i)
      ensures w == ram[TableOf(ram, d, i)][j]
    {
      hide Walk, Present, FrameOf;
      WindowLandsOnTables(ram, Root(), d, i, j);
      w := Load(0xFFC00000 + i * 0x1000 + 4 * j);
    }

    /** p_table[j] = w */
    method StoreTableEntry(i: Index, j: Index, w: Word, ghost d: nat)
      requires OpensOn(ram, Root(), d) && HasTable(ram, d, i)
      modifies this`ram
      ensures ram == Put(old(ram), Loc(old(TableOf(ram, d, i)), j), w)
    {
      hide Walk, Present, FrameOf;
      WindowLandsOnTables(ram, Root(), d, i, j);
      Store(0xFFC00000 + i * 0x1000 + 4 * j, w);
    }

    /** A table frame that neither d nor the walk itself goes through first. */
    ghost predicate EditsTable(i: Index, d: nat)
      reads this
    {
      && OpensOn(ram, Root(), d) && i < 1023 && HasTable(ram, d, i)
      && TableOf(ram, d, i) != d && TableOf(ram, d, i) != Root()
    }

    /** memset (p_table, 0, 4096) through the window. */
    method ZeroTable(i: Index, ghost d: nat)
      requires EditsTable(i, d)
      modifies this`ram
      ensures ram == old(ram)[old(TableOf(ram, d, i)) := ZeroFrame()]
    {
      hide Present, FrameOf, WriteBit;
      ghost var t := TableOf(ram, d, i);
      for k := 0 to 1024
        invariant forall f: nat :: f < 0x100000 && f != t ==> ram[f] == old(ram)[f]
        invariant forall j: nat :: j < k ==> ram[t][j] == 0
      {
        StoreTableEntry(i, k, 0, d);
      }
      assert ram[t] == ZeroFrame();
    }

    // ----- mapping -----

    /** What the manager's next edit under entry i needs, from any editable state. */
    lemma CanEdit(i: Index)
      requires Editable() && i < 1023
      ensures SelfMapped(ram, Dir()) && OpensOn(ram, Root(), Dir()) && Dir() in balloc.used && Dir() != 0
      ensures Root() in balloc.used && Root() != 0
      ensures HasTable(ram, Dir(), i) ==>
        EditsTable(i, Dir()) && TableOf(ram, Dir(), i) in balloc.used && TableOf(ram, Dir(), i) != 0
    {
      hide Present, FrameOf, WriteBit, NoIdleTable, Marked, CounterFor;
    }

    /** vmmngr_map_page, from any editable state. A missing table gets the block allocator's answer
        unseen, so the space stays good exactly when the table or a block is there. Reaching the end
        reloads cr3 with the manager's own directory; the early return does not. */
    method MapPage(phys: Word, virt: Word) returns (r: int)
      requires Editable() && phys % 4096 == 0 && DirIndex(virt) != 1023
      modifies this`ram, this`cr3, balloc, balloc.bmp
      ensures r == (if old(virt / 4096 in FlatMap()) then -1 else 0)
      ensures cr3 == (if r == 0 then pdirPhysical else old(cr3))
      ensures Valid() <==>
        && old(HasTable(ram, Dir(), DirIndex(virt)) || GetResult(balloc.used, balloc.Bits()) != 0)
        && cr3 == pdirPhysical
      ensures FlatMap() == if r == -1 then old(FlatMap()) else old(FlatMap())[virt / 4096 := Page(phys / 4096, true)]
      ensures balloc.Valid() && 0 in balloc.used
      ensures
        var t := LowestClear(old(balloc.used), 0, balloc.Bits());
        && IsFrame(t)
        && ram == MapRam(old(ram), Dir(), virt / 4096, phys, t)
        && balloc.used == MapUsed(old(ram), Dir(), old(balloc.used), virt / 4096, t)
    {
      hide GoodSpace, Flat, PageAt, AddTable, Present, FrameOf, WriteBit, Or3, DirIndex, TableIndex, Marked,
           CounterFor, OpensOn, SelfMapped, IsSafeRoot;
      var i: Index, j: Index := VirtualToPgidx(virt);
      ghost var p, d := virt / 4096, Dir();
      ghost var t := LowestClear(balloc.used, 0, balloc.Bits());
      LowestClearIsLowest(balloc.used, 0, balloc.Bits());
      CanEdit(i);
      InFlat(ram, d, p);
      MapInsertsOnePage(ram, d, balloc.used, p, phys, t);
      MapKeepsGoodSpace(ram, d, balloc.used, p, phys, t);
      var pde := LoadDirEntry(i, d);
      if Present(pde) {
        var pte := LoadTableEntry(i, j, d);
        if Present(pte) {
          return -1;
        }
        StoreTableEntry(i, j, Or3(phys), d);
      } else {
        MapIntoNewTable(i, j, phys);
      }
      cr3 := pdirPhysical;
      r := 0;
    }

    /** i386_virtual_to_pgidx */
    method VirtualToPgidx(virt: Word) returns (i: Index, j: Index)
      ensures i == DirIndex(virt) && j == TableIndex(virt)
      ensures i == virt / 4096 / 1024 && j == virt / 4096 % 1024 && virt / 4096 == 1024 * i + j
    {
      hide DirIndex, TableIndex, PageMask;
      Pgidx(virt);
      var addr := PageMask(virt);
      i := addr / 0x400000;
      j := addr % 0x400000 / 0x1000;
    }

    /** Entry i of d names frame t, which neither d nor the walk is: the window now opens on t. */
    lemma NewTableInWindow(was: Ram, d: nat, i: Index, t: nat)
      requires OpensOn(was, Root(), d) && i < 1023 && IsFrame(t) && t != d && t != Root()
      requires ram == Put(was, Loc(d, i), Or3(t * 4096))
      ensures OpensOn(ram, Root(), d) && HasTable(ram, d, i) && TableOf(ram, d, i) == t && EditsTable(i, d)
    {
      hide Present, FrameOf, WriteBit;
      TableEntry(t);
    }

    lemma ZeroedTableInWindow(was: Ram, d: nat, i: Index, t: nat)
      requires OpensOn(was, Root(), d) && HasTable(was, d, i) && TableOf(was, d, i) == t && t != d && t != Root()
      requires IsFrame(t)
      requires ram == was[t := ZeroFrame()]
      ensures OpensOn(ram, Root(), d) && HasTable(ram, d, i) && TableOf(ram, d, i) == t
    {
      hide Present, FrameOf, WriteBit;
    }

    /** The else-branch of vmmngr_map_page, whatever balloc_get answers. */
    method MapIntoNewTable(i: Index, j: Index, phys: Word)
      requires Editable() && i < 1023 && !HasTable(ram, Dir(), i)
      modifies this`ram, balloc, balloc.bmp
      ensures balloc.Valid()
      ensures
        var t := LowestClear(old(balloc.used), 0, balloc.Bits());
        && IsFrame(t) && balloc.used == old(balloc.used) + {t}
        && ram == AddTable(old(ram), Dir(), 1024 * i + j, t, Or3(phys))
    {
      hide GoodSpace, AddTable, Or3, FrameOf, WriteBit, OpensOn, SelfMapped, IsSafeRoot, Marked, CounterFor,
           EditsTable, Present;
      ghost var before, d := ram, Dir();
      ghost var t := LowestClear(balloc.used, 0, balloc.Bits());
      LowestClearIsLowest(balloc.used, 0, balloc.Bits());
      CanEdit(i);
      var table := balloc.Get();
      AddTableInSteps(before, d, i, j, t, Or3(phys));
      StoreDirEntry(i, Or3(table), d);
      NewTableInWindow(before, d, i, t);
      ghost var named := ram;
      ZeroTable(i, d);
      ZeroedTableInWindow(named, d, i, t);
      StoreTableEntry(i, j, Or3(phys), d);
    }

    // ----- unmapping -----

    /** vmmngr_unmap_page, from any editable state; it always ends on the manager's own directory. */
    method UnmapPage(virt: Word) returns (phys: Word)
      requires Editable() && DirIndex(virt) != 1023
      modifies this`ram, this`cr3, balloc, balloc.bmp
      ensures Valid()
      ensures phys == old(if virt / 4096 in FlatMap() then FlatMap()[virt / 4096].frame * 4096 else 0)
      ensures FlatMap() == old(FlatMap()) - {virt / 4096}
      ensures ram == UnmapRam(old(ram), Dir(), virt / 4096)
      ensures balloc.used == UnmapUsed(old(ram), Dir(), old(balloc.used), virt / 4096)
    {
      hide GoodSpace, Flat, PageAt, EditEntry, TableInUse, Present, FrameOf, WriteBit, DirIndex, TableIndex, Marked,
           CounterFor, OpensOn, SelfMapped, IsSafeRoot, EditsTable;
      var i: Index, j: Index := VirtualToPgidx(virt);
      ghost var p, d := virt / 4096, Dir();
      CanEdit(i);
      InFlat(ram, d, p);
      UnmapKeepsGoodSpace(ram, d, balloc.used, p);
      UnmapRemovesOnePage(ram, d, balloc.used, p);
      phys := 0;
      var pde := LoadDirEntry(i, d);
      if Present(pde) {
        phys := ClearTableEntry(i, j, d);
        var idle := TableIsIdle(i, d);
        if idle {
          DropIdleTable(i, d);
        }
      }
      cr3 := pdirPhysical;
    }

    method ClearTableEntry(i: Index, j: Index, ghost d: nat) returns (phys: Word)
      requires EditsTable(i, d)
      modifies this`ram
      ensures ram == ClearEntry(old(ram), d, 1024 * i + j) && ram[d] == old(ram)[d] && EditsTable(i, d)
      ensures phys == match old(PageAt(ram, d, 1024 * i + j)) case None => 0 case Some(page) => page.frame * 4096
    {
      phys := 0;
      var pte := LoadTableEntry(i, j, d);
      if Present(pte) {
        phys := PageMask(pte);
        StoreTableEntry(i, j, 0, d);
      }
    }

    /** The scan for a present entry. */
    method TableIsIdle(i: Index, ghost d: nat) returns (idle: bool)
      requires OpensOn(ram, Root(), d) && HasTable(ram, d, i)
      ensures idle <==> !TableInUse(ram, TableOf(ram, d, i))
    {
      hide Present, FrameOf, WriteBit;
      for k := 0 to 1024
        invariant forall j: Index :: j < k ==> !Present(ram[TableOf(ram, d, i)][j])
      {
        var pte := LoadTableEntry(i, k, d);
        if Present(pte) {
          return false;
        }
      }
      return true;
    }

    method DropIdleTable(i: Index, ghost d: nat)
      requires balloc.Valid() && OpensOn(ram, Root(), d) && pdirVirtual == 0xFFFFF000 && i < 1023
      requires HasTable(ram, d, i) && TableOf(ram, d, i) in balloc.used && TableOf(ram, d, i) != 0
      modifies this`ram, balloc, balloc.bmp
      ensures balloc.Valid()
      ensures ram == Put(old(ram), Loc(d, i), 0)
      ensures balloc.used == old(balloc.used) - {old(TableOf(ram, d, i))}
    {
      var pde := LoadDirEntry(i, d);
      balloc.Free(PageMask(pde));
      StoreDirEntry(i, 0, d);
    }

    // ----- whole address spaces -----

    /** Is virtual page TEMP_PAGE a writable view of frame n, which is no part of the tables? */
    ghost predicate TempViews(n: nat)
      reads this
    {
      && IsFrame(n) && !IsStructure(ram, Root(), n)
      && PageAt(ram, Root(), TEMP_PAGE) == Some(Page(n, true))
    }

    /** new_pdir_virt[k] = w */
    method StoreTempWord(k: Index, w: Word, ghost n: nat)
      requires TempViews(n)
      modifies this`ram
      ensures ram == Put(old(ram), Loc(n, k), w)
    {
      hide Present, FrameOf, WriteBit, Walk, PageAt;
      TempWord(k);
      WalkIsPageAt(ram, Root(), 0xCFFFF000 + 4 * k);
      Store(0xCFFFF000 + 4 * k, w);
    }

    lemma TempWord(k: Index)
      ensures var va := 0xCFFFF000 + 4 * k; va / 4096 == TEMP_PAGE && va % 4096 / 4 == k && va % 4 == 0
      ensures DirIndex(0xCFFFF000 + 4 * k) == 831
    {
    }

    /** new_pdir_virt[k] = pdir_virtual[k] for lo <= k < hi, the copying loops. */
    method CopyEntries(lo: nat, hi: nat, ghost n: nat)
      requires lo <= hi <= 1024
      requires SelfMapped(ram, Root()) && pdirVirtual == 0xFFFFF000 && TempViews(n)
      modifies this`ram
      ensures forall f: nat :: f < 0x100000 && f != n ==> ram[f] == old(ram)[f]
      ensures forall k: Index :: ram[n][k] == if lo <= k < hi then ram[Root()][k] else old(ram)[n][k]
      ensures TempViews(n)
    {
      hide Present, FrameOf, WriteBit, PageAt, IsStructure;
      ghost var before := ram;
      for k := lo to hi
        invariant forall f: nat :: f < 0x100000 && f != n ==> ram[f] == before[f]
        invariant forall j: Index :: ram[n][j] == if lo <= j < k then before[Root()][j] else before[n][j]
        invariant TempViews(n) && SelfMapped(ram, Root())
      {
        ghost var was := ram;
        var w := LoadDirEntry(k, Root());
        StoreTempWord(k, w, n);
        StructureIgnoresOtherFrames(was, ram, Root(), n);
        PagesIgnoreOtherFrames(was, ram, Root(), n, TEMP_PAGE);
      }
    }

    /** Before vmmngr_initialize: boot tables are live and block 0 is reserved. */
    ghost predicate Booted()
      reads this, balloc, balloc.bmp
    {
      balloc.Valid() && 0 in balloc.used && cr3 % 4096 == 0 && GoodSpace(ram, Root(), balloc.used)
    }

    /** The block that will become the directory. */
    ghost function NextBlock(): nat
      reads this, balloc, balloc.bmp
    {
      LowestClear(balloc.used, 0, balloc.Bits())
    }

    /** What vmmngr_initialize needs: a block for the directory that is identity-mapped (line 96
        writes through its physical address), and one more if the temporary page has no table. */
    ghost predicate CanInitialize()
      reads this, balloc, balloc.bmp
    {
      && Booted()
      && NextBlock() != 0
      && NextBlock() in RootMap() && RootMap()[NextBlock()].frame == NextBlock()
      && (HasTable(ram, Root(), 831) || LowestClear(balloc.used + {NextBlock()}, 0, balloc.Bits()) != 0)
    }

    /** Lines 84-85: the directory in use is found through its own window. */
    method AdoptCurrentDirectory()
      requires SelfMapped(ram, Root()) && cr3 % 4096 == 0
      modifies this`pdirVirtual, this`pdirPhysical
      ensures pdirVirtual == 0xFFFFF000 && pdirPhysical == cr3
    {
      pdirVirtual := 0xFFFFF000;
      var self := LoadDirEntry(1023, Root());
      pdirPhysical := PageMask(self);
    }

    lemma IdentityWord(n: nat)
      requires n < 0xFFC00
      ensures var va := n * 4096 + 4092; va / 4096 == n && va % 4096 / 4 == 1023 && va % 4 == 0
    {
    }

    /** Lines 92-96: copy the directory through the temporary page, then write its last entry through
        the physical address of the new directory, to whatever frame g that page maps. */
    method CloneInto(newDir: Word, ghost n: nat, ghost g: nat)
      requires SelfMapped(ram, Root()) && pdirVirtual == 0xFFFFF000 && TempViews(n)
      requires newDir == n * 4096 && n < 0xFFC00 && PageAt(ram, Root(), n).Some?
      requires PageAt(ram, Root(), n).value.frame == g
      modifies this`ram
      ensures IsFrame(g) && ram == CloneThrough(old(ram), Root(), n, g)
    {
      hide Present, FrameOf, WriteBit, PageAt, IsStructure, Walk, Or3;
      ghost var was, d := ram, Root();
      StructureIgnoresOtherFrames(was, was, d, n);
      CopyEntries(0, 1024, n);
      assert ram[n] == was[d];
      assert ram == was[n := was[d]];
      PagesIgnoreOtherFrames(was, ram, d, n, n);
      IdentityWord(n);
      WalkIsPageAt(ram, d, newDir + 4 * 1023);
      TableEntry(n);
      Store(newDir + 4 * 1023, Or3(newDir));
    }

    /** Lines 92-104: fill the new directory, walk from it, and unmap the temporary page. */
    method SwitchToClone(newDir: Word, ghost n: nat)
      requires Valid() && n in balloc.used && n != 0 && newDir == n * 4096 && !IsStructure(ram, Dir(), n)
      requires TEMP_PAGE in FlatMap() && FlatMap()[TEMP_PAGE] == Page(n, true)
      requires n < 0xFFC00 && n in FlatMap() && FlatMap()[n].frame == n
      modifies this, balloc, balloc.bmp
      ensures Valid() && Dir() == n
      ensures FlatMap() == old(FlatMap()) - {TEMP_PAGE}
      ensures ram == UnmapRam(Clone(old(ram), old(Dir()), n), n, TEMP_PAGE)
      ensures balloc.used == UnmapUsed(Clone(old(ram), old(Dir()), n), n, old(balloc.used), TEMP_PAGE)
    {
      hide GoodSpace, Flat, PageAt, Clone, UnmapRam, UnmapUsed, Present, FrameOf, WriteBit, Marked, CounterFor,
           IsStructure;
      EntryFacts(ram, Dir(), balloc.used, 0);
      InFlat(ram, Dir(), TEMP_PAGE);
      InFlat(ram, Dir(), n);
      CloneTranslatesAlike(ram, Dir(), balloc.used, n);
      CloneMapsItselfIff(ram, Dir(), balloc.used, n, n);
      CloneInto(newDir, n, n);
      cr3 := newDir;
      pdirPhysical := newDir;
      pdirVirtual := 0xFFFFF000;
      AlignedFrame(n);
      ValidIsEditable();
      var _ := UnmapPage(0xCFFFF000);
    }

    lemma AlignedFrame(n: nat)
      requires IsFrame(n)
      ensures FrameOf(n * 4096) == n && n * 4096 % 4096 == 0
    {
    }

    /** Lines 80-85: a block for the directory, and the window over the current one. */
    method AcquireDirectory() returns (newDir: Word)
      requires Booted() && NextBlock() != 0 && NextBlock() in RootMap()
      modifies this`pdirVirtual, this`pdirPhysical, balloc, balloc.bmp
      ensures Valid() && Dir() == Root()
      ensures newDir == old(NextBlock()) * 4096 && balloc.used == old(balloc.used) + {old(NextBlock())}
      ensures old(NextBlock()) < 0xFFC00 && old(NextBlock()) !in old(balloc.used)
    {
      hide GoodSpace, Flat, Present, FrameOf, WriteBit, Marked, CounterFor;
      ghost var n := NextBlock();
      LowestClearIsLowest(balloc.used, 0, balloc.Bits());
      FlatDomain(ram, Root(), n);
      GoodSpaceWithMoreUsed(ram, Root(), balloc.used, balloc.used + {n});
      EntryFacts(ram, Root(), balloc.used, 0);
      newDir := balloc.Get();
      AdoptCurrentDirectory();
    }

    method Initialize() returns (r: int)
      requires CanInitialize()
      modifies this, balloc, balloc.bmp
      ensures Valid()
      ensures r == if old(0xCFFFF in RootMap()) then -1 else 0
      ensures FlatMap() == old(RootMap())
      ensures Dir() == if r == 0 then old(NextBlock()) else old(Root())
      ensures r == 0 ==> forall i: Index :: i != 831 ==>
        ram[Dir()][i] == if i == 1023 then Dir() * 4096 + 3 else old(ram)[old(Root())][i]
      ensures balloc.used == old(balloc.used) + {old(NextBlock())}
      ensures KeepsHeld(old(ram), old(Root()), old(balloc.used), ram, Dir(), balloc.used)
    {
      hide GoodSpace, Flat, PageAt, Clone, MapRam, UnmapRam, UnmapUsed, Present, FrameOf, WriteBit, Marked,
           CounterFor, IsStructure, KeepsHeld, LowestClear, OpensOn, SelfMapped, Walk;
      ghost var n, d, was, used := NextBlock(), Root(), ram, balloc.used;
      ghost var t := LowestClear(used + {n}, 0, balloc.Bits());
      LowestClearIsLowest(used + {n}, 0, balloc.Bits());
      var newDir := AcquireDirectory();
      InFlat(was, d, TEMP_PAGE);
      ValidIsEditable();
      MapOfPresentPage(was, d, balloc.used, TEMP_PAGE, newDir, t);
      r := MapPage(newDir, 0xCFFFF000);
      if r == 0 {
        MoveToClone(was, d, used, n, t);
        MoveKeepsHeld(was, d, used, n, t);
        EntriesAfterMove(was, d, used, n, t);
        SwitchToClone(newDir, n);
      } else {
        NothingChanged();
        assert balloc.used - {n} == used;
      }
    }

    // ----- process address spaces -----

    method CreateAddressSpace(p: Word) returns (r: int)
      requires Valid()
      requires p != 0 ==> p % 4096 == 0 && p / 4096 in balloc.used && !IsStructure(ram, Dir(), p / 4096)
      requires HasTable(ram, Dir(), 831) || GetResult(balloc.used, balloc.Bits()) != 0
      modifies this`ram, this`cr3, balloc, balloc.bmp
      ensures Valid() && Dir() == old(Dir())
      ensures r == if p == 0 || old(0xCFFFF in FlatMap()) then -1 else 0
      ensures FlatMap() == if r == -1 then old(FlatMap()) else old(FlatMap())[0xCFFFF := Page(p / 4096, true)]
      ensures r == 0 ==> !IsStructure(ram, Dir(), p / 4096)
      ensures r == 0 ==> SharesEntries(ram, Dir(), p / 4096) && SeenAlike(ram, Dir(), p / 4096)
      ensures r == 0 ==> forall i: Index ::
        ram[p / 4096][i] == if i < 256 || 768 <= i then ram[Dir()][i] else old(ram)[p / 4096][i]
      ensures r == 0 ==> forall q: nat :: q < 0x40000 || 0xC0000 <= q < 0xFFC00 ==>
        PageAt(ram, p / 4096, q) == PageAt(ram, Dir(), q)
      ensures KeepsHeld(old(ram), Dir(), old(balloc.used) - {p / 4096}, ram, Dir(), balloc.used)
    {
      hide GoodSpace, Flat, PageAt, MapRam, Present, FrameOf, WriteBit, Marked, CounterFor, IsStructure, SeenAlike,
           KeepsHeld, SharesEntries, TableInUse, EditEntry, AddTable;
      NothingChanged();
      if p == 0 {
        return -1;
      }
      ghost var f, was, d := p / 4096, ram, Dir();
      LowestClearIsLowest(balloc.used, 0, balloc.Bits());
      InFlat(ram, d, TEMP_PAGE);
      ValidIsEditable();
      r := MapPage(p, 0xCFFFF000);
      ghost var t := LowestClear(old(balloc.used), 0, balloc.Bits());
      MapKeepsHeld(was, d, old(balloc.used), TEMP_PAGE, p, t);
      if r == -1 {
        MapOfPresentPage(was, d, old(balloc.used), TEMP_PAGE, p, t);
        return;
      }
      ghost var mid := ram;
      BystanderAfterMap(was, d, old(balloc.used), TEMP_PAGE, p, t, f);
      FillSharedEntries(f);
      PagesSeenAlike(ram, d, f);
      KeepsHeldButOne(was, mid, ram, d, old(balloc.used), balloc.used, f);
    }

    lemma NothingChanged()
      ensures forall n: nat :: KeepsHeld(ram, Dir(), balloc.used - {n}, ram, Dir(), balloc.used)
      ensures KeepsHeld(ram, Dir(), balloc.used, ram, Dir(), balloc.used)
    {
      hide IsStructure;
    }

    method FillSharedEntries(ghost f: nat)
      requires Valid() && IsFrame(f) && !IsStructure(ram, Dir(), f)
      requires TEMP_PAGE in FlatMap() && FlatMap()[TEMP_PAGE] == Page(f, true)
      modifies this`ram
      ensures Valid() && FlatMap() == old(FlatMap()) && !IsStructure(ram, Dir(), f)
      ensures SharesEntries(ram, Dir(), f) && SeenAlike(ram, Dir(), f)
      ensures forall i: Index :: !SharedIndex(i) ==> ram[f][i] == old(ram)[f][i]
      ensures forall g: nat :: g < 0x100000 && g != f ==> ram[g] == old(ram)[g]
    {
      hide GoodSpace, Flat, PageAt, Present, FrameOf, WriteBit, Marked, CounterFor, IsStructure, SeenAlike;
      ghost var was, d := ram, Dir();
      EntryFacts(ram, d, balloc.used, 0);
      InFlat(ram, d, TEMP_PAGE);
      StructureIgnoresOtherFrames(ram, ram, d, f);
      CopyEntries(0, 256, f);
      CopyEntries(768, 1024, f);
      BystanderWrite(was, ram, d, balloc.used, f);
      SharersSeeAlike(ram, d, f);
    }

    /** Frame f holds a directory as CreateAddressSpace leaves it, on a held block of its own. */
    ghost predicate IsCreatedSpace(f: nat)
      reads this, balloc
    {
      && f in balloc.used && f != 0 && IsFrame(f) && IsFrame(Dir())
      && !IsStructure(ram, Dir(), f) && SharesEntries(ram, Dir(), f)
    }

    lemma CreatedSpaceOpensOnOriginal(f: nat)
      requires IsCreatedSpace(f) && SelfMapped(ram, Dir())
      ensures OpensOn(ram, f, Dir()) && SeenAlike(ram, Dir(), f)
    {
      hide Present, FrameOf, WriteBit, IsStructure, SeenAlike;
      SharersSeeAlike(ram, Dir(), f);
    }

    /** vmmngr_switch_address_space. Going to a created space keeps the shared pages' translations
        and leaves the window open on the directory it was created from, which stays the manager's;
        going back to that one ends the switched state. */
    method SwitchAddressSpace(p: Word) returns (r: int)
      modifies this`cr3
      ensures r == (if p == 0 then -1 else 0) && cr3 == (if p == 0 then old(cr3) else p)
      ensures old(Editable()) && p != 0 && p % 4096 == 0 && IsCreatedSpace(p / 4096) ==>
        Editable() && Root() == p / 4096 && SeenAlike(ram, Dir(), Root()) && !Valid()
      ensures old(Editable()) && p != 0 && p == pdirPhysical ==> Valid()
    {
      hide GoodSpace, IsStructure, SharesEntries, SeenAlike, OpensOn, SelfMapped, Marked, CounterFor;
      if p == 0 {
        return -1;
      }
      if Editable() {
        CanEdit(0);
        if p % 4096 == 0 && IsCreatedSpace(p / 4096) {
          CreatedSpaceOpensOnOriginal(p / 4096);
          AlignedFrame(p / 4096);
          DirectoryIsStructure(p / 4096);
        }
      }
      cr3 := p;
      r := 0;
    }

    lemma DirectoryIsStructure(f: nat)
      requires IsFrame(Dir()) && !IsStructure(ram, Dir(), f)
      ensures f != Dir()
    {
    }

    /** A switch to a created space and the map that follows it: the page goes into the directory
        that was left, and a map that succeeds loads that directory into cr3 again. The created space
        sees the page exactly if its entry names the table the page went into; under a shared entry the
        two spaces stay alike exactly when that table was there before. */
    method SwitchThenMap(p: Word, phys: Word, virt: Word) returns (r: int)
      requires Valid() && p % 4096 == 0 && p != 0 && IsCreatedSpace(p / 4096)
      requires phys % 4096 == 0 && DirIndex(virt) != 1023
      requires HasTable(ram, Dir(), DirIndex(virt)) || GetResult(balloc.used, balloc.Bits()) != 0
      modifies this`ram, this`cr3, balloc, balloc.bmp
      ensures r == (if old(virt / 4096 in FlatMap()) then -1 else 0)
      ensures cr3 == if r == 0 then old(cr3) else p
      ensures FlatMap() == if r == -1 then old(FlatMap()) else old(FlatMap())[virt / 4096 := Page(phys / 4096, true)]
      ensures r == 0 ==> Valid()
      ensures r == 0 ==>
        PageAt(ram, p / 4096, virt / 4096) ==
        old(PageElsewhere(ram, Dir(), p / 4096, virt / 4096, phys, LowestClear(balloc.used, 0, balloc.Bits())))
      ensures r == 0 && SharedIndex(DirIndex(virt)) ==>
        (SeenAlike(ram, Dir(), p / 4096) <==> old(HasTable(ram, Dir(), DirIndex(virt))))
    {
      hide GoodSpace, IsStructure, SharesEntries, SeenAlike, OpensOn, SelfMapped, Marked, CounterFor, Flat, PageAt,
           MapRam, MapUsed, DirIndex, Present, FrameOf, WriteBit;
      ghost var was, d, used, f := ram, Dir(), balloc.used, p / 4096;
      ValidIsEditable();
      LowestClearIsLowest(used, 0, balloc.Bits());
      var _, _ := VirtualToPgidx(virt);
      InFlat(ram, d, virt / 4096);
      var _ := SwitchAddressSpace(p);
      r := MapPage(phys, virt);
      if r == 0 {
        LowestClearIsLowest(used, 0, balloc.Bits());
        OtherSpaceAfterMap(was, d, used, f, virt / 4096, phys, LowestClear(used, 0, balloc.Bits()));
      }
      if r == 0 && SharedIndex(DirIndex(virt)) {
        MapSeenAlikeIffTableShared(was, d, used, f, virt / 4096, phys, LowestClear(used, 0, balloc.Bits()));
      }
    }
  }
}
