/** Directories made from another directory: the boot-time clone and process address spaces. */
module SharedSpaces {
  import opened Paging
  import opened AddressSpace

  const TEMP_PAGE: nat := 0xCFFFF

  /** Frame `n` becomes a copy of directory `dir` that maps itself. */
  ghost function Clone(ram: Ram, dir: int, n: nat): Ram
    requires IsFrame(dir) && IsFrame(n)
  {
    ram[n := ram[dir][1023 := n * 4096 + 3]]
  }

  /** What vmmngr_initialize makes when the page at the new directory's physical address maps frame g:
      the copy is in frame n, but its last entry is written to g. */
  ghost function CloneThrough(ram: Ram, dir: int, n: nat, g: nat): Ram
    requires IsFrame(dir) && IsFrame(n) && IsFrame(g)
  {
    Put(ram[n := ram[dir]], Loc(g, 1023), n * 4096 + 3)
  }

  /** The copy maps itself exactly when that page is identity-mapped. Otherwise its window still opens on
      the directory it was copied from, unless the write went there. */
  lemma CloneMapsItselfIff(ram: Ram, dir: int, used: set<nat>, n: nat, g: nat)
    requires GoodSpace(ram, dir, used) && IsFrame(n) && IsFrame(g) && !IsStructure(ram, dir, n)
    ensures SelfMapped(CloneThrough(ram, dir, n, g), n) <==> g == n
    ensures g == n ==> CloneThrough(ram, dir, n, g) == Clone(ram, dir, n)
    ensures g != n && g != dir ==> OpensOn(CloneThrough(ram, dir, n, g), n, dir)
  {
    hide Present, FrameOf, WriteBit;
    TableEntry(n);
    var ram' := CloneThrough(ram, dir, n, g);
    if g == n {
      assert ram'[n] == ram[dir][1023 := n * 4096 + 3];
    } else {
      assert ram'[n] == ram[dir];
    }
  }

  lemma GoodSpaceWithMoreUsed(ram: Ram, dir: int, used: set<nat>, more: set<nat>)
    requires GoodSpace(ram, dir, used) && used <= more
    ensures GoodSpace(ram, dir, more)
  {
  }

  /** Writing a frame that is neither the directory nor a table changes no translation. */
  lemma PagesIgnoreOtherFrames(ram: Ram, ram': Ram, dir: int, n: nat, q: nat)
    requires IsFrame(dir) && IsFrame(n) && !IsStructure(ram, dir, n) && q < 0xFFC00
    requires forall f: nat :: f < 0x100000 && f != n ==> ram'[f] == ram[f]
    ensures PageAt(ram', dir, q) == PageAt(ram, dir, q)
  {
    hide Present, FrameOf, WriteBit;
    assert HasTable(ram, dir, q / 1024) ==> TableOf(ram, dir, q / 1024) != n;
  }

  lemma StructureIgnoresOtherFrames(ram: Ram, ram': Ram, dir: int, n: nat)
    requires IsFrame(dir) && IsFrame(n) && !IsStructure(ram, dir, n)
    requires forall f: nat :: f < 0x100000 && f != n ==> ram'[f] == ram[f]
    ensures n != dir && ram'[dir] == ram[dir] && !IsStructure(ram', dir, n)
  {
    hide Present, FrameOf;
    assert ram'[dir] == ram[dir];
    assert forall i: Index ::
      HasTable(ram', dir, i) == HasTable(ram, dir, i) && TableOf(ram', dir, i) == TableOf(ram, dir, i);
  }

  /** The clone is a good space of its own and translates every page as the original does. */
  lemma CloneTranslatesAlike(ram: Ram, dir: int, used: set<nat>, n: nat)
    requires GoodSpace(ram, dir, used) && IsFrame(n) && n in used && n != 0 && !IsStructure(ram, dir, n)
    ensures GoodSpace(Clone(ram, dir, n), n, used)
    ensures Flat(Clone(ram, dir, n), n) == Flat(ram, dir)
  {
    hide Present, FrameOf, WriteBit, Flat;
    var ram' := Clone(ram, dir, n);
    TableEntry(n);
    assert ram'[n] == ram[dir][1023 := n * 4096 + 3];
    assert forall i: Index :: i < 1023 ==>
      HasTable(ram', n, i) == HasTable(ram, dir, i) && TableOf(ram', n, i) == TableOf(ram, dir, i);
    assert HasTable(ram', n, 1023) && TableOf(ram', n, 1023) == n;
    forall i: Index | i < 1023 && HasTable(ram, dir, i)
      ensures TableOf(ram, dir, i) != n && ram'[TableOf(ram, dir, i)] == ram[TableOf(ram, dir, i)]
    {
    }
    forall i: Index | i < 1023 && HasTable(ram', n, i)
      ensures TableInUse(ram', TableOf(ram', n, i))
    {
      assert TableInUse(ram, TableOf(ram, dir, i));
    }
    forall q: nat | q < 0xFFC00
      ensures PageAt(ram', n, q) == PageAt(ram, dir, q)
    {
    }
    FlatSame(ram, ram', dir, n);
  }

  lemma CloneEmptiesAlike(ram: Ram, dir: int, used: set<nat>, n: nat, p: nat)
    requires GoodSpace(ram, dir, used) && IsFrame(n) && !IsStructure(ram, dir, n) && p < 0xFFC00
    ensures Empties(Clone(ram, dir, n), n, p) <==> Empties(ram, dir, p)
    ensures HasTableFor(ram, dir, p) ==> TableOf(Clone(ram, dir, n), n, p / 1024) == TableOf(ram, dir, p / 1024)
  {
    hide Present, FrameOf, WriteBit;
    var ram' := Clone(ram, dir, n);
    var i: Index := p / 1024;
    assert HasTable(ram', n, i) == HasTable(ram, dir, i) && TableOf(ram', n, i) == TableOf(ram, dir, i);
    if HasTable(ram, dir, i) {
      var t := TableOf(ram, dir, i);
      assert t != n && t != dir && ram'[t] == ram[t];
      assert ClearEntry(ram', n, p)[t] == ClearEntry(ram, dir, p)[t];
    }
  }

  /** What vmmngr_initialize amounts to: map the new frame, clone, unmap under the clone.
      The flat view survives and the cost is one block, whether or not a table was needed. */
  lemma MoveToClone(ram: Ram, dir: int, used: set<nat>, n: nat, t: nat)
    requires GoodSpace(ram, dir, used) && TEMP_PAGE !in Flat(ram, dir)
    requires 0 < n < 0x100000 && n !in used
    requires IsFrame(t) && (HasTableFor(ram, dir, TEMP_PAGE) || (t != 0 && t !in used + {n}))
    ensures
      var mapped := MapRam(ram, dir, TEMP_PAGE, n * 4096, t);
      var held := MapUsed(ram, dir, used + {n}, TEMP_PAGE, t);
      var cloned := Clone(mapped, dir, n);
      && GoodSpace(mapped, dir, held) && !IsStructure(mapped, dir, n) && n != dir
      && GoodSpace(cloned, n, held)
      && Flat(cloned, n) - {TEMP_PAGE} == Flat(ram, dir)
      && UnmapUsed(cloned, n, held, TEMP_PAGE) == used + {n}
  {
    hide Shaped, NoIdleTable, EditEntry, AddTable, UnmapRam, Empties, Flat, Clone, Present, FrameOf, WriteBit;
    var mapped := MapRam(ram, dir, TEMP_PAGE, n * 4096, t);
    var held := MapUsed(ram, dir, used + {n}, TEMP_PAGE, t);
    GoodSpaceWithMoreUsed(ram, dir, used, used + {n});
    MapInsertsOnePage(ram, dir, used + {n}, TEMP_PAGE, n * 4096, t);
    MapKeepsGoodSpace(ram, dir, used + {n}, TEMP_PAGE, n * 4096, t);
    NewDirectoryIsNoTable(ram, dir, used, n, t);
    CloneTranslatesAlike(mapped, dir, held, n);
    CloneEmptiesAlike(mapped, dir, held, n, TEMP_PAGE);
    InFlat(ram, dir, TEMP_PAGE);
    Or3OfAligned(n * 4096);
    if HasTableFor(ram, dir, TEMP_PAGE) {
      SharedTableOutlivesUnmap(ram, dir, used + {n}, TEMP_PAGE, Or3(n * 4096));
    } else {
      NewTableDiesOnUnmap(ram, dir, TEMP_PAGE, t, Or3(n * 4096));
    }
  }

  /** The new directory frame is not one of the tables, old or new. */
  lemma NewDirectoryIsNoTable(ram: Ram, dir: int, used: set<nat>, n: nat, t: nat)
    requires GoodSpace(ram, dir, used) && TEMP_PAGE !in Flat(ram, dir)
    requires 0 < n < 0x100000 && n !in used
    requires IsFrame(t) && (HasTableFor(ram, dir, TEMP_PAGE) || (t != 0 && t !in used + {n}))
    ensures n != dir && !IsStructure(MapRam(ram, dir, TEMP_PAGE, n * 4096, t), dir, n)
  {
    hide Present, FrameOf, WriteBit, Flat;
    Or3OfAligned(n * 4096);
    InFlat(ram, dir, TEMP_PAGE);
    MapKeepsGoodSpace(ram, dir, used, TEMP_PAGE, n * 4096, t);
  }

  /** A held frame that is no part of the tables keeps its contents, and stays apart, across a map. */
  lemma BystanderAfterMap(ram: Ram, dir: int, used: set<nat>, p: nat, phys: Word, t: nat, f: nat)
    requires GoodSpace(ram, dir, used) && p < 0xFFC00 && phys % 4096 == 0
    requires IsFrame(t) && (HasTableFor(ram, dir, p) || t !in used || (t == 0 && f != 0))
    requires IsFrame(f) && f in used && !IsStructure(ram, dir, f)
    ensures MapRam(ram, dir, p, phys, t)[f] == ram[f] && !IsStructure(MapRam(ram, dir, p, phys, t), dir, f)
  {
    hide Present, FrameOf, WriteBit;
    Or3OfAligned(phys);
    TableEntry(t);
    var ram' := MapRam(ram, dir, p, phys, t);
    if HasTableFor(ram, dir, p) {
      EditKeepsShape(ram, dir, used, p, Or3(phys));
      assert ram'[dir] == ram[dir];
    } else {
      assert ram'[dir] == ram[dir][p / 1024 := t * 4096 + 3];
      assert forall i: Index :: i != p / 1024 ==>
        HasTable(ram', dir, i) == HasTable(ram, dir, i) && TableOf(ram', dir, i) == TableOf(ram, dir, i);
    }
  }

  lemma BystanderAfterUnmap(ram: Ram, dir: int, used: set<nat>, p: nat, f: nat)
    requires IsFrame(dir) && GoodSpace(ram, dir, used) && p < 0xFFC00
    requires IsFrame(f) && f in used && !IsStructure(ram, dir, f)
    ensures UnmapRam(ram, dir, p)[f] == ram[f] && !IsStructure(UnmapRam(ram, dir, p), dir, f)
    ensures f in UnmapUsed(ram, dir, used, p)
  {
    hide Present, FrameOf, WriteBit;
    NullEntry();
    var ram' := UnmapRam(ram, dir, p);
    if HasTableFor(ram, dir, p) {
      EditKeepsShape(ram, dir, used, p, 0);
      assert forall i: Index :: i < 1023 && HasTable(ram', dir, i) ==>
        HasTable(ram, dir, i) && TableOf(ram', dir, i) == TableOf(ram, dir, i);
    }
  }

  /** Held frames that are no part of the tables stay so, with the same contents. */
  ghost predicate KeepsHeld(ram: Ram, dir: int, used: set<nat>, ram': Ram, dir': int, used': set<nat>) {
    IsFrame(dir) && IsFrame(dir') &&
    forall f: nat :: f in used && IsFrame(f) && !IsStructure(ram, dir, f) ==>
      f in used' && ram'[f] == ram[f] && !IsStructure(ram', dir', f)
  }

  lemma MapKeepsHeld(ram: Ram, dir: int, used: set<nat>, p: nat, phys: Word, t: nat)
    requires IsFrame(dir) && GoodSpace(ram, dir, used) && p < 0xFFC00 && phys % 4096 == 0
    requires IsFrame(t) && (HasTableFor(ram, dir, p) || (t != 0 && t !in used))
    ensures KeepsHeld(ram, dir, used, MapRam(ram, dir, p, phys, t), dir, MapUsed(ram, dir, used, p, t))
  {
    hide GoodSpace, IsStructure, MapRam;
    forall f: nat | f in used && IsFrame(f) && !IsStructure(ram, dir, f)
      ensures MapRam(ram, dir, p, phys, t)[f] == ram[f] && !IsStructure(MapRam(ram, dir, p, phys, t), dir, f)
    {
      BystanderAfterMap(ram, dir, used, p, phys, t, f);
    }
  }

  lemma StructureSameDir(ram: Ram, ram': Ram, dir: int, f: nat)
    requires IsFrame(dir) && ram'[dir] == ram[dir]
    ensures IsStructure(ram', dir, f) <==> IsStructure(ram, dir, f)
  {
    hide Present, FrameOf;
    assert forall i: Index ::
      HasTable(ram', dir, i) == HasTable(ram, dir, i) && TableOf(ram', dir, i) == TableOf(ram, dir, i);
  }

  lemma KeepsHeldButOne(ram: Ram, mid: Ram, ram': Ram, dir: int, used: set<nat>, used': set<nat>, n: nat)
    requires KeepsHeld(ram, dir, used, mid, dir, used') && IsFrame(n) && !IsStructure(mid, dir, n)
    requires forall f: nat :: f < 0x100000 && f != n ==> ram'[f] == mid[f]
    ensures KeepsHeld(ram, dir, used - {n}, ram', dir, used')
  {
    hide IsStructure;
    StructureIgnoresOtherFrames(mid, ram', dir, n);
    forall f: nat | f in used - {n} && IsFrame(f) && !IsStructure(ram, dir, f)
      ensures ram'[f] == ram[f] && !IsStructure(ram', dir, f)
    {
      StructureSameDir(mid, ram', dir, f);
    }
  }

  lemma CloneStructure(ram: Ram, dir: int, n: nat, f: nat)
    requires IsFrame(dir) && IsFrame(n) && IsFrame(f) && f != n && !IsStructure(ram, dir, f)
    ensures Clone(ram, dir, n)[f] == ram[f] && !IsStructure(Clone(ram, dir, n), n, f)
  {
    hide Present, FrameOf;
    var ram' := Clone(ram, dir, n);
    assert forall i: Index :: i < 1023 ==>
      HasTable(ram', n, i) == HasTable(ram, dir, i) && TableOf(ram', n, i) == TableOf(ram, dir, i);
  }

  /** The move touches no held memory but the tables and the new directory. */
  lemma MoveKeepsHeld(ram: Ram, dir: int, used: set<nat>, n: nat, t: nat)
    requires GoodSpace(ram, dir, used) && TEMP_PAGE !in Flat(ram, dir)
    requires 0 < n < 0x100000 && n !in used
    requires IsFrame(t) && (HasTableFor(ram, dir, TEMP_PAGE) || (t != 0 && t !in used + {n}))
    ensures var cloned := Clone(MapRam(ram, dir, TEMP_PAGE, n * 4096, t), dir, n);
      KeepsHeld(ram, dir, used, UnmapRam(cloned, n, TEMP_PAGE), n, used + {n})
  {
    hide GoodSpace, IsStructure, MapRam, UnmapRam, Clone, Flat;
    GoodSpaceWithMoreUsed(ram, dir, used, used + {n});
    var mapped, held := MapRam(ram, dir, TEMP_PAGE, n * 4096, t), MapUsed(ram, dir, used + {n}, TEMP_PAGE, t);
    MoveToClone(ram, dir, used, n, t);
    forall f: nat | f in used && IsFrame(f) && !IsStructure(ram, dir, f)
      ensures var ram' := UnmapRam(Clone(mapped, dir, n), n, TEMP_PAGE); ram'[f] == ram[f] && !IsStructure(ram', n, f)
    {
      BystanderAfterMap(ram, dir, used + {n}, TEMP_PAGE, n * 4096, t, f);
      CloneStructure(mapped, dir, n, f);
      BystanderAfterUnmap(Clone(mapped, dir, n), n, held, TEMP_PAGE, f);
    }
  }

  lemma BystanderWrite(ram: Ram, ram': Ram, dir: int, used: set<nat>, n: nat)
    requires GoodSpace(ram, dir, used) && IsFrame(n) && !IsStructure(ram, dir, n)
    requires forall f: nat :: f < 0x100000 && f != n ==> ram'[f] == ram[f]
    ensures GoodSpace(ram', dir, used) && Flat(ram', dir) == Flat(ram, dir) && !IsStructure(ram', dir, n)
  {
    hide Present, FrameOf, WriteBit, Flat;
    StructureIgnoresOtherFrames(ram, ram', dir, n);
    assert forall i: Index ::
      HasTable(ram', dir, i) == HasTable(ram, dir, i) && TableOf(ram', dir, i) == TableOf(ram, dir, i);
    forall i: Index | i < 1023 && HasTable(ram', dir, i)
      ensures TableInUse(ram', TableOf(ram', dir, i))
    {
      assert TableInUse(ram, TableOf(ram, dir, i));
      assert TableOf(ram, dir, i) != n;
    }
    forall q: nat | q < 0xFFC00
      ensures PageAt(ram', dir, q) == PageAt(ram, dir, q)
    {
      PagesIgnoreOtherFrames(ram, ram', dir, n, q);
    }
    FlatSame(ram, ram', dir, dir);
  }

  /** The entries of the new directory, that of the temporary page's table aside: the old ones, and itself. */
  lemma EntriesAfterMove(ram: Ram, dir: int, used: set<nat>, n: nat, t: nat)
    requires IsFrame(dir) && GoodSpace(ram, dir, used) && TEMP_PAGE !in Flat(ram, dir)
    requires 0 < n < 0x100000 && n !in used
    requires IsFrame(t) && (HasTableFor(ram, dir, TEMP_PAGE) || (t != 0 && t !in used + {n}))
    ensures
      var moved := UnmapRam(Clone(MapRam(ram, dir, TEMP_PAGE, n * 4096, t), dir, n), n, TEMP_PAGE);
      forall i: Index :: i != 831 ==> moved[n][i] == if i == 1023 then n * 4096 + 3 else ram[dir][i]
  {
    hide GoodSpace, Flat, MapRam, UnmapRam, MapUsed, UnmapUsed, Present, FrameOf, WriteBit, PageAt;
    var mapped, held := MapRam(ram, dir, TEMP_PAGE, n * 4096, t), MapUsed(ram, dir, used + {n}, TEMP_PAGE, t);
    GoodSpaceWithMoreUsed(ram, dir, used, used + {n});
    MapWritesEntry(ram, dir, used + {n}, TEMP_PAGE, n * 4096, t);
    MoveToClone(ram, dir, used, n, t);
    UnmapDropsIdle(Clone(mapped, dir, n), n, held, TEMP_PAGE);
  }

  // ----- address spaces that share directory entries -----

  predicate SharedIndex(i: Index) { i < 256 || 768 <= i }

  /** Directory frame `f` repeats the entries of `dir` under indices 0-255 and 768-1023. */
  ghost predicate SharesEntries(ram: Ram, dir: int, f: int) {
    IsFrame(dir) && IsFrame(f) && forall i: Index :: SharedIndex(i) ==> ram[f][i] == ram[dir][i]
  }

  /** Do `f` and `dir` translate every page under the shared indices alike? */
  ghost predicate SeenAlike(ram: Ram, dir: int, f: int)
    requires IsFrame(dir) && IsFrame(f)
  {
    forall q: nat :: q < 0xFFC00 && SharedIndex(q / 1024) ==> PageAt(ram, f, q) == PageAt(ram, dir, q)
  }

  lemma SharersSeeAlike(ram: Ram, dir: int, f: int)
    requires SharesEntries(ram, dir, f)
    ensures SeenAlike(ram, dir, f)
  {
    hide Present, FrameOf, WriteBit;
  }

  /** In pages: the first gigabyte, and from 3 GB up to the window. */
  lemma PagesSeenAlike(ram: Ram, dir: int, f: int)
    requires SharesEntries(ram, dir, f) && SeenAlike(ram, dir, f)
    ensures forall i: Index :: i < 256 || 768 <= i ==> ram[f][i] == ram[dir][i]
    ensures forall q: nat :: q < 0x40000 || 0xC0000 <= q < 0xFFC00 ==> PageAt(ram, f, q) == PageAt(ram, dir, q)
  {
    hide PageAt;
    forall q: nat | q < 0x40000 || 0xC0000 <= q < 0xFFC00
      ensures PageAt(ram, f, q) == PageAt(ram, dir, q)
    {
      assert q < 0xFFC00 && SharedIndex(q / 1024);
    }
  }

  /** Mapping a page under a shared index is seen by the sharer exactly when its table was
      already there; a new table stays private to the space that was current. */
  lemma MapSeenAlikeIffTableShared(ram: Ram, dir: int, used: set<nat>, f: int, p: nat, phys: Word, t: nat)
    requires GoodSpace(ram, dir, used) && SharesEntries(ram, dir, f) && f in used && !IsStructure(ram, dir, f)
    requires p < 0xFFC00 && SharedIndex(p / 1024) && PageAt(ram, dir, p).None? && phys % 4096 == 0
    requires IsFrame(t) && (HasTableFor(ram, dir, p) || (t != 0 && t !in used))
    ensures SeenAlike(MapRam(ram, dir, p, phys, t), dir, f) <==> HasTableFor(ram, dir, p)
  {
    hide Present, FrameOf, WriteBit;
    var ram' := MapRam(ram, dir, p, phys, t);
    Or3OfAligned(phys);
    if HasTableFor(ram, dir, p) {
      EditKeepsShape(ram, dir, used, p, Or3(phys));
      assert ram'[f] == ram[f];
      SharersSeeAlike(ram', dir, f);
    } else {
      PageAtAfterAdd(ram, dir, p, t, Or3(phys), p);
      assert ram'[f] == ram[f];
      assert PageAt(ram', f, p).None?;
    }
  }

  /** What a directory f beside the space translates page p to after a map of p in dir: the new page if
      f's entry names the table that the page went into (t, if dir had none), and otherwise what it did
      before. An entry that names dir itself as a table reads a directory entry there. */
  ghost function PageElsewhere(ram: Ram, dir: int, f: int, p: nat, phys: Word, t: nat): Option<Page>
    requires IsFrame(dir) && IsFrame(f) && p < 0x100000
  {
    var i: Index, had := p / 1024, HasTable(ram, dir, p / 1024);
    var g := TableOf(ram, f, i);
    if !HasTable(ram, f, i) then None
    else if g == (if had then TableOf(ram, dir, i) else t) then Some(Page(phys / 4096, WriteBit(ram[f][i])))
    else if g == dir && p % 1024 == i && !had then Some(Page(t, WriteBit(ram[f][i])))
    else PageAt(ram, f, p)
  }

  lemma OtherSpaceAfterMap(ram: Ram, dir: int, used: set<nat>, f: int, p: nat, phys: Word, t: nat)
    requires GoodSpace(ram, dir, used) && IsFrame(f) && f in used && !IsStructure(ram, dir, f)
    requires p < 0xFFC00 && PageAt(ram, dir, p).None? && phys % 4096 == 0
    requires IsFrame(t) && (HasTableFor(ram, dir, p) || (t != 0 && t !in used))
    ensures PageAt(MapRam(ram, dir, p, phys, t), f, p) == PageElsewhere(ram, dir, f, p, phys, t)
  {
    hide Present, FrameOf, WriteBit;
    Or3OfAligned(phys);
    TableEntry(t);
    BystanderAfterMap(ram, dir, used, p, phys, t, f);
    var ram' := MapRam(ram, dir, p, phys, t);
    var i, j, g := p / 1024, p % 1024, TableOf(ram, f, p / 1024);
    assert ram'[f] == ram[f];
    if HasTableFor(ram, dir, p) {
      EditKeepsShape(ram, dir, used, p, Or3(phys));
      assert ram'[dir] == ram[dir];
    } else {
      NotStructure(ram, dir, used, t);
      assert ram'[dir] == ram[dir][i := t * 4096 + 3];
      assert ram'[t] == ZeroFrame()[j := Or3(phys)];
    }
  }

  /** Unmapping is seen alike even when it frees the shared table. */
  lemma UnmapSeenAlike(ram: Ram, dir: int, used: set<nat>, f: int, p: nat)
    requires GoodSpace(ram, dir, used) && SharesEntries(ram, dir, f) && !IsStructure(ram, dir, f)
    requires p < 0xFFC00
    ensures SeenAlike(UnmapRam(ram, dir, p), dir, f)
  {
    hide Present, FrameOf, WriteBit;
    NullEntry();
    var cleared, ram' := ClearEntry(ram, dir, p), UnmapRam(ram, dir, p);
    if HasTableFor(ram, dir, p) {
      EditKeepsShape(ram, dir, used, p, 0);
      assert cleared[f] == ram[f] && cleared[dir] == ram[dir];
      SharersSeeAlike(cleared, dir, f);
      if Empties(ram, dir, p) {
        forall q: nat | q < 0xFFC00 && SharedIndex(q / 1024)
          ensures PageAt(ram', f, q) == PageAt(ram', dir, q)
        {
          PageAtAfterDrop(cleared, dir, p, q);
          assert PageAt(cleared, f, q) == PageAt(cleared, dir, q);
          assert HasTable(cleared, f, q / 1024) ==> TableOf(cleared, f, q / 1024) != dir;
        }
      }
    } else {
      SharersSeeAlike(ram, dir, f);
    }
  }

  /** A created directory repeats entry 1023 too, so its window edits the directory it was
      copied from and that directory's tables, not its own. */
  lemma CreatedWindowEditsTheOriginal(ram: Ram, dir: int, f: int, i: Index, j: Index)
    requires SelfMapped(ram, dir) && SharesEntries(ram, dir, f)
    ensures Walk(ram, f, DirSlot(i)) == Some(Loc(dir, i))
    ensures HasTable(ram, dir, i) ==> Walk(ram, f, TableSlot(i, j)) == Some(Loc(TableOf(ram, dir, i), j))
    ensures f != dir ==> !SelfMapped(ram, f)
  {
    hide Present, FrameOf, DirIndex, TableIndex, WordIndex, TableSlot, DirSlot;
    SlotIndices(i, j);
    SlotIndices(1023, i);
  }
}
