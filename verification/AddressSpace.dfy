/** What mapping and unmapping do to an address space: values only, no machine state. */
module AddressSpace {
  import opened Paging
  import opened BlockSpec

  /** The entry the walk reaches for page `p`, if its table exists. */
  ghost predicate HasTableFor(ram: Ram, dir: int, p: nat)
    requires IsFrame(dir) && p < 0xFFC00
  {
    HasTable(ram, dir, p / 1024)
  }

  /** Mapping page `p`: an existing table gets the entry, otherwise frame `t` becomes the table. */
  ghost function MapRam(ram: Ram, dir: int, p: nat, phys: Word, t: nat): Ram
    requires IsFrame(dir) && p < 0xFFC00 && IsFrame(t)
  {
    if PageAt(ram, dir, p).Some? then ram
    else if HasTableFor(ram, dir, p) then EditEntry(ram, dir, p, Or3(phys))
    else AddTable(ram, dir, p, t, Or3(phys))
  }

  ghost function MapUsed(ram: Ram, dir: int, used: set<nat>, p: nat, t: nat): set<nat>
    requires IsFrame(dir) && p < 0xFFC00
  {
    if HasTableFor(ram, dir, p) then used else used + {t}
  }

  ghost function ClearEntry(ram: Ram, dir: int, p: nat): Ram
    requires IsFrame(dir) && p < 0xFFC00
  {
    if PageAt(ram, dir, p).Some? then EditEntry(ram, dir, p, 0) else ram
  }

  /** Does clearing page `p` leave its table without a present entry? */
  ghost predicate Empties(ram: Ram, dir: int, p: nat)
    requires IsFrame(dir) && p < 0xFFC00
  {
    HasTableFor(ram, dir, p) && !TableInUse(ClearEntry(ram, dir, p), TableOf(ram, dir, p / 1024))
  }

  /** Unmapping page `p`: clear its entry, and drop the table if that was the last present one. */
  ghost function UnmapRam(ram: Ram, dir: int, p: nat): Ram
    requires IsFrame(dir) && p < 0xFFC00
  {
    if Empties(ram, dir, p) then DropTable(ClearEntry(ram, dir, p), dir, p) else ClearEntry(ram, dir, p)
  }

  ghost function UnmapUsed(ram: Ram, dir: int, used: set<nat>, p: nat): set<nat>
    requires IsFrame(dir) && p < 0xFFC00
  {
    if Empties(ram, dir, p) then used - {TableOf(ram, dir, p / 1024)} else used
  }

  // ----- the flat view -----

  lemma FlatInsert(ram: Ram, ram': Ram, dir: int, dir': int, p: nat, page: Page)
    requires IsFrame(dir) && IsFrame(dir') && p < 0xFFC00
    requires forall q: nat :: q < 0xFFC00 ==>
      PageAt(ram', dir', q) == if q == p then Some(page) else PageAt(ram, dir, q)
    ensures Flat(ram', dir') == Flat(ram, dir)[p := page]
  {
    hide Present, FrameOf, WriteBit;
  }

  lemma FlatRemove(ram: Ram, ram': Ram, dir: int, dir': int, p: nat)
    requires IsFrame(dir) && IsFrame(dir') && p < 0xFFC00
    requires forall q: nat :: q < 0xFFC00 ==> PageAt(ram', dir', q) == if q == p then None else PageAt(ram, dir, q)
    ensures Flat(ram', dir') == Flat(ram, dir) - {p}
  {
    hide Present, FrameOf, WriteBit;
  }

  lemma FlatSame(ram: Ram, ram': Ram, dir: int, dir': int)
    requires IsFrame(dir) && IsFrame(dir')
    requires forall q: nat :: q < 0xFFC00 ==> PageAt(ram', dir', q) == PageAt(ram, dir, q)
    ensures Flat(ram', dir') == Flat(ram, dir)
  {
    hide Present, FrameOf, WriteBit;
  }

  lemma Or3OfAligned(phys: Word)
    requires phys % 4096 == 0
    ensures Or3(phys) == phys + 3 && Present(Or3(phys)) && WriteBit(Or3(phys)) && FrameOf(Or3(phys)) == phys / 4096
  {
    assert phys == 4096 * (phys / 4096);
    TableEntry(phys / 4096);
  }

  lemma NotStructure(ram: Ram, dir: int, used: set<nat>, t: nat)
    requires GoodSpace(ram, dir, used) && (t !in used || t == 0) && IsFrame(t)
    ensures !IsStructure(ram, dir, t)
  {
    hide Present, FrameOf, WriteBit;
  }

  /** What an editor relies on before it touches entry i. */
  lemma EntryFacts(ram: Ram, dir: int, used: set<nat>, i: Index)
    requires GoodSpace(ram, dir, used) && i < 1023
    ensures SelfMapped(ram, dir) && dir in used
    ensures HasTable(ram, dir, i) ==>
      TableOf(ram, dir, i) != dir && TableOf(ram, dir, i) in used && TableOf(ram, dir, i) != 0
  {
    hide Present, FrameOf, WriteBit;
  }

  lemma InFlat(ram: Ram, dir: int, p: nat)
    requires IsFrame(dir) && p < 0xFFC00
    ensures p in Flat(ram, dir) <==> PageAt(ram, dir, p).Some?
    ensures p in Flat(ram, dir) ==> PageAt(ram, dir, p) == Some(Flat(ram, dir)[p])
    ensures PageAt(ram, dir, p).Some?
      <==> HasTable(ram, dir, p / 1024) && Present(ram[TableOf(ram, dir, p / 1024)][p % 1024])
  {
    hide Present, FrameOf, WriteBit;
  }

  lemma FlatDomain(ram: Ram, dir: int, p: nat)
    requires IsFrame(dir) && p in Flat(ram, dir)
    ensures p < 0xFFC00
  {
  }

  /** Naming a fresh table, zeroing it and writing one entry is what AddTable says. */
  lemma AddTableInSteps(ram: Ram, dir: int, i: Index, j: Index, t: nat, e: Word)
    requires IsFrame(dir) && i < 1023 && IsFrame(t) && t != dir
    ensures var named := Put(ram, Loc(dir, i), Or3(t * 4096));
            var zeroed := named[t := ZeroFrame()];
      && named[dir][i] == t * 4096 + 3 && FrameOf(named[dir][i]) == t && zeroed[dir] == named[dir]
      && (forall k: Index :: k != i ==> named[dir][k] == ram[dir][k])
      && Put(zeroed, Loc(t, j), e) == AddTable(ram, dir, 1024 * i + j, t, e)
  {
    hide Present, FrameOf, WriteBit;
    TableEntry(t);
    assert (1024 * i + j) / 1024 == i && (1024 * i + j) % 1024 == j;
  }

  // ----- mapping -----

  /** Mapping inserts one page into the flat view and nothing else; on a present page it is a no-op. */
  lemma MapInsertsOnePage(ram: Ram, dir: int, used: set<nat>, p: nat, phys: Word, t: nat)
    requires GoodSpace(ram, dir, used) && p < 0xFFC00 && phys % 4096 == 0
    requires IsFrame(t) && (HasTableFor(ram, dir, p) || t !in used || t == 0)
    ensures Flat(MapRam(ram, dir, p, phys, t), dir) ==
            if p in Flat(ram, dir) then Flat(ram, dir) else Flat(ram, dir)[p := Page(phys / 4096, true)]
  {
    hide Present, FrameOf, WriteBit;
    if PageAt(ram, dir, p).None? {
      var ram' := MapRam(ram, dir, p, phys, t);
      Or3OfAligned(phys);
      if !HasTableFor(ram, dir, p) {
        NotStructure(ram, dir, used, t);
      }
      forall q: nat | q < 0xFFC00
        ensures PageAt(ram', dir, q) == if q == p then Some(Page(phys / 4096, true)) else PageAt(ram, dir, q)
      {
        if HasTableFor(ram, dir, p) {
          PageAtAfterEdit(ram, dir, p, Or3(phys), q);
        } else {
          PageAtAfterAdd(ram, dir, p, t, Or3(phys), q);
        }
      }
      FlatInsert(ram, ram', dir, dir, p, Page(phys / 4096, true));
    }
  }

  lemma MapOfPresentPage(ram: Ram, dir: int, used: set<nat>, p: nat, phys: Word, t: nat)
    requires IsFrame(dir) && p < 0xFFC00 && IsFrame(t)
    ensures p in Flat(ram, dir) ==> MapRam(ram, dir, p, phys, t) == ram && MapUsed(ram, dir, used, p, t) == used
  {
    InFlat(ram, dir, p);
  }

  /** Mapping keeps a good space good exactly when the table is there or a block for it was found:
      the null answer of the block allocator is installed like any other. */
  lemma MapKeepsGoodSpace(ram: Ram, dir: int, used: set<nat>, p: nat, phys: Word, t: nat)
    requires GoodSpace(ram, dir, used) && p < 0xFFC00 && phys % 4096 == 0
    requires IsFrame(t) && (HasTableFor(ram, dir, p) || t !in used || t == 0)
    ensures GoodSpace(MapRam(ram, dir, p, phys, t), dir, MapUsed(ram, dir, used, p, t))
      <==> HasTableFor(ram, dir, p) || t != 0
  {
    hide Present, FrameOf, WriteBit;
    Or3OfAligned(phys);
    if HasTableFor(ram, dir, p) {
      if PageAt(ram, dir, p).None? {
        EditKeepsGoodSpace(ram, dir, used, p, Or3(phys));
      }
    } else if t != 0 {
      AddKeepsGoodSpace(ram, dir, used, p, t, Or3(phys));
    } else {
      NullTable(ram, dir, used, p, Or3(phys));
    }
  }

  /** The words that a map of an unmapped page writes: the page's entry, and its table's if that is new. */
  lemma MapWritesEntry(ram: Ram, dir: int, used: set<nat>, p: nat, phys: Word, t: nat)
    requires GoodSpace(ram, dir, used) && p < 0xFFC00 && phys % 4096 == 0
    requires IsFrame(t) && (HasTableFor(ram, dir, p) || t !in used || t == 0)
    ensures var ram', i := MapRam(ram, dir, p, phys, t), p / 1024;
      && (PageAt(ram, dir, p).None? ==>
            HasTableFor(ram', dir, p) && ram'[TableOf(ram', dir, i)][p % 1024] == phys + 3)
      && (!HasTableFor(ram, dir, p) ==>
            && TableOf(ram', dir, i) == t && ram'[dir][i] == t * 4096 + 3
            && forall j: Index :: j != p % 1024 ==> ram'[t][j] == 0)
      && (forall j: Index :: j != i ==> ram'[dir][j] == ram[dir][j])
      && MapUsed(ram, dir, used, p, t) == used + (if HasTableFor(ram, dir, p) then {} else {t})
  {
    hide Present, FrameOf, WriteBit;
    Or3OfAligned(phys);
    TableEntry(t);
    if HasTableFor(ram, dir, p) {
      EditKeepsShape(ram, dir, used, p, Or3(phys));
    } else {
      NotStructure(ram, dir, used, t);
      assert MapRam(ram, dir, p, phys, t)[dir] == ram[dir][p / 1024 := t * 4096 + 3];
    }
  }

  /** What an empty pool leads to: the page is mapped through a table in frame 0, whose old contents
      are gone, and the directory names a frame that was never handed out. */
  lemma NullTable(ram: Ram, dir: int, used: set<nat>, p: nat, e: Word)
    requires GoodSpace(ram, dir, used) && p < 0xFFC00 && !HasTableFor(ram, dir, p)
    ensures var ram' := AddTable(ram, dir, p, 0, e);
      && HasTableFor(ram', dir, p) && TableOf(ram', dir, p / 1024) == 0
      && ram'[0] == ZeroFrame()[p % 1024 := e]
      && !Owned(ram', dir, used + {0})
  {
    hide Present, FrameOf, WriteBit;
    var ram' := AddTable(ram, dir, p, 0, e);
    TableEntry(0);
    assert ram'[dir] == ram[dir][p / 1024 := 3];
  }

  /** The block allocator's null answer with no block left, carried through a map: the new page
      translates as it should, but through frame 0, and the space is no longer good. */
  lemma EmptyPoolMapsThroughFrameZero(ram: Ram, dir: int, used: set<nat>, bits: nat, p: nat, phys: Word)
    requires IsFrame(dir) && GoodSpace(ram, dir, used) && p < 0xFFC00 && !HasTableFor(ram, dir, p) && phys % 4096 == 0
    requires forall b: nat :: b < bits ==> b in used
    ensures LowestClear(used, 0, bits) == 0
    ensures var ram' := MapRam(ram, dir, p, phys, 0);
      && HasTableFor(ram', dir, p) && TableOf(ram', dir, p / 1024) == 0
      && ram'[0] == ZeroFrame()[p % 1024 := Or3(phys)]
      && Flat(ram', dir) == Flat(ram, dir)[p := Page(phys / 4096, true)]
      && !GoodSpace(ram', dir, MapUsed(ram, dir, used, p, 0))
  {
    hide Present, FrameOf, WriteBit, Or3, GoodSpace, Flat, AddTable;
    LowestClearIsLowest(used, 0, bits);
    InFlat(ram, dir, p);
    MapInsertsOnePage(ram, dir, used, p, phys, 0);
    MapKeepsGoodSpace(ram, dir, used, p, phys, 0);
    NullTable(ram, dir, used, p, Or3(phys));
  }

  lemma EditKeepsShape(ram: Ram, dir: int, used: set<nat>, p: nat, e: Word)
    requires Shaped(ram, dir) && Owned(ram, dir, used) && p < 0xFFC00 && HasTableFor(ram, dir, p)
    ensures EditEntry(ram, dir, p, e)[dir] == ram[dir]
    ensures Shaped(EditEntry(ram, dir, p, e), dir) && Owned(EditEntry(ram, dir, p, e), dir, used)
  {
    hide Present, FrameOf, WriteBit;
    var i: Index := p / 1024;
    assert TableOf(ram, dir, i) != dir;
    var ram' := EditEntry(ram, dir, p, e);
    assert ram'[dir] == ram[dir];
    assert forall k: Index ::
      HasTable(ram', dir, k) == HasTable(ram, dir, k) && TableOf(ram', dir, k) == TableOf(ram, dir, k);
  }

  lemma EditKeepsGoodSpace(ram: Ram, dir: int, used: set<nat>, p: nat, e: Word)
    requires GoodSpace(ram, dir, used) && p < 0xFFC00 && HasTableFor(ram, dir, p) && Present(e)
    ensures GoodSpace(EditEntry(ram, dir, p, e), dir, used)
  {
    hide Present, FrameOf, WriteBit;
    var ram' := EditEntry(ram, dir, p, e);
    var i: Index := p / 1024;
    EditKeepsShape(ram, dir, used, p, e);
    forall k: Index | k < 1023 && HasTable(ram', dir, k)
      ensures TableInUse(ram', TableOf(ram', dir, k))
    {
      assert HasTable(ram, dir, k) && TableOf(ram', dir, k) == TableOf(ram, dir, k);
      if k == i {
        assert Present(ram'[TableOf(ram, dir, i)][p % 1024]);
      } else {
        OtherTableInUse(ram, ram', dir, i, k);
      }
    }
  }

  /** An edit confined to table i leaves every other table in use. */
  lemma OtherTableInUse(ram: Ram, ram': Ram, dir: int, i: Index, k: Index)
    requires Shaped(ram, dir) && i < 1023 && k < 1023 && i != k && HasTable(ram, dir, i) && HasTable(ram, dir, k)
    requires forall f: nat :: f < 0x100000 && f != TableOf(ram, dir, i) ==> ram'[f] == ram[f]
    ensures TableInUse(ram, TableOf(ram, dir, k)) <==> TableInUse(ram', TableOf(ram, dir, k))
  {
    hide Present, FrameOf, WriteBit;
    assert TableOf(ram, dir, k) != TableOf(ram, dir, i);
    assert ram'[TableOf(ram, dir, k)] == ram[TableOf(ram, dir, k)];
  }

  lemma AddKeepsGoodSpace(ram: Ram, dir: int, used: set<nat>, p: nat, t: nat, e: Word)
    requires GoodSpace(ram, dir, used) && p < 0xFFC00 && !HasTableFor(ram, dir, p) && Present(e)
    requires IsFrame(t) && t != 0 && t !in used
    ensures GoodSpace(AddTable(ram, dir, p, t, e), dir, used + {t})
  {
    hide Present, FrameOf, WriteBit;
    var ram' := AddTable(ram, dir, p, t, e);
    var i: Index := p / 1024;
    assert ram'[dir] == ram[dir][i := t * 4096 + 3];
    TableEntry(t);
    assert forall k: Index :: k != i ==>
      HasTable(ram', dir, k) == HasTable(ram, dir, k) && TableOf(ram', dir, k) == TableOf(ram, dir, k);
    assert HasTable(ram', dir, i) && TableOf(ram', dir, i) == t;
    forall k: Index | k < 1023 && HasTable(ram', dir, k)
      ensures TableInUse(ram', TableOf(ram', dir, k))
    {
      if k == i {
        assert Present(ram'[t][p % 1024]);
      } else {
        assert TableInUse(ram, TableOf(ram, dir, k));
        assert ram'[TableOf(ram, dir, k)] == ram[TableOf(ram, dir, k)];
      }
    }
  }

  // ----- unmapping -----

  lemma UnmapKeepsGoodSpace(ram: Ram, dir: int, used: set<nat>, p: nat)
    requires GoodSpace(ram, dir, used) && p < 0xFFC00
    ensures GoodSpace(UnmapRam(ram, dir, p), dir, UnmapUsed(ram, dir, used, p))
  {
    hide Present, FrameOf, WriteBit;
    NullEntry();
    if HasTableFor(ram, dir, p) {
      var i: Index := p / 1024;
      var t := TableOf(ram, dir, i);
      var cleared := ClearEntry(ram, dir, p);
      EditKeepsShape(ram, dir, used, p, 0);
      assert cleared[dir] == ram[dir];
      var ram' := UnmapRam(ram, dir, p);
      assert t != dir;
      assert forall k: Index :: k != i ==>
        HasTable(ram', dir, k) == HasTable(ram, dir, k) && TableOf(ram', dir, k) == TableOf(ram, dir, k);
      forall k: Index | k < 1023 && HasTable(ram', dir, k)
        ensures TableInUse(ram', TableOf(ram', dir, k))
      {
        if k != i {
          assert TableInUse(ram, TableOf(ram, dir, k));
          OtherTableInUse(ram, cleared, dir, i, k);
          assert ram'[TableOf(ram, dir, k)] == cleared[TableOf(ram, dir, k)];
        }
      }
    }
  }

  /** In a good space a table is there exactly when some page under it is mapped. */
  lemma TableIffPage(ram: Ram, dir: int, used: set<nat>, i: Index)
    requires GoodSpace(ram, dir, used) && i < 1023
    ensures HasTable(ram, dir, i) <==> exists q :: q in Flat(ram, dir) && q / 1024 == i
  {
    hide Present, FrameOf, WriteBit, Flat, PageAt;
    if HasTable(ram, dir, i) {
      var j: Index :| Present(ram[TableOf(ram, dir, i)][j]);
      InFlat(ram, dir, 1024 * i + j);
      assert 1024 * i + j in Flat(ram, dir) && (1024 * i + j) / 1024 == i;
    }
    forall q | q in Flat(ram, dir) && q / 1024 == i
      ensures HasTable(ram, dir, i)
    {
      FlatDomain(ram, dir, q);
      InFlat(ram, dir, q);
    }
  }

  /** So the table of an unmapped page stays, and its block, as long as another page under it is mapped. */
  lemma UnmapDropsIdle(ram: Ram, dir: int, used: set<nat>, p: nat)
    requires IsFrame(dir) && GoodSpace(ram, dir, used) && p < 0xFFC00
    ensures var ram', i := UnmapRam(ram, dir, p), p / 1024;
      && (HasTable(ram', dir, i) <==> HasTable(ram, dir, i) && exists q :: q in Flat(ram', dir) && q / 1024 == i)
      && (HasTable(ram, dir, i) && !HasTable(ram', dir, i) ==> ram'[dir][i] == 0)
      && (PageAt(ram, dir, p).Some? ==> ram'[TableOf(ram, dir, i)][p % 1024] == 0)
      && (forall j: Index :: j != i ==> ram'[dir][j] == ram[dir][j])
      && UnmapUsed(ram, dir, used, p) ==
         used - (if HasTable(ram', dir, i) || !HasTable(ram, dir, i) then {} else {TableOf(ram, dir, i)})
  {
    hide Present, FrameOf, WriteBit, Flat, PageAt, GoodSpace;
    UnmapKeepsGoodSpace(ram, dir, used, p);
    TableIffPage(UnmapRam(ram, dir, p), dir, UnmapUsed(ram, dir, used, p), p / 1024);
    DroppedTable(ram, dir, used, p);
  }

  lemma DroppedTable(ram: Ram, dir: int, used: set<nat>, p: nat)
    requires GoodSpace(ram, dir, used) && p < 0xFFC00
    ensures HasTable(UnmapRam(ram, dir, p), dir, p / 1024) <==> HasTable(ram, dir, p / 1024) && !Empties(ram, dir, p)
    ensures var ram', i := UnmapRam(ram, dir, p), p / 1024;
      && (HasTable(ram, dir, i) && !HasTable(ram', dir, i) ==> ram'[dir][i] == 0)
      && (PageAt(ram, dir, p).Some? ==> ram'[TableOf(ram, dir, i)][p % 1024] == 0)
      && (forall j: Index :: j != i ==> ram'[dir][j] == ram[dir][j])
  {
    hide Present, FrameOf, WriteBit;
    NullEntry();
    if HasTableFor(ram, dir, p) {
      EditKeepsShape(ram, dir, used, p, 0);
    }
  }

  /** Unmapping removes one page from the flat view and nothing else. */
  lemma UnmapRemovesOnePage(ram: Ram, dir: int, used: set<nat>, p: nat)
    requires GoodSpace(ram, dir, used) && p < 0xFFC00
    ensures Flat(UnmapRam(ram, dir, p), dir) == Flat(ram, dir) - {p}
  {
    hide Present, FrameOf, WriteBit;
    NullEntry();
    var cleared := ClearEntry(ram, dir, p);
    var ram' := UnmapRam(ram, dir, p);
    if HasTableFor(ram, dir, p) {
      EditKeepsShape(ram, dir, used, p, 0);
    }
    forall q: nat | q < 0xFFC00
      ensures PageAt(ram', dir, q) == if q == p then None else PageAt(ram, dir, q)
    {
      if HasTableFor(ram, dir, p) {
        PageAtAfterEdit(ram, dir, p, 0, q);
        if Empties(ram, dir, p) {
          PageAtAfterDrop(cleared, dir, p, q);
        }
      }
    }
    FlatRemove(ram, ram', dir, dir, p);
  }

  lemma SharedTableOutlivesUnmap(ram: Ram, dir: int, used: set<nat>, p: nat, e: Word)
    requires GoodSpace(ram, dir, used) && p < 0xFFC00 && HasTableFor(ram, dir, p)
    requires PageAt(ram, dir, p).None? && Present(e)
    ensures !Empties(EditEntry(ram, dir, p, e), dir, p)
  {
    hide Present, FrameOf, WriteBit;
    var mapped := EditEntry(ram, dir, p, e);
    NullEntry();
    EditKeepsShape(ram, dir, used, p, e);
    var table := TableOf(ram, dir, p / 1024);
    var j: Index :| Present(ram[table][j]);
    assert Present(ClearEntry(mapped, dir, p)[table][j]);
  }

  lemma NewTableDiesOnUnmap(ram: Ram, dir: int, p: nat, t: nat, e: Word)
    requires IsFrame(dir) && p < 0xFFC00 && IsFrame(t) && t != dir && Present(e)
    ensures var mapped := AddTable(ram, dir, p, t, e);
      HasTableFor(mapped, dir, p) && TableOf(mapped, dir, p / 1024) == t && Empties(mapped, dir, p)
  {
    hide Present, FrameOf, WriteBit;
    var mapped := AddTable(ram, dir, p, t, e);
    TableEntry(t);
    NullEntry();
    assert mapped[dir][p / 1024] == t * 4096 + 3;
    assert mapped[t] == ZeroFrame()[p % 1024 := e];
    var cleared := ClearEntry(mapped, dir, p);
    assert cleared[t] == mapped[t][p % 1024 := 0];
  }

  /** Mapping an unmapped page and unmapping it again restores the translations and the set of
      blocks in use, because no table was idle before. */
  lemma MapThenUnmapRestores(ram: Ram, dir: int, used: set<nat>, p: nat, phys: Word, t: nat)
    requires GoodSpace(ram, dir, used) && p < 0xFFC00 && phys % 4096 == 0 && p !in Flat(ram, dir)
    requires IsFrame(t) && (HasTableFor(ram, dir, p) || (t != 0 && t !in used))
    ensures var mapped := MapRam(ram, dir, p, phys, t);
            var held := MapUsed(ram, dir, used, p, t);
      && Flat(UnmapRam(mapped, dir, p), dir) == Flat(ram, dir)
      && UnmapUsed(mapped, dir, held, p) == used
  {
    hide Shaped, NoIdleTable, EditEntry, AddTable, UnmapRam, Empties, Present, FrameOf, WriteBit;
    MapInsertsOnePage(ram, dir, used, p, phys, t);
    MapKeepsGoodSpace(ram, dir, used, p, phys, t);
    UnmapRemovesOnePage(MapRam(ram, dir, p, phys, t), dir, MapUsed(ram, dir, used, p, t), p);
    Or3OfAligned(phys);
    if HasTableFor(ram, dir, p) {
      SharedTableOutlivesUnmap(ram, dir, used, p, Or3(phys));
    } else {
      NewTableDiesOnUnmap(ram, dir, p, t, Or3(phys));
    }
    assert Flat(ram, dir)[p := Page(phys / 4096, true)] - {p} == Flat(ram, dir);
  }
}
