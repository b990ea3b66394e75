/** Two-level 32-bit paging (section 4.3 of the Intel SDM, Volume 3A) as a function of memory. */
module Paging {

  type Word = x: int | 0 <= x < 0x1_0000_0000

  type Frame = s: seq<Word> | |s| == 1024
    witness seq(1024, _ => 0)

  function ZeroFrame(): Frame { seq(1024, _ => 0) }

  /** Physical memory: 2^20 frames of 1024 words. */
  type Ram = r: seq<Frame> | |r| == 0x100000
    ghost witness seq<Frame>(0x100000, _ => ZeroFrame())

  datatype Option<T> = None | Some(value: T)

  /** A word of physical memory. */
  datatype Loc = Loc(frame: nat, word: nat)

  /** What a page number translates to. */
  datatype Page = Page(frame: nat, writable: bool)

  type Index = i: int | 0 <= i < 1024

  predicate Present(e: Word) { e % 2 == 1 }

  predicate WriteBit(e: Word) { e / 2 % 2 == 1 }

  function FrameOf(e: Word): (f: nat)
    ensures f < 0x100000
  {
    e / 4096
  }

  /** `x | 3`: present and writable. */
  function Or3(x: Word): Word { x - x % 4 + 3 }

  lemma TableEntry(t: nat)
    requires t < 0x100000
    ensures Or3(t * 4096) == t * 4096 + 3
    ensures Present(t * 4096 + 3) && WriteBit(t * 4096 + 3) && FrameOf(t * 4096 + 3) == t
  {
    QuotientIs(t * 4096 + 3, 4096, t, 3);
    QuotientIs(t * 4096 + 3, 2, 2048 * t + 1, 1);
    QuotientIs(2048 * t + 1, 2, 1024 * t, 1);
    QuotientIs(t * 4096, 4, 1024 * t, 0);
  }

  /** An entry by its parts: bit 0 says present, bit 1 writable, and the frame is above the 12 flag bits. */
  lemma EntryParts(f: nat, flags: nat)
    requires f < 0x100000 && flags < 4096
    ensures var e := f * 4096 + flags;
      && FrameOf(e) == f && PageMask(e) == f * 4096
      && (Present(e) <==> flags % 2 == 1) && (WriteBit(e) <==> flags % 4 >= 2)
  {
    var e := f * 4096 + flags;
    QuotientIs(e, 4096, f, flags);
    QuotientIs(e, 2, 2048 * f + flags / 2, flags % 2);
    QuotientIs(2048 * f + flags / 2, 2, 1024 * f + flags / 4, flags / 2 % 2);
  }

  lemma QuotientIs(n: nat, d: nat, q: nat, r: nat)
    requires r < d && n == d * q + r
    ensures n / d == q && n % d == r
  {
    assert n == d * (n / d) + n % d;
    if n / d < q {
      MultipleGrows(d, n / d + 1, q);
    } else if q < n / d {
      MultipleGrows(d, q + 1, n / d);
    }
  }

  lemma MultipleGrows(d: nat, x: nat, y: nat)
    requires x <= y
    ensures d * x <= d * y
  {
  }

  lemma NullEntry()
    ensures !Present(0)
  {
  }

  /** `x & ~0xfff`. */
  function PageMask(x: Word): Word { x - x % 4096 }

  function DirIndex(va: Word): Index { va / 0x400000 }

  function TableIndex(va: Word): Index { va / 4096 % 1024 }

  function WordIndex(va: Word): Index { va % 4096 / 4 }

  ghost predicate IsFrame(f: int) { 0 <= f < 0x100000 }

  ghost function At(ram: Ram, loc: Loc): Word
    requires IsFrame(loc.frame) && loc.word < 1024
  {
    ram[loc.frame][loc.word]
  }

  ghost function Put(ram: Ram, loc: Loc, w: Word): Ram
    requires IsFrame(loc.frame) && loc.word < 1024
  {
    ram[loc.frame := ram[loc.frame][loc.word := w]]
  }

  /** The hardware walk: the physical word behind a virtual address, if both levels are present. */
  function Walk(ram: Ram, dir: int, va: Word): (r: Option<Loc>)
    requires 0 <= dir < 0x100000
    ensures r.Some? ==> r.value.frame < 0x100000 && r.value.word < 1024
  {
    var pde := ram[dir][DirIndex(va)];
    if !Present(pde) then None
    else
      var pte := ram[FrameOf(pde)][TableIndex(va)];
      if !Present(pte) then None else Some(Loc(FrameOf(pte), WordIndex(va)))
  }

  ghost predicate HasTable(ram: Ram, dir: int, i: Index)
    requires IsFrame(dir)
  {
    Present(ram[dir][i])
  }

  ghost function TableOf(ram: Ram, dir: int, i: Index): (f: nat)
    requires IsFrame(dir)
    ensures IsFrame(f)
  {
    FrameOf(ram[dir][i])
  }

  /** What page number `p` translates to under directory frame `dir`. */
  ghost function PageAt(ram: Ram, dir: int, p: nat): Option<Page>
    requires IsFrame(dir) && p < 0x100000
  {
    var pde := ram[dir][p / 1024];
    if !Present(pde) then None
    else
      var pte := ram[FrameOf(pde)][p % 1024];
      if !Present(pte) then None else Some(Page(FrameOf(pte), WriteBit(pde) && WriteBit(pte)))
  }

  /** The flat view of an address space, outside the recursive window. */
  ghost function Flat(ram: Ram, dir: int): map<nat, Page>
    requires IsFrame(dir)
  {
    map p: nat | p < 0xFFC00 && PageAt(ram, dir, p).Some? :: PageAt(ram, dir, p).value
  }

  lemma WalkIsPageAt(ram: Ram, dir: int, va: Word)
    requires IsFrame(dir)
    ensures Walk(ram, dir, va) ==
      match PageAt(ram, dir, va / 4096)
      case None => None
      case Some(page) => Some(Loc(page.frame, va % 4096 / 4))
  {
    assert va / 4096 / 1024 == va / 0x400000;
  }

  /** The masks and divisions of i386_virtual_to_pgidx, against the page number. */
  lemma Pgidx(va: Word)
    ensures var addr := PageMask(va);
      && addr / 0x400000 == DirIndex(va) == va / 4096 / 1024
      && addr % 0x400000 / 0x1000 == TableIndex(va) == va / 4096 % 1024
  {
    var p := va / 4096;
    var i, j := p / 1024, p % 1024;
    assert PageMask(va) == 4096 * p == 0x400000 * i + 4096 * j;
    assert va == 0x400000 * i + (4096 * j + va % 4096);
  }

  // ----- the recursive window -----

  ghost predicate SelfMapped(ram: Ram, dir: int) {
    IsFrame(dir) && HasTable(ram, dir, 1023) && TableOf(ram, dir, 1023) == dir
  }

  /** The window seen from directory frame `root` opens on directory `d`: entry 1023 of root names
      d, and d names itself. From d itself this is self-reference. */
  ghost predicate OpensOn(ram: Ram, root: int, d: int) {
    IsFrame(root) && HasTable(ram, root, 1023) && TableOf(ram, root, 1023) == d && SelfMapped(ram, d)
  }

  function TableSlot(i: Index, j: Index): Word { 0xFFC00000 + i * 0x1000 + 4 * j }

  function DirSlot(i: Index): Word { 0xFFFFF000 + 4 * i }

  lemma SlotIndices(i: Index, j: Index)
    ensures DirIndex(TableSlot(i, j)) == 1023 && TableIndex(TableSlot(i, j)) == i && WordIndex(TableSlot(i, j)) == j
    ensures DirSlot(i) == TableSlot(1023, i)
  {
  }

  /** Through a window on directory d, the address of word j of table i lands on exactly that word
      of d's table, and is unmapped when d's entry i names no table; the top window page is d. */
  lemma WindowLandsOnTables(ram: Ram, root: int, d: int, i: Index, j: Index)
    requires OpensOn(ram, root, d)
    ensures Walk(ram, root, TableSlot(i, j)) ==
            if HasTable(ram, d, i) then Some(Loc(TableOf(ram, d, i), j)) else None
    ensures Walk(ram, root, DirSlot(i)) == Some(Loc(d, i))
  {
    hide Present, FrameOf, DirIndex, TableIndex, WordIndex, TableSlot, DirSlot;
    SlotIndices(i, j);
    SlotIndices(1023, i);
  }

  // ----- directories as the kernel keeps them -----

  /** Self-mapped, and every other entry names a writable table frame of its own. */
  ghost predicate Shaped(ram: Ram, dir: int) {
    && SelfMapped(ram, dir)
    && (forall i: Index :: i < 1023 && HasTable(ram, dir, i) ==> TableOf(ram, dir, i) != dir && WriteBit(ram[dir][i]))
    && (forall i: Index, j: Index :: i < j < 1023 && HasTable(ram, dir, i) && HasTable(ram, dir, j)
          ==> TableOf(ram, dir, i) != TableOf(ram, dir, j))
  }

  ghost predicate TableInUse(ram: Ram, t: int)
    requires IsFrame(t)
  {
    exists j: Index :: Present(ram[t][j])
  }

  /** No table is left without a present entry. */
  ghost predicate NoIdleTable(ram: Ram, dir: int)
    requires IsFrame(dir)
  {
    forall i: Index :: i < 1023 && HasTable(ram, dir, i) ==> TableInUse(ram, TableOf(ram, dir, i))
  }

  /** The directory and its tables are non-null frames that the block allocator holds as used. */
  ghost predicate Owned(ram: Ram, dir: int, used: set<nat>)
    requires IsFrame(dir)
  {
    && dir in used && dir != 0
    && forall i: Index :: i < 1023 && HasTable(ram, dir, i) ==>
      TableOf(ram, dir, i) in used && TableOf(ram, dir, i) != 0
  }

  ghost predicate GoodSpace(ram: Ram, dir: int, used: set<nat>) {
    IsFrame(dir) && Shaped(ram, dir) && NoIdleTable(ram, dir) && Owned(ram, dir, used)
  }

  /** The frames that hold this directory and its tables. */
  ghost predicate IsStructure(ram: Ram, dir: int, f: int)
    requires IsFrame(dir)
  {
    f == dir || exists i: Index :: i < 1023 && HasTable(ram, dir, i) && TableOf(ram, dir, i) == f
  }

  // ----- single edits of an address space -----

  /** An entry of an existing table is rewritten. */
  ghost function EditEntry(ram: Ram, dir: int, p: nat, e: Word): Ram
    requires IsFrame(dir) && p < 0xFFC00
  {
    Put(ram, Loc(TableOf(ram, dir, p / 1024), p % 1024), e)
  }

  /** A fresh frame becomes the table of p's directory entry and holds one entry. */
  ghost function AddTable(ram: Ram, dir: int, p: nat, t: nat, e: Word): Ram
    requires IsFrame(dir) && p < 0xFFC00 && IsFrame(t)
  {
    ram[dir := ram[dir][p / 1024 := t * 4096 + 3]][t := ZeroFrame()[p % 1024 := e]]
  }

  /** p's directory entry is cleared. */
  ghost function DropTable(ram: Ram, dir: int, p: nat): Ram
    requires IsFrame(dir) && p < 0xFFC00
  {
    Put(ram, Loc(dir, p / 1024), 0)
  }

  lemma PageAtAfterEdit(ram: Ram, dir: int, p: nat, e: Word, q: nat)
    requires Shaped(ram, dir) && p < 0xFFC00 && HasTable(ram, dir, p / 1024) && q < 0xFFC00
    ensures PageAt(EditEntry(ram, dir, p, e), dir, q) ==
            if q != p then PageAt(ram, dir, q)
            else if Present(e) then Some(Page(FrameOf(e), WriteBit(e)))
            else None
  {
    hide Present, FrameOf, WriteBit;
    var i, k := p / 1024, q / 1024;
    assert p == 1024 * i + p % 1024 && q == 1024 * k + q % 1024;
    if HasTable(ram, dir, k) && i != k {
      assert TableOf(ram, dir, i) != TableOf(ram, dir, k);
    }
  }

  lemma PageAtAfterAdd(ram: Ram, dir: int, p: nat, t: nat, e: Word, q: nat)
    requires Shaped(ram, dir) && p < 0xFFC00 && !HasTable(ram, dir, p / 1024) && q < 0xFFC00
    requires IsFrame(t) && !IsStructure(ram, dir, t)
    ensures PageAt(AddTable(ram, dir, p, t, e), dir, q) ==
            if q != p then PageAt(ram, dir, q)
            else if Present(e) then Some(Page(FrameOf(e), WriteBit(e)))
            else None
  {
    hide Present, FrameOf, WriteBit;
    var i, k := p / 1024, q / 1024;
    var ram' := AddTable(ram, dir, p, t, e);
    TableEntry(t);
    NullEntry();
    assert p == 1024 * i + p % 1024 && q == 1024 * k + q % 1024;
    assert ram'[dir] == ram[dir][i := t * 4096 + 3];
    if i == k {
      assert ram'[dir][k] == t * 4096 + 3 && FrameOf(ram'[dir][k]) == t;
      assert ram'[t] == ZeroFrame()[p % 1024 := e];
    } else if HasTable(ram, dir, k) {
      assert TableOf(ram, dir, k) != t && TableOf(ram, dir, k) != dir;
      assert ram'[TableOf(ram, dir, k)] == ram[TableOf(ram, dir, k)];
    }
  }

  lemma PageAtAfterDrop(ram: Ram, dir: int, p: nat, q: nat)
    requires Shaped(ram, dir) && p < 0xFFC00 && HasTable(ram, dir, p / 1024) && q < 0xFFC00
    requires !TableInUse(ram, TableOf(ram, dir, p / 1024))
    ensures PageAt(DropTable(ram, dir, p), dir, q) == PageAt(ram, dir, q)
  {
    hide Present, FrameOf, WriteBit;
    NullEntry();
    if HasTable(ram, dir, q / 1024) && p / 1024 != q / 1024 {
      assert TableOf(ram, dir, q / 1024) != dir;
    }
  }
}
