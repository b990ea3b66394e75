/** The kernel heap allocator of kalloc.c, with its headers in paged kernel memory. */
module KernelHeaps {
  import opened Paging
  import opened HeapTiles
  import opened HeapLists
  import opened LiveBlocks
  import opened HeapSearch
  import opened KernelSpaces
  import opened HeapFrames
  import opened ByteMemory
  import opened WrittenFree

  const HEADER: nat := 8

  /** A region of nu bytes can be asked for at break brk: no address wraps, the break is in step or
      catches up, and the pool does not run dry exactly at a page table. */
  ghost predicate RegionReady(brk: nat, nu: nat, last: nat, tops: iset<nat>) {
    brk + nu < 0x1_0000_0000 && (brk + nu) / 4096 >= last && Pays(tops, brk + nu)
  }

  /** And freeing it misleads no compiled test. */
  ghost predicate GrowthReady(rd: Reading, base: nat, ts: seq<Tile>, brk: nat, nu: nat, last: nat, tops: iset<nat>) {
    RegionReady(brk, nu, last, tops) && GrowthMisses(rd, ts, brk, nu, base)
  }

  /** The growths that a search without a fit can make: a region, and a second one if the first can be
      had and does not join a free block at the end of the heap. */
  ghost predicate MayGrow(rd: Reading, base: nat, ts: seq<Tile>, brk: nat, nu: nat, last: nat, tops: iset<nat>,
                          reach: iset<Word>)
  {
    && GrowthReady(rd, base, ts, brk, nu, last, tops)
    && (brk + nu in reach && !JoinsEnd(rd, ts) ==>
          GrowthReady(rd, base, GrownIn(rd, ts, brk, nu), brk + nu, nu, (brk + nu) / 4096, tops))
  }

  class KernelHeap {
    const space: KernelSpace
    /** How lines 101 and 109 read a size. */
    const reading: Reading
    /** Address of the static header, below the heap. */
    const base: nat
    var baseNext: Word
    var baseSize: Word
    /** free_hdr: 0 until the first call builds the list. */
    var freeHdr: Word
    /** The heap from its start to the break, block by block. */
    ghost var tiles: seq<Tile>

    constructor (space: KernelSpace, base: nat, reading: Reading)
      requires space.Valid() && space.kernelBreak == 0xD0000000 && 0 < base && base + HEADER <= 0xD0000000
      ensures Valid() && tiles == [] && freeHdr == 0 && this.space == space && this.reading == reading
    {
      this.space, this.reading := space, reading;
      this.base := base;
      baseNext, baseSize, freeHdr, tiles := 0, 0, 0, [];
    }

    /** All memory the allocator can name: the heap pages and the static header. */
    ghost function Mem(): Mem
      reads this`baseNext, this`baseSize, space, space.mmu
    {
      PutWord(PutWord(space.Mem(), base, baseNext), base + 4, baseSize)
    }

    /** The break code is sound, and every byte below the break is a byte of a heap page. */
    ghost predicate SpaceOk()
      reads space, space.mmu, space.mmu.balloc, space.mmu.balloc.bmp
    {
      && space.Valid()
      && 0 < base && base + HEADER <= 0xD0000000
      && 0xD0000000 <= space.kernelBreak
      && forall a: nat :: 0xD0000000 <= a < space.kernelBreak ==> a in space.Mem()
    }

    ghost function Members(): seq<Tile>
      reads this`tiles
    {
      FreeList(tiles, base)
    }

    /** The heap as one value predicate: tiled to the break, headers and links right, neat in its reading. */
    ghost predicate Holds()
      reads this`tiles, this`baseNext, this`baseSize, space, space.mmu
    {
      HeapHolds(reading, Mem(), tiles, base, 0xD0000000, space.kernelBreak)
    }

    /** The rover is member s of the list. */
    ghost predicate RoverAt(s: nat)
      reads this`tiles, this`freeHdr
    {
      s < |Members()| && freeHdr == Members()[s].addr
    }

    ghost predicate Valid()
      reads this, space, space.mmu, space.mmu.balloc, space.mmu.balloc.bmp
    {
      && SpaceOk()
      && if freeHdr == 0 then tiles == [] && space.kernelBreak == 0xD0000000
         else Holds() && exists s: nat :: RoverAt(s)
    }

    /** An address that can hold a header. */
    ghost predicate HeaderRoom(a: nat)
      reads space`kernelBreak
    {
      a == base || (0xD0000000 <= a && a + HEADER <= space.kernelBreak)
    }

    // ----- header fields -----

    /** Words of the static header and words of the heap do not meet. */
    lemma WordsOfMem(a: nat)
      requires SpaceOk()
      ensures HasWord(Mem(), base) && WordAt(Mem(), base) == baseNext
      ensures HasWord(Mem(), base + 4) && WordAt(Mem(), base + 4) == baseSize
      ensures 0xD0000000 <= a && a + 4 <= space.kernelBreak ==>
        HasWord(space.Mem(), a) && HasWord(Mem(), a) && WordAt(Mem(), a) == WordAt(space.Mem(), a)
    {
      hide PutWord, WordAt, KernelSpace.Mem, KernelSpace.Valid;
      var m := space.Mem();
      WordsAfterPut(m, base, baseNext);
      WordsAfterPut(PutWord(m, base, baseNext), base + 4, baseSize);
    }

    lemma BaseAfterWrite(m: Mem, next: Word, size: Word, w: Word)
      ensures var both := PutWord(PutWord(m, base, next), base + 4, size);
        && PutWord(PutWord(m, base, w), base + 4, size) == PutWord(both, base, w)
        && PutWord(PutWord(m, base, next), base + 4, w) == PutWord(both, base + 4, w)
      
    {
      hide PutWord;
      PutsCommute(PutWord(m, base, next), base + 4, size, base, w);
      PutTwice(m, base, next, w);
      PutTwice(PutWord(m, base, next), base + 4, size, w);
    }

    lemma HeapAfterWrite(m: Mem, next: Word, size: Word, a: nat, w: Word)
      requires base + HEADER <= a
      ensures PutWord(PutWord(PutWord(m, a, w), base, next), base + 4, size)
              == PutWord(PutWord(PutWord(m, base, next), base + 4, size), a, w)
    {
      hide PutWord;
      PutsCommute(m, a, w, base, next);
      PutsCommute(PutWord(m, base, next), a, w, base + 4, size);
    }

    method ReadNext(a: nat) returns (w: Word)
      requires SpaceOk() && HeaderRoom(a)
      ensures HasWord(Mem(), a) && w == WordAt(Mem(), a)
    {
      hide KernelSpace.Valid, KernelSpace.Mem, KernelSpace.Reach, WordAt, HasWord, Mem;
      WordsOfMem(a);
      if a == base {
        w := baseNext;
      } else {
        w := space.Peek(a);
      }
    }

    method ReadSize(a: nat) returns (w: Word)
      requires SpaceOk() && HeaderRoom(a)
      ensures HasWord(Mem(), a + 4) && w == WordAt(Mem(), a + 4)
    {
      hide KernelSpace.Valid, KernelSpace.Mem, KernelSpace.Reach, WordAt, HasWord, Mem;
      WordsOfMem(a + 4);
      if a == base {
        w := baseSize;
      } else {
        w := space.Peek(a + 4);
      }
    }

    method WriteNext(a: nat, w: Word)
      requires SpaceOk() && HeaderRoom(a)
      modifies this`baseNext, space.mmu`ram
      ensures SpaceOk() && Mem() == PutWord(old(Mem()), a, w)
      ensures old(space.Tidy()) ==> space.Tidy() && space.Outlook() == old(space.Outlook())
    {
      hide KernelSpace.Valid, KernelSpace.Mem, KernelSpace.Tidy, KernelSpace.Outlook, WordAt, HasWord, PutWord;
      WordsOfMem(a);
      ghost var m := space.Mem();
      BaseAfterWrite(m, baseNext, baseSize, w);
      if a == base {
        baseNext := w;
      } else {
        HeapAfterWrite(m, baseNext, baseSize, a, w);
        BytesAfterPut(m, a, w);
        space.Poke(a, w);
      }
    }

    method WriteSize(a: nat, w: Word)
      requires SpaceOk() && HeaderRoom(a)
      modifies this`baseSize, space.mmu`ram
      ensures SpaceOk() && Mem() == PutWord(old(Mem()), a + 4, w)
      ensures old(space.Tidy()) ==> space.Tidy() && space.Outlook() == old(space.Outlook())
    {
      hide KernelSpace.Valid, KernelSpace.Mem, KernelSpace.Tidy, KernelSpace.Outlook, WordAt, HasWord, PutWord;
      WordsOfMem(a + 4);
      ghost var m := space.Mem();
      BaseAfterWrite(m, baseNext, baseSize, w);
      if a == base {
        baseSize := w;
      } else {
        HeapAfterWrite(m, baseNext, baseSize, a + 4, w);
        BytesAfterPut(m, a + 4, w);
        space.Poke(a + 4, w);
      }
    }

    // ----- freeing -----

    ghost predicate MembersHaveRoom()
      reads this`tiles, space`kernelBreak
    {
      forall k :: 0 <= k < |Members()| ==> HeaderRoom(Members()[k].addr)
    }

    /** The search loop of kernel_free, on any circular list in address order and any block that is
        not on it: from every member it stops, at the one predecessor. */
    method FindPredecessor(blk: nat, ghost fl: seq<Tile>, ghost s: nat) returns (hdr: Word, ghost k: nat)
      requires SpaceOk() && Linked(Mem(), fl) && Spaced(fl)
      requires forall j :: 0 <= j < |fl| ==> HeaderRoom(fl[j].addr) && fl[j].addr != blk
      requires s < |fl| && freeHdr == fl[s].addr
      ensures k < |fl| && IsPred(fl, blk, k) && hdr == fl[k].addr
      ensures forall j: nat :: j < |fl| && IsPred(fl, blk, j) ==> hdr == fl[j].addr
    {
      hide KernelSpace.Valid, KernelSpace.Mem, Linked, Spaced, IsPred, Succ;
      k := PredExists(fl, blk);
      PredInList(fl, blk, k);
      forall j: nat | IsPred(fl, blk, j)
        ensures j == k
      {
        PredUnique(fl, blk, j, k);
      }
      ghost var c := s;
      hdr := freeHdr;
      while true
        invariant 0 <= c < |fl| && hdr == fl[c].addr
        decreases if c <= k then k - c else |fl| - c + k
      {
        LinkedAt(Mem(), fl, c);
        SearchStopsAtPred(fl, blk, c, k);
        var next := ReadNext(hdr);
        if blk > hdr && blk < next {
          break;
        }
        if hdr >= next && (blk > hdr || blk < next) {
          break;
        }
        hdr := next;
        c := if c + 1 < |fl| then c + 1 else 0;
      }
    }

    lemma PredInList(fl: seq<Tile>, blk: nat, k: nat)
      requires IsPred(fl, blk, k)
      ensures k < |fl|
    {
    }

    /** Lines 101-107, one unit of size stepping `scale` bytes: the block takes over the next member,
        or just its link. */
    method MergeRight(scale: nat, blk: Word, hdr: Word, ghost fl: seq<Tile>, ghost k: nat, ghost b: Tile)
      requires SpaceOk() && k < |fl| && Linked(Mem(), fl) && FitsAfter(fl, k, blk) && hdr == fl[k].addr
      requires forall j :: 0 <= j < |fl| ==> HeaderRoom(fl[j].addr)
      requires b.addr == blk && blk != base && HeaderRoom(blk) && fl[0].size == 0
      requires SizeAt(Mem(), blk, b.size)
      requires b.size + fl[if k + 1 < |fl| then k + 1 else 0].size < 0x1_0000_0000
      modifies this`baseNext, this`baseSize, space.mmu`ram
      ensures SpaceOk() && (old(space.Tidy()) ==> space.Tidy() && space.Outlook() == old(space.Outlook()))
      ensures OnlyHeadersChanged(old(Mem()), Mem(), blk, blk)
      ensures ReadyToLink(Mem(), scale, fl, k, b)
    {
      hide Mem, SpaceOk, KernelSpace.Valid, KernelSpace.Mem, KernelSpace.Tidy, KernelSpace.Outlook, LinkedBut, Linked,
           PutWord, WordAt, HasWord, EndBy, OnlyHeadersChanged, Rest, RestIndex, Grown, Succ, FitsAfter;
      ghost var m, n := Mem(), if k + 1 < |fl| then k + 1 else 0;
      NotAMember(fl, k, blk);
      AfterTest(scale, fl, k, b);
      LinkedAt(m, fl, k);
      LinkedAt(m, fl, n);
      var size := ReadSize(blk);
      var next := ReadNext(hdr);
      if EndBy(scale, blk, size) == next {
        var nextSize := ReadSize(next);
        var nextNext := ReadNext(next);
        WriteHeader(blk, size + nextSize, nextNext);
        if |fl| > 1 {
          AfterRightMerge(m, scale, fl, k, b, size + nextSize, nextNext);
        } else {
          AfterLoneMerge(m, fl, b, nextNext);
        }
      } else {
        OneWriteChanges(m, blk, next);
        WriteNext(blk, next);
        AfterRightLink(m, scale, fl, k, b, next);
      }
    }

    /** What the test of line 101 compares, and what it makes of the list. */
    lemma AfterTest(scale: nat, fl: seq<Tile>, k: nat, b: Tile)
      requires k < |fl|
      ensures MergesNext(scale, fl, k, b) <==> |fl| > 1 && EndBy(scale, b.addr, b.size) == Succ(fl, k)
      ensures MergesNext(scale, fl, k, b) ==>
        Grown(scale, fl, k, b).size == b.size + fl[if k + 1 < |fl| then k + 1 else 0].size
      ensures !MergesNext(scale, fl, k, b) ==>
        Rest(scale, fl, k, b) == fl && RestIndex(scale, fl, k, b) == k && Grown(scale, fl, k, b).size == b.size
      ensures |fl| == 1 ==> k == 0 && Succ(fl, 0) == fl[0].addr
    {
    }

    /** A header's size, then its link. */
    method WriteHeader(hdr: Word, size: Word, next: Word)
      requires SpaceOk() && HeaderRoom(hdr)
      modifies this`baseNext, this`baseSize, space.mmu`ram
      ensures SpaceOk() && Mem() == PutWord(PutWord(old(Mem()), hdr + 4, size), hdr, next)
      ensures OnlyHeadersChanged(old(Mem()), Mem(), hdr, hdr)
      ensures old(space.Tidy()) ==> space.Tidy() && space.Outlook() == old(space.Outlook())
    {
      hide Mem, SpaceOk, KernelSpace.Valid, KernelSpace.Mem, KernelSpace.Tidy, KernelSpace.Outlook, PutWord,
           OnlyHeadersChanged;
      ghost var m := Mem();
      OneWriteChanges(m, hdr, size);
      WriteSize(hdr, size);
      OneWriteChanges(Mem(), hdr, next);
      TwoWrites(m, Mem(), PutWord(Mem(), hdr, next), hdr, hdr);
      WriteNext(hdr, next);
    }

    lemma NotAMember(fl: seq<Tile>, k: nat, b: nat)
      requires FitsAfter(fl, k, b)
      ensures k < |fl| && forall j :: 0 <= j < |fl| ==> fl[j].addr != b
    {
      forall j | 0 <= j < |fl|
        ensures fl[j].addr != b
      {
        if j <= k {
        } else {
        }
      }
    }

    /** Lines 109-115: the predecessor takes over the block, or links to it. */
    method MergeLeft(scale: nat, blk: Word, hdr: Word, ghost fl: seq<Tile>, ghost k: nat, ghost g: Tile)
      requires SpaceOk() && LinkedBut(Mem(), fl, k) && Spaced(fl) && FitsAfter(fl, k, blk) && hdr == fl[k].addr
      requires HeaderRoom(hdr)
      requires g.addr == blk && blk != base && HeaderRoom(blk) && HeaderAt(Mem(), blk, Succ(fl, k), g.size)
      requires fl[k].size + g.size < 0x1_0000_0000
      modifies this`baseNext, this`baseSize, space.mmu`ram
      ensures SpaceOk() && (old(space.Tidy()) ==> space.Tidy() && space.Outlook() == old(space.Outlook()))
      ensures var linked :=
          if EndBy(scale, fl[k].addr, fl[k].size) == blk then fl[k := Tile(fl[k].addr, fl[k].size + g.size, true)]
          else fl[..k + 1] + [g] + fl[k + 1..];
        Linked(Mem(), linked)
      ensures OnlyHeadersChanged(old(Mem()), Mem(), hdr, hdr)
    {
      hide Mem, SpaceOk, KernelSpace.Valid, KernelSpace.Mem, KernelSpace.Tidy, KernelSpace.Outlook, FitsAfter, Linked,
           Succ, Spaced, PutWord, WordAt, HasWord, EndBy, OnlyHeadersChanged;
      ghost var m := Mem();
      var hdrSize := ReadSize(hdr);
      if EndBy(scale, hdr, hdrSize) == blk {
        var size := ReadSize(blk);
        var next := ReadNext(blk);
        WriteHeader(hdr, hdrSize + size, next);
        AfterLeftMerge(m, fl, k, g, hdrSize + size, next);
      } else {
        OneWriteChanges(m, hdr, blk);
        WriteNext(hdr, blk);
        AfterLeftLink(m, fl, k, g, blk);
      }
    }

    /** What lines 97-117 rely on and change, with no two free blocks required apart. */
    ghost predicate Links()
      reads this`tiles, this`baseNext, this`baseSize, space, space.mmu
    {
      HeapLinks(Mem(), tiles, base, 0xD0000000, space.kernelBreak)
    }

    /** Lines 97-117 on any linked heap, one unit of size stepping `scale` bytes: memory ends up with
        the list that the two tests make, and no other live block is touched. */
    method LinkFreed(scale: nat, blk: Word, ghost i: nat)
      requires SpaceOk() && Links() && freeHdr != 0 && (exists s: nat :: RoverAt(s))
      requires i < |tiles| && !tiles[i].free && blk == tiles[i].addr
      modifies this`baseNext, this`baseSize, this`freeHdr, space.mmu`ram
      ensures SpaceOk() && (old(space.Tidy()) ==> space.Tidy() && space.Outlook() == old(space.Outlook()))
      ensures ListIndex(tiles, i) < |Members()| && freeHdr == Members()[ListIndex(tiles, i)].addr && freeHdr != 0
      ensures Linked(Mem(), ListAfterLines(scale, Members(), ListIndex(tiles, i), tiles[i]))
      ensures LiveKept(old(Mem()), Mem(), tiles, i)
      ensures HasWord(Mem(), blk)
      ensures !MergesNext(scale, Members(), ListIndex(tiles, i), tiles[i]) ==>
        WordAt(Mem(), blk) == Succ(Members(), ListIndex(tiles, i))
    {
      hide Mem, SpaceOk, KernelSpace.Valid, KernelSpace.Mem, KernelSpace.Tidy, KernelSpace.Outlook, Tiled, Frees,
           FitsAfter, LinkedBut, Linked, Grown, Succ, Spaced, LiveSizes, HeaderAt, LiveKept, OnlyHeadersChanged,
           IsPred, ListIndex, PutWord, WordAt, HasWord, EndBy, MergesNext, Rest, RestIndex, FreeList;
      ghost var m, ts, fl, k, b := Mem(), tiles, Members(), ListIndex(tiles, i), tiles[i];
      ghost var s: nat :| RoverAt(s);
      FreePosition(ts, i, base, 0xD0000000, space.kernelBreak);
      RoomForMembers(i);
      NotAMember(fl, k, blk);
      var hdr, found := FindPredecessor(blk, fl, s);
      PredUnique(fl, blk, found, k);
      MergeRight(scale, blk, hdr, fl, k, b);
      ghost var m1, rest, r, g := Mem(), Rest(scale, fl, k, b), RestIndex(scale, fl, k, b), Grown(scale, fl, k, b);
      RestFits(scale, fl, k, b);
      GrownAddr(scale, fl, k, b);
      MergeLeft(scale, blk, hdr, rest, r, g);
      freeHdr := hdr;
      TwoWrites(m, m1, Mem(), hdr, blk);
      LiveKeptByHeaderWrites(m, Mem(), ts, i, hdr, blk);
      LinkSurvives(m1, Mem(), fl, k, hdr, blk, Succ(rest, r), g.size);
      NoMergeNoRest(scale, fl, k, b);
    }

    lemma GrownAddr(scale: nat, fl: seq<Tile>, k: nat, b: Tile)
      requires k < |fl|
      ensures Grown(scale, fl, k, b).addr == b.addr
    {
    }

    lemma NoMergeNoRest(scale: nat, fl: seq<Tile>, k: nat, b: Tile)
      requires k < |fl|
      ensures !MergesNext(scale, fl, k, b) ==> Rest(scale, fl, k, b) == fl && RestIndex(scale, fl, k, b) == k
    {
    }

    /** The row of blocks after a free that no test misleads, and where a compiled test would. */
    ghost predicate MisledAt(i: nat)
      reads this`tiles
      requires i < |tiles|
    {
      BlockHasIndex(tiles, i, base);
      Misled(reading, tiles, i, base)
    }

    /** kernel_free, by header address. Memory links the list that the two tests make; the heap is valid
        again, with the block freed, if and only if no compiled test hits. */
    method FreeHeader(blk: Word, ghost i: nat)
      requires Valid() && freeHdr != 0 && i < |tiles| && !tiles[i].free && blk == tiles[i].addr
      modifies this`baseNext, this`baseSize, this`freeHdr, this`tiles, space.mmu`ram
      ensures Valid() <==> !old(MisledAt(i))
      ensures SpaceOk() && tiles == FreedIn(reading, old(tiles), i)
      ensures RoverAt(ListIndex(old(tiles), i)) && freeHdr != 0
      ensures ListIndex(old(tiles), i) < |old(Members())|
      ensures Linked(Mem(), ListAfterLines(reading.Step(), old(Members()), ListIndex(old(tiles), i), old(tiles)[i]))
      ensures LiveKept(old(Mem()), Mem(), old(tiles), i)
      ensures old(space.Tidy()) ==> space.Tidy() && space.Outlook() == old(space.Outlook())
      ensures Valid() && i + 1 == |old(tiles)| ==> HasWord(Mem(), blk) && WordAt(Mem(), blk) == base
    {
      hide Mem, SpaceOk, KernelSpace.Valid, KernelSpace.Mem, KernelSpace.Tidy, KernelSpace.Outlook, Tiled, Neat,
           Frees, Linked, Succ, FreeAt, FreedAlone, LiveSizes, LiveKept, ListIndex, FreeList, HasWord, WordAt,
           ListAfterLines, Spaced, FitsAfter, IsPred, MergesNext, Grown, AnyHit;
      ghost var m, ts, fl, k, b, brk := Mem(), tiles, Members(), ListIndex(tiles, i), tiles[i], space.kernelBreak;
      FreePosition(ts, i, base, 0xD0000000, brk);
      LinkFreed(reading.Step(), blk, i);
      tiles := FreedIn(reading, tiles, i);
      ListAfterReading(reading, ts, i, base, 0xD0000000, brk);
      LiveSizesAfterFreed(reading, m, Mem(), ts, i, 0xD0000000, brk);
      FreedKeepsTiling(reading, ts, i, 0xD0000000, brk);
      LastBlockWraps(ts, i, base);
      if Misled(reading, ts, i, base) {
        HitLosesTheList(Mem(), ts, i, base, 0xD0000000, brk);
      }
      assert RoverAt(k);
    }

    lemma RoomForMembers(i: nat)
      requires SpaceOk() && Links() && i < |tiles|
      ensures MembersHaveRoom() && HeaderRoom(tiles[i].addr) && tiles[i].addr != base && 0 < base
      ensures base + HEADER <= 0xD0000000
      ensures HasWord(Mem(), tiles[i].addr) && HasWord(Mem(), tiles[i].addr + 4)
      ensures !tiles[i].free ==> WordAt(Mem(), tiles[i].addr + 4) == tiles[i].size
    {
      hide Mem, Tiled, Frees, Linked, FreeList, KernelSpace.Valid, HasWord, WordAt;
      TileFacts(tiles, i, 0xD0000000, space.kernelBreak);
      WordsOfMem(tiles[i].addr);
      WordsOfMem(tiles[i].addr + 4);
      RoomForAllMembers();
    }

    lemma RoomForAllMembers()
      requires Links()
      ensures MembersHaveRoom()
    {
      hide Mem, Tiled, Frees, Linked, LiveSizes, FreeList;
      forall k | 0 <= k < |Members()|
        ensures HeaderRoom(Members()[k].addr)
      {
        if k == 0 {
          FirstMember();
        } else {
          MemberInHeap(tiles, base, k, 0xD0000000, space.kernelBreak);
        }
      }
    }

    lemma FirstMember()
      ensures Members() != [] && Members()[0] == Tile(base, 0, true)
    {
      hide Frees;
    }

    lemma LinkSurvives(m: Mem, m': Mem, fl: seq<Tile>, k: nat, h: nat, b: nat, next: nat, size: nat)
      requires HeaderAt(m, b, next, size) && OnlyHeadersChanged(m, m', h, h) && FitsAfter(fl, k, b) && fl[k].addr == h
      ensures HasWord(m', b) && WordAt(m', b) == next
    {
      hide WordAt;
      SameBytesSameWord(m, m', b);
    }

    /** kernel_free. */
    method Free(mblock: Word, ghost i: nat)
      requires Valid() && i < |tiles| && !tiles[i].free && mblock == tiles[i].addr + HEADER
      modifies this`baseNext, this`baseSize, this`freeHdr, this`tiles, space.mmu`ram
      ensures Valid() <==> !old(MisledAt(i))
      ensures SpaceOk() && tiles == FreedIn(reading, old(tiles), i)
      ensures RoverAt(ListIndex(old(tiles), i)) && freeHdr != 0
      ensures ListIndex(old(tiles), i) < |old(Members())|
      ensures Linked(Mem(), ListAfterLines(reading.Step(), old(Members()), ListIndex(old(tiles), i), old(tiles)[i]))
      ensures LiveKept(old(Mem()), Mem(), old(tiles), i)
      ensures old(space.Tidy()) ==> space.Tidy() && space.Outlook() == old(space.Outlook())
      ensures
        var fl, k, b := old(Members()), ListIndex(old(tiles), i), old(tiles)[i];
        var next, prev := if k + 1 < |fl| then fl[k + 1].addr else fl[0].addr, fl[k];
        Valid() <==>
          || reading.InBytes?
          || ((|fl| > 1 ==> (b.addr + 8 * b.size) % 0x1_0000_0000 != next)
              && (prev.addr + 8 * prev.size) % 0x1_0000_0000 != b.addr)
      ensures reading.AsCompiled? ==> tiles == old(tiles)[i := Tile(mblock - 8, old(tiles)[i].size, true)]
      ensures forall j: nat, a: nat ::
        && j < |old(tiles)| && j != i && !old(tiles)[j].free && a in old(Mem())
        && old(tiles)[j].addr <= a < old(tiles)[j].addr + old(tiles)[j].size
        ==> a in Mem() && Mem()[a] == old(Mem())[a]
    {
      hide SpaceOk, Mem, Members, KernelSpace.Tidy, KernelSpace.Outlook, LiveKept, Tiled, MisledAt, Linked,
           ListAfterLines;
      ghost var m, ts := Mem(), tiles;
      TestsOfFree(i);
      FreeHeader(mblock - HEADER, i);
      LiveBytesKept(m, Mem(), ts, i);
    }

    /** The two compiled tests of a free, in bytes. */
    lemma TestsOfFree(i: nat)
      requires i < |tiles|
      ensures ListIndex(tiles, i) < |Members()|
      ensures
        var fl, k, b := Members(), ListIndex(tiles, i), tiles[i];
        var next, prev := if k + 1 < |fl| then fl[k + 1].addr else fl[0].addr, fl[k];
        MisledAt(i) <==>
          && reading.AsCompiled?
          && ((|fl| > 1 && (b.addr + 8 * b.size) % 0x1_0000_0000 == next)
              || (prev.addr + 8 * prev.size) % 0x1_0000_0000 == b.addr)
    {
      hide FreeList, ListIndex;
      BlockHasIndex(tiles, i, base);
    }

    /** Would a free of block i mislead? The search of kernel_free and its two tests, nothing written. */
    method FreeMisleads(blk: Word, ghost i: nat) returns (hit: bool)
      requires Valid() && i < |tiles| && !tiles[i].free && blk == tiles[i].addr
      ensures hit <==> MisledAt(i)
    {
      hide Mem, SpaceOk, KernelSpace.Valid, KernelSpace.Mem, Tiled, Neat, Frees, Linked, Spaced, LiveSizes, IsPred,
           FitsAfter, ListIndex, WordAt, HasWord, EndBy, FreeList;
      ghost var fl, k := Members(), ListIndex(tiles, i);
      ghost var s: nat :| RoverAt(s);
      FreePosition(tiles, i, base, 0xD0000000, space.kernelBreak);
      RoomForMembers(i);
      NotAMember(fl, k, blk);
      var hdr, found := FindPredecessor(blk, fl, s);
      PredUnique(fl, blk, found, k);
      LinkedAt(Mem(), fl, k);
      var size := ReadSize(blk);
      var next := ReadNext(hdr);
      var hdrSize := ReadSize(hdr);
      OneMember(fl, k);
      hit := reading.AsCompiled?
             && ((next != hdr && EndBy(HEADER_SCALE, blk, size) == next) || EndBy(HEADER_SCALE, hdr, hdrSize) == blk);
    }

    /** A member is its own successor exactly when it is alone. */
    lemma OneMember(fl: seq<Tile>, k: nat)
      requires Spaced(fl) && k < |fl|
      ensures |fl| > 1 <==> Succ(fl, k) != fl[k].addr
    {
      if |fl| > 1 {
        assert fl[0].addr < fl[|fl| - 1].addr;
      }
    }

    /** The last member of the list, by walking it: the one whose link does not lead up. */
    method LastOfList() returns (hdr: Word, size: Word)
      requires Valid()
      ensures Members() != [] && hdr == Members()[|Members()| - 1].addr && size == Members()[|Members()| - 1].size
    {
      hide SpaceOk, Mem, Holds, FreeList, Spaced, Next;
      if freeHdr == 0 {
        OnlyHeader();
        return base, 0;
      }
      ghost var fl, c := Members(), RoverIndex();
      MembersSpaced();
      hdr := freeHdr;
      var next: Word := NextMember(hdr, c);
      StepUp(fl, c);
      while next > hdr
        invariant c < |fl| && hdr == fl[c].addr && Next(fl, c) < |fl| && next == fl[Next(fl, c)].addr
        invariant next > hdr <==> c + 1 < |fl|
        decreases |fl| - c
      {
        c := Next(fl, c);
        NextIsNext(fl);
        hdr := next;
        next := NextMember(hdr, c);
        StepUp(fl, c);
      }
      size := MemberSize(hdr, c);
    }

    lemma OnlyHeader()
      requires Valid() && freeHdr == 0
      ensures Members() == [Tile(base, 0, true)] && 0 < base < 0x1_0000_0000
    {
      NoFrees();
    }

    lemma NextIsNext(fl: seq<Tile>)
      ensures forall c: nat :: c + 1 < |fl| ==> Next(fl, c) == c + 1
    {
    }

    lemma StepUp(fl: seq<Tile>, c: nat)
      requires Spaced(fl) && c < |fl|
      ensures Next(fl, c) < |fl| && (fl[Next(fl, c)].addr > fl[c].addr <==> c + 1 < |fl|)
      ensures c + 1 < |fl| ==> Next(fl, c) == c + 1
    {
      if c + 1 == |fl| && c > 0 {
        assert fl[0].addr < fl[c].addr;
      }
    }

    /** Can two regions of nu bytes be freed one after the other without a compiled test hitting? */
    method TwoGrowthsMiss(nu: nat) returns (ok: bool)
      requires Valid() && 8 <= nu && space.kernelBreak + 2 * nu < 0x1_0000_0000
      ensures ok <==>
        && GrowthMisses(reading, tiles, space.kernelBreak, nu, base)
        && GrowthMisses(reading, GrownIn(reading, tiles, space.kernelBreak, nu), space.kernelBreak + nu, nu, base)
    {
      hide SpaceOk, Mem, Holds, EndBy, FreeList, GrowthMisses, GrownIn, Valid;
      if reading.InBytes? {
        BytesNeverMislead(nu);
        return true;
      }
      var hdr, size := LastOfList();
      FirstMember();
      var brk := space.kernelBreak;
      GrowthMissesIff(tiles, brk, nu, base);
      GrowthMissesIff(GrownIn(reading, tiles, brk, nu), brk + nu, nu, base);
      ListAfterGrowth(reading, tiles, brk, nu, base);
      RegionIsLast(brk, nu);
      ScaledEndIsWrong(brk, nu);
      var alone := hdr == base;
      AloneIsBase();
      ok := EndBy(HEADER_SCALE, hdr, size) != brk && (alone || EndBy(HEADER_SCALE, brk, nu) != base)
            && EndBy(HEADER_SCALE, brk + nu, nu) != base;
    }

    lemma BytesNeverMislead(nu: nat)
      requires reading.InBytes?
      ensures forall ts: seq<Tile>, hi: nat :: GrowthMisses(reading, ts, hi, nu, base)
    {
    }

    lemma RegionIsLast(brk: nat, nu: nat)
      requires reading.AsCompiled?
      ensures var fl' := FreeList(GrownIn(reading, tiles, brk, nu), base);
        fl' != [] && fl'[|fl'| - 1] == Tile(brk, nu, true) && fl'[0] == Tile(base, 0, true) && |fl'| > 1
    {
      hide Frees, GrownIn;
      GrowthAtEnd(reading, tiles, brk, nu);
      LastMember(GrownIn(reading, tiles, brk, nu), base);
    }

    lemma AloneIsBase()
      requires Valid()
      ensures Members() != [] && (|Members()| == 1 <==> Members()[|Members()| - 1].addr == base)
    {
      hide SpaceOk, Mem, Tiled, Neat, Frees, Linked, LiveSizes;
      if freeHdr == 0 {
        OnlyHeader();
      } else {
        FreeListInOrder(tiles, base, 0xD0000000, space.kernelBreak);
      }
    }

    // ----- taking a block -----

    /** Lines 63-64: the block fits exactly and leaves the list. */
    method TakeWhole(prev: Word, hdr: Word, ghost x: nat)
      requires Valid() && freeHdr != 0 && x < |tiles| && tiles[x].free && hdr == tiles[x].addr
      requires ListIndex(tiles, x) < |Members()| && prev == Members()[ListIndex(tiles, x)].addr
      modifies this`baseNext, this`tiles, this`freeHdr, space.mmu`ram
      ensures Valid() && tiles == CarveAt(old(tiles), x, old(tiles[x].size))
      ensures freeHdr == prev && RoverAt(ListIndex(old(tiles), x))
      ensures LiveKept(old(Mem()), Mem(), old(tiles), |old(tiles)|)
      ensures old(space.Tidy()) ==> space.Tidy() && space.Outlook() == old(space.Outlook())
    {
      hide Mem, SpaceOk, KernelSpace.Valid, KernelSpace.Mem, KernelSpace.Tidy, KernelSpace.Outlook, Tiled, Neat,
           Frees, Linked, Succ, FreeList, CarveAt, LiveSizes, LiveKept, ListIndex, HasWord, WordAt, PutWord;
      ghost var m, ts, fl := Mem(), tiles, Members();
      ghost var k := ListIndex(ts, x);
      RoomForMembers(x);
      FreeListAfterCarve(ts, x, ts[x].size, base);
      LinkedAt(m, fl, k + 1);
      var next := ReadNext(hdr);
      WholeTaken(reading, m, ts, x, base, 0xD0000000, space.kernelBreak, next);
      WriteNext(prev, next);
      tiles := CarveAt(tiles, x, tiles[x].size);
      freeHdr := prev;
      assert RoverAt(k);
    }

    /** Lines 66-71, for a request of any size: the block's tail is cut off and the rest keeps its
        place on the list. The heap stays valid exactly when the rest has room for its header. */
    method TakeTail(prev: Word, hdr: Word, allocSize: Word, ghost x: nat) returns (blk: Word)
      requires Valid() && freeHdr != 0 && x < |tiles| && tiles[x].free && hdr == tiles[x].addr
      requires ListIndex(tiles, x) < |Members()| && prev == Members()[ListIndex(tiles, x)].addr && prev != 0
      requires 8 <= allocSize < tiles[x].size
      modifies this`baseSize, this`tiles, this`freeHdr, space.mmu`ram
      ensures Valid() <==> LeavesRoom(old(tiles[x].size), allocSize)
      ensures tiles == CarveAt(old(tiles), x, allocSize) && blk == old(tiles[x]).End() - allocSize
      ensures freeHdr == prev && RoverAt(ListIndex(old(tiles), x))
      ensures LiveKept(old(Mem()), Mem(), old(tiles), |old(tiles)|)
      ensures old(space.Tidy()) ==> space.Tidy() && space.Outlook() == old(space.Outlook())
    {
      hide Mem, SpaceOk, KernelSpace.Valid, KernelSpace.Mem, KernelSpace.Tidy, KernelSpace.Outlook, Tiled, Neat,
           Frees, Linked, Succ, FreeList, CarveAt, LiveSizes, LiveKept, ListIndex, HasWord, WordAt, PutWord;
      ghost var m, ts, fl, brk := Mem(), tiles, Members(), space.kernelBreak;
      ghost var k := ListIndex(ts, x);
      RoomForMembers(x);
      TailRoom(x, allocSize);
      FreeListAfterCarve(ts, x, allocSize, base);
      LinkedAt(m, fl, k + 1);
      var size := ReadSize(hdr);
      TailWrites(m, ts, x, 0xD0000000, brk, allocSize, size - allocSize);
      CarveKeepsTiling(ts, x, allocSize, 0xD0000000, brk);
      if LeavesRoom(ts[x].size, allocSize) {
        TailTaken(reading, m, ts, x, base, 0xD0000000, brk, allocSize, size - allocSize);
      }
      WriteSize(hdr, size - allocSize);
      blk := hdr + (size - allocSize);
      WriteSize(blk, allocSize);
      tiles := CarveAt(tiles, x, allocSize);
      freeHdr := prev;
      RoverAfterCarve(fl, k, allocSize);
      assert RoverAt(k);
    }

    lemma RoverAfterCarve(fl: seq<Tile>, k: nat, sz: nat)
      requires k + 1 < |fl| && sz <= fl[k + 1].size
      ensures k < |ListAfterCarve(fl, k + 1, sz)| && ListAfterCarve(fl, k + 1, sz)[k] == fl[k]
    {
    }

    lemma TailRoom(x: nat, sz: Word)
      requires Valid() && freeHdr != 0 && x < |tiles| && 8 <= sz < tiles[x].size
      ensures HeaderRoom(tiles[x].End() - sz) && tiles[x].End() <= space.kernelBreak
    {
      hide Mem, SpaceOk, KernelSpace.Valid, KernelSpace.Mem, Tiled, Neat, Linked, LiveSizes;
      TileFacts(tiles, x, 0xD0000000, space.kernelBreak);
    }

    // ----- growing -----

    /** morecore, in either reading: a region at the end of the heap, freed as kernel_free frees it. The
        heap is valid again unless a compiled test hits on the way. */
    method Morecore(allocSize: nat) returns (blk: Word)
      requires Valid() && freeHdr != 0 && space.Tidy()
      requires RegionReady(space.kernelBreak, MoreSize(allocSize), space.LastPage(), space.Tops())
      modifies this`baseNext, this`baseSize, this`freeHdr, this`tiles, space.Repr()
      ensures Valid() <==> blk == 0 || old(GrowthMisses(reading, tiles, space.kernelBreak, MoreSize(allocSize), base))
      ensures space.Tidy() && freeHdr != 0 && old(space.Tops()) <= space.Tops()
      ensures blk == if old(space.kernelBreak + MoreSize(allocSize) in space.Reach()) then old(space.kernelBreak) else 0
      ensures old(space.kernelBreak) != 0
      ensures blk != 0 ==>
        space.kernelBreak == old(space.kernelBreak) + (if allocSize + 8 < 1024 then 1024 else allocSize + 8)
      ensures blk != 0 ==>
        && space.Synced() && space.kernelBreak == old(space.kernelBreak) + MoreSize(allocSize)
        && tiles == GrownIn(reading, old(tiles), old(space.kernelBreak), MoreSize(allocSize))
        && ReachesAlike(old(space.Reach()), space.Reach(), space.kernelBreak)
        && RoverAt(|Frees(old(tiles))|) && HeaderRoom(blk)
      ensures blk != 0 && Valid() ==> HasWord(Mem(), blk) && WordAt(Mem(), blk) == base
      ensures blk == 0 ==>
        && space.kernelBreak == old(space.kernelBreak) && tiles == old(tiles) && freeHdr == old(freeHdr)
        && (space.kernelBreak + MoreSize(allocSize) > 0xEFFFF000 || space.mmu.balloc.Clear() == 0)
      ensures LiveKept(old(Mem()), Mem(), old(tiles), |old(tiles)|)
    {
      hide SpaceOk, Mem, KernelSpace.Valid, KernelSpace.Mem, KernelSpace.Tidy, KernelSpace.CanReach, KernelSpace.Tops,
           KernelSpace.Reach, HeapHolds, Frees, LiveKept, FreeList, ListIndex, PutWord, WordAt, HasWord, Misled,
           RegionReady, Linked, ListAfterLines, FreedIn, ReachesAlike;
      ghost var m, ts, brk, s: nat := Mem(), tiles, space.kernelBreak, RoverIndex();
      HoldsBounds();
      var nu := allocSize + HEADER;
      if nu < 1024 {
        nu := 1024;
      }
      blk := GrabRegion(nu);
      assert RoverAt(s);
      if blk == 0 {
        return;
      }
      ghost var m1 := Mem();
      RegionAppended(reading, m1, ts, base, 0xD0000000, brk, nu);
      WriteSize(blk, nu);
      ghost var m2 := Mem();
      tiles := tiles + [Tile(brk, nu, false)];
      AppendedLive(ts, base, Tile(brk, nu, false));
      assert RoverAt(s);
      FreeHeader(blk, |ts|);
      LiveKeptThroughGrowth(m, m1, m2, Mem(), ts, Tile(brk, nu, false));
    }

    lemma HoldsBounds()
      requires Holds()
      ensures 0 < base && base + HEADER <= 0xD0000000 <= space.kernelBreak && Members() != []
    {
      hide HeapLinks, FreeList;
      HeapBounds(Mem(), tiles, base, 0xD0000000, space.kernelBreak);
    }

    ghost function RoverIndex(): (s: nat)
      requires exists s: nat :: RoverAt(s)
      reads this`tiles, this`freeHdr
      ensures RoverAt(s)
    {
      var s: nat :| RoverAt(s);
      s
    }

    /** The kspace_sbrk call in morecore: old memory stays, new memory follows it. */
    method GrabRegion(nu: nat) returns (blk: Word)
      requires SpaceOk() && Holds() && space.Tidy() && 8 <= nu
      requires RegionReady(space.kernelBreak, nu, space.LastPage(), space.Tops())
      modifies space.Repr()
      ensures SpaceOk() && space.Tidy() && old(space.Tops()) <= space.Tops()
      ensures HeapHolds(reading, Mem(), tiles, base, 0xD0000000, old(space.kernelBreak))
      ensures forall a :: a in old(Mem()) ==> a in Mem() && Mem()[a] == old(Mem())[a]
      ensures forall i: nat :: LiveKept(old(Mem()), Mem(), tiles, i)
      ensures blk == if old(space.kernelBreak + nu in space.Reach()) then old(space.kernelBreak) else 0
      ensures blk != 0 ==> space.Synced() && space.kernelBreak == old(space.kernelBreak) + nu && HeaderRoom(blk)
      ensures blk != 0 ==> ReachesAlike(old(space.Reach()), space.Reach(), space.kernelBreak)
      ensures blk == 0 ==> space.kernelBreak == old(space.kernelBreak)
      ensures blk == 0 ==> space.kernelBreak + nu > 0xEFFFF000 || space.mmu.balloc.Clear() == 0
    {
      hide KernelSpace.Valid, KernelSpace.Mem, KernelSpace.CanReach, KernelSpace.Reach, KernelSpace.Tops, HeapHolds,
           KernelSpace.Sustains, KernelSpace.Unmapped, PutWord, ReachesAlike, Pays;
      ghost var m, sm := Mem(), space.Mem();
      HoldsBounds();
      space.InReach(space.kernelBreak + nu);
      var got := space.Sbrk(nu);
      BaseKeepsPreserved(sm, space.Mem());
      HeapPreserved(reading, m, Mem(), tiles, base, 0xD0000000, old(space.kernelBreak));
      if got == -1 {
        blk := 0;
      } else {
        space.HeapCoversBreak();
        blk := got;
      }
    }

    /** The static header on top of memory that kept its bytes. */
    lemma BaseKeepsPreserved(m: Mem, m': Mem)
      requires Preserves(m, m')
      ensures Preserves(PutWord(PutWord(m, base, baseNext), base + 4, baseSize),
                        PutWord(PutWord(m', base, baseNext), base + 4, baseSize))
    {
    }

    // ----- allocating -----

    /** Lines 50-54: the first call builds a list of the static header alone. */
    method EnsureList()
      requires Valid()
      modifies this`baseNext, this`baseSize, this`freeHdr, space.mmu`ram
      ensures Valid() && freeHdr != 0 && (old(freeHdr) != 0 ==> freeHdr == old(freeHdr))
      ensures (exists s: nat :: RoverAt(s)) && (old(freeHdr) == 0 ==> RoverAt(0) && |Members()| == 1)
      ensures LiveKept(old(Mem()), Mem(), tiles, |tiles|)
      ensures old(space.Tidy()) ==> space.Tidy() && space.Outlook() == old(space.Outlook())
    {
      hide Mem, KernelSpace.Valid, KernelSpace.Mem, KernelSpace.Tidy, KernelSpace.Outlook, HeapHolds, FreeList,
           LiveKept, PutWord;
      ghost var m := Mem();
      SameMemory(m, tiles);
      if freeHdr == 0 {
        BaseIsWord();
        FirstList(reading, m, base, 0xD0000000);
        WriteNext(base, base);
        freeHdr := base;
        WriteSize(base, 0);
        assert RoverAt(0);
      }
    }

    lemma BaseIsWord()
      requires SpaceOk()
      ensures 0 < base < 0x1_0000_0000 && HeaderRoom(base)
    {
    }

    /** Lines 60-75: member c fits; take it whole or take its tail, and leave the rover behind it. */
    method TakeFrom(prev: Word, hdr: Word, allocSize: Word, ghost c: nat) returns (r: Word, ghost x: nat)
      requires Valid() && freeHdr != 0 && 0 < c < |Members()|
      requires prev == Members()[c - 1].addr && hdr == Members()[c].addr && 8 <= allocSize <= Members()[c].size
      modifies this`baseNext, this`baseSize, this`tiles, this`freeHdr, space.mmu`ram
      ensures Valid() <==> LeavesRoom(old(Members())[c].size, allocSize)
      ensures freeHdr == prev && RoverAt(c - 1) && freeHdr != 0 && r != 0
      ensures x < |old(tiles)| && old(tiles)[x].free && old(tiles)[x] == old(Members())[c]
      ensures ListIndex(old(tiles), x) + 1 == c
      ensures tiles == CarveAt(old(tiles), x, allocSize) && r == old(tiles)[x].End() - allocSize + HEADER
      ensures LiveKept(old(Mem()), Mem(), old(tiles), |old(tiles)|)
      ensures old(space.Tidy()) ==> space.Tidy() && space.Outlook() == old(space.Outlook())
    {
      hide Mem, SpaceOk, KernelSpace.Valid, KernelSpace.Mem, KernelSpace.Tidy, KernelSpace.Outlook, Tiled, Neat,
           Frees, Linked, CarveAt, LiveSizes, LiveKept, HasWord, WordAt;
      x := BlockOfMember(tiles, c - 1);
      RoomForMembers(x);
      RoomForAllMembers();
      LinkedAt(Mem(), Members(), c);
      TileFacts(tiles, x, 0xD0000000, space.kernelBreak);
      var size := ReadSize(hdr);
      if size == allocSize {
        TakeWhole(prev, hdr, x);
        r := hdr + HEADER;
      } else {
        var blk := TakeTail(prev, hdr, allocSize, x);
        r := blk + HEADER;
      }
    }

    /** What a caller can find out before a request: the first fit after the rover, if any, has nothing
        left of it or room for a header (line 68). */
    ghost predicate NextFitLeavesRoom(sz: nat)
      reads this`tiles, this`freeHdr
    {
      freeHdr != 0 ==> forall s: nat :: RoverAt(s) ==> NextFitLeaves(Members(), s, sz)
    }

    lemma NextFitAtRover(s: nat, sz: nat)
      requires Valid() && freeHdr != 0 && RoverAt(s)
      ensures NextFitLeavesRoom(sz) <==> NextFitLeaves(Members(), s, sz)
    {
      hide SpaceOk, Holds, NextFitLeaves, Mem, FreeList;
      MembersSpaced();
    }

    lemma FirstCallFindsNothing(sz: nat)
      requires Valid() && freeHdr == 0 && sz > 0
      ensures !SomeFit(Members(), sz) && NextFitLeavesRoom(sz)
    {
      hide SpaceOk, Mem;
      NoFrees();
    }

    /** A request of sz bytes, header included, can be made: some member fits, or the growths it then
        takes can be made. */
    ghost predicate CanAsk(sz: nat)
      reads this`tiles, space, space.mmu, space.mmu.balloc
    {
      SomeFit(Members(), sz)
      || MayGrow(reading, base, tiles, space.kernelBreak, MoreSize(sz), space.LastPage(), space.Tops(), space.Reach())
    }

    /** kernel_alloc, in either reading and for a request of any size. `calls` counts the calls of
        morecore; x is the block of the (grown) row that the answer is carved from: after a growth, the
        first fresh block, so as compiled the first of exactly two regions. The heap stays valid exactly
        when the first fit after the rover leaves nothing or room for a header, which a fresh block
        always does. */
    method Alloc(nbytes: nat) returns (r: Word, ghost calls: nat, ghost x: nat)
      requires Valid() && space.Tidy() && CanAsk(nbytes + HEADER)
      modifies this, space.Repr()
      ensures freeHdr != 0 && calls <= 2
      ensures calls == 0 <==> exists k: nat :: k < |old(Members())| && old(Members())[k].size >= nbytes + 8
      ensures
        var nu, added := if nbytes + 16 < 1024 then 1024 else nbytes + 16, if r != 0 then calls else calls - 1;
        && nu == MoreSize(nbytes + HEADER)
        && (r != 0 <==>
              || calls == 0
              || old(space.kernelBreak) + (if old(JoinsEnd(reading, tiles)) then nu else 2 * nu) in old(space.Reach()))
        && space.kernelBreak == old(space.kernelBreak) + (if added == 2 then 2 * nu else if added == 1 then nu else 0)
      ensures old(JoinsEnd(reading, tiles)) <==> reading.InBytes? && old(tiles != [] && tiles[|tiles| - 1].free)
      ensures r == 0 ==>
        && Valid() && calls > 0
        && tiles == GrowTimes(reading, old(tiles), old(space.kernelBreak), MoreSize(nbytes + HEADER), calls - 1)
      ensures r != 0 ==>
        var row := GrowTimes(reading, old(tiles), old(space.kernelBreak), MoreSize(nbytes + HEADER), calls);
        && x < |row| && row[x].free && nbytes + 8 <= row[x].size
        && tiles == CarveAt(row, x, nbytes + 8)
        && r == row[x].End() - nbytes && RoverAt(ListIndex(row, x))
        && (calls > 0 ==> x == |row| - (if reading.InBytes? then 1 else calls))
        && (calls > 0 ==> (calls == 1 <==> old(JoinsEnd(reading, tiles))))
        && (Valid() <==> row[x].size == nbytes + 8 || row[x].size >= nbytes + 16)
        && (calls > 0 ==> Valid())
      ensures calls == 0 && old(freeHdr) != 0 ==>
        var c := ListIndex(old(tiles), x) + 1;
        forall s: nat, j: nat ::
          old(RoverAt(s)) && j < |old(Members())| && (if s < c then s < j < c else s < j || j < c) ==>
          old(Members())[j].size < nbytes + 8
      ensures r == 0 && calls == 2 ==> EndsFreeWith(tiles, nbytes + HEADER + 1)
      ensures r == 0 ==> space.kernelBreak + MoreSize(nbytes + HEADER) > 0xEFFFF000 || space.mmu.balloc.Clear() == 0
      ensures space.Tidy() && old(space.Tops()) <= space.Tops()
      ensures r != 0 && (calls > 0 || old(space.Synced())) ==> space.Synced()
      ensures LiveKept(old(Mem()), Mem(), old(tiles), |old(tiles)|)
      ensures forall j: nat, a: nat ::
        && j < |old(tiles)| && !old(tiles)[j].free && a in old(Mem())
        && old(tiles)[j].addr <= a < old(tiles)[j].addr + old(tiles)[j].size
        ==> a in Mem() && Mem()[a] == old(Mem())[a]
      ensures Valid() <==> old(NextFitLeavesRoom(nbytes + HEADER))
    {
      hide SpaceOk, Mem, FreeList, HeapHolds, Pending, Next, Frees, ListIndex, Spaced, GrowTimes, CarveAt, LiveKept,
           IsNextFit, SomeFit, JoinsEnd, EndsFreeWith, MoreSize, HasWord, WordAt, PutWord, KernelSpace.Valid,
           KernelSpace.Tidy, KernelSpace.Reach, KernelSpace.Tops, KernelSpace.Mem, KernelSpace.CanReach,
           NextFitLeaves, NextFitLeavesRoom, MayGrow, EndAfter, EnoughIn, Fresh, LeavesRoom, Valid;
      ghost var m0, fl, ts, brk, reach := Mem(), Members(), tiles, space.kernelBreak, space.Reach();
      NoGrowthYet(ts, space.kernelBreak, MoreSize(nbytes + HEADER));
      if freeHdr == 0 {
        FirstCallFindsNothing(nbytes + HEADER);
      }
      EnsureList();
      ghost var m1, s, merged := Mem(), RoverIndex(), JoinsEnd(reading, tiles);
      NextFitAtRover(s, nbytes + HEADER);
      NoFitLeaves(fl, s, nbytes + HEADER);
      MembersSpaced();
      SearchStarts(reading, Members(), s, nbytes + HEADER, merged);
      var hdr := NextMember(freeHdr, s);
      r, calls, x := SearchFrom(freeHdr, hdr, nbytes + HEADER, s, Next(Members(), s), merged);
      LiveKeptTwice(m0, m1, Mem(), old(tiles));
      if calls == 0 {
        MemberOfBlock(ts, x);
        FoundFitDecides(fl, s, ListIndex(ts, x) + 1, nbytes + HEADER);
        NextFitInCircle(fl, s, ListIndex(ts, x) + 1, nbytes + HEADER);
      }
      FitInBytes(fl, nbytes, nbytes + HEADER);
      GrowthInBytes(ts, nbytes, brk, reach, if r != 0 then calls else calls - 1);
      LiveBytesKept(m0, Mem(), ts, |ts|);
    }

    lemma NextFitInCircle(fl: seq<Tile>, s: nat, c: nat, sz: nat)
      requires IsNextFit(fl, s, c, sz)
      ensures forall j: nat :: j < |fl| && (if s < c then s < j < c else s < j || j < c) ==> fl[j].size < sz
    {
      assert forall j: nat :: Passed(s, c, j) <==> if s < c then s < j < c else s < j || j < c;
    }

    /** What the terms of the contract are in bytes: what fits, what growth asks for, what it reaches. */
    lemma FitInBytes(fl: seq<Tile>, nbytes: nat, sz: nat)
      requires sz == nbytes + HEADER
      ensures SomeFit(fl, sz) <==> exists k: nat :: k < |fl| && fl[k].size >= nbytes + 8
      ensures forall size: nat :: LeavesRoom(size, sz) <==> size == nbytes + 8 || size >= nbytes + 16
      ensures forall calls: nat :: calls > 0 ==> Fresh(reading, calls) == if reading.InBytes? then 1 else calls
    {
    }

    lemma GrowthInBytes(ts: seq<Tile>, nbytes: nat, brk: nat, reach: iset<Word>, n: int)
      requires n <= 2
      ensures var nu, merged := if nbytes + 16 < 1024 then 1024 else nbytes + 16, JoinsEnd(reading, ts);
        && MoreSize(nbytes + HEADER) == nu
        && (n >= 0 ==> EndAfter(brk, nu, n) == brk + (if n == 2 then 2 * nu else if n == 1 then nu else 0))
        && (EnoughIn(reach, brk, nu, merged) <==> brk + (if merged then nu else 2 * nu) in reach)
      ensures JoinsEnd(reading, ts) <==> reading.InBytes? && ts != [] && ts[|ts| - 1].free
    {
      var nu := MoreSize(nbytes + HEADER);
      assert EndAfter(brk, nu, 0) == brk && EndAfter(brk, nu, 1) == brk + nu;
      assert EndAfter(brk, nu, 2) == brk + nu + nu;
    }

    lemma LiveBytesKept(m: Mem, m': Mem, ts: seq<Tile>, i: nat)
      requires LiveKept(m, m', ts, i)
      ensures forall j: nat, a: nat ::
        j < |ts| && j != i && !ts[j].free && a in m && ts[j].addr <= a < ts[j].addr + ts[j].size ==>
        a in m' && m'[a] == m[a]
    {
    }

    lemma MemberOfBlock(ts: seq<Tile>, x: nat)
      requires x < |ts| && ts[x].free
      ensures ListIndex(ts, x) + 1 < |FreeList(ts, base)| && FreeList(ts, base)[ListIndex(ts, x) + 1] == ts[x]
    {
      hide Frees;
      FreesAround(ts, x);
    }

    /** The for loop of kernel_alloc, from the member after the rover. */
    method SearchFrom(prev0: Word, hdr0: Word, allocSize: nat, ghost s0: nat, ghost c0: nat, ghost merged: bool)
      returns (r: Word, ghost calls: nat, ghost x: nat)
      requires Valid() && freeHdr != 0 && space.Tidy() && RoverAt(s0) && CanAsk(allocSize) && 8 <= allocSize
      requires c0 < |Members()| && hdr0 == Members()[c0].addr && (c0 > 0 ==> prev0 == Members()[c0 - 1].addr)
      requires Pending(reading, Members(), s0, c0, allocSize, 0, merged) && merged == JoinsEnd(reading, tiles)
      modifies this, space.Repr()
      ensures freeHdr != 0 && calls <= 2
      ensures calls == 0 <==> SomeFit(old(Members()), allocSize)
      ensures r != 0 <==>
        || SomeFit(old(Members()), allocSize)
        || EnoughIn(old(space.Reach()), old(space.kernelBreak), MoreSize(allocSize), merged)
      ensures space.kernelBreak == EndAfter(old(space.kernelBreak), MoreSize(allocSize),
        if r != 0 then calls else calls - 1)
      ensures r == 0 ==>
        && Valid() && calls > 0
        && tiles == GrowTimes(reading, old(tiles), old(space.kernelBreak), MoreSize(allocSize), calls - 1)
      ensures r != 0 ==>
        var row := GrowTimes(reading, old(tiles), old(space.kernelBreak), MoreSize(allocSize), calls);
        && x < |row| && row[x].free && allocSize <= row[x].size
        && tiles == CarveAt(row, x, allocSize)
        && r == row[x].End() - allocSize + HEADER && RoverAt(ListIndex(row, x))
        && (calls > 0 ==> x == |row| - Fresh(reading, calls) && (calls == 1 <==> merged))
        && (Valid() <==> LeavesRoom(row[x].size, allocSize)) && (calls > 0 ==> LeavesRoom(row[x].size, allocSize))
      ensures calls == 0 ==> IsNextFit(old(Members()), s0, ListIndex(old(tiles), x) + 1, allocSize)
      ensures r == 0 && calls == 2 ==> EndsFreeWith(tiles, allocSize + 1)
      ensures r == 0 ==> space.kernelBreak + MoreSize(allocSize) > 0xEFFFF000 || space.mmu.balloc.Clear() == 0
      ensures space.Tidy() && old(space.Tops()) <= space.Tops()
      ensures r != 0 && (calls > 0 || old(space.Synced())) ==> space.Synced()
      ensures LiveKept(old(Mem()), Mem(), old(tiles), |old(tiles)|)
    {
      hide SpaceOk, Mem, FreeList, HeapHolds, Pending, Next, Frees, ListIndex, Spaced, GrowTimes, CarveAt, LiveKept,
           IsNextFit, SomeFit, JoinsEnd, EndsFreeWith, FreshEnd, EndAfter, Distance, MoreSize, ReachesAlike, EnoughIn,
           HasWord, WordAt, PutWord, LeavesRoom, LiveSizes, KernelSpace.Valid, KernelSpace.Tidy, KernelSpace.Reach,
           KernelSpace.Tops, KernelSpace.Mem, KernelSpace.CanReach, MayGrow, GrowthReady;
      ghost var m0, ts0, fl0, brk0, s, c, reach0 := Mem(), tiles, Members(), space.kernelBreak, s0, c0, space.Reach();
      ghost var last0, tops0 := space.LastPage(), space.Tops();
      NoGrowthYet(ts0, brk0, MoreSize(allocSize));
      SameReach(reach0);
      SameMemory(m0, ts0);
      NothingFresh(ts0, MoreSize(allocSize));
      var prev, hdr := prev0, hdr0;
      calls, x := 0, 0;
      while true
        invariant Valid() && freeHdr != 0 && space.Tidy() && tops0 <= space.Tops()
        invariant if calls == 0 then space.kernelBreak == brk0 && space.LastPage() == last0 else space.Synced()
        invariant RoverAt(s) && 0 <= c < |Members()| && hdr == Members()[c].addr
        invariant c > 0 ==> prev == Members()[c - 1].addr
        invariant Pending(reading, Members(), s, c, allocSize, calls, merged) && calls <= 2
        invariant tiles == GrowTimes(reading, ts0, brk0, MoreSize(allocSize), calls)
        invariant space.kernelBreak == EndAfter(brk0, MoreSize(allocSize), calls)
        invariant if calls == 0 then tiles == ts0 && s == s0 else !SomeFit(fl0, allocSize)
        invariant FreshEnd(reading, tiles, MoreSize(allocSize), calls)
        invariant LiveKept(m0, Mem(), ts0, |ts0|)
        invariant ReachesAlike(reach0, space.Reach(), space.kernelBreak)
        invariant calls > 0 ==> space.kernelBreak in reach0
        decreases CallsLeft(calls, merged), Distance(Members(), s, c)
      {
        ghost var m1 := Mem();
        MembersSpaced();
        FreshIsEnough(tiles, allocSize, calls);
        var size := MemberSize(hdr, c);
        if size >= allocSize {
          r, x := TakeFound(prev, hdr, allocSize, s, c, calls, merged, ts0, brk0);
          LiveKeptTwice(m0, m1, Mem(), ts0);
          if calls > 0 {
            GotEnough(reach0, brk0, MoreSize(allocSize), calls, merged);
          }
          return;
        }
        if hdr == freeHdr {
          FullCircle(reading, Members(), s, c, allocSize, calls, merged);
          NextGrowthReady(allocSize, calls, merged, ts0, brk0, last0, tops0, reach0);
          r, hdr, s := GrowAndRestart(allocSize, s, calls, merged, ts0, brk0, reach0);
          calls := calls + 1;
          LiveKeptTwice(m0, m1, Mem(), ts0);
          if r == 0 {
            return;
          }
          prev := r;
          c := 0;
        } else {
          SearchMovesOn(reading, Members(), s, c, allocSize, calls, merged);
          prev := hdr;
          hdr := NextMember(hdr, c);
          c := Next(Members(), c);
        }
      }
    }

    /** The fitting member is taken, and what the search says about it. */
    method TakeFound(prev: Word, hdr: Word, allocSize: Word, ghost s: nat, ghost c: nat, ghost calls: nat,
                     ghost merged: bool,
                     ghost ts0: seq<Tile>, ghost brk0: nat) returns (r: Word, ghost x: nat)
      requires Valid() && freeHdr != 0 && 0 < c < |Members()|
      requires prev == Members()[c - 1].addr && hdr == Members()[c].addr && 8 <= allocSize <= Members()[c].size
      requires Pending(reading, Members(), s, c, allocSize, calls, merged)
      requires FreshEnd(reading, tiles, MoreSize(allocSize), calls)
      requires tiles == GrowTimes(reading, ts0, brk0, MoreSize(allocSize), calls)
      modifies this`baseNext, this`baseSize, this`tiles, this`freeHdr, space.mmu`ram
      ensures freeHdr != 0 && r != 0
      ensures old(space.Tidy()) ==> space.Tidy() && space.Outlook() == old(space.Outlook())
      ensures x < |old(tiles)| && old(tiles)[x].free && allocSize <= old(tiles)[x].size
      ensures Valid() <==> LeavesRoom(old(tiles)[x].size, allocSize)
      ensures calls > 0 ==> LeavesRoom(old(tiles)[x].size, allocSize)
      ensures tiles == CarveAt(old(tiles), x, allocSize) && r == old(tiles)[x].End() - allocSize + HEADER
      ensures RoverAt(ListIndex(old(tiles), x))
      ensures calls == 0 ==>
        SomeFit(old(Members()), allocSize) && IsNextFit(old(Members()), s, ListIndex(old(tiles), x) + 1, allocSize)
      ensures calls > 0 ==> x == |old(tiles)| - Fresh(reading, calls) && (calls == 1 <==> merged)
      ensures LiveKept(old(Mem()), Mem(), ts0, |ts0|)
    {
      hide SpaceOk, Mem, FreeList, HeapHolds, Frees, ListIndex, HasWord, WordAt, PutWord, GrowTimes, CarveAt,
           LiveKept, IsNextFit, SomeFit, KernelSpace.Valid, KernelSpace.Tidy, KernelSpace.Outlook, KernelSpace.Mem;
      ghost var m, row := Mem(), tiles;
      SearchFinds(reading, Members(), s, c, allocSize, calls, merged);
      r, x := TakeFrom(prev, hdr, allocSize, c);
      if calls > 0 {
        TrailingMember(row, base, Fresh(reading, calls), x);
      }
      LiveInGrown(reading, m, Mem(), ts0, brk0, MoreSize(allocSize), calls);
    }

    /** A search that has not grown the heap, or has grown it once without a join, can grow it again. */
    lemma NextGrowthReady(allocSize: nat, calls: nat, merged: bool, ts0: seq<Tile>, brk0: nat, last0: nat,
                          tops0: iset<nat>,
                          reach0: iset<Word>)
      requires calls <= 1 && merged == JoinsEnd(reading, ts0) && (calls == 1 ==> !merged) && tops0 <= space.Tops()
      requires MayGrow(reading, base, ts0, brk0, MoreSize(allocSize), last0, tops0, reach0)
      requires tiles == GrowTimes(reading, ts0, brk0, MoreSize(allocSize), calls)
      requires space.kernelBreak == EndAfter(brk0, MoreSize(allocSize), calls)
      requires if calls == 0 then space.LastPage() == last0 else space.Synced() && space.kernelBreak in reach0
      ensures GrowthReady(reading, base, tiles, space.kernelBreak, MoreSize(allocSize), space.LastPage(), space.Tops())
    {
      hide GrownIn, GrowthMisses, JoinsEnd, MoreSize;
      if calls == 1 {
        assert EndAfter(brk0, MoreSize(allocSize), 1) == EndAfter(brk0, MoreSize(allocSize), 0) + MoreSize(allocSize);
        assert GrowTimes(reading, ts0, brk0, MoreSize(allocSize), 0) == ts0;
      }
    }

    lemma SameReach(reach: iset<Word>)
      ensures forall brk: Word :: ReachesAlike(reach, reach, brk)
    {
    }

    lemma NothingFresh(ts: seq<Tile>, nu: nat)
      ensures FreshEnd(reading, ts, nu, 0)
    {
    }

    /** Enough was in reach if as many calls as are ever needed have succeeded. */
    lemma GotEnough(reach: iset<Word>, brk: nat, nu: nat, calls: nat, merged: bool)
      requires calls > 0 && EndAfter(brk, nu, calls) in reach && calls == (if merged then 1 else 2)
      ensures EnoughIn(reach, brk, nu, merged)
    {
    }

    lemma NoGrowthYet(ts: seq<Tile>, hi: nat, nu: nat)
      ensures GrowTimes(reading, ts, hi, nu, 0) == ts && EndAfter(hi, nu, 0) == hi
    {
    }

    lemma FreshIsEnough(ts: seq<Tile>, allocSize: nat, calls: nat)
      requires FreshEnd(reading, ts, MoreSize(allocSize), calls)
      ensures calls > 0 ==> EndsFree(ts) && EndsFreeWith(ts, allocSize + 1)
    {
    }

    lemma MembersSpaced()
      requires Valid() && freeHdr != 0
      ensures Spaced(Members())
      ensures forall j: nat, k: nat ::
        j < |Members()| && k < |Members()| && Members()[j].addr == Members()[k].addr ==> j == k
    {
      hide Tiled, Neat, Frees, Linked, LiveSizes, SpaceOk, Mem, FreeList;
      FreeListInOrder(tiles, base, 0xD0000000, space.kernelBreak);
    }

    /** Lines 78-82 and the step to the next header: a full circle found no fit, so more memory is asked for. */
    method GrowAndRestart(allocSize: nat, ghost s: nat, ghost calls: nat, ghost merged: bool,
                          ghost ts0: seq<Tile>, ghost brk0: nat, ghost reach0: iset<Word>)
      returns (blk: Word, next: Word, ghost s': nat)
      requires Valid() && freeHdr != 0 && space.Tidy() && RoverAt(s) && 8 <= allocSize && calls <= 1
      requires GrowthReady(reading, base, tiles, space.kernelBreak, MoreSize(allocSize), space.LastPage(), space.Tops())
      requires Pending(reading, Members(), s, s, allocSize, calls, merged)
      requires calls == 0 ==> !SomeFit(Members(), allocSize) && merged == JoinsEnd(reading, tiles)
      requires calls == 1 ==> !merged && EndsFree(tiles)
      requires FreshEnd(reading, tiles, MoreSize(allocSize), calls)
      requires tiles == GrowTimes(reading, ts0, brk0, MoreSize(allocSize), calls)
      requires space.kernelBreak == EndAfter(brk0, MoreSize(allocSize), calls)
      requires ReachesAlike(reach0, space.Reach(), space.kernelBreak)
      modifies this, space.Repr()
      ensures Valid() && freeHdr != 0 && space.Tidy() && old(space.Tops()) <= space.Tops()
      ensures LiveKept(old(Mem()), Mem(), ts0, |ts0|)
      ensures blk != 0 ==>
        && space.Synced() && RoverAt(s') && 0 < |Members()| && next == Members()[0].addr
        && Pending(reading, Members(), s', 0, allocSize, calls + 1, merged)
        && tiles == GrowTimes(reading, ts0, brk0, MoreSize(allocSize), calls + 1)
        && space.kernelBreak == EndAfter(brk0, MoreSize(allocSize), calls + 1)
        && FreshEnd(reading, tiles, MoreSize(allocSize), calls + 1)
        && ReachesAlike(reach0, space.Reach(), space.kernelBreak) && space.kernelBreak in reach0
      ensures blk == 0 ==>
        && !EnoughIn(reach0, brk0, MoreSize(allocSize), merged) && space.kernelBreak == old(space.kernelBreak)
        && tiles == old(tiles)
        && (space.kernelBreak + MoreSize(allocSize) > 0xEFFFF000 || space.mmu.balloc.Clear() == 0)
    {
      hide SpaceOk, Mem, HeapHolds, Pending, Frees, GrownIn, HasWord, WordAt, PutWord, LiveKept, SomeFit, EndsFree,
           FreeList, FreshEnd, RegionReady, JoinsEnd, GrowthMisses, KernelSpace.Valid, KernelSpace.Tidy,
           KernelSpace.Reach, KernelSpace.Tops, KernelSpace.Mem, KernelSpace.CanReach;
      ghost var m, ts, brk := Mem(), tiles, space.kernelBreak;
      ghost var nu := MoreSize(allocSize);
      PendingAfterMore(reading, ts, brk, nu, base, s, allocSize, calls, merged);
      GrowthIsFresh(reading, ts, brk, nu, calls);
      ListLength(ts);
      s' := |Frees(ts)|;
      NextBreak(reach0, allocSize, calls, merged, brk0);
      blk := Morecore(allocSize);
      LiveInGrown(reading, m, Mem(), ts0, brk0, nu, calls);
      FirstMember();
      next := 0;
      if blk != 0 {
        next := ReadNext(blk);
      }
    }

    /** The break that the next call of morecore asks for can be reached whenever enough can. */
    lemma NextBreak(reach0: iset<Word>, allocSize: nat, calls: nat, merged: bool, brk0: nat)
      requires space.Tidy() && ReachesAlike(reach0, space.Reach(), space.kernelBreak)
      requires calls <= 1 && (calls == 1 ==> !merged)
      requires RegionReady(space.kernelBreak, MoreSize(allocSize), space.LastPage(), space.Tops())
      requires space.kernelBreak == EndAfter(brk0, MoreSize(allocSize), calls)
      ensures var next := space.kernelBreak + MoreSize(allocSize);
        && next == EndAfter(brk0, MoreSize(allocSize), calls + 1)
        && (next in space.Reach() <==> next in reach0)
        && (EnoughIn(reach0, brk0, MoreSize(allocSize), merged) ==> next in reach0)
    {
      hide KernelSpace.Reach, KernelSpace.Tidy, KernelSpace.Tops, MoreSize, Pays;
      var nu := MoreSize(allocSize);
      var next := space.kernelBreak + nu;
      assert EndAfter(brk0, nu, 1) == brk0 + nu && EndAfter(brk0, nu, 2) == brk0 + nu + nu;
      var all := EndAfter(brk0, nu, if merged then 1 else 2);
      if EnoughIn(reach0, brk0, nu, merged) {
        space.ReachDown(all, next);
      }
    }

    lemma ListLength(ts: seq<Tile>)
      ensures |FreeList(ts, base)| == |Frees(ts)| + 1
    {
    }

    /** hdr->next, by list position. */
    method NextMember(hdr: Word, ghost k: nat) returns (next: Word)
      requires Valid() && freeHdr != 0 && k < |Members()| && hdr == Members()[k].addr
      ensures Next(Members(), k) < |Members()| && next == Members()[Next(Members(), k)].addr
      ensures Next(Members(), k) > 0 ==> Next(Members(), k) == k + 1
    {
      hide SpaceOk, Mem, Tiled, Neat, LiveSizes, HasWord, WordAt, Linked, FreeList;
      RoomForAllMembers();
      LinkedAt(Mem(), Members(), k);
      next := ReadNext(hdr);
    }

    method MemberSize(hdr: Word, ghost k: nat) returns (size: Word)
      requires Valid() && freeHdr != 0 && k < |Members()| && hdr == Members()[k].addr
      ensures size == Members()[k].size && Members()[0].size == 0
    {
      hide SpaceOk, Mem, Tiled, Neat, LiveSizes, HasWord, WordAt, Linked, Frees;
      RoomForAllMembers();
      LinkedAt(Mem(), Members(), k);
      size := ReadSize(hdr);
    }
  }
}
