/** kernel_free as C compiles it: lines 101 and 109 of kalloc.c step a header pointer by a size in
    bytes, so by eight times that many bytes. What those two tests then make of the heap. */
module WrittenFree {
  import opened HeapTiles
  import opened HeapLists
  import opened ByteMemory

  const HEADER_SCALE: nat := 8

  /** The two tests as compiled. */
  ghost predicate HitsNext(fl: seq<Tile>, k: nat, b: Tile)
    requires k < |fl|
  {
    MergesNext(HEADER_SCALE, fl, k, b)
  }

  ghost predicate HitsPrev(fl: seq<Tile>, k: nat, b: Tile)
    requires k < |fl|
  {
    EndBy(HEADER_SCALE, fl[k].addr, fl[k].size) == b.addr
  }

  /** The tests as the rest of the file means them: does b touch the member before or after it? */
  ghost predicate TouchesPrev(fl: seq<Tile>, k: nat, b: Tile)
    requires k < |fl|
  {
    fl[k].End() == b.addr
  }

  /** Block b sits after member k of a list whose first member is the zero-size static header. */
  ghost predicate Sits(fl: seq<Tile>, k: nat, b: Tile) {
    && Spaced(fl) && FitsAfter(fl, k, b.addr) && b.size >= 8 && b.End() < 0x1_0000_0000
    && fl[0].size == 0 && fl[k].End() <= b.addr
    && (forall j :: 0 < j < |fl| ==> fl[j].size >= 8)
    && (k + 1 < |fl| ==> b.End() <= fl[k + 1].addr < 0x1_0000_0000)
  }

  /** A scaled end is never the true end. */
  lemma ScaledEndIsWrong(addr: nat, size: nat)
    requires 0 < size && addr + size < 0x1_0000_0000
    ensures EndBy(HEADER_SCALE, addr, size) != addr + size
  {
  }

  /** So no merge that the compiled tests make is a merge of neighbours. */
  lemma EveryMergeIsWrong(fl: seq<Tile>, k: nat, b: Tile)
    requires Sits(fl, k, b)
    ensures HitsNext(fl, k, b) ==> !TouchesNext(fl, k, b)
    ensures HitsPrev(fl, k, b) ==> !TouchesPrev(fl, k, b) && k > 0
  {
    hide EndBy;
    ScaledEndIsWrong(b.addr, b.size);
    if k > 0 {
      ScaledEndIsWrong(fl[k].addr, fl[k].size);
    } else {
      EmptyEnd(fl[0].addr);
    }
  }

  lemma EmptyEnd(addr: nat)
    ensures EndBy(HEADER_SCALE, addr, 0) <= addr
  {
  }

  /** The list as compiled is the list as meant if and only if each compiled test agrees with the
      test it stands for; and that is, if and only if all four fail. */
  lemma WrittenListIsRightIff(fl: seq<Tile>, k: nat, b: Tile)
    requires Sits(fl, k, b)
    ensures ListAfterLines(HEADER_SCALE, fl, k, b) == ListAfterFree(fl, k, b)
            <==> (HitsNext(fl, k, b) <==> TouchesNext(fl, k, b)) && (HitsPrev(fl, k, b) <==> TouchesPrev(fl, k, b))
    ensures (HitsNext(fl, k, b) <==> TouchesNext(fl, k, b)) && (HitsPrev(fl, k, b) <==> TouchesPrev(fl, k, b))
            <==> !HitsNext(fl, k, b) && !TouchesNext(fl, k, b) && !HitsPrev(fl, k, b) && !TouchesPrev(fl, k, b)
  {
    hide EndBy;
    EveryMergeIsWrong(fl, k, b);
    var written, right := ListAfterLines(HEADER_SCALE, fl, k, b), ListAfterFree(fl, k, b);
    var next := if k + 1 < |fl| then fl[k + 1].size else 0;
    if HitsNext(fl, k, b) && k + 1 == |fl| {
      assert written[0].addr != right[0].addr;
    } else if HitsPrev(fl, k, b) {
      assert written[k].size >= fl[k].size + b.size && right[k].size == fl[k].size;
    } else if TouchesPrev(fl, k, b) {
      assert right[k].size >= fl[k].size + b.size && written[k].size == fl[k].size;
    } else {
      assert written[k + 1].size == b.size + (if HitsNext(fl, k, b) then next else 0);
      assert right[k + 1].size == b.size + (if TouchesNext(fl, k, b) then next else 0);
    }
  }

  // ----- on a row -----

  /** The list around block i: the members of the row before it, then those after. */
  lemma RowAround(ts: seq<Tile>, i: nat, base: nat, lo: nat, hi: nat)
    requires Tiled(ts, lo, hi) && base + 8 <= lo && i < |ts| && !ts[i].free
    ensures var fl, k := FreeList(ts, base), ListIndex(ts, i);
      && k < |fl| && fl[0] == Tile(base, 0, true) && fl[k].End() <= ts[i].addr
      && fl[..k + 1] == [Tile(base, 0, true)] + Frees(ts[..i]) && fl[k + 1..] == Frees(ts[i + 1..])
      && (k + 1 < |fl| ==> i + 1 < |ts| && ts[i].End() <= fl[k + 1].addr && fl[k + 1].End() <= hi)
  {
    hide Tiled, Frees;
    TileFacts(ts, i, lo, hi);
    FreesAround(ts, i);
    FreesInOrder(ts[..i], lo, ts[i].addr);
    FreesInOrder(ts[i + 1..], ts[i].End(), hi);
    var z, head, tail := Tile(base, 0, true), Frees(ts[..i]), Frees(ts[i + 1..]);
    var fl := FreeList(ts, base);
    assert fl == [z] + head + tail;
    assert fl[|head|] == if head == [] then z else head[|head| - 1];
    assert |head| + 1 < |fl| ==> fl[|head| + 1] == tail[0];
    if i + 1 == |ts| {
      assert ts[i + 1..] == [];
      NoFrees();
    }
  }

  lemma AloneOnList(ts: seq<Tile>, i: nat, base: nat, lo: nat, hi: nat)
    requires Tiled(ts, lo, hi) && base + 8 <= lo && i < |ts| && !ts[i].free
    ensures var fl, k := FreeList(ts, base), ListIndex(ts, i);
      k < |fl| && FreeList(FreedAlone(ts, i), base) == fl[..k + 1] + [Tile(ts[i].addr, ts[i].size, true)] + fl[k + 1..]
  {
    hide Tiled, Frees, ListIndex;
    RowAround(ts, i, base, lo, hi);
    var t, alone, head := Tile(ts[i].addr, ts[i].size, true), FreedAlone(ts, i), Frees(ts[..i]);
    FreesAround(alone, i);
    assert alone[..i] == ts[..i] && alone[i + 1..] == ts[i + 1..] && alone[i] == t;
    var z, tail := Tile(base, 0, true), Frees(ts[i + 1..]);
    assert [z] + (head + [t] + tail) == [z] + head + [t] + tail;
  }

  lemma RowSits(ts: seq<Tile>, i: nat, base: nat, lo: nat, hi: nat)
    requires Tiled(ts, lo, hi) && base + 8 <= lo && hi < 0x1_0000_0000 && i < |ts| && !ts[i].free
    ensures Sits(FreeList(ts, base), ListIndex(ts, i), ts[i])
    ensures ListIndex(ts, i) + 1 < |FreeList(ts, base)| ==> i + 1 < |ts|
    ensures var fl, k := FreeList(ts, base), ListIndex(ts, i);
      FreeList(FreedAlone(ts, i), base) == fl[..k + 1] + [Tile(ts[i].addr, ts[i].size, true)] + fl[k + 1..]
  {
    hide Tiled, Frees, ListIndex, FreedAlone, IsPred, InOrder;
    FreeListInOrder(ts, base, lo, hi);
    LiveBlockPred(ts, i, base, lo, hi);
    TileFacts(ts, i, lo, hi);
    RowAround(ts, i, base, lo, hi);
    AloneOnList(ts, i, base, lo, hi);
    MembersHaveSize(ts, base, lo, hi);
  }

  lemma MembersHaveSize(ts: seq<Tile>, base: nat, lo: nat, hi: nat)
    requires Tiled(ts, lo, hi)
    ensures forall j :: 0 < j < |FreeList(ts, base)| ==> FreeList(ts, base)[j].size >= 8
  {
    hide Tiled, Frees;
    FreesInOrder(ts, lo, hi);
  }

  ghost predicate AnyHit(ts: seq<Tile>, i: nat, base: nat)
    requires i < |ts| && ListIndex(ts, i) < |FreeList(ts, base)|
  {
    HitsNext(FreeList(ts, base), ListIndex(ts, i), ts[i]) || HitsPrev(FreeList(ts, base), ListIndex(ts, i), ts[i])
  }

  /** As compiled, a free merges nothing unless a test hits: its list is that of the row with the
      block freed alone if and only if neither does. */
  lemma WrittenFreeMergesNothingIff(ts: seq<Tile>, i: nat, base: nat, lo: nat, hi: nat)
    requires Tiled(ts, lo, hi) && base + 8 <= lo && hi < 0x1_0000_0000 && i < |ts| && !ts[i].free
    ensures ListIndex(ts, i) < |FreeList(ts, base)|
    ensures var written := ListAfterLines(HEADER_SCALE, FreeList(ts, base), ListIndex(ts, i), ts[i]);
      written == FreeList(FreedAlone(ts, i), base) <==> !AnyHit(ts, i, base)
  {
    hide Tiled, Frees, FreeList, ListIndex, EndBy, FreedAlone;
    RowSits(ts, i, base, lo, hi);
    var fl, k, b := FreeList(ts, base), ListIndex(ts, i), ts[i];
    EveryMergeIsWrong(fl, k, b);
    var written, alone := ListAfterLines(HEADER_SCALE, fl, k, b), FreeList(FreedAlone(ts, i), base);
    if HitsNext(fl, k, b) && k + 1 == |fl| {
      assert written[0].addr != alone[0].addr;
    } else if HitsPrev(fl, k, b) {
      assert written[k].size >= fl[k].size + b.size && alone[k].size == fl[k].size;
    } else if HitsNext(fl, k, b) {
      assert written[k + 1].size > b.size && alone[k + 1].size == b.size;
    }
  }

  /** After a hit no memory that links the compiled list links the row's. */
  lemma HitLosesTheList(m: Mem, ts: seq<Tile>, i: nat, base: nat, lo: nat, hi: nat)
    requires Tiled(ts, lo, hi) && base + 8 <= lo && hi < 0x1_0000_0000 && i < |ts| && !ts[i].free
    requires ListIndex(ts, i) < |FreeList(ts, base)| && AnyHit(ts, i, base)
    requires Linked(m, ListAfterLines(HEADER_SCALE, FreeList(ts, base), ListIndex(ts, i), ts[i]))
    ensures !Linked(m, FreeList(FreedAlone(ts, i), base))
  {
    hide Tiled, Frees, FreeList, ListIndex, EndBy, FreedAlone, Linked, WordAt, HasWord;
    RowSits(ts, i, base, lo, hi);
    var fl, k, b := FreeList(ts, base), ListIndex(ts, i), ts[i];
    EveryMergeIsWrong(fl, k, b);
    var written, alone := ListAfterLines(HEADER_SCALE, fl, k, b), FreeList(FreedAlone(ts, i), base);
    if Linked(m, alone) {
      var r := RestIndex(HEADER_SCALE, fl, k, b);
      if HitsPrev(fl, k, b) {
        LinkedAt(m, written, r);
        LinkedAt(m, alone, k);
        SameHeader(m, fl[k].addr, Succ(written, r), Succ(alone, k), written[r].size, alone[k].size);
      } else {
        LinkedAt(m, written, r + 1);
        LinkedAt(m, alone, k + 1);
        SameHeader(m, b.addr, Succ(written, r + 1), Succ(alone, k + 1), written[r + 1].size, alone[k + 1].size);
      }
    }
  }

  lemma SameHeader(m: Mem, a: nat, next: nat, next': nat, size: nat, size': nat)
    requires HeaderAt(m, a, next, size) && HeaderAt(m, a, next', size')
    ensures next == next' && size == size'
  {
  }

  /** Some member of the list shares a byte with a live block other than block i. */
  ghost predicate CoversLive(fl: seq<Tile>, ts: seq<Tile>, i: nat) {
    exists m: nat, j: nat :: m < |fl| && j < |ts| && j != i && !ts[j].free && Overlap(fl[m], ts[j])
  }

  predicate Overlap(a: Tile, b: Tile) {
    a.addr < b.End() && b.addr < a.End()
  }

  /** A hit on the next or the previous member always puts live memory on the free list, and nothing
      else does. (The scaled end can also wrap around to the static header, which then drops off the
      list without covering anything.) */
  lemma WrittenFreeCoversLiveIff(ts: seq<Tile>, i: nat, base: nat, lo: nat, hi: nat)
    requires Tiled(ts, lo, hi) && base + 8 <= lo && hi < 0x1_0000_0000 && i < |ts| && !ts[i].free
    ensures ListIndex(ts, i) < |FreeList(ts, base)|
    ensures var fl, k := FreeList(ts, base), ListIndex(ts, i);
      CoversLive(ListAfterLines(HEADER_SCALE, fl, k, ts[i]), ts, i)
      <==> HitsPrev(fl, k, ts[i]) || (HitsNext(fl, k, ts[i]) && k + 1 < |fl|)
  {
    hide Tiled, Frees, FreeList, ListIndex, EndBy, FreedAlone;
    RowSits(ts, i, base, lo, hi);
    var fl, k, b := FreeList(ts, base), ListIndex(ts, i), ts[i];
    var written := ListAfterLines(HEADER_SCALE, fl, k, b);
    EveryMergeIsWrong(fl, k, b);
    if HitsPrev(fl, k, b) {
      var x := LiveAfterPrev(ts, i, base, lo, hi);
      var r := RestIndex(HEADER_SCALE, fl, k, b);
      assert Overlap(written[r], ts[x]);
    } else if HitsNext(fl, k, b) && k + 1 < |fl| {
      var x := LiveAfterBlock(ts, i, base, lo, hi);
      assert Overlap(written[k + 1], ts[x]);
    } else {
      forall m: nat, j: nat | m < |written| && j < |ts| && j != i && !ts[j].free
        ensures !Overlap(written[m], ts[j])
      {
        if written[m].addr == b.addr {
          DistinctBlocks(ts, i, j, lo, hi);
        } else {
          var n := MemberBefore(fl, k, b, m);
          MemberApart(ts, base, n, j, lo, hi);
        }
      }
    }
  }

  /** Without a hit, or with one that wraps, every member but b was a member before. */
  lemma MemberBefore(fl: seq<Tile>, k: nat, b: Tile, m: nat) returns (n: nat)
    requires Sits(fl, k, b) && !HitsPrev(fl, k, b) && !(HitsNext(fl, k, b) && k + 1 < |fl|)
    requires m < |ListAfterLines(HEADER_SCALE, fl, k, b)| && ListAfterLines(HEADER_SCALE, fl, k, b)[m].addr != b.addr
    ensures n < |fl| && ListAfterLines(HEADER_SCALE, fl, k, b)[m] == fl[n]
  {
    hide EndBy;
    n := if HitsNext(fl, k, b) then m + 1 else if m <= k then m else m - 1;
  }

  lemma DistinctBlocks(ts: seq<Tile>, i: nat, j: nat, lo: nat, hi: nat)
    requires Tiled(ts, lo, hi) && i < |ts| && j < |ts| && i != j
    ensures !Overlap(ts[i], ts[j])
  {
    hide Tiled;
    if i < j {
      TilesApart(ts, i, j, lo, hi);
    } else {
      TilesApart(ts, j, i, lo, hi);
    }
  }

  lemma MemberApart(ts: seq<Tile>, base: nat, n: nat, j: nat, lo: nat, hi: nat)
    requires Tiled(ts, lo, hi) && base + 8 <= lo && n < |FreeList(ts, base)| && j < |ts| && !ts[j].free
    ensures !Overlap(FreeList(ts, base)[n], ts[j])
  {
    hide Tiled, Frees;
    TileFacts(ts, j, lo, hi);
    if n > 0 {
      var x := BlockOfMember(ts, n - 1);
      DistinctBlocks(ts, x, j, lo, hi);
    }
  }

  /** The block right after block i is live, if i does not touch the next member. */
  lemma LiveAfterBlock(ts: seq<Tile>, i: nat, base: nat, lo: nat, hi: nat) returns (x: nat)
    requires Tiled(ts, lo, hi) && base + 8 <= lo && hi < 0x1_0000_0000 && i < |ts| && !ts[i].free
    requires ListIndex(ts, i) + 1 < |FreeList(ts, base)| && !TouchesNext(FreeList(ts, base), ListIndex(ts, i), ts[i])
    ensures x < |ts| && x != i && !ts[x].free && ts[x].addr == ts[i].End() && ts[x].size >= 8
  {
    hide Tiled, Frees;
    RowSits(ts, i, base, lo, hi);
    x := i + 1;
    TileFacts(ts, i, lo, hi);
    TileFacts(ts, x, lo, hi);
    FreesAround(ts, i);
    FreesHead(ts[x..]);
  }

  /** The block right after the previous member is live, if that does not touch block i. */
  lemma LiveAfterPrev(ts: seq<Tile>, i: nat, base: nat, lo: nat, hi: nat) returns (x: nat)
    requires Tiled(ts, lo, hi) && base + 8 <= lo && hi < 0x1_0000_0000 && i < |ts| && !ts[i].free
    requires 0 < ListIndex(ts, i) < |FreeList(ts, base)| && !TouchesPrev(FreeList(ts, base), ListIndex(ts, i), ts[i])
    ensures x < |ts| && x != i && !ts[x].free && ts[x].addr == FreeList(ts, base)[ListIndex(ts, i)].End()
    ensures ts[x].size >= 8
  {
    hide Tiled, Frees;
    RowSits(ts, i, base, lo, hi);
    var k := ListIndex(ts, i);
    var p := BlockOfMember(ts, k - 1);
    TileFacts(ts, p, lo, hi);
    x := p + 1;
    if p >= i {
      MembersBeforeAreBefore(ts, p, i);
    }
    TileFacts(ts, x, lo, hi);
    if ts[x].free && x < i {
      MembersBeforeAreBefore(ts, x, i);
      CountThrough(ts, p, x);
    }
  }

  lemma CountThrough(ts: seq<Tile>, p: nat, x: nat)
    requires p < x < |ts| && ts[p].free
    ensures ListIndex(ts, x) > ListIndex(ts, p)
  {
    hide Frees;
    FreesAround(ts[..x], p);
    assert ts[..x][..p] == ts[..p];
  }

  /** Free blocks are counted in row order. */
  lemma MembersBeforeAreBefore(ts: seq<Tile>, p: nat, i: nat)
    requires p < |ts| && i < |ts| && ts[p].free
    ensures p < i ==> ListIndex(ts, p) < ListIndex(ts, i)
    ensures i <= p ==> ListIndex(ts, i) <= ListIndex(ts, p)
  {
    hide Frees;
    if p < i {
      FreesAround(ts[..i], p);
      assert ts[..i][..p] == ts[..p];
    } else {
      assert ts[..p] == ts[..i] + ts[i..p];
      FreesOfJoin(ts[..i], ts[i..p]);
    }
  }

  // ----- the guard -----

  /** Freeing block i in a reading goes wrong when a compiled test hits. */
  ghost predicate Misled(rd: Reading, ts: seq<Tile>, i: nat, base: nat)
    requires i < |ts| && ListIndex(ts, i) < |FreeList(ts, base)|
  {
    rd.AsCompiled? && AnyHit(ts, i, base)
  }

  lemma BlockHasIndex(ts: seq<Tile>, i: nat, base: nat)
    requires i < |ts|
    ensures ListIndex(ts, i) < |FreeList(ts, base)|
  {
    hide Frees;
    assert ts == ts[..i] + ts[i..];
    FreesOfJoin(ts[..i], ts[i..]);
  }

  /** In either reading, what lines 101-115 make of the list is the list of the row with the block
      freed in that reading if and only if no compiled test hits; the predecessor keeps its place. */
  lemma ListAfterReading(rd: Reading, ts: seq<Tile>, i: nat, base: nat, lo: nat, hi: nat)
    requires Tiled(ts, lo, hi) && Neat(rd, ts) && base + 8 <= lo && hi < 0x1_0000_0000 && i < |ts| && !ts[i].free
    ensures ListIndex(ts, i) < |FreeList(ts, base)|
    ensures ListAfterLines(rd.Step(), FreeList(ts, base), ListIndex(ts, i), ts[i]) == FreeList(FreedIn(rd, ts, i), base)
            <==> !Misled(rd, ts, i, base)
    ensures var fl, k, fl' := FreeList(ts, base), ListIndex(ts, i), FreeList(FreedIn(rd, ts, i), base);
      && k < |fl'| && fl'[k].addr == fl[k].addr
      && (!Misled(rd, ts, i, base) && i + 1 == |ts| ==> !MergesNext(rd.Step(), fl, k, ts[i]))
  {
    hide Tiled, Frees, FreeList, ListIndex, EndBy, FreeAt, FreedAlone, MergesNext, Coalesced;
    RowSits(ts, i, base, lo, hi);
    var fl, k, b := FreeList(ts, base), ListIndex(ts, i), ts[i];
    if rd.InBytes? {
      LinesByBytes(fl, k, b);
      FreeListAfterFree(ts, i, base, lo, hi);
      RoverKept(fl, k, b);
    } else {
      WrittenFreeMergesNothingIff(ts, i, base, lo, hi);
    }
  }

  /** The predecessor keeps its place on the list. */
  lemma RoverKept(fl: seq<Tile>, k: nat, b: Tile)
    requires k < |fl|
    ensures k < |ListAfterFree(fl, k, b)| && ListAfterFree(fl, k, b)[k].addr == fl[k].addr
  {
  }

  /** Growing by a region of nu bytes at hi frees it as the row's last block. */
  ghost predicate GrowthMisses(rd: Reading, ts: seq<Tile>, hi: nat, nu: nat, base: nat) {
    BlockHasIndex(ts + [Tile(hi, nu, false)], |ts|, base);
    !Misled(rd, ts + [Tile(hi, nu, false)], |ts|, base)
  }

  lemma AppendedLive(ts: seq<Tile>, base: nat, t: Tile)
    requires !t.free
    ensures FreeList(ts + [t], base) == FreeList(ts, base) && ListIndex(ts + [t], |ts|) == |Frees(ts)|
    ensures |FreeList(ts, base)| == |Frees(ts)| + 1
  {
    hide Frees;
    FreesOfJoin(ts, [t]);
    FreesOne(t);
    assert (ts + [t])[..|ts|] == ts;
  }

  /** What that takes: the scaled end of the last member is the end of the heap, or the scaled end of
      the region wraps around to the static header. */
  lemma GrowthMissesIff(ts: seq<Tile>, hi: nat, nu: nat, base: nat)
    ensures var fl := FreeList(ts, base); var last := fl[|fl| - 1];
      GrowthMisses(AsCompiled, ts, hi, nu, base)
      <==> EndBy(HEADER_SCALE, last.addr, last.size) != hi && (|fl| > 1 ==> EndBy(HEADER_SCALE, hi, nu) != fl[0].addr)
  {
    hide Frees, EndBy, FreeList, ListIndex;
    BlockHasIndex(ts + [Tile(hi, nu, false)], |ts|, base);
    AppendedLive(ts, base, Tile(hi, nu, false));
  }

  // ----- two inputs -----

  const S: nat := 0xD0000000
  const BASE: nat := 0xC0100000

  /** Two neighbours freed one after the other stay two blocks. */
  lemma NeighboursStayApart()
    ensures var first := Tile(S, 16, true);
            var list := ListAfterLines(HEADER_SCALE, [Tile(BASE, 0, true)], 0, first);
      && list == [Tile(BASE, 0, true), first]
      && ListAfterLines(HEADER_SCALE, list, 1, Tile(S + 16, 16, false)) ==
         [Tile(BASE, 0, true), first, Tile(S + 16, 16, true)]
      && ListAfterFree(list, 1, Tile(S + 16, 16, false)) == [Tile(BASE, 0, true), Tile(S, 32, true)]
  {
  }

  /** A row of 16 live bytes, 112 live, 64 free, 832 live and a region of 1024 free: freeing the first
      block puts 80 bytes from its start on the list, over the first 64 bytes of the second. */
  lemma FreeListsLiveBytes()
    ensures var row := [Tile(S, 16, false), Tile(S + 16, 112, false), Tile(S + 128, 64, true),
                        Tile(S + 192, 832, false), Tile(S + 1024, 1024, true)];
            var list := [Tile(BASE, 0, true), Tile(S + 128, 64, true), Tile(S + 1024, 1024, true)];
            var written := ListAfterLines(HEADER_SCALE, list, 0, row[0]);
      && Tiled(row, S, S + 2048) && FreeList(row, BASE) == list
      && written == [Tile(BASE, 0, true), Tile(S, 80, true), Tile(S + 1024, 1024, true)]
      && CoversLive(written, row, 0)
  {
    var a, b, c := Tile(S, 16, false), Tile(S + 16, 112, false), Tile(S + 128, 64, true);
    var d, e := Tile(S + 192, 832, false), Tile(S + 1024, 1024, true);
    var row := [a, b, c, d, e];
    assert row[1..] == [b, c, d, e] && [b, c, d, e][1..] == [c, d, e] && [c, d, e][1..] == [d, e];
    assert [d, e][1..] == [e] && [e][1..] == [];
    assert Tiled([], S + 2048, S + 2048) && Tiled([e], S + 1024, S + 2048) && Tiled([d, e], S + 192, S + 2048);
    assert Tiled([c, d, e], S + 128, S + 2048) && Tiled([b, c, d, e], S + 16, S + 2048);
    FreesOne(e);
    FreesHead([d, e]);
    FreesHead([c, d, e]);
    FreesHead([b, c, d, e]);
    FreesHead(row);
    assert [c] + [e] == [c, e];
    var written := ListAfterLines(HEADER_SCALE, [Tile(BASE, 0, true), c, e], 0, a);
    assert Overlap(written[1], row[1]);
  }
}
