/** What the heap's calls leave alone: blocks in use and their headers. */
module LiveBlocks {
  import opened Paging
  import opened HeapTiles
  import opened HeapLists
  import opened HeapSearch
  import opened ByteMemory
  import opened WrittenFree

  /** Every live block's header still says how long it is. */
  ghost predicate LiveSizes(m: Mem, ts: seq<Tile>) {
    forall j :: 0 <= j < |ts| && !ts[j].free ==> HasWord(m, ts[j].addr + 4) && WordAt(m, ts[j].addr + 4) == ts[j].size
  }

  /** Only the bytes of the headers at h and b differ. */
  ghost predicate OnlyHeadersChanged(m: Mem, m': Mem, h: nat, b: nat) {
    forall a :: a in m && !(h <= a < h + 8) && !(b <= a < b + 8) ==> a in m' && m'[a] == m[a]
  }

  /** Every byte of every live block but block i is as before. */
  ghost predicate LiveKept(m: Mem, m': Mem, ts: seq<Tile>, i: nat) {
    forall j, a :: 0 <= j < |ts| && j != i && !ts[j].free && ts[j].addr <= a < ts[j].End() && a in m ==>
      a in m' && m'[a] == m[a]
  }

  /** A header that belongs to another block, or lies below the heap, is outside block j. */
  ghost predicate HeaderOutside(ts: seq<Tile>, i: nat, h: nat) {
    forall j :: 0 <= j < |ts| && j != i && !ts[j].free ==> h + 8 <= ts[j].addr || ts[j].End() <= h
  }

  lemma OwnHeaderOutside(ts: seq<Tile>, x: nat, lo: nat, hi: nat)
    requires Tiled(ts, lo, hi) && x < |ts|
    ensures HeaderOutside(ts, x, ts[x].addr)
    ensures ts[x].free ==> forall i: nat :: HeaderOutside(ts, i, ts[x].addr)
  {
    hide Tiled;
    TileFacts(ts, x, lo, hi);
    forall j | 0 <= j < |ts| && j != x
      ensures ts[x].addr + 8 <= ts[j].addr || ts[j].End() <= ts[x].addr
    {
      if j < x {
        TilesApart(ts, j, x, lo, hi);
      } else {
        TilesApart(ts, x, j, lo, hi);
      }
    }
  }

  lemma LowHeaderOutside(ts: seq<Tile>, i: nat, h: nat, lo: nat, hi: nat)
    requires Tiled(ts, lo, hi) && h + 8 <= lo
    ensures HeaderOutside(ts, i, h)
  {
    hide Tiled;
    forall j | 0 <= j < |ts|
      ensures h + 8 <= ts[j].addr
    {
      TileFacts(ts, j, lo, hi);
    }
  }

  /** A free-list member's header is outside every live block. */
  lemma MemberHeaderOutside(ts: seq<Tile>, i: nat, base: nat, k: nat, lo: nat, hi: nat)
    requires Tiled(ts, lo, hi) && base + 8 <= lo && k < |FreeList(ts, base)|
    ensures HeaderOutside(ts, i, FreeList(ts, base)[k].addr)
  {
    hide Tiled, Frees, HeaderOutside;
    if k == 0 {
      LowHeaderOutside(ts, i, base, lo, hi);
    } else {
      var x := BlockOfMember(ts, k - 1);
      OwnHeaderOutside(ts, x, lo, hi);
    }
  }

  lemma LiveKeptByHeaderWrites(m: Mem, m': Mem, ts: seq<Tile>, i: nat, h: nat, b: nat)
    requires OnlyHeadersChanged(m, m', h, b) && HeaderOutside(ts, i, h) && HeaderOutside(ts, i, b)
    ensures LiveKept(m, m', ts, i)
  {
  }

  /** A live block's size word is one of its own bytes' words. */
  lemma SizeKept(m: Mem, m': Mem, ts: seq<Tile>, i: nat, j: nat, lo: nat, hi: nat)
    requires Tiled(ts, lo, hi) && j < |ts| && j != i && !ts[j].free && LiveKept(m, m', ts, i)
    requires HasWord(m, ts[j].addr + 4)
    ensures HasWord(m', ts[j].addr + 4) && WordAt(m', ts[j].addr + 4) == WordAt(m, ts[j].addr + 4)
  {
    hide Tiled, WordAt;
    TileFacts(ts, j, lo, hi);
    SameBytesSameWord(m, m', ts[j].addr + 4);
  }

  lemma LiveSizesAfterFree(m: Mem, m': Mem, ts: seq<Tile>, i: nat, lo: nat, hi: nat)
    requires Tiled(ts, lo, hi) && i < |ts| && LiveSizes(m, ts) && LiveKept(m, m', ts, i)
    ensures LiveSizes(m', FreeAt(ts, i))
  {
    hide Tiled, WordAt, HasWord;
    var r := FreeAt(ts, i);
    forall k | 0 <= k < |r| && !r[k].free
      ensures HasWord(m', r[k].addr + 4) && WordAt(m', r[k].addr + 4) == r[k].size
    {
      var j := LiveAfterFree(ts, i, k);
      SizeKept(m, m', ts, i, j, lo, hi);
    }
  }

  lemma LiveSizesAfterFreed(rd: Reading, m: Mem, m': Mem, ts: seq<Tile>, i: nat, lo: nat, hi: nat)
    requires Tiled(ts, lo, hi) && i < |ts| && LiveSizes(m, ts) && LiveKept(m, m', ts, i)
    ensures LiveSizes(m', FreedIn(rd, ts, i))
  {
    hide Tiled, WordAt, HasWord, LiveKept, FreeAt;
    if rd.InBytes? {
      LiveSizesAfterFree(m, m', ts, i, lo, hi);
    } else {
      forall j | 0 <= j < |ts| && j != i && !ts[j].free
        ensures HasWord(m', ts[j].addr + 4) && WordAt(m', ts[j].addr + 4) == ts[j].size
      {
        SizeKept(m, m', ts, i, j, lo, hi);
      }
    }
  }

  /** The live blocks after a free are the other live blocks before it. */
  lemma LiveAfterFree(ts: seq<Tile>, i: nat, k: nat) returns (j: nat)
    requires i < |ts| && k < |FreeAt(ts, i)| && !FreeAt(ts, i)[k].free
    ensures j < |ts| && j != i && !ts[j].free && ts[j] == FreeAt(ts, i)[k]
  {
    j := if k < MergeFrom(ts, i) then k else k - MergeFrom(ts, i) - 1 + MergeTo(ts, i);
  }

  /** Where a block to be freed sits: between its predecessor and its successor, with sums of
      neighbouring sizes that stay inside the heap, whichever neighbour is taken over. */
  lemma FreePosition(ts: seq<Tile>, i: nat, base: nat, lo: nat, hi: nat)
    requires Tiled(ts, lo, hi) && base + 8 <= lo && i < |ts| && !ts[i].free
    ensures var fl, k := FreeList(ts, base), ListIndex(ts, i);
      && k < |fl| && Spaced(fl) && IsPred(fl, ts[i].addr, k) && FitsAfter(fl, k, ts[i].addr)
      && (forall scale: nat :: fl[k].size + Grown(scale, fl, k, ts[i]).size <= hi - lo)
      && ts[i].size + fl[if k + 1 < |fl| then k + 1 else 0].size <= hi - lo
      && fl[k].End() <= ts[i].addr && ts[i].End() <= hi && fl[0] == Tile(base, 0, true)
      && HeaderOutside(ts, i, fl[k].addr) && HeaderOutside(ts, i, ts[i].addr)
  {
    hide Tiled, Frees, HeaderOutside, IsPred, ListIndex, Spaced, MergesNext;
    FreeListInOrder(ts, base, lo, hi);
    LiveBlockPred(ts, i, base, lo, hi);
    TileFacts(ts, i, lo, hi);
    NeighbourSizes(ts, i, base, lo, hi);
    MemberHeaderOutside(ts, i, base, ListIndex(ts, i), lo, hi);
    OwnHeaderOutside(ts, i, lo, hi);
  }

  lemma NeighbourSizes(ts: seq<Tile>, i: nat, base: nat, lo: nat, hi: nat)
    requires Tiled(ts, lo, hi) && base + 8 <= lo && i < |ts| && !ts[i].free
    ensures var fl, k := FreeList(ts, base), ListIndex(ts, i);
      && k < |fl| && fl[k].size <= ts[i].addr - lo && fl[k].End() <= ts[i].addr
      && (k + 1 < |fl| ==> fl[k + 1].size <= hi - ts[i].End())
  {
    hide Tiled, Frees;
    FreesAround(ts, i);
    TileFacts(ts, i, lo, hi);
    var fl, head, tail := FreeList(ts, base), Frees(ts[..i]), Frees(ts[i + 1..]);
    FreesInOrder(ts[..i], lo, ts[i].addr);
    FreesInOrder(ts[i + 1..], ts[i].End(), hi);
    assert fl == [Tile(base, 0, true)] + head + tail;
    assert fl[|head|] == if head == [] then Tile(base, 0, true) else head[|head| - 1];
    assert |head| + 1 < |fl| ==> fl[|head| + 1] == tail[0];
  }

  /** The last block of the row is followed, in circular order, by the static header. */
  lemma LastBlockWraps(ts: seq<Tile>, i: nat, base: nat)
    requires i < |ts| && !ts[i].free
    ensures ListIndex(ts, i) < |FreeList(ts, base)|
    ensures i + 1 == |ts| ==> var fl, k := FreeList(ts, base), ListIndex(ts, i);
                              k == |fl| - 1 && Succ(fl, k) == base
  {
    hide Frees;
    FreesAround(ts, i);
    if i + 1 == |ts| {
      assert ts[i + 1..] == [];
      NoFrees();
    }
  }

  /** Members of the list lie below the heap or inside it. */
  lemma MemberInHeap(ts: seq<Tile>, base: nat, k: nat, lo: nat, hi: nat)
    requires Tiled(ts, lo, hi) && base + 8 <= lo && 0 < k < |FreeList(ts, base)|
    ensures var t := FreeList(ts, base)[k]; lo <= t.addr && t.addr + 8 <= hi && t.size >= 8
  {
    hide Tiled, Frees;
    var x := BlockOfMember(ts, k - 1);
    TileFacts(ts, x, lo, hi);
  }

  lemma TwoWrites(m: Mem, m1: Mem, m2: Mem, h: nat, b: nat)
    requires OnlyHeadersChanged(m, m1, b, b) && OnlyHeadersChanged(m1, m2, h, h)
    ensures OnlyHeadersChanged(m, m2, h, b)
  {
  }

  // ----- taking a block -----

  /** Where the live part of a carved block sits. */
  ghost function CarvedIndex(ts: seq<Tile>, x: nat, sz: nat): nat
    requires x < |ts|
  {
    if ts[x].size == sz then x else x + 1
  }

  lemma CarvedLive(ts: seq<Tile>, x: nat, sz: nat)
    requires x < |ts| && sz <= ts[x].size
    ensures var r, j := CarveAt(ts, x, sz), CarvedIndex(ts, x, sz);
      j < |r| && r[j] == Tile(ts[x].End() - sz, sz, false)
  {
  }

  /** The live blocks after carving are those before, and the carved one. */
  lemma LiveAfterCarve(ts: seq<Tile>, x: nat, sz: nat, k: nat) returns (j: nat)
    requires x < |ts| && sz <= ts[x].size && k < |CarveAt(ts, x, sz)| && !CarveAt(ts, x, sz)[k].free
    requires k != CarvedIndex(ts, x, sz)
    ensures j < |ts| && j != x && ts[j] == CarveAt(ts, x, sz)[k]
  {
    j := if k <= x then k else if ts[x].size == sz then k else k - 1;
  }

  lemma LiveSizesAfterCarve(m: Mem, m': Mem, ts: seq<Tile>, x: nat, sz: nat, lo: nat, hi: nat)
    requires Tiled(ts, lo, hi) && x < |ts| && ts[x].free && sz <= ts[x].size && LiveSizes(m, ts)
    requires LiveKept(m, m', ts, |ts|)
    requires HasWord(m', ts[x].End() - sz + 4) && WordAt(m', ts[x].End() - sz + 4) == sz
    ensures LiveSizes(m', CarveAt(ts, x, sz))
  {
    hide Tiled, CarveAt, CarvedIndex, WordAt, HasWord;
    var r := CarveAt(ts, x, sz);
    CarvedLive(ts, x, sz);
    forall k | 0 <= k < |r| && !r[k].free
      ensures HasWord(m', r[k].addr + 4) && WordAt(m', r[k].addr + 4) == r[k].size
    {
      if k != CarvedIndex(ts, x, sz) {
        var j := LiveAfterCarve(ts, x, sz, k);
        SizeKept(m, m', ts, |ts|, j, lo, hi);
      }
    }
  }

  /** The carved tail lies past its remainder's header and before the next member. */
  lemma TailFits(ts: seq<Tile>, x: nat, sz: nat, base: nat, lo: nat, hi: nat)
    requires Tiled(ts, lo, hi) && base + 8 <= lo && x < |ts| && ts[x].free
    requires 8 <= sz && sz + 8 <= ts[x].size
    ensures var fl, k := FreeList(ts, base), ListIndex(ts, x) + 1;
      && k < |fl| && fl[k] == ts[x]
      && FitsAfter(fl[k := Tile(ts[x].addr, ts[x].size - sz, true)], k, ts[x].End() - sz)
  {
    hide Tiled, Frees, FreeList, ListIndex, CarveAt;
    FreeListInOrder(ts, base, lo, hi);
    FreeListAfterCarve(ts, x, sz, base);
    TileFacts(ts, x, lo, hi);
    MemberEnds(ts, x, base, lo, hi);
  }

  /** A free block ends before the next member starts. */
  lemma MemberEnds(ts: seq<Tile>, x: nat, base: nat, lo: nat, hi: nat)
    requires Tiled(ts, lo, hi) && base + 8 <= lo && x < |ts| && ts[x].free
    ensures var fl, k := FreeList(ts, base), ListIndex(ts, x) + 1;
      && k < |fl| && fl[k] == ts[x] && forall j :: k < j < |fl| ==> ts[x].End() <= fl[j].addr
  {
    hide Tiled, Frees;
    FreesAround(ts, x);
    FreesInOrder(ts, lo, hi);
  }

  /** The whole of a taken block, and its tail, are outside every live block. */
  lemma TailOutside(ts: seq<Tile>, x: nat, sz: nat, lo: nat, hi: nat)
    requires Tiled(ts, lo, hi) && x < |ts| && ts[x].free && 8 <= sz <= ts[x].size
    ensures HeaderOutside(ts, |ts|, ts[x].addr) && HeaderOutside(ts, |ts|, ts[x].End() - sz)
  {
    hide Tiled;
    TileFacts(ts, x, lo, hi);
    forall j | 0 <= j < |ts| && j != x
      ensures ts[x].End() <= ts[j].addr || ts[j].End() <= ts[x].addr
    {
      if j < x {
        TilesApart(ts, j, x, lo, hi);
      } else {
        TilesApart(ts, x, j, lo, hi);
      }
    }
  }

  lemma OneWriteChanges(m: Mem, h: nat, w: Word)
    ensures OnlyHeadersChanged(m, PutWord(m, h, w), h, h) && OnlyHeadersChanged(m, PutWord(m, h + 4, w), h, h)
  {
    hide PutWord;
    BytesAfterPut(m, h, w);
    BytesAfterPut(m, h + 4, w);
  }

  /** What the heap looks like after some tiles-level change, all of it: tiled to the end, live
      headers right, and memory linking the list of the row. */
  ghost predicate HeapLinks(m: Mem, ts: seq<Tile>, base: nat, lo: nat, hi: nat) {
    && 0 < base && base + 8 <= lo
    && Tiled(ts, lo, hi) && LiveSizes(m, ts) && Linked(m, FreeList(ts, base))
  }

  /** The same, kept neat as the reading keeps it. */
  ghost predicate HeapHolds(rd: Reading, m: Mem, ts: seq<Tile>, base: nat, lo: nat, hi: nat) {
    HeapLinks(m, ts, base, lo, hi) && Neat(rd, ts)
  }

  lemma HeapBounds(m: Mem, ts: seq<Tile>, base: nat, lo: nat, hi: nat)
    requires HeapLinks(m, ts, base, lo, hi)
    ensures 0 < base && base + 8 <= lo <= hi
    ensures FreeList(ts, base) != []
  {
    hide Tiled, LiveSizes, Linked;
    TiledOrdered(ts, lo, hi);
  }

  lemma WholeTaken(rd: Reading, m: Mem, ts: seq<Tile>, x: nat, base: nat, lo: nat, hi: nat, next: Word)
    requires HeapHolds(rd, m, ts, base, lo, hi) && base + 8 <= lo && x < |ts| && ts[x].free
    requires ListIndex(ts, x) + 1 < |FreeList(ts, base)| && next == Succ(FreeList(ts, base), ListIndex(ts, x) + 1)
    ensures ListIndex(ts, x) + 1 < |FreeList(ts, base)| && FreeList(ts, base)[ListIndex(ts, x) + 1] == ts[x]
    ensures var r, k, prev := CarveAt(ts, x, ts[x].size), ListIndex(ts, x), FreeList(ts, base)[ListIndex(ts, x)].addr;
            var m' := PutWord(m, prev, next);
      && HeapHolds(rd, m', r, base, lo, hi) && LiveKept(m, m', ts, |ts|)
      && k < |FreeList(r, base)| && FreeList(r, base)[k].addr == prev
  {
    hide Tiled, Neat, Frees, Linked, Succ, Spaced, FreeList, CarveAt, LiveSizes, LiveKept, OnlyHeadersChanged,
         HeaderOutside, ListIndex, InOrder, PutWord, WordAt, HasWord;
    var fl, k, sz := FreeList(ts, base), ListIndex(ts, x) + 1, ts[x].size;
    FreeListAfterCarve(ts, x, sz, base);
    FreeListInOrder(ts, base, lo, hi);
    TileFacts(ts, x, lo, hi);
    LinkedAt(m, fl, k);
    HeaderParts(m, ts[x].addr, Succ(fl, k), sz);
    MemberHeaderOutside(ts, |ts|, base, k - 1, lo, hi);
    var prev := fl[k - 1].addr;
    var m' := PutWord(m, prev, next);
    AfterUnlink(m, fl, k, next);
    OneWriteChanges(m, prev, next);
    LiveKeptByHeaderWrites(m, m', ts, |ts|, prev, prev);
    MembersApart(fl, k - 1, k);
    WordsAfterPut(m, prev, next);
    LiveSizesAfterCarve(m, m', ts, x, sz, lo, hi);
    CarveKeepsTiling(ts, x, sz, lo, hi);
    CarveKeepsNeat(rd, ts, x, sz);
  }

  /** The static header linked to itself is the list of an empty heap. */
  lemma FirstList(rd: Reading, m: Mem, base: Word, lo: nat)
    requires 0 < base && base + 8 <= lo
    ensures FreeList([], base) == [Tile(base, 0, true)]
    ensures HeapHolds(rd, PutWord(PutWord(m, base, base), base + 4, 0), [], base, lo, lo)
    ensures LiveKept(m, PutWord(PutWord(m, base, base), base + 4, 0), [], 0)
  {
    hide PutWord, WordAt, HasWord;
    NoFrees();
    WordsAfterPut(m, base, base);
    WordsAfterPut(PutWord(m, base, base), base + 4, 0);
  }

  lemma SameMemory(m: Mem, ts: seq<Tile>)
    ensures forall i: nat :: LiveKept(m, m, ts, i)
  {
  }

  lemma LiveKeptTwice(m: Mem, m1: Mem, m2: Mem, ts: seq<Tile>)
    requires LiveKept(m, m1, ts, |ts|) && LiveKept(m1, m2, ts, |ts|)
    ensures LiveKept(m, m2, ts, |ts|)
  {
    forall j, a | 0 <= j < |ts| && j != |ts| && !ts[j].free && ts[j].addr <= a < ts[j].End() && a in m
      ensures a in m2 && m2[a] == m[a]
    {
      assert a in m1 && m1[a] == m[a];
    }
  }

  /** Live blocks stay where they are as the row grows. */
  lemma {:induction false} LiveInGrown(rd: Reading, m: Mem, m': Mem, ts: seq<Tile>, hi: nat, nu: nat, n: nat)
    requires LiveKept(m, m', GrowTimes(rd, ts, hi, nu, n), |GrowTimes(rd, ts, hi, nu, n)|)
    ensures LiveKept(m, m', ts, |ts|)
    decreases n
  {
    if n > 0 {
      var row := GrowTimes(rd, ts, hi, nu, n - 1);
      LiveInGrownOnce(rd, m, m', row, EndAfter(hi, nu, n - 1), nu);
      LiveInGrown(rd, m, m', ts, hi, nu, n - 1);
    }
  }

  lemma LiveInGrownOnce(rd: Reading, m: Mem, m': Mem, ts: seq<Tile>, hi: nat, nu: nat)
    requires LiveKept(m, m', GrownIn(rd, ts, hi, nu), |GrownIn(rd, ts, hi, nu)|)
    ensures LiveKept(m, m', ts, |ts|)
  {
    hide GrownIn;
    var r := GrownIn(rd, ts, hi, nu);
    GrowthAtEnd(rd, ts, hi, nu);
    forall j, a | 0 <= j < |ts| && j != |ts| && !ts[j].free && ts[j].addr <= a < ts[j].End() && a in m
      ensures a in m' && m'[a] == m[a]
    {
      assert r[j] == ts[j] && j != |r|;
    }
  }

  lemma MembersApart(fl: seq<Tile>, j: nat, k: nat)
    requires Spaced(fl) && j < k < |fl|
    ensures fl[j].addr + 8 <= fl[k].addr
  {
  }

  /** Both writes of a split stay inside the block, whatever they leave of it. */
  lemma TailWrites(m: Mem, ts: seq<Tile>, x: nat, lo: nat, hi: nat, sz: Word, left: Word)
    requires Tiled(ts, lo, hi) && x < |ts| && ts[x].free && 8 <= sz < ts[x].size && left == ts[x].size - sz
    ensures LiveKept(m, PutWord(PutWord(m, ts[x].addr + 4, left), ts[x].End() - sz + 4, sz), ts, |ts|)
  {
    hide Tiled, LiveKept, OnlyHeadersChanged, HeaderOutside, PutWord;
    var h, b := ts[x].addr, ts[x].End() - sz;
    var m1 := PutWord(m, h + 4, left);
    OneWriteChanges(m, h, left);
    OneWriteChanges(m1, b, sz);
    TwoWrites(m, m1, PutWord(m1, b + 4, sz), b, h);
    TailOutside(ts, x, sz, lo, hi);
    LiveKeptByHeaderWrites(m, PutWord(m1, b + 4, sz), ts, |ts|, b, h);
  }

  lemma TailTaken(rd: Reading, m: Mem, ts: seq<Tile>, x: nat, base: nat, lo: nat, hi: nat, sz: Word, left: Word)
    requires HeapHolds(rd, m, ts, base, lo, hi) && base + 8 <= lo && x < |ts| && ts[x].free
    requires 8 <= sz < ts[x].size && LeavesRoom(ts[x].size, sz) && left == ts[x].size - sz
    ensures var r, k := CarveAt(ts, x, sz), ListIndex(ts, x);
            var m' := PutWord(PutWord(m, ts[x].addr + 4, left), ts[x].End() - sz + 4, sz);
      && k + 1 < |FreeList(ts, base)| && FreeList(ts, base)[k + 1] == ts[x]
      && HeapHolds(rd, m', r, base, lo, hi)
  {
    hide Tiled, Neat, Frees, Linked, Succ, Spaced, FreeList, CarveAt, LiveSizes, LiveKept, OnlyHeadersChanged,
         HeaderOutside, ListIndex, InOrder, PutWord, WordAt, HasWord;
    var fl, k := FreeList(ts, base), ListIndex(ts, x) + 1;
    FreeListAfterCarve(ts, x, sz, base);
    FreeListInOrder(ts, base, lo, hi);
    var h, b := ts[x].addr, ts[x].End() - sz;
    var m1 := PutWord(m, h + 4, left);
    var m' := PutWord(m1, b + 4, sz);
    AfterShrink(m, fl, k, left);
    TailFits(ts, x, sz, base, lo, hi);
    LinkedIgnoresOutside(m1, fl[k := Tile(h, left, true)], k, b, sz);
    TailWrites(m, ts, x, lo, hi, sz, left);
    WordsAfterPut(m, h + 4, left);
    WordsAfterPut(m1, b + 4, sz);
    LiveSizesAfterCarve(m, m', ts, x, sz, lo, hi);
    CarveKeepsTiling(ts, x, sz, lo, hi);
    CarveKeepsNeat(rd, ts, x, sz);
  }

  /** A remainder of one byte: 263 bytes, which a request for 255 takes with its header, from a block of
      264. The new header starts one byte into the old one, and the size left, 1, reads back as 67329. */
  lemma OddRequestSpoilsSize(m: Mem, h: nat)
    ensures !LeavesRoom(264, 255 + 8)
    ensures var m' := PutWord(PutWord(m, h + 4, 264 - 263), h + 1 + 4, 263);
      HasWord(m', h + 4) && WordAt(m', h + 4) == 67329
  {
    var m1 := PutWord(m, h + 4, 1);
    assert m1[h + 4] == 1;
    var m' := PutWord(m1, h + 5, 263);
    assert m'[h + 4] == 1 && m'[h + 5] == 7 && m'[h + 6] == 1 && m'[h + 7] == 0;
  }

  // ----- growing -----

  lemma HeaderPreserved(m: Mem, m': Mem, a: nat, next: nat, size: nat)
    requires HeaderAt(m, a, next, size) && forall b :: b in m ==> b in m' && m'[b] == m[b]
    ensures HeaderAt(m', a, next, size)
  {
    hide WordAt;
    SameBytesSameWord(m, m', a);
    SameBytesSameWord(m, m', a + 4);
  }

  lemma LinkedPreserved(m: Mem, m': Mem, fl: seq<Tile>)
    requires Linked(m, fl) && forall a :: a in m ==> a in m' && m'[a] == m[a]
    ensures Linked(m', fl)
  {
    hide HeaderAt;
    forall k | 0 <= k < |fl|
      ensures HeaderAt(m', fl[k].addr, Succ(fl, k), fl[k].size)
    {
      LinkedAt(m, fl, k);
      HeaderPreserved(m, m', fl[k].addr, Succ(fl, k), fl[k].size);
    }
  }

  lemma EndFits(ts: seq<Tile>, base: nat, lo: nat, hi: nat)
    requires Tiled(ts, lo, hi) && base + 8 <= lo
    ensures FitsAfter(FreeList(ts, base), |FreeList(ts, base)| - 1, hi) && HeaderOutside(ts, |ts|, hi)
  {
    hide Tiled, Frees;
    FreeListInOrder(ts, base, lo, hi);
    TiledOrdered(ts, lo, hi);
    forall j | 0 <= j < |ts|
      ensures ts[j].End() <= hi
    {
      TileFacts(ts, j, lo, hi);
    }
  }

  /** What morecore asks for: room for the request and a header, at least MIN_REQUEST_SIZE. */
  function MoreSize(allocSize: nat): (nu: nat)
    ensures nu >= allocSize + 8
  {
    if allocSize + 8 < 1024 then 1024 else allocSize + 8
  }

  /** From break brk, can kernel_alloc get what it needs? One region of nu bytes is enough when it
      extends a free block at the end of the heap; otherwise the second call is needed too. */
  ghost predicate EnoughIn(reach: iset<Word>, brk: nat, nu: nat, merged: bool) {
    EndAfter(brk, nu, if merged then 1 else 2) in reach
  }

  /** The heap after fresh memory at its end got a header as a live block. */
  lemma RegionAppended(rd: Reading, m: Mem, ts: seq<Tile>, base: nat, lo: nat, hi: nat, nu: Word)
    requires HeapHolds(rd, m, ts, base, lo, hi) && base + 8 <= lo && nu >= 8
    ensures var m' := PutWord(m, hi + 4, nu);
      HeapHolds(rd, m', ts + [Tile(hi, nu, false)], base, lo, hi + nu) && LiveKept(m, m', ts, |ts|)
  {
    hide Tiled, Neat, Frees, Linked, FreeList, LiveSizes, LiveKept, OnlyHeadersChanged, HeaderOutside, FitsAfter,
         ListIndex, PutWord, WordAt, HasWord;
    var t := Tile(hi, nu, false);
    EndFits(ts, base, lo, hi);
    HeapBounds(m, ts, base, lo, hi);
    LinkedIgnoresOutside(m, FreeList(ts, base), |FreeList(ts, base)| - 1, hi, nu);
    OneWriteChanges(m, hi, nu);
    LiveKeptByHeaderWrites(m, PutWord(m, hi + 4, nu), ts, |ts|, hi, hi);
    WordsAfterPut(m, hi + 4, nu);
    LiveSizesAfterAppend(m, PutWord(m, hi + 4, nu), ts, t, lo, hi);
    AppendedLive(ts, base, t);
    AppendKeepsTiling(rd, ts, lo, hi, nu);
  }

  lemma HeapPreserved(rd: Reading, m: Mem, m': Mem, ts: seq<Tile>, base: nat, lo: nat, hi: nat)
    requires HeapHolds(rd, m, ts, base, lo, hi) && forall a :: a in m ==> a in m' && m'[a] == m[a]
    ensures HeapHolds(rd, m', ts, base, lo, hi) && forall i: nat :: LiveKept(m, m', ts, i)
  {
    hide Tiled, Neat, FreeList, Linked;
    LinkedPreserved(m, m', FreeList(ts, base));
  }

  /** Nothing lived in the region before, so freeing it touches no live block. */
  lemma LiveKeptThroughGrowth(m: Mem, m1: Mem, m2: Mem, m3: Mem, ts: seq<Tile>, t: Tile)
    requires (forall a :: a in m ==> a in m1 && m1[a] == m[a]) && LiveKept(m1, m2, ts, |ts|)
    requires LiveKept(m2, m3, ts + [t], |ts|)
    ensures LiveKept(m, m3, ts, |ts|)
  {
    forall j, a | 0 <= j < |ts| && j != |ts| && !ts[j].free && ts[j].addr <= a < ts[j].End() && a in m
      ensures a in m3 && m3[a] == m[a]
    {
      assert (ts + [t])[j] == ts[j];
    }
  }

  lemma LiveSizesAfterAppend(m: Mem, m': Mem, ts: seq<Tile>, t: Tile, lo: nat, hi: nat)
    requires Tiled(ts, lo, hi) && LiveSizes(m, ts) && LiveKept(m, m', ts, |ts|)
    requires HasWord(m', t.addr + 4) && WordAt(m', t.addr + 4) == t.size
    ensures LiveSizes(m', ts + [t])
  {
    hide Tiled, WordAt, HasWord, LiveKept;
    forall k | 0 <= k < |ts| && !ts[k].free
      ensures HasWord(m', ts[k].addr + 4) && WordAt(m', ts[k].addr + 4) == ts[k].size
    {
      SizeKept(m, m', ts, |ts|, k, lo, hi);
    }
  }
}
