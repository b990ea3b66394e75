/** Whole runs of the kernel heap, and what the free list is determined by. */
module HeapRuns {
  import opened HeapTiles
  import opened HeapLists
  import opened HeapSearch
  import opened WrittenFree

  // ----- bytes -----

  ghost predicate ByteIn(t: Tile, b: nat) { t.addr <= b < t.End() }

  /** Every byte of the heap lies in exactly one block. */
  lemma {:induction false} EveryByteHasOneBlock(ts: seq<Tile>, lo: nat, hi: nat, b: nat) returns (i: nat)
    requires Tiled(ts, lo, hi) && lo <= b < hi
    ensures i < |ts| && ByteIn(ts[i], b)
    ensures forall j: nat :: j < |ts| && ByteIn(ts[j], b) ==> j == i
    decreases |ts|
  {
    TiledOrdered(ts[1..], ts[0].End(), hi);
    if b < ts[0].End() {
      i := 0;
      forall j: nat | 0 < j < |ts|
        ensures !ByteIn(ts[j], b)
      {
        TilesApart(ts, 0, j, lo, hi);
      }
    } else {
      i := EveryByteHasOneBlock(ts[1..], ts[0].End(), hi, b);
      i := i + 1;
      assert forall j: nat :: 0 < j < |ts| ==> ts[j] == ts[1..][j - 1];
    }
  }

  /** Total size of the blocks that are free, or live. */
  ghost function Bytes(ts: seq<Tile>, free: bool): nat {
    if ts == [] then 0 else (if ts[0].free == free then ts[0].size else 0) + Bytes(ts[1..], free)
  }

  lemma {:induction false} BytesAddUp(ts: seq<Tile>, lo: nat, hi: nat)
    requires Tiled(ts, lo, hi)
    ensures Bytes(ts, true) + Bytes(ts, false) == hi - lo
    decreases |ts|
  {
    if ts != [] {
      BytesAddUp(ts[1..], ts[0].End(), hi);
    }
  }

  // ----- the list is determined by the free bytes -----

  ghost predicate Covers(fs: seq<Tile>, b: nat) {
    exists k :: 0 <= k < |fs| && ByteIn(fs[k], b)
  }

  lemma FirstByte(fs: seq<Tile>, gs: seq<Tile>, lo: nat, hi: nat)
    requires Separated(fs, lo, hi) && Separated(gs, lo, hi) && fs != []
    requires forall b: nat :: Covers(fs, b) ==> Covers(gs, b)
    ensures gs != [] && gs[0].addr <= fs[0].addr
  {
    assert ByteIn(fs[0], fs[0].addr) && Covers(fs, fs[0].addr);
    assert Covers(gs, fs[0].addr);
    var k :| 0 <= k < |gs| && ByteIn(gs[k], fs[0].addr);
    assert gs[0].addr <= gs[k].addr;
  }

  lemma FirstEnd(fs: seq<Tile>, gs: seq<Tile>, lo: nat, hi: nat)
    requires Separated(fs, lo, hi) && Separated(gs, lo, hi) && fs != [] && gs != [] && fs[0].addr == gs[0].addr
    requires forall b: nat :: Covers(fs, b) ==> Covers(gs, b)
    ensures fs[0].End() <= gs[0].End()
  {
    var b := gs[0].End();
    assert !Covers(gs, b);
    assert !ByteIn(fs[0], b);
  }

  lemma CoversTail(fs: seq<Tile>, lo: nat, hi: nat, b: nat)
    requires Separated(fs, lo, hi) && fs != []
    ensures Covers(fs[1..], b) <==> Covers(fs, b) && !ByteIn(fs[0], b)
    ensures Separated(fs[1..], lo, hi)
  {
    var rest := fs[1..];
    assert forall k :: 0 <= k < |rest| ==> rest[k] == fs[k + 1];
    if Covers(fs, b) && !ByteIn(fs[0], b) {
      var k :| 0 <= k < |fs| && ByteIn(fs[k], b);
      assert ByteIn(rest[k - 1], b);
    }
    if Covers(rest, b) {
      var k :| 0 <= k < |rest| && ByteIn(rest[k], b);
      assert ByteIn(fs[k + 1], b) && fs[0].End() < fs[k + 1].addr;
    }
  }

  lemma {:induction false} SameBytesSameBlocks(fs: seq<Tile>, gs: seq<Tile>, lo: nat, hi: nat)
    requires Separated(fs, lo, hi) && Separated(gs, lo, hi)
    requires forall b: nat :: Covers(fs, b) <==> Covers(gs, b)
    ensures fs == gs
    decreases |fs|
  {
    hide Separated, Covers;
    if fs == [] && gs != [] {
      FirstByte(gs, fs, lo, hi);
    } else if fs != [] {
      FirstByte(fs, gs, lo, hi);
      FirstByte(gs, fs, lo, hi);
      FirstEnd(fs, gs, lo, hi);
      FirstEnd(gs, fs, lo, hi);
      AllFree(fs, lo, hi);
      AllFree(gs, lo, hi);
      forall b: nat
        ensures Covers(fs[1..], b) <==> Covers(gs[1..], b)
      {
        CoversTail(fs, lo, hi, b);
        CoversTail(gs, lo, hi, b);
      }
      CoversTail(fs, lo, hi, 0);
      CoversTail(gs, lo, hi, 0);
      SameBytesSameBlocks(fs[1..], gs[1..], lo, hi);
      assert fs == [fs[0]] + fs[1..] && gs == [gs[0]] + gs[1..];
    }
  }

  lemma AllFree(fs: seq<Tile>, lo: nat, hi: nat)
    requires Separated(fs, lo, hi) && fs != []
    ensures fs[0].free
  {
  }

  /** Two coalesced heaps over the same range with the same free bytes have the same free list,
      whatever their histories and however their live bytes are cut into blocks. */
  lemma FreeListIsCanonical(ts: seq<Tile>, us: seq<Tile>, base: nat, lo: nat, hi: nat)
    requires Tiled(ts, lo, hi) && Coalesced(ts) && Tiled(us, lo, hi) && Coalesced(us)
    requires forall b: nat :: Covers(Frees(ts), b) <==> Covers(Frees(us), b)
    ensures FreeList(ts, base) == FreeList(us, base)
  {
    FreesSeparated(ts, lo, hi);
    FreesSeparated(us, lo, hi);
    SameBytesSameBlocks(Frees(ts), Frees(us), lo, hi);
  }

  // ----- runs -----

  /** One call, as it changes the row: an allocation that was served or refused, or a free. */
  datatype Event =
    | Served(grown: nat, nu: nat, block: nat, size: nat)
    | Refused(grown: nat, nu: nat)
    | Freed(block: nat)

  datatype Heap = Heap(tiles: seq<Tile>, end: nat)

  ghost predicate Sound(rd: Reading, h: Heap, lo: nat) {
    Tiled(h.tiles, lo, h.end) && Neat(rd, h.tiles)
  }

  ghost function AfterGrowth(rd: Reading, h: Heap, nu: nat, n: nat): Heap {
    Heap(GrowTimes(rd, h.tiles, h.end, nu, n), EndAfter(h.end, nu, n))
  }

  /** No compiled test hits when the n regions are freed. */
  ghost predicate GrowthsMiss(rd: Reading, base: nat, h: Heap, nu: nat, n: nat)
    decreases n
  {
    n > 0 ==>
      && GrowthsMiss(rd, base, h, nu, n - 1)
      && GrowthMisses(rd, AfterGrowth(rd, h, nu, n - 1).tiles, AfterGrowth(rd, h, nu, n - 1).end, nu, base)
  }

  /** The events a heap can go through in a reading: requests of any size whose remainder leaves room
      for a header, refusals, and frees of live blocks, no compiled test hitting. */
  ghost predicate Possible(rd: Reading, base: nat, h: Heap, e: Event) {
    match e
    case Served(n, nu, x, sz) =>
      var row := AfterGrowth(rd, h, nu, n).tiles;
      && nu >= 8 && sz >= 8 && GrowthsMiss(rd, base, h, nu, n)
      && x < |row| && row[x].free && sz <= row[x].size && LeavesRoom(row[x].size, sz)
    case Refused(n, nu) => nu >= 8 && GrowthsMiss(rd, base, h, nu, n)
    case Freed(i) => i < |h.tiles| && !h.tiles[i].free && FreeMisses(rd, base, h.tiles, i)
  }

  ghost predicate FreeMisses(rd: Reading, base: nat, ts: seq<Tile>, i: nat)
    requires i < |ts|
  {
    BlockHasIndex(ts, i, base);
    !Misled(rd, ts, i, base)
  }

  ghost function Apply(rd: Reading, base: nat, h: Heap, e: Event): Heap
    requires Possible(rd, base, h, e)
  {
    match e
    case Served(n, nu, x, sz) => var g := AfterGrowth(rd, h, nu, n); Heap(CarveAt(g.tiles, x, sz), g.end)
    case Refused(n, nu) => AfterGrowth(rd, h, nu, n)
    case Freed(i) => Heap(FreedIn(rd, h.tiles, i), h.end)
  }

  ghost predicate PossibleRun(rd: Reading, base: nat, h: Heap, es: seq<Event>)
    decreases |es|
  {
    es == [] || (Possible(rd, base, h, es[0]) && PossibleRun(rd, base, Apply(rd, base, h, es[0]), es[1..]))
  }

  ghost function RunFrom(rd: Reading, base: nat, h: Heap, es: seq<Event>): Heap
    requires PossibleRun(rd, base, h, es)
    decreases |es|
  {
    if es == [] then h else RunFrom(rd, base, Apply(rd, base, h, es[0]), es[1..])
  }

  lemma {:induction false} GrowthKeepsSound(rd: Reading, h: Heap, nu: nat, n: nat, lo: nat)
    requires Sound(rd, h, lo) && nu >= 8
    ensures Sound(rd, AfterGrowth(rd, h, nu, n), lo)
    decreases n
  {
    if n > 0 {
      GrowthKeepsSound(rd, h, nu, n - 1, lo);
      GrowKeepsTiling(rd, GrowTimes(rd, h.tiles, h.end, nu, n - 1), lo, EndAfter(h.end, nu, n - 1), nu);
    }
  }

  lemma StepKeepsSound(rd: Reading, base: nat, h: Heap, e: Event, lo: nat)
    requires Sound(rd, h, lo) && Possible(rd, base, h, e)
    ensures Sound(rd, Apply(rd, base, h, e), lo)
  {
    hide Tiled, Neat, GrowTimes, EndAfter, CarveAt, FreedIn;
    match e
    case Served(n, nu, x, sz) =>
      GrowthKeepsSound(rd, h, nu, n, lo);
      var g := AfterGrowth(rd, h, nu, n);
      CarveKeepsTiling(g.tiles, x, sz, lo, g.end);
      CarveKeepsNeat(rd, g.tiles, x, sz);
    case Refused(n, nu) =>
      GrowthKeepsSound(rd, h, nu, n, lo);
    case Freed(i) =>
      FreedKeepsTiling(rd, h.tiles, i, lo, h.end);
  }

  /** Over any run of calls the blocks tile the heap exactly, free and live bytes add up to its size,
      and in the byte reading no two free blocks touch. */
  lemma {:induction false} RunKeepsHeapTiled(rd: Reading, base: nat, h: Heap, es: seq<Event>, lo: nat)
    requires Sound(rd, h, lo) && PossibleRun(rd, base, h, es)
    ensures var r := RunFrom(rd, base, h, es);
      && Sound(rd, r, lo)
      && Bytes(r.tiles, true) + Bytes(r.tiles, false) == r.end - lo
    decreases |es|
  {
    if es == [] {
      BytesAddUp(h.tiles, lo, h.end);
    } else {
      StepKeepsSound(rd, base, h, es[0], lo);
      RunKeepsHeapTiled(rd, base, Apply(rd, base, h, es[0]), es[1..], lo);
    }
  }

  // ----- what the compiled code never undoes -----

  /** Some block starts at a. */
  ghost predicate StartsAt(ts: seq<Tile>, a: nat) {
    exists j :: 0 <= j < |ts| && ts[j].addr == a
  }

  lemma {:induction false} GrowthKeepsStart(h: Heap, nu: nat, n: nat, a: nat)
    requires StartsAt(h.tiles, a)
    ensures StartsAt(AfterGrowth(AsCompiled, h, nu, n).tiles, a)
    decreases n
  {
    if n > 0 {
      GrowthKeepsStart(h, nu, n - 1, a);
      var row := AfterGrowth(AsCompiled, h, nu, n - 1).tiles;
      var j: nat :| j < |row| && row[j].addr == a;
      GrowthAtEnd(AsCompiled, row, AfterGrowth(AsCompiled, h, nu, n - 1).end, nu);
      assert AfterGrowth(AsCompiled, h, nu, n).tiles[j] == row[j];
    }
  }

  lemma StepKeepsStart(base: nat, h: Heap, e: Event, a: nat)
    requires Possible(AsCompiled, base, h, e) && StartsAt(h.tiles, a)
    ensures StartsAt(Apply(AsCompiled, base, h, e).tiles, a)
  {
    hide GrowTimes, EndAfter, GrowthsMiss;
    var after := Apply(AsCompiled, base, h, e).tiles;
    match e
    case Served(n, nu, x, sz) =>
      GrowthKeepsStart(h, nu, n, a);
      var row := AfterGrowth(AsCompiled, h, nu, n).tiles;
      var j: nat :| j < |row| && row[j].addr == a;
      var k := if j <= x || row[x].size == sz then j else j + 1;
      assert after[k].addr == a;
    case Refused(n, nu) =>
      GrowthKeepsStart(h, nu, n, a);
    case Freed(i) =>
      var j: nat :| j < |h.tiles| && h.tiles[j].addr == a;
      assert after[j].addr == a;
  }

  /** As compiled, two blocks that were once cut apart are never joined again: every block start
      stays one over any run. */
  lemma {:induction false} CompiledRunNeverJoins(base: nat, h: Heap, es: seq<Event>, a: nat)
    requires PossibleRun(AsCompiled, base, h, es) && StartsAt(h.tiles, a)
    ensures StartsAt(RunFrom(AsCompiled, base, h, es).tiles, a)
    decreases |es|
  {
    hide Possible, Apply, StartsAt;
    if es != [] {
      StepKeepsStart(base, h, es[0], a);
      CompiledRunNeverJoins(base, Apply(AsCompiled, base, h, es[0]), es[1..], a);
    }
  }

  /** The kernel's first request, 255 bytes from an empty heap. Both readings call morecore twice; as
      compiled the two regions stay apart and the first is carved, in bytes they are one block. */
  lemma FirstRequestCompared(s: nat)
    ensures GrowTimes(AsCompiled, [], s, 1024, 2) == [Tile(s, 1024, true), Tile(s + 1024, 1024, true)]
    ensures CarveAt(GrowTimes(AsCompiled, [], s, 1024, 2), 0, 263) ==
            [Tile(s, 761, true), Tile(s + 761, 263, false), Tile(s + 1024, 1024, true)]
    ensures GrowTimes(InBytes, [], s, 1024, 2) == [Tile(s, 2048, true)]
    ensures CarveAt(GrowTimes(InBytes, [], s, 1024, 2), 0, 263) == [Tile(s, 1785, true), Tile(s + 1785, 263, false)]
  {
    forall rd: Reading
      ensures GrowTimes(rd, [], s, 1024, 1) == [Tile(s, 1024, true)]
    {
      assert GrowTimes(rd, [], s, 1024, 0) == [] && EndAfter(s, 1024, 0) == s;
      GrowthAtEnd(rd, [], s, 1024);
    }
    assert EndAfter(s, 1024, 1) == s + 1024;
    GrowthAtEnd(AsCompiled, [Tile(s, 1024, true)], s + 1024, 1024);
    GrowthAtEnd(InBytes, [Tile(s, 1024, true)], s + 1024, 1024);
  }

  // ----- freeing everything -----

  ghost function LiveCount(ts: seq<Tile>): nat {
    if ts == [] then 0 else (if ts[0].free then 0 else 1) + LiveCount(ts[1..])
  }

  lemma {:induction false} LiveCountOfJoin(a: seq<Tile>, b: seq<Tile>)
    ensures LiveCount(a + b) == LiveCount(a) + LiveCount(b)
    decreases |a|
  {
    if a == [] {
      assert a + b == b;
    } else {
      LiveCountOfJoin(a[1..], b);
      assert (a + b)[0] == a[0] && (a + b)[1..] == a[1..] + b;
    }
  }

  lemma {:induction false} NoLiveBlocks(ts: seq<Tile>)
    ensures LiveCount(ts) == 0 <==> forall i :: 0 <= i < |ts| ==> ts[i].free
    decreases |ts|
  {
    if ts != [] {
      NoLiveBlocks(ts[1..]);
      assert forall i :: 0 < i < |ts| ==> ts[i] == ts[1..][i - 1];
    }
  }

  lemma LiveCountAround(ts: seq<Tile>, i: nat)
    requires i < |ts|
    ensures LiveCount(ts) == LiveCount(ts[..i]) + (if ts[i].free then 0 else 1) + LiveCount(ts[i + 1..])
  {
    var tail := ts[i..];
    assert ts == ts[..i] + tail && tail[0] == ts[i] && tail[1..] == ts[i + 1..];
    LiveCountOfJoin(ts[..i], tail);
  }

  lemma LiveCountOne(t: Tile)
    ensures LiveCount([t]) == if t.free then 0 else 1
  {
  }

  /** A free takes exactly one block out of use. */
  lemma FreeTakesOne(ts: seq<Tile>, i: nat)
    requires i < |ts| && !ts[i].free
    ensures LiveCount(FreeAt(ts, i)) == LiveCount(ts) - 1
  {
    hide LiveCount, Merged;
    var a, b, m := MergeFrom(ts, i), MergeTo(ts, i), Merged(ts, i);
    LiveCountOfJoin(ts[..a] + [m], ts[b..]);
    LiveCountOfJoin(ts[..a], [m]);
    MergedIsFree(ts, i);
    LiveCountOne(m);
    LiveCountAround(ts, i);
    if a < i {
      LiveCountAround(ts[..i], a);
      assert ts[..i][..a] == ts[..a] && ts[..i][a + 1..] == [];
    }
    if b > i + 1 {
      LiveCountAround(ts[i + 1..], 0);
      assert ts[i + 1..][..0] == [] && ts[i + 1..][1..] == ts[b..];
    }
    NoLiveBlocks([]);
  }

  /** Frees only, one event per live block: any such run ends with every block freed. */
  ghost predicate OnlyFrees(es: seq<Event>) {
    forall k :: 0 <= k < |es| ==> es[k].Freed?
  }

  /** In the byte reading, freeing all live blocks, in any order, leaves one free block over the whole heap, so the
      list is the static header and that block; an empty heap leaves the header alone. */
  lemma {:induction false} FreeingAllLeavesOneBlock(h: Heap, es: seq<Event>, base: nat, lo: nat)
    requires Sound(InBytes, h, lo) && PossibleRun(InBytes, base, h, es) && OnlyFrees(es) && |es| == LiveCount(h.tiles)
    ensures var r := RunFrom(InBytes, base, h, es);
      && r.end == h.end
      && r.tiles == (if lo < h.end then [Tile(lo, h.end - lo, true)] else [])
      && FreeList(r.tiles, base) == [Tile(base, 0, true)] + r.tiles
    decreases |es|
  {
    if es == [] {
      NoLiveBlocks(h.tiles);
      OneFreeBlock(h.tiles, lo, h.end);
    } else {
      assert es[0].Freed?;
      FreeTakesOne(h.tiles, es[0].block);
      StepKeepsSound(InBytes, base, h, es[0], lo);
      assert OnlyFrees(es[1..]) by {
        assert forall k :: 0 <= k < |es[1..]| ==> es[1..][k] == es[k + 1];
      }
      FreeingAllLeavesOneBlock(Apply(InBytes, base, h, es[0]), es[1..], base, lo);
    }
  }

  lemma OneFreeBlock(ts: seq<Tile>, lo: nat, hi: nat)
    requires Tiled(ts, lo, hi) && Coalesced(ts) && forall i :: 0 <= i < |ts| ==> ts[i].free
    ensures ts == (if lo < hi then [Tile(lo, hi - lo, true)] else []) && Frees(ts) == ts
  {
    TiledOrdered(ts, lo, hi);
    if ts != [] {
      assert ts[0].free;
      assert ts[1..] == [];
    }
  }

  /** In the byte reading an allocation that did not grow the heap, then the free of its block,
      restores the heap. */
  lemma AllocThenFreeRestores(base: nat, h: Heap, x: nat, sz: nat, lo: nat)
    requires Sound(InBytes, h, lo) && x < |h.tiles| && h.tiles[x].free
    requires 8 <= sz <= h.tiles[x].size && LeavesRoom(h.tiles[x].size, sz)
    ensures var served := Served(0, 8, x, sz);
      && Possible(InBytes, base, h, served)
      && var mid := Apply(InBytes, base, h, served);
         var freed := Freed(if h.tiles[x].size == sz then x else x + 1);
         Possible(InBytes, base, mid, freed) && Apply(InBytes, base, mid, freed) == h
  {
    assert GrowTimes(InBytes, h.tiles, h.end, 8, 0) == h.tiles;
    FreeUndoesCarve(h.tiles, x, sz, lo, h.end);
  }
}
