/** The calls of kalloc.c as events: what a run of events says, it says about runs of calls. */
module HeapCalls {
  import opened Paging
  import opened HeapTiles
  import opened HeapLists
  import opened HeapSearch
  import opened LiveBlocks
  import opened HeapRuns
  import opened WrittenFree
  import opened KernelHeaps
  import opened KernelSpaces

  ghost function Row(h: KernelHeap): Heap
    reads h, h.space
  {
    Heap(h.tiles, h.space.kernelBreak)
  }

  /** Event e takes the heap from one row to the other. */
  ghost predicate Happens(h: KernelHeap, before: Heap, e: Event, after: Heap) {
    Possible(h.reading, h.base, before, e) && after == Apply(h.reading, h.base, before, e)
  }

  // ----- single calls -----

  /** The address that kernel_alloc hands out for the block at a header. */
  ghost predicate LiveAt(ts: seq<Tile>, p: nat) {
    exists j :: 0 <= j < |ts| && !ts[j].free && ts[j].addr + HEADER == p
  }

  /** The address of a served event: past the header of the block's carved end. */
  ghost function Answer(rd: Reading, base: nat, h: Heap, e: Event): nat
    requires Possible(rd, base, h, e) && e.Served?
  {
    AfterGrowth(rd, h, e.nu, e.grown).tiles[e.block].End() - e.size + HEADER
  }

  lemma GrowthsReady(rd: Reading, base: nat, h: Heap, nu: nat, n: nat, last: nat, tops: iset<nat>, reach: iset<Word>)
    requires n <= 2 && (n > 0 ==> MayGrow(rd, base, h.tiles, h.end, nu, last, tops, reach))
    requires n == 2 ==> h.end + nu in reach && !JoinsEnd(rd, h.tiles)
    ensures GrowthsMiss(rd, base, h, nu, n)
  {
    hide GrownIn, GrowthMisses, JoinsEnd;
    assert AfterGrowth(rd, h, nu, 0) == h;
    assert GrowthsMiss(rd, base, h, nu, 0);
    if n == 2 {
      assert AfterGrowth(rd, h, nu, 1) == Heap(GrownIn(rd, h.tiles, h.end, nu), h.end + nu);
      assert GrowthsMiss(rd, base, h, nu, 1);
    }
  }

  /** What a second growth goes to show. */
  lemma TwiceInReach(space: KernelSpace, nu: nat)
    requires space.Tidy()
    ensures space.kernelBreak + 2 * nu in space.Reach() ==> space.kernelBreak + nu in space.Reach()
  {
    hide KernelSpace.Tidy, KernelSpace.Reach;
    if space.kernelBreak + 2 * nu in space.Reach() {
      space.ReachDown(space.kernelBreak + 2 * nu, space.kernelBreak + nu);
    }
  }

  /** A call of kernel_alloc, in either reading and for a request of any size: one possible event, which
      leaves a valid heap exactly when the next fit leaves room for a header. */
  method AllocIsOneEvent(h: KernelHeap, nbytes: nat) returns (r: Word, ghost e: Event)
    requires h.Valid() && h.space.Tidy() && h.CanAsk(nbytes + HEADER)
    modifies h, h.space.Repr()
    ensures h.Valid() <==> old(h.NextFitLeavesRoom(nbytes + HEADER))
    ensures h.Valid() <==> Happens(h, old(Row(h)), e, Row(h))
    ensures if r == 0 then e.Refused? && h.Valid() else e.Served? && e.size == nbytes + HEADER
    ensures r != 0 && h.Valid() ==> r == Answer(h.reading, h.base, old(Row(h)), e)
    ensures h.space.Tidy() && old(h.space.Tops()) <= h.space.Tops()
    ensures r != 0 && old(h.space.Synced()) ==> h.space.Synced()
  {
    hide KernelHeap.SpaceOk, KernelHeap.Holds, KernelSpace.Tidy, KernelSpace.Reach, KernelSpace.Tops, LiveKept, Frees,
         EnoughIn, SomeFit, IsNextFit, JoinsEnd, EndsFreeWith, ListIndex, KernelHeap.Valid, KernelHeap.Members,
         CarveAt, GrowTimes, EndAfter, MoreSize, MayGrow, GrowthsMiss, KernelHeap.NextFitLeavesRoom, Fresh;
    ghost var was, nu, rd, joins := Row(h), MoreSize(nbytes + HEADER), h.reading, JoinsEnd(h.reading, h.tiles);
    ghost var last, tops, reach := h.space.LastPage(), h.space.Tops(), h.space.Reach();
    TwiceInReach(h.space, nu);
    h.FitInBytes(h.Members(), nbytes, nbytes + HEADER);
    ghost var calls, x;
    r, calls, x := h.Alloc(nbytes);
    h.GrowthInBytes(was.tiles, nbytes, was.end, reach, if r == 0 then calls - 1 else calls);
    GrowthsReady(rd, h.base, was, nu, if r == 0 then calls - 1 else calls, last, tops, reach);
    e := if r == 0 then Refused(calls - 1, nu) else Served(calls, nu, x, nbytes + HEADER);
  }

  /** A call of kernel_free on a live block is one event, possible exactly when it leaves a valid heap. */
  method FreeIsOneEvent(h: KernelHeap, mblock: Word, ghost i: nat) returns (ghost e: Event)
    requires h.Valid() && i < |h.tiles| && !h.tiles[i].free && mblock == h.tiles[i].addr + HEADER
    modifies h, h.space.mmu`ram
    ensures h.Valid() <==> Happens(h, old(Row(h)), e, Row(h))
    ensures h.Valid() <==> old(FreeMisses(h.reading, h.base, h.tiles, i))
    ensures e == Freed(i) && h.tiles == FreedIn(h.reading, old(h.tiles), i)
    ensures old(h.space.Tidy()) ==> h.space.Tidy() && h.space.Outlook() == old(h.space.Outlook())
    ensures h.space.kernelBreak == old(h.space.kernelBreak) && h.space.LastPage() == old(h.space.LastPage())
  {
    hide KernelHeap.SpaceOk, KernelHeap.Holds, KernelSpace.Tidy, KernelSpace.Outlook, LiveKept, KernelHeap.Valid,
         FreedIn, Misled, Linked, ListAfterLines;
    e := Freed(i);
    h.Free(mblock, i);
  }

  /** The kernel's first request, kernel_alloc (255) on an empty heap (kernel.c:151): where the block is,
      and what is left of the two regions. */
  method FirstRequest(heap: KernelHeap) returns (r: Word)
    requires heap.Valid() && heap.tiles == [] && heap.freeHdr == 0
    requires heap.space.Healthy() && heap.space.Synced() && heap.space.kernelBreak == 0xD0000000
    modifies heap, heap.space.Repr()
    ensures heap.Valid() && heap.space.Healthy() && heap.space.kernelBreak == 0xD0000800
    ensures r == if heap.reading.AsCompiled? then 0xD0000301 else 0xD0000701
    ensures heap.tiles == if heap.reading.AsCompiled?
      then [Tile(0xD0000000, 761, true), Tile(0xD00002F9, 263, false), Tile(0xD0000400, 1024, true)]
      else [Tile(0xD0000000, 1785, true), Tile(0xD00006F9, 263, false)]
  {
    hide KernelHeap.Valid, KernelSpace.Tidy, KernelSpace.Tops, KernelSpace.Reach, KernelHeap.CanAsk,
         KernelHeap.NextFitLeavesRoom, KernelHeap.Mem, LiveKept, GrowTimes, CarveAt, EndsFreeWith, MoreSize;
    FirstCanAsk(heap);
    FirstRequestCompared(0xD0000000);
    ghost var calls, x;
    r, calls, x := heap.Alloc(255);
  }

  lemma FirstCanAsk(heap: KernelHeap)
    requires heap.Valid() && heap.tiles == [] && heap.freeHdr == 0
    requires heap.space.Healthy() && heap.space.Synced() && heap.space.kernelBreak == 0xD0000000
    ensures heap.CanAsk(263) && 0xD0000800 in heap.space.Reach() && !SomeFit(heap.Members(), 263)
  {
    hide KernelSpace.Valid, KernelSpace.Tidy, KernelSpace.Tops, EndBy, FreeList, GrownIn, GrowthMisses, GrowTimes;
    var space, rd, base := heap.space, heap.reading, heap.base;
    heap.FirstCallFindsNothing(263);
    space.HealthyPays(0xD0000400);
    space.HealthyPays(0xD0000800);
    FirstGrowthsMiss(rd, base);
  }

  /** Neither of the first two regions misleads a test when it is freed. */
  lemma FirstGrowthsMiss(rd: Reading, base: nat)
    requires 0 < base && base + HEADER <= 0xD0000000
    ensures GrowthMisses(rd, [], 0xD0000000, 1024, base)
    ensures GrowthMisses(rd, GrownIn(rd, [], 0xD0000000, 1024), 0xD0000400, 1024, base)
  {
    if rd.AsCompiled? {
      var t := Tile(0xD0000000, 1024, true);
      GrowthAtEnd(rd, [], 0xD0000000, 1024);
      GrowthMissesIff([], 0xD0000000, 1024, base);
      GrowthMissesIff([t], 0xD0000400, 1024, base);
      assert GrownIn(rd, [], 0xD0000000, 1024) == [t] && Frees([t]) == [t];
      assert FreeList([t], base) == [Tile(base, 0, true), t];
    }
  }

  // ----- what a caller can check -----

  /** Does some member fit, and does the next fit leave room? The search of kernel_alloc without its
      growth. */
  method LeavesRoomNext(h: KernelHeap, allocSize: nat) returns (fits: bool, ok: bool)
    requires h.Valid() && 8 <= allocSize
    ensures ok <==> h.NextFitLeavesRoom(allocSize)
    ensures fits <==> SomeFit(h.Members(), allocSize)
  {
    hide KernelHeap.SpaceOk, KernelHeap.Holds, KernelHeap.Mem, FreeList, IsNextFit, SomeFit, Pending, Next, Distance,
         NextFitLeaves, KernelHeap.NextFitLeavesRoom, Spaced;
    if h.freeHdr == 0 {
      h.FirstCallFindsNothing(allocSize);
      return false, true;
    }
    ghost var fl, s, rd := h.Members(), h.RoverIndex(), h.reading;
    h.MembersSpaced();
    h.NextFitAtRover(s, allocSize);
    SearchStarts(rd, fl, s, allocSize, false);
    ghost var c := Next(fl, s);
    var hdr := h.NextMember(h.freeHdr, s);
    while true
      invariant 0 <= c < |fl| && hdr == fl[c].addr && Pending(rd, fl, s, c, allocSize, 0, false)
      decreases Distance(fl, s, c)
    {
      var size := h.MemberSize(hdr, c);
      if size >= allocSize {
        SearchFinds(rd, fl, s, c, allocSize, 0, false);
        FoundFitDecides(fl, s, c, allocSize);
        return true, size == allocSize || size >= allocSize + HEADER;
      }
      if hdr == h.freeHdr {
        FullCircle(rd, fl, s, c, allocSize, 0, false);
        NoFitLeaves(fl, s, allocSize);
        return false, true;
      }
      SearchMovesOn(rd, fl, s, c, allocSize, 0, false);
      hdr := h.NextMember(hdr, c);
      c := Next(fl, c);
    }
  }

  // ----- sequences of calls -----

  /** Ask for nbytes, or give back the k-th pointer still held. */
  datatype Request = Ask(nbytes: nat) | Give(k: nat)

  ghost predicate Answers(q: Request, e: Event) {
    match q
    case Ask(n) => e.Refused? || (e.Served? && e.size == n + HEADER)
    case Give(_) => e.Freed?
  }

  /** Two regions of nu bytes can be added with no address wrapping and no compiled test hitting. */
  ghost predicate GrowsSafely(h: KernelHeap, nu: nat)
    reads h, h.space
  {
    && h.space.kernelBreak + 2 * nu < 0x1_0000_0000
    && GrowthMisses(h.reading, h.tiles, h.space.kernelBreak, nu, h.base)
    && var brk := h.space.kernelBreak;
       GrowthMisses(h.reading, GrownIn(h.reading, h.tiles, brk, nu), brk + nu, nu, h.base)
  }

  /** A request that can be made: the next fit leaves room, or regions can be added; or the pointer is
      held, and no compiled test hits when it is given back. */
  ghost predicate Ready(h: KernelHeap, held: seq<Word>, q: Request)
    reads h, h.space
  {
    match q
    case Ask(n) =>
      h.NextFitLeavesRoom(n + HEADER) && (SomeFit(h.Members(), n + HEADER) || GrowsSafely(h, MoreSize(n + HEADER)))
    case Give(k) =>
      && k < |held|
      && forall i: nat :: i < |h.tiles| && !h.tiles[i].free && h.tiles[i].addr + HEADER == held[k] ==>
           FreeMisses(h.reading, h.base, h.tiles, i)
  }

  /** The pointers held are those of distinct live blocks. */
  ghost predicate HoldsLive(held: seq<Word>, ts: seq<Tile>) {
    && (forall k :: 0 <= k < |held| ==> LiveAt(ts, held[k]))
    && (forall j, k :: 0 <= j < k < |held| ==> held[j] != held[k])
  }

  /** Requests made one after the other, in either reading, up to the first that is refused or cannot be
      made. Together the calls are a possible run of events, one for each request; memory still links
      the row that the run ends in, and the pointers still held are those of distinct live blocks. */
  method Drive(h: KernelHeap, requests: seq<Request>) returns (done: nat, held: seq<Word>, ghost es: seq<Event>)
    requires h.Valid() && h.space.Healthy() && h.space.Synced()
    modifies h, h.space.Repr()
    ensures h.Valid() && h.space.Healthy() && done <= |requests| && |es| == done
    ensures PossibleRun(h.reading, h.base, old(Row(h)), es) && RunFrom(h.reading, h.base, old(Row(h)), es) == Row(h)
    ensures forall k :: 0 <= k < done ==> Answers(requests[k], es[k])
    ensures done < |requests| ==> (done > 0 && es[done - 1].Refused?) || !Ready(h, held, requests[done])
    ensures HoldsLive(held, h.tiles)
  {
    hide KernelHeap.Valid, KernelHeap.NextFitLeavesRoom, SomeFit, MoreSize, Possible, Apply, HoldsLive, Answer, Sound,
         FreedIn, PossibleRun, RunFrom, KernelSpace.Tidy, KernelSpace.Tops, KernelHeap.Members, FreeMisses,
         GrowsSafely, KernelHeap.CanAsk, KernelHeap.MisledAt;
    done, held, es := 0, [], [];
    ghost var rd, base, start := h.reading, h.base, Row(h);
    NothingHeld(h.tiles);
    NoEvents(rd, base, start);
    while done < |requests|
      invariant h.Valid() && h.space.Healthy() && h.space.Synced() && done <= |requests| && |es| == done
      invariant PossibleRun(rd, base, start, es) && RunFrom(rd, base, start, es) == Row(h)
      invariant forall k :: 0 <= k < done ==> Answers(requests[k], es[k])
      invariant HoldsLive(held, h.tiles)
    {
      ghost var before, e := Row(h), Freed(0);
      RowIsSound(h);
      var refused := false;
      match requests[done] {
        case Ask(n) =>
          var ready := AskIsReady(h, n);
          if !ready {
            return;
          }
          var r;
          r, e := AllocIsOneEvent(h, n);
          refused := r == 0;
          HeldAfterAsk(held, rd, base, before, e);
          if !refused {
            held := held + [r];
          }
        case Give(k) =>
          if k >= |held| {
            return;
          }
          ghost var i := LiveIndex(held, h.tiles, k);
          var hit := h.FreeMisleads(held[k] - HEADER, i);
          MisledDoesNotMiss(h, i);
          if hit {
            return;
          }
          e := FreeIsOneEvent(h, held[k], i);
          HeldAfterGive(held, rd, before.tiles, k, i);
          held := held[..k] + held[k + 1..];
      }
      RunAndOne(rd, base, start, es, e);
      es := es + [e];
      done := done + 1;
      if refused {
        return;
      }
    }
  }

  lemma MisledDoesNotMiss(h: KernelHeap, i: nat)
    requires i < |h.tiles|
    ensures h.MisledAt(i) <==> !FreeMisses(h.reading, h.base, h.tiles, i)
  {
    hide Misled;
  }

  /** Can a request be made? If so it meets what kernel_alloc asks for, in a healthy space in step. */
  method AskIsReady(h: KernelHeap, n: nat) returns (ready: bool)
    requires h.Valid() && h.space.Healthy() && h.space.Synced()
    ensures ready <==>
      h.NextFitLeavesRoom(n + HEADER) && (SomeFit(h.Members(), n + HEADER) || GrowsSafely(h, MoreSize(n + HEADER)))
    ensures ready ==> h.CanAsk(n + HEADER)
  {
    hide KernelHeap.Valid, KernelHeap.NextFitLeavesRoom, SomeFit, KernelHeap.Members, KernelSpace.Healthy,
         GrowthMisses, GrownIn, MayGrow, FreeList;
    var fits;
    fits, ready := LeavesRoomNext(h, n + HEADER);
    if !ready || fits {
      return;
    }
    var nu := MoreSize(n + HEADER);
    if h.space.kernelBreak + 2 * nu >= 0x1_0000_0000 {
      return false;
    }
    ready := h.TwoGrowthsMiss(nu);
    if ready {
      SafeMayGrow(h, nu);
    }
  }

  lemma SafeMayGrow(h: KernelHeap, nu: nat)
    requires h.space.Healthy() && h.space.Synced() && GrowsSafely(h, nu)
    ensures var space := h.space;
      MayGrow(h.reading, h.base, h.tiles, space.kernelBreak, nu, space.LastPage(), space.Tops(), space.Reach())
  {
    hide KernelSpace.Healthy, KernelSpace.Tops, KernelSpace.Reach, GrowthMisses, GrownIn, JoinsEnd;
    h.space.HealthyPays(h.space.kernelBreak + nu);
    h.space.HealthyPays(h.space.kernelBreak + nu + nu);
  }

  lemma NothingHeld(ts: seq<Tile>)
    ensures HoldsLive([], ts)
  {
  }

  lemma NoEvents(rd: Reading, base: nat, h: Heap)
    ensures PossibleRun(rd, base, h, []) && RunFrom(rd, base, h, []) == h
  {
  }

  /** A run and one more event. */
  lemma {:induction false} RunAndOne(rd: Reading, base: nat, h: Heap, es: seq<Event>, e: Event)
    requires PossibleRun(rd, base, h, es) && Possible(rd, base, RunFrom(rd, base, h, es), e)
    ensures PossibleRun(rd, base, h, es + [e])
    ensures RunFrom(rd, base, h, es + [e]) == Apply(rd, base, RunFrom(rd, base, h, es), e)
    decreases |es|
  {
    hide Possible, Apply;
    if es == [] {
      assert ([] + [e])[1..] == [];
    } else {
      RunAndOne(rd, base, Apply(rd, base, h, es[0]), es[1..], e);
      assert (es + [e])[1..] == es[1..] + [e];
    }
  }

  lemma LiveIndex(held: seq<Word>, ts: seq<Tile>, k: nat) returns (i: nat)
    requires HoldsLive(held, ts) && k < |held|
    ensures i < |ts| && !ts[i].free && ts[i].addr + HEADER == held[k]
  {
    assert LiveAt(ts, held[k]);
    i :| 0 <= i < |ts| && !ts[i].free && ts[i].addr + HEADER == held[k];
  }

  lemma LiveSurvivesFree(rd: Reading, ts: seq<Tile>, i: nat, p: nat)
    requires i < |ts| && LiveAt(ts, p) && ts[i].addr + HEADER != p
    ensures LiveAt(FreedIn(rd, ts, i), p)
  {
    hide FreeAt;
    var j: nat :| j < |ts| && !ts[j].free && ts[j].addr + HEADER == p;
    if rd.InBytes? {
      var k := LiveBlockStays(ts, i, j);
      assert FreedIn(rd, ts, i)[k] == ts[j];
    } else {
      assert FreedIn(rd, ts, i)[j] == ts[j];
    }
  }

  lemma LiveBlockStays(ts: seq<Tile>, i: nat, j: nat) returns (k: nat)
    requires i < |ts| && j < |ts| && i != j && !ts[j].free
    ensures k < |FreeAt(ts, i)| && FreeAt(ts, i)[k] == ts[j]
  {
    hide Merged;
    var a, b := MergeFrom(ts, i), MergeTo(ts, i);
    k := if j < a then j else a + 1 + (j - b);
    assert j < a || b <= j;
  }

  lemma HeldAfterGive(held: seq<Word>, rd: Reading, ts: seq<Tile>, k: nat, i: nat)
    requires HoldsLive(held, ts) && k < |held| && i < |ts| && !ts[i].free && ts[i].addr + HEADER == held[k]
    ensures HoldsLive(held[..k] + held[k + 1..], FreedIn(rd, ts, i))
  {
    hide LiveAt;
    var less := held[..k] + held[k + 1..];
    forall n | 0 <= n < |less|
      ensures LiveAt(FreedIn(rd, ts, i), less[n])
    {
      var m := if n < k then n else n + 1;
      assert less[n] == held[m] && held[m] != held[k];
      LiveSurvivesFree(rd, ts, i, held[m]);
    }
  }

  lemma {:induction false} LiveSurvivesGrowth(rd: Reading, ts: seq<Tile>, hi: nat, nu: nat, n: nat, p: nat)
    requires LiveAt(ts, p)
    ensures LiveAt(GrowTimes(rd, ts, hi, nu, n), p)
    decreases n
  {
    if n > 0 {
      LiveSurvivesGrowth(rd, ts, hi, nu, n - 1, p);
      var row, r := GrowTimes(rd, ts, hi, nu, n - 1), GrowTimes(rd, ts, hi, nu, n);
      GrowthAtEnd(rd, row, EndAfter(hi, nu, n - 1), nu);
      var j: nat :| j < |row| && !row[j].free && row[j].addr + HEADER == p;
      assert r[j] == row[j];
    }
  }

  lemma LiveSurvivesCarve(ts: seq<Tile>, x: nat, sz: nat, p: nat)
    requires x < |ts| && ts[x].free && sz <= ts[x].size && LiveAt(ts, p)
    ensures LiveAt(CarveAt(ts, x, sz), p)
  {
    var j: nat :| j < |ts| && !ts[j].free && ts[j].addr + HEADER == p;
    var k := if j < x || ts[x].size == sz then j else j + 1;
    assert CarveAt(ts, x, sz)[k] == ts[j];
  }

  /** The carved block is live, and was not before. */
  lemma CarvedIsNew(ts: seq<Tile>, x: nat, sz: nat, lo: nat, hi: nat)
    requires Tiled(ts, lo, hi) && x < |ts| && ts[x].free && 8 <= sz <= ts[x].size
    ensures var p := ts[x].End() - sz + HEADER; LiveAt(CarveAt(ts, x, sz), p) && !LiveAt(ts, p)
  {
    hide Tiled, CarveAt, CarvedIndex;
    CarvedLive(ts, x, sz);
    assert CarveAt(ts, x, sz)[CarvedIndex(ts, x, sz)].addr + HEADER == ts[x].End() - sz + HEADER;
    TileFacts(ts, x, lo, hi);
    forall j | 0 <= j < |ts| && !ts[j].free
      ensures ts[j].addr != ts[x].End() - sz
    {
      TileFacts(ts, j, lo, hi);
      if j < x {
        TilesApart(ts, j, x, lo, hi);
      } else {
        TilesApart(ts, x, j, lo, hi);
      }
    }
  }

  lemma HeldAfterAsk(held: seq<Word>, rd: Reading, base: nat, before: Heap, e: Event)
    requires HoldsLive(held, before.tiles) && Sound(rd, before, 0xD0000000) && Possible(rd, base, before, e)
    requires !e.Freed?
    ensures HoldsLive(held, Apply(rd, base, before, e).tiles)
    ensures e.Served? && Answer(rd, base, before, e) < 0x1_0000_0000 ==>
      HoldsLive(held + [Answer(rd, base, before, e)], Apply(rd, base, before, e).tiles)
  {
    hide LiveAt, Tiled, Neat, GrowTimes, EndAfter, CarveAt, GrowthsMiss;
    var g := AfterGrowth(rd, before, e.nu, e.grown);
    GrowthKeepsSound(rd, before, e.nu, e.grown, 0xD0000000);
    forall k | 0 <= k < |held|
      ensures LiveAt(g.tiles, held[k]) && LiveAt(Apply(rd, base, before, e).tiles, held[k])
    {
      LiveSurvivesGrowth(rd, before.tiles, before.end, e.nu, e.grown, held[k]);
      if e.Served? {
        LiveSurvivesCarve(g.tiles, e.block, e.size, held[k]);
      }
    }
    if e.Served? && Answer(rd, base, before, e) < 0x1_0000_0000 {
      CarvedIsNew(g.tiles, e.block, e.size, 0xD0000000, g.end);
      var more := held + [Answer(rd, base, before, e)];
      forall j, k | 0 <= j < k < |more|
        ensures more[j] != more[k]
      {
        assert LiveAt(g.tiles, more[j]);
      }
    }
  }

  lemma RowIsSound(h: KernelHeap)
    requires h.Valid()
    ensures Sound(h.reading, Row(h), 0xD0000000)
  {
    hide KernelHeap.SpaceOk, KernelHeap.Mem, KernelSpace.Valid;
  }
}
