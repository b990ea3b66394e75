/** The kernel heap as a row of blocks: what allocation, freeing and growth do to it. */
module HeapTiles {

  /** A block: its header address, its size with the header, and whether it is on the free list. */
  datatype Tile = Tile(addr: nat, size: nat, free: bool) {
    function End(): nat { addr + size }
  }

  /** What line 68 of kalloc.c leaves of a block must be nothing, or room for a header. */
  predicate LeavesRoom(size: nat, sz: nat) {
    size == sz || size >= sz + 8
  }

  /** The blocks lie side by side from lo to hi, no gap and no overlap, each with room for a header. */
  ghost predicate Tiled(ts: seq<Tile>, lo: nat, hi: nat) {
    if ts == [] then lo == hi
    else
      && ts[0].addr == lo && ts[0].size >= 8
      && Tiled(ts[1..], ts[0].End(), hi)
  }

  /** No two free blocks touch. */
  ghost predicate Coalesced(ts: seq<Tile>) {
    forall i :: 0 <= i < |ts| - 1 ==> !(ts[i].free && ts[i + 1].free)
  }

  ghost function Frees(ts: seq<Tile>): seq<Tile> {
    if ts == [] then []
    else if ts[0].free then [ts[0]] + Frees(ts[1..])
    else Frees(ts[1..])
  }

  /** The free list in address order: the zero-size static header, then the free blocks. */
  ghost function FreeList(ts: seq<Tile>, base: nat): seq<Tile> {
    [Tile(base, 0, true)] + Frees(ts)
  }

  // ----- rows -----

  /** Where block i starts, or where the row ends. */
  ghost function Start(ts: seq<Tile>, i: nat, hi: nat): nat
    requires i <= |ts|
  {
    if i < |ts| then ts[i].addr else hi
  }

  lemma {:induction false} TiledSplit(ts: seq<Tile>, i: nat, lo: nat, hi: nat)
    requires Tiled(ts, lo, hi) && i <= |ts|
    ensures Tiled(ts[..i], lo, Start(ts, i, hi)) && Tiled(ts[i..], Start(ts, i, hi), hi)
    ensures lo <= Start(ts, i, hi) <= hi
    decreases i
  {
    if i == 0 {
      assert ts[..0] == [] && ts[0..] == ts;
      TiledOrdered(ts, lo, hi);
    } else {
      TiledSplit(ts[1..], i - 1, ts[0].End(), hi);
      assert ts[..i][1..] == ts[1..][..i - 1] && ts[i..] == ts[1..][i - 1..];
    }
  }

  lemma {:induction false} TiledOrdered(ts: seq<Tile>, lo: nat, hi: nat)
    requires Tiled(ts, lo, hi)
    ensures lo <= hi && (ts != [] ==> lo < hi && ts[0].addr == lo)
    decreases |ts|
  {
    if ts != [] {
      TiledOrdered(ts[1..], ts[0].End(), hi);
    }
  }

  lemma {:induction false} TiledJoin(a: seq<Tile>, b: seq<Tile>, lo: nat, mid: nat, hi: nat)
    requires Tiled(a, lo, mid) && Tiled(b, mid, hi)
    ensures Tiled(a + b, lo, hi)
    decreases |a|
  {
    if a == [] {
      assert a + b == b;
    } else {
      TiledJoin(a[1..], b, a[0].End(), mid, hi);
      assert (a + b)[1..] == a[1..] + b;
    }
  }

  /** What a block of a row is: in bounds, with room for its header, and followed at once by the next. */
  lemma TileFacts(ts: seq<Tile>, i: nat, lo: nat, hi: nat)
    requires Tiled(ts, lo, hi) && i < |ts|
    ensures lo <= ts[i].addr && ts[i].End() <= hi && ts[i].size >= 8
    ensures ts[i].End() == Start(ts, i + 1, hi)
    ensures Tiled(ts[..i], lo, ts[i].addr) && Tiled(ts[i + 1..], ts[i].End(), hi)
  {
    TiledSplit(ts, i, lo, hi);
    TiledSplit(ts, i + 1, lo, hi);
    assert ts[i..][0] == ts[i] && ts[i..][1..] == ts[i + 1..];
    TiledOrdered(ts[i + 1..], ts[i].End(), hi);
  }

  /** Two blocks of a row do not overlap. */
  lemma TilesApart(ts: seq<Tile>, i: nat, j: nat, lo: nat, hi: nat)
    requires Tiled(ts, lo, hi) && i < j < |ts|
    ensures ts[i].End() <= ts[j].addr
  {
    TileFacts(ts, i, lo, hi);
    TileFacts(ts[i + 1..], j - i - 1, ts[i].End(), hi);
  }

  // ----- free blocks of a row -----

  lemma {:induction false} FreesOfJoin(a: seq<Tile>, b: seq<Tile>)
    ensures Frees(a + b) == Frees(a) + Frees(b)
    decreases |a|
  {
    if a == [] {
      assert a + b == b;
    } else {
      var rest := a[1..] + b;
      FreesOfJoin(a[1..], b);
      assert (a + b)[0] == a[0] && (a + b)[1..] == rest;
      assert [a[0]] + (Frees(a[1..]) + Frees(b)) == [a[0]] + Frees(a[1..]) + Frees(b);
    }
  }

  lemma FreesOne(x: Tile)
    ensures Frees([x]) == if x.free then [x] else []
  {
  }

  lemma FreesHead(ts: seq<Tile>)
    requires ts != []
    ensures Frees(ts) == if ts[0].free then [ts[0]] + Frees(ts[1..]) else Frees(ts[1..])
  {
  }

  lemma Reassociate(a: seq<Tile>, x: Tile, b: seq<Tile>)
    ensures a + ([x] + b) == a + [x] + b
  {
  }

  lemma FreesAround(ts: seq<Tile>, i: nat)
    requires i < |ts|
    ensures Frees(ts) == if ts[i].free
      then Frees(ts[..i]) + [ts[i]] + Frees(ts[i + 1..]) else Frees(ts[..i]) + Frees(ts[i + 1..])
  {
    hide Frees;
    var tail := ts[i..];
    assert ts == ts[..i] + tail && tail[0] == ts[i] && tail[1..] == ts[i + 1..];
    FreesOfJoin(ts[..i], tail);
    FreesHead(tail);
    Reassociate(Frees(ts[..i]), ts[i], Frees(ts[i + 1..]));
  }

  /** Free blocks in increasing address order, all within lo .. hi. */
  ghost predicate InOrder(fs: seq<Tile>, lo: nat, hi: nat) {
    && (forall k :: 0 <= k < |fs| ==> fs[k].free && fs[k].size >= 8 && lo <= fs[k].addr && fs[k].End() <= hi)
    && (forall j, k :: 0 <= j < k < |fs| ==> fs[j].End() <= fs[k].addr)
  }

  lemma InOrderCons(x: Tile, fs: seq<Tile>, lo: nat, hi: nat)
    requires x.free && x.size >= 8 && lo <= x.addr && x.End() <= hi && InOrder(fs, x.End(), hi)
    ensures InOrder([x] + fs, lo, hi)
  {
    var all := [x] + fs;
    assert forall k :: 0 < k < |all| ==> all[k] == fs[k - 1];
  }

  lemma {:induction false} FreesInOrder(ts: seq<Tile>, lo: nat, hi: nat)
    requires Tiled(ts, lo, hi)
    ensures InOrder(Frees(ts), lo, hi)
    decreases |ts|
  {
    if ts != [] {
      FreesInOrder(ts[1..], ts[0].End(), hi);
      TiledOrdered(ts[1..], ts[0].End(), hi);
      if ts[0].free {
        InOrderCons(ts[0], Frees(ts[1..]), lo, hi);
      }
    }
  }

  /** The same, and no two touching. */
  ghost predicate Separated(fs: seq<Tile>, lo: nat, hi: nat) {
    && (forall k :: 0 <= k < |fs| ==> fs[k].free && fs[k].size >= 8 && lo <= fs[k].addr && fs[k].End() <= hi)
    && (forall j, k :: 0 <= j < k < |fs| ==> fs[j].End() < fs[k].addr)
  }

  lemma SeparatedCons(x: Tile, fs: seq<Tile>, lo: nat, mid: nat, hi: nat)
    requires x.free && x.size >= 8 && lo <= x.addr && x.End() < mid && x.End() <= hi && Separated(fs, mid, hi)
    ensures Separated([x] + fs, lo, hi)
  {
    var all := [x] + fs;
    assert forall k :: 0 < k < |all| ==> all[k] == fs[k - 1];
  }

  lemma SeparatedWider(fs: seq<Tile>, lo: nat, mid: nat, hi: nat)
    requires Separated(fs, mid, hi) && lo <= mid
    ensures Separated(fs, lo, hi)
  {
  }

  lemma {:induction false} FreesSeparated(ts: seq<Tile>, lo: nat, hi: nat)
    requires Tiled(ts, lo, hi) && Coalesced(ts)
    ensures Separated(Frees(ts), lo, hi)
    ensures ts != [] && !ts[0].free ==> Separated(Frees(ts), lo + 8, hi)
    decreases |ts|
  {
    hide Separated, Coalesced;
    if ts == [] {
      NoneSeparated(lo, hi);
    } else {
      var rest := ts[1..];
      CoalescedSlice(ts, 1, |ts|);
      assert ts[1..|ts|] == rest;
      FreesSeparated(rest, ts[0].End(), hi);
      TiledOrdered(rest, ts[0].End(), hi);
      if !ts[0].free {
        assert Frees(ts) == Frees(rest);
        SeparatedWider(Frees(rest), lo, ts[0].End(), hi);
        SeparatedWider(Frees(rest), lo + 8, ts[0].End(), hi);
      } else {
        assert Frees(ts) == [ts[0]] + Frees(rest);
        if rest == [] {
          NoneSeparated(ts[0].End() + 8, hi);
        } else {
          NoTwoFree(ts, 0);
        }
        SeparatedCons(ts[0], Frees(rest), lo, ts[0].End() + 8, hi);
      }
    }
  }

  lemma NoneSeparated(lo: nat, hi: nat)
    ensures Separated([], lo, hi)
  {
  }

  lemma NoTwoFree(ts: seq<Tile>, i: nat)
    requires Coalesced(ts) && i + 1 < |ts| && ts[i].free
    ensures !ts[i + 1].free && !ts[1..][i].free
  {
  }

  lemma CoalescedSlice(ts: seq<Tile>, a: nat, b: nat)
    requires Coalesced(ts) && a <= b <= |ts|
    ensures Coalesced(ts[a..b])
  {
    var s := ts[a..b];
    forall k | 0 <= k < |s| - 1
      ensures !(s[k].free && s[k + 1].free)
    {
      assert s[k] == ts[a + k] && s[k + 1] == ts[a + k + 1];
    }
  }

  lemma CoalescedJoin(a: seq<Tile>, b: seq<Tile>)
    requires Coalesced(a) && Coalesced(b)
    requires a != [] && b != [] ==> !(a[|a| - 1].free && b[0].free)
    ensures Coalesced(a + b)
  {
    var s := a + b;
    forall k | 0 <= k < |s| - 1
      ensures !(s[k].free && s[k + 1].free)
    {
      if k < |a| - 1 {
        assert s[k] == a[k] && s[k + 1] == a[k + 1];
      } else if k >= |a| {
        assert s[k] == b[k - |a|] && s[k + 1] == b[k - |a| + 1];
      }
    }
  }

  // ----- the operations -----

  /** Lines 101 and 109 of kalloc.c add a size in bytes to a header pointer, which C scales by eight;
      lines 69 and 136 use the same field as bytes. InBytes takes the two lines as the others read the
      field, AsCompiled as C compiles them. */
  datatype Reading = InBytes | AsCompiled {
    /** How many bytes one unit of size steps in the two lines. */
    function Step(): nat {
      if InBytes? then 1 else 8
    }
  }

  /** What each reading keeps of the row: in bytes, neighbours are merged. */
  ghost predicate Neat(rd: Reading, ts: seq<Tile>) {
    rd.InBytes? ==> Coalesced(ts)
  }

  /** Block i joins the free list. In bytes it merges with its free neighbours; as compiled it merges
      with nothing, unless a scaled test hits (module WrittenFree). */
  ghost function FreedIn(rd: Reading, ts: seq<Tile>, i: nat): seq<Tile>
    requires i < |ts|
  {
    if rd.InBytes? then FreeAt(ts, i) else FreedAlone(ts, i)
  }

  /** Block i on the free list, merged with nothing. */
  ghost function FreedAlone(ts: seq<Tile>, i: nat): seq<Tile>
    requires i < |ts|
  {
    ts[i := Tile(ts[i].addr, ts[i].size, true)]
  }

  /** The row gains nu bytes at its end, as a block that is then freed. */
  ghost function GrownIn(rd: Reading, ts: seq<Tile>, hi: nat, nu: nat): seq<Tile> {
    FreedIn(rd, ts + [Tile(hi, nu, false)], |ts|)
  }

  /** Block i joins the free list, merging with a free block on either side. */
  ghost function FreeAt(ts: seq<Tile>, i: nat): seq<Tile>
    requires i < |ts|
  {
    ts[..MergeFrom(ts, i)] + [Merged(ts, i)] + ts[MergeTo(ts, i)..]
  }

  ghost function Merged(ts: seq<Tile>, i: nat): Tile
    requires i < |ts|
  {
    var left := i > 0 && ts[i - 1].free;
    var right := i + 1 < |ts| && ts[i + 1].free;
    Tile(if left then ts[i - 1].addr else ts[i].addr,
         (if left then ts[i - 1].size else 0) + ts[i].size + (if right then ts[i + 1].size else 0), true)
  }

  /** Free block i gives sz bytes to a live block: all of it, or its tail. */
  ghost function CarveAt(ts: seq<Tile>, i: nat, sz: nat): seq<Tile>
    requires i < |ts| && sz <= ts[i].size
  {
    ts[..i] + Carved(ts[i], sz) + ts[i + 1..]
  }

  lemma TiledOne(t: Tile)
    requires t.size >= 8
    ensures Tiled([t], t.addr, t.End())
  {
  }

  /** The stretch of the row that freeing block i turns into one block. */
  ghost function MergeFrom(ts: seq<Tile>, i: nat): (a: nat)
    requires i < |ts|
    ensures a <= i
  {
    if i > 0 && ts[i - 1].free then i - 1 else i
  }

  ghost function MergeTo(ts: seq<Tile>, i: nat): (b: nat)
    requires i < |ts|
    ensures i < b <= |ts|
  {
    if i + 1 < |ts| && ts[i + 1].free then i + 2 else i + 1
  }

  lemma MergedCovers(ts: seq<Tile>, i: nat, lo: nat, hi: nat)
    requires Tiled(ts, lo, hi) && i < |ts|
    ensures var m, a, b := Merged(ts, i), MergeFrom(ts, i), MergeTo(ts, i);
      && Tiled(ts[..a], lo, m.addr) && Tiled([m], m.addr, m.End()) && Tiled(ts[b..], m.End(), hi)
  {
    hide Tiled;
    var a, b := MergeFrom(ts, i), MergeTo(ts, i);
    TileFacts(ts, i, lo, hi);
    if a < i {
      TileFacts(ts, a, lo, hi);
    }
    if b > i + 1 {
      TileFacts(ts, i + 1, lo, hi);
    }
    TiledOne(Merged(ts, i));
  }

  lemma FreeKeepsTiling(ts: seq<Tile>, i: nat, lo: nat, hi: nat)
    requires Tiled(ts, lo, hi) && Coalesced(ts) && i < |ts| && !ts[i].free
    ensures Tiled(FreeAt(ts, i), lo, hi) && Coalesced(FreeAt(ts, i))
  {
    hide Tiled;
    var m, a, b := Merged(ts, i), MergeFrom(ts, i), MergeTo(ts, i);
    MergedCovers(ts, i, lo, hi);
    TiledJoin(ts[..a], [m], lo, m.addr, m.End());
    TiledJoin(ts[..a] + [m], ts[b..], lo, m.End(), hi);
    CoalescedSlice(ts, 0, a);
    CoalescedSlice(ts, b, |ts|);
    CoalescedJoin(ts[..a], [m]);
    CoalescedJoin(ts[..a] + [m], ts[b..]);
  }

  /** What carving puts in the place of block t. */
  ghost function Carved(t: Tile, sz: nat): seq<Tile>
    requires sz <= t.size
  {
    if t.size == sz then [Tile(t.addr, sz, false)]
    else [Tile(t.addr, t.size - sz, true), Tile(t.End() - sz, sz, false)]
  }

  lemma CarvedCovers(t: Tile, sz: nat)
    requires 8 <= sz <= t.size && LeavesRoom(t.size, sz)
    ensures Tiled(Carved(t, sz), t.addr, t.End()) && Coalesced(Carved(t, sz))
  {
    hide Tiled;
    if t.size == sz {
      TiledOne(Carved(t, sz)[0]);
    } else {
      var head, tail := Carved(t, sz)[0], Carved(t, sz)[1];
      TiledOne(head);
      TiledOne(tail);
      TiledJoin([head], [tail], t.addr, tail.addr, t.End());
      assert Carved(t, sz) == [head] + [tail];
    }
  }

  /** Carving any number of bytes, aligned or not, keeps the row tiled with room for every header
      exactly when it leaves nothing of the block, or at least a header. */
  lemma CarveKeepsTiling(ts: seq<Tile>, i: nat, sz: nat, lo: nat, hi: nat)
    requires Tiled(ts, lo, hi) && i < |ts| && ts[i].free && 8 <= sz <= ts[i].size
    ensures Tiled(CarveAt(ts, i, sz), lo, hi) <==> LeavesRoom(ts[i].size, sz)
  {
    hide Tiled, Carved;
    TileFacts(ts, i, lo, hi);
    CarvedEnds(ts[i], sz);
    var mid := Carved(ts[i], sz);
    if LeavesRoom(ts[i].size, sz) {
      CarvedCovers(ts[i], sz);
      TiledJoin(ts[..i], mid, lo, ts[i].addr, ts[i].End());
      TiledJoin(ts[..i] + mid, ts[i + 1..], lo, ts[i].End(), hi);
    } else if Tiled(CarveAt(ts, i, sz), lo, hi) {
      TileFacts(CarveAt(ts, i, sz), i, lo, hi);
    }
  }

  lemma CarveKeepsCoalesced(ts: seq<Tile>, i: nat, sz: nat)
    requires Coalesced(ts) && i < |ts| && ts[i].free && sz <= ts[i].size
    ensures Coalesced(CarveAt(ts, i, sz))
  {
    hide Carved;
    CarvedEnds(ts[i], sz);
    var mid := Carved(ts[i], sz);
    CoalescedSlice(ts, 0, i);
    CoalescedSlice(ts, i + 1, |ts|);
    assert ts[i + 1..|ts|] == ts[i + 1..];
    CoalescedJoin(ts[..i], mid);
    CoalescedJoin(ts[..i] + mid, ts[i + 1..]);
  }

  lemma CarveKeepsNeat(rd: Reading, ts: seq<Tile>, i: nat, sz: nat)
    requires Neat(rd, ts) && i < |ts| && ts[i].free && sz <= ts[i].size
    ensures Neat(rd, CarveAt(ts, i, sz))
  {
    hide CarveAt, Coalesced;
    if rd.InBytes? {
      CarveKeepsCoalesced(ts, i, sz);
    }
  }

  lemma CarvedEnds(t: Tile, sz: nat)
    requires sz <= t.size
    ensures var mid := Carved(t, sz);
      && mid != [] && !mid[|mid| - 1].free && (t.free || t.size == sz || mid[0].free) && Coalesced(mid)
      && mid[0].size == if t.size == sz then sz else t.size - sz
  {
  }

  lemma FreedAloneKeepsTiling(ts: seq<Tile>, i: nat, lo: nat, hi: nat)
    requires Tiled(ts, lo, hi) && i < |ts|
    ensures Tiled(FreedAlone(ts, i), lo, hi)
  {
    hide Tiled;
    var t := Tile(ts[i].addr, ts[i].size, true);
    TileFacts(ts, i, lo, hi);
    TiledOne(t);
    TiledJoin(ts[..i], [t], lo, t.addr, t.End());
    TiledJoin(ts[..i] + [t], ts[i + 1..], lo, t.End(), hi);
    assert FreedAlone(ts, i) == ts[..i] + [t] + ts[i + 1..];
  }

  lemma FreedKeepsTiling(rd: Reading, ts: seq<Tile>, i: nat, lo: nat, hi: nat)
    requires Tiled(ts, lo, hi) && Neat(rd, ts) && i < |ts| && !ts[i].free
    ensures Tiled(FreedIn(rd, ts, i), lo, hi) && Neat(rd, FreedIn(rd, ts, i))
  {
    hide Tiled, Coalesced, FreeAt, FreedAlone;
    if rd.InBytes? {
      FreeKeepsTiling(ts, i, lo, hi);
    } else {
      FreedAloneKeepsTiling(ts, i, lo, hi);
    }
  }

  lemma AppendKeepsTiling(rd: Reading, ts: seq<Tile>, lo: nat, hi: nat, nu: nat)
    requires Tiled(ts, lo, hi) && Neat(rd, ts) && nu >= 8
    ensures Tiled(ts + [Tile(hi, nu, false)], lo, hi + nu) && Neat(rd, ts + [Tile(hi, nu, false)])
  {
    hide Tiled;
    TiledOne(Tile(hi, nu, false));
    TiledJoin(ts, [Tile(hi, nu, false)], lo, hi, hi + nu);
  }

  lemma GrowKeepsTiling(rd: Reading, ts: seq<Tile>, lo: nat, hi: nat, nu: nat)
    requires Tiled(ts, lo, hi) && Neat(rd, ts) && nu >= 8
    ensures Tiled(GrownIn(rd, ts, hi, nu), lo, hi + nu) && Neat(rd, GrownIn(rd, ts, hi, nu))
  {
    hide Tiled, Coalesced, FreedIn;
    AppendKeepsTiling(rd, ts, lo, hi, nu);
    FreedKeepsTiling(rd, ts + [Tile(hi, nu, false)], |ts|, lo, hi + nu);
  }

  /** Carving a block out and freeing it again restores the row, so the free list too. */
  lemma FreeUndoesCarve(ts: seq<Tile>, i: nat, sz: nat, lo: nat, hi: nat)
    requires Tiled(ts, lo, hi) && Coalesced(ts) && i < |ts| && ts[i].free
    requires 8 <= sz <= ts[i].size
    ensures var r := CarveAt(ts, i, sz);
            var j := if ts[i].size == sz then i else i + 1;
      !r[j].free && r[j].size == sz && FreeAt(r, j) == ts
  {
    var r := CarveAt(ts, i, sz);
    assert i > 0 ==> !ts[i - 1].free;
    assert i + 1 < |ts| ==> !ts[i + 1].free;
    if ts[i].size == sz {
      assert FreeAt(r, i) == ts[..i] + [ts[i]] + ts[i + 1..];
    } else {
      var mid := Carved(ts[i], sz);
      assert r[i] == mid[0] && r[i + 1] == mid[1] && (i + 2 < |r| ==> r[i + 2] == ts[i + 1]);
      assert MergeFrom(r, i + 1) == i && MergeTo(r, i + 1) == i + 2 && Merged(r, i + 1) == ts[i];
      assert r[..i] == ts[..i] && r[i + 2..] == ts[i + 1..];
      assert ts == ts[..i] + [ts[i]] + ts[i + 1..];
    }
  }
}
