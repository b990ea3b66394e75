/** The free list: its place in the row of blocks, and its headers in memory. */
module HeapLists {
  import opened Paging
  import opened HeapTiles
  import opened ByteMemory

  // ----- the list and the row -----

  /** How many free-list members lie before block i: the static header and the free blocks. */
  ghost function ListIndex(ts: seq<Tile>, i: nat): nat
    requires i <= |ts|
  {
    |Frees(ts[..i])|
  }

  /** Headers in address order, room for a header between any two. */
  ghost predicate Spaced(fl: seq<Tile>) {
    forall j, k :: 0 <= j < k < |fl| ==> fl[j].addr + 8 <= fl[k].addr
  }

  /** Address a lies strictly between member k and its successor in circular order. */
  ghost predicate IsPred(fl: seq<Tile>, a: nat, k: nat) {
    && k < |fl|
    && (if k + 1 < |fl| then fl[k].addr < a < fl[k + 1].addr else fl[k].addr < a || a < fl[0].addr)
  }

  lemma {:induction false} PredExists(fl: seq<Tile>, a: nat) returns (k: nat)
    requires Spaced(fl) && fl != [] && forall j :: 0 <= j < |fl| ==> fl[j].addr != a
    ensures IsPred(fl, a, k)
  {
    if a < fl[0].addr {
      return |fl| - 1;
    }
    k := 0;
    while k + 1 < |fl| && fl[k + 1].addr < a
      invariant k < |fl| && fl[k].addr < a
    {
      k := k + 1;
    }
  }

  lemma PredUnique(fl: seq<Tile>, a: nat, j: nat, k: nat)
    requires Spaced(fl) && IsPred(fl, a, j) && IsPred(fl, a, k)
    ensures j == k
  {
  }

  /** The member after k in circular order. */
  ghost function Succ(fl: seq<Tile>, k: nat): nat
    requires k < |fl|
  {
    if k + 1 < |fl| then fl[k + 1].addr else fl[0].addr
  }

  /** The test in kernel_free's search: it holds at the predecessor and nowhere else. */
  predicate StopsBetween(hdr: nat, next: nat, blk: nat) {
    (blk > hdr && blk < next) || (hdr >= next && (blk > hdr || blk < next))
  }

  lemma SearchStopsAtPred(fl: seq<Tile>, blk: nat, c: nat, k: nat)
    requires Spaced(fl) && IsPred(fl, blk, k) && c < |fl|
    ensures StopsBetween(fl[c].addr, Succ(fl, c), blk) <==> c == k
  {
    if c + 1 < |fl| {
      assert fl[c].addr < fl[c + 1].addr;
    } else {
      assert fl[0].addr <= fl[c].addr;
    }
    if StopsBetween(fl[c].addr, Succ(fl, c), blk) {
      PredUnique(fl, blk, c, k);
    }
  }

  /** The list of any tiled row is in address order from the static header, with room for headers. */
  lemma FreeListInOrder(ts: seq<Tile>, base: nat, lo: nat, hi: nat)
    requires Tiled(ts, lo, hi) && base + 8 <= lo
    ensures Spaced(FreeList(ts, base)) && InOrder(Frees(ts), lo, hi)
    ensures forall k :: 0 < k < |FreeList(ts, base)| ==> FreeList(ts, base)[k] == Frees(ts)[k - 1]
  {
    FreesInOrder(ts, lo, hi);
  }

  /** The list of a coalesced row: no two members touch. */
  lemma FreeListSpaced(ts: seq<Tile>, base: nat, lo: nat, hi: nat)
    requires Tiled(ts, lo, hi) && Coalesced(ts) && base + 8 <= lo
    ensures Spaced(FreeList(ts, base)) && Separated(Frees(ts), lo, hi)
    ensures forall k :: 0 < k < |FreeList(ts, base)| ==> FreeList(ts, base)[k] == Frees(ts)[k - 1]
    ensures forall j, k :: 0 <= j < k < |FreeList(ts, base)| ==>
      FreeList(ts, base)[j].End() < FreeList(ts, base)[k].addr
  {
    FreesSeparated(ts, lo, hi);
  }

  /** A block before i that is on the list ends before block i starts, and touches it only when
      it is block i - 1. */
  lemma FreesBefore(ts: seq<Tile>, i: nat, lo: nat, hi: nat)
    requires Tiled(ts, lo, hi) && Coalesced(ts) && i < |ts|
    ensures var fs := Frees(ts[..i]);
      && Separated(fs, lo, ts[i].addr)
      && (if i > 0 && ts[i - 1].free
          then fs != [] && fs[|fs| - 1] == ts[i - 1] && fs == Frees(ts[..i - 1]) + [ts[i - 1]]
            && ts[i - 1].End() == ts[i].addr
          else forall k :: 0 <= k < |fs| ==> fs[k].End() < ts[i].addr)
  {
    hide Tiled, Frees, Coalesced;
    TileFacts(ts, i, lo, hi);
    CoalescedSlice(ts, 0, i);
    assert ts[0..i] == ts[..i];
    FreesSeparated(ts[..i], lo, ts[i].addr);
    if i > 0 {
      TileFacts(ts, i - 1, lo, hi);
      FreesAround(ts[..i], i - 1);
      assert ts[..i][..i - 1] == ts[..i - 1] && ts[..i][i..] == [];
      NoFrees();
      if !ts[i - 1].free {
        CoalescedSlice(ts, 0, i - 1);
        assert ts[0..i - 1] == ts[..i - 1];
        FreesSeparated(ts[..i - 1], lo, ts[i - 1].addr);
        assert Frees(ts[..i]) == Frees(ts[..i - 1]);
      }
    } else {
      assert ts[..0] == [];
      NoFrees();
    }
  }

  lemma NoFrees()
    ensures Frees([]) == []
  {
  }

  lemma FreesAfter(ts: seq<Tile>, i: nat, lo: nat, hi: nat)
    requires Tiled(ts, lo, hi) && Coalesced(ts) && i < |ts|
    ensures var fs := Frees(ts[i + 1..]);
      && Separated(fs, ts[i].End(), hi)
      && (if i + 1 < |ts| && ts[i + 1].free
          then fs == [ts[i + 1]] + Frees(ts[i + 2..]) && ts[i].End() == ts[i + 1].addr
          else forall k :: 0 <= k < |fs| ==> ts[i].End() < fs[k].addr)
  {
    hide Tiled, Frees, Coalesced;
    TileFacts(ts, i, lo, hi);
    CoalescedSlice(ts, i + 1, |ts|);
    assert ts[i + 1..|ts|] == ts[i + 1..];
    FreesSeparated(ts[i + 1..], ts[i].End(), hi);
    if i + 1 < |ts| {
      FreesHead(ts[i + 1..]);
      assert ts[i + 1..][1..] == ts[i + 2..];
    } else {
      NoFrees();
    }
  }

  /** The list around a live block: the members before it, then those after it. */
  lemma ListAround(fl: seq<Tile>, b: Tile, head: seq<Tile>, tail: seq<Tile>, a: nat)
    requires fl == [b] + head + tail && b.addr + 8 <= a
    requires forall k :: 0 <= k < |head| ==> head[k].addr + 8 <= a
    requires forall k :: 0 <= k < |tail| ==> a + 8 <= tail[k].addr
    ensures IsPred(fl, a, |head|)
    ensures forall j :: 0 <= j <= |head| ==> fl[j].addr + 8 <= a
    ensures forall j :: |head| < j < |fl| ==> a + 8 <= fl[j].addr
  {
    assert forall j :: 0 < j <= |head| ==> fl[j] == head[j - 1];
    assert forall j :: |head| < j < |fl| ==> fl[j] == tail[j - |head| - 1];
  }

  /** A live block's predecessor on the list is the last member before it. */
  lemma LiveBlockPred(ts: seq<Tile>, i: nat, base: nat, lo: nat, hi: nat)
    requires Tiled(ts, lo, hi) && base + 8 <= lo && i < |ts| && !ts[i].free
    ensures IsPred(FreeList(ts, base), ts[i].addr, ListIndex(ts, i))
    ensures var fl, k := FreeList(ts, base), ListIndex(ts, i);
      && (forall j :: 0 <= j <= k ==> fl[j].addr + 8 <= ts[i].addr)
      && (forall j :: k < j < |fl| ==> ts[i].addr + 8 <= fl[j].addr)
  {
    hide Tiled, Frees, Coalesced, IsPred;
    FreesAround(ts, i);
    TileFacts(ts, i, lo, hi);
    var head, tail := Frees(ts[..i]), Frees(ts[i + 1..]);
    FreesInOrder(ts[..i], lo, ts[i].addr);
    FreesInOrder(ts[i + 1..], ts[i].End(), hi);
    assert FreeList(ts, base) == [Tile(base, 0, true)] + head + tail;
    ListAround(FreeList(ts, base), Tile(base, 0, true), head, tail, ts[i].addr);
  }

  /** What kernel_free makes of the list in the byte reading: block b goes in after member k, merging
      where it touches. */
  ghost function ListAfterFree(fl: seq<Tile>, k: nat, b: Tile): seq<Tile>
    requires k < |fl|
  {
    var b1 := Tile(b.addr, b.size + (if TouchesNext(fl, k, b) then fl[k + 1].size else 0), true);
    var rest := if TouchesNext(fl, k, b) then fl[k + 2..] else fl[k + 1..];
    if fl[k].End() == b.addr then fl[..k] + [Tile(fl[k].addr, fl[k].size + b1.size, true)] + rest
    else fl[..k + 1] + [b1] + rest
  }

  ghost predicate TouchesNext(fl: seq<Tile>, k: nat, b: Tile) {
    k + 1 < |fl| && b.End() == fl[k + 1].addr
  }

  lemma ListAfterFreeInPieces(fl: seq<Tile>, b: Tile, head: seq<Tile>, tail: seq<Tile>, t: Tile)
    requires fl == [b] + head + tail && b.End() != t.addr
    ensures var left := head != [] && head[|head| - 1].End() == t.addr;
            var right := tail != [] && t.End() == tail[0].addr;
      ListAfterFree(fl, |head|, t) ==
      [b] + ((if left then head[..|head| - 1] else head)
             + [MergedMembers(head, tail, t)]
             + (if right then tail[1..] else tail))
  {
    var k := |head|;
    assert fl[k] == if head == [] then b else head[k - 1];
    assert fl[..k + 1] == [b] + head && fl[k + 1..] == tail;
    if head != [] {
      assert fl[..k] == [b] + head[..k - 1];
    }
    if tail != [] {
      assert fl[k + 1] == tail[0] && fl[k + 2..] == tail[1..];
    }
  }

  lemma FreesOfFreed(ts: seq<Tile>, i: nat)
    requires i < |ts|
    ensures Frees(FreeAt(ts, i)) == Frees(ts[..MergeFrom(ts, i)]) + [Merged(ts, i)] + Frees(ts[MergeTo(ts, i)..])
  {
    hide Frees, Merged;
    var a, b, m := MergeFrom(ts, i), MergeTo(ts, i), Merged(ts, i);
    FreesOfJoin(ts[..a] + [m], ts[b..]);
    FreesOfJoin(ts[..a], [m]);
    MergedIsFree(ts, i);
    FreesOne(m);
  }

  lemma MergedIsFree(ts: seq<Tile>, i: nat)
    requires i < |ts|
    ensures Merged(ts, i).free
  {
  }

  /** The members that block i touches are exactly its free neighbours in the row. */
  lemma TouchingMembers(ts: seq<Tile>, i: nat, lo: nat, hi: nat)
    requires Tiled(ts, lo, hi) && Coalesced(ts) && i < |ts| && !ts[i].free
    ensures var head, tail := Frees(ts[..i]), Frees(ts[i + 1..]);
            var left := head != [] && head[|head| - 1].End() == ts[i].addr;
            var right := tail != [] && ts[i].End() == tail[0].addr;
      && left == (i > 0 && ts[i - 1].free) && right == (i + 1 < |ts| && ts[i + 1].free)
      && (left ==> head[|head| - 1] == ts[i - 1]) && (right ==> tail[0] == ts[i + 1])
      && Frees(ts[..MergeFrom(ts, i)]) == (if left then head[..|head| - 1] else head)
      && Frees(ts[MergeTo(ts, i)..]) == (if right then tail[1..] else tail)
      && lo <= ts[i].addr
  {
    hide Tiled, Frees, Coalesced, Separated;
    FreesBefore(ts, i, lo, hi);
    FreesAfter(ts, i, lo, hi);
    TileFacts(ts, i, lo, hi);
    var head, tail := Frees(ts[..i]), Frees(ts[i + 1..]);
    if i > 0 && ts[i - 1].free {
      assert head[..|head| - 1] == Frees(ts[..i - 1]);
    }
    if i + 1 < |ts| && ts[i + 1].free {
      assert tail[1..] == Frees(ts[i + 2..]);
    }
  }

  /** The merged block, as the touching members make it. */
  ghost function MergedMembers(head: seq<Tile>, tail: seq<Tile>, t: Tile): Tile {
    var left := head != [] && head[|head| - 1].End() == t.addr;
    var right := tail != [] && t.End() == tail[0].addr;
    Tile(if left then head[|head| - 1].addr else t.addr,
         (if left then head[|head| - 1].size else 0) + t.size + (if right then tail[0].size else 0), true)
  }

  lemma MergedIsMembers(ts: seq<Tile>, i: nat, lo: nat, hi: nat)
    requires Tiled(ts, lo, hi) && Coalesced(ts) && i < |ts| && !ts[i].free
    ensures Merged(ts, i) == MergedMembers(Frees(ts[..i]), Frees(ts[i + 1..]), ts[i])
  {
    hide Tiled, Frees, Coalesced, Separated;
    TouchingMembers(ts, i, lo, hi);
  }

  lemma FreeListAfterFree(ts: seq<Tile>, i: nat, base: nat, lo: nat, hi: nat)
    requires Tiled(ts, lo, hi) && Coalesced(ts) && base + 8 <= lo && i < |ts| && !ts[i].free
    ensures ListIndex(ts, i) < |FreeList(ts, base)|
    ensures FreeList(FreeAt(ts, i), base) == ListAfterFree(FreeList(ts, base), ListIndex(ts, i), ts[i])
  {
    hide Tiled, Frees, Coalesced, ListAfterFree, Separated, FreeAt, MergeFrom, MergeTo, Merged, MergedMembers;
    TouchingMembers(ts, i, lo, hi);
    MergedIsMembers(ts, i, lo, hi);
    FreesAround(ts, i);
    FreesOfFreed(ts, i);
    var head, tail, z := Frees(ts[..i]), Frees(ts[i + 1..]), Tile(base, 0, true);
    var left, right := head != [] && head[|head| - 1].End() == ts[i].addr, tail != [] && ts[i].End() == tail[0].addr;
    assert FreeList(ts, base) == [z] + head + tail;
    ListAfterFreeInPieces(FreeList(ts, base), z, head, tail, ts[i]);
    assert Frees(FreeAt(ts, i)) == (if left then head[..|head| - 1] else head)
                                   + [MergedMembers(head, tail, ts[i])] + (if right then tail[1..] else tail);
  }

  /** What taking sz bytes from member k makes of the list. */
  ghost function ListAfterCarve(fl: seq<Tile>, k: nat, sz: nat): seq<Tile>
    requires k < |fl| && sz <= fl[k].size
  {
    if fl[k].size == sz then fl[..k] + fl[k + 1..]
    else fl[k := Tile(fl[k].addr, fl[k].size - sz, true)]
  }

  lemma FreeListAfterCarve(ts: seq<Tile>, i: nat, sz: nat, base: nat)
    requires i < |ts| && ts[i].free && sz <= ts[i].size
    ensures var fl, k := FreeList(ts, base), ListIndex(ts, i) + 1;
      && k < |fl| && fl[k] == ts[i]
      && FreeList(CarveAt(ts, i, sz), base) == ListAfterCarve(fl, k, sz)
  {
    hide Frees, Carved;
    FreesAround(ts, i);
    FreesOfCarved(ts[i], sz);
    var mid, rest := Carved(ts[i], sz), Tile(ts[i].addr, ts[i].size - sz, true);
    FreesOfJoin(ts[..i] + mid, ts[i + 1..]);
    FreesOfJoin(ts[..i], mid);
    var head, tail, z := Frees(ts[..i]), Frees(ts[i + 1..]), Tile(base, 0, true);
    Swapped([z] + head, ts[i], tail, rest);
    assert FreeList(ts, base) == [z] + head + [ts[i]] + tail;
    if ts[i].size == sz {
      assert FreeList(CarveAt(ts, i, sz), base) == [z] + head + tail;
    } else {
      assert FreeList(CarveAt(ts, i, sz), base) == [z] + head + [rest] + tail;
    }
  }

  lemma Swapped(a: seq<Tile>, x: Tile, b: seq<Tile>, y: Tile)
    ensures var s := a + [x] + b; s[|a|] == x && s[..|a|] + s[|a| + 1..] == a + b && s[|a| := y] == a + [y] + b
  {
  }

  lemma FreesOfCarved(t: Tile, sz: nat)
    requires sz <= t.size
    ensures Frees(Carved(t, sz)) == if t.size == sz then [] else [Tile(t.addr, t.size - sz, true)]
  {
    if t.size != sz {
      var c := Carved(t, sz);
      FreesHead(c);
      assert c[1..] == [c[1]];
      FreesOne(c[1]);
    }
  }

  /** Every list member after the static header is a free block of the row. */
  lemma {:induction false} BlockOfMember(ts: seq<Tile>, k: nat) returns (i: nat)
    requires k < |Frees(ts)|
    ensures i < |ts| && ts[i].free && ts[i] == Frees(ts)[k] && ListIndex(ts, i) == k
    decreases |ts|
  {
    FreesHead(ts);
    if ts[0].free && k == 0 {
      i := 0;
      assert ts[..0] == [];
    } else {
      var j := BlockOfMember(ts[1..], if ts[0].free then k - 1 else k);
      i := j + 1;
      assert ts[..i][0] == ts[0] && ts[..i][1..] == ts[1..][..j];
      FreesHead(ts[..i]);
    }
  }

  // ----- the list in memory -----

  /** A header: the link at a, the size four bytes on. */
  ghost predicate HeaderAt(m: Mem, a: nat, next: nat, size: nat) {
    HasWord(m, a) && HasWord(m, a + 4) && WordAt(m, a) == next && WordAt(m, a + 4) == size
  }

  /** Room for a header, with its size filled in. */
  ghost predicate SizeAt(m: Mem, a: nat, size: nat) {
    HasWord(m, a) && HasWord(m, a + 4) && WordAt(m, a + 4) == size
  }

  /** Memory holds the list as one circle. */
  ghost predicate Linked(m: Mem, fl: seq<Tile>) {
    forall k :: 0 <= k < |fl| ==> HeaderAt(m, fl[k].addr, Succ(fl, k), fl[k].size)
  }

  lemma LinkedAt(m: Mem, fl: seq<Tile>, k: nat)
    requires Linked(m, fl) && k < |fl|
    ensures HeaderAt(m, fl[k].addr, Succ(fl, k), fl[k].size)
    ensures Succ(fl, k) == if k + 1 < |fl| then fl[k + 1].addr else fl[0].addr
  {
  }

  /** As Linked, but member k's link is not relied on. */
  ghost predicate LinkedBut(m: Mem, fl: seq<Tile>, k: nat) {
    && (forall j :: 0 <= j < |fl| && j != k ==> HeaderAt(m, fl[j].addr, Succ(fl, j), fl[j].size))
    && k < |fl| && HasWord(m, fl[k].addr) && HasWord(m, fl[k].addr + 4) && WordAt(m, fl[k].addr + 4) == fl[k].size
  }

  /** Address b lies between members k and k + 1, with room for headers. */
  ghost predicate FitsAfter(fl: seq<Tile>, k: nat, b: nat) {
    && k < |fl|
    && (forall j :: 0 <= j <= k ==> fl[j].addr + 8 <= b)
    && (forall j :: k < j < |fl| ==> b + 8 <= fl[j].addr)
  }

  /** A header is unchanged by a word written outside it. */
  lemma HeaderElsewhere(m: Mem, a: nat, w: Word, h: nat, next: nat, size: nat)
    requires HeaderAt(m, h, next, size) && (h + 8 <= a || a + 4 <= h)
    ensures HeaderAt(PutWord(m, a, w), h, next, size)
  {
    hide PutWord, WordAt, HasWord;
    WordsAfterPut(m, a, w);
  }

  lemma HeaderSet(m: Mem, a: nat, w: Word, next: nat, size: nat)
    requires HeaderAt(m, a, next, size)
    ensures HeaderAt(PutWord(m, a, w), a, w, size) && HeaderAt(PutWord(m, a + 4, w), a, next, w)
  {
    hide PutWord, WordAt, HasWord;
    WordsAfterPut(m, a, w);
    WordsAfterPut(m, a + 4, w);
  }

  lemma HeaderLinked(m: Mem, a: nat, w: Word, size: nat)
    requires HasWord(m, a) && HasWord(m, a + 4) && WordAt(m, a + 4) == size
    ensures HeaderAt(PutWord(m, a, w), a, w, size)
  {
    hide PutWord, WordAt, HasWord;
    WordsAfterPut(m, a, w);
  }

  /** Writing b's own header leaves every list header as it was. */
  lemma LinkedIgnoresOutside(m: Mem, fl: seq<Tile>, k: nat, b: nat, w: Word)
    requires Linked(m, fl) && FitsAfter(fl, k, b)
    ensures Linked(PutWord(m, b, w), fl) && Linked(PutWord(m, b + 4, w), fl)
  {
    hide PutWord, WordAt, HasWord, HeaderAt;
    forall j | 0 <= j < |fl|
      ensures HeaderAt(PutWord(m, b, w), fl[j].addr, Succ(fl, j), fl[j].size)
      ensures HeaderAt(PutWord(m, b + 4, w), fl[j].addr, Succ(fl, j), fl[j].size)
    {
      assert j <= k || k < j;
      HeaderElsewhere(m, b, w, fl[j].addr, Succ(fl, j), fl[j].size);
      HeaderElsewhere(m, b + 4, w, fl[j].addr, Succ(fl, j), fl[j].size);
    }
  }

  /** Four small steps on a list in memory: drop a member, add one, set a link, set a size. */
  lemma DropMember(m: Mem, fl: seq<Tile>, k: nat)
    requires Linked(m, fl) && 0 < k < |fl|
    ensures LinkedBut(m, fl[..k] + fl[k + 1..], k - 1)
    ensures Succ(fl[..k] + fl[k + 1..], k - 1) == Succ(fl, k)
  {
    hide HeaderAt, Succ;
    var less := fl[..k] + fl[k + 1..];
    forall j: nat | j < |less| && j != k - 1
      ensures HeaderAt(m, less[j].addr, Succ(less, j), less[j].size)
    {
      SuccAfterDrop(fl, k, j);
      var i := if j < k then j else j + 1;
      assert HeaderAt(m, fl[i].addr, Succ(fl, i), fl[i].size);
    }
    SuccAfterDrop(fl, k, k - 1);
    assert HeaderAt(m, fl[k - 1].addr, Succ(fl, k - 1), fl[k - 1].size);
    HeaderParts(m, fl[k - 1].addr, Succ(fl, k - 1), fl[k - 1].size);
  }

  lemma SuccAfterDrop(fl: seq<Tile>, k: nat, j: nat)
    requires 0 < k < |fl| && j < |fl| - 1
    ensures var less, i := fl[..k] + fl[k + 1..], if j < k then j else j + 1;
      less[j] == fl[i] && Succ(less, j) == Succ(fl, if j == k - 1 then k else i)
  {
  }

  /** The same for the first member: the circle then starts at the second. */
  lemma DropFirst(m: Mem, fl: seq<Tile>)
    requires Linked(m, fl) && |fl| > 1
    ensures LinkedBut(m, fl[1..], |fl| - 2)
    ensures Succ(fl[1..], |fl| - 2) == fl[1].addr
  {
    hide HeaderAt;
    var less := fl[1..];
    forall j | 0 <= j < |less| && j != |fl| - 2
      ensures HeaderAt(m, less[j].addr, Succ(less, j), less[j].size)
    {
      assert HeaderAt(m, fl[j + 1].addr, Succ(fl, j + 1), fl[j + 1].size);
    }
    assert HeaderAt(m, fl[|fl| - 1].addr, Succ(fl, |fl| - 1), fl[|fl| - 1].size);
    HeaderParts(m, fl[|fl| - 1].addr, Succ(fl, |fl| - 1), fl[|fl| - 1].size);
  }

  lemma HeaderParts(m: Mem, a: nat, next: nat, size: nat)
    requires HeaderAt(m, a, next, size)
    ensures HasWord(m, a) && HasWord(m, a + 4) && WordAt(m, a) == next && WordAt(m, a + 4) == size
  {
  }

  lemma LinkedIsLinkedBut(m: Mem, fl: seq<Tile>, k: nat)
    requires Linked(m, fl) && k < |fl|
    ensures LinkedBut(m, fl, k)
  {
    hide HeaderAt;
    assert HeaderAt(m, fl[k].addr, Succ(fl, k), fl[k].size);
    HeaderParts(m, fl[k].addr, Succ(fl, k), fl[k].size);
  }

  lemma AddMember(m: Mem, fl: seq<Tile>, k: nat, g: Tile)
    requires LinkedBut(m, fl, k) && HeaderAt(m, g.addr, Succ(fl, k), g.size)
    ensures LinkedBut(m, fl[..k + 1] + [g] + fl[k + 1..], k)
  {
    hide HeaderAt, Succ;
    var more := fl[..k + 1] + [g] + fl[k + 1..];
    SuccAfterAdd(fl, k, g, k);
    assert HasWord(m, fl[k].addr) && HasWord(m, fl[k].addr + 4) && WordAt(m, fl[k].addr + 4) == fl[k].size;
    forall j: nat | j < |more| && j != k
      ensures HeaderAt(m, more[j].addr, Succ(more, j), more[j].size)
    {
      SuccAfterAdd(fl, k, g, j);
      if j != k + 1 {
        var i := if j < k then j else j - 1;
        assert HeaderAt(m, fl[i].addr, Succ(fl, i), fl[i].size);
      }
    }
  }

  lemma SuccAfterAdd(fl: seq<Tile>, k: nat, g: Tile, j: nat)
    requires k < |fl| && j <= |fl|
    ensures var more := fl[..k + 1] + [g] + fl[k + 1..];
      && more[j] == (if j <= k then fl[j] else if j == k + 1 then g else fl[j - 1])
      && (j != k ==> Succ(more, j) == Succ(fl, if j < k then j else j - 1))
  {
  }

  lemma SetLink(m: Mem, fl: seq<Tile>, k: nat, link: Word)
    requires LinkedBut(m, fl, k) && Spaced(fl) && link == Succ(fl, k)
    ensures Linked(PutWord(m, fl[k].addr, link), fl)
  {
    hide PutWord, WordAt, HasWord, HeaderAt, Succ;
    HeaderLinked(m, fl[k].addr, link, fl[k].size);
    forall j | 0 <= j < |fl| && j != k
      ensures HeaderAt(PutWord(m, fl[k].addr, link), fl[j].addr, Succ(fl, j), fl[j].size)
    {
      assert HeaderAt(m, fl[j].addr, Succ(fl, j), fl[j].size);
      assert j < k || k < j;
      HeaderElsewhere(m, fl[k].addr, link, fl[j].addr, Succ(fl, j), fl[j].size);
    }
  }

  lemma SuccOfResized(fl: seq<Tile>, k: nat, size: nat, j: nat)
    requires k < |fl| && j < |fl|
    ensures Succ(fl[k := Tile(fl[k].addr, size, true)], j) == Succ(fl, j)
  {
  }

  lemma SetSize(m: Mem, fl: seq<Tile>, k: nat, size: Word)
    requires LinkedBut(m, fl, k) && Spaced(fl)
    ensures LinkedBut(PutWord(m, fl[k].addr + 4, size), fl[k := Tile(fl[k].addr, size, true)], k)
  {
    hide PutWord, WordAt, HasWord, HeaderAt, Succ;
    var fl1 := fl[k := Tile(fl[k].addr, size, true)];
    WordsAfterPut(m, fl[k].addr + 4, size);
    forall j: nat | j < |fl1| && j != k
      ensures HeaderAt(PutWord(m, fl[k].addr + 4, size), fl1[j].addr, Succ(fl1, j), fl1[j].size)
    {
      SuccOfResized(fl, k, size, j);
      assert HeaderAt(m, fl[j].addr, Succ(fl, j), fl[j].size);
      assert j < k || k < j;
      HeaderElsewhere(m, fl[k].addr + 4, size, fl[j].addr, Succ(fl, j), fl[j].size);
    }
  }

  // ----- freeing in memory -----

  /** The end of a block as lines 101 and 109 compute it, when one unit of size steps `scale` bytes:
      1 in the byte reading, in which the rest of the file uses the field, and 8 as C scales a header
      pointer. Addresses wrap at 32 bits. */
  function EndBy(scale: nat, addr: nat, size: nat): nat {
    (addr + scale * size) % 0x1_0000_0000
  }

  /** The test of line 101, where it has an effect: a lone static header is taken over without one. */
  ghost predicate MergesNext(scale: nat, fl: seq<Tile>, k: nat, b: Tile)
    requires k < |fl|
  {
    |fl| > 1 && EndBy(scale, b.addr, b.size) == Succ(fl, k)
  }

  /** Block b after taking over the size of the member it merges with. */
  ghost function Grown(scale: nat, fl: seq<Tile>, k: nat, b: Tile): Tile
    requires k < |fl|
  {
    var taken := if !MergesNext(scale, fl, k, b) then 0 else if k + 1 < |fl| then fl[k + 1].size else fl[0].size;
    Tile(b.addr, b.size + taken, true)
  }

  /** The list without the member that b took over, and where the predecessor then is. */
  ghost function Rest(scale: nat, fl: seq<Tile>, k: nat, b: Tile): seq<Tile>
    requires k < |fl|
  {
    if !MergesNext(scale, fl, k, b) then fl
    else if k + 1 < |fl| then fl[..k + 1] + fl[k + 2..]
    else fl[1..]
  }

  ghost function RestIndex(scale: nat, fl: seq<Tile>, k: nat, b: Tile): (r: nat)
    requires k < |fl|
    ensures r < |Rest(scale, fl, k, b)| && Rest(scale, fl, k, b)[r] == fl[k]
  {
    if MergesNext(scale, fl, k, b) && k + 1 == |fl| then k - 1 else k
  }

  /** What lines 101-115 make of the list. */
  ghost function ListAfterLines(scale: nat, fl: seq<Tile>, k: nat, b: Tile): seq<Tile>
    requires k < |fl|
  {
    var rest, r, g := Rest(scale, fl, k, b), RestIndex(scale, fl, k, b), Grown(scale, fl, k, b);
    if EndBy(scale, fl[k].addr, fl[k].size) == b.addr then rest[r := Tile(fl[k].addr, fl[k].size + g.size, true)]
    else rest[..r + 1] + [g] + rest[r + 1..]
  }

  /** Memory between line 107 and line 109: the rest of the list, the predecessor's link aside, and b's
      header as it will be linked in. */
  ghost predicate ReadyToLink(m: Mem, scale: nat, fl: seq<Tile>, k: nat, b: Tile)
    requires k < |fl|
  {
    var rest, r := Rest(scale, fl, k, b), RestIndex(scale, fl, k, b);
    LinkedBut(m, rest, r) && HeaderAt(m, b.addr, Succ(rest, r), Grown(scale, fl, k, b).size)
  }

  /** The rest is a list like the one before, with room for b. */
  lemma RestFits(scale: nat, fl: seq<Tile>, k: nat, b: Tile)
    requires Spaced(fl) && FitsAfter(fl, k, b.addr)
    ensures Spaced(Rest(scale, fl, k, b)) && FitsAfter(Rest(scale, fl, k, b), RestIndex(scale, fl, k, b), b.addr)
  {
    hide EndBy;
    var rest := Rest(scale, fl, k, b);
    if MergesNext(scale, fl, k, b) {
      var gone := if k + 1 < |fl| then k + 1 else 0;
      assert |rest| == |fl| - 1;
      assert forall j :: 0 <= j < |rest| ==> rest[j] == if j < gone then fl[j] else fl[j + 1];
    }
  }

  /** Lines 101-107 of kalloc.c: b takes over the next member, or just its link. */
  lemma AfterRightMerge(m: Mem, scale: nat, fl: seq<Tile>, k: nat, b: Tile, size: Word, link: Word)
    requires Linked(m, fl) && FitsAfter(fl, k, b.addr) && HasWord(m, b.addr) && HasWord(m, b.addr + 4)
    requires MergesNext(scale, fl, k, b)
    requires var n := if k + 1 < |fl| then k + 1 else 0; size == b.size + fl[n].size && link == Succ(fl, n)
    ensures var m1 := PutWord(PutWord(m, b.addr + 4, size), b.addr, link);
            var rest, r := Rest(scale, fl, k, b), RestIndex(scale, fl, k, b);
      && LinkedBut(m1, rest, r) && HeaderAt(m1, b.addr, Succ(rest, r), Grown(scale, fl, k, b).size)
  {
    hide PutWord, WordAt, HasWord, Linked, LinkedBut;
    var m0 := PutWord(m, b.addr + 4, size);
    LinkedIgnoresOutside(m, fl, k, b.addr, size);
    LinkedIgnoresOutside(m0, fl, k, b.addr, link);
    WordsAfterPut(m, b.addr + 4, size);
    WordsAfterPut(m0, b.addr, link);
    if k + 1 < |fl| {
      DropMember(PutWord(m0, b.addr, link), fl, k + 1);
    } else {
      DropFirst(PutWord(m0, b.addr, link), fl);
    }
  }

  lemma AfterRightLink(m: Mem, scale: nat, fl: seq<Tile>, k: nat, b: Tile, next: Word)
    requires Linked(m, fl) && FitsAfter(fl, k, b.addr) && !MergesNext(scale, fl, k, b) && next == Succ(fl, k)
    requires HasWord(m, b.addr) && HasWord(m, b.addr + 4) && WordAt(m, b.addr + 4) == b.size
    ensures var m1 := PutWord(m, b.addr, next);
      && LinkedBut(m1, fl, k) && HeaderAt(m1, b.addr, Succ(fl, k), b.size)
  {
    hide PutWord, WordAt, HasWord, Linked, LinkedBut;
    LinkedIgnoresOutside(m, fl, k, b.addr, next);
    WordsAfterPut(m, b.addr, next);
    LinkedIsLinkedBut(PutWord(m, b.addr, next), fl, k);
  }

  /** A lone static header of size 0 taken over: the size and the link are what they would be. */
  lemma AfterLoneMerge(m: Mem, fl: seq<Tile>, b: Tile, link: Word)
    requires Linked(m, fl) && |fl| == 1 && FitsAfter(fl, 0, b.addr) && link == fl[0].addr && fl[0].size == 0
    requires b.size < 0x1_0000_0000
    requires HasWord(m, b.addr) && HasWord(m, b.addr + 4) && WordAt(m, b.addr + 4) == b.size
    ensures var m1 := PutWord(PutWord(m, b.addr + 4, b.size), b.addr, link);
      && LinkedBut(m1, fl, 0) && HeaderAt(m1, b.addr, Succ(fl, 0), b.size)
  {
    hide PutWord, WordAt, HasWord, Linked, LinkedBut;
    var m0 := PutWord(m, b.addr + 4, b.size);
    LinkedIgnoresOutside(m, fl, 0, b.addr, b.size);
    WordsAfterPut(m, b.addr + 4, b.size);
    LinkedIgnoresOutside(m0, fl, 0, b.addr, link);
    WordsAfterPut(m0, b.addr, link);
    LinkedIsLinkedBut(PutWord(m0, b.addr, link), fl, 0);
  }

  /** Lines 109-115: the predecessor takes over g, or links to it. */
  lemma AfterLeftMerge(m: Mem, fl: seq<Tile>, k: nat, g: Tile, size: Word, link: Word)
    requires k < |fl| && LinkedBut(m, fl, k) && Spaced(fl) && size == fl[k].size + g.size && link == Succ(fl, k)
    ensures Linked(PutWord(PutWord(m, fl[k].addr + 4, size), fl[k].addr, link),
                   fl[k := Tile(fl[k].addr, fl[k].size + g.size, true)])
  {
    hide Linked, LinkedBut, PutWord;
    SetSize(m, fl, k, size);
    SuccAfterResize(m, fl, k, size);
    SetLink(PutWord(m, fl[k].addr + 4, size), fl[k := Tile(fl[k].addr, size, true)], k, link);
  }

  lemma SuccAfterResize(m: Mem, fl: seq<Tile>, k: nat, size: nat)
    requires LinkedBut(m, fl, k) && Spaced(fl)
    ensures k < |fl| && Succ(fl[k := Tile(fl[k].addr, size, true)], k) == Succ(fl, k)
    ensures Spaced(fl[k := Tile(fl[k].addr, size, true)])
  {
  }

  lemma AfterLeftLink(m: Mem, fl: seq<Tile>, k: nat, g: Tile, link: Word)
    requires LinkedBut(m, fl, k) && Spaced(fl) && FitsAfter(fl, k, g.addr) && HeaderAt(m, g.addr, Succ(fl, k), g.size)
    requires link == g.addr
    ensures Linked(PutWord(m, fl[k].addr, link), fl[..k + 1] + [g] + fl[k + 1..])
  {
    hide PutWord, HeaderAt;
    var more := fl[..k + 1] + [g] + fl[k + 1..];
    AddMember(m, fl, k, g);
    SpacedAfterAdd(fl, k, g);
    SetLink(m, more, k, link);
  }

  lemma SpacedAfterAdd(fl: seq<Tile>, k: nat, g: Tile)
    requires Spaced(fl) && FitsAfter(fl, k, g.addr)
    ensures Spaced(fl[..k + 1] + [g] + fl[k + 1..])
  {
  }

  lemma EndByOne(addr: nat, size: nat)
    ensures addr + size < 0x1_0000_0000 ==> EndBy(1, addr, size) == addr + size
  {
  }

  /** In the byte reading, inside the heap, the lines make of the list what freeing should. */
  lemma LinesByBytes(fl: seq<Tile>, k: nat, b: Tile)
    requires FitsAfter(fl, k, b.addr) && b.End() < 0x1_0000_0000 && fl[k].End() < 0x1_0000_0000
    ensures MergesNext(1, fl, k, b) <==> TouchesNext(fl, k, b)
    ensures ListAfterLines(1, fl, k, b) == ListAfterFree(fl, k, b)
  {
    hide EndBy;
    EndByOne(b.addr, b.size);
    EndByOne(fl[k].addr, fl[k].size);
  }

  // ----- taking a block in memory -----

  /** Line 64 of kalloc.c: the predecessor links past member k. */
  lemma AfterUnlink(m: Mem, fl: seq<Tile>, k: nat, next: Word)
    requires Linked(m, fl) && Spaced(fl) && 0 < k < |fl| && next == Succ(fl, k)
    ensures Linked(PutWord(m, fl[k - 1].addr, next), fl[..k] + fl[k + 1..])
  {
    hide PutWord, HeaderAt;
    DropMember(m, fl, k);
    SetLink(m, fl[..k] + fl[k + 1..], k - 1, next);
  }

  /** Line 68: member k shrinks. */
  lemma AfterShrink(m: Mem, fl: seq<Tile>, k: nat, size: Word)
    requires Linked(m, fl) && Spaced(fl) && k < |fl|
    ensures Linked(PutWord(m, fl[k].addr + 4, size), fl[k := Tile(fl[k].addr, size, true)])
  {
    hide PutWord, WordAt, HasWord, HeaderAt;
    var m1, fl1 := PutWord(m, fl[k].addr + 4, size), fl[k := Tile(fl[k].addr, size, true)];
    assert HeaderAt(m, fl[k].addr, Succ(fl, k), fl[k].size);
    HeaderSet(m, fl[k].addr, size, Succ(fl, k), fl[k].size);
    forall j | 0 <= j < |fl1|
      ensures Succ(fl1, j) == Succ(fl, j)
    {
    }
    forall j | 0 <= j < |fl1| && j != k
      ensures HeaderAt(m1, fl1[j].addr, Succ(fl1, j), fl1[j].size)
    {
      assert HeaderAt(m, fl[j].addr, Succ(fl, j), fl[j].size);
      assert j < k || k < j;
      HeaderElsewhere(m, fl[k].addr + 4, size, fl[j].addr, Succ(fl, j), fl[j].size);
    }
  }
}
