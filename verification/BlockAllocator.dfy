/** What the physical block allocator (balloc.c) computes, over the set of blocks in use. */
module BlockSpec {

  const BLOCK_SIZE := 4096
  const TWO_32 := 0x1_0000_0000

  /** The plain bit-by-bit scan: the lowest block at or above `from` that is not in use, or 0. */
  ghost function LowestClear(used: set<nat>, from: nat, bits: nat): nat
    decreases bits - from
  {
    if from >= bits then 0
    else if from !in used then from
    else LowestClear(used, from + 1, bits)
  }

  lemma {:induction false} LowestClearIsLowest(used: set<nat>, from: nat, bits: nat)
    ensures var r := LowestClear(used, from, bits);
      || (from <= r < bits && r !in used && forall b: nat :: from <= b < r ==> b in used)
      || (r == 0 && forall b: nat :: from <= b < bits ==> b in used)
    decreases bits - from
  {
    if from < bits && from in used {
      LowestClearIsLowest(used, from + 1, bits);
    }
  }

  lemma {:induction false} SkipUsed(used: set<nat>, from: nat, to: nat, bits: nat)
    requires from <= to <= bits
    requires forall b: nat :: from <= b < to ==> b in used
    ensures LowestClear(used, from, bits) == LowestClear(used, to, bits)
    decreases bits - from
  {
    if from < to {
      SkipUsed(used, from + 1, to, bits);
    }
  }

  /** The blocks a region call visits: one more than length / 4096 of them, from start / 4096. */
  ghost function Span(start: nat, length: nat): set<nat> {
    Interval(start / BLOCK_SIZE, start / BLOCK_SIZE + length / BLOCK_SIZE + 1)
  }

  /** Whatever the start, that is length / 4096 + 1 blocks, the first of them the block of start. */
  lemma SpanIsFromStart(start: nat, length: nat)
    ensures |Span(start, length)| == length / 4096 + 1
    ensures forall b: nat :: b in Span(start, length) <==> start / 4096 <= b <= start / 4096 + length / 4096
  {
    IntervalSize(start / 4096, start / 4096 + length / 4096 + 1);
  }

  ghost function Interval(lo: nat, hi: nat): (r: set<nat>)
    ensures forall b: nat :: b in r <==> lo <= b < hi
    decreases hi - lo
  {
    if lo >= hi then {} else Interval(lo, hi - 1) + {hi - 1}
  }

  lemma NoInterval(lo: nat)
    ensures Interval(lo, lo) == {}
  {
  }

  lemma IntervalGrows(s: set<nat>, lo: nat, hi: nat)
    requires lo <= hi
    ensures s + Interval(lo, hi + 1) == s + Interval(lo, hi) + {hi}
    ensures s - Interval(lo, hi + 1) == s - Interval(lo, hi) - {hi}
  {
  }

  /** The blocks `balloc_free_n` releases: a null block is skipped. */
  ghost function FreedBy(addr: nat, n: nat): set<nat> {
    if n == 0 then {} else FreedBy(addr, n - 1) + NonNullBlock(addr + (n - 1) * BLOCK_SIZE)
  }

  lemma {:induction false} FreedByMonotone(addr: nat, k: nat, n: nat)
    requires k <= n
    ensures FreedBy(addr, k) <= FreedBy(addr, n)
    decreases n - k
  {
    if k < n {
      FreedByMonotone(addr, k + 1, n);
    }
  }

  ghost function NonNullBlock(addr: nat): set<nat> {
    if addr == 0 then {} else {addr / BLOCK_SIZE}
  }

  lemma {:induction false} FreedByBound(addr: nat, n: nat)
    ensures forall b :: b in FreedBy(addr, n) ==> b < addr / BLOCK_SIZE + n
  {
    if n > 0 {
      FreedByBound(addr, n - 1);
    }
  }

  lemma {:induction false} FreedByIff(addr: nat, n: nat, b: nat)
    ensures b in FreedBy(addr, n) <==> addr / 4096 <= b < addr / 4096 + n && !(addr == 0 && b == 0)
  {
    if n > 0 {
      FreedByIff(addr, n - 1, b);
    }
  }

  lemma NothingFreed(addr: nat)
    ensures FreedBy(addr, 0) == {}
  {
  }

  lemma FreedByStep(was: set<nat>, addr: nat, done: nat, n: nat)
    requires done < n && FreedBy(addr, n) <= was
    ensures var block := NonNullBlock(addr + done * BLOCK_SIZE);
      && block <= was - FreedBy(addr, done)
      && was - FreedBy(addr, done) - block == was - FreedBy(addr, done + 1)
  {
    FreedByMonotone(addr, done + 1, n);
    FreedByBound(addr, done);
  }

  /** The address `balloc_get` hands out: 0 is also the null answer. */
  ghost function GetResult(used: set<nat>, bits: nat): nat {
    LowestClear(used, 0, bits) * BLOCK_SIZE
  }

  ghost function UsedAfterGet(used: set<nat>, bits: nat): set<nat> {
    if GetResult(used, bits) == 0 then used else used + {LowestClear(used, 0, bits)}
  }

  /** The counter as the C code holds it: an unsigned 32-bit difference. */
  function CounterFor(total: nat, inUse: nat): int {
    (total - inUse) % TWO_32
  }

  /** `free_blocks--` and `free_blocks++` on an unsigned int. */
  function Dec32(x: int): int {
    (x - 1) % TWO_32
  }

  function Inc32(x: int): int {
    (x + 1) % TWO_32
  }

  /** The bits of a bitmap with one word for every 32 blocks, and one more. */
  function BitmapBits(memorySize: nat): nat {
    32 * (memorySize / BLOCK_SIZE / 32 + 1)
  }

  lemma UnitsForBlocks(memorySize: nat)
    ensures var total, units := memorySize / BLOCK_SIZE, memorySize / BLOCK_SIZE / 32 + 1;
      && BLOCK_SIZE * total <= memorySize < BLOCK_SIZE * (total + 1)
      && BitmapBits(memorySize) == 32 * units && 32 * (units - 1) <= total < 32 * units
  {
  }

  lemma NoBlocksInUse(total: nat)
    requires total < TWO_32
    ensures CounterFor(total, 0) == total
  {
  }

  lemma CounterSteps(total: nat, inUse: nat)
    ensures Dec32(CounterFor(total, inUse)) == CounterFor(total, inUse + 1)
    ensures Inc32(CounterFor(total, inUse + 1)) == CounterFor(total, inUse)
  {
  }

  lemma CounterMoves(total: nat, inUse: nat)
    ensures inUse > 0 ==> Inc32(CounterFor(total, inUse)) == CounterFor(total, inUse - 1)
    ensures Inc32(CounterFor(total, inUse)) != CounterFor(total, inUse)
  {
  }

  /** With block 0 reserved, null means "bitmap full" and nothing else. */
  lemma GetFailsOnlyWhenFull(used: set<nat>, bits: nat)
    requires 0 in used
    ensures GetResult(used, bits) == 0 <==> forall b: nat :: b < bits ==> b in used
    ensures GetResult(used, bits) != 0 ==>
              var b := GetResult(used, bits) / BLOCK_SIZE;
              && b < bits && b !in used && GetResult(used, bits) == b * BLOCK_SIZE
              && forall c: nat :: c < b ==> c in used
  {
    LowestClearIsLowest(used, 0, bits);
  }

  lemma {:induction false} IntervalSize(lo: nat, hi: nat)
    requires lo <= hi
    ensures |Interval(lo, hi)| == hi - lo
    decreases hi - lo
  {
    if lo < hi {
      IntervalSize(lo, hi - 1);
      OneMoreMember(Interval(lo, hi - 1), hi - 1);
    }
  }

  lemma OneMoreMember(s: set<nat>, b: nat)
    requires b !in s
    ensures |s + {b}| == |s| + 1
  {
  }

  lemma SubsetSize(a: set<nat>, b: set<nat>)
    requires a <= b
    ensures |a| <= |b|
    ensures |a| == |b| ==> a == b
  {
    assert b == a + (b - a);
  }

  lemma ClearCount(used: set<nat>, bits: nat)
    requires 0 in used && forall b :: b in used ==> b < bits
    ensures |used| <= bits && (GetResult(used, bits) == 0 <==> |used| == bits)
  {
    assert used <= Interval(0, bits);
    IntervalSize(0, bits);
    SubsetSize(used, Interval(0, bits));
    GetFailsOnlyWhenFull(used, bits);
    if GetResult(used, bits) == 0 {
      assert used == Interval(0, bits);
    }
    if |used| == bits {
      assert forall b: nat :: b < bits ==> b in used;
    }
  }

  /** While no bit past the end of memory is set, a positive counter means a usable block is found. */
  lemma PositiveCounterFindsBlock(used: set<nat>, total: nat, bits: nat)
    requires total <= bits && total < TWO_32
    requires 0 in used
    requires forall b :: b in used ==> b < total
    requires CounterFor(total, |used|) > 0
    ensures 0 < GetResult(used, bits) < total * BLOCK_SIZE
  {
    assert used <= Interval(0, total);
    IntervalSize(0, total);
    SubsetSize(used, Interval(0, total));
    LowestClearIsLowest(used, 0, bits);
    assert used != Interval(0, total);
  }

  // ----- runs -----

  datatype Op =
    | InitRegion(start: nat, length: nat)
    | DeinitRegion(start: nat, length: nat)
    | Get
    | Free(addr: nat)
    | FreeN(addr: nat, count: nat)

  ghost function Step(used: set<nat>, bits: nat, op: Op): set<nat> {
    match op
    case InitRegion(s, l) => used + Span(s, l)
    case DeinitRegion(s, l) => used - Span(s, l)
    case Get => UsedAfterGet(used, bits)
    case Free(a) => used - NonNullBlock(a)
    case FreeN(a, n) => used - FreedBy(a, n)
  }

  /** The non-null addresses handed out by the `Get`s of a run, in order. */
  ghost function Handed(used: set<nat>, bits: nat, run: seq<Op>): seq<nat>
    decreases |run|
  {
    if run == [] then []
    else
      (if run[0].Get? && GetResult(used, bits) != 0 then [GetResult(used, bits)] else [])
      + Handed(Step(used, bits, run[0]), bits, run[1..])
  }

  ghost predicate Releases(op: Op, b: nat) {
    match op
    case DeinitRegion(s, l) => b in Span(s, l)
    case Free(a) => b in NonNullBlock(a)
    case FreeN(a, n) => b in FreedBy(a, n)
    case _ => false
  }

  /** That is, the call takes the block out of use. */
  lemma ReleasesIff(used: set<nat>, bits: nat, op: Op, b: nat)
    requires b in used
    ensures b !in Step(used, bits, op) <==> Releases(op, b)
  {
  }

  /** A block in use is not handed out by any run that never releases it; in particular no
      block handed out earlier in such a run, and no block of a region reserved at boot. */
  lemma {:induction false} HeldBlockIsNeverHanded(used: set<nat>, bits: nat, run: seq<Op>, b: nat)
    requires b in used
    requires forall k :: 0 <= k < |run| ==> !Releases(run[k], b)
    ensures b * BLOCK_SIZE !in Handed(used, bits, run)
    decreases |run|
  {
    if run != [] {
      assert !Releases(run[0], b);
      LowestClearIsLowest(used, 0, bits);
      forall k | 0 <= k < |run[1..]|
        ensures !Releases(run[1..][k], b)
      {
        assert run[1..][k] == run[k + 1];
      }
      HeldBlockIsNeverHanded(Step(used, bits, run[0]), bits, run[1..], b);
    }
  }

  lemma ReservedRegionIsNeverHanded(used: set<nat>, bits: nat, start: nat, length: nat, run: seq<Op>, b: nat)
    requires b in Span(start, length)
    requires forall k :: 0 <= k < |run| ==> !Releases(run[k], b)
    ensures b * BLOCK_SIZE !in Handed(used, bits, [InitRegion(start, length)] + run)
  {
    var whole := [InitRegion(start, length)] + run;
    assert whole[1..] == run;
    HeldBlockIsNeverHanded(used + Span(start, length), bits, run, b);
  }

  /** A region's span holds every byte of it exactly when the two remainders do not spill over
      into one more block; a page-aligned start always meets this. */
  lemma SpanCoversRegion(start: nat, length: nat)
    ensures (forall a: nat :: start <= a < start + length ==> a / BLOCK_SIZE in Span(start, length))
            <==> start % BLOCK_SIZE + length % BLOCK_SIZE <= BLOCK_SIZE
  {
    if start % BLOCK_SIZE + length % BLOCK_SIZE > BLOCK_SIZE {
      var last := start + length - 1;
      assert last / BLOCK_SIZE !in Span(start, length);
    }
  }

  /** At most one block of the span holds no byte of an aligned, non-empty region. */
  lemma AlignedSpanHasOneSpareBlock(start: nat, length: nat, b: nat)
    requires start % BLOCK_SIZE == 0
    ensures b in Span(start, length) && !(exists a: nat :: start <= a < start + length && a / BLOCK_SIZE == b)
            <==> length % BLOCK_SIZE == 0 && b == start / BLOCK_SIZE + length / BLOCK_SIZE
  {
    var first := b * BLOCK_SIZE;
    assert first / BLOCK_SIZE == b;
    if start <= first < start + length {
      assert exists a: nat :: start <= a < start + length && a / BLOCK_SIZE == b;
    }
  }
}

/** The word-packed bitmap allocator of balloc.c. */
module BlockAllocators {
  import opened BitWords
  import opened BlockSpec

  const BLOCKS_PER_UNIT := 32

  class BlockAllocator {
    const bmp: array<bv32>
    const memSize: int
    const totalBlocks: int
    var freeBlocks: int

    /** The block numbers whose bit is set, over the whole bitmap. */
    ghost var used: set<nat>

    /** One past the last block number the bitmap has a bit for. */
    ghost function Bits(): nat {
      BLOCKS_PER_UNIT * bmp.Length
    }

    ghost predicate Valid()
      reads this, bmp
    {
      && 0 <= memSize < TWO_32
      && 4096 * totalBlocks <= memSize < 4096 * (totalBlocks + 1)
      && 32 * (bmp.Length - 1) <= totalBlocks < 32 * bmp.Length
      && used == Marked(bmp[..])
      && freeBlocks == CounterFor(totalBlocks, |used|)
    }

    constructor (memorySize: int, kernelStartPhys: int, kernelSize: int)
      requires 0 <= memorySize < TWO_32 && 0 <= kernelStartPhys < TWO_32 && 0 <= kernelSize
      requires kernelSize + BitmapBits(memorySize) < TWO_32 && 256 < BitmapBits(memorySize)
      requires var bits := BitmapBits(memorySize);
        kernelStartPhys / BLOCK_SIZE + (kernelSize + bits) / BLOCK_SIZE < bits
      ensures Valid() && fresh(bmp) && memSize == memorySize && Bits() == BitmapBits(memorySize)
      ensures totalBlocks == memorySize / 4096 && Bits() == 32 * (memorySize / 4096 / 32 + 1)
      ensures forall b: nat :: b in used <==>
        b <= 256 || kernelStartPhys / 4096 <= b <= kernelStartPhys / 4096 + (kernelSize + Bits()) / 4096
      ensures used == Span(0, 0x100000) + Span(kernelStartPhys, kernelSize + Bits())
    {
      hide Marked, CounterFor, BitmapBits, Span, Interval, Step;
      memSize := memorySize;
      totalBlocks := memorySize / BLOCK_SIZE;
      freeBlocks := memorySize / BLOCK_SIZE;
      used := {};
      bmp := new bv32[memorySize / BLOCK_SIZE / BLOCKS_PER_UNIT + 1];
      new;
      UnitsForBlocks(memorySize);
      ClearBitmap();
      NoBlocksInUse(totalBlocks);
      ReserveAtBoot(kernelStartPhys, kernelSize + bmp.Length * BLOCKS_PER_UNIT);
    }

    /** Lines 78-79: the first megabyte, and the kernel with its bitmap. */
    method ReserveAtBoot(start: nat, length: nat)
      requires Valid() && used == {} && 256 < Bits()
      requires start < TWO_32 && length < TWO_32 && start / BLOCK_SIZE + length / BLOCK_SIZE < Bits()
      modifies this, bmp
      ensures Valid() && used == Span(0, 0x100000) + Span(start, length)
      ensures forall b: nat :: b in used <==> b <= 256 || start / 4096 <= b <= start / 4096 + length / 4096
    {
      hide Marked, CounterFor, Span, Step;
      InitRegion(0, 0x100000);
      InitRegion(start, length);
      BootSpans(start, length);
    }

    lemma BootSpans(start: nat, length: nat)
      ensures forall b: nat :: b in Span(0, 0x100000) + Span(start, length) <==>
        b <= 256 || start / 4096 <= b <= start / 4096 + length / 4096
    {
    }

    /** The loop that marks all memory as free. */
    method ClearBitmap()
      modifies bmp
      ensures Marked(bmp[..]) == {}
    {
      hide Marked;
      for i := 0 to bmp.Length
        invariant forall k :: 0 <= k < i ==> bmp[k] == 0
      {
        bmp[i] := 0;
      }
      MarkedOfZeros(bmp[..]);
    }

    method TestBit(b: nat) returns (r: bool)
      requires Valid() && b < Bits()
      ensures r <==> b in used
    {
      MarkedIff(bmp[..]);
      r := Bit(bmp[b / 32], b % 32);
      assert bmp[..][b / 32] == bmp[b / 32];
    }

    /** Set a clear bit and count it. */
    method Take(b: nat)
      requires Valid() && b < Bits() && b !in used
      modifies this, bmp
      ensures Valid() && used == old(used) + {b}
    {
      hide Marked, Bit, SetBit, CounterFor, Dec32;
      ghost var words := bmp[..];
      MarkedAfterUpdate(words, b);
      CounterSteps(totalBlocks, |used|);
      bmp[b / 32] := SetBit(bmp[b / 32], b % 32);
      assert bmp[..] == words[b / 32 := SetBit(words[b / 32], b % 32)];
      used := used + {b};
      freeBlocks := Dec32(freeBlocks);
    }

    /** Clear a set bit and count it. */
    method Release(b: nat)
      requires Valid() && b in used
      modifies this, bmp
      ensures Valid() && used == old(used) - {b}
    {
      hide Marked, CounterFor, Inc32;
      BlocksHaveBits(b);
      CounterMoves(totalBlocks, |used|);
      Unmark(b);
    }

    method ReserveBlock(b: nat)
      requires Valid() && b < Bits()
      modifies this, bmp
      ensures Valid() && used == old(used) + {b}
    {
      hide Marked;
      var taken := TestBit(b);
      if !taken {
        Take(b);
      }
    }

    method UnreserveBlock(b: nat)
      requires Valid() && b < Bits()
      modifies this, bmp
      ensures Valid() && used == old(used) - {b}
    {
      hide Marked;
      var taken := TestBit(b);
      if taken {
        Release(b);
      }
    }

    method InitRegion(start: nat, length: nat)
      requires Valid()
      requires start < TWO_32 && length < TWO_32
      requires start / BLOCK_SIZE + length / BLOCK_SIZE < Bits()
      modifies this, bmp
      ensures Valid()
      ensures used == old(used) + Span(start, length) == Step(old(used), Bits(), Op.InitRegion(start, length))
      ensures forall b: nat :: b in used <==> b in old(used) || start / 4096 <= b <= start / 4096 + length / 4096
    {
      hide Marked, CounterFor, Interval;
      ghost var was := used;
      NoInterval(start / BLOCK_SIZE);
      var startBlock := start / BLOCK_SIZE;
      var current := startBlock;
      var count := length / BLOCK_SIZE + 1;
      while current < startBlock + count
        invariant startBlock <= current <= startBlock + count
        invariant Valid()
        invariant used == was + Interval(startBlock, current)
      {
        IntervalGrows(was, startBlock, current);
        ReserveBlock(current);
        current := current + 1;
      }
    }

    method DeinitRegion(start: nat, length: nat)
      requires Valid()
      requires start < TWO_32 && length < TWO_32
      requires start / BLOCK_SIZE + length / BLOCK_SIZE < Bits()
      modifies this, bmp
      ensures Valid()
      ensures used == old(used) - Span(start, length) == Step(old(used), Bits(), Op.DeinitRegion(start, length))
      ensures forall b: nat :: b in used <==> b in old(used) && !(start / 4096 <= b <= start / 4096 + length / 4096)
    {
      hide Marked, CounterFor, Interval;
      ghost var was := used;
      NoInterval(start / BLOCK_SIZE);
      var startBlock := start / BLOCK_SIZE;
      var current := startBlock;
      var count := length / BLOCK_SIZE + 1;
      while current < startBlock + count
        invariant startBlock <= current <= startBlock + count
        invariant Valid()
        invariant used == was - Interval(startBlock, current)
      {
        IntervalGrows(was, startBlock, current);
        UnreserveBlock(current);
        current := current + 1;
      }
    }

    /** block_alloc_first_free: whole words are skipped, yet the answer is the bit-by-bit one. */
    method FirstFree() returns (r: nat)
      requires Valid()
      ensures r == LowestClear(used, 0, Bits())
    {
      hide Bit, SetBit, ClearBit, Marked, CounterFor;
      MarkedIff(bmp[..]);
      for i := 0 to bmp.Length
        invariant LowestClear(used, 0, Bits()) == LowestClear(used, 32 * i, Bits())
      {
        if bmp[i] != UNIT_FULL {
          r := FirstFreeInUnit(i);
          return;
        }
        FullWord(bmp[i]);
        forall b: nat | 32 * i <= b < 32 * (i + 1)
          ensures b in used
        {
          assert bmp[..][b / 32] == bmp[i] && Bit(bmp[i], b % 32);
        }
        SkipUsed(used, 32 * i, 32 * (i + 1), Bits());
      }
      r := 0;
    }

    /** The inner loop: the first clear bit of a word that has one. */
    method FirstFreeInUnit(i: nat) returns (r: nat)
      requires Valid() && i < bmp.Length && bmp[i] != UNIT_FULL
      ensures r == LowestClear(used, 32 * i, Bits())
    {
      hide Bit, SetBit, ClearBit, Marked, CounterFor;
      MarkedIff(bmp[..]);
      for j := 0 to BLOCKS_PER_UNIT
        invariant forall k: BitIndex :: k < j ==> Bit(bmp[i], k)
      {
        if !Bit(bmp[i], j) {
          r := i * BLOCKS_PER_UNIT + j;
          assert bmp[..][r / 32] == bmp[i] && !Bit(bmp[i], r % 32);
          forall b: nat | 32 * i <= b < r
            ensures b in used
          {
            assert bmp[..][b / 32] == bmp[i] && Bit(bmp[i], b % 32);
          }
          SkipUsed(used, 32 * i, r, Bits());
          return;
        }
      }
      FullWord(bmp[i]);
      assert false;
    }

    method Get() returns (addr: nat)
      requires Valid()
      modifies this, bmp
      ensures Valid()
      ensures addr == GetResult(old(used), Bits())
      ensures used == UsedAfterGet(old(used), Bits()) == Step(old(used), Bits(), Op.Get)
      ensures addr == 0 ==> used == old(used) && (0 !in used || forall b: nat :: b < Bits() ==> b in used)
      ensures addr != 0 ==>
        && addr % 4096 == 0 && addr / 4096 < Bits() && addr / 4096 !in old(used)
        && used == old(used) + {addr / 4096} && forall b: nat :: b < addr / 4096 ==> b in old(used)
    {
      hide Marked;
      var block := FirstFree();
      LowestClearIsLowest(used, 0, Bits());
      if block == 0 {
        return 0;
      }
      Take(block);
      addr := block * BLOCK_SIZE;
    }

    /** balloc_free clears the bit and counts up whatever the bit was: the counter stays the total
        less the set bits if and only if the block was in use. */
    method Free(addr: nat)
      requires Valid()
      requires addr / BLOCK_SIZE < Bits() || NonNullBlock(addr) <= used
      modifies this, bmp
      ensures Valid() <==> addr == 0 || addr / 4096 in old(used)
      ensures used == old(used) - (if addr == 0 then {} else {addr / 4096}) && used == Marked(bmp[..])
      ensures used == Step(old(used), Bits(), Op.Free(addr))
      ensures freeBlocks == if addr == 0 then old(freeBlocks) else (old(freeBlocks) + 1) % 0x1_0000_0000
    {
      hide Marked, CounterFor;
      if addr == 0 {
        return;
      }
      var block := addr / BLOCK_SIZE;
      BlocksHaveBits(block);
      CounterMoves(totalBlocks, |used|);
      Unmark(block);
    }

    lemma BlocksHaveBits(b: nat)
      requires Valid()
      ensures b in used ==> b < Bits()
    {
      hide Bit, CounterFor;
      MarkedIff(bmp[..]);
    }

    /** Clear a bit, set or not, and count up. */
    method Unmark(b: nat)
      requires Valid() && b < Bits()
      modifies this, bmp
      ensures used == old(used) - {b} && used == Marked(bmp[..])
      ensures freeBlocks == Inc32(old(freeBlocks))
      ensures |used| == old(|used|) - (if b in old(used) then 1 else 0)
    {
      hide Marked, Bit, ClearBit, CounterFor, Inc32;
      ghost var words := bmp[..];
      MarkedAfterUpdate(words, b);
      assert b in used ==> |used - {b}| + 1 == |used|;
      assert b !in used ==> used - {b} == used;
      bmp[b / 32] := ClearBit(bmp[b / 32], b % 32);
      assert bmp[..] == words[b / 32 := ClearBit(words[b / 32], b % 32)];
      used := used - {b};
      freeBlocks := Inc32(freeBlocks);
    }

    method FreeN(addr: nat, count: nat)
      requires Valid()
      requires FreedBy(addr, count) <= used
      requires addr + count * BLOCK_SIZE <= TWO_32
      modifies this, bmp
      ensures Valid()
      ensures used == old(used) - FreedBy(addr, count) == Step(old(used), Bits(), Op.FreeN(addr, count))
      ensures forall b: nat :: b in used <==>
        b in old(used) && !(addr / 4096 <= b < addr / 4096 + count && !(addr == 0 && b == 0))
    {
      hide Marked, CounterFor, Inc32, FreedBy;
      NothingFreed(addr);
      forall b: nat
        ensures b in FreedBy(addr, count) <==> addr / 4096 <= b < addr / 4096 + count && !(addr == 0 && b == 0)
      {
        FreedByIff(addr, count, b);
      }
      ghost var was := used;
      var at, n := addr, count;
      ghost var done := 0;
      while n > 0
        invariant 0 <= n && 0 <= done && done + n == count && at == addr + done * BLOCK_SIZE
        invariant Valid()
        invariant used == was - FreedBy(addr, done)
        decreases n
      {
        FreedByStep(was, addr, done, count);
        Free(at);
        at, n, done := at + BLOCK_SIZE, n - 1, done + 1;
      }
      assert done == count;
    }

    /** How many bits of the bitmap are clear. */
    ghost function Clear(): int
      reads this
    {
      Bits() - |used|
    }

    lemma NullMeansNoneClear()
      requires Valid() && 0 in used
      ensures Clear() >= 0 && (GetResult(used, Bits()) == 0 <==> Clear() == 0)
      ensures forall b :: b in used ==> b < Bits()
    {
      hide Marked, Bit, CounterFor;
      MarkedIff(bmp[..]);
      ClearCount(used, Bits());
    }

    lemma UsedFitsBitmap()
      requires Valid()
      ensures |used| <= Bits() <= 0x100000 + 32
    {
      hide Marked, Bit, CounterFor;
      MarkedIff(bmp[..]);
      assert used <= Interval(0, Bits());
      IntervalSize(0, Bits());
      SubsetSize(used, Interval(0, Bits()));
    }

    /** balloc_free_block_count: with the set bits it adds up to the total exactly while no more
        bits are set than there are blocks; bits past the end of memory can be set too. */
    method FreeBlockCount() returns (r: int)
      requires Valid()
      ensures r + |used| == totalBlocks <==> |used| <= totalBlocks
      ensures r == (totalBlocks - |used|) % 0x1_0000_0000
    {
      hide Marked;
      UsedFitsBitmap();
      r := freeBlocks;
    }

    /** balloc_used_block_count: always the number of set bits. */
    method UsedBlockCount() returns (r: int)
      requires Valid()
      ensures r == |used|
    {
      hide Marked;
      UsedFitsBitmap();
      r := (totalBlocks - freeBlocks) % TWO_32;
    }
  }
}
