/** 32-bit words as sets of bits: the three `memory_bitmap_*` macros of balloc.c. */
module BitWords {

  const UNIT_FULL: bv32 := 0xffff_ffff

  type BitIndex = j: int | 0 <= j < 32

  function Mask(j: BitIndex): bv32 {
    1 as bv32 << j
  }

  /** The bits a word shares with a mask, and the word with those bits set or cleared. */
  function Shared(w: bv32, m: bv32): bv32 {
    w & m
  }

  function With(w: bv32, m: bv32): bv32 {
    w | m
  }

  function Without(w: bv32, m: bv32): bv32 {
    w & !m
  }

  predicate Bit(w: bv32, j: BitIndex) {
    Shared(w, Mask(j)) != 0
  }

  function SetBit(w: bv32, j: BitIndex): bv32 {
    With(w, Mask(j))
  }

  function ClearBit(w: bv32, j: BitIndex): bv32 {
    Without(w, Mask(j))
  }

  lemma MasksDiffer(j: BitIndex, k: BitIndex)
    ensures Shared(Mask(j), Mask(k)) == if j == k then Mask(j) else 0
    ensures Mask(j) != 0
  {
  }

  lemma SharedHere(w: bv32, m: bv32)
    ensures Shared(With(w, m), m) == m
    ensures Shared(Without(w, m), m) == 0
  {
  }

  lemma SetElsewhere(w: bv32, m: bv32, n: bv32)
    requires m & n == 0
    ensures (w | m) & n == w & n
  {
  }

  lemma ClearElsewhere(w: bv32, m: bv32, n: bv32)
    requires m & n == 0
    ensures (w & !m) & n == w & n
  {
  }

  lemma SharedWithElsewhere(w: bv32, m: bv32, n: bv32)
    requires Shared(m, n) == 0
    ensures Shared(With(w, m), n) == Shared(w, n)
  {
    SetElsewhere(w, m, n);
  }

  lemma SharedWithoutElsewhere(w: bv32, m: bv32, n: bv32)
    requires Shared(m, n) == 0
    ensures Shared(Without(w, m), n) == Shared(w, n)
  {
    ClearElsewhere(w, m, n);
  }

  lemma BitAfterUpdate(w: bv32, j: BitIndex, k: BitIndex)
    ensures Bit(SetBit(w, j), k) <==> k == j || Bit(w, k)
    ensures Bit(ClearBit(w, j), k) <==> k != j && Bit(w, k)
  {
    hide Mask, Shared, With, Without;
    MasksDiffer(j, k);
    if j == k {
      SharedHere(w, Mask(j));
    } else {
      SharedWithElsewhere(w, Mask(j), Mask(k));
      SharedWithoutElsewhere(w, Mask(j), Mask(k));
    }
  }

  /** A word with every bit set in each byte is full. */
  lemma FullBytes(w: bv32)
    requires w & 0xff == 0xff && w & 0xff00 == 0xff00 && w & 0xff0000 == 0xff0000 && w & 0xff000000 == 0xff000000
    ensures w == UNIT_FULL
  {
  }

  lemma FullByte0(w: bv32)
    requires Bit(w, 0) && Bit(w, 1) && Bit(w, 2) && Bit(w, 3) && Bit(w, 4) && Bit(w, 5) && Bit(w, 6) && Bit(w, 7)
    ensures w & 0xff == 0xff
  {
  }

  lemma FullByte1(w: bv32)
    requires Bit(w, 8) && Bit(w, 9) && Bit(w, 10) && Bit(w, 11) && Bit(w, 12) && Bit(w, 13) && Bit(w, 14) && Bit(w, 15)
    ensures w & 0xff00 == 0xff00
  {
  }

  lemma FullByte2(w: bv32)
    requires Bit(w, 16) && Bit(w, 17) && Bit(w, 18) && Bit(w, 19) && Bit(w, 20) && Bit(w, 21) && Bit(w, 22)
    requires Bit(w, 23)
    ensures w & 0xff0000 == 0xff0000
  {
  }

  lemma FullByte3(w: bv32)
    requires Bit(w, 24) && Bit(w, 25) && Bit(w, 26) && Bit(w, 27) && Bit(w, 28) && Bit(w, 29) && Bit(w, 30)
    requires Bit(w, 31)
    ensures w & 0xff000000 == 0xff000000
  {
  }

  lemma FullWord(w: bv32)
    ensures w == UNIT_FULL <==> forall j: BitIndex :: Bit(w, j)
  {
    if w == UNIT_FULL {
      forall j: BitIndex
        ensures Bit(w, j)
      {
        MasksDiffer(j, j);
        assert Shared(w, Mask(j)) == Mask(j);
      }
    }
    if forall j: BitIndex :: Bit(w, j) {
      hide Bit;
      FullByte0(w);
      FullByte1(w);
      FullByte2(w);
      FullByte3(w);
      FullBytes(w);
    }
  }

  /** The block numbers below `n` whose bit is set in a bitmap of words. */
  ghost function MarkedBelow(words: seq<bv32>, n: nat): set<nat>
    requires n <= 32 * |words|
  {
    if n == 0 then {}
    else MarkedBelow(words, n - 1) + (if Bit(words[(n - 1) / 32], (n - 1) % 32) then {n - 1} else {})
  }

  ghost function Marked(words: seq<bv32>): set<nat> {
    MarkedBelow(words, 32 * |words|)
  }

  lemma {:induction false} MarkedBelowIff(words: seq<bv32>, n: nat)
    requires n <= 32 * |words|
    ensures forall b: nat :: b in MarkedBelow(words, n) <==> b < n && Bit(words[b / 32], b % 32)
  {
    if n > 0 {
      MarkedBelowIff(words, n - 1);
    }
  }

  lemma MarkedIff(words: seq<bv32>)
    ensures forall b: nat :: b in Marked(words) <==> b < 32 * |words| && Bit(words[b / 32], b % 32)
  {
    MarkedBelowIff(words, 32 * |words|);
  }

  /** Rewriting one word rewrites the marks of its own 32 blocks only. */
  lemma MarkedAfterUpdate(words: seq<bv32>, b: nat)
    requires b < 32 * |words|
    ensures Marked(words[b / 32 := SetBit(words[b / 32], b % 32)]) == Marked(words) + {b}
    ensures Marked(words[b / 32 := ClearBit(words[b / 32], b % 32)]) == Marked(words) - {b}
  {
    hide Bit, SetBit, ClearBit;
    var i, j := b / 32, b % 32;
    var set1, clear1 := words[i := SetBit(words[i], j)], words[i := ClearBit(words[i], j)];
    MarkedIff(words);
    MarkedIff(set1);
    MarkedIff(clear1);
    forall c: nat | c < 32 * |words|
      ensures c in Marked(set1) <==> c == b || c in Marked(words)
      ensures c in Marked(clear1) <==> c != b && c in Marked(words)
    {
      BitAfterUpdate(words[i], j, c % 32);
      assert c == 32 * (c / 32) + c % 32 && b == 32 * i + j;
    }
  }

  lemma MarkedOfZeros(words: seq<bv32>)
    requires forall k :: 0 <= k < |words| ==> words[k] == 0
    ensures Marked(words) == {}
  {
    hide Mask;
    MarkedIff(words);
    forall b: nat | b < 32 * |words|
      ensures !Bit(words[b / 32], b % 32)
    {
      assert words[b / 32] == 0;
    }
  }
}
