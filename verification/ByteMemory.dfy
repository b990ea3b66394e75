/** Memory by the byte: 32-bit words at any address, low byte first. */
module ByteMemory {
  import opened Paging

  type Byte = x: int | 0 <= x < 256

  type Mem = map<nat, Byte>

  /** Byte k of a word, and the word with byte k replaced. */
  function ByteOf(w: Word, k: nat): Byte
    requires k < 4
  {
    if k == 0 then w % 256
    else if k == 1 then w / 0x100 % 256
    else if k == 2 then w / 0x10000 % 256
    else w / 0x1000000
  }

  function WithByte(w: Word, k: nat, b: Byte): Word
    requires k < 4
  {
    if k == 0 then Join(b, ByteOf(w, 1), ByteOf(w, 2), ByteOf(w, 3))
    else if k == 1 then Join(ByteOf(w, 0), b, ByteOf(w, 2), ByteOf(w, 3))
    else if k == 2 then Join(ByteOf(w, 0), ByteOf(w, 1), b, ByteOf(w, 3))
    else Join(ByteOf(w, 0), ByteOf(w, 1), ByteOf(w, 2), b)
  }

  function Join(b0: Byte, b1: Byte, b2: Byte, b3: Byte): Word {
    b0 + 0x100 * b1 + 0x10000 * b2 + 0x1000000 * b3
  }

  lemma BytesOfJoin(b0: Byte, b1: Byte, b2: Byte, b3: Byte)
    ensures var w := Join(b0, b1, b2, b3);
      ByteOf(w, 0) == b0 && ByteOf(w, 1) == b1 && ByteOf(w, 2) == b2 && ByteOf(w, 3) == b3
  {
    var w := Join(b0, b1, b2, b3);
    assert w == b0 + 0x100 * (b1 + 0x100 * b2 + 0x10000 * b3);
    assert w / 0x100 == b1 + 0x100 * (b2 + 0x100 * b3);
    assert w / 0x10000 == b2 + 0x100 * b3;
  }

  lemma JoinOfBytes(w: Word)
    ensures Join(ByteOf(w, 0), ByteOf(w, 1), ByteOf(w, 2), ByteOf(w, 3)) == w
  {
    var w1, w2 := w / 0x100, w / 0x10000;
    assert w == w % 0x100 + 0x100 * w1;
    assert w2 == w1 / 0x100 && w1 == w1 % 0x100 + 0x100 * w2;
    assert w / 0x1000000 == w2 / 0x100 && w2 == w2 % 0x100 + 0x100 * (w2 / 0x100);
  }

  lemma ByteOfWithByte(w: Word, k: nat, b: Byte, j: nat)
    requires k < 4 && j < 4
    ensures ByteOf(WithByte(w, k, b), j) == if j == k then b else ByteOf(w, j)
  {
    hide ByteOf, Join;
    BytesOfJoin(if k == 0 then b else ByteOf(w, 0), if k == 1 then b else ByteOf(w, 1),
                if k == 2 then b else ByteOf(w, 2), if k == 3 then b else ByteOf(w, 3));
  }

  // ----- words at any address -----

  predicate HasWord(m: Mem, a: nat) {
    a in m && a + 1 in m && a + 2 in m && a + 3 in m
  }

  function WordAt(m: Mem, a: nat): Word
    requires HasWord(m, a)
  {
    Join(m[a], m[a + 1], m[a + 2], m[a + 3])
  }

  function PutWord(m: Mem, a: nat, w: Word): Mem {
    m[a := ByteOf(w, 0)][a + 1 := ByteOf(w, 1)][a + 2 := ByteOf(w, 2)][a + 3 := ByteOf(w, 3)]
  }

  /** A word written is read back, and words apart from it are as they were. */
  lemma WordsAfterPut(m: Mem, a: nat, w: Word)
    ensures HasWord(PutWord(m, a, w), a) && WordAt(PutWord(m, a, w), a) == w
    ensures forall b: nat :: HasWord(m, b) ==> HasWord(PutWord(m, a, w), b)
    ensures forall b: nat :: HasWord(m, b) && (b + 4 <= a || a + 4 <= b) ==> WordAt(PutWord(m, a, w), b) == WordAt(m, b)
  {
    hide ByteOf, Join;
    JoinOfBytes(w);
  }

  lemma BytesAfterPut(m: Mem, a: nat, w: Word)
    ensures forall b: nat :: b in m ==> b in PutWord(m, a, w)
    ensures forall b: nat :: b in m && (b < a || a + 4 <= b) ==> PutWord(m, a, w)[b] == m[b]
  {
  }

  /** Words apart can be written in either order. */
  lemma PutsCommute(m: Mem, a: nat, v: Word, b: nat, w: Word)
    requires a + 4 <= b || b + 4 <= a
    ensures PutWord(PutWord(m, a, v), b, w) == PutWord(PutWord(m, b, w), a, v)
  {
    hide ByteOf;
  }

  lemma PutTwice(m: Mem, a: nat, v: Word, w: Word)
    ensures PutWord(PutWord(m, a, v), a, w) == PutWord(m, a, w)
  {
    hide ByteOf;
  }

  /** Memories that agree on the bytes of a word agree on the word. */
  lemma SameBytesSameWord(m: Mem, m': Mem, a: nat)
    requires HasWord(m, a) && forall b: nat :: a <= b < a + 4 ==> b in m' && m'[b] == m[b]
    ensures HasWord(m', a) && WordAt(m', a) == WordAt(m, a)
  {
    assert a <= a < a + 4 && a <= a + 1 < a + 4 && a <= a + 2 < a + 4 && a <= a + 3 < a + 4;
  }
}
