/** The physical memory of the machine: little-endian 32-bit words, read and written by bytes or by words. */
module Memory {
  import opened Words

  type Ram = m: seq<u32> | |m| == 0x4000_0000 ghost witness seq(0x4000_0000, _ => 0)

  /** The k-th byte of a word, least significant first. */
  function ByteOf(w: u32, k: int): byte
    requires 0 <= k < 4
  {
    if k == 0 then w % 0x100
    else if k == 1 then w / 0x100 % 0x100
    else if k == 2 then w / 0x100 / 0x100 % 0x100
    else w / 0x100 / 0x100 / 0x100
  }

  function Join(b0: byte, b1: byte, b2: byte, b3: byte): u32 {
    b0 + 0x100 * b1 + 0x1_0000 * b2 + 0x100_0000 * b3
  }

  lemma ByteOfJoin(b0: byte, b1: byte, b2: byte, b3: byte)
    ensures var w := Join(b0, b1, b2, b3);
            ByteOf(w, 0) == b0 && ByteOf(w, 1) == b1 && ByteOf(w, 2) == b2 && ByteOf(w, 3) == b3
  {
    var w2 := b2 + 0x100 * b3;
    var w1 := b1 + 0x100 * w2;
    assert Join(b0, b1, b2, b3) == b0 + 0x100 * w1;
    FirstByte(b0, w1);
    FirstByte(b1, w2);
    FirstByte(b2, b3);
  }

  lemma FirstByte(b: byte, rest: nat)
    ensures (b + 0x100 * rest) % 0x100 == b && (b + 0x100 * rest) / 0x100 == rest
  {
  }

  lemma JoinByteOf(w: u32)
    ensures Join(ByteOf(w, 0), ByteOf(w, 1), ByteOf(w, 2), ByteOf(w, 3)) == w
  {
    var w1 := w / 0x100;
    var w2 := w1 / 0x100;
    assert w == w % 0x100 + 0x100 * w1 && w1 == w1 % 0x100 + 0x100 * w2 && w2 == w2 % 0x100 + 0x100 * (w2 / 0x100);
  }

  function WithByte(w: u32, k: int, b: byte): u32
    requires 0 <= k < 4
  {
    Join(if k == 0 then b else ByteOf(w, 0), if k == 1 then b else ByteOf(w, 1),
         if k == 2 then b else ByteOf(w, 2), if k == 3 then b else ByteOf(w, 3))
  }

  function ByteAt(m: Ram, a: u32): byte {
    ByteOf(m[a / 4], a % 4)
  }

  function PutByte(m: Ram, a: u32, b: byte): Ram {
    m[a / 4 := WithByte(m[a / 4], a % 4, b)]
  }

  /** Storing a byte changes that byte and no other. */
  lemma PutByteAt(m: Ram, a: u32, b: byte)
    ensures forall x: u32 :: ByteAt(PutByte(m, a, b), x) == if x == a then b else ByteAt(m, x)
    ensures forall w | 0 <= w < 0x4000_0000 && w != a / 4 :: PutByte(m, a, b)[w] == m[w]
  {
    var w, k := m[a / 4], a % 4;
    ByteOfJoin(if k == 0 then b else ByteOf(w, 0), if k == 1 then b else ByteOf(w, 1),
               if k == 2 then b else ByteOf(w, 2), if k == 3 then b else ByteOf(w, 3));
    forall x: u32
      ensures ByteAt(PutByte(m, a, b), x) == if x == a then b else ByteAt(m, x)
    {
      if x / 4 == a / 4 {
        assert x == a <==> x % 4 == k;
      }
    }
  }

  /** base[k], for an aligned pointer to 32-bit words. */
  function Element(m: Ram, base: u32, k: nat): u32 {
    m[Wrap(base + 4 * k) / 4]
  }

  /** Memory after base[k] = v. */
  function SetElement(m: Ram, base: u32, k: nat, v: u32): Ram {
    m[Wrap(base + 4 * k) / 4 := v]
  }

  /** The word and the half-word at any address, aligned or not. */
  function Load32(m: Ram, a: u32): u32 {
    Join(ByteAt(m, a), ByteAt(m, Wrap(a + 1)), ByteAt(m, Wrap(a + 2)), ByteAt(m, Wrap(a + 3)))
  }

  function Load16(m: Ram, a: u32): u32 {
    Join(ByteAt(m, a), ByteAt(m, Wrap(a + 1)), 0, 0)
  }

  /** The bytes of the word that an aligned address points to, the lowest address first. */
  lemma AlignedBytes(m: Ram, a: u32)
    requires a % 4 == 0
    ensures forall k | 0 <= k < 4 :: ByteAt(m, a + k) == ByteOf(m[a / 4], k)
    ensures m[a / 4] ==
            ByteAt(m, a) + 0x100 * ByteAt(m, a + 1) + 0x1_0000 * ByteAt(m, a + 2) + 0x100_0000 * ByteAt(m, a + 3)
  {
    forall k | 0 <= k < 4
      ensures ByteAt(m, a + k) == ByteOf(m[a / 4], k)
    {
      assert (a + k) / 4 == a / 4 && (a + k) % 4 == k;
    }
    JoinByteOf(m[a / 4]);
  }

  lemma LowHalf(b0: byte, b1: byte, b2: byte, b3: byte)
    ensures (b0 + 0x100 * b1 + 0x1_0000 * b2 + 0x100_0000 * b3) % 0x1_0000 == b0 + 0x100 * b1
  {
  }

  lemma JoinedLoads(w: u32, b0: byte, b1: byte, b2: byte, b3: byte)
    requires w == b0 + 0x100 * b1 + 0x1_0000 * b2 + 0x100_0000 * b3
    ensures Join(b0, b1, b2, b3) == w && Join(b0, b1, 0, 0) == w % 0x1_0000
  {
    LowHalf(b0, b1, b2, b3);
  }

  /** A load from an aligned address gives the word itself, or its low half. */
  lemma AlignedLoads(m: Ram, a: u32)
    requires a % 4 == 0
    ensures Load32(m, a) == m[a / 4] && Load16(m, a) == m[a / 4] % 0x1_0000
  {
    AlignedBytes(m, a);
    WrapBelow(a + 1);
    WrapBelow(a + 2);
    WrapBelow(a + 3);
    JoinedLoads(m[a / 4], ByteAt(m, a), ByteAt(m, a + 1), ByteAt(m, a + 2), ByteAt(m, a + 3));
  }

  /** Two memories that agree on the four bytes of a word agree on the word. */
  lemma SameBytesSameWord(m: Ram, m': Ram, w: nat)
    requires w < 0x4000_0000
    requires forall a: u32 | a / 4 == w :: ByteAt(m, a) == ByteAt(m', a)
    ensures m[w] == m'[w]
  {
    JoinByteOf(m[w]);
    JoinByteOf(m'[w]);
    forall k | 0 <= k < 4
      ensures ByteOf(m[w], k) == ByteOf(m'[w], k)
    {
      assert ByteAt(m, 4 * w + k) == ByteAt(m', 4 * w + k);
    }
  }
}
