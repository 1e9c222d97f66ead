/** Strings as the running code sees them: src/string/string.c on virtual addresses. */
module Strings {
  import opened Words
  import opened Memory
  import opened AddressSpaces
  import opened Kernel

  /** The physical address behind a virtual one, through a flat map. */
  function Via(flat: Flat, va: u32): u32 {
    AddressOf(FrameOf(flat[va / 4096])) + va % 4096
  }

  /** The byte that code sees at a virtual address. */
  function Seen(m: Ram, flat: Flat, va: u32): byte {
    ByteAt(m, Via(flat, va))
  }

  lemma TranslateVia(m: Ram, sp: Space, flat: Flat, va: u32)
    requires Maps(m, sp, flat)
    ensures Translate(m, sp.Dir(), va) == Via(flat, va)
  {
    var p: Page := va / 4096;
    assert Walk(m, sp.Dir(), p) == flat[p];
  }

  /** The i-th address from another; addresses wrap. */
  function Step(a: u32, i: nat): u32 {
    Wrap(a + i)
  }

  /** The string at an address as seen through a flat map: up to its NUL, and at most max - 1 bytes of it. */
  function CString(m: Ram, flat: Flat, va: u32, max: int): seq<byte>
    decreases max
  {
    if max <= 1 || Seen(m, flat, va) == 0 then []
    else [Seen(m, flat, va)] + CString(m, flat, Step(va, 1), max - 1)
  }

  /** The number of bytes that reading the string looks at: its NUL is read unless the limit comes first. */
  function BytesRead(s: seq<byte>, max: int): nat {
    if |s| < max - 1 then |s| + 1 else |s|
  }

  lemma WrapStep(va: u32, i: nat)
    ensures Step(Step(va, 1), i) == Step(va, i + 1)
  {
    WrapAdd(va + 1, i);
    assert va + 1 + i == va + (i + 1);
  }

  lemma {:induction false} CStringAt(m: Ram, flat: Flat, va: u32, max: int, i: nat)
    ensures var s := CString(m, flat, va, max);
            && (|s| == 0 || |s| < max)
            && (i < |s| ==> s[i] == Seen(m, flat, Step(va, i)) != 0)
            && (i == |s| < max - 1 ==> Seen(m, flat, Step(va, i)) == 0)
    decreases max
  {
    assert Step(va, 0) == va;
    if max > 1 && Seen(m, flat, va) != 0 {
      CStringAt(m, flat, Step(va, 1), max - 1, if i == 0 then 0 else i - 1);
      if i > 0 {
        WrapStep(va, i - 1);
      }
    }
  }

  lemma CStringShort(m: Ram, flat: Flat, va: u32, max: int)
    requires max >= 1
    ensures |CString(m, flat, va, max)| < max
  {
    CStringAt(m, flat, va, max, 0);
  }

  /** A memory that shows the bytes of s and then a NUL, or only the bytes when the limit is reached, shows s. */
  lemma {:induction false} CStringOf(m: Ram, flat: Flat, va: u32, max: int, s: seq<byte>)
    requires |s| == 0 || |s| < max
    requires forall i | 0 <= i < |s| :: s[i] != 0 && Seen(m, flat, Step(va, i)) == s[i]
    requires |s| < max - 1 ==> Seen(m, flat, Step(va, |s|)) == 0
    ensures CString(m, flat, va, max) == s
    decreases max
  {
    assert Step(va, 0) == va;
    if |s| > 0 {
      assert s[0] != 0 && Seen(m, flat, Step(va, 0)) == s[0];
      forall i | 0 <= i < |s[1..]|
        ensures s[1..][i] != 0 && Seen(m, flat, Step(Step(va, 1), i)) == s[1..][i]
      {
        WrapStep(va, i);
        assert s[i + 1] != 0;
      }
      WrapStep(va, |s| - 1);
      CStringOf(m, flat, Step(va, 1), max - 1, s[1..]);
    }
  }

  // Stores -----------------------------------------------------------------------------------

  /** The bytes bs are stored from d on, and no other byte changes. */
  ghost predicate Patched(m: Ram, m': Ram, d: u32, bs: seq<byte>) {
    forall x: u32 :: ByteAt(m', x) == if d <= x < d + |bs| then bs[x - d] else ByteAt(m, x)
  }

  lemma PatchedMore(m: Ram, m1: Ram, d: u32, bs: seq<byte>, b: byte)
    requires Patched(m, m1, d, bs) && d + |bs| < 0x1_0000_0000
    ensures Patched(m, PutByte(m1, d + |bs|, b), d, bs + [b])
  {
    var m2 := PutByte(m1, d + |bs|, b);
    PutByteAt(m1, d + |bs|, b);
    forall x: u32
      ensures ByteAt(m2, x) == if d <= x < d + |bs + [b]| then (bs + [b])[x - d] else ByteAt(m, x)
    {
      assert ByteAt(m2, x) == if x == d + |bs| then b else ByteAt(m1, x);
      assert ByteAt(m1, x) == if d <= x < d + |bs| then bs[x - d] else ByteAt(m, x);
    }
  }

  /** A stored byte leaves the words of other frames alone. */
  lemma PutByteFrame(m: Ram, a: u32, b: byte, f: Page, k: int)
    requires f != FrameOf(a) && 0 <= k < 1024
    ensures FrameWord(PutByte(m, a, b), f, k) == FrameWord(m, f, k)
  {
    PutByteAt(m, a, b);
  }

  lemma PutByteMaps(m: Ram, a: u32, b: byte, sp: Space, flat: Flat)
    requires Maps(m, sp, flat) && FrameOf(a) !in sp.frames
    ensures Maps(PutByte(m, a, b), sp, flat)
  {
    forall i, k | 0 <= i < |sp.frames| && 0 <= k < 1024
      ensures FrameWord(PutByte(m, a, b), sp.frames[i], k) == FrameWord(m, sp.frames[i], k)
    {
      PutByteFrame(m, a, b, sp.frames[i], k);
    }
    AgreeKeeps(m, PutByte(m, a, b), sp, flat);
  }

  // strncpy ------------------------------------------------------------------------------------

  /**
    The i-th byte of a destination can be stored: its page is present, it is the i-th byte from d on, and it is no part
    of the tables in use. Supervisor code may write to any page that is present.
  */
  predicate CanStore(sp: Space, flat: Flat, dest: u32, d: u32, i: nat) {
    && HasFlag(flat[Step(dest, i) / 4096], PRESENT)
    && Via(flat, Step(dest, i)) == d + i
    && FrameOf(Via(flat, Step(dest, i))) !in sp.frames
  }

  /** The i-th byte of a source can be read, and is not among the n bytes from d on. */
  predicate CanRead(flat: Flat, src: u32, d: u32, n: nat, i: nat) {
    && HasFlag(flat[Step(src, i) / 4096], PRESENT)
    && (Via(flat, Step(src, i)) < d || d + n <= Via(flat, Step(src, i)))
  }

  /** What copying a string needs of the address space in use. */
  ghost predicate Copyable(sp: Space, flat: Flat, dest: u32, d: u32, src: u32, readCount: nat, writeCount: nat) {
    && HasFlag(sp.flags, PRESENT)
    && d + writeCount <= 0x1_0000_0000
    && (forall i | 0 <= i < writeCount :: CanStore(sp, flat, dest, d, i))
    && (forall i | 0 <= i < readCount :: CanRead(flat, src, d, writeCount, i))
  }

  /** Copies the i-th byte unless it is the NUL. */
  method CopyByte(m: Machine, dest: u32, src: u32, count: int, i: nat, ghost sp: Space, ghost flat: Flat, ghost d: u32,
                  ghost before: Ram) returns (more: bool)
    requires Maps(m.ram, sp, flat) && m.currentDirectory == AddressOf(sp.Dir())
    requires i < count - 1 && i <= |CString(before, flat, src, count)|
    requires var s := CString(before, flat, src, count);
             Copyable(sp, flat, dest, d, src, BytesRead(s, count), |s| + 1) && Patched(before, m.ram, d, s[..i])
    modifies m`ram
    ensures var s := CString(before, flat, src, count);
            && (more <==> i < |s|) && (more && i + 1 == count - 1 ==> i + 1 == |s|)
            && Maps(m.ram, sp, flat) && Patched(before, m.ram, d, s[..if more then i + 1 else i])
  {
    ghost var s := CString(before, flat, src, count);
    CopyStep(before, flat, src, count, i);
    SeenPatched(before, m.ram, flat, src, d, |s| + 1, i, s[..i]);
    var b := LoadByte(m, Step(src, i), sp, flat);
    more := b != 0;
    if more {
      StoreByte(m, dest, i, b, sp, flat, d, s[..i], before);
      TakeMore(s, i);
    }
  }

  /** Copies the string at src to dest, in the address space that the processor uses, and ends it with a NUL. */
  method Strncpy(m: Machine, dest: u32, src: u32, count: int, ghost sp: Space, ghost flat: Flat, ghost d: u32)
    requires Maps(m.ram, sp, flat) && m.currentDirectory == AddressOf(sp.Dir())
    requires var s := CString(m.ram, flat, src, count);
             Copyable(sp, flat, dest, d, src, BytesRead(s, count), |s| + 1)
    modifies m`ram
    ensures Maps(m.ram, sp, flat)
    ensures Patched(old(m.ram), m.ram, d, CString(old(m.ram), flat, src, count) + [0])
  {
    ghost var s := CString(m.ram, flat, src, count);
    CStringAt(m.ram, flat, src, count, 0);
    var i := 0;
    while i < count - 1
      invariant 0 <= i <= |s| && (count <= 1 ==> i == 0)
      invariant Maps(m.ram, sp, flat) && Patched(old(m.ram), m.ram, d, s[..i])
      invariant i == count - 1 ==> i == |s|
      decreases count - 1 - i
    {
      var more := CopyByte(m, dest, src, count, i, sp, flat, d, old(m.ram));
      if !more {
        break;
      }
      i := i + 1;
    }
    TakeAll(s, i);
    StoreByte(m, dest, i, 0, sp, flat, d, s, old(m.ram));
  }

  /** What the next byte says while a string is copied. */
  lemma CopyStep(m: Ram, flat: Flat, src: u32, count: int, i: nat)
    requires i <= |CString(m, flat, src, count)| && i < count - 1
    ensures var s := CString(m, flat, src, count);
            && (Seen(m, flat, Step(src, i)) == 0 <==> i == |s|)
            && (i < |s| ==> s[i] == Seen(m, flat, Step(src, i)) && (i + 1 == count - 1 ==> i + 1 == |s|))
            && i < BytesRead(s, count)
  {
    CStringAt(m, flat, src, count, i);
    CStringAt(m, flat, src, count, i + 1);
  }

  lemma TakeMore(s: seq<byte>, i: nat)
    requires i < |s|
    ensures s[..i] + [s[i]] == s[..i + 1]
  {
  }

  lemma TakeAll(s: seq<byte>, i: nat)
    requires i == |s|
    ensures s[..i] == s
  {
  }

  /** The bytes stored so far do not change what is still to be read. */
  lemma SeenPatched(m: Ram, m': Ram, flat: Flat, src: u32, d: u32, n: nat, i: nat, bs: seq<byte>)
    requires Patched(m, m', d, bs) && CanRead(flat, src, d, n, i) && |bs| <= n
    ensures Seen(m', flat, Step(src, i)) == Seen(m, flat, Step(src, i))
  {
  }

  /** Supervisor code may read any page that is present; reading another one faults. */
  predicate Readable(sp: Space, flat: Flat, va: u32) {
    HasFlag(sp.flags, PRESENT) && HasFlag(flat[va / 4096], PRESENT)
  }

  /** One load of the copy. */
  method LoadByte(m: Machine, va: u32, ghost sp: Space, ghost flat: Flat) returns (b: byte)
    requires Maps(m.ram, sp, flat) && m.currentDirectory == AddressOf(sp.Dir()) && Readable(sp, flat, va)
    ensures b == Seen(m.ram, flat, va)
  {
    TranslateVia(m.ram, sp, flat, va);
    b := ByteAt(m.ram, Translate(m.ram, FrameOf(m.currentDirectory), va));
  }

  /** The i-th store of the copy. */
  method StoreByte(m: Machine, dest: u32, i: nat, b: byte, ghost sp: Space, ghost flat: Flat, ghost d: u32,
               ghost done: seq<byte>, ghost before: Ram)
    requires Maps(m.ram, sp, flat) && m.currentDirectory == AddressOf(sp.Dir())
    requires i == |done| && d + i < 0x1_0000_0000 && HasFlag(sp.flags, PRESENT) && CanStore(sp, flat, dest, d, i)
    requires Patched(before, m.ram, d, done)
    modifies m`ram
    ensures Maps(m.ram, sp, flat) && Patched(before, m.ram, d, done + [b])
  {
    TranslateVia(m.ram, sp, flat, Step(dest, i));
    var a := Translate(m.ram, FrameOf(m.currentDirectory), Step(dest, i));
    assert a == d + |done|;
    PutByteMaps(m.ram, a, b, sp, flat);
    PatchedMore(before, m.ram, d, done, b);
    m.ram := PutByte(m.ram, a, b);
  }
}
