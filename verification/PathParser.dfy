/** src/fs/pparser.c: parsing a path into a linked list of heap blocks, and freeing the list. */
module PathParser {
  import opened Words
  import opened Memory
  import opened BlockTable
  import opened AddressSpaces
  import opened Kernel
  import opened Chunks
  import opened Paths

  // Texts in memory -----------------------------------------------------------------------------

  /** p[i] */
  function CharAt(m: Ram, p: u32, i: nat): byte
    requires p + i < 0x1_0000_0000
  {
    ByteAt(m, p + i)
  }

  ghost predicate TextAt(m: Ram, p: u32, s: Text) {
    && p + |s| < 0x1_0000_0000
    && (forall i | 0 <= i < |s| :: CharAt(m, p, i) == s[i] != 0)
    && CharAt(m, p, |s|) == 0
  }

  /** What the i-th byte of a text says. */
  lemma TextByte(m: Ram, p: u32, s: Text, i: nat)
    requires TextAt(m, p, s) && i <= |s|
    ensures ByteAt(m, p + i) == CharAt(m, p, i) == if i < |s| then s[i] else 0
    ensures ByteAt(m, p + i) == 0 <==> i == |s|
  {
  }

  /** The frame of p[i]. */
  function CharFrame(p: u32, i: nat): Page
    requires p + i < 0x1_0000_0000
  {
    FrameOf(p + i)
  }

  /** No byte of a text, nor its NUL, is in a given frame. */
  ghost predicate TextOutside(p: u32, s: Text, f: Page)
    requires p + |s| < 0x1_0000_0000
  {
    forall i | 0 <= i <= |s| :: CharFrame(p, i) != f
  }

  ghost predicate TextInUse(base: nat, t: Table, p: u32, s: Text)
    requires p + |s| < 0x1_0000_0000
  {
    forall i | 0 <= i <= |s| :: InUse(base, t, CharFrame(p, i))
  }

  lemma SameChar(m: Ram, m': Ram, p: u32, i: nat)
    requires p + i < 0x1_0000_0000
    requires forall k | 0 <= k < 1024 :: FrameWord(m', CharFrame(p, i), k) == FrameWord(m, CharFrame(p, i), k)
    ensures CharAt(m', p, i) == CharAt(m, p, i)
  {
    var f, k := CharFrame(p, i), (p + i) % 4096 / 4;
    assert FrameWord(m', f, k) == FrameWord(m, f, k);
  }

  lemma TextKept(m: Ram, m': Ram, base: nat, t: Table, p: u32, s: Text)
    requires TextAt(m, p, s) && TextInUse(base, t, p, s) && KeepsInUse(base, t, m, m')
    ensures TextAt(m', p, s)
  {
    forall i | 0 <= i <= |s|
      ensures CharAt(m', p, i) == CharAt(m, p, i)
    {
      SameChar(m, m', p, i);
    }
  }

  /** A text goes on from each of its bytes. */
  lemma TextFrom(m: Ram, p: u32, s: Text, d: nat)
    requires TextAt(m, p, s) && d <= |s|
    ensures TextAt(m, p + d, s[d..])
  {
    forall i | 0 <= i <= |s[d..]|
      ensures CharAt(m, p + d, i) == CharAt(m, p, d + i)
      ensures i < |s[d..]| ==> s[d..][i] == s[d + i]
    {
    }
  }

  lemma SameCharFrame(p: u32, d: nat, i: nat)
    requires p + d + i < 0x1_0000_0000
    ensures CharFrame(p + d, i) == CharFrame(p, d + i)
  {
    assert p + d + i == p + (d + i);
  }

  lemma TextInUseFrom(base: nat, t: Table, p: u32, s: Text, d: nat, q: u32)
    requires d <= |s| && q == p + d && p + |s| < 0x1_0000_0000 && TextInUse(base, t, p, s)
    ensures TextInUse(base, t, q, s[d..])
  {
    forall i | 0 <= i <= |s[d..]|
      ensures InUse(base, t, CharFrame(q, i))
    {
      SameCharFrame(p, d, i);
    }
  }

  /** What follows its first name is a text. */
  lemma TextAfter(m: Ram, base: nat, t: Table, p: u32, s: Text)
    requires TextAt(m, p, s) && TextInUse(base, t, p, s)
    ensures |After(s)| <= |s|
    ensures TextAt(m, p + (|s| - |After(s)|), After(s)) && TextInUse(base, t, p + (|s| - |After(s)|), After(s))
  {
    var d := AfterStart(s);
    TextFrom(m, p, s, d);
    TextInUseFrom(base, t, p, s, d, p + d);
  }

  lemma AfterStart(s: Text) returns (d: nat)
    ensures d <= |s| && After(s) == s[d..] && |After(s)| == |s| - d
  {
    d := if NameEnd(s) < |s| then NameEnd(s) + 1 else |s|;
  }

  /** A name buffer: the bytes of a name, and then zeros. */
  ghost predicate Buffer(m: Ram, f: Page, name: Text) {
    && |name| < 128
    && forall k | 0 <= k < 128 :: CharAt(m, AddressOf(f), k) == if k < |name| then name[k] else 0
  }

  method Strlen(m: Machine, p: u32, ghost s: Text) returns (n: nat)
    requires TextAt(m.ram, p, s)
    ensures n == |s|
  {
    n := 0;
    TextByte(m.ram, p, s, 0);
    while ByteAt(m.ram, p + n) != 0
      invariant n <= |s| && (ByteAt(m.ram, p + n) == 0 <==> n == |s|)
      decreases |s| - n
    {
      n := n + 1;
      TextByte(m.ram, p, s, n);
    }
  }

  method IsValidPath(m: Machine, p: u32, ghost s: Text) returns (valid: bool)
    requires TextAt(m.ram, p, s)
    ensures valid <==> ValidPath(s)
    ensures valid <==> 3 <= |s| <= 128 && 0x30 <= s[0] <= 0x39 && s[1] == 0x3a && s[2] == 0x2f
  {
    var n := Strlen(m, p, s);
    if n > MAX_PATH || n < 3 {
      return false;
    }
    TextByte(m.ram, p, s, 0);
    TextByte(m.ram, p, s, 1);
    TextByte(m.ram, p, s, 2);
    if !(ZERO <= ByteAt(m.ram, p) < ZERO + 10) {
      return false;
    }
    valid := ByteAt(m.ram, p + 1) == COLON && ByteAt(m.ram, p + 2) == SLASH;
  }

  // One name ---------------------------------------------------------------------------------------

  /** One byte more in a name buffer; nothing outside its frame changes. */
  lemma BufferMore(m: Ram, f: Page, name: Text, b: byte)
    requires Buffer(m, f, name) && |name| < 127
    ensures Buffer(PutByte(m, AddressOf(f) + |name|, b), f, name + [b])
    ensures OnlyFrames(m, PutByte(m, AddressOf(f) + |name|, b), f, f + 1)
  {
    var a, m' := AddressOf(f) + |name|, PutByte(m, AddressOf(f) + |name|, b);
    PutByteAt(m, a, b);
    forall k | 0 <= k < 128
      ensures CharAt(m', AddressOf(f), k) == if k < |name + [b]| then (name + [b])[k] else 0
    {
      assert CharAt(m', AddressOf(f), k) == if k == |name| then b else CharAt(m, AddressOf(f), k);
    }
    WordOfFrame(f, |name|);
  }

  lemma WordOfFrame(f: Page, k: nat)
    requires k < 4096
    ensures f * 1024 <= (AddressOf(f) + k) / 4 < (f + 1) * 1024
  {
  }

  lemma OnlyFramesTrans(m: Ram, m1: Ram, m2: Ram, f: Page)
    requires OnlyFrames(m, m1, f, f + 1) && OnlyFrames(m1, m2, f, f + 1)
    ensures OnlyFrames(m, m2, f, f + 1)
  {
  }

  lemma AfterLength(s: Text)
    ensures |After(s)| == if NameEnd(s) < |s| then |s| - NameEnd(s) - 1 else 0
  {
  }

  /** Copying goes on up to the end e of the name. */
  lemma CopyGoesOn(m: Ram, p: u32, s: Text, e: nat, i: nat, q: u32)
    requires TextAt(m, p, s) && i <= e <= |s| && q == p + i
    requires (forall k | 0 <= k < e :: s[k] != SLASH) && (e < |s| ==> s[e] == SLASH)
    ensures ByteAt(m, q) == SLASH || ByteAt(m, q) == 0 <==> i == e
    ensures i == e ==> (ByteAt(m, q) == SLASH <==> e < |s|)
  {
    TextByte(m, p, s, i);
  }

  /** Copies the name that a text starts with into a cleared buffer, and moves on behind it and its slash. */
  method CopyName(m: Machine, p: u32, name: u32, ghost s: Text, ghost f: Page) returns (i: nat, q: u32)
    requires name == AddressOf(f) && Buffer(m.ram, f, []) && |s| < 127
    requires TextAt(m.ram, p, s) && TextOutside(p, s, f)
    modifies m`ram
    ensures i == NameEnd(s) && q == p + (|s| - |After(s)|)
    ensures Buffer(m.ram, f, s[..i]) && OnlyFrames(old(m.ram), m.ram, f, f + 1)
  {
    i, q := 0, p;
    while ByteAt(m.ram, q) != SLASH && ByteAt(m.ram, q) != 0
      invariant i <= NameEnd(s) && q == p + i
      invariant Buffer(m.ram, f, s[..i]) && OnlyFrames(old(m.ram), m.ram, f, f + 1)
      invariant TextAt(m.ram, p, s)
      decreases |s| - i
    {
      CopyGoesOn(m.ram, p, s, NameEnd(s), i, q);
      ghost var last := m.ram;
      i, q := CopyByte(m, p, q, name, s, f, i);
      OnlyFramesTrans(old(m.ram), last, m.ram, f);
    }
    CopyGoesOn(m.ram, p, s, NameEnd(s), i, q);
    AfterLength(s);
    if ByteAt(m.ram, q) == SLASH {
      q := q + 1;
    }
  }

  method CopyByte(m: Machine, p: u32, q: u32, name: u32, ghost s: Text, ghost f: Page, i: nat)
    returns (i': nat, q': u32)
    requires name == AddressOf(f) && i < |s| < 127 && q == p + i
    requires TextAt(m.ram, p, s) && TextOutside(p, s, f) && Buffer(m.ram, f, s[..i])
    modifies m`ram
    ensures i' == i + 1 && q' == q + 1 && TextAt(m.ram, p, s)
    ensures Buffer(m.ram, f, s[..i + 1]) && OnlyFrames(old(m.ram), m.ram, f, f + 1)
  {
    var b := ByteAt(m.ram, q);
    TextByte(m.ram, p, s, i);
    assert s[..i + 1] == s[..i] + [s[i]];
    BufferMore(m.ram, f, s[..i], b);
    m.ram := PutByte(m.ram, name + i, b);
    TextOutsideKept(old(m.ram), m.ram, p, s, f);
    i', q' := i + 1, q + 1;
  }

  lemma TextOutsideKept(m: Ram, m': Ram, p: u32, s: Text, f: Page)
    requires TextAt(m, p, s) && TextOutside(p, s, f) && OnlyFrames(m, m', f, f + 1)
    ensures TextAt(m', p, s)
  {
    forall i | 0 <= i <= |s|
      ensures CharAt(m', p, i) == CharAt(m, p, i)
    {
      assert CharFrame(p, i) != f;
      SameChar(m, m', p, i);
    }
  }

  /** From a view to another a block was allocated in frame f, and only its frame changed. */
  ghost predicate NewBlock(base: nat, a: View, b: View, f: Page) {
    && base <= f < base + |a.table| && a.table[f - base] == FREE && b.table == a.table[f - base := SINGLE]
    && KeepsInUse(base, a.table, a.ram, b.ram)
  }

  /** A new buffer with the name that a text starts with, even if it is empty. */
  method FetchName(m: Machine, p: u32, ghost s: Text) returns (name: u32, q: u32, i: nat, ghost f: Page)
    requires m.heap.Valid() && |FreeBlocks(m.heap.entries[..])| > 0 && |s| < 127
    requires TextAt(m.ram, p, s) && TextInUse(m.heap.Base(), m.heap.entries[..], p, s)
    modifies m`ram, m.heap`live, m.heap.entries
    ensures m.heap.Valid() && q == p + (|s| - |After(s)|) && i == NameEnd(s)
    ensures name == AddressOf(f) != 0 && Buffer(m.ram, f, s[..i])
    ensures NewBlock(m.heap.Base(), old(View(m.ram, m.heap.entries[..])), View(m.ram, m.heap.entries[..]), f)
    ensures |FreeBlocks(m.heap.entries[..])| == |FreeBlocks(old(m.heap.entries[..]))| - 1
  {
    ghost var base, t, before := m.heap.Base(), m.heap.entries[..], m.ram;
    name, f := m.KzallocOne(128);
    FreshFrame(base, t, before, m.ram, f, p, s);
    ghost var cleared := m.ram;
    i, q := CopyName(m, p, name, s, f);
    OneFrameKeeps(base, t, before, cleared, m.ram, f);
  }

  /**
    The next name of a text, in a buffer of its own. For an empty one the buffer is freed again, and the block table is
    as it was.
  */
  method GetNextPathPart(m: Machine, p: u32, ghost s: Text) returns (name: u32, q: u32, ghost f: Page)
    requires m.heap.Valid() && |FreeBlocks(m.heap.entries[..])| > 0 && |s| < 127
    requires TextAt(m.ram, p, s) && TextInUse(m.heap.Base(), m.heap.entries[..], p, s)
    modifies m`ram, m.heap`live, m.heap`stranded, m.heap.entries
    ensures m.heap.Valid() && q == p + (|s| - |After(s)|)
    ensures NameEnd(s) == 0 ==>
              && name == 0 && m.heap.entries[..] == old(m.heap.entries[..])
              && KeepsInUse(m.heap.Base(), old(m.heap.entries[..]), old(m.ram), m.ram)
    ensures NameEnd(s) > 0 ==>
              && name == AddressOf(f) != 0 && Buffer(m.ram, f, s[..NameEnd(s)])
              && NewBlock(m.heap.Base(), old(View(m.ram, m.heap.entries[..])), View(m.ram, m.heap.entries[..]), f)
              && |FreeBlocks(m.heap.entries[..])| == |FreeBlocks(old(m.heap.entries[..]))| - 1
  {
    var i;
    ghost var a := View(m.ram, m.heap.entries[..]);
    name, q, i, f := FetchName(m, p, s);
    if i == 0 {
      Discard(m, name, a, f);
      name := 0;
    }
  }

  /** Frees a block that was just allocated. */
  method Discard(m: Machine, ptr: u32, ghost a: View, ghost f: Page)
    requires m.heap.Valid() && ptr == AddressOf(f)
    requires NewBlock(m.heap.Base(), a, View(m.ram, m.heap.entries[..]), f)
    modifies m.heap`live, m.heap`stranded, m.heap.entries
    ensures m.heap.Valid() && m.heap.entries[..] == a.table
  {
    SingleIsAllocation(m.heap, f);
    m.Kfree(ptr);
  }

  /** Changes in a frame that is not in use. */
  lemma OneFrameKeeps(base: nat, t: Table, m: Ram, m1: Ram, m2: Ram, f: Page)
    requires base <= f < base + |t| && t[f - base] == FREE
    requires OnlyFrames(m, m1, f, f + 1) && OnlyFrames(m1, m2, f, f + 1)
    ensures KeepsInUse(base, t, m, m2)
  {
    forall g: Page, k | 0 <= k < 1024 && InUse(base, t, g)
      ensures FrameWord(m2, g, k) == FrameWord(m, g, k)
    {
      assert g != f;
    }
  }

  lemma FreshFrame(base: nat, t: Table, m: Ram, m': Ram, f: Page, p: u32, s: Text)
    requires base <= f < base + |t| && t[f - base] == FREE
    requires OnlyFrames(m, m', f, f + 1) && Filled(m, m', AddressOf(f), 128, 0)
    requires TextAt(m, p, s) && TextInUse(base, t, p, s)
    ensures TextAt(m', p, s) && TextOutside(p, s, f) && Buffer(m', f, [])
  {
    forall i | 0 <= i <= |s|
      ensures CharFrame(p, i) != f
    {
      assert InUse(base, t, CharFrame(p, i));
    }
    TextOutsideKept(m, m', p, s, f);
  }
}
