/** The machine the kernel runs on, and src/memory/heap/kheap.c: zeroed allocations on top of the heap. */
module Kernel {
  import opened Words
  import opened Memory
  import opened BlockTable
  import opened AddressSpaces
  import H = Heap

  /** An allocation of one block, by its frame; base is the first frame of the arena. */
  predicate Single(base: nat, t: Table, f: Page) {
    base <= f < base + |t| && t[f - base] == SINGLE
  }

  /** Every frame of an address space is an allocation of its own. */
  ghost predicate Owned(sp: Space, base: nat, t: Table) {
    forall i | 0 <= i < |sp.frames| :: Single(base, t, sp.frames[i])
  }

  /** The address spaces in use, by their records: each is in memory and they share no frame. */
  ghost predicate SpacesOk(m: Ram, base: nat, t: Table, spaces: map<Page, Space>) {
    && (forall c | c in spaces :: InRam(m, spaces[c]) && spaces[c].Chunk() == c && Owned(spaces[c], base, t))
    && (forall c, d | c in spaces && d in spaces && c != d :: Apart(spaces[c], spaces[d]))
  }

  /** The frame f is none of any address space. */
  ghost predicate UnusedFrame(spaces: map<Page, Space>, f: Page) {
    forall c, i | c in spaces && 0 <= i < |spaces[c].frames| :: spaces[c].frames[i] != f
  }

  /** A free block is none, and no record of one. */
  lemma FreeUnused(m: Ram, base: nat, t: Table, spaces: map<Page, Space>, f: Page)
    requires SpacesOk(m, base, t, spaces) && base <= f < base + |t| && t[f - base] == FREE
    ensures UnusedFrame(spaces, f) && f !in spaces
  {
    forall c, i | c in spaces && 0 <= i < |spaces[c].frames|
      ensures spaces[c].frames[i] != f
    {
      assert Single(base, t, spaces[c].frames[i]);
    }
    assert forall c | c in spaces :: c == spaces[c].frames[1025] != f;
  }

  /** The bytes [a, a + n) are c and all others are as before. */
  ghost predicate Filled(m: Ram, m': Ram, a: u32, n: nat, c: byte) {
    forall x: u32 :: ByteAt(m', x) == if a <= x < a + n then c else ByteAt(m, x)
  }

  lemma FilledWord(m: Ram, m': Ram, a: u32, n: nat, w: nat)
    requires Filled(m, m', a, n, 0) && w < 0x4000_0000
    ensures 4 * w + 4 <= a || a + n <= 4 * w ==> m'[w] == m[w]
    ensures a <= 4 * w && 4 * w + 4 <= a + n ==> m'[w] == 0
  {
    if 4 * w + 4 <= a || a + n <= 4 * w {
      SameBytesSameWord(m, m', w);
    }
    if a <= 4 * w && 4 * w + 4 <= a + n {
      forall k | 0 <= k < 4
        ensures ByteOf(m'[w], k) == 0
      {
        assert ByteAt(m', 4 * w + k) == 0;
      }
      JoinByteOf(m'[w]);
    }
  }

  lemma FilledWords(m: Ram, m': Ram, a: u32, n: nat)
    requires Filled(m, m', a, n, 0)
    ensures forall w | 0 <= w < 0x4000_0000 && (4 * w + 4 <= a || a + n <= 4 * w) :: m'[w] == m[w]
    ensures forall w | 0 <= w < 0x4000_0000 && a <= 4 * w && 4 * w + 4 <= a + n :: m'[w] == 0
  {
    forall w | 0 <= w < 0x4000_0000
      ensures 4 * w + 4 <= a || a + n <= 4 * w ==> m'[w] == m[w]
      ensures a <= 4 * w && 4 * w + 4 <= a + n ==> m'[w] == 0
    {
      FilledWord(m, m', a, n, w);
    }
  }

  /** No word outside the frames from a to b changes. */
  ghost predicate OnlyFrames(m: Ram, m': Ram, a: int, b: int) {
    forall w | 0 <= w < 0x4000_0000 && (w < a * 1024 || b * 1024 <= w) :: m'[w] == m[w]
  }

  /** A frame that is not free: outside the arena, or in a taken block. */
  predicate InUse(base: nat, t: Table, f: Page) {
    f < base || base + |t| <= f || t[f - base] != FREE
  }

  /** No frame in use changes. */
  ghost predicate KeepsInUse(base: nat, t: Table, m: Ram, m': Ram) {
    forall f: Page, k | 0 <= k < 1024 && InUse(base, t, f) :: FrameWord(m', f, k) == FrameWord(m, f, k)
  }

  class Machine {
    var ram: Ram
    const heap: H.Heap
    // The directory that the processor walks (register CR3).
    var currentDirectory: u32
    // The record of the kernel's own address space.
    var kernelChunk: u32
    // The address spaces in use, by the frames of their records.
    ghost var spaces: map<Page, Space>

    constructor (heap: H.Heap)
      ensures this.heap == heap && currentDirectory == 0 && kernelChunk == 0 && spaces == map[]
    {
      this.heap := heap;
      ram := seq(0x4000_0000, _ => 0);
      currentDirectory, kernelChunk, spaces := 0, 0, map[];
    }

    ghost predicate Valid()
      reads this, heap, heap.entries
    {
      heap.Valid() && SpacesOk(ram, heap.Base(), heap.entries[..], spaces)
    }

    method Memset(a: u32, c: byte, n: nat)
      requires a + n <= 0x1_0000_0000
      modifies this`ram
      ensures Filled(old(ram), ram, a, n, c)
    {
      for i := 0 to n
        invariant Filled(old(ram), ram, a, i, c)
      {
        PutByteAt(ram, a + i, c);
        ram := PutByte(ram, a + i, c);
      }
    }

    /** A zeroed allocation: the first free run that holds size bytes. It touches no byte outside its own extent. */
    method Kzalloc(size: u32) returns (ptr: u32)
      requires heap.Valid()
      modifies this`ram, heap`live, heap.entries
      ensures heap.Valid()
      ensures var s := FirstFit(old(heap.entries[..]), H.BlocksFor(size));
              var n := H.BlocksFor(size);
              if s < 0 then
                ptr == 0 && ram == old(ram) && heap.entries[..] == old(heap.entries[..])
              else
                && n >= 1 && s + n <= heap.total
                && ptr == AddressOf(heap.Base() + s) != 0 && size <= n * 4096
                && Filled(old(ram), ram, ptr, size, 0)
                && OnlyFrames(old(ram), ram, heap.Base() + s, heap.Base() + s + n)
                && heap.entries[..] == Take(old(heap.entries[..]), s, n)
    {
      ghost var t, n := heap.entries[..], H.BlocksFor(size);
      FirstFitLeast(t, n);
      H.BlocksForCapacity(size);
      ptr := heap.Malloc(size);
      if ptr == 0 {
        return;
      }
      Memset(ptr, 0, size);
      FilledWords(old(ram), ram, ptr, size);
    }

    /** A zeroed allocation of one block succeeds while a block is free. */
    method KzallocOne(size: u32) returns (ptr: u32, ghost f: Page)
      requires heap.Valid() && 1 <= size <= 4096 && |FreeBlocks(heap.entries[..])| > 0
      modifies this`ram, heap`live, heap.entries
      ensures heap.Valid()
      ensures ptr == AddressOf(f) != 0 && heap.Base() <= f < heap.Base() + heap.entries.Length
      ensures var s := f - heap.Base();
              && s == FirstFit(old(heap.entries[..]), 1) && old(heap.entries[s]) == FREE
              && heap.entries[..] == old(heap.entries[..])[s := SINGLE]
      ensures Filled(old(ram), ram, ptr, size, 0) && OnlyFrames(old(ram), ram, f, f + 1)
      ensures |FreeBlocks(heap.entries[..])| == |FreeBlocks(old(heap.entries[..]))| - 1
    {
      OneBlock(heap.entries[..], heap.live, heap.stranded);
      ghost var s := FirstFit(heap.entries[..], 1);
      assert H.BlocksFor(size) == 1;
      ptr := Kzalloc(size);
      f := heap.Base() + s;
    }

    method Kfree(ptr: u32)
      requires heap.Valid() && heap.IsAllocation(ptr)
      modifies heap`live, heap`stranded, heap.entries
      ensures heap.Valid()
      ensures heap.entries[..] == Release(old(heap.entries[..]), FrameOf(ptr) - heap.Base())
    {
      heap.FreeExtent(ptr);
    }
  }
}
