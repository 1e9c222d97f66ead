/** src/task/task.c: address spaces of tasks, and copying a string out of one of them. */
module Tasks {
  import opened Words
  import opened Memory
  import opened BlockTable
  import opened AddressSpaces
  import opened Kernel
  import opened Paging
  import opened Chunks
  import opened Strings
  import H = Heap

  /** Makes the processor walk another directory. */
  method Switch(m: Machine, chunk: u32, ghost sp: Space)
    requires InRam(m.ram, sp) && chunk == AddressOf(sp.Chunk())
    modifies m`currentDirectory
    ensures m.currentDirectory == AddressOf(sp.Dir())
  {
    RecordPointsToDirectory(m.ram, sp);
    m.currentDirectory := Element(m.ram, chunk, 0);
  }

  // Seeing a string of a task ----------------------------------------------------------------

  /**
    The i-th byte of a source is not disturbed by the scratch page: it is present, it is not seen through the page that
    is mapped over, and it lies neither in the scratch frame nor in the one word of the tables that is rewritten.
  */
  predicate SourceClear(sp: Space, flat: Flat, scratch: Page, va: u32, i: nat)
    requires |sp.frames| == 1026
  {
    && HasFlag(flat[Step(va, i) / 4096], PRESENT)
    && Step(va, i) / 4096 != scratch
    && FrameOf(Via(flat, Step(va, i))) != scratch
    && Via(flat, Step(va, i)) / 4 != EntryWord(sp, scratch)
  }

  /** The word of memory that holds the entry of a page. */
  function EntryWord(sp: Space, p: Page): nat
    requires |sp.frames| == 1026
  {
    sp.frames[p / 1024] * 1024 + p % 1024
  }

  /** The flat map while the scratch frame is mapped over its own address. */
  function ScratchMapped(flat: Flat, scratch: Page): Flat {
    flat[scratch := AddressOf(scratch) + 7]
  }

  lemma SelfEntry(flat: Flat, f: Page, flags: nat)
    requires flags < 4096
    ensures flat[FrameOf(AddressOf(f)) := Or(AddressOf(f), Wrap(flags))] == flat[f := AddressOf(f) + flags]
    ensures FrameOf(AddressOf(f)) == f && Or(AddressOf(f), Wrap(flags)) == AddressOf(f) + flags
  {
    var a: u32 := AddressOf(f);
    assert FrameOf(a) == f && Wrap(flags) == flags;
    assert Or(a, flags) == a + flags by { OrFlags(a, 0, flags); }
  }

  /** What is stored inside one frame changes no word of another. */
  lemma PatchedFrame(m: Ram, m': Ram, d: u32, bs: seq<byte>, f: Page, k: int)
    requires Patched(m, m', d, bs) && 0 <= k < 1024
    requires AddressOf(f) + 4096 <= d || d + |bs| <= AddressOf(f)
    ensures FrameWord(m', f, k) == FrameWord(m, f, k)
  {
    SameBytesSameWord(m, m', f * 1024 + k);
  }

  lemma PatchedMaps(m: Ram, m': Ram, d: u32, bs: seq<byte>, sp: Space, flat: Flat)
    requires Patched(m, m', d, bs) && Maps(m, sp, flat)
    requires forall i | 0 <= i < |sp.frames| ::
               AddressOf(sp.frames[i]) + 4096 <= d || d + |bs| <= AddressOf(sp.frames[i])
    ensures Maps(m', sp, flat)
  {
    forall i, k | 0 <= i < |sp.frames| && 0 <= k < 1024
      ensures FrameWord(m', sp.frames[i], k) == FrameWord(m, sp.frames[i], k)
    {
      PatchedFrame(m, m', d, bs, sp.frames[i], k);
    }
    AgreeKeeps(m, m', sp, flat);
  }

  /** The string looks the same after the tables change, if none of its bytes is affected. */
  lemma {:induction false} SameString(m: Ram, m': Ram, flat: Flat, flat': Flat, va: u32, max: int)
    requires forall i | 0 <= i < BytesRead(CString(m, flat, va, max), max) ::
               Seen(m', flat', Step(va, i)) == Seen(m, flat, Step(va, i))
    ensures CString(m', flat', va, max) == CString(m, flat, va, max)
  {
    var s := CString(m, flat, va, max);
    CStringAt(m, flat, va, max, 0);
    forall i | 0 <= i < |s|
      ensures s[i] != 0 && Seen(m', flat', Step(va, i)) == s[i]
    {
      CStringAt(m, flat, va, max, i);
    }
    CStringAt(m, flat, va, max, |s|);
    CStringOf(m', flat', va, max, s);
  }

  /** Mapping the scratch frame does not change how the string is seen. */
  lemma SourceStays(m: Ram, m': Ram, sp: Space, flat: Flat, scratch: Page, va: u32, max: int)
    requires sp.Shaped() && m' == SetEntry(m, sp, scratch, AddressOf(scratch) + 7)
    requires forall i | 0 <= i < BytesRead(CString(m, flat, va, max), max) :: SourceClear(sp, flat, scratch, va, i)
    ensures CString(m', ScratchMapped(flat, scratch), va, max) == CString(m, flat, va, max)
  {
    var flat' := ScratchMapped(flat, scratch);
    forall i | 0 <= i < BytesRead(CString(m, flat, va, max), max)
      ensures Seen(m', flat', Step(va, i)) == Seen(m, flat, Step(va, i))
    {
      assert SourceClear(sp, flat, scratch, va, i);
      assert Via(flat', Step(va, i)) == Via(flat, Step(va, i));
      OtherByte(m, sp, scratch, AddressOf(scratch) + 7, Via(flat, Step(va, i)));
    }
    SameString(m, m', flat, flat', va, max);
  }

  /** Setting an entry changes the bytes of its word alone. */
  lemma OtherByte(m: Ram, sp: Space, p: Page, v: u32, x: u32)
    requires sp.Shaped() && x / 4 != EntryWord(sp, p)
    ensures ByteAt(SetEntry(m, sp, p, v), x) == ByteAt(m, x)
  {
  }

  lemma ScratchStore(sp: Space, flat: Flat, scratch: Page, i: nat)
    requires scratch !in sp.frames && i < 4096
    ensures CanStore(sp, ScratchMapped(flat, scratch), AddressOf(scratch), AddressOf(scratch), i)
  {
    var a := AddressOf(scratch);
    var e := a + 7;
    assert Step(a, i) == a + i;
    assert (a + i) / 4096 == scratch && (a + i) % 4096 == i;
    assert FrameOf(e) == scratch && HasFlag(e, PRESENT);
    assert Via(ScratchMapped(flat, scratch), a + i) == a + i;
  }

  lemma ScratchRead(sp: Space, flat: Flat, scratch: Page, va: u32, n: nat, i: nat)
    requires |sp.frames| == 1026 && SourceClear(sp, flat, scratch, va, i) && n <= 4096
    ensures CanRead(ScratchMapped(flat, scratch), va, AddressOf(scratch), n, i)
  {
    var x := Via(flat, Step(va, i));
    assert Via(ScratchMapped(flat, scratch), Step(va, i)) == x;
    assert FrameOf(x) != scratch;
  }

  /** With the scratch frame mapped, the string can be copied to it. */
  lemma ScratchCopyable(m: Ram, sp: Space, flat: Flat, scratch: Page, va: u32, max: int)
    requires HasFlag(sp.flags, PRESENT) && |sp.frames| == 1026 && scratch !in sp.frames && 1 <= max < 4096
    requires forall i | 0 <= i < BytesRead(CString(m, flat, va, max), max) :: SourceClear(sp, flat, scratch, va, i)
    ensures var s := CString(m, flat, va, max);
            Copyable(sp, ScratchMapped(flat, scratch), AddressOf(scratch), AddressOf(scratch), va,
                     BytesRead(s, max), |s| + 1)
  {
    CStringAt(m, flat, va, max, 0);
    var s := CString(m, flat, va, max);
    var n := |s| + 1;
    forall i: nat | i < n
      ensures CanStore(sp, ScratchMapped(flat, scratch), AddressOf(scratch), AddressOf(scratch), i)
    {
      ScratchStore(sp, flat, scratch, i);
    }
    forall i: nat | i < BytesRead(s, max)
      ensures CanRead(ScratchMapped(flat, scratch), va, AddressOf(scratch), n, i)
    {
      ScratchRead(sp, flat, scratch, va, n, i);
    }
  }

  /** Memory holds the bytes bs from a on. */
  ghost predicate Shows(m: Ram, a: u32, bs: seq<byte>) {
    a + |bs| <= 0x1_0000_0000 && forall i | 0 <= i < |bs| :: ByteAt(m, a + i) == bs[i]
  }

  /** What a task needs of memory while a string is fetched from it: its own tables and those of the kernel. */
  ghost predicate Ready(m: Ram, sp: Space, flat: Flat, ks: Space, kflat: Flat, scratch: Page) {
    && Maps(m, sp, flat) && Maps(m, ks, kflat) && Apart(sp, ks)
    && scratch !in sp.frames && scratch !in ks.frames
  }

  /** Changing the tables of the task leaves the kernel's address space alone. */
  lemma KernelStays(m: Ram, m1: Ram, sp: Space, ks: Space, kflat: Flat)
    requires Maps(m, ks, kflat) && sp.Shaped() && Apart(sp, ks) && OnlyTables(m, m1, sp)
    ensures Maps(m1, ks, kflat)
  {
    OnlyTablesApart(m, m1, sp, ks);
    AgreeKeeps(m, m1, ks, kflat);
  }

  /** So does changing the scratch frame. */
  lemma KernelMissed(m1: Ram, m2: Ram, ks: Space, kflat: Flat, scratch: Page, bs: seq<byte>)
    requires Maps(m1, ks, kflat) && scratch !in ks.frames && Patched(m1, m2, AddressOf(scratch), bs) && |bs| <= 4096
    ensures Maps(m2, ks, kflat)
  {
    forall i | 0 <= i < |ks.frames|
      ensures || AddressOf(ks.frames[i]) + 4096 <= AddressOf(scratch)
              || AddressOf(scratch) + |bs| <= AddressOf(ks.frames[i])
    {
      assert ks.frames[i] != scratch;
    }
    PatchedMaps(m1, m2, AddressOf(scratch), bs, ks, kflat);
  }

  method MapScratch(m: Machine, chunk: u32, scratch: u32, ghost sp: Space, ghost flat: Flat, ghost f: Page)
    requires Maps(m.ram, sp, flat) && chunk == AddressOf(sp.Chunk()) && scratch == AddressOf(f)
    modifies m`ram
    ensures Maps(m.ram, sp, ScratchMapped(flat, f)) && OnlyTables(old(m.ram), m.ram, sp)
    ensures m.ram == SetEntry(old(m.ram), sp, f, AddressOf(f) + 7)
  {
    FrameAddress(f);
    SelfEntry(flat, f, 7);
    var res := Map(m, chunk, scratch, scratch, 7, sp, flat);
  }

  /** Maps the scratch frame so that the string can be copied to it and looks the same. */
  method MapForCopy(m: Machine, chunk: u32, va: u32, scratch: u32, max: int, ghost sp: Space, ghost flat: Flat,
                    ghost f: Page)
    requires Maps(m.ram, sp, flat) && HasFlag(sp.flags, PRESENT) && f !in sp.frames
    requires chunk == AddressOf(sp.Chunk()) && scratch == AddressOf(f) && 1 <= max < 4096
    requires forall i | 0 <= i < BytesRead(CString(m.ram, flat, va, max), max) :: SourceClear(sp, flat, f, va, i)
    modifies m`ram
    ensures Maps(m.ram, sp, ScratchMapped(flat, f)) && OnlyTables(old(m.ram), m.ram, sp)
    ensures var s := CString(old(m.ram), flat, va, max);
            && CString(m.ram, ScratchMapped(flat, f), va, max) == s
            && Copyable(sp, ScratchMapped(flat, f), scratch, scratch, va, BytesRead(s, max), |s| + 1)
  {
    ScratchCopyable(m.ram, sp, flat, f, va, max);
    MapScratch(m, chunk, scratch, sp, flat, f);
    SourceStays(old(m.ram), m.ram, sp, flat, f, va, max);
  }

  /** Copies the string to the scratch frame as the task sees it, and goes back to the kernel's address space. */
  method CopyMapped(m: Machine, chunk: u32, va: u32, scratch: u32, max: int, ghost sp: Space, ghost flat: Flat,
                    ghost ks: Space, ghost kflat: Flat, ghost f: Page, ghost s: seq<byte>)
    requires Maps(m.ram, sp, flat) && Maps(m.ram, ks, kflat) && f !in ks.frames
    requires chunk == AddressOf(sp.Chunk()) && m.kernelChunk == AddressOf(ks.Chunk())
    requires scratch == AddressOf(f) && |s| < max < 4096 && CString(m.ram, flat, va, max) == s
    requires Copyable(sp, flat, scratch, scratch, va, BytesRead(s, max), |s| + 1)
    modifies m`ram, m`currentDirectory
    ensures m.currentDirectory == AddressOf(ks.Dir())
    ensures Maps(m.ram, sp, flat) && Maps(m.ram, ks, kflat)
    ensures Patched(old(m.ram), m.ram, scratch, s + [0])
  {
    Switch(m, chunk, sp);
    Strncpy(m, scratch, va, max, sp, flat, scratch);
    KernelMissed(old(m.ram), m.ram, ks, kflat, f, s + [0]);
    Switch(m, m.kernelChunk, ks);
  }

  /** Maps the scratch frame over its own address in the task, and copies the string to it as the task sees it. */
  method CopyInTask(m: Machine, chunk: u32, va: u32, scratch: u32, max: int, ghost sp: Space, ghost flat: Flat,
                    ghost ks: Space, ghost kflat: Flat, ghost f: Page) returns (ghost mapped: Ram)
    requires Ready(m.ram, sp, flat, ks, kflat, f) && HasFlag(sp.flags, PRESENT)
    requires chunk == AddressOf(sp.Chunk()) && m.kernelChunk == AddressOf(ks.Chunk())
    requires scratch == AddressOf(f) && 1 <= max < 4096
    requires forall i | 0 <= i < BytesRead(CString(m.ram, flat, va, max), max) :: SourceClear(sp, flat, f, va, i)
    modifies m`ram, m`currentDirectory
    ensures m.currentDirectory == AddressOf(ks.Dir())
    ensures Maps(m.ram, sp, ScratchMapped(flat, f)) && Maps(m.ram, ks, kflat)
    ensures |CString(old(m.ram), flat, va, max)| < max
    ensures OnlyTables(old(m.ram), mapped, sp)
    ensures Patched(mapped, m.ram, scratch, CString(old(m.ram), flat, va, max) + [0])
  {
    ghost var s := CString(m.ram, flat, va, max);
    CStringShort(m.ram, flat, va, max);
    MapForCopy(m, chunk, va, scratch, max, sp, flat, f);
    mapped := m.ram;
    KernelStays(old(m.ram), mapped, sp, ks, kflat);
    CopyMapped(m, chunk, va, scratch, max, sp, ScratchMapped(flat, f), ks, kflat, f, s);
  }

  /**
    Copies a string of the task to the scratch frame, and then restores the entry that was mapped over. The task's flat
    map is as before, the scratch frame starts with the string as the task saw it, and no frame but it and the task's
    tables changes.
  */
  method FetchString(m: Machine, chunk: u32, va: u32, scratch: u32, max: int, ghost sp: Space, ghost flat: Flat,
                     ghost ks: Space, ghost kflat: Flat, ghost f: Page) returns (res: int)
    requires Ready(m.ram, sp, flat, ks, kflat, f) && HasFlag(sp.flags, PRESENT)
    requires chunk == AddressOf(sp.Chunk()) && m.kernelChunk == AddressOf(ks.Chunk())
    requires scratch == AddressOf(f) && 1 <= max < 4096
    requires forall i | 0 <= i < BytesRead(CString(m.ram, flat, va, max), max) :: SourceClear(sp, flat, f, va, i)
    modifies m`ram, m`currentDirectory
    ensures res == OK && m.currentDirectory == AddressOf(ks.Dir())
    ensures Maps(m.ram, sp, flat) && Maps(m.ram, ks, kflat)
    ensures |CString(old(m.ram), flat, va, max)| < max
    ensures Shows(m.ram, scratch, CString(old(m.ram), flat, va, max) + [0])
    ensures forall g: Page, k | 0 <= k < 1024 && g != f && !IsTable(sp, g) ::
              FrameWord(m.ram, g, k) == FrameWord(old(m.ram), g, k)
  {
    ghost var s := CString(m.ram, flat, va, max);
    RecordPointsToDirectory(m.ram, sp);
    FrameAddress(f);
    var directory := Element(m.ram, chunk, 0);
    var entry := GetTableEntry(m, directory, scratch, sp, flat);
    ghost var mapped := CopyInTask(m, chunk, va, scratch, max, sp, flat, ks, kflat, f);
    ghost var copied := m.ram;
    res := Set(m, directory, scratch, entry, sp, ScratchMapped(flat, f));
    assert ScratchMapped(flat, f)[f := flat[f]] == flat;
    FetchedFrames(old(m.ram), mapped, copied, m.ram, sp, ks, kflat, f, s + [0]);
  }

  /** What the steps of fetching a string leave in memory. */
  lemma FetchedFrames(m: Ram, mapped: Ram, copied: Ram, m': Ram, sp: Space, ks: Space, kflat: Flat, f: Page,
                      bs: seq<byte>)
    requires sp.Shaped() && Apart(sp, ks) && f !in sp.frames && |bs| <= 4096 && Maps(copied, ks, kflat)
    requires OnlyTables(m, mapped, sp) && Patched(mapped, copied, AddressOf(f), bs) && OnlyTables(copied, m', sp)
    ensures Maps(m', ks, kflat)
    ensures Shows(m', AddressOf(f), bs)
    ensures forall g: Page, k | 0 <= k < 1024 && g != f && !IsTable(sp, g) :: FrameWord(m', g, k) == FrameWord(m, g, k)
  {
    OnlyTablesApart(copied, m', sp, ks);
    AgreeKeeps(copied, m', ks, kflat);
    assert !IsTable(sp, f);
    forall i | 0 <= i < |bs|
      ensures ByteAt(m', AddressOf(f) + i) == bs[i]
    {
      assert FrameOf(AddressOf(f) + i) == f;
      FrameByte(copied, m', AddressOf(f) + i);
    }
    forall g: Page, k | 0 <= k < 1024 && g != f && !IsTable(sp, g)
      ensures FrameWord(m', g, k) == FrameWord(m, g, k)
    {
      PatchedFrame(mapped, copied, AddressOf(f), bs, g, k);
      assert FrameWord(mapped, g, k) == FrameWord(m, g, k);
      assert FrameWord(m', g, k) == FrameWord(copied, g, k);
    }
  }

  // Copying it to the kernel ---------------------------------------------------------------------

  lemma IdentityVia(a: u32, flags: byte)
    ensures Via(IdentityFlat(flags), a) == a
    ensures HasFlag(flags, PRESENT) ==> HasFlag(IdentityFlat(flags)[a / 4096], PRESENT)
  {
  }

  /** The frame that the next single block comes from. */
  function NextFrame(base: nat, t: Table): int {
    base + FirstFit(t, 1)
  }

  /** No frame of any address space overlaps the n bytes from a on. */
  ghost predicate OutsideSpaces(spaces: map<Page, Space>, a: u32, n: nat) {
    forall c, i | c in spaces && 0 <= i < |spaces[c].frames| ::
      AddressOf(spaces[c].frames[i]) + 4096 <= a || a + n <= AddressOf(spaces[c].frames[i])
  }

  /** The n bytes from a on lie in physical memory, in no address space and not in the frame f. */
  ghost predicate DestClear(spaces: map<Page, Space>, f: int, a: u32, n: nat) {
    && a + n <= 0x1_0000_0000
    && ((f + 1) * 4096 <= a || a + n <= f * 4096)
    && OutsideSpaces(spaces, a, n)
  }

  /** Kernel code, on the identity map, sees the string in the scratch frame. */
  lemma KernelSees(m: Ram, f: Page, s: seq<byte>, max: int)
    requires |s| < max < 4096 && Shows(m, AddressOf(f), s + [0]) && forall i | 0 <= i < |s| :: s[i] != 0
    ensures CString(m, IdentityFlat(7), AddressOf(f), max) == s
  {
    forall i: nat | i <= |s|
      ensures Seen(m, IdentityFlat(7), Step(AddressOf(f), i)) == (s + [0])[i]
    {
      assert Step(AddressOf(f), i) == AddressOf(f) + i;
      IdentityVia(AddressOf(f) + i, 7);
    }
    forall i | 0 <= i < |s|
      ensures Seen(m, IdentityFlat(7), Step(AddressOf(f), i)) == s[i]
    {
      assert (s + [0])[i] == s[i];
    }
    CStringOf(m, IdentityFlat(7), AddressOf(f), max, s);
  }

  lemma KernelStore(ks: Space, dest: u32, n: nat, i: nat)
    requires i < n && dest + n <= 0x1_0000_0000
    requires forall j | 0 <= j < |ks.frames| ::
               AddressOf(ks.frames[j]) + 4096 <= dest || dest + n <= AddressOf(ks.frames[j])
    ensures CanStore(ks, IdentityFlat(7), dest, dest, i)
  {
    WrapBelow(dest + i);
    IdentityVia(dest + i, 7);
    forall j | 0 <= j < |ks.frames|
      ensures ks.frames[j] != FrameOf(dest + i)
    {
    }
  }

  lemma ReadAt(flat: Flat, src: u32, dest: u32, n: nat, i: nat, a: u32)
    requires Step(src, i) == a && Via(flat, a) == a && HasFlag(flat[a / 4096], PRESENT) && (a < dest || dest + n <= a)
    ensures CanRead(flat, src, dest, n, i)
  {
  }

  lemma FlagsPresent()
    ensures HasFlag(7, PRESENT)
  {
  }

  lemma KernelRead(f: Page, dest: u32, n: nat, i: nat)
    requires i < 4096 && (AddressOf(f) + 4096 <= dest || dest + n <= AddressOf(f))
    ensures CanRead(IdentityFlat(7), AddressOf(f), dest, n, i)
  {
    var a := AddressOf(f) + i;
    WrapBelow(a);
    FlagsPresent();
    IdentityVia(a, 7);
    ReadAt(IdentityFlat(7), AddressOf(f), dest, n, i, a);
  }

  /** Kernel code can copy it to any destination clear of the scratch frame and of its own tables. */
  lemma KernelCopyable(ks: Space, f: Page, dest: u32, s: seq<byte>, max: int)
    requires HasFlag(ks.flags, PRESENT) && |s| < max < 4096
    requires dest + |s| + 1 <= 0x1_0000_0000
    requires AddressOf(f) + 4096 <= dest || dest + |s| + 1 <= AddressOf(f)
    requires forall i | 0 <= i < |ks.frames| ::
               AddressOf(ks.frames[i]) + 4096 <= dest || dest + |s| + 1 <= AddressOf(ks.frames[i])
    ensures Copyable(ks, IdentityFlat(7), dest, dest, AddressOf(f), BytesRead(s, max), |s| + 1)
  {
    var n := |s| + 1;
    forall i: nat | i < n
      ensures CanStore(ks, IdentityFlat(7), dest, dest, i)
    {
      KernelStore(ks, dest, n, i);
    }
    forall i: nat | i < BytesRead(s, max)
      ensures CanRead(IdentityFlat(7), AddressOf(f), dest, n, i)
    {
      KernelRead(f, dest, n, i);
    }
  }

  /** The same flat map in the same tables means the same words. */
  lemma SameTables(m: Ram, m': Ram, sp: Space, flat: Flat, f: Page, k: int)
    requires Maps(m, sp, flat) && Maps(m', sp, flat) && IsTable(sp, f) && 0 <= k < 1024
    ensures FrameWord(m', f, k) == FrameWord(m, f, k)
  {
    var i :| 0 <= i < 1024 && sp.frames[i] == f;
    var q: Page := i * 1024 + k;
    assert q / 1024 == i && q % 1024 == k;
    WalkInSpace(m, sp, q);
    WalkInSpace(m', sp, q);
    assert Walk(m, sp.Dir(), q) == flat[q] == Walk(m', sp.Dir(), q);
  }

  /** Memory is as before but for the frame f and the bytes bs from dest on. */
  ghost predicate OnlyDelivered(m: Ram, m': Ram, f: int, dest: u32, bs: seq<byte>) {
    forall x: u32 | FrameOf(x) != f ::
      ByteAt(m', x) == if dest <= x < dest + |bs| then bs[x - dest] else ByteAt(m, x)
  }

  /** Fetching leaves every frame but the scratch frame as it was, the restored tables included. */
  lemma FetchLeaves(m: Ram, m1: Ram, m2: Ram, sp: Space, flat: Flat, f: Page, g: Page, k: int)
    requires OnlyFrames(m, m1, f, f + 1) && Maps(m1, sp, flat) && Maps(m2, sp, flat)
    requires forall h: Page, l | 0 <= l < 1024 && h != f && !IsTable(sp, h) ::
               FrameWord(m2, h, l) == FrameWord(m1, h, l)
    requires g != f && 0 <= k < 1024
    ensures FrameWord(m2, g, k) == FrameWord(m, g, k)
  {
    if IsTable(sp, g) {
      SameTables(m1, m2, sp, flat, g, k);
    }
  }

  lemma Delivered(m: Ram, m2: Ram, m3: Ram, f: Page, dest: u32, bs: seq<byte>)
    requires forall g: Page, k | 0 <= k < 1024 && g != f :: FrameWord(m2, g, k) == FrameWord(m, g, k)
    requires Patched(m2, m3, dest, bs)
    ensures OnlyDelivered(m, m3, f, dest, bs)
  {
    forall x: u32 | FrameOf(x) != f
      ensures ByteAt(m3, x) == if dest <= x < dest + |bs| then bs[x - dest] else ByteAt(m, x)
    {
      FrameByte(m, m2, x);
    }
  }

  /** Frames that agree on every byte agree on every word. */
  lemma BytesOfFrame(m: Ram, m': Ram, g: Page, k: int)
    requires 0 <= k < 1024 && forall x: u32 | FrameOf(x) == g :: ByteAt(m', x) == ByteAt(m, x)
    ensures FrameWord(m', g, k) == FrameWord(m, g, k)
  {
    forall x: u32 | x / 4 == g * 1024 + k
      ensures ByteAt(m, x) == ByteAt(m', x)
    {
      assert FrameOf(x) == g;
    }
    SameBytesSameWord(m, m', g * 1024 + k);
  }

  /** What changes only one unused frame and bytes outside the address spaces leaves all of them as they were. */
  lemma DeliveredKeepsSpaces(m: Ram, m3: Ram, base: nat, t: Table, spaces: map<Page, Space>, f: Page, dest: u32,
                             bs: seq<byte>)
    requires SpacesOk(m, base, t, spaces) && OnlyDelivered(m, m3, f, dest, bs)
    requires UnusedFrame(spaces, f) && DestClear(spaces, f, dest, |bs|)
    ensures SpacesOk(m3, base, t, spaces)
    ensures forall c, flat | c in spaces && Maps(m, spaces[c], flat) :: Maps(m3, spaces[c], flat)
  {
    forall c, i, k | c in spaces && 0 <= i < |spaces[c].frames| && 0 <= k < 1024
      ensures FrameWord(m3, spaces[c].frames[i], k) == FrameWord(m, spaces[c].frames[i], k)
    {
      BytesOfFrame(m, m3, spaces[c].frames[i], k);
    }
    forall c, flat | c in spaces && Maps(m, spaces[c], flat)
      ensures Maps(m3, spaces[c], flat)
    {
      AgreeKeeps(m, m3, spaces[c], flat);
    }
    forall c | c in spaces
      ensures InRam(m3, spaces[c])
    {
      MapsFlatOf(m, spaces[c], FlatOf(m, spaces[c].Dir()));
      AgreeKeeps(m, m3, spaces[c], FlatOf(m, spaces[c].Dir()));
    }
  }

  /** What copying a string needs once there is a scratch frame f. */
  ghost predicate CopyOk(m: Ram, spaces: map<Page, Space>, c: Page, f: int, va: u32, dest: u32, max: int)
    requires c in spaces && |spaces[c].frames| == 1026
  {
    var flat := FlatOf(m, spaces[c].Dir());
    var s := CString(m, flat, va, max);
    && 0 <= f < 0x10_0000
    && DestClear(spaces, f, dest, |s| + 1)
    && forall i | 0 <= i < BytesRead(s, max) :: SourceClear(spaces[c], flat, f, va, i)
  }

  /** No block is large enough for a negative size, which is huge as an unsigned number. */
  lemma NegativeSize(t: Table, max: int)
    requires -0x8000_0000 <= max <= 0 && |t| < 0x8_0000
    ensures FirstFit(t, H.BlocksFor(Wrap(max))) < 0
  {
    if max < 0 {
      assert Wrap(max) == max + 0x1_0000_0000;
    }
  }

  /** The scratch block, if there is one. */
  method AllocScratch(m: Machine, max: int, ghost before: Ram, ghost t: Table) returns (ptr: u32)
    requires m.heap.Valid() && m.heap.entries.Length < 0x8_0000 && -0x8000_0000 <= max < 4096
    requires before == m.ram && t == m.heap.entries[..]
    modifies m`ram, m.heap`live, m.heap.entries
    ensures m.heap.Valid()
    ensures ptr == 0 <==> max <= 0 || |FreeBlocks(t)| == 0
    ensures ptr == 0 ==> m.ram == before && m.heap.entries[..] == t
    ensures ptr != 0 ==>
              var base, f := m.heap.Base(), NextFrame(m.heap.Base(), t);
              && base <= f < base + m.heap.entries.Length && t[f - base] == FREE
              && f < 0x10_0000 && ptr == AddressOf(f)
              && m.heap.entries[..] == t[f - base := SINGLE]
              && OnlyFrames(before, m.ram, f, f + 1)
  {
    if max <= 0 {
      NegativeSize(t, max);
    } else {
      assert Wrap(max) == max && H.BlocksFor(max) == 1;
      DescribedTakenIffNotFree(t, m.heap.live, m.heap.stranded);
      FirstFitOne(t);
      if |FreeBlocks(t)| > 0 {
        TakeOne(t, FirstFit(t, 1));
      }
    }
    ptr := m.Kzalloc(Wrap(max));
  }

  /** Clearing the scratch frame does not touch the string. */
  lemma SourceUnscratched(m: Ram, m1: Ram, sp: Space, flat: Flat, f: Page, va: u32, max: int)
    requires OnlyFrames(m, m1, f, f + 1) && |sp.frames| == 1026
    requires forall i | 0 <= i < BytesRead(CString(m, flat, va, max), max) :: SourceClear(sp, flat, f, va, i)
    ensures CString(m1, flat, va, max) == CString(m, flat, va, max)
  {
    forall i | 0 <= i < BytesRead(CString(m, flat, va, max), max)
      ensures Seen(m1, flat, Step(va, i)) == Seen(m, flat, Step(va, i))
    {
      assert SourceClear(sp, flat, f, va, i);
      FrameByte(m, m1, Via(flat, Step(va, i)));
    }
    SameString(m, m1, flat, flat, va, max);
  }

  lemma CStringNonzero(m: Ram, flat: Flat, va: u32, max: int)
    ensures forall i | 0 <= i < |CString(m, flat, va, max)| :: CString(m, flat, va, max)[i] != 0
  {
    forall i | 0 <= i < |CString(m, flat, va, max)|
      ensures CString(m, flat, va, max)[i] != 0
    {
      CStringAt(m, flat, va, max, i);
    }
  }

  /** The second copy, in the kernel's own address space. */
  method CopyToKernel(m: Machine, scratch: u32, dest: u32, max: int, ghost ks: Space, ghost f: Page, ghost s: seq<byte>)
    requires Maps(m.ram, ks, IdentityFlat(7)) && m.currentDirectory == AddressOf(ks.Dir())
    requires HasFlag(ks.flags, PRESENT) && scratch == AddressOf(f) && |s| < max < 4096
    requires Shows(m.ram, scratch, s + [0]) && forall i | 0 <= i < |s| :: s[i] != 0
    requires dest + |s| + 1 <= 0x1_0000_0000
    requires AddressOf(f) + 4096 <= dest || dest + |s| + 1 <= AddressOf(f)
    requires forall i | 0 <= i < |ks.frames| ::
               AddressOf(ks.frames[i]) + 4096 <= dest || dest + |s| + 1 <= AddressOf(ks.frames[i])
    modifies m`ram
    ensures Patched(old(m.ram), m.ram, dest, s + [0])
  {
    KernelSees(m.ram, f, s, max);
    KernelCopyable(ks, f, dest, s, max);
    Strncpy(m, dest, scratch, max, ks, IdentityFlat(7), dest);
  }

  /** Fetching and copying together change the scratch frame and the destination alone. */
  lemma FetchDelivered(m: Ram, m1: Ram, m2: Ram, m3: Ram, sp: Space, flat: Flat, f: Page, dest: u32, bs: seq<byte>)
    requires OnlyFrames(m, m1, f, f + 1) && Maps(m1, sp, flat) && Maps(m2, sp, flat)
    requires forall g: Page, k | 0 <= k < 1024 && g != f && !IsTable(sp, g) ::
               FrameWord(m2, g, k) == FrameWord(m1, g, k)
    requires Patched(m2, m3, dest, bs)
    ensures OnlyDelivered(m, m3, f, dest, bs)
  {
    forall g: Page, k | 0 <= k < 1024 && g != f
      ensures FrameWord(m2, g, k) == FrameWord(m, g, k)
    {
      FetchLeaves(m, m1, m2, sp, flat, f, g, k);
    }
    Delivered(m, m2, m3, f, dest, bs);
  }

  /**
    A string s of a task can be delivered to dest through the scratch frame f: both address spaces are in memory, the
    scratch frame was cleared since memory was as before, the string is clear of it, and so is the destination.
  */
  ghost predicate Deliverable(before: Ram, m: Ram, sp: Space, flat: Flat, ks: Space, f: Page, va: u32, dest: u32,
                              max: int, s: seq<byte>) {
    && Ready(m, sp, flat, ks, IdentityFlat(7), f) && OnlyFrames(before, m, f, f + 1)
    && HasFlag(sp.flags, PRESENT) && HasFlag(ks.flags, PRESENT)
    && 1 <= max < 4096 && s == CString(before, flat, va, max)
    && (forall i | 0 <= i < BytesRead(s, max) :: SourceClear(sp, flat, f, va, i))
    && dest + |s| + 1 <= 0x1_0000_0000
    && (AddressOf(f) + 4096 <= dest || dest + |s| + 1 <= AddressOf(f))
    && forall i | 0 <= i < |ks.frames| ::
         AddressOf(ks.frames[i]) + 4096 <= dest || dest + |s| + 1 <= AddressOf(ks.frames[i])
  }

  /** Fetches the string to the scratch frame and copies it on to its destination. */
  method DeliverString(m: Machine, chunk: u32, va: u32, scratch: u32, dest: u32, max: int, ghost sp: Space,
                       ghost flat: Flat, ghost ks: Space, ghost f: Page, ghost before: Ram, ghost s: seq<byte>)
    returns (res: int)
    requires scratch == AddressOf(f) && |sp.frames| == 1026 == |ks.frames|
    requires chunk == AddressOf(sp.Chunk()) && m.kernelChunk == AddressOf(ks.Chunk())
    requires Deliverable(before, m.ram, sp, flat, ks, f, va, dest, max, s)
    modifies m`ram, m`currentDirectory
    ensures res == OK && m.currentDirectory == AddressOf(ks.Dir())
    ensures OnlyDelivered(before, m.ram, f, dest, s + [0])
  {
    ghost var start := m.ram;
    SourceUnscratched(before, start, sp, flat, f, va, max);
    res := FetchString(m, chunk, va, scratch, max, sp, flat, ks, IdentityFlat(7), f);
    ghost var fetched := m.ram;
    CStringNonzero(before, flat, va, max);
    CopyToKernel(m, scratch, dest, max, ks, f, s);
    FetchDelivered(before, start, fetched, m.ram, sp, flat, f, dest, s + [0]);
  }

  /** Clearing an unused frame leaves an address space as it was. */
  lemma ScratchApart(m: Ram, m1: Ram, spaces: map<Page, Space>, c: Page, f: Page)
    requires c in spaces && InRam(m, spaces[c]) && OnlyFrames(m, m1, f, f + 1) && UnusedFrame(spaces, f)
    ensures f !in spaces[c].frames
    ensures Maps(m1, spaces[c], FlatOf(m, spaces[c].Dir()))
  {
    AgreeOutside(m, m1, spaces[c], f, f + 1);
    MapsFlatOf(m, spaces[c], FlatOf(m, spaces[c].Dir()));
    AgreeKeeps(m, m1, spaces[c], FlatOf(m, spaces[c].Dir()));
  }

  /** Everything that DeliverString needs follows from the state before the scratch block was taken. */
  lemma CopyReady(m: Ram, m1: Ram, base: nat, t: Table, spaces: map<Page, Space>, c: Page, k: Page, f: Page,
                  va: u32, dest: u32, max: int, flat: Flat, s: seq<byte>)
    requires SpacesOk(m, base, t, spaces) && c in spaces && k in spaces && c != k
    requires Maps(m, spaces[k], IdentityFlat(7))
    requires base <= f < base + |t| && t[f - base] == FREE && OnlyFrames(m, m1, f, f + 1)
    requires CopyOk(m, spaces, c, f, va, dest, max) && 1 <= max < 4096
    requires HasFlag(spaces[c].flags, PRESENT) && HasFlag(spaces[k].flags, PRESENT)
    requires flat == FlatOf(m, spaces[c].Dir()) && s == CString(m, flat, va, max)
    ensures Deliverable(m, m1, spaces[c], flat, spaces[k], f, va, dest, max, s)
    ensures UnusedFrame(spaces, f) && DestClear(spaces, f, dest, |s + [0]|)
  {
    FreeUnused(m, base, t, spaces, f);
    ScratchApart(m, m1, spaces, c, f);
    ScratchApart(m, m1, spaces, k, f);
    MapsFlatOf(m, spaces[k], IdentityFlat(7));
  }

  lemma ReleaseSingle(t: Table, i: nat)
    requires i < |t| && t[i] == FREE
    ensures Release(t[i := SINGLE], i) == t
  {
    assert t[i := SINGLE][i := FREE] == t;
  }

  /** Delivers the string, and frees the scratch block: t is the block table from before it was taken. */
  method CopyAndFree(m: Machine, chunk: u32, va: u32, scratch: u32, dest: u32, max: int, ghost sp: Space,
                     ghost flat: Flat, ghost ks: Space, ghost f: Page, ghost before: Ram, ghost t: Table,
                     ghost s: seq<byte>) returns (res: int)
    requires m.heap.Valid() && m.heap.Base() <= f < m.heap.Base() + |t| && t[f - m.heap.Base()] == FREE
    requires m.heap.entries[..] == t[f - m.heap.Base() := SINGLE]
    requires scratch == AddressOf(f) && |sp.frames| == 1026 == |ks.frames|
    requires chunk == AddressOf(sp.Chunk()) && m.kernelChunk == AddressOf(ks.Chunk())
    requires Deliverable(before, m.ram, sp, flat, ks, f, va, dest, max, s)
    modifies m`ram, m`currentDirectory, m.heap`live, m.heap`stranded, m.heap.entries
    ensures m.heap.Valid() && m.heap.entries[..] == t
    ensures res == OK && m.currentDirectory == AddressOf(ks.Dir())
    ensures OnlyDelivered(before, m.ram, f, dest, s + [0])
  {
    res := DeliverString(m, chunk, va, scratch, dest, max, sp, flat, ks, f, before, s);
    SingleIsAllocation(m.heap, f);
    ReleaseSingle(t, f - m.heap.Base());
    m.Kfree(scratch);
  }

  /** The copy once there is a scratch frame f, with the address spaces as they were before it was taken. */
  method CopyThrough(m: Machine, chunk: u32, va: u32, scratch: u32, dest: u32, max: int, ghost spaces: map<Page, Space>,
                     ghost c: Page, ghost k: Page, ghost f: Page, ghost before: Ram, ghost t: Table) returns (res: int)
    requires m.heap.Valid() && m.heap.Base() <= f < m.heap.Base() + |t| && t[f - m.heap.Base()] == FREE
    requires m.heap.entries[..] == t[f - m.heap.Base() := SINGLE] && OnlyFrames(before, m.ram, f, f + 1)
    requires SpacesOk(before, m.heap.Base(), t, spaces) && c in spaces && k in spaces && c != k
    requires scratch == AddressOf(f) && chunk == AddressOf(c) && m.kernelChunk == AddressOf(k)
    requires HasFlag(spaces[c].flags, PRESENT) && HasFlag(spaces[k].flags, PRESENT)
    requires Maps(before, spaces[k], IdentityFlat(7))
    requires 1 <= max < 4096 && CopyOk(before, spaces, c, f, va, dest, max)
    modifies m`ram, m`currentDirectory, m.heap`live, m.heap`stranded, m.heap.entries
    ensures m.heap.Valid() && m.heap.entries[..] == t && SpacesOk(m.ram, m.heap.Base(), t, spaces)
    ensures res == OK && m.currentDirectory == AddressOf(spaces[k].Dir())
    ensures OnlyDelivered(before, m.ram, f, dest, CString(before, FlatOf(before, spaces[c].Dir()), va, max) + [0])
    ensures forall d, flat | d in spaces && Maps(before, spaces[d], flat) :: Maps(m.ram, spaces[d], flat)
  {
    ghost var flat := FlatOf(before, spaces[c].Dir());
    ghost var s := CString(before, flat, va, max);
    CopyReady(before, m.ram, m.heap.Base(), t, spaces, c, k, f, va, dest, max, flat, s);
    res := CopyAndFree(m, chunk, va, scratch, dest, max, spaces[c], flat, spaces[k], f, before, t, s);
    DeliveredKeepsSpaces(before, m.ram, m.heap.Base(), t, spaces, f, dest, s + [0]);
  }

  /** The copy if the size is accepted: with a scratch block, if there is one. */
  method CopyByScratch(m: Machine, chunk: u32, va: u32, dest: u32, max: int, ghost spaces: map<Page, Space>,
                       ghost c: Page, ghost k: Page, ghost before: Ram, ghost t: Table) returns (res: int)
    requires m.heap.Valid() && m.heap.entries.Length < 0x8_0000 && -0x8000_0000 <= max < 4096
    requires before == m.ram && t == m.heap.entries[..] && SpacesOk(before, m.heap.Base(), t, spaces)
    requires c in spaces && k in spaces && c != k && chunk == AddressOf(c) && m.kernelChunk == AddressOf(k)
    requires HasFlag(spaces[c].flags, PRESENT) && HasFlag(spaces[k].flags, PRESENT)
    requires Maps(before, spaces[k], IdentityFlat(7))
    requires max >= 1 && |FreeBlocks(t)| > 0 ==>
               CopyOk(before, spaces, c, NextFrame(m.heap.Base(), t), va, dest, max)
    modifies m`ram, m`currentDirectory, m.heap`live, m.heap`stranded, m.heap.entries
    ensures m.heap.Valid() && m.heap.entries[..] == t && SpacesOk(m.ram, m.heap.Base(), t, spaces)
    ensures res == if max <= 0 || |FreeBlocks(t)| == 0 then ENOMEM else OK
    ensures res != OK ==> m.ram == before && m.currentDirectory == old(m.currentDirectory)
    ensures res == OK ==>
              && m.currentDirectory == AddressOf(spaces[k].Dir())
              && OnlyDelivered(before, m.ram, NextFrame(m.heap.Base(), t), dest,
                               CString(before, FlatOf(before, spaces[c].Dir()), va, max) + [0])
    ensures forall d, flat | d in spaces && Maps(before, spaces[d], flat) :: Maps(m.ram, spaces[d], flat)
  {
    ghost var f := NextFrame(m.heap.Base(), t);
    var scratch := AllocScratch(m, max, before, t);
    res := ENOMEM;
    if scratch != 0 {
      res := CopyThrough(m, chunk, va, scratch, dest, max, spaces, c, k, f, before, t);
    }
  }

  /**
    Copies a string out of a task's address space to kernel memory. The caller gets the string as the task sees it, at
    most max - 1 bytes of it, with a NUL; every address space, the block table and the rest of memory are as before but
    for the scratch frame, which is free again.
  */
  method CopyStringFromTask(m: Machine, chunk: u32, va: u32, dest: u32, max: int, ghost c: Page, ghost k: Page)
    returns (res: int)
    requires m.Valid() && m.heap.entries.Length < 0x8_0000 && -0x8000_0000 <= max
    requires c in m.spaces && k in m.spaces && c != k
    requires chunk == AddressOf(c) && m.kernelChunk == AddressOf(k)
    requires HasFlag(m.spaces[c].flags, PRESENT) && HasFlag(m.spaces[k].flags, PRESENT)
    requires Maps(m.ram, m.spaces[k], IdentityFlat(7))
    requires 1 <= max < 4096 && |FreeBlocks(m.heap.entries[..])| > 0 ==>
               CopyOk(m.ram, m.spaces, c, NextFrame(m.heap.Base(), m.heap.entries[..]), va, dest, max)
    modifies m`ram, m`currentDirectory, m.heap`live, m.heap`stranded, m.heap.entries
    ensures m.Valid() && m.heap.entries[..] == old(m.heap.entries[..])
    ensures res == if max >= 4096 then EINVARG
                   else if max <= 0 || |FreeBlocks(old(m.heap.entries[..]))| == 0 then ENOMEM
                   else OK
    ensures res != OK ==> m.ram == old(m.ram) && m.currentDirectory == old(m.currentDirectory)
    ensures res == OK ==>
              && m.currentDirectory == AddressOf(m.spaces[k].Dir())
              && OnlyDelivered(old(m.ram), m.ram, NextFrame(m.heap.Base(), old(m.heap.entries[..])), dest,
                   CString(old(m.ram), FlatOf(old(m.ram), m.spaces[c].Dir()), va, max) + [0])
    ensures forall d, flat | d in m.spaces && Maps(old(m.ram), m.spaces[d], flat) :: Maps(m.ram, m.spaces[d], flat)
  {
    res := EINVARG;
    if max < 4096 {
      res := CopyByScratch(m, chunk, va, dest, max, m.spaces, c, k, m.ram, m.heap.entries[..]);
    }
  }

  /**
    Why the page and the frame of the scratch block are excluded: a string at its page, or seen in its frame through any
    other page, is taken to be empty, whatever it is. Clearing the block and mapping it come before the copy.
  */
  lemma ScratchPageHidesString(m: Ram, m1: Ram, sp: Space, flat: Flat, f: Page, va: u32, max: nat)
    requires Filled(m, m1, AddressOf(f), max, 0) && va % 4096 < max && sp.Shaped() && f !in sp.frames
    requires va / 4096 == f || FrameOf(flat[va / 4096]) == f
    ensures CString(SetEntry(m1, sp, f, AddressOf(f) + 7), ScratchMapped(flat, f), va, max) == []
  {
    var m2, x := SetEntry(m1, sp, f, AddressOf(f) + 7), AddressOf(f) + va % 4096;
    assert FrameOf(AddressOf(f) + 7) == f;
    assert Via(ScratchMapped(flat, f), va) == x && FrameOf(x) == f;
    SetEntryOnlyTables(m1, sp, f, AddressOf(f) + 7);
    assert !IsTable(sp, f);
    FrameByte(m1, m2, x);
    assert ByteAt(m1, x) == 0;
  }

  // Reading a task's stack ------------------------------------------------------------------------

  /** The 32-bit value that code sees at a virtual address, byte by byte. */
  function SeenWord(m: Ram, flat: Flat, va: u32): u32 {
    Join(Seen(m, flat, va), Seen(m, flat, Step(va, 1)), Seen(m, flat, Step(va, 2)), Seen(m, flat, Step(va, 3)))
  }

  lemma LowBits(r: nat)
    requires r < 4096 && r % 4 == 0
    ensures r <= 4092
  {
  }

  lemma SamePage(va: u32, k: nat)
    requires va % 4 == 0 && k < 4
    ensures va + k < 0x1_0000_0000 && (va + k) / 4096 == va / 4096 && (va + k) % 4096 == va % 4096 + k
  {
    var p, r := va / 4096, va % 4096;
    QuarterSum(p * 1024, r);
    LowBits(r);
    PageSum(p, r + k);
  }

  /** The other bytes of an aligned word follow the first one. */
  lemma StepsInWord(flat: Flat, va: u32, k: nat)
    requires va % 4 == 0 && k < 4
    ensures Via(flat, va) + k < 0x1_0000_0000 && Via(flat, Step(va, k)) == Via(flat, va) + k
  {
    SamePage(va, k);
    WrapBelow(va + k);
  }

  lemma WordOfPage(flat: Flat, va: u32)
    requires va % 4 == 0
    ensures Via(flat, va) % 4 == 0
  {
  }

  lemma SeenAligned(m: Ram, flat: Flat, va: u32)
    requires va % 4 == 0
    ensures SeenWord(m, flat, va) == m[Via(flat, va) / 4]
  {
    StepsInWord(flat, va, 1);
    StepsInWord(flat, va, 2);
    StepsInWord(flat, va, 3);
    WordOfPage(flat, va);
    AlignedBytes(m, Via(flat, va));
  }

  /** It has the bytes seen at the four addresses in order, and at an aligned address it is the word of memory there. */
  lemma SeenWordIs(m: Ram, flat: Flat, va: u32)
    ensures forall k | 0 <= k < 4 :: ByteOf(SeenWord(m, flat, va), k) == Seen(m, flat, Step(va, k))
    ensures va % 4 == 0 ==> SeenWord(m, flat, va) == m[Via(flat, va) / 4]
  {
    assert Step(va, 0) == va;
    ByteOfJoin(Seen(m, flat, va), Seen(m, flat, Step(va, 1)), Seen(m, flat, Step(va, 2)), Seen(m, flat, Step(va, 3)));
    if va % 4 == 0 {
      SeenAligned(m, flat, va);
    }
  }

  lemma WordsAligned(esp: u32, index: int)
    requires esp % 4 == 0
    ensures Wrap(esp + 4 * index) % 4 == 0
  {
  }

  /** The index-th word above the task's stack pointer, as the task sees it; the kernel's tables are back in use. */
  method GetStackItem(m: Machine, chunk: u32, esp: u32, index: int, ghost sp: Space, ghost flat: Flat, ghost ks: Space)
    returns (result: u32)
    requires Maps(m.ram, sp, flat) && InRam(m.ram, ks)
    requires chunk == AddressOf(sp.Chunk()) && m.kernelChunk == AddressOf(ks.Chunk())
    requires var a := Wrap(esp + 4 * index);
             && Readable(sp, flat, a) && Readable(sp, flat, Step(a, 1))
             && Readable(sp, flat, Step(a, 2)) && Readable(sp, flat, Step(a, 3))
    modifies m`currentDirectory
    ensures result == SeenWord(m.ram, flat, Wrap(esp + 4 * index))
    ensures forall k | 0 <= k < 4 :: ByteOf(result, k) == Seen(m.ram, flat, Step(Wrap(esp + 4 * index), k))
    ensures esp % 4 == 0 ==> result == m.ram[Via(flat, Wrap(esp + 4 * index)) / 4]
    ensures m.currentDirectory == AddressOf(ks.Dir())
  {
    var a := Wrap(esp + 4 * index);
    Switch(m, chunk, sp);
    var b0 := LoadByte(m, a, sp, flat);
    var b1 := LoadByte(m, Step(a, 1), sp, flat);
    var b2 := LoadByte(m, Step(a, 2), sp, flat);
    var b3 := LoadByte(m, Step(a, 3), sp, flat);
    result := Join(b0, b1, b2, b3);
    SeenWordIs(m.ram, flat, a);
    if esp % 4 == 0 {
      WordsAligned(esp, index);
    }
    Switch(m, m.kernelChunk, ks);
  }
}
