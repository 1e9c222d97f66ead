/** src/task/process.c: mapping a program image and its stack into the address space of a new task. */
module Processes {
  import opened Words
  import opened Memory
  import opened BlockTable
  import opened AddressSpaces
  import opened Kernel
  import opened Paging
  import opened Chunks
  import opened TaskSpaces
  import opened Loader
  import H = Heap

  // Program headers in memory -----------------------------------------------------------------

  /** Where the program headers of a file are (e_phoff), and how many there are (e_phnum). */
  datatype Head = Head(offset: u32, count: u32)

  function HeadOf(m: Ram, elf: u32): Head {
    Head(Load32(m, Wrap(elf + 28)), Load16(m, Wrap(elf + 44)))
  }

  function PhNum(m: Ram, elf: u32): nat {
    HeadOf(m, elf).count
  }

  /** The address of the i-th header. A file without an offset has its headers at 0. */
  function PhdrSpot(elf: u32, h: Head, i: nat): nat {
    (if h.offset == 0 then 0 else Wrap(elf + h.offset)) + 32 * i
  }

  function PhdrIn(m: Ram, a: nat): Phdr {
    Phdr(Load32(m, Wrap(a + 4)), Load32(m, Wrap(a + 8)), Load32(m, Wrap(a + 16)), Load32(m, Wrap(a + 24)))
  }

  function Phdrs(m: Ram, elf: u32): (phs: seq<Phdr>)
    ensures |phs| == PhNum(m, elf)
    ensures forall i | 0 <= i < |phs| :: phs[i] == PhdrIn(m, PhdrSpot(elf, HeadOf(m, elf), i))
  {
    seq(PhNum(m, elf), i requires 0 <= i => PhdrIn(m, PhdrSpot(elf, HeadOf(m, elf), i)))
  }

  /** All headers lie inside the size bytes of the file. */
  predicate Inside(elf: u32, h: Head, size: nat) {
    52 <= size && elf + size <= 0x1_0000_0000 && h.offset != 0 && h.offset + 32 * h.count <= size
  }

  predicate HeadersInside(m: Ram, elf: u32, size: nat) {
    Inside(elf, HeadOf(m, elf), size)
  }

  ghost predicate SameFile(m: Ram, m': Ram, elf: u32, size: nat) {
    forall x: u32 | elf <= x < elf + size :: ByteAt(m', x) == ByteAt(m, x)
  }

  lemma SameByte(m: Ram, m': Ram, elf: u32, size: nat, a: nat)
    requires SameFile(m, m', elf, size) && elf <= a < elf + size <= 0x1_0000_0000
    ensures Wrap(a) == a && ByteAt(m', a) == ByteAt(m, a)
  {
  }

  lemma SameLoad32(m: Ram, m': Ram, elf: u32, size: nat, a: nat)
    requires SameFile(m, m', elf, size) && elf <= a && a + 4 <= elf + size <= 0x1_0000_0000
    ensures Load32(m', Wrap(a)) == Load32(m, Wrap(a))
  {
    SameByte(m, m', elf, size, a);
    SameByte(m, m', elf, size, a + 1);
    SameByte(m, m', elf, size, a + 2);
    SameByte(m, m', elf, size, a + 3);
  }

  lemma SameLoad16(m: Ram, m': Ram, elf: u32, size: nat, a: nat)
    requires SameFile(m, m', elf, size) && elf <= a && a + 2 <= elf + size <= 0x1_0000_0000
    ensures Load16(m', Wrap(a)) == Load16(m, Wrap(a))
  {
    SameByte(m, m', elf, size, a);
    SameByte(m, m', elf, size, a + 1);
  }

  lemma SameLoads(m: Ram, m': Ram, elf: u32, size: nat, a: nat, b: nat)
    requires SameFile(m, m', elf, size) && elf + size <= 0x1_0000_0000
    requires elf <= a && a + 4 <= elf + size && elf <= b && b + 4 <= elf + size
    ensures Load32(m', Wrap(a)) == Load32(m, Wrap(a)) && Load32(m', Wrap(b)) == Load32(m, Wrap(b))
  {
    SameLoad32(m, m', elf, size, a);
    SameLoad32(m, m', elf, size, b);
  }

  lemma SamePhdr(m: Ram, m': Ram, elf: u32, size: nat, a: nat)
    requires SameFile(m, m', elf, size) && elf <= a && a + 32 <= elf + size <= 0x1_0000_0000
    ensures PhdrIn(m', a) == PhdrIn(m, a)
  {
    SameLoads(m, m', elf, size, a + 4, a + 8);
    SameLoads(m, m', elf, size, a + 16, a + 24);
  }

  lemma SameHead(m: Ram, m': Ram, elf: u32, size: nat)
    requires SameFile(m, m', elf, size) && 52 <= size && elf + size <= 0x1_0000_0000
    ensures HeadOf(m', elf) == HeadOf(m, elf)
  {
    SameLoad32(m, m', elf, size, elf + 28);
    SameLoad16(m, m', elf, size, elf + 44);
  }

  lemma SpotInside(elf: u32, h: Head, size: nat, i: nat)
    requires Inside(elf, h, size) && i < h.count
    ensures elf <= PhdrSpot(elf, h, i) && PhdrSpot(elf, h, i) + 32 <= elf + size
  {
    assert 32 * i + 32 <= 32 * h.count && Wrap(elf + h.offset) == elf + h.offset;
  }

  lemma SamePhdrs(m: Ram, m': Ram, elf: u32, size: nat, h: Head, i: nat)
    requires SameFile(m, m', elf, size) && Inside(elf, h, size) && i < h.count
    ensures PhdrIn(m', PhdrSpot(elf, h, i)) == PhdrIn(m, PhdrSpot(elf, h, i))
  {
    SpotInside(elf, h, size, i);
    SamePhdr(m, m', elf, size, PhdrSpot(elf, h, i));
  }

  /** The headers of an unchanged file are unchanged. */
  lemma SameHeaders(m: Ram, m': Ram, elf: u32, size: nat)
    requires SameFile(m, m', elf, size) && HeadersInside(m, elf, size)
    ensures HeadersInside(m', elf, size) && Phdrs(m', elf) == Phdrs(m, elf)
  {
    SameHead(m, m', elf, size);
    var h := HeadOf(m, elf);
    forall i: nat | i < h.count
      ensures PhdrIn(m', PhdrSpot(elf, h, i)) == PhdrIn(m, PhdrSpot(elf, h, i))
    {
      SamePhdrs(m, m', elf, size, h, i);
    }
    forall i | 0 <= i < h.count
      ensures Phdrs(m', elf)[i] == Phdrs(m, elf)[i]
    {
    }
  }

  /** No frame of the file is one of the address space. */
  ghost predicate FileApart(elf: u32, size: nat, sp: Space) {
    forall x: u32 | elf <= x < elf + size :: FrameOf(x) !in sp.frames
  }

  lemma TablesKeepFile(m: Ram, m': Ram, elf: u32, size: nat, sp: Space)
    requires FileApart(elf, size, sp) && OnlyTables(m, m', sp)
    ensures SameFile(m, m', elf, size)
  {
    forall x: u32 | elf <= x < elf + size
      ensures ByteAt(m', x) == ByteAt(m, x)
    {
      assert !IsTable(sp, FrameOf(x));
      FrameByte(m, m', x);
    }
  }

  // Mapping the segments -------------------------------------------------------------------------

  /** Maps the segments that the headers in memory describe, in order, up to the first that is not accepted. */
  method MapElf(m: Machine, chunk: u32, elf: u32, ghost size: nat, ghost sp: Space, ghost flat: Flat)
    returns (res: int)
    requires Maps(m.ram, sp, flat) && chunk == AddressOf(sp.Chunk())
    requires HeadersInside(m.ram, elf, size) && FileApart(elf, size, sp)
    modifies m`ram
    ensures var phs := Phdrs(old(m.ram), elf);
            var (expected, mapped) := MapSegments(flat, elf, phs, |phs|);
            res == expected && Maps(m.ram, sp, mapped)
    ensures OnlyTables(old(m.ram), m.ram, sp)
  {
    res := OK;
    ghost var before := m.ram;
    ghost var phs := Phdrs(before, elf);
    ghost var now := flat;
    var i := 0;
    while i < PhNum(m.ram, elf)
      invariant 0 <= i <= |phs| && res == OK && (OK, now) == MapSegments(flat, elf, phs, i)
      invariant Maps(m.ram, sp, now) && OnlyTables(before, m.ram, sp) && Phdrs(m.ram, elf) == phs
      decreases |phs| - i
    {
      var ph := PhdrIn(m.ram, PhdrSpot(elf, HeadOf(m.ram, elf), i));
      assert Phdrs(m.ram, elf)[i] == ph == phs[i];
      ghost var last := m.ram;
      res := MapSegmentTo(m, chunk, elf, ph, sp, now);
      OnlyTablesTrans(before, last, m.ram, sp);
      if res < 0 {
        SegmentsStop(flat, elf, phs, i + 1);
        return;
      }
      now := MapSegment(now, elf, ph);
      SameFileHeaders(before, m.ram, elf, size, sp);
      i := i + 1;
    }
    assert i == |Phdrs(m.ram, elf)| == |phs|;
    assert (OK, now) == MapSegments(flat, elf, phs, |phs|);
  }

  /** Mapping segments changes tables alone, and so no header. */
  lemma SameFileHeaders(m: Ram, m': Ram, elf: u32, size: nat, sp: Space)
    requires FileApart(elf, size, sp) && OnlyTables(m, m', sp) && HeadersInside(m, elf, size)
    ensures Phdrs(m', elf) == Phdrs(m, elf)
  {
    TablesKeepFile(m, m', elf, size, sp);
    SameHeaders(m, m', elf, size);
  }

  method MapSegmentTo(m: Machine, chunk: u32, elf: u32, ph: Phdr, ghost sp: Space, ghost flat: Flat)
    returns (res: int)
    requires Maps(m.ram, sp, flat) && chunk == AddressOf(sp.Chunk())
    modifies m`ram
    ensures res == if SegmentAccepts(elf, ph) then OK else EINVARG
    ensures Maps(m.ram, sp, if SegmentAccepts(elf, ph) then MapSegment(flat, elf, ph) else flat)
    ensures OnlyTables(old(m.ram), m.ram, sp)
  {
    var virt, phys, end := AlignDown(ph.vaddr), AlignDown(PhysOf(elf, ph)), PhysEnd(elf, ph);
    var flags := PRESENT + USER;
    if HasFlag(ph.flags, PF_W) {
      flags := flags + WRITABLE;
    }
    assert flags == PageFlags(ph);
    res := MapTo(m, chunk, virt, phys, end, flags, sp, flat);
  }

  /** Once a segment is not accepted the rest does not matter. */
  lemma {:induction false} SegmentsStop(flat: Flat, elf: u32, phs: seq<Phdr>, n: nat)
    requires n <= |phs| && MapSegments(flat, elf, phs, n).0 != OK
    ensures MapSegments(flat, elf, phs, |phs|) == MapSegments(flat, elf, phs, n)
    decreases |phs| - n
  {
    if n < |phs| {
      SegmentsStop(flat, elf, phs, n + 1);
    }
  }

  // Address spaces meanwhile --------------------------------------------------------------------------

  /** Changing the tables of one address space leaves all in order and the others as they were. */
  lemma TablesKeepSpaces(m: Ram, m': Ram, base: nat, t: Table, spaces: map<Page, Space>, c: Page)
    requires SpacesOk(m, base, t, spaces) && c in spaces
    requires OnlyTables(m, m', spaces[c]) && InRam(m', spaces[c])
    ensures SpacesOk(m', base, t, spaces)
    ensures forall d, flat | d in spaces && d != c && Maps(m, spaces[d], flat) :: Maps(m', spaces[d], flat)
  {
    forall d | d in spaces && d != c
      ensures Agree(m, m', spaces[d]) && InRam(m', spaces[d])
    {
      OnlyTablesApart(m, m', spaces[c], spaces[d]);
      MapsFlatOf(m, spaces[d], FlatOf(m, spaces[d].Dir()));
      AgreeKeeps(m, m', spaces[d], FlatOf(m, spaces[d].Dir()));
    }
    forall d, flat | d in spaces && d != c && Maps(m, spaces[d], flat)
      ensures Maps(m', spaces[d], flat)
    {
      AgreeKeeps(m, m', spaces[d], flat);
    }
  }

  /** A new extent leaves the address spaces in order and every frame in use as it was. */
  lemma ExtentKeepsSpaces(m: Ram, m': Ram, base: nat, t: Table, spaces: map<Page, Space>, s: nat, n: nat)
    requires SpacesOk(m, base, t, spaces) && s + n <= |t| && forall i | s <= i < s + n :: t[i] == FREE
    requires OnlyFrames(m, m', base + s, base + s + n)
    ensures SpacesOk(m', base, Take(t, s, n), spaces)
    ensures forall d, flat | d in spaces && Maps(m, spaces[d], flat) :: Maps(m', spaces[d], flat)
    ensures KeepsInUse(base, t, m, m')
    ensures forall f: Page | InUse(base, t, f) :: InUse(base, Take(t, s, n), f)
  {
    forall d, i | d in spaces && 0 <= i < |spaces[d].frames|
      ensures spaces[d].frames[i] < base + s || base + s + n <= spaces[d].frames[i]
      ensures Single(base, Take(t, s, n), spaces[d].frames[i])
    {
      assert Single(base, t, spaces[d].frames[i]);
    }
    forall d | d in spaces
      ensures Agree(m, m', spaces[d]) && InRam(m', spaces[d])
    {
      AgreeOutside(m, m', spaces[d], base + s, base + s + n);
      MapsFlatOf(m, spaces[d], FlatOf(m, spaces[d].Dir()));
      AgreeKeeps(m, m', spaces[d], FlatOf(m, spaces[d].Dir()));
    }
    forall d, flat | d in spaces && Maps(m, spaces[d], flat)
      ensures Maps(m', spaces[d], flat)
    {
      AgreeKeeps(m, m', spaces[d], flat);
    }
  }

  lemma TakeCount(t: Table, s: nat, n: nat)
    requires s + n <= |t| && forall i | s <= i < s + n :: t[i] == FREE
    ensures |FreeBlocks(Take(t, s, n))| == |FreeBlocks(t)| - n
  {
    var rest := FreeBlocks(Take(t, s, n));
    forall i: nat | i < |t| && i !in Extent(s, n)
      ensures Take(t, s, n)[i] == t[i]
    {
    }
    assert FreeBlocks(t) == rest + Extent(s, n);
    DisjointSize(rest, Extent(s, n));
  }

  /** The stack block: 16 KiB of zeroed memory in four consecutive blocks, if there are four. */
  method AllocStack(m: Machine) returns (stack: u32, ghost s: int)
    requires m.Valid()
    modifies m`ram, m.heap`live, m.heap.entries
    ensures m.Valid() && s == FirstFit(old(m.heap.entries[..]), 4)
    ensures stack == 0 <==> s < 0
    ensures stack == 0 ==> m.ram == old(m.ram) && m.heap.entries[..] == old(m.heap.entries[..])
    ensures stack != 0 ==>
              && s + 4 <= m.heap.entries.Length && stack == (m.heap.Base() + s) * 4096
              && (forall i | s <= i < s + 4 :: old(m.heap.entries[..])[i] == FREE)
              && OnlyFrames(old(m.ram), m.ram, m.heap.Base() + s, m.heap.Base() + s + 4)
              && m.heap.entries[..] == Take(old(m.heap.entries[..]), s, 4)
  {
    ghost var t := m.heap.entries[..];
    s := FirstFit(t, 4);
    FirstFitLeast(t, 4);
    DescribedTakenIffNotFree(t, m.heap.live, m.heap.stranded);
    assert H.BlocksFor(STACK_SIZE) == 4;
    stack := m.Kzalloc(STACK_SIZE);
    if stack != 0 {
      ExtentKeepsSpaces(old(m.ram), m.ram, m.heap.Base(), t, m.spaces, s, 4);
    }
  }

  // Loading ------------------------------------------------------------------------------------------

  /** Every byte of the file is in a frame in use. */
  ghost predicate FileInUse(base: nat, t: Table, elf: u32, size: nat) {
    forall x: u32 | elf <= x < elf + size :: InUse(base, t, FrameOf(x))
  }

  lemma KeepsFile(base: nat, t: Table, m: Ram, m': Ram, elf: u32, size: nat)
    requires FileInUse(base, t, elf, size) && KeepsInUse(base, t, m, m')
    ensures SameFile(m, m', elf, size)
  {
    forall x: u32 | elf <= x < elf + size
      ensures ByteAt(m', x) == ByteAt(m, x)
    {
      FrameByte(m, m', x);
    }
  }

  /** A frame that was in use is none of a new task's. */
  lemma InUseApart(base: nat, t: Table, t': Table, f: Page, sp: Space, g: Page)
    requires TaskTable(base, t, t', f, sp) && InUse(base, t, g)
    ensures g !in sp.frames && g != f
  {
    BlocksOfMember(base, sp.frames, g);
  }

  /** Every frame that was in use and every address space there was are as before. */
  ghost predicate Undisturbed(base: nat, a: View, b: View, spaces: map<Page, Space>) {
    && (forall d, flat | d in spaces && Maps(a.ram, spaces[d], flat) :: Maps(b.ram, spaces[d], flat))
    && KeepsInUse(base, a.table, a.ram, b.ram)
  }

  /**
    From one view to another a program was loaded: a new address space sp refines the given flat map, all others are
    as they were, and so is every frame that was in use.
  */
  ghost predicate Loaded(base: nat, a: View, b: View, spaces: map<Page, Space>, spaces': map<Page, Space>,
                         sp: Space, flat: Flat) {
    && Maps(b.ram, sp, flat) && sp.flags == Or(TASK_FLAGS, WRITABLE)
    && sp.Chunk() !in spaces && spaces' == spaces[sp.Chunk() := sp]
    && SpacesOk(b.ram, base, b.table, spaces')
    && Undisturbed(base, a, b, spaces)
  }

  /** Allocating a stack and making a task loads an empty program. */
  lemma LoadedEmpty(base: nat, a: View, a1: View, a2: View, s: nat, f: Page, sp: Space,
                    spaces: map<Page, Space>, spaces': map<Page, Space>)
    requires SpacesOk(a.ram, base, a.table, spaces) && s + 4 <= |a.table|
    requires forall i | s <= i < s + 4 :: a.table[i] == FREE
    requires OnlyFrames(a.ram, a1.ram, base + s, base + s + 4) && a1.table == Take(a.table, s, 4)
    requires TaskMade(base, a1, a2, spaces, spaces', f, sp)
    ensures Loaded(base, a, a2, spaces, spaces', sp, IdentityFlat(TASK_FLAGS))
  {
    ExtentKeepsSpaces(a.ram, a1.ram, base, a.table, spaces, s, 4);
    forall g: Page, k | 0 <= k < 1024 && InUse(base, a.table, g)
      ensures FrameWord(a2.ram, g, k) == FrameWord(a.ram, g, k)
    {
      assert FrameWord(a1.ram, g, k) == FrameWord(a.ram, g, k);
      assert InUse(base, a1.table, g);
    }
  }

  /** Going on mapping in the new address space alone. */
  lemma LoadedMore(base: nat, a: View, b: View, m': Ram, spaces: map<Page, Space>, spaces': map<Page, Space>,
                   sp: Space, flat: Flat, flat': Flat)
    requires Loaded(base, a, b, spaces, spaces', sp, flat) && OnlyTables(b.ram, m', sp) && Maps(m', sp, flat')
    requires forall g: Page | InUse(base, a.table, g) :: !IsTable(sp, g)
    ensures Loaded(base, a, View(m', b.table), spaces, spaces', sp, flat')
  {
    assert spaces'[sp.Chunk()] == sp && forall d | d in spaces :: spaces'[d] == spaces[d] && d != sp.Chunk();
    TablesKeepSpaces(b.ram, m', base, b.table, spaces', sp.Chunk());
    forall g: Page, k | 0 <= k < 1024 && InUse(base, a.table, g)
      ensures FrameWord(m', g, k) == FrameWord(a.ram, g, k)
    {
      assert FrameWord(m', g, k) == FrameWord(b.ram, g, k);
    }
  }

  /** The frames in use before a task was made are none of its tables. */
  lemma NewTablesUnused(base: nat, a: View, a1: View, a2: View, s: nat, f: Page, sp: Space)
    requires s + 4 <= |a.table| && forall i | s <= i < s + 4 :: a.table[i] == FREE
    requires a1.table == Take(a.table, s, 4) && TaskTable(base, a1.table, a2.table, f, sp)
    ensures forall g: Page | InUse(base, a.table, g) :: g !in sp.frames && !IsTable(sp, g)
  {
    forall g: Page | InUse(base, a.table, g)
      ensures g !in sp.frames && !IsTable(sp, g)
    {
      InUseApart(base, a1.table, a2.table, f, sp, g);
    }
  }

  /** The stack block and the task, before anything is mapped. */
  method MakeProcess(m: Machine) returns (stack: u32, task: u32, ghost s: int, ghost a1: View, ghost f: Page,
                                          ghost sp: Space)
    requires m.Valid() && (FirstFit(m.heap.entries[..], 4) >= 0 ==> |FreeBlocks(m.heap.entries[..])| >= 1031)
    modifies m`ram, m`spaces, m.heap`live, m.heap.entries
    ensures m.Valid() && s == FirstFit(old(m.heap.entries[..]), 4)
    ensures stack == 0 <==> s < 0
    ensures stack == 0 ==>
              m.ram == old(m.ram) && m.heap.entries[..] == old(m.heap.entries[..]) && m.spaces == old(m.spaces)
    ensures stack != 0 ==>
              && 0 <= s && s + 4 <= m.heap.entries.Length && stack == (m.heap.Base() + s) * 4096
              && (forall i | s <= i < s + 4 :: old(m.heap.entries[..])[i] == FREE)
              && OnlyFrames(old(m.ram), a1.ram, m.heap.Base() + s, m.heap.Base() + s + 4)
              && a1.table == Take(old(m.heap.entries[..]), s, 4)
              && TaskMade(m.heap.Base(), a1, View(m.ram, m.heap.entries[..]), old(m.spaces), m.spaces, f, sp)
              && task == AddressOf(f)
  {
    task := 0;
    a1, f, sp := View(m.ram, m.heap.entries[..]), 0, Space([], 0);
    stack, s := AllocStack(m);
    if stack == 0 {
      return;
    }
    TakeCount(a1.table, s, 4);
    a1 := View(m.ram, m.heap.entries[..]);
    task, f, sp := TaskNew(m);
  }

  lemma AddedAndRemoved(spaces: map<Page, Space>, spaces': map<Page, Space>, c: Page, sp: Space)
    requires c !in spaces && spaces' == spaces[c := sp]
    ensures spaces' - {c} == spaces && spaces'[c] == sp
  {
  }

  lemma TaskRecordApart(m: Ram, base: nat, t1: Table, t2: Table, f: Page, sp: Space, spaces: map<Page, Space>,
                        spaces': map<Page, Space>)
    requires SpacesOk(m, base, t1, spaces) && TaskTable(base, t1, t2, f, sp)
    requires sp.Shaped() && f !in sp.frames && sp.Chunk() !in spaces && spaces' == spaces[sp.Chunk() := sp]
    ensures Single(base, t2, f) && f !in spaces' && spaces' - {sp.Chunk()} == spaces && spaces'[sp.Chunk()] == sp
    ensures forall d, i | d in spaces' && 0 <= i < |spaces'[d].frames| :: spaces'[d].frames[i] != f
  {
    FreeUnused(m, base, t1, spaces, f);
    AddedAndRemoved(spaces, spaces', sp.Chunk(), sp);
    assert sp.frames[1025] in sp.frames;
  }

  /** A task whose segments were not all accepted is freed; its stack block is not. */
  method Abandon(m: Machine, task: u32, ghost t1: Table, ghost f: Page, ghost sp: Space, ghost spaces: map<Page, Space>)
    requires m.Valid() && task == AddressOf(f) && sp.Shaped() && TaskAt(m.ram, f, sp.Chunk())
    requires sp.Chunk() !in spaces && m.spaces == spaces[sp.Chunk() := sp] && f !in sp.frames
    requires SpacesOk(m.ram, m.heap.Base(), t1, spaces)
    requires TaskTable(m.heap.Base(), t1, m.heap.entries[..], f, sp)
    modifies m`spaces, m.heap`live, m.heap`stranded, m.heap.entries
    ensures m.Valid() && m.spaces == spaces && m.heap.entries[..] == t1
  {
    ghost var t2 := m.heap.entries[..];
    TaskRecordApart(m.ram, m.heap.Base(), t1, t2, f, sp, spaces, m.spaces);
    TaskRoundTrip(m.heap.Base(), t1, t2, f, sp);
    TaskFree(m, task, f, sp.Chunk());
  }

  /** Whether all segments of an image are accepted, and the flat map that mapping them leads to. */
  function ImageResult(elf: u32, m: Ram): int {
    MapSegments(IdentityFlat(TASK_FLAGS), elf, Phdrs(m, elf), PhNum(m, elf)).0
  }

  function ImageFlat(elf: u32, m: Ram): Flat {
    MapSegments(IdentityFlat(TASK_FLAGS), elf, Phdrs(m, elf), PhNum(m, elf)).1
  }

  lemma ImageIs(elf: u32, m: Ram, phs: seq<Phdr>)
    requires phs == Phdrs(m, elf)
    ensures MapSegments(IdentityFlat(TASK_FLAGS), elf, phs, |phs|) == (ImageResult(elf, m), ImageFlat(elf, m))
    ensures ImageResult(elf, m) in {OK, EINVARG}
  {
    SegmentsAcceptedIff(IdentityFlat(TASK_FLAGS), elf, phs, |phs|);
  }

  /** Maps the segments into the new address space; everything else stays as it was loaded. */
  method MapProgram(m: Machine, chunk: u32, elf: u32, ghost size: nat, ghost a: View, ghost spaces: map<Page, Space>,
                    ghost sp: Space) returns (res: int)
    requires m.heap.Valid() && sp.Shaped() && chunk == AddressOf(sp.Chunk())
    requires Loaded(m.heap.Base(), a, View(m.ram, m.heap.entries[..]), spaces, m.spaces, sp, IdentityFlat(TASK_FLAGS))
    requires HeadersInside(a.ram, elf, size) && FileInUse(m.heap.Base(), a.table, elf, size)
    requires forall g: Page | InUse(m.heap.Base(), a.table, g) :: g !in sp.frames && !IsTable(sp, g)
    modifies m`ram
    ensures m.heap.Valid()
    ensures res == ImageResult(elf, a.ram) && res in {OK, EINVARG}
    ensures Loaded(m.heap.Base(), a, View(m.ram, m.heap.entries[..]), spaces, m.spaces, sp, ImageFlat(elf, a.ram))
    ensures OnlyTables(old(m.ram), m.ram, sp)
  {
    ghost var b := View(m.ram, m.heap.entries[..]);
    KeepsFile(m.heap.Base(), a.table, a.ram, m.ram, elf, size);
    SameHeaders(a.ram, m.ram, elf, size);
    res := MapElf(m, chunk, elf, size, sp, IdentityFlat(TASK_FLAGS));
    ImageIs(elf, a.ram, Phdrs(a.ram, elf));
    LoadedMore(m.heap.Base(), a, b, m.ram, spaces, m.spaces, sp, IdentityFlat(TASK_FLAGS), ImageFlat(elf, a.ram));
  }

  lemma StackArguments(stack: u32)
    requires StackOk(stack)
    ensures AlignUp(Wrap(stack + STACK_SIZE)) == stack + STACK_SIZE
    ensures MapToAccepts(STACK_TOP, stack, stack + STACK_SIZE)
  {
  }

  /** Maps the stack block at the top of the stack area. */
  method MapStackTo(m: Machine, chunk: u32, stack: u32, ghost sp: Space, ghost flat: Flat, ghost pages: nat)
    requires Maps(m.ram, sp, flat) && chunk == AddressOf(sp.Chunk()) && StackOk(stack) && pages == STACK_SIZE / 4096
    modifies m`ram
    ensures Maps(m.ram, sp, MapPages(flat, FrameOf(STACK_TOP), stack, pages, FULL_ACCESS))
    ensures OnlyTables(old(m.ram), m.ram, sp)
  {
    StackArguments(stack);
    var end := AlignUp(Wrap(stack + STACK_SIZE));
    var res := MapTo(m, chunk, STACK_TOP, stack, end, FULL_ACCESS, sp, flat);
    assert (end - stack) / 4096 == pages;
  }

  /** The stack is mapped; everything else stays as it was loaded. */
  method MapStack(m: Machine, chunk: u32, stack: u32, ghost a: View, ghost spaces: map<Page, Space>, ghost sp: Space,
                  ghost flat: Flat, ghost pages: nat)
    requires m.heap.Valid() && sp.Shaped() && chunk == AddressOf(sp.Chunk()) && StackOk(stack)
    requires Loaded(m.heap.Base(), a, View(m.ram, m.heap.entries[..]), spaces, m.spaces, sp, flat)
    requires forall g: Page | InUse(m.heap.Base(), a.table, g) :: !IsTable(sp, g)
    requires pages == STACK_SIZE / 4096
    modifies m`ram
    ensures m.heap.Valid()
    ensures Loaded(m.heap.Base(), a, View(m.ram, m.heap.entries[..]), spaces, m.spaces, sp,
                   MapPages(flat, FrameOf(STACK_TOP), stack, pages, FULL_ACCESS))
    ensures OnlyTables(old(m.ram), m.ram, sp)
  {
    ghost var b := View(m.ram, m.heap.entries[..]);
    MapStackTo(m, chunk, stack, sp, flat, pages);
    LoadedMore(m.heap.Base(), a, b, m.ram, spaces, m.spaces, sp, flat,
               MapPages(flat, FrameOf(STACK_TOP), stack, pages, FULL_ACCESS));
  }
}
