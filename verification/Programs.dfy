/** src/task/process.c: process_load as a whole, and what a loaded program sees. */
module Programs {
  import opened Words
  import opened Memory
  import opened BlockTable
  import opened AddressSpaces
  import opened Kernel
  import opened Paging
  import opened Chunks
  import opened Strings
  import opened TaskSpaces
  import opened Loader
  import opened Processes
  import H = Heap

  /** A process that was loaded: its task record, its stack block and the address space of its task. */
  datatype Process = Process(task: Page, stack: u32, space: Space)

  /** Between two views a program was loaded, with nothing else disturbed. */
  ghost predicate Running(base: nat, a: View, b: View, spaces: map<Page, Space>, spaces': map<Page, Space>,
                          elf: u32, s: nat, p: Process) {
    && s + 4 <= |a.table| && (forall i | s <= i < s + 4 :: a.table[i] == FREE)
    && p.stack == (base + s) * 4096 && StackOk(p.stack)
    && p.space.Shaped() && TaskAt(b.ram, p.task, p.space.Chunk())
    && TaskTable(base, Take(a.table, s, 4), b.table, p.task, p.space)
    && Loaded(base, a, b, spaces, spaces', p.space, LoadedFlat(elf, Phdrs(a.ram, elf), p.stack))
  }

  /** The table frames leave the record of the task as it is. */
  lemma RecordStays(m: Ram, m': Ram, sp: Space, f: Page, c: Page)
    requires OnlyTables(m, m', sp) && TaskAt(m, f, c) && f !in sp.frames && sp.Shaped()
    ensures TaskAt(m', f, c)
  {
    assert !IsTable(sp, f);
  }

  /** A program whose segments are being mapped: the stack block and the task are allocated. */
  ghost predicate Loading(base: nat, a: View, b: View, spaces: map<Page, Space>, spaces': map<Page, Space>,
                          s: nat, p: Process, flat: Flat) {
    && s + 4 <= |a.table| && (forall i | s <= i < s + 4 :: a.table[i] == FREE)
    && p.space.Shaped() && TaskAt(b.ram, p.task, p.space.Chunk()) && p.task !in p.space.frames
    && TaskTable(base, Take(a.table, s, 4), b.table, p.task, p.space)
    && Loaded(base, a, b, spaces, spaces', p.space, flat)
    && forall g: Page | InUse(base, a.table, g) :: g !in p.space.frames && !IsTable(p.space, g)
  }

  /** Changing the tables of the program's address space goes on with loading it. */
  lemma LoadingMore(base: nat, a: View, b: View, ram: Ram, spaces: map<Page, Space>, spaces': map<Page, Space>, s: nat,
                    p: Process, flat: Flat, flat': Flat)
    requires Loading(base, a, b, spaces, spaces', s, p, flat) && OnlyTables(b.ram, ram, p.space)
    requires Loaded(base, a, View(ram, b.table), spaces, spaces', p.space, flat')
    ensures Loading(base, a, View(ram, b.table), spaces, spaces', s, p, flat')
  {
    RecordStays(b.ram, ram, p.space, p.task, p.space.Chunk());
  }

  lemma StartLoading(base: nat, a: View, a1: View, b: View, spaces: map<Page, Space>, spaces': map<Page, Space>,
                     s: nat, p: Process)
    requires SpacesOk(a.ram, base, a.table, spaces) && s + 4 <= |a.table|
    requires forall i | s <= i < s + 4 :: a.table[i] == FREE
    requires OnlyFrames(a.ram, a1.ram, base + s, base + s + 4) && a1.table == Take(a.table, s, 4)
    requires TaskMade(base, a1, b, spaces, spaces', p.task, p.space)
    ensures Loading(base, a, b, spaces, spaces', s, p, IdentityFlat(TASK_FLAGS))
  {
    NewTablesUnused(base, a, a1, b, s, p.task, p.space);
    LoadedEmpty(base, a, a1, b, s, p.task, p.space, spaces, spaces');
  }

  /** The address spaces there were before are in order without the new one, too. */
  lemma OlderSpaces(m: Ram, m': Ram, base: nat, t: Table, t': Table, spaces: map<Page, Space>, c: Page, sp: Space,
                    s: nat)
    requires SpacesOk(m, base, t, spaces) && c !in spaces && SpacesOk(m', base, t', spaces[c := sp])
    requires s + 4 <= |t| && forall i | s <= i < s + 4 :: t[i] == FREE
    ensures SpacesOk(m', base, Take(t, s, 4), spaces)
  {
    forall d | d in spaces
      ensures InRam(m', spaces[d]) && Owned(spaces[d], base, Take(t, s, 4))
    {
      assert spaces[c := sp][d] == spaces[d];
      TakenStaysOwned(spaces[d], base, t, s);
    }
  }

  lemma TakenStaysOwned(sp: Space, base: nat, t: Table, s: nat)
    requires Owned(sp, base, t) && s + 4 <= |t| && forall i | s <= i < s + 4 :: t[i] == FREE
    ensures Owned(sp, base, Take(t, s, 4))
  {
    forall i | 0 <= i < |sp.frames|
      ensures Single(base, Take(t, s, 4), sp.frames[i])
    {
      assert Single(base, t, sp.frames[i]);
    }
  }

  /** The stack block and the task, ready for the segments. */
  method Begin(m: Machine) returns (stack: u32, task: u32, ghost s: int, ghost p: Process)
    requires m.Valid() && (FirstFit(m.heap.entries[..], 4) >= 0 ==> |FreeBlocks(m.heap.entries[..])| >= 1031)
    modifies m`ram, m`spaces, m.heap`live, m.heap.entries
    ensures m.Valid() && s == FirstFit(old(m.heap.entries[..]), 4) && (stack == 0 <==> s < 0)
    ensures s < 0 ==>
              m.ram == old(m.ram) && m.heap.entries[..] == old(m.heap.entries[..]) && m.spaces == old(m.spaces)
    ensures s >= 0 ==>
              && stack == p.stack == (m.heap.Base() + s) * 4096 && task == AddressOf(p.task)
              && Loading(m.heap.Base(), old(View(m.ram, m.heap.entries[..])), View(m.ram, m.heap.entries[..]),
                         old(m.spaces), m.spaces, s, p, IdentityFlat(TASK_FLAGS))
  {
    ghost var a, spaces := View(m.ram, m.heap.entries[..]), m.spaces;
    ghost var a1, f, sp;
    stack, task, s, a1, f, sp := MakeProcess(m);
    p := Process(f, stack, sp);
    if stack != 0 {
      StartLoading(m.heap.Base(), a, a1, View(m.ram, m.heap.entries[..]), spaces, m.spaces, s, p);
    }
  }

  /** How loading ends: with s the first of the stack's blocks. */
  datatype Ending = NoStack | Refused(s: nat) | Ready(s: nat, p: Process)

  /**
    What loading comes to. Without four free blocks in a row nothing changes. When a segment is not accepted the task is
    gone again, but the stack block stays allocated. Otherwise the program is ready to run. Nothing else is disturbed.
  */
  ghost predicate Outcome(base: nat, a: View, b: View, spaces: map<Page, Space>, spaces': map<Page, Space>, elf: u32,
                          res: int, e: Ending) {
    match e
    case NoStack =>
      FirstFit(a.table, 4) < 0 && res == ENOMEM && b == a && spaces' == spaces
    case Refused(s) =>
      && s == FirstFit(a.table, 4) && s + 4 <= |a.table| && (forall i | s <= i < s + 4 :: a.table[i] == FREE)
      && res == EINVARG == ImageResult(elf, a.ram)
      && b.table == Take(a.table, s, 4) && spaces' == spaces && Undisturbed(base, a, b, spaces)
    case Ready(s, p) =>
      && s == FirstFit(a.table, 4) && res == OK == ImageResult(elf, a.ram)
      && Running(base, a, b, spaces, spaces', elf, s, p)
  }

  /** Maps the segments, up to the first that is not accepted. */
  method MapImage(m: Machine, elf: u32, ghost size: nat, task: u32, ghost s: nat, ghost a: View,
                  ghost spaces: map<Page, Space>, ghost p: Process) returns (res: int, chunk: u32)
    requires m.heap.Valid() && task == AddressOf(p.task) && |p.space.frames| == 1026
    requires Loading(m.heap.Base(), a, View(m.ram, m.heap.entries[..]), spaces, m.spaces, s, p,
                     IdentityFlat(TASK_FLAGS))
    requires HeadersInside(a.ram, elf, size) && FileInUse(m.heap.Base(), a.table, elf, size)
    modifies m`ram
    ensures m.heap.Valid() && chunk == AddressOf(p.space.Chunk())
    ensures res == ImageResult(elf, a.ram) && res in {OK, EINVARG}
    ensures Loading(m.heap.Base(), a, View(m.ram, m.heap.entries[..]), spaces, m.spaces, s, p, ImageFlat(elf, a.ram))
  {
    ghost var b := View(m.ram, m.heap.entries[..]);
    ElementInFrame(m.ram, p.task, 0);
    chunk := Element(m.ram, task, 0);
    res := MapProgram(m, chunk, elf, size, a, spaces, p.space);
    LoadingMore(m.heap.Base(), a, b, m.ram, spaces, m.spaces, s, p, IdentityFlat(TASK_FLAGS), ImageFlat(elf, a.ram));
  }

  /** Frees the task of a program that is not accepted, but not its stack block. */
  method Refuse(m: Machine, elf: u32, task: u32, ghost s: nat, ghost a: View, ghost spaces: map<Page, Space>,
                ghost p: Process, ghost flat: Flat)
    requires m.heap.Valid() && task == AddressOf(p.task) && SpacesOk(a.ram, m.heap.Base(), a.table, spaces)
    requires s == FirstFit(a.table, 4) && ImageResult(elf, a.ram) == EINVARG
    requires Loading(m.heap.Base(), a, View(m.ram, m.heap.entries[..]), spaces, m.spaces, s, p, flat)
    modifies m`spaces, m.heap`live, m.heap`stranded, m.heap.entries
    ensures m.Valid()
    ensures Outcome(m.heap.Base(), a, View(m.ram, m.heap.entries[..]), spaces, m.spaces, elf, EINVARG, Refused(s))
  {
    OlderSpaces(a.ram, m.ram, m.heap.Base(), a.table, m.heap.entries[..], spaces, p.space.Chunk(), p.space, s);
    Abandon(m, task, Take(a.table, s, 4), p.task, p.space, spaces);
  }

  /** Maps the stack. */
  method MapStackPages(m: Machine, chunk: u32, stack: u32, ghost s: nat, ghost a: View, ghost spaces: map<Page, Space>,
                       ghost p: Process, ghost flat: Flat, ghost loaded: Flat)
    requires m.heap.Valid() && |p.space.frames| == 1026 && chunk == AddressOf(p.space.Chunk()) && StackOk(stack)
    requires Loading(m.heap.Base(), a, View(m.ram, m.heap.entries[..]), spaces, m.spaces, s, p, flat)
    requires loaded == MapPages(flat, FrameOf(STACK_TOP), stack, STACK_SIZE / 4096, FULL_ACCESS)
    modifies m`ram
    ensures m.heap.Valid()
    ensures Loading(m.heap.Base(), a, View(m.ram, m.heap.entries[..]), spaces, m.spaces, s, p, loaded)
  {
    ghost var b := View(m.ram, m.heap.entries[..]);
    MapStack(m, chunk, stack, a, spaces, p.space, flat, STACK_SIZE / 4096);
    LoadingMore(m.heap.Base(), a, b, m.ram, spaces, m.spaces, s, p, flat, loaded);
  }

  lemma LoadingDone(base: nat, a: View, b: View, spaces: map<Page, Space>, spaces': map<Page, Space>, elf: u32, s: nat,
                    p: Process, flat: Flat)
    requires Loading(base, a, b, spaces, spaces', s, p, flat) && flat == LoadedFlat(elf, Phdrs(a.ram, elf), p.stack)
    requires p.stack == (base + s) * 4096 && StackOk(p.stack)
    ensures Running(base, a, b, spaces, spaces', elf, s, p) && SpacesOk(b.ram, base, b.table, spaces')
  {
  }

  /** Maps the stack, and the program is ready to run. */
  method FinishLoading(m: Machine, elf: u32, chunk: u32, stack: u32, ghost s: nat, ghost a: View,
                       ghost spaces: map<Page, Space>, ghost p: Process)
    requires m.heap.Valid() && |p.space.frames| == 1026 && chunk == AddressOf(p.space.Chunk())
    requires stack == p.stack == (m.heap.Base() + s) * 4096 && StackOk(stack)
    requires Loading(m.heap.Base(), a, View(m.ram, m.heap.entries[..]), spaces, m.spaces, s, p, ImageFlat(elf, a.ram))
    modifies m`ram
    ensures m.Valid()
    ensures Running(m.heap.Base(), a, View(m.ram, m.heap.entries[..]), spaces, m.spaces, elf, s, p)
  {
    MapStackPages(m, chunk, stack, s, a, spaces, p, ImageFlat(elf, a.ram), LoadedFlat(elf, Phdrs(a.ram, elf), stack));
    LoadingDone(m.heap.Base(), a, View(m.ram, m.heap.entries[..]), spaces, m.spaces, elf, s, p,
                LoadedFlat(elf, Phdrs(a.ram, elf), stack));
  }

  /** The part after the task is made. */
  method MapProcess(m: Machine, elf: u32, ghost size: nat, task: u32, stack: u32, ghost s: nat, ghost a: View,
                    ghost spaces: map<Page, Space>, ghost p: Process) returns (res: int, ghost e: Ending)
    requires m.Valid() && task == AddressOf(p.task) && SpacesOk(a.ram, m.heap.Base(), a.table, spaces)
    requires s == FirstFit(a.table, 4)
    requires stack == p.stack == (m.heap.Base() + s) * 4096 && StackOk(stack)
    requires Loading(m.heap.Base(), a, View(m.ram, m.heap.entries[..]), spaces, m.spaces, s, p,
                     IdentityFlat(TASK_FLAGS))
    requires HeadersInside(a.ram, elf, size) && FileInUse(m.heap.Base(), a.table, elf, size)
    modifies m`ram, m`spaces, m.heap`live, m.heap`stranded, m.heap.entries
    ensures m.Valid()
    ensures Outcome(m.heap.Base(), a, View(m.ram, m.heap.entries[..]), spaces, m.spaces, elf, res, e)
  {
    var chunk;
    res, chunk := MapImage(m, elf, size, task, s, a, spaces, p);
    if res < 0 {
      Refuse(m, elf, task, s, a, spaces, p, ImageFlat(elf, a.ram));
      e := Refused(s);
    } else {
      FinishLoading(m, elf, chunk, stack, s, a, spaces, p);
      e := Ready(s, p);
    }
  }

  /** Loads the program whose image of size bytes is at elf: a stack, a task, the segments and the stack's pages. */
  method Load(m: Machine, elf: u32, ghost size: nat) returns (res: int, ghost e: Ending)
    requires m.Valid() && (FirstFit(m.heap.entries[..], 4) >= 0 ==> |FreeBlocks(m.heap.entries[..])| >= 1031)
    requires m.heap.Base() + m.heap.entries.Length < 0x10_0000
    requires HeadersInside(m.ram, elf, size) && FileInUse(m.heap.Base(), m.heap.entries[..], elf, size)
    modifies m`ram, m`spaces, m.heap`live, m.heap`stranded, m.heap.entries
    ensures m.Valid()
    ensures Outcome(m.heap.Base(), old(View(m.ram, m.heap.entries[..])), View(m.ram, m.heap.entries[..]),
                    old(m.spaces), m.spaces, elf, res, e)
  {
    ghost var a, spaces := View(m.ram, m.heap.entries[..]), m.spaces;
    var stack, task;
    ghost var s, p;
    stack, task, s, p := Begin(m);
    res, e := ENOMEM, NoStack;
    if stack != 0 {
      StackFits(m.heap, s, p.stack);
      res, e := MapProcess(m, elf, size, task, stack, s, a, spaces, p);
    }
  }

  lemma StackFits(heap: H.Heap, s: nat, stack: u32)
    requires stack == (heap.Base() + s) * 4096 && s + 4 <= heap.entries.Length
    requires heap.Base() + heap.entries.Length < 0x10_0000
    ensures StackOk(stack)
  {
  }

  // What the program sees ----------------------------------------------------------------------------------

  /**
    When loading ends how: without a stack exactly when there are no four free blocks in a row, and refused exactly when
    there are but some segment runs over.
  */
  lemma EndsIff(base: nat, a: View, b: View, spaces: map<Page, Space>, spaces': map<Page, Space>, elf: u32, res: int,
                e: Ending)
    requires Outcome(base, a, b, spaces, spaces', elf, res, e)
    ensures var over := exists i :: 0 <= i < PhNum(a.ram, elf) && RunsOver(elf, Phdrs(a.ram, elf)[i]);
            && (res == -3 <==> FirstFit(a.table, 4) < 0) && (res == -3 <==> e.NoStack?)
            && (res == -2 <==> FirstFit(a.table, 4) >= 0 && over) && (res == -2 <==> e.Refused?)
            && (res == 0 <==> FirstFit(a.table, 4) >= 0 && !over) && (res == 0 <==> e.Ready?)
  {
    SegmentsAcceptedIff(IdentityFlat(TASK_FLAGS), elf, Phdrs(a.ram, elf), PhNum(a.ram, elf));
  }

  /** A well-formed image is never refused. */
  lemma WellFormedAccepted(base: nat, a: View, b: View, spaces: map<Page, Space>, spaces': map<Page, Space>, elf: u32,
                           res: int, e: Ending)
    requires Outcome(base, a, b, spaces, spaces', elf, res, e) && ImageOk(elf, Phdrs(a.ram, elf))
    ensures if FirstFit(a.table, 4) < 0 then res == ENOMEM && e.NoStack? else res == OK && e.Ready?
  {
    FirstFitLeast(a.table, 4);
    SegmentsMap(IdentityFlat(TASK_FLAGS), elf, Phdrs(a.ram, elf), PhNum(a.ram, elf), 0);
  }

  /** What the processor lets user code do with the byte at va: both levels of the tables have to allow it. */
  function UserAccess(m: Ram, dir: Page, va: u32): Access {
    AccessOf(Allowed(m, dir, va, PRESENT), Allowed(m, dir, va, USER), Allowed(m, dir, va, WRITABLE))
  }

  /** User code may read the byte at va, and write it exactly when told so. */
  predicate Usable(m: Ram, dir: Page, va: u32, writable: bool) {
    UserAccess(m, dir, va) == AccessOf(true, true, writable)
  }

  lemma AccessibleUsable(m: Ram, sp: Space, flat: Flat, va: u32, writable: bool)
    requires Maps(m, sp, flat) && sp.flags == Or(TASK_FLAGS, WRITABLE) && Accessible(flat[va / 4096], writable)
    ensures Usable(m, sp.Dir(), va, writable) && Translate(m, sp.Dir(), va) == Via(flat, va)
  {
    WalkInSpace(m, sp, va / 4096);
    TranslateVia(m, sp, flat, va);
    TaskDirectoryFlags();
    SumParts(sp.frames[va / 4096 / 1024], sp.flags);
    assert Walk(m, sp.Dir(), va / 4096) == flat[va / 4096];
  }

  lemma TaskDirectoryFlags()
    ensures Or(TASK_FLAGS, WRITABLE) == 7
  {
    Pow2Values();
    OrBitsLow(0, 5, 2, 3, 32);
    assert OrBits(1, 0, 1) == 1 && OrBits(2, 1, 2) == 3;
  }

  /**
    Every byte of a page of any segment is where the last segment with that page puts it when the processor walks the
    tables of the task, for user code to read, and to write exactly when that segment is writable.
  */
  lemma SegmentsInPlace(m: Ram, sp: Space, elf: u32, phs: seq<Phdr>, stack: u32, va: u32)
    requires Maps(m, sp, LoadedFlat(elf, phs, stack)) && sp.flags == Or(TASK_FLAGS, WRITABLE)
    requires ImageOk(elf, phs) && Covering(phs, va / 4096) >= 0
    ensures var ph := phs[Covering(phs, va / 4096)];
            && Translate(m, sp.Dir(), va) == elf + ph.offset + va - ph.vaddr
            && Usable(m, sp.Dir(), va, HasFlag(ph.flags, PF_W))
  {
    CoveredByte(elf, phs, stack, va);
    AccessibleUsable(m, sp, LoadedFlat(elf, phs, stack), va, HasFlag(phs[Covering(phs, va / 4096)].flags, PF_W));
  }

  /** Every byte of the stack area is in the stack block, for user code to read and write. */
  lemma StackInPlace(m: Ram, sp: Space, elf: u32, phs: seq<Phdr>, stack: u32, k: nat)
    requires Maps(m, sp, LoadedFlat(elf, phs, stack)) && sp.flags == Or(TASK_FLAGS, WRITABLE)
    requires StackOk(stack) && k < STACK_SIZE
    ensures Translate(m, sp.Dir(), STACK_TOP + k) == stack + k
    ensures Usable(m, sp.Dir(), STACK_TOP + k, true)
  {
    StackByte(elf, phs, stack, k);
    AccessibleUsable(m, sp, LoadedFlat(elf, phs, stack), STACK_TOP + k, true);
  }

  lemma ReadOnlyFlags()
    ensures HasFlag(5, PRESENT) && HasFlag(5, USER) && !HasFlag(5, WRITABLE)
  {
  }

  lemma EntryShows(entry: u32, q: Page)
    requires entry == q * 4096 + 5
    ensures AddressOf(FrameOf(entry)) == q * 4096 && Accessible(entry, false)
  {
    SumParts(q, 5);
    ReadOnlyFlags();
  }

  lemma IdentityEntryShows(flat: Flat, va: u32)
    requires flat[va / 4096] == IdentityEntry(va / 4096, 5)
    ensures Via(flat, va) == va && Accessible(flat[va / 4096], false)
  {
    EntryShows(flat[va / 4096], va / 4096);
  }

  /** Every address outside the segments and the stack is mapped to itself, for user code to read but not to write. */
  lemma RestInPlace(m: Ram, sp: Space, elf: u32, phs: seq<Phdr>, stack: u32, va: u32)
    requires Maps(m, sp, LoadedFlat(elf, phs, stack)) && sp.flags == Or(TASK_FLAGS, WRITABLE)
    requires ImageOk(elf, phs) && !InStack(va / 4096) && Covering(phs, va / 4096) < 0
    ensures Translate(m, sp.Dir(), va) == va && UserAccess(m, sp.Dir(), va) == ReadOnly
  {
    OtherPage(elf, phs, stack, va / 4096);
    IdentityEntryShows(LoadedFlat(elf, phs, stack), va);
    AccessibleUsable(m, sp, LoadedFlat(elf, phs, stack), va, false);
  }

  /** What the tables of a directory show at an address on a page of a segment, if that is the last one with it. */
  ghost predicate SegmentByteInPlace(m: Ram, dir: Page, elf: u32, ph: Phdr, va: u32) {
    Translate(m, dir, va) == elf + ph.offset + va - ph.vaddr && Usable(m, dir, va, HasFlag(ph.flags, PF_W))
  }

  ghost predicate StackByteInPlace(m: Ram, dir: Page, stack: u32, k: nat)
    requires k < 0x4000
  {
    Translate(m, dir, 0x3f_b000 + k) == stack + k && UserAccess(m, dir, 0x3f_b000 + k) == ReadWrite
  }

  ghost predicate OtherByteInPlace(m: Ram, dir: Page, va: u32) {
    Translate(m, dir, va) == va && UserAccess(m, dir, va) == ReadOnly
  }

  /** The tables of a directory show the program: the segments, the stack, and the identity everywhere else. */
  ghost predicate ProgramInPlace(m: Ram, dir: Page, elf: u32, phs: seq<Phdr>, stack: u32) {
    && (forall va: u32 | Covering(phs, va / 4096) >= 0 ::
          SegmentByteInPlace(m, dir, elf, phs[Covering(phs, va / 4096)], va))
    && (forall k: nat | k < 0x4000 :: StackByteInPlace(m, dir, stack, k))
    && (forall va: u32 | !InStack(va / 4096) && Covering(phs, va / 4096) < 0 :: OtherByteInPlace(m, dir, va))
  }

  lemma FlatShowsProgram(m: Ram, sp: Space, elf: u32, phs: seq<Phdr>, stack: u32)
    requires Maps(m, sp, LoadedFlat(elf, phs, stack)) && sp.flags == Or(TASK_FLAGS, WRITABLE) && StackOk(stack)
    requires ImageOk(elf, phs)
    ensures ProgramInPlace(m, sp.Dir(), elf, phs, stack)
  {
    forall va: u32 | Covering(phs, va / 4096) >= 0
      ensures SegmentByteInPlace(m, sp.Dir(), elf, phs[Covering(phs, va / 4096)], va)
    {
      SegmentsInPlace(m, sp, elf, phs, stack, va);
    }
    forall k: nat | k < 0x4000
      ensures StackByteInPlace(m, sp.Dir(), stack, k)
    {
      StackInPlace(m, sp, elf, phs, stack, k);
    }
    forall va: u32 | !InStack(va / 4096) && Covering(phs, va / 4096) < 0
      ensures OtherByteInPlace(m, sp.Dir(), va)
    {
      RestInPlace(m, sp, elf, phs, stack, va);
    }
  }

  /** The tables and the record of a task are in memory, in frames in use. */
  ghost predicate Placed(base: nat, b: View, spaces: map<Page, Space>, elf: u32, phs: seq<Phdr>, p: Process) {
    && StackOk(p.stack) && p.space.Shaped() && p.space.flags == Or(TASK_FLAGS, WRITABLE)
    && InUse(base, b.table, p.task) && TaskAt(b.ram, p.task, p.space.Chunk())
    && p.space.Chunk() in spaces && spaces[p.space.Chunk()] == p.space
    && Maps(b.ram, p.space, LoadedFlat(elf, phs, p.stack))
  }

  lemma TaskInUse(base: nat, t: Table, t': Table, f: Page, sp: Space)
    requires TaskTable(base, t, t', f, sp)
    ensures InUse(base, t', f)
  {
    assert t'[f - base] == SINGLE;
  }

  lemma RunningPlaced(base: nat, a: View, b: View, spaces: map<Page, Space>, spaces': map<Page, Space>, elf: u32,
                      s: nat, p: Process)
    requires Running(base, a, b, spaces, spaces', elf, s, p)
    ensures Placed(base, b, spaces', elf, Phdrs(a.ram, elf), p) && Undisturbed(base, a, b, spaces)
  {
    TaskInUse(base, Take(a.table, s, 4), b.table, p.task, p.space);
  }

  /** A program that was loaded meets what FlatShowsProgram asks for. */
  lemma ReadyMeans(base: nat, a: View, b: View, spaces: map<Page, Space>, spaces': map<Page, Space>, elf: u32,
                   res: int, e: Ending)
    requires Outcome(base, a, b, spaces, spaces', elf, res, e) && res == OK
    ensures e.Ready? && Placed(base, b, spaces', elf, Phdrs(a.ram, elf), e.p)
    ensures Undisturbed(base, a, b, spaces)
  {
    RunningPlaced(base, a, b, spaces, spaces', elf, e.s, e.p);
  }

  /** A task with a program in place, and the size bytes of its image as they were before. */
  ghost predicate ProgramReady(before: Ram, m: Ram, elf: u32, phs: seq<Phdr>, size: nat, p: Process) {
    && p.space.Shaped() && TaskAt(m, p.task, p.space.Chunk())
    && ProgramInPlace(m, p.space.Dir(), elf, phs, p.stack)
    && SameFile(before, m, elf, size)
  }

  lemma ReadyShowsProgram(base: nat, a: View, b: View, spaces: map<Page, Space>, elf: u32, phs: seq<Phdr>, size: nat,
                          p: Process)
    requires Placed(base, b, spaces, elf, phs, p) && ImageOk(elf, phs)
    requires KeepsInUse(base, a.table, a.ram, b.ram) && FileInUse(base, a.table, elf, size)
    ensures ProgramReady(a.ram, b.ram, elf, phs, size, p)
  {
    KeepsFile(base, a.table, a.ram, b.ram, elf, size);
    FlatShowsProgram(b.ram, p.space, elf, phs, p.stack);
  }

  /**
    Loading a well-formed image succeeds whenever there is room for a stack. The new task's tables then show the
    program, and nothing else is disturbed.
  */
  lemma LoadedProgram(base: nat, a: View, b: View, spaces: map<Page, Space>, spaces': map<Page, Space>, elf: u32,
                      phs: seq<Phdr>, size: nat, res: int, e: Ending)
    requires Outcome(base, a, b, spaces, spaces', elf, res, e) && FirstFit(a.table, 4) >= 0
    requires FileInUse(base, a.table, elf, size) && phs == Phdrs(a.ram, elf) && ImageOk(elf, phs)
    ensures res == OK && e.Ready? && ProgramReady(a.ram, b.ram, elf, phs, size, e.p) && Undisturbed(base, a, b, spaces)
  {
    WellFormedAccepted(base, a, b, spaces, spaces', elf, res, e);
    ReadyMeans(base, a, b, spaces, spaces', elf, res, e);
    ReadyShowsProgram(base, a, b, spaces', elf, phs, size, e.p);
  }

  /**
    What that means for byte k of segment i: it is where the image has it, and then reads as the image did, exactly when
    the last segment with its page has the same distance from file to memory. That segment decides about the access.
  */
  lemma BytesInPlace(before: Ram, m: Ram, elf: u32, phs: seq<Phdr>, size: nat, p: Process, i: nat, k: nat, va: u32,
                     a: u32)
    requires ProgramReady(before, m, elf, phs, size, p) && i < |phs| && k < phs[i].filesz
    requires phs[i].offset + phs[i].filesz <= size && va == phs[i].vaddr + k && a == elf + phs[i].offset + k
    requires InMemory(elf, phs[i])
    ensures i <= Covering(phs, va / 4096)
    ensures var last := phs[Covering(phs, va / 4096)];
            && (Translate(m, p.space.Dir(), va) == a <==> SameShift(last, phs[i]))
            && (SameShift(last, phs[i]) ==> ByteAt(m, Translate(m, p.space.Dir(), va)) == ByteAt(before, a))
            && Usable(m, p.space.Dir(), va, HasFlag(last.flags, PF_W))
  {
    ByteInPages(phs[i], k);
    CoveringIsLast(phs, va / 4096, i);
    var last, seen := phs[Covering(phs, va / 4096)], Translate(m, p.space.Dir(), va);
    assert SegmentByteInPlace(m, p.space.Dir(), elf, last, va);
    ShiftedByte(before, m, elf, phs[i], last, size, k, va, a, seen);
  }

  lemma ShiftedByte(before: Ram, m: Ram, elf: u32, ph: Phdr, last: Phdr, size: nat, k: nat, va: u32, a: u32, seen: u32)
    requires SameFile(before, m, elf, size) && ph.offset + ph.filesz <= size && k < ph.filesz
    requires va == ph.vaddr + k && a == elf + ph.offset + k && seen == elf + last.offset + va - last.vaddr
    ensures (seen == a <==> SameShift(last, ph)) && (SameShift(last, ph) ==> ByteAt(m, seen) == ByteAt(before, a))
  {
  }

  /** In an image of disjoint segments every byte is where the image has it, with the access of its own segment. */
  lemma DisjointInPlace(before: Ram, m: Ram, elf: u32, phs: seq<Phdr>, size: nat, p: Process, i: nat, k: nat, va: u32,
                        a: u32)
    requires ProgramReady(before, m, elf, phs, size, p) && i < |phs| && k < phs[i].filesz && Disjoint(phs)
    requires phs[i].offset + phs[i].filesz <= size && va == phs[i].vaddr + k && a == elf + phs[i].offset + k
    requires InMemory(elf, phs[i])
    ensures Translate(m, p.space.Dir(), va) == a && ByteAt(m, a) == ByteAt(before, a)
    ensures Usable(m, p.space.Dir(), va, HasFlag(phs[i].flags, PF_W))
  {
    BytesInPlace(before, m, elf, phs, size, p, i, k, va, a);
    ByteInPages(phs[i], k);
    DisjointCovering(phs, i, va / 4096);
  }

  // Flat binaries --------------------------------------------------------------------------------------------

  /** Where the last page of a flat binary ends: 0 if it runs over the end of memory. */
  function BinaryEnd(ptr: u32, size: u32): u32 {
    AlignUp(Wrap(ptr + size))
  }

  function BinaryPages(ptr: u32, size: u32): nat
    requires ptr <= BinaryEnd(ptr, size)
  {
    (BinaryEnd(ptr, size) - ptr) / 4096
  }

  /** Maps a flat binary at the program base. A range that is not accepted goes unnoticed: the result is always OK. */
  method MapBinary(m: Machine, chunk: u32, ptr: u32, size: u32, ghost sp: Space, ghost flat: Flat) returns (res: int)
    requires Maps(m.ram, sp, flat) && chunk == AddressOf(sp.Chunk()) && ptr % 4096 == 0
    modifies m`ram
    ensures res == OK && OnlyTables(old(m.ram), m.ram, sp)
    ensures ptr > BinaryEnd(ptr, size) ==> m.ram == old(m.ram)
    ensures ptr <= BinaryEnd(ptr, size) ==>
              Maps(m.ram, sp, MapPages(flat, 0x400, ptr, BinaryPages(ptr, size), 7))
  {
    res := OK;
    var end := BinaryEnd(ptr, size);
    BinaryAccepted(ptr, size, end);
    var ignored := MapTo(m, chunk, PROGRAM_BASE, ptr, end, FULL_ACCESS, sp, flat);
  }

  lemma BinaryAccepted(ptr: u32, size: u32, end: u32)
    requires ptr % 4096 == 0 && end == BinaryEnd(ptr, size)
    ensures MapToAccepts(PROGRAM_BASE, ptr, end) <==> ptr <= end
    ensures ptr <= end ==> BinaryPages(ptr, size) == (end - ptr) / 4096
  {
    AlignmentBounds(Wrap(ptr + size));
  }

  lemma PagesAbove(k: nat, n: nat)
    requires k < n
    ensures k / 4096 < (n + 4095) / 4096
  {
  }

  lemma BinaryEndIs(ptr: u32, size: u32)
    requires ptr % 4096 == 0 && ptr + size <= 0xffff_f000
    ensures BinaryEnd(ptr, size) == AlignUp(ptr + size) && AlignDown(ptr) == ptr
  {
  }

  /** A binary that does not run over the end of memory gets as many pages as its bytes need. */
  lemma BinaryExtent(ptr: u32, size: u32)
    requires ptr % 4096 == 0 && ptr + size <= 0xffff_f000
    ensures ptr <= BinaryEnd(ptr, size) && BinaryPages(ptr, size) == (size + 4095) / 4096
  {
    BinaryEndIs(ptr, size);
    PagesBetween(ptr, size);
  }

  lemma BinaryPage(ptr: u32, size: u32, k: nat)
    requires ptr % 4096 == 0 && ptr + size <= 0xffff_f000 && k < size
    ensures ptr <= BinaryEnd(ptr, size) && k / 4096 < BinaryPages(ptr, size)
  {
    BinaryExtent(ptr, size);
    PagesAbove(k, size);
  }

  /** Every byte of a binary is seen from the program base on, writable. */
  lemma BinaryByte(ptr: u32, size: u32, flat: Flat, pages: nat, k: nat)
    requires ptr % 4096 == 0 && ptr + size <= 0xffff_f000 && 0x40_0000 + size <= 0x1_0000_0000 && k < size
    requires ptr <= BinaryEnd(ptr, size) && pages == BinaryPages(ptr, size)
    ensures var mapped := MapPages(flat, 0x400, ptr, pages, 7);
            Via(mapped, 0x40_0000 + k) == ptr + k && EntryAccess(mapped[(0x40_0000 + k) / 4096]) == ReadWrite
  {
    BinaryPage(ptr, size, k);
    RangeByte(flat, 0x400, ptr, pages, FULL_ACCESS, k, 0x40_0000 + k);
  }

  lemma RangePosition(first: Page, ptr: u32, k: nat, va: u32)
    requires ptr % 4096 == 0 && ptr + k < 0x1_0000_0000 && va == AddressOf(first) + k
    ensures va / 4096 == first + k / 4096 && ptr + 4096 * (k / 4096) + va % 4096 == ptr + k
    ensures (ptr + 4096 * (k / 4096)) % 4096 == 0
  {
  }

  /** A byte of a range is as far from its start as behind it. */
  lemma RangeByte(flat: Flat, first: Page, ptr: u32, pages: nat, flags: u32, k: nat, va: u32)
    requires ptr % 4096 == 0 && k / 4096 < pages && ptr + k < 0x1_0000_0000 && va == AddressOf(first) + k
    requires flags < 4096 && Accessible(flags, true)
    ensures var mapped := MapPages(flat, first, ptr, pages, flags);
            Via(mapped, va) == ptr + k && Accessible(mapped[va / 4096], true)
  {
    RangePosition(first, ptr, k, va);
    RangePage(flat, first, ptr, pages, flags, k / 4096);
    EntryByte(MapPages(flat, first, ptr, pages, flags), va, ptr + 4096 * (k / 4096), flags);
  }

  lemma DistanceUp(first: Page, j: nat)
    requires first + j < 0x10_0000
    ensures Distance(first, first + j) == j
  {
  }

  lemma RangePage(flat: Flat, first: Page, ptr: u32, pages: nat, flags: u32, j: nat)
    requires j < pages && ptr + 4096 * j < 0x1_0000_0000 && first + j < 0x10_0000
    ensures MapPages(flat, first, ptr, pages, flags)[first + j] == Or(ptr + 4096 * j, flags)
  {
    DistanceUp(first, j);
    RangeEntryIs(ptr, j, flags);
    MapPagesAt(flat, first, ptr, pages, flags, first + j);
  }
}
