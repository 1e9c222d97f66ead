/** Loading one program after the other: what stays in place over whole runs. */
module LoadRuns {
  import opened Words
  import opened BlockTable
  import opened AddressSpaces
  import opened Kernel
  import opened Chunks
  import opened TaskSpaces
  import opened Loader
  import opened Processes
  import opened Programs

  /** Memory, the block table and the address spaces in use. */
  datatype System = System(view: View, spaces: map<Page, Space>)

  /** What happens: loading an image ends somehow, or an extent is allocated and filled, with a file for example. */
  datatype Event = LoadImage(elf: u32, res: int, e: Ending) | FillBlocks(start: nat, count: nat)

  ghost predicate Happens(base: nat, a: System, b: System, ev: Event) {
    match ev
    case LoadImage(elf, res, e) => Outcome(base, a.view, b.view, a.spaces, b.spaces, elf, res, e)
    case FillBlocks(s, n) => Filled(base, a.view, b.view, s, n) && b.spaces == a.spaces
  }

  ghost predicate Filled(base: nat, a: View, b: View, s: nat, n: nat) {
    && s + n <= |a.table| && (forall i | s <= i < s + n :: a.table[i] == FREE)
    && OnlyFrames(a.ram, b.ram, base + s, base + s + n) && b.table == Take(a.table, s, n)
  }

  /** The states of a run: before, between and after its events. */
  ghost predicate IsRun(base: nat, states: seq<System>, events: seq<Event>) {
    && |states| == |events| + 1
    && InOrder(base, states[0])
    && forall i | 0 <= i < |events| :: HappensAt(base, states, events, i)
  }

  ghost predicate HappensAt(base: nat, states: seq<System>, events: seq<Event>, i: nat)
    requires i < |events| < |states|
  {
    Happens(base, states[i], states[i + 1], events[i])
  }

  ghost predicate InOrder(base: nat, a: System) {
    SpacesOk(a.view.ram, base, a.view.table, a.spaces)
  }

  /** The block table only fills up, and no address space is lost. */
  ghost predicate Grows(base: nat, t: Table, t': Table, spaces: map<Page, Space>, spaces': map<Page, Space>) {
    && (forall f: Page | InUse(base, t, f) :: InUse(base, t', f))
    && (forall d | d in spaces :: d in spaces' && spaces'[d] == spaces[d])
  }

  /** What was there before is there afterwards, and as it was. */
  ghost predicate Keeps(base: nat, a: System, b: System) {
    && Grows(base, a.view.table, b.view.table, a.spaces, b.spaces)
    && Undisturbed(base, a.view, b.view, a.spaces)
  }

  // One event ------------------------------------------------------------------------------------------------

  lemma TakeGrows(base: nat, t: Table, s: nat, n: nat, spaces: map<Page, Space>)
    requires s + n <= |t|
    ensures Grows(base, t, Take(t, s, n), spaces, spaces)
  {
  }

  lemma GrowsMore(base: nat, t: Table, t1: Table, t2: Table, spaces: map<Page, Space>, spaces': map<Page, Space>)
    requires Grows(base, t, t1, spaces, spaces') && forall f: Page | InUse(base, t1, f) :: InUse(base, t2, f)
    ensures Grows(base, t, t2, spaces, spaces')
  {
  }

  lemma TaskGrows(base: nat, t: Table, t': Table, f: Page, sp: Space)
    requires TaskTable(base, t, t', f, sp)
    ensures forall g: Page | InUse(base, t, g) :: InUse(base, t', g)
  {
    assert |t'| == |t| && forall i | 0 <= i < |t| && t[i] != FREE :: t'[i] != FREE;
  }

  lemma RunningKeeps(base: nat, a: View, b: View, spaces: map<Page, Space>, spaces': map<Page, Space>, elf: u32,
                     s: nat, p: Process)
    requires Running(base, a, b, spaces, spaces', elf, s, p)
    ensures Grows(base, a.table, b.table, spaces, spaces') && Undisturbed(base, a, b, spaces)
    ensures SpacesOk(b.ram, base, b.table, spaces')
  {
    TakeGrows(base, a.table, s, 4, spaces);
    TaskGrows(base, Take(a.table, s, 4), b.table, p.task, p.space);
    GrowsMore(base, a.table, Take(a.table, s, 4), b.table, spaces, spaces);
  }

  /** Refusing a program leaves the address spaces in order. */
  lemma RefusedKeeps(base: nat, a: View, b: View, spaces: map<Page, Space>, s: nat)
    requires SpacesOk(a.ram, base, a.table, spaces) && Undisturbed(base, a, b, spaces)
    requires s + 4 <= |a.table| && (forall i | s <= i < s + 4 :: a.table[i] == FREE) && b.table == Take(a.table, s, 4)
    ensures Grows(base, a.table, b.table, spaces, spaces) && SpacesOk(b.ram, base, b.table, spaces)
  {
    TakeGrows(base, a.table, s, 4, spaces);
    forall d | d in spaces
      ensures InRam(b.ram, spaces[d]) && Owned(spaces[d], base, b.table)
    {
      MapsFlatOf(a.ram, spaces[d], FlatOf(a.ram, spaces[d].Dir()));
      assert Maps(b.ram, spaces[d], FlatOf(a.ram, spaces[d].Dir()));
      TakenStaysOwned(spaces[d], base, a.table, s);
    }
  }

  lemma KeepsItself(base: nat, a: System)
    ensures Keeps(base, a, a)
  {
  }

  lemma ImageKeeps(base: nat, a: View, b: View, spaces: map<Page, Space>, spaces': map<Page, Space>, elf: u32, res: int,
                   e: Ending)
    requires Outcome(base, a, b, spaces, spaces', elf, res, e) && SpacesOk(a.ram, base, a.table, spaces)
    ensures Grows(base, a.table, b.table, spaces, spaces') && Undisturbed(base, a, b, spaces)
    ensures SpacesOk(b.ram, base, b.table, spaces')
  {
    match e
    case NoStack =>
      KeepsItself(base, System(a, spaces));
    case Refused(s) =>
      RefusedKeeps(base, a, b, spaces, s);
    case Ready(s, p) =>
      RunningKeeps(base, a, b, spaces, spaces', elf, s, p);
  }

  /** Whatever happens, the address spaces stay in order and what was there before is kept. */
  lemma EventKeeps(base: nat, a: System, b: System, ev: Event)
    requires InOrder(base, a) && Happens(base, a, b, ev)
    ensures InOrder(base, b) && Keeps(base, a, b)
  {
    match ev
    case LoadImage(elf, res, e) =>
      ImageKeeps(base, a.view, b.view, a.spaces, b.spaces, elf, res, e);
    case FillBlocks(s, n) =>
      ExtentKeepsSpaces(a.view.ram, b.view.ram, base, a.view.table, a.spaces, s, n);
  }

  // Whole runs -----------------------------------------------------------------------------------------------

  lemma UndisturbedTwice(base: nat, a: View, b: View, c: View, spaces: map<Page, Space>, spaces': map<Page, Space>)
    requires Undisturbed(base, a, b, spaces) && Undisturbed(base, b, c, spaces')
    requires Grows(base, a.table, b.table, spaces, spaces')
    ensures Undisturbed(base, a, c, spaces)
  {
    forall d, flat | d in spaces && Maps(a.ram, spaces[d], flat)
      ensures Maps(c.ram, spaces[d], flat)
    {
      assert Maps(b.ram, spaces'[d], flat);
    }
    forall f: Page, k | 0 <= k < 1024 && InUse(base, a.table, f)
      ensures FrameWord(c.ram, f, k) == FrameWord(a.ram, f, k)
    {
      assert FrameWord(b.ram, f, k) == FrameWord(a.ram, f, k);
    }
  }

  lemma KeepsTwice(base: nat, a: System, b: System, c: System)
    requires Keeps(base, a, b) && Keeps(base, b, c)
    ensures Keeps(base, a, c)
  {
    UndisturbedTwice(base, a.view, b.view, c.view, a.spaces, b.spaces);
  }

  lemma EventAtKeeps(base: nat, states: seq<System>, events: seq<Event>, i: nat)
    requires IsRun(base, states, events) && i < |events| && InOrder(base, states[i])
    ensures InOrder(base, states[i + 1]) && Keeps(base, states[i], states[i + 1])
  {
    assert HappensAt(base, states, events, i);
    EventKeeps(base, states[i], states[i + 1], events[i]);
  }

  /** In every run the address spaces are in order in every state, */
  lemma {:induction false} RunInOrder(base: nat, states: seq<System>, events: seq<Event>, j: nat)
    requires IsRun(base, states, events) && j <= |events|
    ensures InOrder(base, states[j])
  {
    if j > 0 {
      RunInOrder(base, states, events, j - 1);
      EventAtKeeps(base, states, events, j - 1);
    }
  }

  /** and every state keeps what was there in an earlier one. */
  lemma {:induction false} RunKeeps(base: nat, states: seq<System>, events: seq<Event>, i: nat, j: nat)
    requires IsRun(base, states, events) && i <= j <= |events|
    ensures Keeps(base, states[i], states[j])
    decreases j
  {
    if i == j {
      KeepsItself(base, states[i]);
    } else {
      RunKeeps(base, states, events, i, j - 1);
      RunInOrder(base, states, events, j - 1);
      EventAtKeeps(base, states, events, j - 1);
      KeepsTwice(base, states[i], states[j - 1], states[j]);
    }
  }

  /** A program that is placed stays where it is. */
  lemma PlacedStays(base: nat, b: View, c: View, spaces: map<Page, Space>, spaces': map<Page, Space>, elf: u32,
                    phs: seq<Phdr>, p: Process)
    requires Placed(base, b, spaces, elf, phs, p)
    requires Grows(base, b.table, c.table, spaces, spaces') && Undisturbed(base, b, c, spaces)
    ensures Placed(base, c, spaces', elf, phs, p)
  {
    assert FrameWord(c.ram, p.task, 0) == FrameWord(b.ram, p.task, 0);
    assert Maps(c.ram, spaces[p.space.Chunk()], LoadedFlat(elf, phs, p.stack));
  }

  /** A program that was loaded between a and b is ready in every state c that keeps both. */
  lemma StaysReady(base: nat, a: System, b: System, c: System, ev: Event, phs: seq<Phdr>, size: nat)
    requires ev.LoadImage? && Happens(base, a, b, ev) && ev.res == OK
    requires Keeps(base, a, c) && Keeps(base, b, c)
    requires FileInUse(base, a.view.table, ev.elf, size) && phs == Phdrs(a.view.ram, ev.elf) && ImageOk(ev.elf, phs)
    ensures ev.e.Ready? && ProgramReady(a.view.ram, c.view.ram, ev.elf, phs, size, ev.e.p)
  {
    ReadyMeans(base, a.view, b.view, a.spaces, b.spaces, ev.elf, ev.res, ev.e);
    PlacedStays(base, b.view, c.view, b.spaces, c.spaces, ev.elf, phs, ev.e.p);
    ReadyShowsProgram(base, a.view, c.view, c.spaces, ev.elf, phs, size, ev.e.p);
  }

  lemma EventStaysReady(base: nat, states: seq<System>, events: seq<Event>, i: nat, c: System, phs: seq<Phdr>,
                        size: nat)
    requires IsRun(base, states, events) && i < |events| && events[i].LoadImage? && events[i].res == OK
    requires Keeps(base, states[i], c) && Keeps(base, states[i + 1], c)
    requires FileInUse(base, states[i].view.table, events[i].elf, size)
    requires phs == Phdrs(states[i].view.ram, events[i].elf) && ImageOk(events[i].elf, phs)
    ensures events[i].e.Ready?
    ensures ProgramReady(states[i].view.ram, c.view.ram, events[i].elf, phs, size, events[i].e.p)
  {
    assert HappensAt(base, states, events, i);
    StaysReady(base, states[i], states[i + 1], c, events[i], phs, size);
  }

  /**
    In every run of loads and allocations, however the loads end, each well-formed image that was loaded is in place in
    every later state, with the bytes that it had when its loading began.
  */
  lemma ProgramsStayReady(base: nat, states: seq<System>, events: seq<Event>, i: nat, j: nat, phs: seq<Phdr>, size: nat)
    requires IsRun(base, states, events) && i < j <= |events| && events[i].LoadImage? && events[i].res == OK
    requires FileInUse(base, states[i].view.table, events[i].elf, size)
    requires phs == Phdrs(states[i].view.ram, events[i].elf) && ImageOk(events[i].elf, phs)
    ensures events[i].e.Ready?
    ensures ProgramReady(states[i].view.ram, states[j].view.ram, events[i].elf, phs, size, events[i].e.p)
  {
    RunKeeps(base, states, events, i + 1, j);
    RunKeeps(base, states, events, i, j);
    EventStaysReady(base, states, events, i, states[j], phs, size);
  }
}
