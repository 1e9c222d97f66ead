/** src/task/task.c: the address space that a task gets when it is made and gives back when it is freed. */
module TaskSpaces {
  import opened Words
  import opened Memory
  import opened BlockTable
  import opened AddressSpaces
  import opened Kernel
  import opened Chunks

  const TASK_FLAGS: byte := 5

  lemma UnusedApart(base: nat, used: Space, sp: Space)
    requires forall i | 0 <= i < |used.frames| :: used.frames[i] - base !in SpaceBlocks(base, sp)
    ensures Apart(used, sp) && Apart(sp, used)
  {
    forall i, j | 0 <= i < |used.frames| && 0 <= j < |sp.frames|
      ensures used.frames[i] != sp.frames[j]
    {
      BlocksOfMember(base, sp.frames, sp.frames[j]);
    }
  }

  /** A fresh address space shares no frame with those in use. */
  lemma FreshApart(base: nat, a: View, b: View, sp: Space, spaces: map<Page, Space>)
    requires SpacesOk(a.ram, base, a.table, spaces) && InRam(b.ram, sp)
    requires Allocated(base, a, b, SpaceBlocks(base, sp))
    ensures sp.Chunk() !in spaces
    ensures SpacesOk(b.ram, base, b.table, spaces[sp.Chunk() := sp])
    ensures forall c, flat | c in spaces && Maps(a.ram, spaces[c], flat) :: Maps(b.ram, spaces[c], flat)
  {
    AllocatedKeepsSpaces(base, a, b, SpaceBlocks(base, sp), spaces);
    AllocatedOwned(base, a.table, b.table, sp);
    forall c | c in spaces
      ensures Apart(spaces[c], sp) && Apart(sp, spaces[c]) && c != sp.Chunk()
    {
      UnusedApart(base, spaces[c], sp);
      assert spaces[c].frames[1025] != sp.frames[1025];
    }
  }

  /** The record of a task starts with the record of its address space. */
  ghost predicate TaskAt(m: Ram, task: Page, c: Page) {
    FrameWord(m, task, 0) == AddressOf(c)
  }

  lemma StoreTask(base: nat, a: View, b: View, task: Page, sp: Space, c: u32)
    requires Allocated(base, a, b, SpaceBlocks(base, sp)) && InRam(b.ram, sp)
    requires base <= task < base + |a.table| && a.table[task - base] == SINGLE
    ensures task !in sp.frames
    ensures SetElement(b.ram, AddressOf(task), 0, c) == SetFrameWord(b.ram, task, 0, c)
    ensures forall g: Page, k | 0 <= k < 1024 && g != task ::
              FrameWord(SetFrameWord(b.ram, task, 0, c), g, k) == FrameWord(b.ram, g, k)
  {
    SetElementInFrame(b.ram, task, 0, c);
    BlocksOfMember(base, sp.frames, task);
    forall g: Page, k | 0 <= k < 1024 && g != task
      ensures FrameWord(SetFrameWord(b.ram, task, 0, c), g, k) == FrameWord(b.ram, g, k)
    {
      SetFrameWordAt(b.ram, task, 0, c, g, k);
    }
  }

  /** Every address space of a map survives a change of one frame that none of them has. */
  lemma SpacesSurviveFrame(m: Ram, m': Ram, base: nat, t: Table, spaces: map<Page, Space>, f: Page)
    requires SpacesOk(m, base, t, spaces)
    requires forall g: Page, k | 0 <= k < 1024 && g != f :: FrameWord(m', g, k) == FrameWord(m, g, k)
    requires forall c, i | c in spaces && 0 <= i < |spaces[c].frames| :: spaces[c].frames[i] != f
    ensures SpacesOk(m', base, t, spaces)
    ensures forall c, flat | c in spaces && Maps(m, spaces[c], flat) :: Maps(m', spaces[c], flat)
  {
    forall c | c in spaces
      ensures Agree(m, m', spaces[c]) && InRam(m', spaces[c])
    {
      MapsFlatOf(m, spaces[c], FlatOf(m, spaces[c].Dir()));
      AgreeKeeps(m, m', spaces[c], FlatOf(m, spaces[c].Dir()));
    }
    forall c, flat | c in spaces && Maps(m, spaces[c], flat)
      ensures Maps(m', spaces[c], flat)
    {
      AgreeKeeps(m, m', spaces[c], flat);
    }
  }

  /** A block for the task record, and then a fresh address space: the ones in use and the new one are in order. */
  lemma NewTaskSpaces(base: nat, a: View, m1: Ram, b: View, task: Page, sp: Space, spaces: map<Page, Space>)
    requires SpacesOk(a.ram, base, a.table, spaces)
    requires base <= task < base + |a.table| && a.table[task - base] == FREE && OnlyFrames(a.ram, m1, task, task + 1)
    requires InRam(b.ram, sp)
    requires Allocated(base, View(m1, a.table[task - base := SINGLE]), b, SpaceBlocks(base, sp))
    ensures sp.Chunk() !in spaces
    ensures SpacesOk(b.ram, base, b.table, spaces[sp.Chunk() := sp])
    ensures forall c, flat | c in spaces && Maps(a.ram, spaces[c], flat) :: Maps(b.ram, spaces[c], flat)
  {
    var a1 := View(m1, a.table[task - base := SINGLE]);
    StartSpace(base, a, task, m1);
    AllocatedKeepsSpaces(base, a, a1, BlocksOf(base, [task]), spaces);
    FreshApart(base, a1, b, sp, spaces);
  }

  /** Storing the address space in the task record disturbs none of them. */
  lemma TaskStored(base: nat, a: View, a1: View, b: View, task: Page, sp: Space, spaces: map<Page, Space>,
                   spaces': map<Page, Space>)
    requires SpacesOk(a.ram, base, a.table, spaces) && sp.Shaped() && spaces' == spaces[sp.Chunk() := sp]
    requires base <= task < base + |a.table| && a.table[task - base] == FREE
    requires a1.table == a.table[task - base := SINGLE]
    requires Allocated(base, a1, b, SpaceBlocks(base, sp)) && InRam(b.ram, sp)
    requires SpacesOk(b.ram, base, b.table, spaces')
    ensures task !in sp.frames
    ensures var m2 := SetElement(b.ram, AddressOf(task), 0, AddressOf(sp.Chunk()));
            && TaskAt(m2, task, sp.Chunk())
            && SpacesOk(m2, base, b.table, spaces')
            && (forall c, flat | c in spaces' && Maps(b.ram, spaces'[c], flat) :: Maps(m2, spaces'[c], flat))
            && (forall g: Page, k | 0 <= k < 1024 && g != task :: FrameWord(m2, g, k) == FrameWord(b.ram, g, k))
  {
    StoreTask(base, a1, b, task, sp, AddressOf(sp.Chunk()));
    FreeUnused(a.ram, base, a.table, spaces, task);
    SpacesSurviveFrame(b.ram, SetFrameWord(b.ram, task, 0, AddressOf(sp.Chunk())), base, b.table, spaces', task);
  }

  lemma NewTaskKeeps(base: nat, a: View, m1: Ram, b: View, m2: Ram, task: Page, sp: Space)
    requires base <= task < base + |a.table| && a.table[task - base] == FREE && OnlyFrames(a.ram, m1, task, task + 1)
    requires Allocated(base, View(m1, a.table[task - base := SINGLE]), b, SpaceBlocks(base, sp))
    requires forall g: Page, k | 0 <= k < 1024 && g != task :: FrameWord(m2, g, k) == FrameWord(b.ram, g, k)
    ensures KeepsInUse(base, a.table, a.ram, m2)
  {
    forall f: Page, k | 0 <= k < 1024 && InUse(base, a.table, f)
      ensures FrameWord(m2, f, k) == FrameWord(a.ram, f, k)
    {
      assert f - base !in SpaceBlocks(base, sp);
      assert FrameWord(b.ram, f, k) == FrameWord(m1, f, k);
    }
  }

  /** The block table after a task is made: the block of its record and those of its address space, all free before. */
  ghost predicate TaskTable(base: nat, t: Table, t': Table, f: Page, sp: Space) {
    && base <= f < base + |t| && t[f - base] == FREE && f - base !in SpaceBlocks(base, sp)
    && (forall s | s in SpaceBlocks(base, sp) :: 0 <= s < |t| && t[s] == FREE)
    && t' == Paint(t[f - base := SINGLE], SpaceBlocks(base, sp), SINGLE)
  }

  /**
    From one view to another a task was made, with its record in frame f and with the address space sp, in which every
    page maps to itself and none is writable. The other address spaces and every frame in use are as before.
  */
  ghost predicate TaskMade(base: nat, a: View, b: View, spaces: map<Page, Space>, spaces': map<Page, Space>,
                           f: Page, sp: Space) {
    && Maps(b.ram, sp, IdentityFlat(TASK_FLAGS)) && sp.flags == Or(TASK_FLAGS, WRITABLE)
    && f !in sp.frames && TaskAt(b.ram, f, sp.Chunk())
    && sp.Chunk() !in spaces && spaces' == spaces[sp.Chunk() := sp]
    && SpacesOk(b.ram, base, b.table, spaces')
    && (forall c, flat | c in spaces && Maps(a.ram, spaces[c], flat) :: Maps(b.ram, spaces[c], flat))
    && KeepsInUse(base, a.table, a.ram, b.ram)
    && TaskTable(base, a.table, b.table, f, sp)
  }

  lemma MakeTask(base: nat, a: View, a1: View, b: View, f: Page, sp: Space, spaces: map<Page, Space>,
                 spaces': map<Page, Space>)
    requires SpacesOk(a.ram, base, a.table, spaces)
    requires base <= f < base + |a.table| && a.table[f - base] == FREE && OnlyFrames(a.ram, a1.ram, f, f + 1)
    requires a1.table == a.table[f - base := SINGLE]
    requires Maps(b.ram, sp, IdentityFlat(TASK_FLAGS)) && sp.flags == Or(TASK_FLAGS, WRITABLE)
    requires spaces' == spaces[sp.Chunk() := sp]
    requires Allocated(base, a1, b, SpaceBlocks(base, sp))
    ensures var m2 := SetElement(b.ram, AddressOf(f), 0, AddressOf(sp.Chunk()));
            TaskMade(base, a, View(m2, b.table), spaces, spaces', f, sp)
  {
    NewTaskSpaces(base, a, a1.ram, b, f, sp, spaces);
    TaskStored(base, a, a1, b, f, sp, spaces, spaces');
    var m2 := SetElement(b.ram, AddressOf(f), 0, AddressOf(sp.Chunk()));
    NewTaskKeeps(base, a, a1.ram, b, m2, f, sp);
    Extended(spaces, spaces', sp.Chunk(), sp);
  }

  lemma Extended(spaces: map<Page, Space>, spaces': map<Page, Space>, c: Page, sp: Space)
    requires c !in spaces && spaces' == spaces[c := sp]
    ensures c in spaces' && spaces'[c] == sp && forall d | d in spaces :: d in spaces' && spaces'[d] == spaces[d]
  {
  }

  /** Stores the address space in the task record. */
  method StoreSpace(m: Machine, task: u32, chunk: u32, ghost a: View, ghost a1: View, ghost f: Page, ghost sp: Space,
                    ghost spaces: map<Page, Space>)
    requires m.heap.Valid() && SpacesOk(a.ram, m.heap.Base(), a.table, spaces)
    requires m.heap.Base() <= f < m.heap.Base() + |a.table| && a.table[f - m.heap.Base()] == FREE
    requires OnlyFrames(a.ram, a1.ram, f, f + 1) && a1.table == a.table[f - m.heap.Base() := SINGLE]
    requires Maps(m.ram, sp, IdentityFlat(TASK_FLAGS)) && sp.flags == Or(TASK_FLAGS, WRITABLE)
    requires task == AddressOf(f) && chunk == AddressOf(sp.Chunk())
    requires Allocated(m.heap.Base(), a1, View(m.ram, m.heap.entries[..]), SpaceBlocks(m.heap.Base(), sp))
    modifies m`ram, m`spaces
    ensures m.heap.Valid()
    ensures TaskMade(m.heap.Base(), a, View(m.ram, m.heap.entries[..]), spaces, m.spaces, f, sp)
  {
    ghost var b := View(m.ram, m.heap.entries[..]);
    m.ram := SetElement(m.ram, task, 0, chunk);
    m.spaces := spaces[sp.Chunk() := sp];
    MakeTask(m.heap.Base(), a, a1, b, f, sp, spaces, m.spaces);
  }

  method TaskNew(m: Machine) returns (task: u32, ghost f: Page, ghost sp: Space)
    requires m.Valid() && |FreeBlocks(m.heap.entries[..])| >= 1027
    modifies m`ram, m`spaces, m.heap`live, m.heap.entries
    ensures m.Valid() && task == AddressOf(f) != 0
    ensures TaskMade(m.heap.Base(), old(View(m.ram, m.heap.entries[..])), View(m.ram, m.heap.entries[..]),
                     old(m.spaces), m.spaces, f, sp)
  {
    ghost var a, spaces := View(m.ram, m.heap.entries[..]), m.spaces;
    task, f := m.KzallocOne(64);
    ghost var a1 := View(m.ram, m.heap.entries[..]);
    var chunk;
    chunk, sp := New4gb(m, TASK_FLAGS);
    StoreSpace(m, task, chunk, a, a1, f, sp, spaces);
  }

  /** An address space that goes leaves the others in order, and they do not need its blocks. */
  lemma RemoveSpace(m: Ram, base: nat, t: Table, t': Table, spaces: map<Page, Space>, c: Page, f: Page)
    requires SpacesOk(m, base, t, spaces) && c in spaces && f !in spaces
    requires forall d, i | d in spaces && d != c && 0 <= i < |spaces[d].frames| :: spaces[d].frames[i] != f
    requires |t'| == |t| && f >= base
    requires forall i | 0 <= i < |t| && i !in SpaceBlocks(base, spaces[c]) && i != f - base :: t'[i] == t[i]
    ensures SpacesOk(m, base, t', spaces - {c})
  {
    forall d, i | d in spaces - {c} && 0 <= i < |spaces[d].frames|
      ensures Single(base, t', spaces[d].frames[i])
    {
      assert Apart(spaces[d], spaces[c]);
      BlocksOfMember(base, spaces[c].frames, spaces[d].frames[i]);
      assert Single(base, t, spaces[d].frames[i]);
    }
  }

  /** Frees a task: its address space and its record. */
  method TaskFree(m: Machine, task: u32, ghost f: Page, ghost c: Page)
    requires m.Valid() && c in m.spaces && f !in m.spaces && task == AddressOf(f) && TaskAt(m.ram, f, c)
    requires Single(m.heap.Base(), m.heap.entries[..], f)
    requires forall d, i | d in m.spaces && 0 <= i < |m.spaces[d].frames| :: m.spaces[d].frames[i] != f
    modifies m`spaces, m.heap`live, m.heap`stranded, m.heap.entries
    ensures m.Valid() && m.spaces == old(m.spaces) - {c}
    ensures m.heap.entries[..] ==
            Paint(old(m.heap.entries[..]), SpaceBlocks(m.heap.Base(), old(m.spaces)[c]), FREE)
              [f - m.heap.Base() := FREE]
  {
    ghost var base, t, spaces := m.heap.Base(), m.heap.entries[..], m.spaces;
    FreeTaskBlocks(m, task, spaces[c], t, f);
    RemoveSpace(m.ram, base, t, m.heap.entries[..], spaces, c, f);
    m.spaces := spaces - {c};
  }

  method FreeTaskBlocks(m: Machine, task: u32, ghost sp: Space, ghost t: Table, ghost f: Page)
    requires m.heap.Valid() && InRam(m.ram, sp) && task == AddressOf(f) && TaskAt(m.ram, f, sp.Chunk())
    requires m.heap.entries[..] == t && Owned(sp, m.heap.Base(), t) && Single(m.heap.Base(), t, f)
    requires f !in sp.frames
    modifies m.heap`live, m.heap`stranded, m.heap.entries
    ensures m.heap.Valid()
    ensures m.heap.entries[..] == Paint(t, SpaceBlocks(m.heap.Base(), sp), FREE)[f - m.heap.Base() := FREE]
  {
    BlocksOfMember(m.heap.Base(), sp.frames, f);
    ElementInFrame(m.ram, f, 0);
    Free4gb(m, Element(m.ram, task, 0), sp);
    SingleIsAllocation(m.heap, f);
    m.Kfree(task);
  }

  /** Freeing a task right after making it, whatever was mapped meanwhile, restores the block table. */
  lemma TaskRoundTrip(base: nat, t: Table, t': Table, f: Page, sp: Space)
    requires TaskTable(base, t, t', f, sp)
    ensures Paint(t', SpaceBlocks(base, sp), FREE)[f - base := FREE] == t
  {
  }
}
