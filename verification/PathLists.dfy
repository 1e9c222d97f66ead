/** src/fs/pparser.c: the linked list that a path is parsed into, in heap blocks. */
module PathLists {
  import opened Words
  import opened Memory
  import opened BlockTable
  import opened AddressSpaces
  import opened Kernel
  import opened Chunks
  import opened Paths
  import opened PathParser

  // Blocks ------------------------------------------------------------------------------------

  predicate Distinct(frames: seq<Page>) {
    forall i, j | 0 <= i < j < |frames| :: frames[i] != frames[j]
  }

  lemma DistinctMore(frames: seq<Page>, f: Page)
    requires Distinct(frames) && f !in frames
    ensures Distinct(frames + [f])
  {
  }

  /** From one view to another the given frames were allocated as single blocks; no frame in use changed. */
  ghost predicate Grown(base: nat, a: View, b: View, frames: seq<Page>) {
    && Distinct(frames)
    && (forall f | f in frames :: base <= f < base + |a.table| && a.table[f - base] == FREE)
    && b.table == Paint(a.table, BlocksOf(base, frames), SINGLE)
    && KeepsInUse(base, a.table, a.ram, b.ram)
  }

  lemma GrownInUse(base: nat, a: View, b: View, frames: seq<Page>, f: Page)
    requires Grown(base, a, b, frames)
    ensures f in frames ==> Single(base, b.table, f) && InUse(base, b.table, f) && !InUse(base, a.table, f)
    ensures InUse(base, a.table, f) ==> InUse(base, b.table, f)
  {
    BlocksOfMember(base, frames, f);
  }

  /** One block more. */
  lemma GrownBlock(base: nat, a: View, b: View, c: View, frames: seq<Page>, f: Page)
    requires Grown(base, a, b, frames) && NewBlock(base, b, c, f)
    ensures Grown(base, a, c, frames + [f]) && f !in frames
  {
    GrownInUse(base, a, b, frames, f);
    BlocksOfMember(base, frames, f);
    BlocksOfMore(base, frames, f);
    DistinctMore(frames, f);
    forall g: Page, k | 0 <= k < 1024 && InUse(base, a.table, g)
      ensures FrameWord(c.ram, g, k) == FrameWord(a.ram, g, k)
    {
      GrownInUse(base, a, b, frames, g);
    }
  }

  /** Outside one frame nothing changes. */
  ghost predicate SameOutside(m: Ram, m': Ram, f: Page) {
    forall g: Page, k | 0 <= k < 1024 && g != f :: FrameWord(m', g, k) == FrameWord(m, g, k)
  }

  /** Writing into an allocated frame. */
  lemma GrownWrite(base: nat, a: View, b: View, frames: seq<Page>, f: Page, m': Ram)
    requires Grown(base, a, b, frames) && f in frames && SameOutside(b.ram, m', f)
    ensures Grown(base, a, View(m', b.table), frames)
  {
    GrownInUse(base, a, b, frames, f);
  }

  // The list ----------------------------------------------------------------------------------

  /** A node of the list and the buffer of its name, by their frames. */
  datatype Part = Part(name: Page, node: Page)

  function ListFrames(parts: seq<Part>): (frames: seq<Page>)
    ensures |frames| == 2 * |parts|
  {
    if parts == [] then []
    else ListFrames(parts[..|parts| - 1]) + [parts[|parts| - 1].name, parts[|parts| - 1].node]
  }

  lemma {:induction false} ListFramesAt(parts: seq<Part>, i: nat)
    requires i < |parts|
    ensures ListFrames(parts)[2 * i] == parts[i].name && ListFrames(parts)[2 * i + 1] == parts[i].node
  {
    if i < |parts| - 1 {
      ListFramesAt(parts[..|parts| - 1], i);
    }
  }

  lemma ListFramesMore(parts: seq<Part>, part: Part)
    ensures ListFrames(parts + [part]) == ListFrames(parts) + [part.name, part.node]
  {
    assert (parts + [part])[..|parts|] == parts;
  }

  function NextOf(parts: seq<Part>, i: nat): u32 {
    if i + 1 < |parts| then AddressOf(parts[i + 1].node) else 0
  }

  function FirstOf(parts: seq<Part>): u32 {
    if parts == [] then 0 else AddressOf(parts[0].node)
  }

  function LastOf(parts: seq<Part>): u32 {
    if parts == [] then 0 else AddressOf(parts[|parts| - 1].node)
  }

  /** A node points to the buffer with its name, and to the next node. */
  ghost predicate PartAt(m: Ram, part: Part, name: Text, next: u32) {
    && FrameWord(m, part.node, 0) == AddressOf(part.name)
    && FrameWord(m, part.node, 1) == next
    && Buffer(m, part.name, name)
  }

  ghost predicate ListAt(m: Ram, parts: seq<Part>, names: seq<Text>) {
    && |parts| == |names|
    && forall i | 0 <= i < |parts| :: PartAt(m, parts[i], names[i], NextOf(parts, i))
  }

  ghost predicate RootAt(m: Ram, root: Page, drive: u32, first: u32) {
    FrameWord(m, root, 0) == drive && FrameWord(m, root, 1) == first
  }

  ghost predicate SameFrame(m: Ram, m': Ram, f: Page) {
    forall k | 0 <= k < 1024 :: FrameWord(m', f, k) == FrameWord(m, f, k)
  }

  lemma BufferKept(m: Ram, m': Ram, f: Page, name: Text)
    requires Buffer(m, f, name) && SameFrame(m, m', f)
    ensures Buffer(m', f, name)
  {
    forall k | 0 <= k < 128
      ensures CharAt(m', AddressOf(f), k) == CharAt(m, AddressOf(f), k)
    {
      assert CharFrame(AddressOf(f), k) == f;
      SameChar(m, m', AddressOf(f), k);
    }
  }

  lemma PartKept(m: Ram, m': Ram, part: Part, name: Text, next: u32)
    requires PartAt(m, part, name, next) && SameFrame(m, m', part.name) && SameFrame(m, m', part.node)
    ensures PartAt(m', part, name, next)
  {
    BufferKept(m, m', part.name, name);
  }

  lemma ListKept(m: Ram, m': Ram, parts: seq<Part>, names: seq<Text>)
    requires ListAt(m, parts, names) && forall f | f in ListFrames(parts) :: SameFrame(m, m', f)
    ensures ListAt(m', parts, names)
  {
    forall i | 0 <= i < |parts|
      ensures PartAt(m', parts[i], names[i], NextOf(parts, i))
    {
      ListFramesAt(parts, i);
      PartKept(m, m', parts[i], names[i], NextOf(parts, i));
    }
  }

  /** The last node gets a successor: the list is longer by one. */
  lemma ListMore(m: Ram, m': Ram, parts: seq<Part>, names: seq<Text>, part: Part, name: Text)
    requires ListAt(m, parts, names) && PartAt(m, part, name, 0)
    requires Distinct(ListFrames(parts + [part]))
    requires parts == [] ==> m' == m
    requires parts != [] ==> m' == SetFrameWord(m, parts[|parts| - 1].node, 1, AddressOf(part.node))
    ensures ListAt(m', parts + [part], names + [name])
  {
    var parts', n := parts + [part], |parts|;
    ListFramesAt(parts', n);
    forall i | 0 <= i <= n
      ensures PartAt(m', parts'[i], (names + [name])[i], NextOf(parts', i))
    {
      ListFramesAt(parts', i);
      if n > 0 {
        ListFramesAt(parts', n - 1);
        var last := parts[n - 1].node;
        assert i != n - 1 ==> parts'[i].node != last;
        assert parts'[i].name != last;
        LinkKeeps(m, last, AddressOf(part.node), parts'[i], (names + [name])[i],
                  if i == n then 0 else NextOf(parts, i));
      }
    }
  }

  lemma LinkKeeps(m: Ram, last: Page, next: u32, part: Part, name: Text, before: u32)
    requires PartAt(m, part, name, before) && part.name != last
    ensures PartAt(SetFrameWord(m, last, 1, next), part, name, if part.node == last then next else before)
  {
    var m' := SetFrameWord(m, last, 1, next);
    SetFrameWordAt(m, last, 1, next, part.node, 0);
    SetFrameWordAt(m, last, 1, next, part.node, 1);
    forall k | 0 <= k < 1024
      ensures FrameWord(m', part.name, k) == FrameWord(m, part.name, k)
    {
      SetFrameWordAt(m, last, 1, next, part.name, k);
    }
    BufferKept(m, m', part.name, name);
  }

  // Parsing -------------------------------------------------------------------------------------

  /** A root and the list of names that is being built. */
  ghost predicate Tree(m: Ram, root: Page, drive: u32, first: u32, parts: seq<Part>, names: seq<Text>) {
    RootAt(m, root, drive, first) && ListAt(m, parts, names)
  }

  lemma TreeKept(base: nat, a: View, b: View, m': Ram, root: Page, drive: u32, first: u32, parts: seq<Part>,
                 names: seq<Text>, more: seq<Page>)
    requires Grown(base, a, b, [root] + ListFrames(parts) + more) && Tree(b.ram, root, drive, first, parts, names)
    requires KeepsInUse(base, b.table, b.ram, m')
    ensures Tree(m', root, drive, first, parts, names)
    ensures forall f | f in more :: SameFrame(b.ram, m', f)
  {
    forall f | f in [root] + ListFrames(parts) + more
      ensures SameFrame(b.ram, m', f)
    {
      GrownInUse(base, a, b, [root] + ListFrames(parts) + more, f);
    }
    assert root in [root] + ListFrames(parts) + more && SameFrame(b.ram, m', root);
    forall f | f in ListFrames(parts)
      ensures SameFrame(b.ram, m', f)
    {
      assert f in [root] + ListFrames(parts) + more;
    }
    ListKept(b.ram, m', parts, names);
  }

  /** Memory that keeps the frames in use keeps a parse in progress. */
  lemma GrownKept(base: nat, a: View, b: View, m': Ram, frames: seq<Page>)
    requires Grown(base, a, b, frames) && KeepsInUse(base, b.table, b.ram, m')
    ensures Grown(base, a, View(m', b.table), frames)
  {
    forall g: Page, k | 0 <= k < 1024 && InUse(base, a.table, g)
      ensures FrameWord(m', g, k) == FrameWord(a.ram, g, k)
    {
      GrownInUse(base, a, b, frames, g);
    }
  }

  lemma TextStillInUse(base: nat, a: View, b: View, frames: seq<Page>, p: u32, s: Text)
    requires Grown(base, a, b, frames) && p + |s| < 0x1_0000_0000 && TextInUse(base, a.table, p, s)
    ensures TextInUse(base, b.table, p, s)
  {
    forall i | 0 <= i <= |s|
      ensures InUse(base, b.table, CharFrame(p, i))
    {
      GrownInUse(base, a, b, frames, CharFrame(p, i));
    }
  }

  /** The next name of the text in a buffer, and with it a node that does not point anywhere yet. */
  method AllocPart(m: Machine, p: u32, ghost s: Text, ghost a: View, ghost root: Page, ghost drive: u32,
                   ghost first: u32, ghost parts: seq<Part>, ghost names: seq<Text>)
    returns (name: u32, node: u32, q: u32, ghost part: Part)
    requires m.heap.Valid() && |FreeBlocks(m.heap.entries[..])| >= (if NameEnd(s) == 0 then 1 else 2) && |s| < 127
    requires Grown(m.heap.Base(), a, View(m.ram, m.heap.entries[..]), [root] + ListFrames(parts))
    requires Tree(m.ram, root, drive, first, parts, names)
    requires TextAt(m.ram, p, s) && TextInUse(m.heap.Base(), a.table, p, s)
    modifies m`ram, m.heap`live, m.heap`stranded, m.heap.entries
    ensures m.heap.Valid() && q == p + (|s| - |After(s)|)
    ensures TextAt(m.ram, p, s) && Tree(m.ram, root, drive, first, parts, names)
    ensures NameEnd(s) == 0 ==>
              && name == 0 && m.heap.entries[..] == old(m.heap.entries[..])
              && Grown(m.heap.Base(), a, View(m.ram, m.heap.entries[..]), [root] + ListFrames(parts))
    ensures NameEnd(s) > 0 ==>
              && name == AddressOf(part.name) != 0 && node == AddressOf(part.node) != 0
              && Buffer(m.ram, part.name, s[..NameEnd(s)])
              && Grown(m.heap.Base(), a, View(m.ram, m.heap.entries[..]),
                       [root] + ListFrames(parts) + [part.name, part.node])
              && |FreeBlocks(m.heap.entries[..])| == |FreeBlocks(old(m.heap.entries[..]))| - 2
  {
    ghost var base, frames, b := m.heap.Base(), [root] + ListFrames(parts), View(m.ram, m.heap.entries[..]);
    assert frames + [] == frames;
    TextStillInUse(base, a, b, frames, p, s);
    ghost var f, g: Page;
    name, q, f := GetNextPathPart(m, p, s);
    node, part := 0, Part(f, f);
    ghost var c := View(m.ram, m.heap.entries[..]);
    TreeKept(base, a, b, c.ram, root, drive, first, parts, names, []);
    TextKept(b.ram, c.ram, base, b.table, p, s);
    if name == 0 {
      GrownKept(base, a, b, c.ram, frames);
    } else {
      GrownBlock(base, a, b, c, frames, f);
      node, part := AllocNode(m, p, s, a, c, root, drive, first, parts, names, f);
    }
  }

  method AllocNode(m: Machine, p: u32, ghost s: Text, ghost a: View, ghost c: View, ghost root: Page, ghost drive: u32,
                   ghost first: u32, ghost parts: seq<Part>, ghost names: seq<Text>, ghost f: Page)
    returns (node: u32, ghost part: Part)
    requires m.heap.Valid() && |FreeBlocks(m.heap.entries[..])| >= 1 && c == View(m.ram, m.heap.entries[..])
    requires Grown(m.heap.Base(), a, c, [root] + ListFrames(parts) + [f])
    requires Tree(m.ram, root, drive, first, parts, names) && Buffer(m.ram, f, s[..NameEnd(s)])
    requires TextAt(m.ram, p, s) && TextInUse(m.heap.Base(), a.table, p, s)
    modifies m`ram, m.heap`live, m.heap`stranded, m.heap.entries
    ensures m.heap.Valid() && part.name == f && node == AddressOf(part.node) != 0
    ensures TextAt(m.ram, p, s) && Tree(m.ram, root, drive, first, parts, names) && Buffer(m.ram, f, s[..NameEnd(s)])
    ensures Grown(m.heap.Base(), a, View(m.ram, m.heap.entries[..]),
                  [root] + ListFrames(parts) + [part.name, part.node])
    ensures |FreeBlocks(m.heap.entries[..])| == |FreeBlocks(old(m.heap.entries[..]))| - 1
  {
    ghost var base, frames := m.heap.Base(), [root] + ListFrames(parts) + [f];
    TextStillInUse(base, a, c, frames, p, s);
    ghost var g;
    node, g := m.KzallocOne(8);
    part := Part(f, g);
    ghost var d := View(m.ram, m.heap.entries[..]);
    OneFrameKeeps(base, c.table, c.ram, d.ram, d.ram, g);
    TreeKept(base, a, c, d.ram, root, drive, first, parts, names, [f]);
    assert f in [f] && SameFrame(c.ram, d.ram, f);
    BufferKept(c.ram, d.ram, f, s[..NameEnd(s)]);
    TextKept(c.ram, d.ram, base, c.table, p, s);
    GrownBlock(base, a, c, d, frames, g);
    assert frames + [g] == [root] + ListFrames(parts) + [f, g];
  }

  /** A parse in progress survives writing into another frame, and so does the text. */
  lemma WriteKeeps(base: nat, a: View, m: Ram, m': Ram, root: Page, drive: u32, first: u32, parts: seq<Part>,
                   names: seq<Text>, p: u32, s: Text, f: Page)
    requires SameOutside(m, m', f) && !InUse(base, a.table, f)
    requires f !in [root] + ListFrames(parts) && Tree(m, root, drive, first, parts, names)
    requires TextAt(m, p, s) && TextInUse(base, a.table, p, s)
    ensures Tree(m', root, drive, first, parts, names) && TextAt(m', p, s)
  {
    assert root in [root] + ListFrames(parts) && forall g | g in ListFrames(parts) :: g in [root] + ListFrames(parts);
    ListKept(m, m', parts, names);
    WriteKeepsText(base, a, m, m', p, s, f);
  }

  lemma WriteKeepsText(base: nat, a: View, m: Ram, m': Ram, p: u32, s: Text, f: Page)
    requires SameOutside(m, m', f) && !InUse(base, a.table, f)
    requires TextAt(m, p, s) && TextInUse(base, a.table, p, s)
    ensures TextAt(m', p, s)
  {
    forall i | 0 <= i <= |s|
      ensures CharAt(m', p, i) == CharAt(m, p, i)
    {
      assert InUse(base, a.table, CharFrame(p, i));
      SameChar(m, m', p, i);
    }
  }

  lemma WrittenWord(m: Ram, f: Page, k: nat, v: u32)
    requires k < 1024
    ensures SetElement(m, AddressOf(f), k, v) == SetFrameWord(m, f, k, v)
    ensures SameOutside(m, SetFrameWord(m, f, k, v), f)
    ensures forall j | 0 <= j < 1024 ::
              FrameWord(SetFrameWord(m, f, k, v), f, j) == if j == k then v else FrameWord(m, f, j)
  {
    SetElementInFrame(m, f, k, v);
    forall g: Page, j | 0 <= j < 1024
      ensures FrameWord(SetFrameWord(m, f, k, v), g, j) == if g == f && j == k then v else FrameWord(m, g, j)
    {
      SetFrameWordAt(m, f, k, v, g, j);
    }
  }

  /** Fills in the fields of a new node. */
  method FillNode(m: Machine, node: u32, name: u32, ghost part: Part, ghost text: Text)
    requires node == AddressOf(part.node) && name == AddressOf(part.name) && part.name != part.node
    requires Buffer(m.ram, part.name, text)
    modifies m`ram
    ensures SameOutside(old(m.ram), m.ram, part.node) && PartAt(m.ram, part, text, 0)
  {
    WrittenWord(m.ram, part.node, 0, name);
    m.ram := SetElement(m.ram, node, 0, name);
    WrittenWord(m.ram, part.node, 1, 0);
    m.ram := SetElement(m.ram, node, 1, 0);
    BufferKept(old(m.ram), m.ram, part.name, text);
  }

  lemma DistinctParts(root: Page, list: seq<Page>, x: Page, y: Page)
    requires Distinct([root] + list + [x, y])
    ensures Distinct(list + [x, y]) && y !in [root] + list && x != y && root !in list
  {
    var all := [root] + list + [x, y];
    assert all[|list| + 1] == x && all[|list| + 2] == y && all[0] == root;
    forall i | 0 <= i < |list + [x, y]|
      ensures (list + [x, y])[i] == all[i + 1]
    {
    }
    forall i | 0 <= i < |list|
      ensures list[i] == all[i + 1] != root && all[i + 1] != y
    {
    }
  }

  lemma Regroup(root: Page, list: seq<Page>, more: seq<Page>)
    ensures [root] + (list + more) == [root] + list + more
  {
  }

  lemma MoreFrames(root: Page, parts: seq<Part>, part: Part)
    requires Distinct([root] + ListFrames(parts) + [part.name, part.node])
    ensures [root] + ListFrames(parts + [part]) == [root] + ListFrames(parts) + [part.name, part.node]
    ensures Distinct(ListFrames(parts + [part]))
    ensures part.node !in [root] + ListFrames(parts) && part.name != part.node && root !in ListFrames(parts)
  {
    DistinctParts(root, ListFrames(parts), part.name, part.node);
    ListFramesMore(parts, part);
    Regroup(root, ListFrames(parts), [part.name, part.node]);
  }

  lemma LastInList(parts: seq<Part>)
    ensures parts != [] ==> parts[|parts| - 1].node in ListFrames(parts)
  {
    if parts != [] {
      ListFramesAt(parts, |parts| - 1);
    }
  }

  /** Fills the node in and appends it to the list. */
  method LinkPart(m: Machine, last: u32, name: u32, node: u32, ghost p: u32, ghost s: Text, ghost a: View,
                  ghost root: Page, ghost drive: u32, ghost first: u32, ghost parts: seq<Part>, ghost names: seq<Text>,
                  ghost part: Part, ghost text: Text)
    requires Grown(m.heap.Base(), a, View(m.ram, m.heap.entries[..]),
                   [root] + ListFrames(parts) + [part.name, part.node])
    requires Tree(m.ram, root, drive, first, parts, names) && Buffer(m.ram, part.name, text)
    requires TextAt(m.ram, p, s) && TextInUse(m.heap.Base(), a.table, p, s)
    requires last == LastOf(parts) && name == AddressOf(part.name) && node == AddressOf(part.node)
    requires m.heap.Base() > 0
    modifies m`ram
    ensures Grown(m.heap.Base(), a, View(m.ram, m.heap.entries[..]), [root] + ListFrames(parts + [part]))
    ensures Tree(m.ram, root, drive, first, parts + [part], names + [text]) && TextAt(m.ram, p, s)
  {
    ghost var base, b := m.heap.Base(), View(m.ram, m.heap.entries[..]);
    ghost var frames := [root] + ListFrames(parts) + [part.name, part.node];
    MoreFrames(root, parts, part);
    LastInList(parts);
    GrownInUse(base, a, b, frames, part.node);
    FillNode(m, node, name, part, text);
    WriteKeeps(base, a, b.ram, m.ram, root, drive, first, parts, names, p, s, part.node);
    GrownWrite(base, a, b, frames, part.node, m.ram);
    ghost var c := View(m.ram, m.heap.entries[..]);
    if last != 0 {
      ghost var f := parts[|parts| - 1].node;
      assert f in frames;
      WrittenWord(m.ram, f, 1, node);
      m.ram := SetElement(m.ram, last, 1, node);
      GrownInUse(base, a, c, frames, f);
      WriteKeepsText(base, a, c.ram, m.ram, p, s, f);
      GrownWrite(base, a, c, frames, f, m.ram);
    } else {
      LastNotNull(base, a, c, frames, root, parts);
    }
    ListMore(c.ram, m.ram, parts, names, part, text);
  }

  lemma LastNotNull(base: nat, a: View, c: View, frames: seq<Page>, root: Page, parts: seq<Part>)
    requires Grown(base, a, c, frames) && [root] + ListFrames(parts) <= frames && base > 0
    ensures parts != [] ==> LastOf(parts) != 0 && FirstOf(parts) != 0
  {
    if parts != [] {
      ListFramesAt(parts, |parts| - 1);
      ListFramesAt(parts, 0);
      assert frames[2 * |parts|] == parts[|parts| - 1].node && frames[2] == parts[0].node;
      assert frames[2 * |parts|] in frames && frames[2] in frames;
    }
  }

  /** The next name of the text as a node at the end of the list, or 0 if the text starts with an empty name. */
  method ParsePathPart(m: Machine, last: u32, p: u32, ghost s: Text, ghost a: View, ghost root: Page,
                       ghost drive: u32, ghost first: u32, ghost parts: seq<Part>, ghost names: seq<Text>)
    returns (node: u32, q: u32, ghost part: Part)
    requires m.heap.Valid() && |FreeBlocks(m.heap.entries[..])| >= (if NameEnd(s) == 0 then 1 else 2) && |s| < 127
    requires Grown(m.heap.Base(), a, View(m.ram, m.heap.entries[..]), [root] + ListFrames(parts))
    requires Tree(m.ram, root, drive, first, parts, names) && last == LastOf(parts)
    requires TextAt(m.ram, p, s) && TextInUse(m.heap.Base(), a.table, p, s)
    modifies m`ram, m.heap`live, m.heap`stranded, m.heap.entries
    ensures m.heap.Valid() && q == p + (|s| - |After(s)|) && TextAt(m.ram, p, s)
    ensures NameEnd(s) == 0 ==>
              && node == 0 && m.heap.entries[..] == old(m.heap.entries[..])
              && Grown(m.heap.Base(), a, View(m.ram, m.heap.entries[..]), [root] + ListFrames(parts))
              && Tree(m.ram, root, drive, first, parts, names)
    ensures NameEnd(s) > 0 ==>
              && node == LastOf(parts + [part]) != 0
              && Grown(m.heap.Base(), a, View(m.ram, m.heap.entries[..]), [root] + ListFrames(parts + [part]))
              && Tree(m.ram, root, drive, first, parts + [part], names + [s[..NameEnd(s)]])
              && |FreeBlocks(m.heap.entries[..])| == |FreeBlocks(old(m.heap.entries[..]))| - 2
  {
    var name;
    name, node, q, part := AllocPart(m, p, s, a, root, drive, first, parts, names);
    if name == 0 {
      node := 0;
    } else {
      LinkPart(m, last, name, node, p, s, a, root, drive, first, parts, names, part, s[..NameEnd(s)]);
    }
  }
}
