/** src/fs/pparser.c: pathparser_parse and pathparser_free as a whole. */
module PathTrees {
  import opened Words
  import opened Memory
  import opened BlockTable
  import opened AddressSpaces
  import opened Kernel
  import opened Chunks
  import opened Paths
  import opened PathParser
  import opened PathLists
  import H = Heap

  // Parsing ---------------------------------------------------------------------------------------

  /** A root block for a drive, with no list yet. */
  method CreateRoot(m: Machine, drive: u32, ghost p: u32, ghost s: Text) returns (tree: u32, ghost root: Page)
    requires m.heap.Valid() && |FreeBlocks(m.heap.entries[..])| > 0
    requires TextAt(m.ram, p, s) && TextInUse(m.heap.Base(), m.heap.entries[..], p, s)
    modifies m`ram, m.heap`live, m.heap.entries
    ensures m.heap.Valid() && tree == AddressOf(root) != 0 && TextAt(m.ram, p, s)
    ensures Grown(m.heap.Base(), old(View(m.ram, m.heap.entries[..])), View(m.ram, m.heap.entries[..]),
                  [root] + ListFrames([]))
    ensures Tree(m.ram, root, drive, 0, [], [])
    ensures m.heap.Base() <= root < m.heap.Base() + m.heap.entries.Length
    ensures m.heap.entries[..] == old(m.heap.entries[..])[root - m.heap.Base() := SINGLE]
    ensures |FreeBlocks(m.heap.entries[..])| == |FreeBlocks(old(m.heap.entries[..]))| - 1
  {
    ghost var base, a := m.heap.Base(), View(m.ram, m.heap.entries[..]);
    tree, root := m.KzallocOne(8);
    ghost var b := View(m.ram, m.heap.entries[..]);
    OneFrameKeeps(base, a.table, a.ram, b.ram, b.ram, root);
    TextKept(a.ram, b.ram, base, a.table, p, s);
    GrownNothing(base, a);
    GrownBlock(base, a, a, b, [], root);
    assert [] + [root] == [root] + ListFrames([]);
    SetRoot(m, tree, drive, a, p, s, root);
  }

  lemma GrownNothing(base: nat, a: View)
    ensures Grown(base, a, a, [])
  {
    assert Paint(a.table, {}, SINGLE) == a.table;
  }

  method SetRoot(m: Machine, tree: u32, drive: u32, ghost a: View, ghost p: u32, ghost s: Text, ghost root: Page)
    requires tree == AddressOf(root)
    requires Grown(m.heap.Base(), a, View(m.ram, m.heap.entries[..]), [root] + ListFrames([]))
    requires TextAt(m.ram, p, s) && TextInUse(m.heap.Base(), a.table, p, s)
    modifies m`ram
    ensures Grown(m.heap.Base(), a, View(m.ram, m.heap.entries[..]), [root] + ListFrames([]))
    ensures Tree(m.ram, root, drive, 0, [], []) && TextAt(m.ram, p, s)
  {
    ghost var b := View(m.ram, m.heap.entries[..]);
    GrownInUse(m.heap.Base(), a, b, [root] + ListFrames([]), root);
    WrittenWord(m.ram, root, 0, drive);
    m.ram := SetElement(m.ram, tree, 0, drive);
    WrittenWord(m.ram, root, 1, 0);
    m.ram := SetElement(m.ram, tree, 1, 0);
    WriteKeepsText(m.heap.Base(), a, b.ram, m.ram, p, s, root);
    GrownWrite(m.heap.Base(), a, b, [root] + ListFrames([]), root, m.ram);
  }

  /** The root points to the first node. */
  method SetFirst(m: Machine, tree: u32, node: u32, ghost a: View, ghost p: u32, ghost s: Text, ghost root: Page,
                  ghost drive: u32, ghost part: Part, ghost text: Text)
    requires tree == AddressOf(root) && node == LastOf([part])
    requires Grown(m.heap.Base(), a, View(m.ram, m.heap.entries[..]), [root] + ListFrames([part]))
    requires Tree(m.ram, root, drive, 0, [part], [text])
    requires TextAt(m.ram, p, s) && TextInUse(m.heap.Base(), a.table, p, s)
    modifies m`ram
    ensures Grown(m.heap.Base(), a, View(m.ram, m.heap.entries[..]), [root] + ListFrames([part]))
    ensures Tree(m.ram, root, drive, FirstOf([part]), [part], [text]) && TextAt(m.ram, p, s)
  {
    ghost var base, b, frames := m.heap.Base(), View(m.ram, m.heap.entries[..]), [root] + ListFrames([part]);
    RootApart(root, ListFrames([part]));
    GrownInUse(base, a, b, frames, root);
    WrittenWord(m.ram, root, 1, node);
    m.ram := SetElement(m.ram, tree, 1, node);
    WriteKeepsText(base, a, b.ram, m.ram, p, s, root);
    GrownWrite(base, a, b, frames, root, m.ram);
    ListKept(b.ram, m.ram, [part], [text]);
  }

  lemma RootApart(root: Page, list: seq<Page>)
    requires Distinct([root] + list)
    ensures root !in list && root in [root] + list
  {
    forall i | 0 <= i < |list|
      ensures list[i] != root
    {
      assert ([root] + list)[0] == root && ([root] + list)[i + 1] == list[i];
    }
  }

  /**
    A list of names, the first of all those of a text, and the last node if there may be more: then the rest of the
    text is at q.
  */
  ghost predicate Reading(base: nat, a: View, b: View, root: Page, drive: u32, parts: seq<Part>, names: seq<Text>,
                          last: u32, q: u32, rest: Text, all: seq<Text>) {
    && parts != [] && Grown(base, a, b, [root] + ListFrames(parts))
    && Tree(b.ram, root, drive, FirstOf(parts), parts, names)
    && (last == 0 ==> names == all)
    && (last != 0 ==>
          && last == LastOf(parts) && names + Names(rest) == all && |rest| < 127
          && |FreeBlocks(b.table)| >= 2 * |Names(rest)| + 1
          && TextAt(b.ram, q, rest) && TextInUse(base, a.table, q, rest))
  }

  /** One name more, or the end. */
  method ParseNext(m: Machine, last: u32, q: u32, ghost a: View, ghost root: Page, ghost drive: u32,
                   ghost parts: seq<Part>, ghost names: seq<Text>, ghost rest: Text, ghost all: seq<Text>)
    returns (last': u32, q': u32, ghost parts': seq<Part>, ghost names': seq<Text>, ghost rest': Text)
    requires m.heap.Valid() && last != 0
    requires Reading(m.heap.Base(), a, View(m.ram, m.heap.entries[..]), root, drive, parts, names, last, q, rest, all)
    modifies m`ram, m.heap`live, m.heap`stranded, m.heap.entries
    ensures m.heap.Valid() && (last' == 0 ==> rest' == rest) && (last' != 0 ==> |rest'| < |rest|)
    ensures Reading(m.heap.Base(), a, View(m.ram, m.heap.entries[..]), root, drive, parts', names', last', q', rest',
                    all)
  {
    ghost var more;
    last', q', more := ParsePathPart(m, last, q, rest, a, root, drive, FirstOf(parts), parts, names);
    if last' != 0 {
      TextAfter(m.ram, m.heap.Base(), a.table, q, rest);
      parts', names', rest' := parts + [more], names + [rest[..NameEnd(rest)]], After(rest);
      OneNameMore(names, rest);
      FirstStays(parts, more);
    } else {
      parts', names', rest' := parts, names, rest;
      assert names + [] == names;
    }
  }

  lemma OneNameMore(names: seq<Text>, rest: Text)
    requires NameEnd(rest) > 0
    ensures names + Names(rest) == names + [rest[..NameEnd(rest)]] + Names(After(rest))
    ensures |Names(rest)| == 1 + |Names(After(rest))| && |After(rest)| < |rest|
  {
    var name := [rest[..NameEnd(rest)]];
    assert Names(rest) == name + Names(After(rest));
    Regrouped(names, name, Names(After(rest)));
  }

  lemma Regrouped(a: seq<Text>, b: seq<Text>, c: seq<Text>)
    ensures a + (b + c) == a + b + c
  {
  }

  lemma FirstStays(parts: seq<Part>, part: Part)
    requires parts != []
    ensures FirstOf(parts + [part]) == FirstOf(parts)
  {
  }

  /** All the names after the first one. */
  method ParseRest(m: Machine, node: u32, p: u32, ghost s: Text, ghost a: View, ghost root: Page, ghost drive: u32,
                   ghost part: Part, ghost text: Text)
    returns (ghost parts: seq<Part>)
    requires m.heap.Valid() && node != 0
    requires Reading(m.heap.Base(), a, View(m.ram, m.heap.entries[..]), root, drive, [part], [text], node, p, s,
                     [text] + Names(s))
    modifies m`ram, m.heap`live, m.heap`stranded, m.heap.entries
    ensures m.heap.Valid()
    ensures Grown(m.heap.Base(), a, View(m.ram, m.heap.entries[..]), [root] + ListFrames(parts))
    ensures Tree(m.ram, root, drive, FirstOf(parts), parts, [text] + Names(s))
  {
    var last, q := node, p;
    ghost var names, rest := [text], s;
    parts := [part];
    while last != 0
      invariant m.heap.Valid()
      invariant Reading(m.heap.Base(), a, View(m.ram, m.heap.entries[..]), root, drive, parts, names, last, q, rest,
                        [text] + Names(s))
      decreases |rest|, if last == 0 then 0 else 1
    {
      last, q, parts, names, rest := ParseNext(m, last, q, a, root, drive, parts, names, rest, [text] + Names(s));
    }
  }

  /** How parsing ends: with nothing, with a root block that is lost, or with a tree. */
  datatype Ending = Nothing | Lost(root: Page) | Done(root: Page, parts: seq<Part>)

  ghost predicate Outcome(base: nat, a: View, b: View, s: Text, tree: u32, e: Ending) {
    match e
    case Nothing => !ValidPath(s) && tree == 0 && b == a
    case Lost(root) =>
      && ValidPath(s) && Parse(s).NoPath? && tree == 0
      && base <= root < base + |a.table| && a.table[root - base] == FREE
      && b.table == a.table[root - base := SINGLE] && KeepsInUse(base, a.table, a.ram, b.ram)
    case Done(root, parts) =>
      && Parse(s).Path? && tree == AddressOf(root) != 0
      && Grown(base, a, b, [root] + ListFrames(parts))
      && Tree(b.ram, root, Parse(s).drive, FirstOf(parts), parts, Parse(s).names)
  }

  /** The blocks that parsing needs: a root, two for each name, and a buffer for the empty name that ends it. */
  function BlocksNeeded(s: Text): nat {
    if ValidPath(s) then 2 * |Names(s[3..])| + 2 else 0
  }

  /** The text behind the drive and its slash. */
  lemma TextBehindDrive(m: Ram, base: nat, t: Table, p: u32, s: Text)
    requires TextAt(m, p, s) && TextInUse(base, t, p, s) && ValidPath(s)
    ensures TextAt(m, p + 3, s[3..]) && TextInUse(base, t, p + 3, s[3..]) && ByteAt(m, p) == s[0]
  {
    TextFrom(m, p, s, 3);
    TextInUseFrom(base, t, p, s, 3, p + 3);
    TextByte(m, p, s, 0);
  }

  /** The names of a valid path, into a tree. */
  method ParseNames(m: Machine, drive: u32, p: u32, ghost s: Text, ghost path: Text)
    returns (tree: u32, ghost e: Ending)
    requires ValidPath(path) && s == path[3..] && drive == path[0] - ZERO
    requires m.heap.Valid() && |FreeBlocks(m.heap.entries[..])| >= 2 * |Names(s)| + 2 && |s| < 127
    requires TextAt(m.ram, p, s) && TextInUse(m.heap.Base(), m.heap.entries[..], p, s)
    modifies m`ram, m.heap`live, m.heap`stranded, m.heap.entries
    ensures m.heap.Valid()
    ensures Outcome(m.heap.Base(), old(View(m.ram, m.heap.entries[..])), View(m.ram, m.heap.entries[..]), path, tree,
                    e)
  {
    ghost var base, a := m.heap.Base(), View(m.ram, m.heap.entries[..]);
    ghost var root;
    tree, root := CreateRoot(m, drive, p, s);
    assert LastOf([]) == 0 && [] + [s[..NameEnd(s)]] == [s[..NameEnd(s)]];
    var node, q;
    ghost var part;
    node, q, part := ParsePathPart(m, 0, p, s, a, root, drive, 0, [], []);
    AnyName(s);
    if node == 0 {
      RootLost(base, a, View(m.ram, m.heap.entries[..]), path, root);
      tree, e := 0, Lost(root);
    } else {
      assert [] + [part] == [part];
      ghost var parts := ParseList(m, tree, node, q, p, s, a, root, drive, part);
      e := Done(root, parts);
      TreeDone(base, a, View(m.ram, m.heap.entries[..]), path, tree, root, parts);
    }
  }

  lemma AnyName(s: Text)
    ensures Names(s) == [] <==> NameEnd(s) == 0
  {
  }

  lemma TreeDone(base: nat, a: View, b: View, path: Text, tree: u32, root: Page, parts: seq<Part>)
    requires ValidPath(path) && Names(path[3..]) != [] && tree == AddressOf(root) != 0
    requires Grown(base, a, b, [root] + ListFrames(parts))
    requires Tree(b.ram, root, path[0] - ZERO, FirstOf(parts), parts, Names(path[3..]))
    ensures Outcome(base, a, b, path, tree, Done(root, parts))
  {
  }

  lemma RootLost(base: nat, a: View, b: View, path: Text, root: Page)
    requires Grown(base, a, b, [root] + ListFrames([])) && ValidPath(path) && NameEnd(path[3..]) == 0
    ensures Outcome(base, a, b, path, 0, Lost(root))
  {
    assert root in [root] + ListFrames([]);
    BlocksOfMore(base, [], root);
    assert [] + [root] == [root] + ListFrames([]);
    assert b.table == a.table[root - base := SINGLE];
  }

  /** Hangs the first node into the root and parses the rest. */
  method ParseList(m: Machine, tree: u32, node: u32, q: u32, ghost p: u32, ghost s: Text, ghost a: View,
                   ghost root: Page, ghost drive: u32, ghost part: Part)
    returns (ghost parts: seq<Part>)
    requires m.heap.Valid() && |FreeBlocks(m.heap.entries[..])| >= 2 * |Names(s)| - 1 && |s| < 127 && NameEnd(s) > 0
    requires Grown(m.heap.Base(), a, View(m.ram, m.heap.entries[..]), [root] + ListFrames([part]))
    requires Tree(m.ram, root, drive, 0, [part], [s[..NameEnd(s)]]) && tree == AddressOf(root)
    requires node == LastOf([part]) != 0 && q == p + (|s| - |After(s)|)
    requires TextAt(m.ram, p, s) && TextInUse(m.heap.Base(), a.table, p, s)
    modifies m`ram, m.heap`live, m.heap`stranded, m.heap.entries
    ensures m.heap.Valid()
    ensures Grown(m.heap.Base(), a, View(m.ram, m.heap.entries[..]), [root] + ListFrames(parts))
    ensures Tree(m.ram, root, drive, FirstOf(parts), parts, Names(s))
  {
    ghost var text := s[..NameEnd(s)];
    SetFirst(m, tree, node, a, p, s, root, drive, part, text);
    OneNameMore([], s);
    TextAfter(m.ram, m.heap.Base(), a.table, p, s);
    assert [text] + Names(After(s)) == Names(s);
    parts := ParseRest(m, node, q, After(s), a, root, drive, part, text);
  }

  /** Parses the path s at p into a tree of heap blocks. */
  method ParsePath(m: Machine, p: u32, ghost s: Text) returns (tree: u32, ghost e: Ending)
    requires m.heap.Valid() && |FreeBlocks(m.heap.entries[..])| >= BlocksNeeded(s)
    requires TextAt(m.ram, p, s) && TextInUse(m.heap.Base(), m.heap.entries[..], p, s)
    modifies m`ram, m.heap`live, m.heap`stranded, m.heap.entries
    ensures m.heap.Valid()
    ensures Outcome(m.heap.Base(), old(View(m.ram, m.heap.entries[..])), View(m.ram, m.heap.entries[..]), s, tree, e)
  {
    ghost var a := View(m.ram, m.heap.entries[..]);
    tree, e := 0, Nothing;
    var valid := CheckPath(m, p, s);
    assert View(m.ram, m.heap.entries[..]) == a;
    if valid {
      TextBehindDrive(m.ram, m.heap.Base(), m.heap.entries[..], p, s);
      tree, e := ParseNames(m, ByteAt(m.ram, p) - ZERO, p + 3, s[3..], s);
    }
  }

  /** The length is looked at twice. */
  method CheckPath(m: Machine, p: u32, ghost s: Text) returns (valid: bool)
    requires TextAt(m.ram, p, s)
    ensures valid <==> ValidPath(s)
  {
    var n := Strlen(m, p, s);
    if n > MAX_PATH {
      return false;
    }
    valid := IsValidPath(m, p, s);
  }

  // What following the pointers finds -----------------------------------------------------------------

  /** The bytes at an address up to a NUL, n of them at most. */
  function TextSeen(m: Ram, p: nat, n: nat): Text
    requires p + n <= 0x1_0000_0000
    decreases n
  {
    if n == 0 || ByteAt(m, p) == 0 then [] else [ByteAt(m, p)] + TextSeen(m, p + 1, n - 1)
  }

  /**
    The texts of a list of n nodes at most: the first word of a node points to its text, the second to the next node.
    None but null pointers, and those with room for a text of 127 bytes, are looked at.
  */
  function NamesSeen(m: Ram, node: u32, n: nat): seq<Text>
    decreases n
  {
    if n == 0 || node == 0 || node > 0xffff_fff8 || m[node / 4] > 0xffff_ff80 then []
    else [TextSeen(m, m[node / 4], 128)] + NamesSeen(m, m[node / 4 + 1], n - 1)
  }

  lemma {:induction false} BufferSeen(m: Ram, f: Page, name: Text, i: nat)
    requires Buffer(m, f, name) && i <= |name| && forall k | 0 <= k < |name| :: name[k] != 0
    ensures TextSeen(m, AddressOf(f) + i, 128 - i) == name[i..]
    decreases |name| - i
  {
    assert ByteAt(m, AddressOf(f) + i) == CharAt(m, AddressOf(f), i) == if i < |name| then name[i] else 0;
    if i < |name| {
      BufferSeen(m, f, name, i + 1);
      assert name[i..] == [name[i]] + name[i + 1..];
    }
  }

  lemma NodeWords(m: Ram, part: Part, name: Text, next: u32)
    requires PartAt(m, part, name, next)
    ensures var node := AddressOf(part.node);
            node <= 0xffff_fff8 && m[node / 4] == AddressOf(part.name) <= 0xffff_ff80 && m[node / 4 + 1] == next
  {
    assert AddressOf(part.node) / 4 == part.node * 1024;
  }

  lemma NameSeen(m: Ram, f: Page, name: Text, p: u32)
    requires Buffer(m, f, name) && p == AddressOf(f) <= 0xffff_ff80 && forall k | 0 <= k < |name| :: name[k] != 0
    ensures TextSeen(m, p, 128) == name
  {
    BufferSeen(m, f, name, 0);
    assert name[0..] == name;
  }

  lemma NodeIs(m: Ram, node: u32, n: nat, name: Text, next: u32)
    requires n > 0 && 0 < node <= 0xffff_fff8 && m[node / 4] <= 0xffff_ff80
    requires TextSeen(m, m[node / 4], 128) == name && m[node / 4 + 1] == next
    ensures NamesSeen(m, node, n) == [name] + NamesSeen(m, next, n - 1)
  {
  }

  lemma NodeSeen(m: Ram, part: Part, name: Text, next: u32, n: nat)
    requires PartAt(m, part, name, next) && part.node > 0 && n > 0 && forall k | 0 <= k < |name| :: name[k] != 0
    ensures NamesSeen(m, AddressOf(part.node), n) == [name] + NamesSeen(m, next, n - 1)
  {
    NodeWords(m, part, name, next);
    NameSeen(m, part.name, name, AddressOf(part.name));
    NodeIs(m, AddressOf(part.node), n, name, next);
  }

  lemma FirstOfRest(names: seq<Text>, i: nat)
    requires i < |names|
    ensures names[i..] == [names[i]] + names[i + 1..]
  {
  }

  lemma {:induction false} ListSeen(m: Ram, parts: seq<Part>, names: seq<Text>, i: nat, node: u32, n: nat)
    requires ListAt(m, parts, names) && i <= |parts| && n == |parts| + 1 - i
    requires node == if i < |parts| then AddressOf(parts[i].node) else 0
    requires forall j | 0 <= j < |parts| :: parts[j].node > 0
    requires forall name | name in names :: forall k | 0 <= k < |name| :: name[k] != 0
    ensures NamesSeen(m, node, n) == names[i..]
    decreases |parts| - i
  {
    if i < |parts| {
      assert PartAt(m, parts[i], names[i], NextOf(parts, i));
      assert names[i] in names;
      ListSeen(m, parts, names, i + 1, NextOf(parts, i), n - 1);
      NodeSeen(m, parts[i], names[i], NextOf(parts, i), n);
      FirstOfRest(names, i);
    } else {
      assert names[i..] == [];
    }
  }

  lemma {:induction false} NamesNonzero(s: Text)
    requires forall k | 0 <= k < |s| :: s[k] != 0
    ensures forall name | name in Names(s) :: forall k | 0 <= k < |name| :: name[k] != 0
    decreases |s|
  {
    if NameEnd(s) > 0 {
      NamesNonzero(After(s));
    }
  }

  lemma GrownAbove(base: nat, a: View, b: View, frames: seq<Page>, f: Page)
    requires Grown(base, a, b, frames) && f in frames
    ensures f >= base
  {
  }

  lemma InBehind(root: Page, list: seq<Page>, i: nat)
    requires i < |list|
    ensures list[i] in [root] + list
  {
    assert ([root] + list)[i + 1] == list[i];
  }

  lemma NodeAboveZero(base: nat, a: View, b: View, root: Page, list: seq<Page>, i: nat)
    requires base > 0 && Grown(base, a, b, [root] + list) && i < |list|
    ensures list[i] > 0
  {
    InBehind(root, list, i);
    GrownAbove(base, a, b, [root] + list, list[i]);
  }

  lemma FramesAboveZero(base: nat, a: View, b: View, root: Page, list: seq<Page>)
    requires base > 0 && Grown(base, a, b, [root] + list)
    ensures forall i | 0 <= i < |list| :: list[i] > 0
  {
    forall i | 0 <= i < |list|
      ensures list[i] > 0
    {
      NodeAboveZero(base, a, b, root, list, i);
    }
  }

  lemma NodesAboveZero(parts: seq<Part>, list: seq<Page>)
    requires list == ListFrames(parts) && forall i | 0 <= i < |list| :: list[i] > 0
    ensures forall j | 0 <= j < |parts| :: parts[j].node > 0
  {
    forall j | 0 <= j < |parts|
      ensures parts[j].node > 0
    {
      ListFramesAt(parts, j);
    }
  }

  lemma RootWords(m: Ram, root: Page, drive: u32, first: u32, tree: u32)
    requires RootAt(m, root, drive, first) && tree == AddressOf(root)
    ensures tree / 4 + 1 < 0x4000_0000 && m[tree / 4] == drive && m[tree / 4 + 1] == first
  {
    assert tree / 4 == root * 1024;
  }

  /**
    Who follows the pointers of a parsed path, the root's first word being its drive and its second the first node,
    finds exactly the drive and the names, and then the end of the list.
  */
  lemma ParsedSeen(base: nat, a: View, b: View, s: Text, tree: u32, e: Ending)
    requires base > 0 && Outcome(base, a, b, s, tree, e) && e.Done?
    requires forall k | 0 <= k < |s| :: s[k] != 0
    ensures b.ram[tree / 4] == Parse(s).drive && tree / 4 + 1 < 0x4000_0000
    ensures NamesSeen(b.ram, b.ram[tree / 4 + 1], |Parse(s).names| + 1) == Parse(s).names
  {
    FramesAboveZero(base, a, b, e.root, ListFrames(e.parts));
    NodesAboveZero(e.parts, ListFrames(e.parts));
    NamesNonzero(s[3..]);
    ListSeen(b.ram, e.parts, Parse(s).names, 0, FirstOf(e.parts), |e.parts| + 1);
    RootWords(b.ram, e.root, Parse(s).drive, FirstOf(e.parts), tree);
    assert Parse(s).names[0..] == Parse(s).names;
  }

  // Freeing ---------------------------------------------------------------------------------------------

  /** Frees one block after those of the given frames; t is the table before the first was freed. */
  method FreeBlock(m: Machine, ptr: u32, ghost f: Page, ghost t: Table, ghost frames: seq<Page>)
    requires m.heap.Valid() && ptr == AddressOf(f) && f !in frames && Single(m.heap.Base(), t, f)
    requires m.heap.entries[..] == Paint(t, BlocksOf(m.heap.Base(), frames), FREE)
    modifies m.heap`live, m.heap`stranded, m.heap.entries
    ensures m.heap.Valid()
    ensures m.heap.entries[..] == Paint(t, BlocksOf(m.heap.Base(), frames + [f]), FREE)
  {
    BlocksOfMember(m.heap.Base(), frames, f);
    BlocksOfMore(m.heap.Base(), frames, f);
    SingleIsAllocation(m.heap, f);
    m.Kfree(ptr);
  }

  lemma DistinctPrefix(list: seq<Page>, before: seq<Page>, x: Page, y: Page)
    requires Distinct(list) && before + [x, y] <= list
    ensures x !in before && y !in before + [x] && x in list && y in list
  {
    var n := |before|;
    assert list[n] == (before + [x, y])[n] == x && list[n + 1] == (before + [x, y])[n + 1] == y;
    forall j | 0 <= j < n
      ensures before[j] == list[j]
    {
      assert before[j] == (before + [x, y])[j];
    }
  }

  /** The frames of the nodes before the i-th, and its own ones. */
  lemma FramesUpTo(parts: seq<Part>, i: nat)
    requires i < |parts| && Distinct(ListFrames(parts))
    ensures ListFrames(parts[..i + 1]) == ListFrames(parts[..i]) + [parts[i].name] + [parts[i].node]
    ensures parts[i].name !in ListFrames(parts[..i]) && parts[i].node !in ListFrames(parts[..i]) + [parts[i].name]
    ensures parts[i].name in ListFrames(parts) && parts[i].node in ListFrames(parts)
  {
    FramesStep(parts, i);
    DistinctPrefix(ListFrames(parts), ListFrames(parts[..i]), parts[i].name, parts[i].node);
    OneByOne(ListFrames(parts[..i]), parts[i].name, parts[i].node);
  }

  lemma OneByOne(before: seq<Page>, x: Page, y: Page)
    ensures before + [x, y] == before + [x] + [y]
  {
  }

  lemma FramesStep(parts: seq<Part>, i: nat)
    requires i < |parts|
    ensures ListFrames(parts[..i + 1]) == ListFrames(parts[..i]) + [parts[i].name, parts[i].node]
    ensures ListFrames(parts[..i + 1]) <= ListFrames(parts)
  {
    PartsUpTo(parts, i);
    ListFramesMore(parts[..i], parts[i]);
    ListFramesPrefix(parts, i + 1);
  }

  lemma PartsUpTo(parts: seq<Part>, i: nat)
    requires i < |parts|
    ensures parts[..i + 1] == parts[..i] + [parts[i]]
  {
  }

  lemma {:induction false} ListFramesPrefix(parts: seq<Part>, i: nat)
    requires i <= |parts|
    ensures ListFrames(parts[..i]) <= ListFrames(parts)
    decreases |parts|
  {
    if i < |parts| {
      ListFramesPrefix(parts[..|parts| - 1], i);
      assert parts[..|parts| - 1][..i] == parts[..i];
    } else {
      assert parts[..i] == parts;
    }
  }

  /** Frees the i-th node and its buffer. Its successor is read before. */
  method FreePart(m: Machine, node: u32, ghost parts: seq<Part>, ghost names: seq<Text>, ghost t: Table, ghost i: nat)
    returns (next: u32)
    requires m.heap.Valid() && ListAt(m.ram, parts, names) && i < |parts| && node == AddressOf(parts[i].node)
    requires Distinct(ListFrames(parts)) && forall f | f in ListFrames(parts) :: Single(m.heap.Base(), t, f)
    requires m.heap.entries[..] == Paint(t, BlocksOf(m.heap.Base(), ListFrames(parts[..i])), FREE)
    modifies m.heap`live, m.heap`stranded, m.heap.entries
    ensures m.heap.Valid() && next == NextOf(parts, i)
    ensures m.heap.entries[..] == Paint(t, BlocksOf(m.heap.Base(), ListFrames(parts[..i + 1])), FREE)
  {
    FramesUpTo(parts, i);
    assert PartAt(m.ram, parts[i], names[i], NextOf(parts, i));
    ElementInFrame(m.ram, parts[i].node, 0);
    ElementInFrame(m.ram, parts[i].node, 1);
    next := Element(m.ram, node, 1);
    FreeBlock(m, Element(m.ram, node, 0), parts[i].name, t, ListFrames(parts[..i]));
    FreeBlock(m, node, parts[i].node, t, ListFrames(parts[..i]) + [parts[i].name]);
  }

  /** Frees every node and its buffer, each once and in order. */
  method FreeList(m: Machine, first: u32, ghost parts: seq<Part>, ghost names: seq<Text>)
    requires m.heap.Valid() && ListAt(m.ram, parts, names) && first == FirstOf(parts)
    requires Distinct(ListFrames(parts))
    requires forall f | f in ListFrames(parts) :: Single(m.heap.Base(), m.heap.entries[..], f)
    modifies m.heap`live, m.heap`stranded, m.heap.entries
    ensures m.heap.Valid()
    ensures m.heap.entries[..] == Paint(old(m.heap.entries[..]), BlocksOf(m.heap.Base(), ListFrames(parts)), FREE)
  {
    ghost var t := m.heap.entries[..];
    var node := first;
    ghost var i := 0;
    assert Paint(t, {}, FREE) == t;
    while node != 0
      invariant m.heap.Valid() && 0 <= i <= |parts|
      invariant node == if i < |parts| then AddressOf(parts[i].node) else 0
      invariant m.heap.entries[..] == Paint(t, BlocksOf(m.heap.Base(), ListFrames(parts[..i])), FREE)
      decreases |parts| - i
    {
      node := FreePart(m, node, parts, names, t, i);
      i := i + 1;
    }
    NodesNotNull(m.heap, t, parts, i);
    assert parts[..i] == parts;
  }

  lemma NodesNotNull(heap: H.Heap, t: Table, parts: seq<Part>, i: nat)
    requires heap.Valid() && forall f | f in ListFrames(parts) :: Single(heap.Base(), t, f)
    ensures i < |parts| ==> AddressOf(parts[i].node) != 0
  {
    if i < |parts| {
      ListFramesAt(parts, i);
      assert parts[i].node in ListFrames(parts);
    }
  }

  /** Frees a tree: its list, and then its root. */
  method FreeTree(m: Machine, tree: u32, ghost root: Page, ghost drive: u32, ghost parts: seq<Part>,
                  ghost names: seq<Text>)
    requires m.heap.Valid() && tree == AddressOf(root)
    requires Tree(m.ram, root, drive, FirstOf(parts), parts, names) && Distinct([root] + ListFrames(parts))
    requires forall f | f in [root] + ListFrames(parts) :: Single(m.heap.Base(), m.heap.entries[..], f)
    modifies m.heap`live, m.heap`stranded, m.heap.entries
    ensures m.heap.Valid()
    ensures m.heap.entries[..] ==
            Paint(old(m.heap.entries[..]), BlocksOf(m.heap.Base(), [root] + ListFrames(parts)), FREE)
  {
    ghost var base, t, list := m.heap.Base(), m.heap.entries[..], ListFrames(parts);
    RootApart(root, list);
    ListApart(root, list);
    ElementInFrame(m.ram, root, 1);
    FreeList(m, Element(m.ram, tree, 1), parts, names);
    FreeBlock(m, tree, root, t, list);
    BlocksOfFirst(base, root, list);
    BlocksOfMore(base, list, root);
  }

  lemma ListApart(root: Page, list: seq<Page>)
    requires Distinct([root] + list)
    ensures Distinct(list) && forall f | f in list :: f in [root] + list
  {
    assert forall i | 0 <= i < |list| :: list[i] == ([root] + list)[i + 1];
  }

  /** Parsing a path that has names, and freeing what it was parsed to, leaves the block table entry for entry. */
  method ParseAndFree(m: Machine, p: u32, ghost s: Text)
    requires m.heap.Valid() && |FreeBlocks(m.heap.entries[..])| >= BlocksNeeded(s) && Parse(s).Path?
    requires TextAt(m.ram, p, s) && TextInUse(m.heap.Base(), m.heap.entries[..], p, s)
    modifies m`ram, m.heap`live, m.heap`stranded, m.heap.entries
    ensures m.heap.Valid() && m.heap.entries[..] == old(m.heap.entries[..])
    ensures KeepsInUse(m.heap.Base(), m.heap.entries[..], old(m.ram), m.ram)
  {
    ghost var base, a := m.heap.Base(), View(m.ram, m.heap.entries[..]);
    var tree;
    ghost var e;
    tree, e := ParsePath(m, p, s);
    ghost var b, frames := View(m.ram, m.heap.entries[..]), [e.root] + ListFrames(e.parts);
    TreeBlocks(base, a, b, frames);
    FreeTree(m, tree, e.root, Parse(s).drive, e.parts, Parse(s).names);
    PaintUndone(a.table, BlocksOf(base, frames));
  }

  lemma TreeBlocks(base: nat, a: View, b: View, frames: seq<Page>)
    requires Grown(base, a, b, frames)
    ensures forall f | f in frames :: Single(base, b.table, f)
    ensures forall i | 0 <= i < |a.table| && i in BlocksOf(base, frames) :: a.table[i] == FREE
  {
    forall f | f in frames
      ensures Single(base, b.table, f)
    {
      GrownInUse(base, a, b, frames, f);
    }
    forall i | 0 <= i < |a.table| && i in BlocksOf(base, frames)
      ensures a.table[i] == FREE
    {
      BlocksInRange(base, frames, i);
      BlocksOfMember(base, frames, base + i);
    }
  }

  /** Every block of a list of frames is that of one of them. */
  lemma {:induction false} BlocksInRange(base: nat, frames: seq<Page>, i: int)
    requires i in BlocksOf(base, frames)
    ensures 0 <= base + i < 0x10_0000
  {
    if i != frames[|frames| - 1] - base {
      BlocksInRange(base, frames[..|frames| - 1], i);
    }
  }
}
