/** The life of an address space in src/memory/paging/paging.c: paging_new_4gb and paging_free_4gb. */
module Chunks {
  import opened Words
  import opened Memory
  import opened BlockTable
  import opened AddressSpaces
  import opened Kernel
  import opened Paging
  import H = Heap

  // Blocks taken one at a time -----------------------------------------------------------

  /** What the allocator hands out and what happens to memory, seen together. */
  datatype View = View(ram: Ram, table: Table)

  /** The blocks of a list of frames. */
  function BlocksOf(base: nat, frames: seq<Page>): set<int> {
    if frames == [] then {} else BlocksOf(base, frames[..|frames| - 1]) + {frames[|frames| - 1] - base}
  }

  lemma {:induction false} BlocksOfMember(base: nat, frames: seq<Page>, f: Page)
    ensures f in frames <==> f - base in BlocksOf(base, frames)
  {
    if frames != [] {
      BlocksOfMember(base, frames[..|frames| - 1], f);
      assert frames == frames[..|frames| - 1] + [frames[|frames| - 1]];
    }
  }

  lemma BlocksOfMore(base: nat, frames: seq<Page>, f: Page)
    ensures BlocksOf(base, frames + [f]) == BlocksOf(base, frames) + {f - base}
  {
    assert (frames + [f])[..|frames|] == frames;
  }

  /** From one view to another only single blocks are allocated, the used ones, and only their frames change. */
  ghost predicate Allocated(base: nat, a: View, b: View, used: set<int>) {
    && b.table == Paint(a.table, used, SINGLE)
    && (forall s | s in used :: 0 <= s < |a.table| && a.table[s] == FREE)
    && (forall f: Page, k | 0 <= k < 1024 && f - base !in used :: FrameWord(b.ram, f, k) == FrameWord(a.ram, f, k))
  }

  lemma AllocatedMore(base: nat, a: View, b: View, used: set<int>, f: Page, ram: Ram)
    requires Allocated(base, a, b, used)
    requires base <= f < base + |b.table| && b.table[f - base] == FREE
    requires forall g: Page, k | 0 <= k < 1024 && g != f && g - base !in used ::
               FrameWord(ram, g, k) == FrameWord(b.ram, g, k)
    ensures Allocated(base, a, View(ram, b.table[f - base := SINGLE]), used + {f - base})
    ensures f - base !in used
  {
  }

  // A fresh address space ------------------------------------------------------------------

  /** Entry p of a fresh address space: the page itself. */
  function IdentityEntry(p: Page, flags: byte): u32 {
    AddressOf(p) + flags
  }

  function IdentityFlat(flags: byte): Flat {
    seq(0x10_0000, p requires 0 <= p < 0x10_0000 => IdentityEntry(p, flags))
  }

  /** A frame holds the first n entries of the i-th table of the identity. */
  ghost predicate IdentityPart(m: Ram, f: Page, i: nat, n: nat, flags: byte)
    requires i < 1024 && n <= 1024
  {
    forall j | 0 <= j < n :: FrameWord(m, f, j) == IdentityEntry(i * 1024 + j, flags)
  }

  ghost predicate IdentityTable(m: Ram, f: Page, i: nat, flags: byte)
    requires i < 1024
  {
    IdentityPart(m, f, i, 1024, flags)
  }

  /** The tables built so far, and the directory entries that lead to them. */
  ghost predicate Built(m: Ram, d: Page, tables: seq<Page>, flags: byte, dirFlags: u32) {
    && |tables| <= 1024 && dirFlags < 4096
    && (forall a, b | 0 <= a < b < |tables| :: tables[a] != tables[b])
    && (forall a | 0 <= a < |tables| :: tables[a] != d && IdentityTable(m, tables[a], a, flags))
    && (forall a | 0 <= a < |tables| :: FrameWord(m, d, a) == AddressOf(tables[a]) + dirFlags)
  }

  /** Building goes on while frame f is filled and one directory entry is set. */
  lemma BuiltMore(m: Ram, m1: Ram, m2: Ram, d: Page, tables: seq<Page>, flags: byte, dirFlags: u32, f: Page)
    requires Built(m, d, tables, flags, dirFlags) && |tables| < 1024
    requires f != d && f !in tables
    requires OnlyFrames(m, m1, f, f + 1) && IdentityTable(m1, f, |tables|, flags)
    requires m2 == SetFrameWord(m1, d, |tables|, AddressOf(f) + dirFlags)
    ensures Built(m2, d, tables + [f], flags, dirFlags)
  {
    var tables' := tables + [f];
    forall g: Page, k | 0 <= k < 1024 && g != d
      ensures FrameWord(m2, g, k) == FrameWord(m1, g, k)
    {
      SetFrameWordAt(m1, d, |tables|, AddressOf(f) + dirFlags, g, k);
    }
    forall a | 0 <= a < |tables|
      ensures IdentityTable(m2, tables[a], a, flags)
      ensures FrameWord(m2, d, a) == AddressOf(tables[a]) + dirFlags
    {
      SetFrameWordAt(m1, d, |tables|, AddressOf(f) + dirFlags, d, a);
      assert FrameWord(m1, d, a) == FrameWord(m, d, a);
      forall j | 0 <= j < 1024
        ensures FrameWord(m2, tables[a], j) == IdentityEntry(a * 1024 + j, flags)
      {
        assert FrameWord(m1, tables[a], j) == FrameWord(m, tables[a], j);
      }
    }
    SetFrameWordAt(m1, d, |tables|, AddressOf(f) + dirFlags, d, |tables|);
    assert IdentityTable(m2, f, |tables|, flags);
  }

  /** The offset of the i-th table: the bytes that the tables before it map. The counter wraps after the last. */
  function Offset(i: nat): u32 {
    Wrap(i * 0x40_0000)
  }

  lemma OffsetNext(i: nat)
    requires i < 1024
    ensures Offset(i) == i * 0x40_0000
    ensures AddressAfter(Offset(i), 1024) == Offset(i + 1)
  {
    assert i * 0x40_0000 + 0x40_0000 == (i + 1) * 0x40_0000;
  }

  lemma OffsetEntry(i: nat, j: nat)
    requires i < 1024 && j < 1024
    ensures Wrap(Offset(i) + j * 4096) == AddressOf(i * 1024 + j)
  {
    OffsetNext(i);
  }

  /** The entry that the inner loop writes. */
  lemma FilledEntry(i: nat, j: nat, flags: byte)
    requires i < 1024 && j < 1024
    ensures Or(Wrap(Offset(i) + j * 4096), flags) == IdentityEntry(i * 1024 + j, flags)
  {
    OffsetEntry(i, j);
    FrameAddress(i * 1024 + j);
    OrFlags(AddressOf(i * 1024 + j), 0, flags);
  }

  /** One step of the inner loop. */
  lemma FillStep(m: Ram, f: Page, i: nat, j: nat, flags: byte)
    requires i < 1024 && j < 1024 && IdentityPart(m, f, i, j, flags)
    ensures var m' := SetElement(m, AddressOf(f), j, Or(Wrap(Offset(i) + j * 4096), flags));
            IdentityPart(m', f, i, j + 1, flags) && OnlyFrames(m, m', f, f + 1)
  {
    var e := IdentityEntry(i * 1024 + j, flags);
    FilledEntry(i, j, flags);
    SetElementInFrame(m, f, j, e);
    PartMore(m, f, i, j, flags, e);
  }

  lemma PartMore(m: Ram, f: Page, i: nat, j: nat, flags: byte, e: u32)
    requires i < 1024 && j < 1024 && IdentityPart(m, f, i, j, flags) && e == IdentityEntry(i * 1024 + j, flags)
    ensures var m' := SetFrameWord(m, f, j, e); IdentityPart(m', f, i, j + 1, flags) && OnlyFrames(m, m', f, f + 1)
  {
    forall k | 0 <= k <= j
      ensures FrameWord(SetFrameWord(m, f, j, e), f, k) == IdentityEntry(i * 1024 + k, flags)
    {
      SetFrameWordAt(m, f, j, e, f, k);
    }
  }

  /** The inner loop: one table of 1024 entries. */
  method FillTable(m: Machine, table: u32, offset: u32, flags: byte, ghost f: Page, ghost i: nat)
    requires table == AddressOf(f) && i < 1024 && offset == Offset(i)
    modifies m`ram
    ensures IdentityTable(m.ram, f, i, flags) && OnlyFrames(old(m.ram), m.ram, f, f + 1)
  {
    for j := 0 to 1024
      invariant IdentityPart(m.ram, f, i, j, flags) && OnlyFrames(old(m.ram), m.ram, f, f + 1)
    {
      FillStep(m.ram, f, i, j, flags);
      m.ram := SetElement(m.ram, table, j, Or(Wrap(offset + j * 4096), flags));
    }
  }

  /** The directory entry that leads to a table. */
  lemma LinkedEntry(f: Page, flags: byte)
    ensures Or(flags, WRITABLE) < 4096
    ensures Or(Or(AddressOf(f), flags), WRITABLE) == AddressOf(f) + Or(flags, WRITABLE)
  {
    FrameAddress(f);
    OrFlags(AddressOf(f), flags, WRITABLE);
    OrFlags(AddressOf(f), 0, flags);
  }

  lemma LinkEntry(m: Ram, d: Page, i: nat, flags: byte, f: Page)
    requires i < 1024
    ensures Or(flags, WRITABLE) < 4096
    ensures SetElement(m, AddressOf(d), i, Or(Or(AddressOf(f), flags), WRITABLE)) ==
            SetFrameWord(m, d, i, AddressOf(f) + Or(flags, WRITABLE))
  {
    LinkedEntry(f, flags);
    SetElementInFrame(m, d, i, Or(Or(AddressOf(f), flags), WRITABLE));
  }

  /** Linking a filled table into the directory. */
  lemma LinkTable(m: Ram, m1: Ram, d: Page, tables: seq<Page>, flags: byte, f: Page)
    requires Built(m, d, tables, flags, Or(flags, WRITABLE)) && |tables| < 1024
    requires f != d && f !in tables
    requires OnlyFrames(m, m1, f, f + 1) && IdentityTable(m1, f, |tables|, flags)
    ensures var m2 := SetElement(m1, AddressOf(d), |tables|, Or(Or(AddressOf(f), flags), WRITABLE));
            && Built(m2, d, tables + [f], flags, Or(flags, WRITABLE))
            && forall g: Page, k | 0 <= k < 1024 && g != f && g != d :: FrameWord(m2, g, k) == FrameWord(m, g, k)
  {
    LinkEntry(m1, d, |tables|, flags, f);
    BuiltMore(m, m1, SetFrameWord(m1, d, |tables|, AddressOf(f) + Or(flags, WRITABLE)), d, tables, flags,
              Or(flags, WRITABLE), f);
    forall g: Page, k | 0 <= k < 1024 && g != f && g != d
      ensures FrameWord(SetFrameWord(m1, d, |tables|, AddressOf(f) + Or(flags, WRITABLE)), g, k) == FrameWord(m, g, k)
    {
      SetFrameWordAt(m1, d, |tables|, AddressOf(f) + Or(flags, WRITABLE), g, k);
      assert FrameWord(m1, g, k) == FrameWord(m, g, k);
    }
  }

  /** The finished tables are the identity. */
  lemma BuiltMaps(m: Ram, sp: Space, flags: byte)
    requires |sp.frames| == 1026 && sp.Shaped()
    requires Built(m, sp.Dir(), sp.frames[..1024], flags, sp.flags)
    requires FrameWord(m, sp.Chunk(), 0) == AddressOf(sp.Dir())
    ensures Maps(m, sp, IdentityFlat(flags))
  {
    forall i | 0 <= i < 1024
      ensures FrameWord(m, sp.Dir(), i) == AddressOf(sp.frames[i]) + sp.flags
    {
      assert sp.frames[..1024][i] == sp.frames[i];
    }
    forall q: Page
      ensures Walk(m, sp.Dir(), q) == IdentityFlat(flags)[q]
    {
      WalkInSpace(m, sp, q);
      assert IdentityTable(m, sp.frames[..1024][q / 1024], q / 1024, flags);
    }
  }

  /** Address spaces survive while other frames are allocated, and share none of them. */
  lemma AllocatedKeepsSpaces(base: nat, a: View, b: View, used: set<int>, spaces: map<Page, Space>)
    requires Allocated(base, a, b, used) && SpacesOk(a.ram, base, a.table, spaces)
    ensures SpacesOk(b.ram, base, b.table, spaces)
    ensures forall c, i | c in spaces && 0 <= i < |spaces[c].frames| :: spaces[c].frames[i] - base !in used
    ensures forall c, flat | c in spaces && Maps(a.ram, spaces[c], flat) :: Maps(b.ram, spaces[c], flat)
  {
    forall c, i | c in spaces && 0 <= i < |spaces[c].frames|
      ensures spaces[c].frames[i] - base !in used && Single(base, b.table, spaces[c].frames[i])
    {
      assert Single(base, a.table, spaces[c].frames[i]);
    }
    forall c | c in spaces
      ensures Agree(a.ram, b.ram, spaces[c]) && InRam(b.ram, spaces[c])
    {
      MapsFlatOf(a.ram, spaces[c], FlatOf(a.ram, spaces[c].Dir()));
      AgreeKeeps(a.ram, b.ram, spaces[c], FlatOf(a.ram, spaces[c].Dir()));
    }
    forall c, flat | c in spaces && Maps(a.ram, spaces[c], flat)
      ensures Maps(b.ram, spaces[c], flat)
    {
      AgreeKeeps(a.ram, b.ram, spaces[c], flat);
    }
  }

  /** One round of the outer loop, seen from outside: a block is allocated, filled as a table and linked. */
  lemma NewTable(base: nat, a: View, b: View, d: Page, tables: seq<Page>, flags: byte, f: Page, m1: Ram)
    requires Allocated(base, a, b, BlocksOf(base, [d] + tables))
    requires Built(b.ram, d, tables, flags, Or(flags, WRITABLE)) && |tables| < 1024
    requires base <= f < base + |b.table| && b.table[f - base] == FREE
    requires OnlyFrames(b.ram, m1, f, f + 1) && IdentityTable(m1, f, |tables|, flags)
    ensures var m2 := SetElement(m1, AddressOf(d), |tables|, Or(Or(AddressOf(f), flags), WRITABLE));
            && Allocated(base, a, View(m2, b.table[f - base := SINGLE]),
                         BlocksOf(base, [d] + (tables + [f])))
            && Built(m2, d, tables + [f], flags, Or(flags, WRITABLE))
  {
    var used := BlocksOf(base, [d] + tables);
    BlocksOfMember(base, [d] + tables, d);
    BlocksOfMember(base, [d] + tables, f);
    assert f !in [d] + tables && d in [d] + tables;
    LinkTable(b.ram, m1, d, tables, flags, f);
    var m2 := SetElement(m1, AddressOf(d), |tables|, Or(Or(AddressOf(f), flags), WRITABLE));
    forall g: Page, k | 0 <= k < 1024 && g != f && g - base !in used
      ensures FrameWord(m2, g, k) == FrameWord(b.ram, g, k)
    {
      assert g != d;
    }
    AllocatedMore(base, a, b, used, f, m2);
    BlocksOfMore(base, [d] + tables, f);
    assert [d] + (tables + [f]) == [d] + tables + [f];
  }

  /** One round of the outer loop: a table more, linked into the directory. */
  method AddTable(m: Machine, directory: u32, offset: u32, i: nat, flags: byte, ghost d: Page, ghost a: View,
                  ghost tables: seq<Page>) returns (ghost f: Page)
    requires m.heap.Valid() && |FreeBlocks(m.heap.entries[..])| >= 1
    requires directory == AddressOf(d) && |tables| == i < 1024 && offset == Offset(i)
    requires Built(m.ram, d, tables, flags, Or(flags, WRITABLE))
    requires Allocated(m.heap.Base(), a, View(m.ram, m.heap.entries[..]), BlocksOf(m.heap.Base(), [d] + tables))
    modifies m`ram, m.heap`live, m.heap.entries
    ensures m.heap.Valid() && Built(m.ram, d, tables + [f], flags, Or(flags, WRITABLE))
    ensures Allocated(m.heap.Base(), a, View(m.ram, m.heap.entries[..]),
                      BlocksOf(m.heap.Base(), [d] + (tables + [f])))
    ensures |FreeBlocks(m.heap.entries[..])| == |FreeBlocks(old(m.heap.entries[..]))| - 1
  {
    ghost var b := View(m.ram, m.heap.entries[..]);
    var table;
    table, f := m.KzallocOne(4096);
    FillTable(m, table, offset, flags, f, i);
    NewTable(m.heap.Base(), a, b, d, tables, flags, f, m.ram);
    m.ram := SetElement(m.ram, directory, i, Or(Or(table, flags), WRITABLE));
  }

  /** The outer loop: 1024 tables, each linked into the directory. */
  method BuildTables(m: Machine, directory: u32, flags: byte, ghost d: Page, ghost a: View)
    returns (ghost tables: seq<Page>)
    requires m.heap.Valid() && |FreeBlocks(m.heap.entries[..])| >= 1024
    requires directory == AddressOf(d)
    requires Allocated(m.heap.Base(), a, View(m.ram, m.heap.entries[..]), BlocksOf(m.heap.Base(), [d]))
    modifies m`ram, m.heap`live, m.heap.entries
    ensures m.heap.Valid() && |tables| == 1024
    ensures Built(m.ram, d, tables, flags, Or(flags, WRITABLE))
    ensures Allocated(m.heap.Base(), a, View(m.ram, m.heap.entries[..]),
                      BlocksOf(m.heap.Base(), [d] + tables))
    ensures |FreeBlocks(m.heap.entries[..])| == |FreeBlocks(old(m.heap.entries[..]))| - 1024
  {
    tables := [];
    assert [d] + tables == [d];
    OrFlags(0, flags, WRITABLE);
    OffsetNext(0);
    var offset := 0;
    for i := 0 to 1024
      invariant m.heap.Valid() && |tables| == i && offset == Offset(i)
      invariant Built(m.ram, d, tables, flags, Or(flags, WRITABLE))
      invariant Allocated(m.heap.Base(), a, View(m.ram, m.heap.entries[..]),
                          BlocksOf(m.heap.Base(), [d] + tables))
      invariant |FreeBlocks(m.heap.entries[..])| == |FreeBlocks(old(m.heap.entries[..]))| - i
    {
      ghost var f := AddTable(m, directory, offset, i, flags, d, a, tables);
      OffsetNext(i);
      offset := AddressAfter(offset, 1024);
      tables := tables + [f];
    }
  }

  /** The blocks of an address space. */
  function SpaceBlocks(base: nat, sp: Space): set<int> {
    BlocksOf(base, sp.frames)
  }

  lemma SameBlocks(base: nat, d: Page, tables: seq<Page>, f: Page)
    ensures BlocksOf(base, [d] + tables + [f]) == BlocksOf(base, tables + [d, f])
  {
    assert tables + [d, f] == tables + [d] + [f];
    BlocksOfMore(base, [d] + tables, f);
    BlocksOfMore(base, tables + [d], f);
    BlocksOfFirst(base, d, tables);
    BlocksOfMore(base, tables, d);
  }

  lemma {:induction false} BlocksOfFirst(base: nat, d: Page, tables: seq<Page>)
    ensures BlocksOf(base, [d] + tables) == {d - base} + BlocksOf(base, tables)
  {
    if tables == [] {
      assert [d] + tables == [] + [d];
      BlocksOfMore(base, [], d);
    } else {
      var n := |tables| - 1;
      BlocksOfFirst(base, d, tables[..n]);
      BlocksOfMore(base, [d] + tables[..n], tables[n]);
      assert [d] + tables == [d] + tables[..n] + [tables[n]];
    }
  }

  /** The last block becomes the record: the tables, the directory and the record are an address space. */
  lemma FinishSpace(base: nat, a: View, b: View, d: Page, tables: seq<Page>, flags: byte, f: Page, m1: Ram)
    requires |tables| == 1024 && Built(b.ram, d, tables, flags, Or(flags, WRITABLE))
    requires Allocated(base, a, b, BlocksOf(base, [d] + tables))
    requires base <= f < base + |b.table| && b.table[f - base] == FREE
    requires OnlyFrames(b.ram, m1, f, f + 1)
    ensures var m2 := SetElement(m1, AddressOf(f), 0, AddressOf(d));
            var sp := Space(tables + [d, f], Or(flags, WRITABLE));
            && Allocated(base, a, View(m2, b.table[f - base := SINGLE]), SpaceBlocks(base, sp))
            && Maps(m2, sp, IdentityFlat(flags))
  {
    var m2 := SetFrameWord(m1, f, 0, AddressOf(d));
    var sp := Space(tables + [d, f], Or(flags, WRITABLE));
    SetElementInFrame(m1, f, 0, AddressOf(d));
    BlocksOfMember(base, [d] + tables, f);
    assert f !in [d] + tables;
    forall g: Page, k | 0 <= k < 1024 && g != f
      ensures FrameWord(m2, g, k) == FrameWord(b.ram, g, k)
    {
      SetFrameWordAt(m1, f, 0, AddressOf(d), g, k);
    }
    AllocatedMore(base, a, b, BlocksOf(base, [d] + tables), f, m2);
    BlocksOfMore(base, [d] + tables, f);
    SameBlocks(base, d, tables, f);
    assert sp.frames[..1024] == tables;
    BuiltStays(b.ram, m2, d, tables, flags, Or(flags, WRITABLE), f);
    BuiltMaps(m2, sp, flags);
  }

  lemma BuiltStays(m: Ram, m': Ram, d: Page, tables: seq<Page>, flags: byte, dirFlags: u32, f: Page)
    requires Built(m, d, tables, flags, dirFlags) && f != d && f !in tables
    requires forall g: Page, k | 0 <= k < 1024 && g != f :: FrameWord(m', g, k) == FrameWord(m, g, k)
    ensures Built(m', d, tables, flags, dirFlags)
  {
    forall a | 0 <= a < |tables|
      ensures IdentityTable(m', tables[a], a, flags)
    {
      assert IdentityTable(m, tables[a], a, flags);
    }
  }

  lemma StartSpace(base: nat, a: View, d: Page, m: Ram)
    requires base <= d < base + |a.table| && a.table[d - base] == FREE && OnlyFrames(a.ram, m, d, d + 1)
    ensures Allocated(base, a, View(m, a.table[d - base := SINGLE]), BlocksOf(base, [d]))
  {
    assert Paint(a.table, {}, SINGLE) == a.table;
    assert Allocated(base, a, a, {});
    AllocatedMore(base, a, a, {}, d, m);
    assert BlocksOf(base, [d]) == {d - base};
  }

  /** The directory and the tables, before the record is made. */
  method NewDirectory(m: Machine, flags: byte) returns (directory: u32, ghost d: Page, ghost tables: seq<Page>)
    requires m.heap.Valid() && |FreeBlocks(m.heap.entries[..])| >= 1025
    modifies m`ram, m.heap`live, m.heap.entries
    ensures m.heap.Valid() && directory == AddressOf(d) && |tables| == 1024
    ensures Built(m.ram, d, tables, flags, Or(flags, WRITABLE))
    ensures Allocated(m.heap.Base(), old(View(m.ram, m.heap.entries[..])), View(m.ram, m.heap.entries[..]),
                      BlocksOf(m.heap.Base(), [d] + tables))
    ensures |FreeBlocks(m.heap.entries[..])| == |FreeBlocks(old(m.heap.entries[..]))| - 1025
  {
    ghost var a := View(m.ram, m.heap.entries[..]);
    directory, d := m.KzallocOne(4096);
    StartSpace(m.heap.Base(), a, d, m.ram);
    tables := BuildTables(m, directory, flags, d, a);
  }

  /** The record that leads to the directory. */
  method NewRecord(m: Machine, directory: u32, flags: byte, ghost d: Page, ghost tables: seq<Page>, ghost a: View)
    returns (chunk: u32, ghost sp: Space)
    requires m.heap.Valid() && |FreeBlocks(m.heap.entries[..])| >= 1
    requires directory == AddressOf(d) && |tables| == 1024 && Built(m.ram, d, tables, flags, Or(flags, WRITABLE))
    requires Allocated(m.heap.Base(), a, View(m.ram, m.heap.entries[..]), BlocksOf(m.heap.Base(), [d] + tables))
    modifies m`ram, m.heap`live, m.heap.entries
    ensures m.heap.Valid()
    ensures Maps(m.ram, sp, IdentityFlat(flags)) && sp.flags == Or(flags, WRITABLE)
    ensures chunk == AddressOf(sp.Chunk()) != 0
    ensures Allocated(m.heap.Base(), a, View(m.ram, m.heap.entries[..]), SpaceBlocks(m.heap.Base(), sp))
    ensures |FreeBlocks(m.heap.entries[..])| == |FreeBlocks(old(m.heap.entries[..]))| - 1
  {
    ghost var b := View(m.ram, m.heap.entries[..]);
    ghost var f;
    chunk, f := m.KzallocOne(4);
    FinishSpace(m.heap.Base(), a, b, d, tables, flags, f, m.ram);
    m.ram := SetElement(m.ram, chunk, 0, directory);
    sp := Space(tables + [d, f], Or(flags, WRITABLE));
  }

  /** A fresh identity-mapped address space, built from 1026 free blocks: directory, tables, record. */
  method New4gb(m: Machine, flags: byte) returns (chunk: u32, ghost sp: Space)
    requires m.heap.Valid() && |FreeBlocks(m.heap.entries[..])| >= 1026
    modifies m`ram, m.heap`live, m.heap.entries
    ensures m.heap.Valid()
    ensures Maps(m.ram, sp, IdentityFlat(flags)) && sp.flags == Or(flags, WRITABLE)
    ensures chunk == AddressOf(sp.Chunk()) != 0
    ensures Allocated(m.heap.Base(), old(View(m.ram, m.heap.entries[..])), View(m.ram, m.heap.entries[..]),
                      SpaceBlocks(m.heap.Base(), sp))
    ensures |FreeBlocks(m.heap.entries[..])| == |FreeBlocks(old(m.heap.entries[..]))| - 1026
  {
    ghost var a := View(m.ram, m.heap.entries[..]);
    var directory;
    ghost var d, tables;
    directory, d, tables := NewDirectory(m, flags);
    chunk, sp := NewRecord(m, directory, flags, d, tables, a);
  }

  // Freeing ------------------------------------------------------------------------------------

  /** Freeing the frames of an address space in order: the next one is still allocated, and then clear. */
  lemma FreeNext(base: nat, t: Table, sp: Space, i: nat)
    requires sp.Shaped() && Owned(sp, base, t) && i < |sp.frames|
    ensures var now := Paint(t, BlocksOf(base, sp.frames[..i]), FREE);
            && Single(base, now, sp.frames[i])
            && Release(now, sp.frames[i] - base) == Paint(t, BlocksOf(base, sp.frames[..i + 1]), FREE)
  {
    var f := sp.frames[i];
    BlocksOfMember(base, sp.frames[..i], f);
    assert f !in sp.frames[..i] by {
      forall j | 0 <= j < i
        ensures sp.frames[..i][j] != f
      {
      }
    }
    assert Single(base, t, f);
    assert sp.frames[..i + 1] == sp.frames[..i] + [f];
    BlocksOfMore(base, sp.frames[..i], f);
  }

  lemma SingleIsAllocation(heap: H.Heap, f: Page)
    requires Single(heap.Base(), heap.entries[..], f)
    ensures heap.IsAllocation(AddressOf(f)) && FrameOf(AddressOf(f)) == f
  {
  }

  /** Frees the i-th frame after the ones before it; t is the table before the first was freed. */
  method FreeFrame(m: Machine, ptr: u32, ghost sp: Space, ghost t: Table, ghost i: nat)
    requires m.heap.Valid() && sp.Shaped() && Owned(sp, m.heap.Base(), t)
    requires i < |sp.frames| && ptr == AddressOf(sp.frames[i])
    requires m.heap.entries[..] == Paint(t, BlocksOf(m.heap.Base(), sp.frames[..i]), FREE)
    modifies m.heap`live, m.heap`stranded, m.heap.entries
    ensures m.heap.Valid()
    ensures m.heap.entries[..] == Paint(t, BlocksOf(m.heap.Base(), sp.frames[..i + 1]), FREE)
  {
    FreeNext(m.heap.Base(), t, sp, i);
    SingleIsAllocation(m.heap, sp.frames[i]);
    m.Kfree(ptr);
  }

  method FreeTables(m: Machine, directory: u32, ghost sp: Space)
    requires m.heap.Valid() && InRam(m.ram, sp) && directory == AddressOf(sp.Dir())
    requires Owned(sp, m.heap.Base(), m.heap.entries[..])
    modifies m.heap`live, m.heap`stranded, m.heap.entries
    ensures m.heap.Valid()
    ensures m.heap.entries[..] == Paint(old(m.heap.entries[..]), BlocksOf(m.heap.Base(), sp.frames[..1024]), FREE)
  {
    ghost var t := m.heap.entries[..];
    assert Paint(t, {}, FREE) == t;
    for i := 0 to 1024
      invariant m.heap.Valid()
      invariant m.heap.entries[..] == Paint(t, BlocksOf(m.heap.Base(), sp.frames[..i]), FREE)
    {
      DirectoryPointsToTable(m.ram, sp, i);
      var table := And(Element(m.ram, directory, i), 0xfffff000);
      FreeFrame(m, table, sp, t, i);
    }
  }

  /** Frees every table through the directory, then the directory, then the record. */
  method Free4gb(m: Machine, chunk: u32, ghost sp: Space)
    requires m.heap.Valid() && InRam(m.ram, sp) && chunk == AddressOf(sp.Chunk())
    requires Owned(sp, m.heap.Base(), m.heap.entries[..])
    modifies m.heap`live, m.heap`stranded, m.heap.entries
    ensures m.heap.Valid()
    ensures m.heap.entries[..] == Paint(old(m.heap.entries[..]), SpaceBlocks(m.heap.Base(), sp), FREE)
  {
    ghost var t := m.heap.entries[..];
    RecordPointsToDirectory(m.ram, sp);
    var directory := Element(m.ram, chunk, 0);
    FreeTables(m, directory, sp);
    FreeRest(m, directory, chunk, sp, t);
  }

  lemma AllBlocks(base: nat, sp: Space, n: nat)
    requires n == |sp.frames|
    ensures BlocksOf(base, sp.frames[..n]) == SpaceBlocks(base, sp)
  {
    assert sp.frames[..n] == sp.frames;
  }

  method FreeRest(m: Machine, directory: u32, chunk: u32, ghost sp: Space, ghost t: Table)
    requires m.heap.Valid() && sp.Shaped() && Owned(sp, m.heap.Base(), t)
    requires directory == AddressOf(sp.Dir()) && chunk == AddressOf(sp.Chunk())
    requires m.heap.entries[..] == Paint(t, BlocksOf(m.heap.Base(), sp.frames[..1024]), FREE)
    modifies m.heap`live, m.heap`stranded, m.heap.entries
    ensures m.heap.Valid()
    ensures m.heap.entries[..] == Paint(t, SpaceBlocks(m.heap.Base(), sp), FREE)
  {
    FreeFrame(m, directory, sp, t, 1024);
    FreeFrame(m, chunk, sp, t, 1025);
    AllBlocks(m.heap.Base(), sp, 1025 + 1);
  }

  // Life cycle -----------------------------------------------------------------------------------

  /** The arguments of one call of MapTo. */
  datatype Mapping = Mapping(virt: u32, phys: u32, physEnd: u32, flags: int)

  method MapOne(m: Machine, chunk: u32, call: Mapping, ghost sp: Space, ghost flat: Flat) returns (ghost now: Flat)
    requires Maps(m.ram, sp, flat) && chunk == AddressOf(sp.Chunk())
    modifies m`ram
    ensures Maps(m.ram, sp, now) && OnlyTables(old(m.ram), m.ram, sp)
  {
    now := flat;
    var res := MapTo(m, chunk, call.virt, call.phys, call.physEnd, call.flags, sp, flat);
    if res == OK {
      now := MapBetween(flat, call.virt, call.phys, call.physEnd, call.flags);
    }
  }

  /** Any number of calls of MapTo keeps the directory and the record. */
  method MapAll(m: Machine, chunk: u32, calls: seq<Mapping>, ghost sp: Space, ghost flat: Flat)
    requires Maps(m.ram, sp, flat) && chunk == AddressOf(sp.Chunk())
    modifies m`ram
    ensures InRam(m.ram, sp) && OnlyTables(old(m.ram), m.ram, sp)
  {
    ghost var now := flat;
    for i := 0 to |calls|
      invariant Maps(m.ram, sp, now) && OnlyTables(old(m.ram), m.ram, sp)
    {
      ghost var before := m.ram;
      now := MapOne(m, chunk, calls[i], sp, now);
      OnlyTablesTrans(old(m.ram), before, m.ram, sp);
    }
  }

  /**
    Building an address space, mapping anything into it in any number of calls, and freeing it again leaves the block
    table as it was, entry for entry.
  */
  method Lifecycle(m: Machine, flags: byte, calls: seq<Mapping>)
    requires m.heap.Valid() && |FreeBlocks(m.heap.entries[..])| >= 1026
    modifies m`ram, m.heap`live, m.heap`stranded, m.heap.entries
    ensures m.heap.Valid() && m.heap.entries[..] == old(m.heap.entries[..])
  {
    ghost var base, t := m.heap.Base(), m.heap.entries[..];
    var chunk;
    ghost var sp;
    chunk, sp := New4gb(m, flags);
    AllocatedOwned(base, t, m.heap.entries[..], sp);
    MapAll(m, chunk, calls, sp, IdentityFlat(flags));
    Free4gb(m, chunk, sp);
    PaintUndone(t, SpaceBlocks(base, sp));
  }

  lemma AllocatedOwned(base: nat, t: Table, taken: Table, sp: Space)
    requires sp.Shaped() && taken == Paint(t, SpaceBlocks(base, sp), SINGLE)
    requires forall s | s in SpaceBlocks(base, sp) :: 0 <= s < |t|
    ensures Owned(sp, base, taken)
  {
    forall i | 0 <= i < |sp.frames|
      ensures Single(base, taken, sp.frames[i])
    {
      BlocksOfMember(base, sp.frames, sp.frames[i]);
    }
  }
}
