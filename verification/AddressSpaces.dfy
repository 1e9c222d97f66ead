/** Two-level page tables in physical memory, as 32-bit paging walks them (Intel SDM, Volume 3A, section 4.3). */
module AddressSpaces {
  import opened Words
  import opened Memory

  const PRESENT := 1
  const WRITABLE := 2
  const USER := 4

  // Numbers of pages of virtual memory, and of pages (frames) of physical memory.
  type Page = p: int | 0 <= p < 0x10_0000

  /** The frame that a table entry or an address points into. */
  function FrameOf(x: u32): Page {
    x / 4096
  }

  function AddressOf(f: Page): u32 {
    f * 4096
  }

  lemma FrameAddress(f: Page)
    ensures AddressOf(f) % 4096 == 0 && FrameOf(AddressOf(f)) == f
  {
  }

  /** The k-th word of a frame. */
  function FrameWord(m: Ram, f: Page, k: int): u32
    requires 0 <= k < 1024
  {
    m[f * 1024 + k]
  }

  function SetFrameWord(m: Ram, f: Page, k: int, v: u32): Ram
    requires 0 <= k < 1024
  {
    m[f * 1024 + k := v]
  }

  lemma SetFrameWordAt(m: Ram, f: Page, k: int, v: u32, f': Page, k': int)
    requires 0 <= k < 1024 && 0 <= k' < 1024
    ensures FrameWord(SetFrameWord(m, f, k, v), f', k') == if f == f' && k == k' then v else FrameWord(m, f', k')
  {
  }

  lemma ElementInFrame(m: Ram, f: Page, k: nat)
    requires k < 1024
    ensures Element(m, AddressOf(f), k) == FrameWord(m, f, k)
  {
  }

  lemma SetElementInFrame(m: Ram, f: Page, k: nat, v: u32)
    requires k < 1024
    ensures SetElement(m, AddressOf(f), k, v) == SetFrameWord(m, f, k, v)
  {
  }

  /** A byte of a frame is that of its words. */
  lemma FrameByte(m: Ram, m': Ram, x: u32)
    requires forall k | 0 <= k < 1024 :: FrameWord(m', FrameOf(x), k) == FrameWord(m, FrameOf(x), k)
    ensures ByteAt(m', x) == ByteAt(m, x)
  {
    WordIndex(x);
    assert FrameWord(m', FrameOf(x), x % 4096 / 4) == FrameWord(m, FrameOf(x), x % 4096 / 4);
  }

  lemma WordIndex(x: u32)
    ensures x / 4 == FrameOf(x) * 1024 + x % 4096 / 4
  {
    QuarterSum(x / 4096 * 1024, x % 4096);
  }

  /** Masking a tagged frame address gives the address back. */
  lemma MaskTagged(f: Page, flags: u32)
    requires flags < 4096
    ensures And(AddressOf(f) + flags, 0xfffff000) == AddressOf(f)
    ensures FrameOf(AddressOf(f) + flags) == f
  {
    TaggedPage(f, flags);
    AndPageMask(AddressOf(f) + flags);
  }

  lemma TaggedPage(f: Page, flags: u32)
    requires flags < 4096
    ensures (AddressOf(f) + flags) / 4096 == f && FrameOf(AddressOf(f) + flags) == f
  {
    PageSum(f, flags);
  }

  /** The directory entry and the table entry that the processor finds for a page, from the frame of a directory. */
  function DirectoryEntry(m: Ram, dir: Page, p: Page): u32 {
    FrameWord(m, dir, p / 1024)
  }

  function Walk(m: Ram, dir: Page, p: Page): u32 {
    FrameWord(m, FrameOf(DirectoryEntry(m, dir, p)), p % 1024)
  }

  /** The physical address behind a virtual one. */
  function Translate(m: Ram, dir: Page, va: u32): u32 {
    AddressOf(FrameOf(Walk(m, dir, va / 4096))) + va % 4096
  }

  /**
    The walk in words of memory: the ten highest bits of an address select a directory entry, the next ten a table
    entry, and the twelve lowest are kept.
  */
  lemma TranslateWords(m: Ram, dir: Page, va: u32)
    ensures va / 0x40_0000 < 1024 && DirectoryEntry(m, dir, va / 4096) == m[dir * 1024 + va / 0x40_0000]
    ensures var table := m[dir * 1024 + va / 0x40_0000] / 4096 * 1024;
            && Walk(m, dir, va / 4096) == m[table + va / 4096 % 1024]
            && Translate(m, dir, va) == m[table + va / 4096 % 1024] / 4096 * 4096 + va % 4096
  {
    TwoIndexes(va);
  }

  lemma TwoIndexes(va: u32)
    ensures va / 4096 / 1024 == va / 0x40_0000 < 1024
  {
  }

  predicate HasFlag(entry: u32, flag: int)
    requires flag > 0
  {
    entry / flag % 2 == 1
  }

  /** An access is allowed when both entries say so. */
  predicate Allowed(m: Ram, dir: Page, va: u32, flag: int)
    requires flag > 0
  {
    HasFlag(DirectoryEntry(m, dir, va / 4096), flag) && HasFlag(Walk(m, dir, va / 4096), flag)
  }

  /**
    The frames an address space is built from: its 1024 tables, then its directory, then the one with the record
    that points to the directory. The flags are those of its directory entries.
  */
  datatype Space = Space(frames: seq<Page>, flags: u32)
  {
    ghost predicate Shaped() {
      && |frames| == 1026
      && flags < 4096
      && forall i, j | 0 <= i < j < |frames| :: frames[i] != frames[j]
    }

    function Dir(): Page
      requires |frames| == 1026
    {
      frames[1024]
    }

    function Chunk(): Page
      requires |frames| == 1026
    {
      frames[1025]
    }
  }

  /** Memory holds the record and the directory of an address space. */
  ghost predicate InRam(m: Ram, sp: Space) {
    && sp.Shaped()
    && FrameWord(m, sp.Chunk(), 0) == AddressOf(sp.Dir())
    && forall i | 0 <= i < 1024 :: FrameWord(m, sp.Dir(), i) == AddressOf(sp.frames[i]) + sp.flags
  }

  lemma WalkInSpace(m: Ram, sp: Space, p: Page)
    requires InRam(m, sp)
    ensures Walk(m, sp.Dir(), p) == FrameWord(m, sp.frames[p / 1024], p % 1024)
    ensures DirectoryEntry(m, sp.Dir(), p) == AddressOf(sp.frames[p / 1024]) + sp.flags
  {
  }

  /** The record leads to the directory, and the i-th directory entry to the i-th table. */
  lemma RecordPointsToDirectory(m: Ram, sp: Space)
    requires InRam(m, sp)
    ensures Element(m, AddressOf(sp.Chunk()), 0) == AddressOf(sp.Dir())
  {
    ElementInFrame(m, sp.Chunk(), 0);
  }

  lemma DirectoryPointsToTable(m: Ram, sp: Space, i: nat)
    requires InRam(m, sp) && i < 1024
    ensures And(Element(m, AddressOf(sp.Dir()), i), 0xfffff000) == AddressOf(sp.frames[i])
  {
    ElementInFrame(m, sp.Dir(), i);
    MaskTagged(sp.frames[i], sp.flags);
  }

  /** The word that a page's indexes lead to is its table entry. */
  lemma TableElement(m: Ram, sp: Space, i: nat, j: nat)
    requires InRam(m, sp) && i < 1024 && j < 1024
    ensures Element(m, AddressOf(sp.frames[i]), j) == Walk(m, sp.Dir(), i * 1024 + j)
  {
    ElementInFrame(m, sp.frames[i], j);
    assert (i * 1024 + j) / 1024 == i && (i * 1024 + j) % 1024 == j;
    WalkInSpace(m, sp, i * 1024 + j);
  }

  /** Memory after the entry of page p is set. */
  function SetEntry(m: Ram, sp: Space, p: Page, v: u32): Ram
    requires sp.Shaped()
  {
    SetFrameWord(m, sp.frames[p / 1024], p % 1024, v)
  }

  lemma SetEntryInRam(m: Ram, sp: Space, p: Page, v: u32)
    requires InRam(m, sp)
    ensures InRam(SetEntry(m, sp, p, v), sp)
  {
    var i, k := p / 1024, p % 1024;
    SetFrameWordAt(m, sp.frames[i], k, v, sp.Chunk(), 0);
    forall j | 0 <= j < 1024
      ensures FrameWord(SetEntry(m, sp, p, v), sp.Dir(), j) == AddressOf(sp.frames[j]) + sp.flags
    {
      SetFrameWordAt(m, sp.frames[i], k, v, sp.Dir(), j);
    }
  }

  /** Setting one entry updates the flat map at that page alone. */
  lemma SetEntryWalk(m: Ram, sp: Space, p: Page, v: u32, q: Page)
    requires InRam(m, sp)
    ensures Walk(SetEntry(m, sp, p, v), sp.Dir(), q) == if q == p then v else Walk(m, sp.Dir(), q)
  {
    SetEntryInRam(m, sp, p, v);
    WalkInSpace(m, sp, q);
    WalkInSpace(SetEntry(m, sp, p, v), sp, q);
    SetFrameWordAt(m, sp.frames[p / 1024], p % 1024, v, sp.frames[q / 1024], q % 1024);
    assert sp.frames[p / 1024] == sp.frames[q / 1024] <==> p / 1024 == q / 1024;
  }

  // Flat maps ------------------------------------------------------------------------

  /** An address space seen from above: one entry for each of its pages. */
  type Flat = f: seq<u32> | |f| == 0x10_0000 ghost witness seq(0x10_0000, _ => 0)

  /** The tables in memory refine a flat map. */
  ghost predicate Maps(m: Ram, sp: Space, flat: Flat) {
    InRam(m, sp) && forall q: Page :: Walk(m, sp.Dir(), q) == flat[q]
  }

  /** Every address space in memory refines some flat map, and only one. */
  function FlatOf(m: Ram, dir: Page): (flat: Flat)
    ensures forall q: Page :: flat[q] == Walk(m, dir, q)
  {
    seq(0x10_0000, q requires 0 <= q < 0x10_0000 => Walk(m, dir, q))
  }

  lemma MapsFlatOf(m: Ram, sp: Space, flat: Flat)
    requires InRam(m, sp)
    ensures Maps(m, sp, flat) <==> flat == FlatOf(m, sp.Dir())
  {
    if Maps(m, sp, flat) {
      forall q | 0 <= q < 0x10_0000
        ensures flat[q] == FlatOf(m, sp.Dir())[q]
      {
        var p: Page := q;
        assert Walk(m, sp.Dir(), p) == flat[p];
      }
    }
  }

  /** Storing through the indexes of a page is setting its entry. */
  lemma SetTableElement(m: Ram, sp: Space, i: nat, j: nat, v: u32)
    requires sp.Shaped() && i < 1024 && j < 1024
    ensures SetElement(m, AddressOf(sp.frames[i]), j, v) == SetEntry(m, sp, i * 1024 + j, v)
  {
    SetElementInFrame(m, sp.frames[i], j, v);
    assert (i * 1024 + j) / 1024 == i && (i * 1024 + j) % 1024 == j;
  }

  /** Setting one entry updates the flat map at that page alone; the directory and the record stay. */
  lemma SetEntryMaps(m: Ram, sp: Space, p: Page, v: u32, flat: Flat)
    requires Maps(m, sp, flat)
    ensures Maps(SetEntry(m, sp, p, v), sp, flat[p := v])
  {
    SetEntryInRam(m, sp, p, v);
    forall q: Page
      ensures Walk(SetEntry(m, sp, p, v), sp.Dir(), q) == flat[p := v][q]
    {
      SetEntryWalk(m, sp, p, v, q);
    }
  }

  /** A store through the tables, as a step on the flat map. */
  lemma StoreMaps(m: Ram, sp: Space, i: nat, j: nat, v: u32, flat: Flat)
    requires Maps(m, sp, flat) && i < 1024 && j < 1024
    ensures var m' := SetElement(m, AddressOf(sp.frames[i]), j, v);
            && m' == SetEntry(m, sp, i * 1024 + j, v)
            && Maps(m', sp, flat[i * 1024 + j := v]) && OnlyTables(m, m', sp)
  {
    var p: Page := i * 1024 + j;
    SetEntryMaps(m, sp, p, v, flat);
    SetEntryOnlyTables(m, sp, p, v);
    assert SetElement(m, AddressOf(sp.frames[i]), j, v) == SetEntry(m, sp, p, v) by {
      SetTableElement(m, sp, i, j, v);
    }
  }

  ghost predicate IsTable(sp: Space, f: Page) {
    exists i :: 0 <= i < 1024 && i < |sp.frames| && sp.frames[i] == f
  }

  /** No word outside the tables of an address space changes. */
  ghost predicate OnlyTables(m: Ram, m': Ram, sp: Space) {
    forall f: Page, k | 0 <= k < 1024 && !IsTable(sp, f) :: FrameWord(m', f, k) == FrameWord(m, f, k)
  }

  lemma SetEntryOnlyTables(m: Ram, sp: Space, p: Page, v: u32)
    requires sp.Shaped()
    ensures OnlyTables(m, SetEntry(m, sp, p, v), sp)
  {
    forall f: Page, k | 0 <= k < 1024 && !IsTable(sp, f)
      ensures FrameWord(SetEntry(m, sp, p, v), f, k) == FrameWord(m, f, k)
    {
      assert sp.frames[p / 1024] != f;
      SetFrameWordAt(m, sp.frames[p / 1024], p % 1024, v, f, k);
    }
  }

  // Frames -------------------------------------------------------------------------

  /** Two memories agree on every word of every page of an address space. */
  ghost predicate Agree(m: Ram, m': Ram, sp: Space)
    requires sp.Shaped()
  {
    forall i, k | 0 <= i < |sp.frames| && 0 <= k < 1024 ::
      FrameWord(m', sp.frames[i], k) == FrameWord(m, sp.frames[i], k)
  }

  lemma AgreeKeeps(m: Ram, m': Ram, sp: Space, flat: Flat)
    requires Maps(m, sp, flat) && Agree(m, m', sp)
    ensures Maps(m', sp, flat)
  {
    assert forall i | 0 <= i < 1024 :: FrameWord(m', sp.frames[1024], i) == FrameWord(m, sp.frames[1024], i);
    assert FrameWord(m', sp.frames[1025], 0) == FrameWord(m, sp.frames[1025], 0);
    forall q: Page
      ensures Walk(m', sp.Dir(), q) == flat[q]
    {
      WalkInSpace(m, sp, q);
      WalkInSpace(m', sp, q);
    }
  }

  ghost predicate Apart(a: Space, b: Space) {
    forall i, j | 0 <= i < |a.frames| && 0 <= j < |b.frames| :: a.frames[i] != b.frames[j]
  }

  /** What changes the tables of one address space alone leaves every other one as it was. */
  lemma OnlyTablesApart(m: Ram, m': Ram, sp: Space, other: Space)
    requires sp.Shaped() && other.Shaped() && Apart(sp, other) && OnlyTables(m, m', sp)
    ensures Agree(m, m', other)
  {
    forall j | 0 <= j < |other.frames|
      ensures !IsTable(sp, other.frames[j])
    {
    }
  }

  /** Memories that agree outside the frames from a to b agree on the address spaces that have no frame there. */
  lemma AgreeOutside(m: Ram, m': Ram, sp: Space, a: int, b: int)
    requires sp.Shaped()
    requires forall w | 0 <= w < 0x4000_0000 && (w < a * 1024 || b * 1024 <= w) :: m'[w] == m[w]
    requires forall i | 0 <= i < |sp.frames| :: sp.frames[i] < a || b <= sp.frames[i]
    ensures Agree(m, m', sp)
  {
  }

  // Runs -----------------------------------------------------------------------------

  /** One entry written: which address space, which page, which value. */
  datatype Update = Update(space: nat, page: Page, entry: u32)

  /** Memory after a sequence of updates of the given address spaces. */
  function UpdateAll(m: Ram, spaces: seq<Space>, us: seq<Update>): Ram
    requires forall i | 0 <= i < |spaces| :: spaces[i].Shaped()
    requires forall u | u in us :: u.space < |spaces|
  {
    if us == [] then m else
      var u := us[|us| - 1];
      SetEntry(UpdateAll(m, spaces, us[..|us| - 1]), spaces[u.space], u.page, u.entry)
  }

  /** The flat map of one of the address spaces after them: its own updates, in order. */
  function FlatAfter(us: seq<Update>, space: nat, flat: Flat): Flat {
    if us == [] then flat else
      var u, before := us[|us| - 1], FlatAfter(us[..|us| - 1], space, flat);
      if u.space == space then before[u.page := u.entry] else before
  }

  /**
    Refinement over all runs: however many address spaces share one memory and in whatever order their entries are
    written, each refines a flat map of its own.
  */
  lemma {:induction false} UpdatesRefineFlatMaps(m: Ram, spaces: seq<Space>, us: seq<Update>, s: nat, flat: Flat)
    requires forall i | 0 <= i < |spaces| :: spaces[i].Shaped()
    requires forall i, j | 0 <= i < |spaces| && 0 <= j < |spaces| && i != j :: Apart(spaces[i], spaces[j])
    requires forall u | u in us :: u.space < |spaces|
    requires s < |spaces| && Maps(m, spaces[s], flat)
    ensures Maps(UpdateAll(m, spaces, us), spaces[s], FlatAfter(us, s, flat))
  {
    if us != [] {
      var u, before := us[|us| - 1], us[..|us| - 1];
      UpdatesRefineFlatMaps(m, spaces, before, s, flat);
      var m1 := UpdateAll(m, spaces, before);
      if u.space == s {
        SetEntryMaps(m1, spaces[s], u.page, u.entry, FlatAfter(before, s, flat));
      } else {
        SetEntryOnlyTables(m1, spaces[u.space], u.page, u.entry);
        OnlyTablesApart(m1, SetEntry(m1, spaces[u.space], u.page, u.entry), spaces[u.space], spaces[s]);
        AgreeKeeps(m1, SetEntry(m1, spaces[u.space], u.page, u.entry), spaces[s], FlatAfter(before, s, flat));
      }
    }
  }

  /** A frame that is a table of none of the address spaces keeps its contents over all runs. */
  lemma {:induction false} UpdatesLeaveOtherFrames(m: Ram, spaces: seq<Space>, us: seq<Update>, f: Page, k: int)
    requires forall i | 0 <= i < |spaces| :: spaces[i].Shaped() && !IsTable(spaces[i], f)
    requires forall u | u in us :: u.space < |spaces|
    requires 0 <= k < 1024
    ensures FrameWord(UpdateAll(m, spaces, us), f, k) == FrameWord(m, f, k)
  {
    if us != [] {
      var u, before := us[|us| - 1], us[..|us| - 1];
      UpdatesLeaveOtherFrames(m, spaces, before, f, k);
      SetEntryOnlyTables(UpdateAll(m, spaces, before), spaces[u.space], u.page, u.entry);
    }
  }
}
