/** src/memory/paging/paging.c: page tables built in heap blocks, changed through the pointers they hold. */
module Paging {
  import opened Words
  import opened Memory
  import opened AddressSpaces
  import opened Kernel

  // Alignment and indexes -------------------------------------------------------------

  function AlignUp(a: u32): u32 {
    if a % 4096 == 0 then a else Wrap(a + 4096 - a % 4096)
  }

  function AlignDown(a: u32): u32 {
    a - a % 4096
  }

  /** Aligning up gives the least page boundary at or above an address, or 0 past the last one. */
  lemma AlignmentBounds(a: u32)
    ensures AlignDown(a) % 4096 == 0 && AlignDown(a) <= a < AlignDown(a) + 4096
    ensures AlignUp(a) % 4096 == 0
    ensures a <= 0xffff_f000 ==> a <= AlignUp(a) < a + 4096
    ensures a > 0xffff_f000 ==> AlignUp(a) == 0
  {
    var p, r := a / 4096, a % 4096;
    assert a == p * 4096 + r;
    PageSum(p, 0);
    PageSum(p + 1, 0);
    if a > 0xffff_f000 {
      assert p == 0xf_ffff && a + 4096 - r == 0x1_0000_0000;
    } else if r > 0 {
      WrapBelow(a + 4096 - r);
      assert AlignUp(a) == (p + 1) * 4096;
    }
  }

  method GetIndexes(va: u32) returns (res: int, directoryIndex: u32, tableIndex: u32)
    ensures res == if va % 4096 != 0 then EINVARG else OK
    ensures res == OK ==> directoryIndex == FrameOf(va) / 1024 && tableIndex == FrameOf(va) % 1024
    ensures directoryIndex * 1024 + tableIndex == if res == OK then FrameOf(va) else 0
    ensures directoryIndex < 1024 && tableIndex < 1024
    ensures res != OK ==> directoryIndex == tableIndex == 0
  {
    directoryIndex, tableIndex := 0, 0;
    if va % 4096 != 0 {
      return EINVARG, 0, 0;
    }
    var page := va / 4096;
    directoryIndex := page / 1024;
    tableIndex := page - directoryIndex * 1024;
    res := OK;
  }

  // Entries ------------------------------------------------------------------------------

  /** Writes the entry that two indexes lead to. */
  method StoreEntry(m: Machine, directory: u32, i: nat, j: nat, val: u32, ghost sp: Space, ghost flat: Flat)
    requires Maps(m.ram, sp, flat) && directory == AddressOf(sp.Dir()) && i < 1024 && j < 1024
    modifies m`ram
    ensures m.ram == SetEntry(old(m.ram), sp, i * 1024 + j, val)
    ensures Maps(m.ram, sp, flat[i * 1024 + j := val]) && OnlyTables(old(m.ram), m.ram, sp)
  {
    DirectoryPointsToTable(m.ram, sp, i);
    var table := And(Element(m.ram, directory, i), 0xfffff000);
    StoreMaps(m.ram, sp, i, j, val, flat);
    m.ram := SetElement(m.ram, table, j, val);
  }

  /** Writes one table entry, found through the directory. */
  method Set(m: Machine, directory: u32, va: u32, val: u32, ghost sp: Space, ghost flat: Flat) returns (res: int)
    requires Maps(m.ram, sp, flat) && directory == AddressOf(sp.Dir())
    modifies m`ram
    ensures res == if va % 4096 != 0 then EINVARG else OK
    ensures res != OK ==> m.ram == old(m.ram)
    ensures res == OK ==> m.ram == SetEntry(old(m.ram), sp, FrameOf(va), val)
    ensures res == OK ==> Maps(m.ram, sp, flat[FrameOf(va) := val])
    ensures OnlyTables(old(m.ram), m.ram, sp)
  {
    if va % 4096 != 0 {
      return EINVARG;
    }
    var i, j;
    res, i, j := GetIndexes(va);
    if res < 0 {
      return;
    }
    StoreEntry(m, directory, i, j, val, sp, flat);
  }

  /** Reads one table entry. The indexes of an unaligned address stay zero. */
  method GetTableEntry(m: Machine, directory: u32, va: u32, ghost sp: Space, ghost flat: Flat) returns (entry: u32)
    requires Maps(m.ram, sp, flat) && directory == AddressOf(sp.Dir())
    ensures entry == flat[if va % 4096 == 0 then FrameOf(va) else 0]
  {
    var res, i, j := GetIndexes(va);
    DirectoryPointsToTable(m.ram, sp, i);
    var table := And(Element(m.ram, directory, i), 0xfffff000);
    ghost var p: Page := i * 1024 + j;
    assert p == (if va % 4096 == 0 then FrameOf(va) else 0) && Walk(m.ram, sp.Dir(), p) == flat[p];
    TableElement(m.ram, sp, i, j);
    entry := Element(m.ram, table, j);
  }

  /** Maps one page. The record leads to the directory. */
  method Map(m: Machine, chunk: u32, virt: u32, phys: u32, flags: int, ghost sp: Space, ghost flat: Flat)
    returns (res: int)
    requires Maps(m.ram, sp, flat) && chunk == AddressOf(sp.Chunk())
    modifies m`ram
    ensures res == if virt % 4096 == 0 && phys % 4096 == 0 then OK else EINVARG
    ensures res != OK ==> m.ram == old(m.ram)
    ensures res == OK ==> m.ram == SetEntry(old(m.ram), sp, FrameOf(virt), Or(phys, Wrap(flags)))
    ensures res == OK ==> Maps(m.ram, sp, flat[FrameOf(virt) := Or(phys, Wrap(flags))])
    ensures OnlyTables(old(m.ram), m.ram, sp)
  {
    if virt % 4096 != 0 || phys % 4096 != 0 {
      return EINVARG;
    }
    RecordPointsToDirectory(m.ram, sp);
    var directory := Element(m.ram, chunk, 0);
    res := Set(m, directory, virt, Or(phys, Wrap(flags)), sp, flat);
  }

  // Runs of calls on several address spaces ------------------------------------------------------

  /** A call that writes one entry of one of the address spaces. */
  datatype Call = SetCall(space: nat, va: u32, val: u32) | MapCall(space: nat, virt: u32, phys: u32, flags: int)

  /** The entry that a call writes, if its addresses are aligned. */
  function UpdateOf(call: Call): seq<Update> {
    match call
    case SetCall(space, va, val) =>
      if va % 4096 == 0 then [Update(space, FrameOf(va), val)] else []
    case MapCall(space, virt, phys, flags) =>
      if virt % 4096 == 0 && phys % 4096 == 0 then [Update(space, FrameOf(virt), Or(phys, Wrap(flags)))] else []
  }

  function UpdatesOf(calls: seq<Call>): seq<Update> {
    if calls == [] then [] else UpdatesOf(calls[..|calls| - 1]) + UpdateOf(calls[|calls| - 1])
  }

  lemma {:induction false} UpdatesInRange(calls: seq<Call>, n: nat)
    requires forall c | c in calls :: c.space < n
    ensures forall u | u in UpdatesOf(calls) :: u.space < n
  {
    if calls != [] {
      UpdatesInRange(calls[..|calls| - 1], n);
    }
  }

  /** One call, as an update or none of its address space. */
  method Perform(m: Machine, chunk: u32, call: Call, ghost sp: Space, ghost flat: Flat)
    requires Maps(m.ram, sp, flat) && chunk == AddressOf(sp.Chunk())
    modifies m`ram
    ensures m.ram == if UpdateOf(call) == [] then old(m.ram)
                     else SetEntry(old(m.ram), sp, UpdateOf(call)[0].page, UpdateOf(call)[0].entry)
  {
    var res;
    match call
    case SetCall(_, va, val) =>
      RecordPointsToDirectory(m.ram, sp);
      res := Set(m, Element(m.ram, chunk, 0), va, val, sp, flat);
    case MapCall(_, virt, phys, flags) =>
      res := Map(m, chunk, virt, phys, flags, sp, flat);
  }

  /** Address spaces that share one memory and no frame, with a flat map for each. */
  ghost predicate Together(m: Ram, spaces: seq<Space>, flats: seq<Flat>) {
    && |flats| == |spaces|
    && (forall i | 0 <= i < |spaces| :: Maps(m, spaces[i], flats[i]))
    && forall i, j | 0 <= i < |spaces| && 0 <= j < |spaces| && i != j :: Apart(spaces[i], spaces[j])
  }

  /** Any sequence of calls on any of them: memory is as after their updates, and each refines its own flat map. */
  method PerformAll(m: Machine, chunks: seq<u32>, calls: seq<Call>, ghost spaces: seq<Space>, ghost flats: seq<Flat>)
    requires Together(m.ram, spaces, flats) && |chunks| == |spaces|
    requires forall i | 0 <= i < |chunks| :: chunks[i] == AddressOf(spaces[i].Chunk())
    requires forall c | c in calls :: c.space < |spaces|
    modifies m`ram
    ensures forall u | u in UpdatesOf(calls) :: u.space < |spaces|
    ensures m.ram == UpdateAll(old(m.ram), spaces, UpdatesOf(calls))
    ensures forall i | 0 <= i < |spaces| :: Maps(m.ram, spaces[i], FlatAfter(UpdatesOf(calls), i, flats[i]))
  {
    for i := 0 to |calls|
      invariant forall u | u in UpdatesOf(calls[..i]) :: u.space < |spaces|
      invariant m.ram == UpdateAll(old(m.ram), spaces, UpdatesOf(calls[..i]))
    {
      ghost var s := calls[i].space;
      UpdatesRefineFlatMaps(old(m.ram), spaces, UpdatesOf(calls[..i]), s, flats[s]);
      Perform(m, chunks[calls[i].space], calls[i], spaces[s], FlatAfter(UpdatesOf(calls[..i]), s, flats[s]));
      NextUpdate(old(m.ram), spaces, calls, i);
    }
    assert calls[..|calls|] == calls;
    forall i | 0 <= i < |spaces|
      ensures Maps(m.ram, spaces[i], FlatAfter(UpdatesOf(calls), i, flats[i]))
    {
      UpdatesRefineFlatMaps(old(m.ram), spaces, UpdatesOf(calls), i, flats[i]);
    }
  }

  lemma NextUpdate(m: Ram, spaces: seq<Space>, calls: seq<Call>, i: nat)
    requires i < |calls| && forall k | 0 <= k < |spaces| :: spaces[k].Shaped()
    requires forall c | c in calls :: c.space < |spaces|
    ensures forall u | u in UpdatesOf(calls[..i]) + UpdatesOf(calls[..i + 1]) :: u.space < |spaces|
    ensures var before, u := UpdateAll(m, spaces, UpdatesOf(calls[..i])), UpdateOf(calls[i]);
            UpdateAll(m, spaces, UpdatesOf(calls[..i + 1])) ==
            if u == [] then before else SetEntry(before, spaces[calls[i].space], u[0].page, u[0].entry)
  {
    assert calls[..i + 1][..i] == calls[..i];
    UpdatesInRange(calls[..i], |spaces|);
    UpdatesInRange(calls[..i + 1], |spaces|);
    var us, u := UpdatesOf(calls[..i]), UpdateOf(calls[i]);
    assert UpdatesOf(calls[..i + 1]) == us + u;
    if u == [] {
      assert us + u == us;
    } else {
      assert (us + u)[..|us|] == us;
    }
  }

  // Ranges ---------------------------------------------------------------------------------

  /** The entry for the d-th page of a range. */
  function RangeEntry(phys: u32, d: nat, flags: int): u32 {
    Or(Wrap(phys + 4096 * d), Wrap(flags))
  }

  /** The page d steps after virt; the address space wraps. */
  function PageAfter(virt: Page, d: nat): Page {
    (virt + d) % 0x10_0000
  }

  /** A flat map after count pages from virt on are mapped, one after the other. */
  function MapPages(flat: Flat, virt: Page, phys: u32, count: nat, flags: int): Flat {
    if count == 0 then flat
    else MapPages(flat, virt, phys, count - 1, flags)[PageAfter(virt, count - 1) := RangeEntry(phys, count - 1, flags)]
  }

  /** The number of steps from virt to a page, going up and around. */
  function Distance(virt: Page, q: Page): (d: nat)
    ensures d < 0x10_0000 && PageAfter(virt, d) == q
  {
    (q - virt) % 0x10_0000
  }

  /** After a full lap around the address space a range comes back to the same page and the same entry. */
  lemma RangeWraps(virt: Page, phys: u32, n: nat, flags: int)
    ensures PageAfter(virt, n) == PageAfter(virt, n % 0x10_0000)
    ensures RangeEntry(phys, n, flags) == RangeEntry(phys, n % 0x10_0000, flags)
  {
    var d, laps := n % 0x10_0000, n / 0x10_0000;
    assert phys + 4096 * n == phys + 4096 * d + laps * 0x1_0000_0000;
    WrapLaps(phys + 4096 * d, laps);
  }

  lemma DistanceUnique(virt: Page, d: nat)
    requires d < 0x10_0000
    ensures Distance(virt, PageAfter(virt, d)) == d
  {
  }

  /** The n-th step of a range reaches page q exactly when n is the distance of q, up to full laps. */
  lemma StepReaches(virt: Page, n: nat, q: Page)
    ensures q == PageAfter(virt, n) <==> Distance(virt, q) == n % 0x10_0000
  {
    RangeWraps(virt, 0, n, 0);
    DistanceUnique(virt, n % 0x10_0000);
  }

  lemma StepsWithin(virt: Page, n: nat, q: Page)
    ensures Distance(virt, q) < n + 1 <==> Distance(virt, q) < n || q == PageAfter(virt, n)
    ensures q == PageAfter(virt, n) ==> Distance(virt, q) == n % 0x10_0000
  {
    StepReaches(virt, n, q);
  }

  /**
    A range in closed form: exactly the pages less than count steps from virt are mapped, each to the frame as many
    steps from phys. This holds even when the range wraps, and when it is longer than the address space.
  */
  lemma {:induction false} MapPagesAt(flat: Flat, virt: Page, phys: u32, count: nat, flags: int, q: Page)
    ensures MapPages(flat, virt, phys, count, flags)[q] ==
            if Distance(virt, q) < count then RangeEntry(phys, Distance(virt, q), flags) else flat[q]
  {
    if count > 0 {
      MapPagesAt(flat, virt, phys, count - 1, flags, q);
      RangeWraps(virt, phys, count - 1, flags);
      StepsWithin(virt, count - 1, q);
    }
  }

  /** The address i pages after another; addresses wrap. */
  function AddressAfter(a: u32, i: nat): u32 {
    Wrap(a + 4096 * i)
  }

  lemma AddressAfterNext(a: u32, i: nat)
    ensures AddressAfter(AddressAfter(a, i), 1) == AddressAfter(a, i + 1)
  {
    var x := a + 4096 * i;
    WrapAdd(x, 4096);
    assert x + 4096 == a + 4096 * (i + 1);
  }

  lemma AddressAfterAligned(a: u32, i: nat)
    ensures AddressAfter(a, i) % 4096 == a % 4096
    ensures a % 4096 == 0 ==> FrameOf(AddressAfter(a, i)) == PageAfter(FrameOf(a), i)
  {
    var laps, d := (FrameOf(a) + i) / 0x10_0000, (FrameOf(a) + i) % 0x10_0000;
    assert a + 4096 * i == 4096 * d + a % 4096 + laps * 0x1_0000_0000;
    WrapLaps(4096 * d + a % 4096, laps);
  }

  lemma OnlyTablesTrans(m: Ram, m1: Ram, m2: Ram, sp: Space)
    requires OnlyTables(m, m1, sp) && OnlyTables(m1, m2, sp)
    ensures OnlyTables(m, m2, sp)
  {
    forall f: Page, k | 0 <= k < 1024 && !IsTable(sp, f)
      ensures FrameWord(m2, f, k) == FrameWord(m, f, k)
    {
      assert FrameWord(m1, f, k) == FrameWord(m, f, k);
    }
  }

  method MapRange(m: Machine, chunk: u32, virt: u32, phys: u32, count: int, flags: int,
                  ghost sp: Space, ghost flat: Flat) returns (res: int)
    requires Maps(m.ram, sp, flat) && chunk == AddressOf(sp.Chunk())
    modifies m`ram
    ensures res == if count <= 0 || (virt % 4096 == 0 && phys % 4096 == 0) then OK else EINVARG
    ensures res != OK || count <= 0 ==> m.ram == old(m.ram)
    ensures res == OK && count > 0 ==> Maps(m.ram, sp, MapPages(flat, FrameOf(virt), phys, count, flags))
    ensures OnlyTables(old(m.ram), m.ram, sp)
  {
    res := OK;
    var v, p := virt, phys;
    ghost var now := flat;
    assert AddressAfter(virt, 0) == virt && AddressAfter(phys, 0) == phys;
    for i := 0 to if count > 0 then count else 0
      invariant i == 0 ==> m.ram == old(m.ram)
      invariant i > 0 ==> virt % 4096 == 0 && phys % 4096 == 0
      invariant v == AddressAfter(virt, i) && p == AddressAfter(phys, i)
      invariant res == OK && now == MapPages(flat, FrameOf(virt), phys, i, flags)
      invariant Maps(m.ram, sp, now) && OnlyTables(old(m.ram), m.ram, sp)
    {
      AddressAfterAligned(virt, i);
      AddressAfterAligned(phys, i);
      AddressAfterNext(virt, i);
      AddressAfterNext(phys, i);
      ghost var before := m.ram;
      res := Map(m, chunk, v, p, flags, sp, now);
      OnlyTablesTrans(old(m.ram), before, m.ram, sp);
      if res < 0 {
        break;
      }
      now := MapPages(flat, FrameOf(virt), phys, i + 1, flags);
      v := AddressAfter(v, 1);
      p := AddressAfter(p, 1);
    }
  }

  predicate MapToAccepts(virt: u32, phys: u32, physEnd: u32) {
    virt % 4096 == 0 && phys % 4096 == 0 && physEnd % 4096 == 0 && phys <= physEnd
  }

  /** A flat map after the range from phys to physEnd is mapped at virt. */
  function MapBetween(flat: Flat, virt: u32, phys: u32, physEnd: u32, flags: int): Flat
    requires phys <= physEnd
  {
    MapPages(flat, FrameOf(virt), phys, (physEnd - phys) / 4096, flags)
  }

  /** Maps the pages from phys to physEnd at virt, or nothing at all. */
  method MapTo(m: Machine, chunk: u32, virt: u32, phys: u32, physEnd: u32, flags: int,
               ghost sp: Space, ghost flat: Flat) returns (res: int)
    requires Maps(m.ram, sp, flat) && chunk == AddressOf(sp.Chunk())
    modifies m`ram
    ensures res == if MapToAccepts(virt, phys, physEnd) then OK else EINVARG
    ensures res != OK ==> m.ram == old(m.ram)
    ensures res == OK ==> Maps(m.ram, sp, MapBetween(flat, virt, phys, physEnd, flags))
    ensures OnlyTables(old(m.ram), m.ram, sp)
  {
    res := OK;
    if virt % 4096 != 0 {
      return EINVARG;
    }
    if phys % 4096 != 0 {
      return EINVARG;
    }
    if physEnd % 4096 != 0 {
      return EINVARG;
    }
    if physEnd < phys {
      return EINVARG;
    }
    var bytes := physEnd - phys;
    var pages := bytes / 4096;
    res := MapRange(m, chunk, virt, phys, pages, flags, sp, flat);
  }
}
