/**
  Program images: the headers that src/loader/formats/elfloader.c and src/task/process.c read, and the flat map that
  mapping all segments leads to.
*/
module Loader {
  import opened Words
  import opened AddressSpaces
  import opened Paging
  import opened Chunks
  import opened Strings

  /** The fields of a program header that the loader uses. */
  datatype Phdr = Phdr(offset: u32, vaddr: u32, filesz: u32, flags: u32)

  const PF_W := 2

  // Constants of src/config.h.
  const STACK_SIZE := 16384
  const STACK_TOP := 0x3f_b000
  const PROGRAM_BASE := 0x40_0000

  /** Where a segment's bytes are in physical memory. */
  function PhysOf(elf: u32, ph: Phdr): u32 {
    Wrap(elf + ph.offset)
  }

  function PhysEnd(elf: u32, ph: Phdr): u32 {
    AlignUp(Wrap(PhysOf(elf, ph) + ph.filesz))
  }

  function PageFlags(ph: Phdr): int {
    PRESENT + USER + (if HasFlag(ph.flags, PF_W) then WRITABLE else 0)
  }

  predicate SegmentAccepts(elf: u32, ph: Phdr) {
    MapToAccepts(AlignDown(ph.vaddr), AlignDown(PhysOf(elf, ph)), PhysEnd(elf, ph))
  }

  function SegmentPages(elf: u32, ph: Phdr): nat
    requires SegmentAccepts(elf, ph)
  {
    (PhysEnd(elf, ph) - AlignDown(PhysOf(elf, ph))) / 4096
  }

  function MapSegment(flat: Flat, elf: u32, ph: Phdr): Flat
    requires SegmentAccepts(elf, ph)
  {
    MapBetween(flat, AlignDown(ph.vaddr), AlignDown(PhysOf(elf, ph)), PhysEnd(elf, ph), PageFlags(ph))
  }

  /** The flat map after the first n segments in order, up to the first that is not accepted. */
  function MapSegments(flat: Flat, elf: u32, phs: seq<Phdr>, n: nat): (int, Flat)
    requires n <= |phs|
  {
    if n == 0 then (OK, flat) else
      var (res, before) := MapSegments(flat, elf, phs, n - 1);
      if res != OK then (res, before)
      else if SegmentAccepts(elf, phs[n - 1]) then (OK, MapSegment(before, elf, phs[n - 1]))
      else (EINVARG, before)
  }

  // Well-formed images -------------------------------------------------------------------------------

  /** The first page of a segment, and the number of pages that hold its bytes. */
  function FirstPage(ph: Phdr): Page {
    ph.vaddr / 4096
  }

  function PageCount(ph: Phdr): nat {
    (ph.vaddr % 4096 + ph.filesz + 4095) / 4096
  }

  /**
    A segment as an image should have it: its address and its offset agree within a page, its pages, if it has any, lie
    at or above the program base, and it does not run over the end of memory on either side.
  */
  predicate SegmentOk(elf: u32, ph: Phdr) {
    ph.vaddr % 4096 == ph.offset % 4096 && (PageCount(ph) == 0 || PROGRAM_BASE <= ph.vaddr) && InMemory(elf, ph)
  }

  predicate InMemory(elf: u32, ph: Phdr) {
    ph.vaddr + ph.filesz <= 0x1_0000_0000 && elf + ph.offset + ph.filesz <= 0xffff_f000
  }

  predicate InPages(ph: Phdr, q: Page) {
    FirstPage(ph) <= q < FirstPage(ph) + PageCount(ph)
  }

  predicate ImageOk(elf: u32, phs: seq<Phdr>) {
    elf % 4096 == 0 && forall i | 0 <= i < |phs| :: SegmentOk(elf, phs[i])
  }

  /** The last of the first n segments that has a page, or -1. Headers of every kind are mapped, one over the other. */
  function LastCovering(phs: seq<Phdr>, n: nat, q: Page): (c: int)
    requires n <= |phs|
    ensures -1 <= c < n && (c >= 0 ==> InPages(phs[c], q))
  {
    if n == 0 then -1
    else if InPages(phs[n - 1], q) then n - 1
    else LastCovering(phs, n - 1, q)
  }

  function Covering(phs: seq<Phdr>, q: Page): (c: int)
    ensures -1 <= c < |phs|
  {
    LastCovering(phs, |phs|, q)
  }

  lemma {:induction false} NotBeforeLast(phs: seq<Phdr>, n: nat, q: Page, i: nat)
    requires i < n <= |phs| && InPages(phs[i], q)
    ensures LastCovering(phs, n, q) >= i
  {
    if i < n - 1 {
      NotBeforeLast(phs, n - 1, q, i);
    }
  }

  /** No segment behind it has the page. */
  lemma CoveringIsLast(phs: seq<Phdr>, q: Page, i: nat)
    requires i < |phs| && InPages(phs[i], q)
    ensures Covering(phs, q) >= i
  {
    NotBeforeLast(phs, |phs|, q, i);
  }

  /** The pages of different segments are different. */
  ghost predicate Disjoint(phs: seq<Phdr>) {
    forall i, j, q | 0 <= i < |phs| && 0 <= j < |phs| && InPages(phs[i], q) && InPages(phs[j], q) :: i == j
  }

  /** Two segments put the bytes of the file at the same addresses. */
  predicate SameShift(a: Phdr, b: Phdr) {
    a.offset - a.vaddr == b.offset - b.vaddr
  }

  /** The entry of a page of a segment: the frame as far from the segment's first one. */
  function SegmentEntry(elf: u32, ph: Phdr, q: Page): u32
    requires InPages(ph, q)
  {
    RangeEntry(AlignDown(PhysOf(elf, ph)), q - FirstPage(ph), PageFlags(ph))
  }

  lemma AlignUpIs(a: nat)
    requires a <= 0xffff_f000
    ensures AlignUp(a) == (a + 4095) / 4096 * 4096
  {
  }

  /** The pages between the aligned ends of n bytes at a are those that the bytes touch. */
  lemma PagesBetween(a: nat, n: nat)
    requires a + n <= 0xffff_f000
    ensures AlignDown(a) <= AlignUp(a + n)
    ensures (AlignUp(a + n) - AlignDown(a)) / 4096 == (a % 4096 + n + 4095) / 4096
  {
    AlignUpIs(a + n);
    var u, d := (a + n + 4095) / 4096, a / 4096;
    assert AlignDown(a) == d * 4096 && a % 4096 == a - d * 4096;
    assert (u * 4096 - d * 4096) / 4096 == u - d;
    assert (a + n + 4095 - d * 4096) / 4096 == u - d;
  }

  /** The range for n bytes at v that are in memory at a, equally far into their pages. */
  lemma RangeExtent(v: u32, a: nat, n: nat)
    requires v % 4096 == a % 4096 && a + n <= 0xffff_f000
    ensures MapToAccepts(AlignDown(v), AlignDown(a), AlignUp(a + n))
    ensures (AlignUp(a + n) - AlignDown(a)) / 4096 == (v % 4096 + n + 4095) / 4096
    ensures FrameOf(AlignDown(v)) == v / 4096
  {
    AlignedFrame(v);
    AlignedFrame(a);
    AlignmentBounds(a + n);
    PagesBetween(a, n);
  }

  lemma PhysIs(elf: u32, ph: Phdr)
    requires elf + ph.offset + ph.filesz <= 0xffff_f000
    ensures PhysOf(elf, ph) == elf + ph.offset && PhysEnd(elf, ph) == AlignUp(elf + ph.offset + ph.filesz)
  {
    WrapBelow(elf + ph.offset);
    WrapBelow(elf + ph.offset + ph.filesz);
  }

  lemma ExtentIs(elf: u32, ph: Phdr, phys: u32, end: u32)
    requires phys == PhysOf(elf, ph) && end == PhysEnd(elf, ph)
    requires MapToAccepts(AlignDown(ph.vaddr), AlignDown(phys), end)
    ensures SegmentAccepts(elf, ph) && SegmentPages(elf, ph) == (end - AlignDown(phys)) / 4096
  {
  }

  lemma SameRemainder(elf: nat, offset: nat)
    requires elf % 4096 == 0
    ensures (elf + offset) % 4096 == offset % 4096
  {
  }

  lemma OffsetsAgree(elf: u32, ph: Phdr)
    requires elf % 4096 == 0 && SegmentOk(elf, ph)
    ensures ph.vaddr % 4096 == (elf + ph.offset) % 4096 && elf + ph.offset + ph.filesz <= 0xffff_f000
  {
    SameRemainder(elf, ph.offset);
  }

  lemma SegmentExtent(elf: u32, ph: Phdr)
    requires elf % 4096 == 0 && SegmentOk(elf, ph)
    ensures PhysOf(elf, ph) == elf + ph.offset
    ensures SegmentAccepts(elf, ph) && SegmentPages(elf, ph) == PageCount(ph)
    ensures FrameOf(AlignDown(ph.vaddr)) == FirstPage(ph)
  {
    OffsetsAgree(elf, ph);
    PhysIs(elf, ph);
    RangeExtent(ph.vaddr, elf + ph.offset, ph.filesz);
    ExtentIs(elf, ph, elf + ph.offset, AlignUp(elf + ph.offset + ph.filesz));
  }

  lemma AlignedFrame(a: u32)
    ensures AlignDown(a) % 4096 == 0 && FrameOf(AlignDown(a)) == a / 4096
  {
  }

  lemma SegmentFits(elf: u32, ph: Phdr)
    requires SegmentOk(elf, ph)
    ensures FirstPage(ph) + PageCount(ph) <= 0x10_0000
  {
    assert ph.vaddr == FirstPage(ph) * 4096 + ph.vaddr % 4096;
  }

  /** Without wrapping, the pages less than n steps away are those from the first to the last. */
  lemma DistanceFrom(first: Page, n: nat, q: Page)
    requires first + n <= 0x10_0000
    ensures Distance(first, q) < n <==> first <= q < first + n
    ensures first <= q ==> Distance(first, q) == q - first
  {
  }

  lemma EntryInRange(entry: u32, before: u32, first: Page, phys: u32, n: nat, flags: int, q: Page, d: nat)
    requires (d < n <==> first <= q < first + n) && (first <= q ==> d == q - first)
    requires entry == if d < n then RangeEntry(phys, d, flags) else before
    ensures entry == if first <= q < first + n then RangeEntry(phys, q - first, flags) else before
  {
  }

  /** A range that does not wrap, in closed form. */
  lemma RangeMaps(flat: Flat, first: Page, phys: u32, n: nat, flags: int, q: Page)
    requires first + n <= 0x10_0000
    ensures MapPages(flat, first, phys, n, flags)[q] ==
            if first <= q < first + n then RangeEntry(phys, q - first, flags) else flat[q]
  {
    MapPagesAt(flat, first, phys, n, flags, q);
    DistanceFrom(first, n, q);
    EntryInRange(MapPages(flat, first, phys, n, flags)[q], flat[q], first, phys, n, flags, q, Distance(first, q));
  }

  /** A segment that runs so far over the end of memory that its last page ends before its first one starts. */
  predicate RunsOver(elf: u32, ph: Phdr) {
    PhysEnd(elf, ph) < AlignDown(PhysOf(elf, ph))
  }

  /** These are the segments that are not accepted. */
  lemma AcceptedIff(elf: u32, ph: Phdr)
    ensures SegmentAccepts(elf, ph) <==> !RunsOver(elf, ph)
  {
    AlignmentBounds(ph.vaddr);
    AlignmentBounds(PhysOf(elf, ph));
    AlignmentBounds(Wrap(PhysOf(elf, ph) + ph.filesz));
  }

  lemma NextResult(flat: Flat, elf: u32, phs: seq<Phdr>, n: nat)
    requires 0 < n <= |phs|
    ensures var before := MapSegments(flat, elf, phs, n - 1).0;
            MapSegments(flat, elf, phs, n).0 ==
            if before != OK then before else if RunsOver(elf, phs[n - 1]) then EINVARG else OK
  {
    AcceptedIff(elf, phs[n - 1]);
  }

  lemma OneMoreAccepted(elf: u32, phs: seq<Phdr>, n: nat, before: int, res: int)
    requires 0 < n <= |phs| && before in {OK, EINVARG}
    requires before == OK <==> forall i | 0 <= i < n - 1 :: !RunsOver(elf, phs[i])
    requires res == if before != OK then before else if RunsOver(elf, phs[n - 1]) then EINVARG else OK
    ensures res in {OK, EINVARG} && (res == OK <==> forall i | 0 <= i < n :: !RunsOver(elf, phs[i]))
  {
  }

  /** Mapping segments ends well exactly when none of them runs over. */
  lemma {:induction false} SegmentsAcceptedIff(flat: Flat, elf: u32, phs: seq<Phdr>, n: nat)
    requires n <= |phs|
    ensures MapSegments(flat, elf, phs, n).0 in {OK, EINVARG}
    ensures MapSegments(flat, elf, phs, n).0 == OK <==> forall i | 0 <= i < n :: !RunsOver(elf, phs[i])
  {
    if n > 0 {
      SegmentsAcceptedIff(flat, elf, phs, n - 1);
      NextResult(flat, elf, phs, n);
      OneMoreAccepted(elf, phs, n, MapSegments(flat, elf, phs, n - 1).0, MapSegments(flat, elf, phs, n).0);
    }
  }

  /** A concrete image that is refused: one segment of 4080 MiB in a file at 16 MiB. */
  lemma RefusedExample(flat: Flat, ph: Phdr)
    requires ph == Phdr(0, PROGRAM_BASE, 0xff00_0000, 5)
    ensures RunsOver(0x100_0000, ph) && MapSegments(flat, 0x100_0000, [ph], 1).0 == EINVARG
  {
    EndsAtZero(0x100_0000, ph);
    assert !([ph][0] == ph && !RunsOver(0x100_0000, [ph][0]));
    SegmentsAcceptedIff(flat, 0x100_0000, [ph], 1);
  }

  lemma EndsAtZero(elf: u32, ph: Phdr)
    requires ph.offset == 0 && elf >= 4096 && elf + ph.filesz == 0x1_0000_0000
    ensures RunsOver(elf, ph)
  {
    assert PhysOf(elf, ph) == elf && Wrap(elf + ph.filesz) == 0;
    assert AlignUp(0) == 0;
    AlignmentBounds(elf);
    assert AlignDown(elf) > 0;
  }

  lemma BetweenMaps(flat: Flat, virt: u32, phys: u32, end: u32, flags: int, first: Page, n: nat, q: Page)
    requires phys <= end && FrameOf(virt) == first && (end - phys) / 4096 == n && first + n <= 0x10_0000
    ensures MapBetween(flat, virt, phys, end, flags)[q] ==
            if first <= q < first + n then RangeEntry(phys, q - first, flags) else flat[q]
  {
    RangeMaps(flat, first, phys, n, flags, q);
  }

  /** A well-formed segment is accepted and maps exactly its own pages. */
  lemma SegmentMaps(flat: Flat, elf: u32, ph: Phdr, q: Page)
    requires elf % 4096 == 0 && SegmentOk(elf, ph)
    ensures SegmentAccepts(elf, ph)
    ensures MapSegment(flat, elf, ph)[q] == if InPages(ph, q) then SegmentEntry(elf, ph, q) else flat[q]
  {
    SegmentExtent(elf, ph);
    SegmentFits(elf, ph);
    BetweenMaps(flat, AlignDown(ph.vaddr), AlignDown(PhysOf(elf, ph)), PhysEnd(elf, ph), PageFlags(ph), FirstPage(ph),
                PageCount(ph), q);
  }

  lemma NextSegment(flat: Flat, elf: u32, phs: seq<Phdr>, n: nat)
    requires 0 < n <= |phs| && MapSegments(flat, elf, phs, n - 1).0 == OK
    ensures SegmentAccepts(elf, phs[n - 1]) ==>
              MapSegments(flat, elf, phs, n) ==
              (OK, MapSegment(MapSegments(flat, elf, phs, n - 1).1, elf, phs[n - 1]))
  {
  }

  lemma NextEntry(flat: Flat, elf: u32, phs: seq<Phdr>, n: nat, q: Page)
    requires ImageOk(elf, phs) && 0 < n <= |phs| && MapSegments(flat, elf, phs, n - 1).0 == OK
    ensures MapSegments(flat, elf, phs, n).0 == OK
    ensures MapSegments(flat, elf, phs, n).1[q] ==
            if InPages(phs[n - 1], q) then SegmentEntry(elf, phs[n - 1], q)
            else MapSegments(flat, elf, phs, n - 1).1[q]
  {
    assert SegmentOk(elf, phs[n - 1]);
    SegmentMaps(MapSegments(flat, elf, phs, n - 1).1, elf, phs[n - 1], q);
    NextSegment(flat, elf, phs, n);
  }

  lemma OneMoreMapped(elf: u32, phs: seq<Phdr>, n: nat, q: Page, flatEntry: u32, before: u32, entry: u32)
    requires 0 < n <= |phs|
    requires var c := LastCovering(phs, n - 1, q); before == if c >= 0 then SegmentEntry(elf, phs[c], q) else flatEntry
    requires entry == if InPages(phs[n - 1], q) then SegmentEntry(elf, phs[n - 1], q) else before
    ensures var c := LastCovering(phs, n, q); entry == if c >= 0 then SegmentEntry(elf, phs[c], q) else flatEntry
  {
  }

  /**
    All segments of a well-formed image are accepted. Each page has the entry of the last segment that has it, and a
    page of no segment does not change.
  */
  lemma {:induction false} SegmentsMap(flat: Flat, elf: u32, phs: seq<Phdr>, n: nat, q: Page)
    requires ImageOk(elf, phs) && n <= |phs|
    ensures MapSegments(flat, elf, phs, n).0 == OK
    ensures var c := LastCovering(phs, n, q);
            MapSegments(flat, elf, phs, n).1[q] == if c >= 0 then SegmentEntry(elf, phs[c], q) else flat[q]
  {
    if n > 0 {
      SegmentsMap(flat, elf, phs, n - 1, q);
      NextEntry(flat, elf, phs, n, q);
      OneMoreMapped(elf, phs, n, q, flat[q], MapSegments(flat, elf, phs, n - 1).1[q],
                    MapSegments(flat, elf, phs, n).1[q]);
    }
  }

  // A loaded program ------------------------------------------------------------------------------------

  const FULL_ACCESS := 7

  /** The flat map of a loaded program: the identity, the segments, and the stack below them. */
  function LoadedFlat(elf: u32, phs: seq<Phdr>, stack: u32): Flat {
    MapPages(MapSegments(IdentityFlat(5), elf, phs, |phs|).1, FrameOf(STACK_TOP), stack, STACK_SIZE / 4096, FULL_ACCESS)
  }

  predicate InStack(q: Page) {
    0x3fb <= q < 0x3ff
  }

  predicate StackOk(stack: u32) {
    stack % 4096 == 0 && stack + STACK_SIZE <= 0xffff_f000
  }

  lemma StackMaps(flat: Flat, stack: u32, q: Page)
    ensures MapPages(flat, FrameOf(STACK_TOP), stack, STACK_SIZE / 4096, FULL_ACCESS)[q] ==
            if InStack(q) then RangeEntry(stack, q - 0x3fb, FULL_ACCESS) else flat[q]
  {
    assert FrameOf(STACK_TOP) == 0x3fb && STACK_SIZE / 4096 == 4;
    RangeMaps(flat, 0x3fb, stack, 4, FULL_ACCESS, q);
  }

  lemma LoadedAt(elf: u32, phs: seq<Phdr>, stack: u32, q: Page)
    ensures LoadedFlat(elf, phs, stack)[q] ==
            if InStack(q) then RangeEntry(stack, q - 0x3fb, FULL_ACCESS)
            else MapSegments(IdentityFlat(5), elf, phs, |phs|).1[q]
  {
    StackMaps(MapSegments(IdentityFlat(5), elf, phs, |phs|).1, stack, q);
  }

  lemma SumParts(f: Page, flags: nat)
    requires flags < 4096
    ensures FrameOf(f * 4096 + flags) == f
    ensures HasFlag(f * 4096 + flags, PRESENT) <==> HasFlag(flags, PRESENT)
    ensures HasFlag(f * 4096 + flags, WRITABLE) <==> HasFlag(flags, WRITABLE)
    ensures HasFlag(f * 4096 + flags, USER) <==> HasFlag(flags, USER)
  {
    PageSum(f, flags);
    HalfSum(f * 2048, flags);
    HalfSum(f * 1024, flags / 2);
    QuarterSum(f * 1024, flags);
    HalfSum(f * 512, flags / 4);
  }

  /** An entry made of a page and flags leads to the page and shows the flags. */
  lemma EntryParts(page: u32, flags: u32)
    requires page % 4096 == 0 && flags < 4096
    ensures AddressOf(FrameOf(Or(page, flags))) == page
    ensures HasFlag(Or(page, flags), PRESENT) <==> HasFlag(flags, PRESENT)
    ensures HasFlag(Or(page, flags), WRITABLE) <==> HasFlag(flags, WRITABLE)
    ensures HasFlag(Or(page, flags), USER) <==> HasFlag(flags, USER)
  {
    SumParts(page / 4096, flags);
    assert Or(page, flags) == page / 4096 * 4096 + flags by { OrFlags(page, 0, flags); }
  }

  /** What user code may do with a byte. */
  datatype Access = NoAccess | ReadOnly | ReadWrite

  function AccessOf(present: bool, user: bool, writable: bool): Access {
    if !present || !user then NoAccess else if writable then ReadWrite else ReadOnly
  }

  function EntryAccess(entry: u32): Access {
    AccessOf(HasFlag(entry, PRESENT), HasFlag(entry, USER), HasFlag(entry, WRITABLE))
  }

  /** An entry lets user code read, and write exactly when told so. */
  predicate Accessible(entry: u32, writable: bool) {
    EntryAccess(entry) == AccessOf(true, true, writable)
  }

  /** What an entry of a segment means for the bytes of its page. */
  lemma SegmentByteIn(flat: Flat, elf: u32, ph: Phdr, va: u32)
    requires elf % 4096 == 0 && SegmentOk(elf, ph) && InPages(ph, va / 4096)
    requires flat[va / 4096] == SegmentEntry(elf, ph, va / 4096)
    ensures Via(flat, va) == elf + ph.offset + va - ph.vaddr
    ensures Accessible(flat[va / 4096], HasFlag(ph.flags, PF_W))
  {
    SegmentOffset(elf, ph, va);
    SegmentEntryParts(elf, ph, va / 4096);
  }

  /**
    Every byte of a page of any segment is where the last segment with that page puts it, user-accessible, and writable
    exactly when that segment has PF_W.
  */
  lemma CoveredByte(elf: u32, phs: seq<Phdr>, stack: u32, va: u32)
    requires ImageOk(elf, phs) && Covering(phs, va / 4096) >= 0
    ensures var ph := phs[Covering(phs, va / 4096)];
            && Via(LoadedFlat(elf, phs, stack), va) == elf + ph.offset + va - ph.vaddr
            && Accessible(LoadedFlat(elf, phs, stack)[va / 4096], HasFlag(ph.flags, PF_W))
  {
    CoveredPage(elf, phs, stack, va / 4096);
    SegmentByteIn(LoadedFlat(elf, phs, stack), elf, phs[Covering(phs, va / 4096)], va);
  }

  lemma CoveredPage(elf: u32, phs: seq<Phdr>, stack: u32, q: Page)
    requires ImageOk(elf, phs) && Covering(phs, q) >= 0
    ensures LoadedFlat(elf, phs, stack)[q] == SegmentEntry(elf, phs[Covering(phs, q)], q)
  {
    SegmentsMap(IdentityFlat(5), elf, phs, |phs|, q);
    LoadedAt(elf, phs, stack, q);
    AboveStack(elf, phs[Covering(phs, q)], q);
  }

  lemma AboveStack(elf: u32, ph: Phdr, q: Page)
    requires SegmentOk(elf, ph) && InPages(ph, q)
    ensures !InStack(q)
  {
    assert PageCount(ph) > 0 && FirstPage(ph) >= 0x400;
  }

  /** A byte of a segment is where the image has it exactly when the last segment with its page puts it there, too. */
  lemma SegmentByte(elf: u32, phs: seq<Phdr>, stack: u32, i: nat, k: nat)
    requires ImageOk(elf, phs) && i < |phs| && k < phs[i].filesz
    ensures var va := phs[i].vaddr + k; var c := Covering(phs, va / 4096);
            && c >= i
            && (Via(LoadedFlat(elf, phs, stack), va) == elf + phs[i].offset + k <==> SameShift(phs[c], phs[i]))
            && Accessible(LoadedFlat(elf, phs, stack)[va / 4096], HasFlag(phs[c].flags, PF_W))
  {
    ByteInPages(phs[i], k);
    CoveringIsLast(phs, (phs[i].vaddr + k) / 4096, i);
    CoveredByte(elf, phs, stack, phs[i].vaddr + k);
  }

  /** In an image of disjoint segments that is the segment itself. */
  lemma DisjointCovering(phs: seq<Phdr>, i: nat, q: Page)
    requires Disjoint(phs) && i < |phs| && InPages(phs[i], q)
    ensures Covering(phs, q) == i
  {
    CoveringIsLast(phs, q, i);
  }

  lemma PageFlagsBits(ph: Phdr)
    ensures 0 <= PageFlags(ph) < 8 && Wrap(PageFlags(ph)) == PageFlags(ph)
    ensures Accessible(PageFlags(ph), HasFlag(ph.flags, PF_W))
  {
  }

  lemma AccessibleEntry(page: u32, flags: u32, writable: bool)
    requires page % 4096 == 0 && flags < 4096 && Accessible(flags, writable)
    ensures AddressOf(FrameOf(Or(page, flags))) == page && Accessible(Or(page, flags), writable)
  {
    EntryParts(page, flags);
  }

  lemma SegmentEntryParts(elf: u32, ph: Phdr, q: Page)
    requires InPages(ph, q) && SegmentFrame(elf, ph, q) % 4096 == 0
    ensures AddressOf(FrameOf(SegmentEntry(elf, ph, q))) == SegmentFrame(elf, ph, q)
    ensures Accessible(SegmentEntry(elf, ph, q), HasFlag(ph.flags, PF_W))
  {
    PageFlagsBits(ph);
    AccessibleEntry(SegmentFrame(elf, ph, q), PageFlags(ph), HasFlag(ph.flags, PF_W));
  }

  /** The frame address of a page of a segment. */
  function SegmentFrame(elf: u32, ph: Phdr, q: Page): u32
    requires InPages(ph, q)
  {
    Wrap(AlignDown(PhysOf(elf, ph)) + 4096 * (q - FirstPage(ph)))
  }

  lemma ByteInPages(ph: Phdr, k: nat)
    requires ph.vaddr + ph.filesz <= 0x1_0000_0000 && k < ph.filesz
    ensures InPages(ph, (ph.vaddr + k) / 4096)
  {
    var r := ph.vaddr % 4096;
    assert ph.vaddr == FirstPage(ph) * 4096 + r;
    assert (ph.vaddr + k) / 4096 == FirstPage(ph) + (r + k) / 4096;
    assert (r + k) / 4096 < (r + ph.filesz + 4095) / 4096;
  }

  /** Inside a page of a segment, a byte is as far from the segment's start as in the image. */
  lemma SegmentOffset(elf: u32, ph: Phdr, va: u32)
    requires elf % 4096 == 0 && SegmentOk(elf, ph) && InPages(ph, va / 4096)
    ensures SegmentFrame(elf, ph, va / 4096) % 4096 == 0
    ensures SegmentFrame(elf, ph, va / 4096) + va % 4096 == elf + ph.offset + va - ph.vaddr
  {
    var q := va / 4096;
    OffsetsAgree(elf, ph);
    PhysIs(elf, ph);
    OffsetInPage(ph.vaddr, elf + ph.offset, va, q - FirstPage(ph));
    FrameBelow(elf + ph.offset, ph.vaddr % 4096, ph.filesz, q - FirstPage(ph));
    SegmentFrameIs(elf, ph, q, elf + ph.offset, AlignDown(elf + ph.offset) + 4096 * (q - FirstPage(ph)));
  }

  /** The j-th page of n bytes at a starts before they end. */
  lemma FrameBelow(a: u32, r: nat, n: nat, j: nat)
    requires a % 4096 == r && j < (r + n + 4095) / 4096 && a + n <= 0xffff_f000
    ensures AlignDown(a) + 4096 * j < 0x1_0000_0000
  {
    assert 4096 * j + 4096 <= r + n + 4095;
  }

  lemma SegmentFrameIs(elf: u32, ph: Phdr, q: Page, a: u32, frame: nat)
    requires InPages(ph, q) && PhysOf(elf, ph) == a && frame == AlignDown(a) + 4096 * (q - FirstPage(ph))
    requires frame < 0x1_0000_0000
    ensures SegmentFrame(elf, ph, q) == frame
  {
    WrapBelow(frame);
  }

  lemma OffsetInPage(v: u32, a: u32, va: u32, j: int)
    requires v % 4096 == a % 4096 && j == va / 4096 - v / 4096
    ensures (AlignDown(a) + 4096 * j) % 4096 == 0 && AlignDown(a) + 4096 * j + va % 4096 == a + va - v
  {
  }

  /** What an entry with full access means for the bytes of its page. */
  lemma EntryByte(flat: Flat, va: u32, page: u32, flags: u32)
    requires flat[va / 4096] == Or(page, flags) && page % 4096 == 0 && flags < 4096 && Accessible(flags, true)
    ensures Via(flat, va) == page + va % 4096 && Accessible(flat[va / 4096], true)
  {
    AccessibleEntry(page, flags, true);
  }

  lemma FullAccess()
    ensures Accessible(FULL_ACCESS, true)
  {
  }

  lemma StackSum(stack: u32, k: nat)
    requires stack % 4096 == 0
    ensures (stack + 4096 * (k / 4096)) % 4096 == 0 && stack + 4096 * (k / 4096) + k % 4096 == stack + k
  {
  }

  lemma StackPosition(k: nat)
    requires k < STACK_SIZE
    ensures (STACK_TOP + k) / 4096 == 0x3fb + k / 4096 && (STACK_TOP + k) % 4096 == k % 4096 && k / 4096 < 4
  {
  }

  lemma StackByteIn(flat: Flat, stack: u32, k: nat)
    requires StackOk(stack) && k < STACK_SIZE
    requires flat[0x3fb + k / 4096] == Or(stack + 4096 * (k / 4096), FULL_ACCESS)
    ensures Via(flat, STACK_TOP + k) == stack + k
    ensures Accessible(flat[(STACK_TOP + k) / 4096], true)
  {
    StackPosition(k);
    FullAccess();
    StackSum(stack, k);
    EntryByte(flat, STACK_TOP + k, stack + 4096 * (k / 4096), FULL_ACCESS);
  }

  /** Every byte of the stack is in the stack block, writable. */
  lemma StackByte(elf: u32, phs: seq<Phdr>, stack: u32, k: nat)
    requires StackOk(stack) && k < STACK_SIZE
    ensures Via(LoadedFlat(elf, phs, stack), STACK_TOP + k) == stack + k
    ensures Accessible(LoadedFlat(elf, phs, stack)[(STACK_TOP + k) / 4096], true)
  {
    StackPage(elf, phs, stack, k / 4096);
    StackByteIn(LoadedFlat(elf, phs, stack), stack, k);
  }

  lemma RangeEntryIs(ptr: u32, d: nat, flags: u32)
    requires ptr + 4096 * d < 0x1_0000_0000
    ensures RangeEntry(ptr, d, flags) == Or(ptr + 4096 * d, flags)
  {
    WrapBelow(ptr + 4096 * d);
    WrapBelow(flags);
  }

  lemma StackPage(elf: u32, phs: seq<Phdr>, stack: u32, j: nat)
    requires StackOk(stack) && j < 4
    ensures LoadedFlat(elf, phs, stack)[0x3fb + j] == Or(stack + 4096 * j, FULL_ACCESS)
  {
    LoadedAt(elf, phs, stack, 0x3fb + j);
    RangeEntryIs(stack, j, FULL_ACCESS);
  }

  /** Every page that is neither in a segment nor in the stack keeps its identity entry. */
  lemma OtherPage(elf: u32, phs: seq<Phdr>, stack: u32, q: Page)
    requires ImageOk(elf, phs) && !InStack(q) && Covering(phs, q) < 0
    ensures LoadedFlat(elf, phs, stack)[q] == IdentityEntry(q, 5)
  {
    LoadedAt(elf, phs, stack, q);
    SegmentsMap(IdentityFlat(5), elf, phs, |phs|, q);
  }
}
