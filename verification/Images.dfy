/**
  Program images in words of memory (Executable and Linking Format, version 1.2, book I, sections "ELF Header" and
  "Program Header"), and what loading makes of them. The word numbers are those of the file in memory: e_phoff is word 7
  of a file, e_phnum the low half of word 11, and a program header is eight words, of which word 1 is p_offset, word 2
  p_vaddr, word 4 p_filesz and word 6 p_flags.
*/
module Images {
  import opened Words
  import opened Memory
  import opened AddressSpaces
  import opened Paging
  import opened Loader
  import opened Processes
  import opened Programs

  // Headers ------------------------------------------------------------------------------------------------

  lemma WordLoad(m: Ram, a: nat, w: nat)
    requires a == 4 * w && w < 0x4000_0000
    ensures Load32(m, Wrap(a)) == m[w] && Load16(m, Wrap(a)) == m[w] % 0x1_0000
  {
    WrapBelow(a);
    AlignedLoads(m, a);
  }

  lemma HeadWords(m: Ram, elf: u32, e: nat, offset: u32, count: u32)
    requires elf == 4 * e && e + 13 <= 0x4000_0000 && m[e + 7] == offset && m[e + 11] % 0x1_0000 == count
    ensures HeadOf(m, elf) == Head(offset, count)
  {
    WordLoad(m, elf + 28, e + 7);
    WordLoad(m, elf + 44, e + 11);
  }

  lemma PhdrWords(m: Ram, a: nat, b: nat)
    requires a == 4 * b && b + 8 <= 0x4000_0000
    ensures PhdrIn(m, a) == Phdr(m[b + 1], m[b + 2], m[b + 4], m[b + 6])
  {
    WordLoad(m, a + 4, b + 1);
    WordLoad(m, a + 8, b + 2);
    WordLoad(m, a + 16, b + 4);
    WordLoad(m, a + 24, b + 6);
  }

  /** The first word of the i-th header of a file that starts with word e. */
  predicate HeaderAt(m: Ram, e: nat, i: nat, b: nat) {
    && e + 13 <= 0x4000_0000 && m[e + 7] % 4 == 0 && i < m[e + 11] % 0x1_0000
    && b == e + m[e + 7] / 4 + 8 * i && b + 8 <= 0x4000_0000
  }

  lemma SpotIs(elf: u32, h: Head, size: nat, i: nat, e: nat, b: nat)
    requires elf == 4 * e && Inside(elf, h, size) && h.offset % 4 == 0 && i < h.count && b == e + h.offset / 4 + 8 * i
    ensures PhdrSpot(elf, h, i) == 4 * b
  {
    WrapBelow(elf + h.offset);
  }

  /** The i-th header that the loader reads has the offset, address, size and flags in these words. */
  lemma HeaderWords(m: Ram, elf: u32, size: nat, i: nat, e: nat, b: nat)
    requires elf == 4 * e && HeadersInside(m, elf, size) && HeaderAt(m, e, i, b)
    ensures i < |Phdrs(m, elf)| && Phdrs(m, elf)[i] == Phdr(m[b + 1], m[b + 2], m[b + 4], m[b + 6])
  {
    HeadWords(m, elf, e, m[e + 7], m[e + 11] % 0x1_0000);
    SpotIs(elf, HeadOf(m, elf), size, i, e, b);
    PhdrWords(m, PhdrSpot(elf, HeadOf(m, elf), i), b);
  }

  // Entries and access ---------------------------------------------------------------------------------------

  lemma FlagsValue(ph: Phdr)
    ensures PageFlags(ph) == if ph.flags / 2 % 2 == 1 then 7 else 5
  {
  }

  lemma FrameValue(elf: u32, ph: Phdr, q: Page)
    requires elf % 4096 == 0 && SegmentOk(elf, ph) && InPages(ph, q)
    ensures SegmentFrame(elf, ph, q) == (elf + ph.offset) / 4096 * 4096 + 4096 * (q - ph.vaddr / 4096)
  {
    OffsetsAgree(elf, ph);
    PhysIs(elf, ph);
    FrameIn(elf, ph, q, elf + ph.offset, q - FirstPage(ph));
  }

  lemma TaggedValue(frame: u32, flags: u32)
    requires frame % 4096 == 0 && flags < 4096
    ensures Or(frame, Wrap(flags)) == frame + flags
  {
    WrapBelow(flags);
    OrFlags(frame, 0, flags);
  }

  /** The entry of a page of a segment: the frame with its bytes, present, for user code, and writable with PF_W. */
  lemma EntryValue(elf: u32, ph: Phdr, q: Page)
    requires elf % 4096 == 0 && SegmentOk(elf, ph) && InPages(ph, q)
    ensures SegmentEntry(elf, ph, q) ==
            (elf + ph.offset) / 4096 * 4096 + 4096 * (q - ph.vaddr / 4096) + if ph.flags / 2 % 2 == 1 then 7 else 5
  {
    var va := AddressOf(q);
    FrameAddress(q);
    SegmentOffset(elf, ph, va);
    FrameValue(elf, ph, q);
    FlagsValue(ph);
    TaggedValue(SegmentFrame(elf, ph, q), PageFlags(ph));
  }

  lemma AlignDownIs(a: u32)
    ensures AlignDown(a) == a / 4096 * 4096
  {
  }

  lemma FrameIn(elf: u32, ph: Phdr, q: Page, a: u32, j: nat)
    requires InPages(ph, q) && j == q - FirstPage(ph) && PhysOf(elf, ph) == a
    requires ph.vaddr % 4096 == a % 4096 && a + ph.filesz <= 0xffff_f000
    ensures SegmentFrame(elf, ph, q) == a / 4096 * 4096 + 4096 * j
  {
    FrameBelow(a, ph.vaddr % 4096, ph.filesz, j);
    AlignDownIs(a);
    SegmentFrameIs(elf, ph, q, a, a / 4096 * 4096 + 4096 * j);
  }

  /** What the two entries of an address allow, by their bits 0, 1 and 2 (Intel SDM, Volume 3A, section 4.6). */
  lemma AccessBits(m: Ram, dir: Page, va: u32)
    ensures var pde, pte := DirectoryEntry(m, dir, va / 4096), Walk(m, dir, va / 4096);
            UserAccess(m, dir, va) ==
            if pde % 2 == 0 || pde / 4 % 2 == 0 || pte % 2 == 0 || pte / 4 % 2 == 0 then NoAccess
            else if pde / 2 % 2 == 0 || pte / 2 % 2 == 0 then ReadOnly
            else ReadWrite
  {
  }

  // Loaded images --------------------------------------------------------------------------------------------

  /**
    In a loaded program with segments on different pages, byte k of the segment that the header in words b to b + 7
    describes is seen at its address, where the file has it, and as it was before loading; user code may write it
    exactly when bit 1 of the flags is set.
  */
  lemma SegmentSeen(before: Ram, m: Ram, elf: u32, size: nat, p: Process, i: nat, k: nat, e: nat, b: nat, ph: Phdr,
                    va: u32, a: u32)
    requires elf == 4 * e && HeadersInside(before, elf, size) && HeaderAt(before, e, i, b)
    requires ph == Phdr(before[b + 1], before[b + 2], before[b + 4], before[b + 6]) && InMemory(elf, ph)
    requires ProgramReady(before, m, elf, Phdrs(before, elf), size, p) && Disjoint(Phdrs(before, elf))
    requires k < ph.filesz && ph.offset + ph.filesz <= size && va == ph.vaddr + k && a == elf + ph.offset + k
    ensures Translate(m, p.space.Dir(), va) == a && ByteAt(m, a) == ByteAt(before, a)
    ensures UserAccess(m, p.space.Dir(), va) == if ph.flags / 2 % 2 == 1 then ReadWrite else ReadOnly
  {
    HeaderWords(before, elf, size, i, e, b);
    DisjointInPlace(before, m, elf, Phdrs(before, elf), size, p, i, k, va, a);
  }

  /** The entries of a loaded image: those of its segments, */
  lemma CoveredValue(elf: u32, phs: seq<Phdr>, stack: u32, q: Page, ph: Phdr)
    requires ImageOk(elf, phs) && Covering(phs, q) >= 0 && ph == phs[Covering(phs, q)]
    ensures LoadedFlat(elf, phs, stack)[q] ==
            (elf + ph.offset) / 4096 * 4096 + 4096 * (q - ph.vaddr / 4096) + if ph.flags / 2 % 2 == 1 then 7 else 5
  {
    assert SegmentOk(elf, phs[Covering(phs, q)]);
    CoveredPage(elf, phs, stack, q);
    EntryValue(elf, ph, q);
  }

  lemma FullEntry(page: u32)
    requires page % 4096 == 0
    ensures Or(page, FULL_ACCESS) == page + 7
  {
    OrFlags(page, 0, 7);
  }

  lemma PagesFrom(page: u32, j: nat)
    requires page % 4096 == 0
    ensures (page + 4096 * j) % 4096 == 0
  {
    PageSum(page / 4096 + j, 0);
  }

  /** those of the four pages from 0x3fb000 on, which are the stack, */
  lemma StackValue(elf: u32, phs: seq<Phdr>, stack: u32, j: nat)
    requires stack % 4096 == 0 && stack + 0x4000 <= 0xffff_f000 && j < 4
    ensures LoadedFlat(elf, phs, stack)[0x3fb + j] == stack + 4096 * j + 7
  {
    StackPage(elf, phs, stack, j);
    PagesFrom(stack, j);
    FullEntry(stack + 4096 * j);
  }

  /** and the identity everywhere else, for user code to read. */
  lemma OtherValue(elf: u32, phs: seq<Phdr>, stack: u32, q: Page)
    requires ImageOk(elf, phs) && Covering(phs, q) < 0 && !(0x3fb <= q < 0x3ff)
    ensures LoadedFlat(elf, phs, stack)[q] == 4096 * q + 5
  {
    OtherPage(elf, phs, stack, q);
  }

  // An example -----------------------------------------------------------------------------------------------

  /** A file that starts with word e, with two headers behind its own: code for 0x400000, and data for 0x402010. */
  ghost predicate ExampleImage(m: Ram, e: nat) {
    && e + 64 <= 0x4000_0000 && m[e + 7] == 52 && m[e + 11] == 0x28_0002
    && m[e + 14] == 0x1000 && m[e + 15] == 0x40_0000 && m[e + 17] == 0x1234 && m[e + 19] == 5 && m[e + 20] == 0x1000
    && m[e + 22] == 0x3010 && m[e + 23] == 0x40_2010 && m[e + 25] == 0x20 && m[e + 27] == 6 && m[e + 28] == 0x1000
  }

  predicate ExampleSegments(phs: seq<Phdr>) {
    phs == [Phdr(0x1000, 0x40_0000, 0x1234, 5), Phdr(0x3010, 0x40_2010, 0x20, 6)]
  }

  lemma ExampleInside(m: Ram, elf: u32, e: nat, offset: u32, count: u32)
    requires e + 64 <= 0x4000_0000 && elf <= 0x4000_0000 && HeadOf(m, elf) == Head(52, 2)
    requires offset == m[e + 7] == 52 && count == m[e + 11] == 0x28_0002
    ensures HeadersInside(m, elf, 0x4000)
    ensures HeaderAt(m, e, 0, e + 13) && HeaderAt(m, e, 1, e + 21)
  {
    assert offset % 4 == 0 && offset / 4 == 13 && count % 0x1_0000 == 2;
  }

  /** The headers that the loader reads from it. */
  lemma ExampleHeaders(m: Ram, elf: u32, e: nat)
    requires elf == 4 * e && elf <= 0x4000_0000 && ExampleImage(m, e)
    ensures ExampleSegments(Phdrs(m, elf))
  {
    HeadWords(m, elf, e, 52, 2);
    ExampleInside(m, elf, e, 52, 0x28_0002);
    HeaderWords(m, elf, 0x4000, 0, e, e + 13);
    HeaderWords(m, elf, 0x4000, 1, e, e + 21);
    assert |Phdrs(m, elf)| == 2;
  }

  lemma ExamplePages(elf: u32, phs: seq<Phdr>, q: Page)
    requires ExampleSegments(phs) && elf % 4096 == 0 && elf <= 0x4000_0000
    ensures ImageOk(elf, phs)
    ensures Covering(phs, q) == if q == 0x402 then 1 else if 0x400 <= q < 0x402 then 0 else -1
  {
    assert PageCount(phs[0]) == 2 && FirstPage(phs[0]) == 0x400;
    assert PageCount(phs[1]) == 1 && FirstPage(phs[1]) == 0x402;
    assert LastCovering(phs, 0, q) == -1;
    assert LastCovering(phs, 1, q) == if 0x400 <= q < 0x402 then 0 else -1;
  }

  lemma ExampleFrames(elf: u32)
    requires elf % 4096 == 0
    ensures (elf + 0x1000) / 4096 * 4096 == elf + 0x1000 && (elf + 0x3010) / 4096 * 4096 == elf + 0x3000
  {
  }

  lemma ExampleCode(elf: u32, phs: seq<Phdr>, stack: u32, q: Page)
    requires ExampleSegments(phs) && elf % 4096 == 0 && elf <= 0x4000_0000 && 0x400 <= q < 0x402
    ensures LoadedFlat(elf, phs, stack)[q] == elf + 0x1005 + 4096 * (q - 0x400)
  {
    ExamplePages(elf, phs, q);
    ExampleFrames(elf);
    CoveredValue(elf, phs, stack, q, Phdr(0x1000, 0x40_0000, 0x1234, 5));
  }

  lemma ExampleData(elf: u32, phs: seq<Phdr>, stack: u32, q: Page)
    requires ExampleSegments(phs) && elf % 4096 == 0 && elf <= 0x4000_0000 && q == 0x402
    ensures LoadedFlat(elf, phs, stack)[q] == elf + 0x3007
  {
    ExamplePages(elf, phs, q);
    ExampleFrames(elf);
    CoveredValue(elf, phs, stack, q, Phdr(0x3010, 0x40_2010, 0x20, 6));
  }

  /**
    The entries around its segments after loading: the two pages of code can be read, the page of data can be written,
    and the pages before and behind them are the identity.
  */
  lemma ExampleLoaded(elf: u32, phs: seq<Phdr>, stack: u32, q: Page)
    requires ExampleSegments(phs) && elf % 4096 == 0 && elf <= 0x4000_0000
    requires 0x3ff <= q <= 0x403
    ensures LoadedFlat(elf, phs, stack)[q] ==
            if q == 0x400 then elf + 0x1005
            else if q == 0x401 then elf + 0x2005
            else if q == 0x402 then elf + 0x3007
            else 4096 * q + 5
  {
    if q == 0x402 {
      ExampleData(elf, phs, stack, q);
    } else if 0x400 <= q < 0x402 {
      ExampleCode(elf, phs, stack, q);
    } else {
      ExamplePages(elf, phs, q);
      OtherValue(elf, phs, stack, q);
    }
  }
}
