/** src/loader/formats/elfloader.c: the bounds of a loaded file, collected over its program headers. */
module Elf {
  import opened Words

  const PT_LOAD := 1

  datatype Header = Header(kind: u32, vaddr: u32, offset: u32, filesz: u32)

  predicate IsLoad(h: Header) {
    h.kind == PT_LOAD
  }

  function EndOf(h: Header): u32 {
    Wrap(h.vaddr + h.filesz)
  }

  /** Some segment starts at these virtual and physical addresses. */
  ghost predicate StartsAt(hs: seq<Header>, memory: u32, virtual: u32, physical: u32) {
    exists h :: h in hs && h.kind == 1 && h.vaddr == virtual && (memory + h.offset) % 0x1_0000_0000 == physical
  }

  /** Some segment ends at these virtual and physical addresses. */
  ghost predicate EndsAt(hs: seq<Header>, memory: u32, virtual: u32, physical: u32) {
    exists h ::
      && h in hs && h.kind == 1 && (h.vaddr + h.filesz) % 0x1_0000_0000 == virtual
      && (memory + h.offset + h.filesz) % 0x1_0000_0000 == physical
  }

  class ElfFile {
    const memory: u32
    var virtualBase: u32
    var physicalBase: u32
    var virtualEnd: u32
    var physicalEnd: u32

    constructor (memory: u32)
      ensures this.memory == memory && virtualBase == physicalBase == virtualEnd == physicalEnd == 0
    {
      this.memory := memory;
      virtualBase, physicalBase, virtualEnd, physicalEnd := 0, 0, 0, 0;
    }

    function Contents(): Bounds
      reads this
    {
      Bounds(virtualBase, physicalBase, virtualEnd, physicalEnd)
    }

    method ProcessLoad(h: Header)
      modifies this
      ensures Contents() == OneMore(memory, old(Contents()), h)
    {
      if virtualBase >= h.vaddr || virtualBase == 0 {
        virtualBase := h.vaddr;
        physicalBase := Wrap(memory + h.offset);
      }
      var end := Wrap(h.vaddr + h.filesz);
      if virtualEnd <= end || virtualEnd == 0 {
        virtualEnd := end;
        physicalEnd := Wrap(memory + h.offset + h.filesz);
      }
    }

    method ProcessHeaders(hs: seq<Header>) returns (res: int)
      requires virtualBase == virtualEnd == 0
      modifies this
      ensures res == OK && Bound(hs, memory, Contents())
    {
      res := OK;
      for i := 0 to |hs|
        invariant Bound(hs[..i], memory, Contents())
      {
        ghost var before := Contents();
        if hs[i].kind == PT_LOAD {
          ProcessLoad(hs[i]);
        }
        BoundMore(hs[..i], hs[i], memory, before, Contents());
        assert hs[..i + 1] == hs[..i] + [hs[i]];
      }
      assert hs[..|hs|] == hs;
    }
  }

  /** The bounds of a file. */
  datatype Bounds = Bounds(virtualBase: u32, physicalBase: u32, virtualEnd: u32, physicalEnd: u32)

  /** The bounds after one more segment. */
  function OneMore(memory: u32, b: Bounds, h: Header): Bounds {
    var lower := b.virtualBase >= h.vaddr || b.virtualBase == 0;
    Bounds(LowerBase(b.virtualBase, h),
           if lower then Wrap(memory + h.offset) else b.physicalBase,
           if b.virtualEnd <= EndOf(h) then EndOf(h) else b.virtualEnd,
           if b.virtualEnd <= EndOf(h) then Wrap(memory + h.offset + h.filesz) else b.physicalEnd)
  }

  predicate AnyLoad(hs: seq<Header>) {
    exists h :: h in hs && IsLoad(h)
  }

  /** Bounds that were collected over all headers: the physical ones are those of segments with the virtual ones. */
  ghost predicate Bound(hs: seq<Header>, memory: u32, b: Bounds) {
    && b.virtualBase == BaseOf(hs) && b.virtualEnd == HighestEnd(hs)
    && (AnyLoad(hs) ==> StartsAt(hs, memory, b.virtualBase, b.physicalBase))
    && (AnyLoad(hs) ==> EndsAt(hs, memory, b.virtualEnd, b.physicalEnd))
  }

  lemma BoundMore(hs: seq<Header>, h: Header, memory: u32, b: Bounds, b': Bounds)
    requires Bound(hs, memory, b) && b' == if IsLoad(h) then OneMore(memory, b, h) else b
    ensures Bound(hs + [h], memory, b')
  {
    assert (hs + [h])[..|hs|] == hs;
    NoLoad(hs);
    if IsLoad(h) {
      assert h in hs + [h];
      if b'.physicalBase != Wrap(memory + h.offset) || b'.virtualBase != h.vaddr {
        StartsStill(hs, h, memory, b.virtualBase, b.physicalBase);
      }
      if b'.virtualEnd != EndOf(h) {
        EndsStill(hs, h, memory, b.virtualEnd, b.physicalEnd);
      }
    } else if AnyLoad(hs + [h]) {
      var g :| g in hs + [h] && IsLoad(g);
      assert g in hs;
      StartsStill(hs, h, memory, b.virtualBase, b.physicalBase);
      EndsStill(hs, h, memory, b.virtualEnd, b.physicalEnd);
    }
  }

  lemma StartsStill(hs: seq<Header>, h: Header, memory: u32, virtual: u32, physical: u32)
    requires StartsAt(hs, memory, virtual, physical)
    ensures StartsAt(hs + [h], memory, virtual, physical)
  {
    var g :| g in hs && IsLoad(g) && g.vaddr == virtual && Wrap(memory + g.offset) == physical;
    assert g in hs + [h];
  }

  lemma EndsStill(hs: seq<Header>, h: Header, memory: u32, virtual: u32, physical: u32)
    requires EndsAt(hs, memory, virtual, physical)
    ensures EndsAt(hs + [h], memory, virtual, physical)
  {
    var g :| g in hs && IsLoad(g) && EndOf(g) == virtual && Wrap(memory + g.offset + g.filesz) == physical;
    assert g in hs + [h];
  }

  /** The base after one more segment: a base of 0 counts as none. */
  function LowerBase(base: u32, h: Header): u32 {
    if base >= h.vaddr || base == 0 then h.vaddr else base
  }

  function BaseOf(hs: seq<Header>): u32 {
    if hs == [] then 0
    else
      var h, before := hs[|hs| - 1], BaseOf(hs[..|hs| - 1]);
      if IsLoad(h) then LowerBase(before, h) else before
  }

  function HighestEnd(hs: seq<Header>): u32 {
    if hs == [] then 0
    else
      var h, before := hs[|hs| - 1], HighestEnd(hs[..|hs| - 1]);
      if IsLoad(h) && before <= EndOf(h) then EndOf(h) else before
  }

  /** The virtual end is the greatest of all segments to load (p_type 1), each end a 32-bit sum. */
  lemma {:induction false} EndIsGreatest(hs: seq<Header>)
    ensures forall h | h in hs && h.kind == 1 :: (h.vaddr + h.filesz) % 0x1_0000_0000 <= HighestEnd(hs)
    ensures HighestEnd(hs) != 0 ==>
              exists h :: h in hs && h.kind == 1 && (h.vaddr + h.filesz) % 0x1_0000_0000 == HighestEnd(hs)
  {
    if hs != [] {
      var n := |hs| - 1;
      EndIsGreatest(hs[..n]);
      assert hs == hs[..n] + [hs[n]];
    }
  }

  ghost predicate IsLeast(hs: seq<Header>, x: u32) {
    (exists h :: h in hs && h.kind == 1 && h.vaddr == x) && forall h | h in hs && h.kind == 1 :: x <= h.vaddr
  }

  /** Where the last segment to load starts, or 0 if there is none. */
  function LastStart(hs: seq<Header>): u32 {
    if hs == [] then 0
    else if IsLoad(hs[|hs| - 1]) then hs[|hs| - 1].vaddr
    else LastStart(hs[..|hs| - 1])
  }

  lemma {:induction false} BaseIsZeroIff(hs: seq<Header>)
    ensures BaseOf(hs) == 0 <==> LastStart(hs) == 0
  {
    if hs != [] {
      BaseIsZeroIff(hs[..|hs| - 1]);
    }
  }

  lemma {:induction false} LastStartIsOne(hs: seq<Header>)
    requires exists h :: h in hs && IsLoad(h)
    ensures exists h :: h in hs && IsLoad(h) && h.vaddr == LastStart(hs)
  {
    var n := |hs| - 1;
    assert hs == hs[..n] + [hs[n]];
    if !IsLoad(hs[n]) {
      LastStartIsOne(hs[..n]);
    }
  }

  lemma {:induction false} BaseIsLeast(hs: seq<Header>)
    requires (exists h :: h in hs && IsLoad(h)) && forall h | h in hs && IsLoad(h) :: h.vaddr != 0
    ensures IsLeast(hs, BaseOf(hs))
  {
    var n := |hs| - 1;
    var before := hs[..n];
    assert hs == before + [hs[n]];
    if exists h :: h in before && IsLoad(h) {
      BaseIsLeast(before);
    } else {
      NoLoad(before);
    }
  }

  lemma {:induction false} NoLoad(hs: seq<Header>)
    ensures (forall h | h in hs :: !IsLoad(h)) ==> BaseOf(hs) == HighestEnd(hs) == 0
  {
    if hs != [] {
      NoLoad(hs[..|hs| - 1]);
      assert hs == hs[..|hs| - 1] + [hs[|hs| - 1]];
    }
  }

  /** The virtual base is the least exactly when no segment starts at 0, or the last one does. */
  lemma BaseIsLeastIff(hs: seq<Header>)
    requires exists h :: h in hs && IsLoad(h)
    ensures IsLeast(hs, BaseOf(hs)) <==>
            LastStart(hs) == 0 || forall h | h in hs && IsLoad(h) :: h.vaddr != 0
  {
    BaseIsZeroIff(hs);
    LastStartIsOne(hs);
    if forall h | h in hs && IsLoad(h) :: h.vaddr != 0 {
      BaseIsLeast(hs);
    }
  }
}
