/** src/memory/heap/heap.c: a first-fit allocator over the block table, which it changes in place. */
module Heap {
  import opened Words
  import opened BlockTable

  /** Rounds up to whole blocks in 32-bit arithmetic: the largest sizes wrap to zero. */
  function SizeCeiling(size: u32): u32 {
    if size % 4096 == 0 then size else Wrap(size - size % 4096 + 4096)
  }

  function BlocksFor(size: u32): nat {
    SizeCeiling(size) / 4096
  }

  /** A request for at least one block gets room for all its bytes; the others are size 0 and the sizes that wrap. */
  lemma BlocksForCapacity(size: u32)
    ensures BlocksFor(size) >= 1 ==> size <= 4096 * BlocksFor(size) < size + 4096
    ensures BlocksFor(size) == 0 <==> size == 0 || size > 0x1_0000_0000 - 4096
  {
  }

  // The value of a 32-bit register read as a signed int.
  function Signed(x: u32): int {
    if x < 0x8000_0000 then x else x - 0x1_0000_0000
  }

  // Division of ints rounds toward zero.
  function Quotient(x: int, y: int): int
    requires y > 0
  {
    if x >= 0 then x / y else -((-x) / y)
  }

  function BlockToAddress(start: u32, block: nat): u32 {
    Wrap(start + block * 4096)
  }

  function AddressToBlock(start: u32, address: u32): int {
    Quotient(Signed(Wrap(address - start)), 4096)
  }

  /** The two conversions are inverse on the blocks of the first 2 GiB of an arena, and on no other block. */
  lemma AddressBlockInverse(start: u32, block: nat)
    requires block * 4096 < 0x1_0000_0000
    ensures AddressToBlock(start, BlockToAddress(start, block)) == block <==> block < 0x8_0000
  {
    assert Wrap(BlockToAddress(start, block) - start) == block * 4096 by {
      var x := start + block * 4096;
      if x >= 0x1_0000_0000 { assert Wrap(x) == x - 0x1_0000_0000; } else { assert Wrap(x) == x; }
    }
  }

  /** Every address inside the first 2 GiB of an arena leads back to its block. */
  lemma AddressInsideBlock(start: u32, address: u32)
    requires start <= address < start + 0x8000_0000
    ensures AddressToBlock(start, address) == (address - start) / 4096
  {
  }

  /** A heap over an arena. Creation fixes where its table and its arena are. */
  class Heap {
    const entries: array<bv8>
    const total: nat
    const startAddress: u32
    ghost var live: Extents
    ghost var stranded: set<nat>

    ghost predicate Valid()
      reads this, entries
    {
      && total == entries.Length <= 0x8_0000
      && startAddress % 4096 == 0
      && 0 < startAddress <= startAddress + total * 4096 <= 0x1_0000_0000
      && Describes(entries[..], live, stranded)
    }

    /** The number of the first page of the arena. */
    ghost function Base(): nat {
      startAddress / 4096
    }

    constructor (entries: array<bv8>, startAddress: u32)
      ensures this.entries == entries && total == entries.Length && this.startAddress == startAddress
      ensures live == map[] && stranded == {}
    {
      this.entries, total, this.startAddress := entries, entries.Length, startAddress;
      live, stranded := map[], {};
    }

    /** Sets a heap up over an arena, with the caller's table cleared; misaligned arenas are rejected. */
    static method Create(table: array<bv8>, heapStart: u32, heapSize: u32) returns (res: int, heap: Heap?)
      requires heapStart % 4096 == 0 && heapSize % 4096 == 0 ==>
                 table.Length == heapSize / 4096 <= 0x8_0000 && 0 < heapStart && heapStart + heapSize <= 0x1_0000_0000
      modifies table
      ensures res == if heapStart % 4096 != 0 || heapSize % 4096 != 0 then EINVARG else OK
      ensures res != OK ==> heap == null && table[..] == old(table[..])
      ensures res == OK ==>
                && heap != null && fresh(heap) && heap.Valid()
                && heap.entries == table && heap.startAddress == heapStart
                && State(heap.entries[..], heap.live, heap.stranded) == Fresh(heapSize / 4096)
    {
      heap := null;
      if heapStart % 4096 != 0 {
        return EINVARG, null;
      }
      if heapSize % 4096 != 0 {
        return EINVARG, null;
      }
      var blocks := heapSize / 4096;
      for i := 0 to blocks
        invariant forall k | 0 <= k < i :: table[k] == FREE
      {
        table[i] := FREE;
      }
      heap := new Heap(table, heapStart);
      res := OK;
    }

    method GetStartBlock(blocks: u32) returns (start: int)
      requires total == entries.Length
      ensures start == FirstFit(entries[..], blocks)
    {
      var count := 0;
      start := -1;
      for i := 0 to total
        invariant 0 <= count <= i
        invariant blocks >= 1 ==> count < blocks
        invariant start == if count == 0 then -1 else i - count
        invariant forall k | i - count <= k < i :: !IsTaken(entries[k])
        invariant count == i || IsTaken(entries[i - count - 1])
        invariant blocks >= 1 ==> forall s | 0 <= s < i - count :: !RunFree(entries[..], s, blocks)
      {
        if IsTaken(entries[i]) {
          count := 0;
          start := -1;
          continue;
        }
        if start == -1 {
          start := i;
        }
        count := count + 1;
        if count == blocks {
          FirstFitLeast(entries[..], blocks);
          assert RunFree(entries[..], start, blocks);
          return;
        }
      }
      FirstFitLeast(entries[..], blocks);
      start := ENOMEM;
    }

    method MarkBlocksTaken(start: nat, blocks: nat)
      requires blocks >= 1 && start + blocks <= entries.Length
      modifies entries
      ensures entries[..] == Take(old(entries[..]), start, blocks)
    {
      var end := start + blocks - 1;
      var entry := TAKEN | IS_FIRST;
      if blocks > 1 {
        entry := entry | HAS_NEXT;
      }
      for i := start to end + 1
        invariant i <= end ==> entry == ExtentEntry(i - start, blocks)
        invariant forall k | 0 <= k < entries.Length ::
                    entries[k] == if start <= k < i then ExtentEntry(k - start, blocks) else old(entries[k])
      {
        entries[i] := entry;
        entry := TAKEN;
        if i != end - 1 {
          entry := entry | HAS_NEXT;
        }
      }
    }

    method MallocBlocks(blocks: u32) returns (address: u32)
      requires Valid()
      modifies this`live, entries
      ensures Valid()
      ensures var s := FirstFit(old(entries[..]), blocks);
              if s < 0 then address == 0 && entries[..] == old(entries[..]) && live == old(live)
              else
                && s + blocks <= total && address == startAddress + s * 4096
                && entries[..] == Take(old(entries[..]), s, blocks) && live == old(live)[s as nat := blocks]
    {
      address := 0;
      var start := GetStartBlock(blocks);
      FirstFitLeast(entries[..], blocks);
      if start < 0 {
        return;
      }
      TakeDescribes(entries[..], live, stranded, start, blocks);
      MarkBlocksTaken(start, blocks);
      live := live[start as nat := blocks];
      address := BlockToAddress(startAddress, start);
    }

    /** Hands out the first run of blocks that holds size bytes, or 0 when there is none or the size rounds to 0. */
    method Malloc(size: u32) returns (address: u32)
      requires Valid()
      modifies this`live, entries
      ensures Valid()
      ensures address != 0 ==> size <= BlocksFor(size) * 4096
      ensures var s := FirstFit(old(entries[..]), BlocksFor(size));
              if s < 0 then address == 0 && entries[..] == old(entries[..]) && live == old(live)
              else
                && s + BlocksFor(size) <= total && address == startAddress + s * 4096 != 0
                && entries[..] == Take(old(entries[..]), s, BlocksFor(size))
                && live == old(live)[s as nat := BlocksFor(size)]
    {
      var aligned := SizeCeiling(size);
      var blocks := aligned / 4096;
      BlocksForCapacity(size);
      FirstFitLeast(entries[..], blocks);
      address := MallocBlocks(blocks);
    }

    /** Frees the first block of a live extent and strands the others. */
    method MarkBlocksFree(start: nat)
      requires Valid() && start in live
      modifies this`live, this`stranded, entries
      ensures Valid()
      ensures start < total && entries[..] == Release(old(entries[..]), start)
      ensures live == old(live) - {start}
      ensures stranded == old(stranded) + Rest(start, old(live)[start])
    {
      CoveredTaken(entries[..], live, stranded, start, start);
      ReleaseDescribes(entries[..], live, stranded, start);
      for i := start to total
        invariant i == start && entries[..] == old(entries[..]) && live == old(live) && stranded == old(stranded)
      {
        entries[i] := FREE;
        if !HasNext(entries[i]) {
          break;
        }
      }
      stranded := stranded + Rest(start, live[start]);
      live := live - {start};
    }

    /** The address is that of the first block of an allocation. */
    ghost predicate IsAllocation(address: u32)
      reads entries
    {
      && address % 4096 == 0 && Base() <= address / 4096 < Base() + entries.Length
      && IsFirst(entries[address / 4096 - Base()])
    }

    /** Frees an allocation by its address: its first block is free again, the others are stranded. */
    method FreeExtent(address: u32)
      requires Valid() && IsAllocation(address)
      modifies this`live, this`stranded, entries
      ensures Valid()
      ensures var s := address / 4096 - Base();
              && entries[..] == Release(old(entries[..]), s)
              && s in old(live) && live == old(live) - {s}
              && stranded == old(stranded) + Rest(s, old(live)[s])
    {
      ghost var s: nat := address / 4096 - Base();
      FirstIffLive(entries[..], live, stranded, s);
      AddressInsideBlock(startAddress, address);
      var block := AddressToBlock(startAddress, address);
      assert block == s;
      MarkBlocksFree(block);
    }
  }
}
