/** The block table of src/memory/heap: one byte per 4096-byte block, and the bookkeeping it encodes. */
module BlockTable {
  import opened Words

  const FREE: bv8 := 0x00
  const TAKEN: bv8 := 0x01
  const IS_FIRST: bv8 := 0x40
  const HAS_NEXT: bv8 := 0x80
  // The one block of a single-block allocation.
  const SINGLE: bv8 := 0x41

  type Table = seq<bv8>

  predicate IsTaken(e: bv8) { e & TAKEN != 0 }
  predicate IsFirst(e: bv8) { e & IS_FIRST != 0 }
  predicate HasNext(e: bv8) { e & HAS_NEXT != 0 }

  /** The entry of the k-th block of an n-block allocation. */
  function ExtentEntry(k: nat, n: nat): (e: bv8)
    requires k < n
    ensures IsTaken(e)
    ensures IsFirst(e) <==> k == 0
    ensures HasNext(e) <==> k + 1 < n
    ensures n == 1 ==> e == SINGLE
  {
    TAKEN | (if k == 0 then IS_FIRST else 0) | (if k + 1 < n then HAS_NEXT else 0)
  }

  /** The entries of an extent: bit 0 for taken, bit 6 for the first block, bit 7 for one that is not the last. */
  lemma EntryBits(k: nat, n: nat)
    requires k < n
    ensures ExtentEntry(k, n) ==
            if n == 1 then 0x41 else if k == 0 then 0xc1 else if k + 1 < n then 0x81 else 0x01
    ensures FREE == 0 && forall e: bv8 :: IsTaken(e) <==> e & 0x01 == 0x01
  {
    forall e: bv8
      ensures IsTaken(e) <==> e & 0x01 == 0x01
    {
    }
  }

  predicate RunFree(t: Table, s: nat, n: nat) {
    s + n <= |t| && forall i | s <= i < s + n :: !IsTaken(t[i])
  }

  // First fit ------------------------------------------------------------------

  /** Reference search: try every start in turn. A request for no block never succeeds. */
  function FirstFitFrom(t: Table, n: nat, s: nat): int
    decreases |t| - s
  {
    if n == 0 || s + n > |t| then ENOMEM
    else if RunFree(t, s, n) then s
    else FirstFitFrom(t, n, s + 1)
  }

  function FirstFit(t: Table, n: nat): int {
    FirstFitFrom(t, n, 0)
  }

  lemma {:induction false} FirstFitFromLeast(t: Table, n: nat, from: nat)
    ensures var s := FirstFitFrom(t, n, from);
            if s >= 0 then from <= s && n >= 1 && RunFree(t, s, n) && forall r | from <= r < s :: !RunFree(t, r, n)
            else s == ENOMEM && (n >= 1 ==> forall r | from <= r :: !RunFree(t, r, n))
    decreases |t| - from
  {
    if n > 0 && from + n <= |t| && !RunFree(t, from, n) {
      FirstFitFromLeast(t, n, from + 1);
    }
  }

  /** First fit finds the least start of a free run of n >= 1 blocks, and fails exactly when there is none. */
  lemma FirstFitLeast(t: Table, n: nat)
    ensures var s := FirstFit(t, n);
            if s >= 0 then n >= 1 && RunFree(t, s, n) && forall r | 0 <= r < s :: !RunFree(t, r, n)
            else s == ENOMEM && (n >= 1 ==> forall r: nat :: !RunFree(t, r, n))
  {
    FirstFitFromLeast(t, n, 0);
  }

  // Taking and releasing ---------------------------------------------------------

  /** The table after n blocks from s on are handed out. */
  function Take(t: Table, s: nat, n: nat): (r: Table)
    requires s + n <= |t|
    ensures |r| == |t|
    ensures forall i | 0 <= i < |t| :: r[i] == if s <= i < s + n then ExtentEntry(i - s, n) else t[i]
  {
    seq(|t|, i requires 0 <= i < |t| => if s <= i < s + n then ExtentEntry(i - s, n) else t[i])
  }

  /** Releasing as the source does it: the entry is cleared before its HAS_NEXT bit is looked at. */
  function Release(t: Table, s: nat): Table
    requires s < |t|
  {
    t[s := FREE]
  }

  /** Releasing as meant: the HAS_NEXT bit decides before the entry is cleared. */
  function ReleaseMeant(t: Table, s: nat): (r: Table)
    ensures |r| == |t|
    decreases |t| - s
  {
    if s >= |t| then t
    else if HasNext(t[s]) then ReleaseMeant(t[s := FREE], s + 1)
    else t[s := FREE]
  }

  /** The source's release undoes an allocation exactly when the allocation is one block. */
  lemma ReleaseUndoesTakeIff(t: Table, s: nat, n: nat)
    requires n >= 1 && s + n <= |t| && forall i | s <= i < s + n :: t[i] == FREE
    ensures Release(Take(t, s, n), s) == t <==> n == 1
  {
    var r := Release(Take(t, s, n), s);
    if n > 1 {
      assert r[s + 1] == ExtentEntry(1, n) != t[s + 1];
    }
  }

  /** From block b of an n-block extent on, the meant release clears the rest of that extent and no more. */
  lemma {:induction false} ReleaseMeantClears(t: Table, s: nat, n: nat, b: nat)
    requires s <= b < s + n <= |t|
    requires forall i | b <= i < s + n :: t[i] == ExtentEntry(i - s, n)
    ensures forall i | 0 <= i < |t| :: ReleaseMeant(t, b)[i] == if b <= i < s + n then FREE else t[i]
    decreases s + n - b
  {
    assert t[b] == ExtentEntry(b - s, n);
    if b + 1 < s + n {
      ReleaseMeantClears(t[b := FREE], s, n, b + 1);
      assert ReleaseMeant(t, b) == ReleaseMeant(t[b := FREE], b + 1);
    } else {
      assert ReleaseMeant(t, b) == t[b := FREE];
    }
  }

  /** The meant release undoes every allocation. */
  lemma ReleaseMeantUndoesTake(t: Table, s: nat, n: nat)
    requires n >= 1 && s + n <= |t| && forall i | s <= i < s + n :: t[i] == FREE
    ensures ReleaseMeant(Take(t, s, n), s) == t
  {
    ReleaseMeantClears(Take(t, s, n), s, n, s);
  }

  // Live and stranded blocks -----------------------------------------------------

  /** Extents that are allocated: first block to number of blocks. */
  type Extents = map<nat, nat>

  predicate Covers(live: Extents, s: nat, i: nat) {
    s in live && s <= i < s + live[s]
  }

  ghost predicate InLive(live: Extents, i: nat) {
    exists s :: Covers(live, s, i)
  }

  /**
    The table t shows exactly the live extents, the stranded blocks and free blocks: live extents lie inside the
    table, do not overlap, and carry FIRST on their first block only and HAS_NEXT on all blocks but the last.
  */
  ghost predicate Describes(t: Table, live: Extents, stranded: set<nat>) {
    && (forall s {:trigger live[s]} | s in live :: 1 <= live[s] && s + live[s] <= |t|)
    && (forall s: nat, i: nat | Covers(live, s, i) :: t[i] == ExtentEntry(i - s, live[s]))
    && (forall s, r {:trigger live[s], live[r]} | s in live && r in live && s < r :: s + live[s] <= r)
    && (forall i | i in stranded :: i < |t| && IsTaken(t[i]) && !IsFirst(t[i]) && !InLive(live, i))
    && (forall i {:trigger InLive(live, i)} | 0 <= i < |t| :: t[i] == FREE || i in stranded || InLive(live, i))
  }

  function Extent(s: nat, n: nat): (r: set<nat>)
    ensures |r| == n && forall i: nat :: i in r <==> s <= i < s + n
  {
    if n == 0 then {} else Extent(s, n - 1) + {s + n - 1}
  }

  /** All blocks of an extent but the first. */
  function Rest(s: nat, n: nat): (r: set<nat>)
    ensures |r| == (if n == 0 then 0 else n - 1) && forall i: nat :: i in r <==> s < i < s + n
  {
    if n == 0 then {} else Extent(s + 1, n - 1)
  }

  lemma CoveredTaken(t: Table, live: Extents, stranded: set<nat>, s: nat, i: nat)
    requires Describes(t, live, stranded)
    ensures Covers(live, s, i) ==> i < |t| && IsTaken(t[i]) && (IsFirst(t[i]) <==> i == s)
  {
  }

  lemma TakeUnused(t: Table, live: Extents, stranded: set<nat>, s: nat, n: nat)
    requires Describes(t, live, stranded) && n >= 1 && RunFree(t, s, n)
    ensures forall i | s <= i < s + n :: t[i] == FREE && i !in stranded && !InLive(live, i)
    ensures s !in live
    ensures forall r | r in live && r < s :: r + live[r] <= s
    ensures forall r | r in live && s < r :: s + n <= r
  {
    forall r | r in live
      ensures r < s ==> r + live[r] <= s
      ensures s <= r ==> s + n <= r
    {
      CoveredTaken(t, live, stranded, r, s);
      CoveredTaken(t, live, stranded, r, r);
    }
    forall i: nat | s <= i < s + n
      ensures t[i] == FREE && i !in stranded && !InLive(live, i)
    {
      forall r: nat
        ensures !Covers(live, r, i)
      {
        CoveredTaken(t, live, stranded, r, i);
      }
      assert !InLive(live, i) && !IsTaken(t[i]);
    }
  }

  lemma TakeDescribes(t: Table, live: Extents, stranded: set<nat>, s: nat, n: nat)
    requires Describes(t, live, stranded) && n >= 1 && RunFree(t, s, n)
    ensures Describes(Take(t, s, n), live[s := n], stranded)
  {
    TakeUnused(t, live, stranded, s, n);
    var t', live' := Take(t, s, n), live[s := n];
    forall i: nat
      ensures InLive(live', i) <==> InLive(live, i) || s <= i < s + n
    {
      if s <= i < s + n { assert Covers(live', s, i); }
      if InLive(live, i) {
        var r :| Covers(live, r, i);
        assert Covers(live', r, i);
      }
      if InLive(live', i) {
        var r :| Covers(live', r, i);
        if r != s { assert Covers(live, r, i); }
      }
    }
    forall r: nat, i: nat | Covers(live', r, i)
      ensures t'[i] == ExtentEntry(i - r, live'[r])
    {
      if r != s { assert Covers(live, r, i); }
    }
  }

  /** Releasing a live extent frees its first block and strands the others. */
  lemma ReleaseDescribes(t: Table, live: Extents, stranded: set<nat>, s: nat)
    requires Describes(t, live, stranded) && s in live
    ensures Describes(Release(t, s), live - {s}, stranded + Rest(s, live[s]))
  {
    var t', live' := Release(t, s), live - {s};
    assert Covers(live, s, s);
    forall r: nat, i: nat | Covers(live', r, i)
      ensures Covers(live, r, i) && !Covers(live, s, i)
    {
    }
    forall i: nat | i < |t|
      ensures InLive(live, i) ==> Covers(live, s, i) || InLive(live', i)
      ensures InLive(live', i) ==> InLive(live, i) && !Covers(live, s, i)
    {
      if InLive(live, i) {
        var r :| Covers(live, r, i);
        assert r != s ==> Covers(live', r, i);
      }
      if InLive(live', i) {
        var r :| Covers(live', r, i);
        assert Covers(live, r, i);
      }
    }
    forall i | i in Rest(s, live[s])
      ensures i < |t'| && IsTaken(t'[i]) && !IsFirst(t'[i]) && !InLive(live', i)
    {
      assert Covers(live, s, i);
    }
  }

  /** The meant release strands nothing. */
  lemma ReleaseMeantDescribes(t: Table, live: Extents, s: nat)
    requires Describes(t, live, {}) && s in live
    ensures Describes(ReleaseMeant(t, s), live - {s}, {})
  {
    var n, live' := live[s], live - {s};
    forall i: nat | s <= i < s + n
      ensures t[i] == ExtentEntry(i - s, n)
    {
      assert Covers(live, s, i);
    }
    ReleaseMeantClears(t, s, n, s);
    forall r: nat, i: nat | Covers(live', r, i)
      ensures Covers(live, r, i) && !Covers(live, s, i)
    {
    }
    forall i: nat | i < |t| && InLive(live, i)
      ensures Covers(live, s, i) || InLive(live', i)
    {
      var r :| Covers(live, r, i);
      assert r != s ==> Covers(live', r, i);
    }
  }

  /** The first blocks that the table shows are those of the live extents. */
  lemma FirstIffLive(t: Table, live: Extents, stranded: set<nat>, s: nat)
    requires Describes(t, live, stranded) && s < |t|
    ensures IsFirst(t[s]) <==> s in live
    ensures s in live ==> (HasNext(t[s]) <==> live[s] > 1)
  {
    if s in live {
      assert Covers(live, s, s);
    } else if InLive(live, s) {
      var r :| Covers(live, r, s);
    }
  }

  // Counting ---------------------------------------------------------------------

  function FreeBlocks(t: Table): set<nat> {
    set i | 0 <= i < |t| && t[i] == FREE
  }

  ghost function Sum(live: Extents): nat {
    if live == map[] then 0 else
      var s :| s in live;
      live[s] + Sum(live - {s})
  }

  lemma {:induction false} SumRemove(live: Extents, s: nat)
    requires s in live
    ensures Sum(live) == live[s] + Sum(live - {s})
    decreases |live|
  {
    var r :| r in live && Sum(live) == live[r] + Sum(live - {r});
    if r != s {
      SumRemove(live - {r}, s);
      SumRemove(live - {s}, r);
      assert live - {r} - {s} == live - {s} - {r};
    }
  }

  ghost function LiveBlocks(live: Extents, bound: nat): set<nat> {
    set i | 0 <= i < bound && InLive(live, i)
  }

  lemma InLiveSplit(live: Extents, s: nat, i: nat)
    requires s in live
    requires forall r | r in live && r < s :: r + live[r] <= s
    requires forall r | r in live && s < r :: s + live[s] <= r
    ensures InLive(live, i) <==> InLive(live - {s}, i) || Covers(live, s, i)
    ensures InLive(live - {s}, i) ==> !Covers(live, s, i)
  {
    var rest := live - {s};
    if InLive(rest, i) {
      var r :| Covers(rest, r, i);
      assert Covers(live, r, i);
    }
    if InLive(live, i) && !Covers(live, s, i) {
      var r :| Covers(live, r, i);
      assert Covers(rest, r, i);
    }
  }

  lemma DisjointSize(a: set<nat>, b: set<nat>)
    requires a !! b
    ensures |a + b| == |a| + |b|
  {
  }

  lemma LiveBlocksSplit(live: Extents, s: nat, bound: nat)
    requires s in live && s + live[s] <= bound
    requires forall r | r in live && r < s :: r + live[r] <= s
    requires forall r | r in live && s < r :: s + live[s] <= r
    ensures |LiveBlocks(live, bound)| == |LiveBlocks(live - {s}, bound)| + live[s]
  {
    var rest, extent := LiveBlocks(live - {s}, bound), Extent(s, live[s]);
    forall i: nat | i < bound
      ensures i in LiveBlocks(live, bound) <==> i in rest + extent
      ensures i in rest ==> i !in extent
    {
      InLiveSplit(live, s, i);
    }
    DisjointSize(rest, extent);
    assert LiveBlocks(live, bound) == rest + extent;
  }

  lemma {:induction false} LiveBlocksSize(live: Extents, bound: nat)
    requires forall s | s in live :: s + live[s] <= bound
    requires forall s, r | s in live && r in live && s < r :: s + live[s] <= r
    ensures |LiveBlocks(live, bound)| == Sum(live)
    decreases |live|
  {
    if live == map[] {
      assert LiveBlocks(live, bound) == {};
    } else {
      var s :| s in live;
      SumRemove(live, s);
      LiveBlocksSize(live - {s}, bound);
      LiveBlocksSplit(live, s, bound);
    }
  }

  lemma Partition(t: Table, live: Extents, stranded: set<nat>)
    requires Describes(t, live, stranded)
    ensures FreeBlocks(t) + LiveBlocks(live, |t|) + stranded == Extent(0, |t|)
    ensures FreeBlocks(t) !! LiveBlocks(live, |t|)
    ensures FreeBlocks(t) + LiveBlocks(live, |t|) !! stranded
  {
    forall i: nat | i < |t|
      ensures t[i] == FREE || i in stranded || InLive(live, i)
      ensures InLive(live, i) ==> t[i] != FREE
    {
      if InLive(live, i) {
        var s :| Covers(live, s, i);
        CoveredTaken(t, live, stranded, s, i);
      }
    }
  }

  /** Every block is free, live or stranded, and the three kinds add up to the table. */
  lemma Conservation(t: Table, live: Extents, stranded: set<nat>)
    requires Describes(t, live, stranded)
    ensures |FreeBlocks(t)| + Sum(live) + |stranded| == |t|
  {
    Partition(t, live, stranded);
    LiveBlocksSize(live, |t|);
    DisjointSize(FreeBlocks(t), LiveBlocks(live, |t|));
    DisjointSize(FreeBlocks(t) + LiveBlocks(live, |t|), stranded);
  }

  // All runs -----------------------------------------------------------------------

  datatype Op = Malloc(blocks: nat) | Free(start: nat)

  datatype State = State(table: Table, live: Extents, stranded: set<nat>)

  /** A fresh heap of n blocks. */
  function Fresh(n: nat): State {
    State(seq(n, _ => FREE), map[], {})
  }

  /** One call to the allocator. Only live extents are ever freed. */
  function Perform(st: State, op: Op): State
    requires op.Free? ==> op.start in st.live && op.start < |st.table|
  {
    match op
    case Malloc(n) =>
      var s := FirstFit(st.table, n);
      FirstFitLeast(st.table, n);
      if s < 0 then st else State(Take(st.table, s, n), st.live[s := n], st.stranded)
    case Free(s) =>
      State(Release(st.table, s), st.live - {s}, st.stranded + Rest(s, st.live[s]))
  }

  /** The states a heap of n blocks goes through, oldest first, and the calls between them. */
  ghost predicate IsRun(n: nat, states: seq<State>, ops: seq<Op>) {
    && |states| == |ops| + 1
    && states[0] == Fresh(n)
    && forall k | 0 <= k < |ops| ::
         && (ops[k].Free? ==> ops[k].start in states[k].live && ops[k].start < |states[k].table|)
         && states[k + 1] == Perform(states[k], ops[k])
  }

  /** Safety and conservation in every state of every run. */
  lemma {:induction false} RunSafe(n: nat, states: seq<State>, ops: seq<Op>, k: nat)
    requires IsRun(n, states, ops) && k <= |ops|
    ensures var st := states[k];
            && |st.table| == n
            && Describes(st.table, st.live, st.stranded)
            && |FreeBlocks(st.table)| + Sum(st.live) + |st.stranded| == n
  {
    if k > 0 {
      RunSafe(n, states, ops, k - 1);
      var st := states[k - 1];
      match ops[k - 1]
      case Malloc(blocks) =>
        FirstFitLeast(st.table, blocks);
        var s := FirstFit(st.table, blocks);
        if s >= 0 { TakeDescribes(st.table, st.live, st.stranded, s, blocks); }
      case Free(s) =>
        ReleaseDescribes(st.table, st.live, st.stranded, s);
    }
    Conservation(states[k].table, states[k].live, states[k].stranded);
  }

  /** One call to an allocator that releases as meant. */
  function PerformMeant(st: State, op: Op): State
    requires op.Free? ==> op.start in st.live && op.start < |st.table|
  {
    if op.Malloc? then Perform(st, op)
    else State(ReleaseMeant(st.table, op.start), st.live - {op.start}, st.stranded)
  }

  ghost predicate IsMeantRun(n: nat, states: seq<State>, ops: seq<Op>) {
    && |states| == |ops| + 1
    && states[0] == Fresh(n)
    && forall k | 0 <= k < |ops| ::
         && (ops[k].Free? ==> ops[k].start in states[k].live && ops[k].start < |states[k].table|)
         && states[k + 1] == PerformMeant(states[k], ops[k])
  }

  /** Released as meant, no block is ever stranded: in every state of every run each block is free or live. */
  lemma {:induction false} MeantRunSafe(n: nat, states: seq<State>, ops: seq<Op>, k: nat)
    requires IsMeantRun(n, states, ops) && k <= |ops|
    ensures var st := states[k];
            && |st.table| == n && st.stranded == {}
            && Describes(st.table, st.live, {})
            && |FreeBlocks(st.table)| + Sum(st.live) == n
  {
    if k > 0 {
      MeantRunSafe(n, states, ops, k - 1);
      var st := states[k - 1];
      match ops[k - 1]
      case Malloc(blocks) =>
        FirstFitLeast(st.table, blocks);
        var s := FirstFit(st.table, blocks);
        if s >= 0 { TakeDescribes(st.table, st.live, {}, s, blocks); }
      case Free(s) =>
        ReleaseMeantDescribes(st.table, st.live, s);
    }
    Conservation(states[k].table, states[k].live, {});
  }

  /** Freeing an n-block extent returns one block and strands n - 1. */
  lemma FreeStrands(t: Table, live: Extents, stranded: set<nat>, s: nat)
    requires Describes(t, live, stranded) && s in live && s < |t|
    ensures var st := Perform(State(t, live, stranded), Free(s));
            && |FreeBlocks(st.table)| == |FreeBlocks(t)| + 1
            && Sum(st.live) == Sum(live) - live[s]
            && |st.stranded| == |stranded| + live[s] - 1
  {
    assert Covers(live, s, s);
    assert FreeBlocks(Release(t, s)) == FreeBlocks(t) + {s};
    SumRemove(live, s);
    forall i | i in Rest(s, live[s])
      ensures i !in stranded
    {
      assert Covers(live, s, i);
    }
    assert |stranded + Rest(s, live[s])| == |stranded| + |Rest(s, live[s])|;
  }

  // Single blocks --------------------------------------------------------------------

  /** The table with one entry value written over a set of blocks. */
  function Paint(t: Table, blocks: set<int>, e: bv8): (r: Table)
    ensures |r| == |t| && forall i | 0 <= i < |t| :: r[i] == if i in blocks then e else t[i]
  {
    seq(|t|, i requires 0 <= i < |t| => if i in blocks then e else t[i])
  }

  /** Clearing the blocks that were taken restores the table. */
  lemma PaintUndone(t: Table, blocks: set<int>)
    requires forall i | 0 <= i < |t| && i in blocks :: t[i] == FREE
    ensures Paint(Paint(t, blocks, SINGLE), blocks, FREE) == t
  {
  }

  lemma TakeOne(t: Table, s: nat)
    requires s < |t|
    ensures Take(t, s, 1) == t[s := SINGLE]
  {
  }

  /** A single block is found as long as one is free, and taking it leaves one free block less. */
  lemma FirstFitOne(t: Table)
    requires forall i | 0 <= i < |t| :: IsTaken(t[i]) <==> t[i] != FREE
    ensures FirstFit(t, 1) >= 0 <==> |FreeBlocks(t)| > 0
    ensures var s := FirstFit(t, 1);
            s >= 0 ==> s < |t| && t[s] == FREE && |FreeBlocks(t[s := SINGLE])| == |FreeBlocks(t)| - 1
  {
    FirstFitLeast(t, 1);
    var s := FirstFit(t, 1);
    if s >= 0 {
      assert s in FreeBlocks(t);
      assert FreeBlocks(t[s := SINGLE]) == FreeBlocks(t) - {s};
    } else if |FreeBlocks(t)| > 0 {
      var i :| i in FreeBlocks(t);
      assert RunFree(t, i, 1);
    }
  }

  lemma DescribedTakenIffNotFree(t: Table, live: Extents, stranded: set<nat>)
    requires Describes(t, live, stranded)
    ensures forall i | 0 <= i < |t| :: IsTaken(t[i]) <==> t[i] != FREE
  {
    forall i | 0 <= i < |t|
      ensures IsTaken(t[i]) <==> t[i] != FREE
    {
      if InLive(live, i) { var s :| Covers(live, s, i); }
    }
  }

  /** What an allocation of one block does while a block is free. */
  lemma OneBlock(t: Table, live: Extents, stranded: set<nat>)
    requires Describes(t, live, stranded) && |FreeBlocks(t)| > 0
    ensures var s := FirstFit(t, 1);
            && 0 <= s < |t| && t[s] == FREE && s !in live
            && Take(t, s, 1) == t[s := SINGLE]
            && |FreeBlocks(t[s := SINGLE])| == |FreeBlocks(t)| - 1
  {
    DescribedTakenIffNotFree(t, live, stranded);
    FirstFitOne(t);
    FirstFitLeast(t, 1);
    TakeOne(t, FirstFit(t, 1));
    TakeUnused(t, live, stranded, FirstFit(t, 1), 1);
  }
}
