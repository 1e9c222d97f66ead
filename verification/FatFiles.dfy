/**
  What a FAT16 file is (FAT: General Overview of On-Disk Format, version 1.03, section "FAT Data Structure"), and when
  reading gives it.
*/
module FatFiles {
  import opened Words
  import opened Disk
  import opened Fat16

  // Chains --------------------------------------------------------------------------------------

  /** The clusters of a file: each entry of the table links one to the next. */
  ghost predicate IsChain(v: Volume, chain: seq<Cluster>) {
    |chain| > 0 && forall i | 0 <= i < |chain| - 1 :: FatEntry(v, chain[i]) == chain[i + 1]
  }

  /** No link of the chain is 0, or one of the marks of the 12-bit format that are looked for. */
  predicate Accepted(chain: seq<Cluster>) {
    forall i | 1 <= i < |chain| :: chain[i] !in {0, 0xff0, 0xff6, 0xff7, 0xff8, 0xfff}
  }

  /** Following the table from the first cluster gives the n-th one exactly when no link up to it is rejected. */
  lemma {:induction false} WalkFollowsChain(v: Volume, chain: seq<Cluster>, n: nat)
    requires IsChain(v, chain) && n < |chain|
    ensures ClusterAt(v, chain[0], n) == if Accepted(chain[..n + 1]) then chain[n] else EIO
    decreases n
  {
    if n > 0 {
      WalkFollowsChain(v, chain, n - 1);
      ClusterAtNext(v, chain[0], n - 1);
      assert chain[..n + 1] == chain[..n] + [chain[n]];
    }
  }

  /**
    The walk sees the end of a chain exactly when the entry of its last cluster is one of the rejected values, and goes
    on to that entry otherwise. None of the marks of the 16-bit format is among them.
  */
  lemma WalkPassesEnd(v: Volume, chain: seq<Cluster>)
    requires IsChain(v, chain) && Accepted(chain)
    ensures var e := FatEntry(v, chain[|chain| - 1]);
            && (ClusterAt(v, chain[0], |chain|) == EIO <==> Rejected(e))
            && (!Rejected(e) ==> ClusterAt(v, chain[0], |chain|) == e)
            && (Rejected(e) <==> e in {0, 0xff0, 0xff6, 0xff7, 0xff8, 0xfff}) && (e >= 0xfff8 ==> !Rejected(e))
  {
    WalkFollowsChain(v, chain, |chain| - 1);
    ClusterAtNext(v, chain[0], |chain| - 1);
    assert chain[..|chain|] == chain;
  }

  // File contents -------------------------------------------------------------------------------

  function Capacity(v: Volume, chain: seq<Cluster>): nat
    requires v.Valid()
  {
    ItemsSize(ClusterSize(v), |chain|)
  }

  /** The contents of the clusters of a chain, one after the other. */
  function FileData(v: Volume, chain: seq<Cluster>): (s: seq<byte>)
    requires v.Valid()
    ensures |s| == Capacity(v, chain)
    decreases |chain|
  {
    if chain == [] then []
    else Bytes(v.disk, ClusterStart(v, chain[0]), ClusterSize(v)) + FileData(v, chain[1..])
  }

  lemma {:induction false} FitsBelow(k: nat, size: nat, n: nat)
    requires size > 0 && k < ItemsSize(size, n)
    ensures Fits(k, size) < n
    decreases n
  {
    if k >= size {
      FitsBelow(k - size, size, n - 1);
    }
  }

  /** Where byte k of a file is on the disk. */
  function FilePosition(v: Volume, chain: seq<Cluster>, k: nat): int
    requires v.Valid() && k < Capacity(v, chain)
  {
    FitsBelow(k, ClusterSize(v), |chain|);
    ClusterStart(v, chain[Fits(k, ClusterSize(v))]) + Rest(k, ClusterSize(v))
  }

  lemma {:induction false} FileDataAt(v: Volume, chain: seq<Cluster>, k: nat)
    requires v.Valid() && k < Capacity(v, chain)
    ensures FileData(v, chain)[k] == v.disk(FilePosition(v, chain, k))
    decreases k
  {
    var size := ClusterSize(v);
    if k >= size {
      FileDataAt(v, chain[1..], k - size);
      FitsBelow(k, size, |chain|);
    }
  }

  lemma Regroup(n: int, s: nat)
    ensures n * s * 512 == n * (s * 512)
  {
  }

  lemma StartInBytes(v: Volume, c: Cluster, size: nat)
    requires size == v.sectorsPerCluster * 512
    ensures ClusterStart(v, c) == v.rootEnd * 512 + (c - 2) * size
  {
    Regroup(c - 2, v.sectorsPerCluster);
  }

  lemma FitsParts(k: nat, size: nat, q: nat, r: nat)
    requires size > 0 && k == size * q + r && r < size
    ensures Fits(k, size) == q && Rest(k, size) == r
  {
    FitsIsDivision(k, size);
    DivisionUnique(k, size, q, r);
  }

  lemma PositionBehind(v: Volume, chain: seq<Cluster>, k: nat, q: nat, r: nat)
    requires v.Valid() && k < Capacity(v, chain) && Fits(k, ClusterSize(v)) == q < |chain|
    requires Rest(k, ClusterSize(v)) == r
    ensures FilePosition(v, chain, k) == ClusterStart(v, chain[q]) + r
  {
  }

  lemma ByteBehind(v: Volume, chain: seq<Cluster>, k: nat, q: nat, r: nat, start: int)
    requires v.Valid() && k < Capacity(v, chain) && Fits(k, ClusterSize(v)) == q < |chain|
    requires Rest(k, ClusterSize(v)) == r && ClusterStart(v, chain[q]) == start
    ensures FileData(v, chain)[k] == v.disk(start + r)
  {
    PositionBehind(v, chain, k, q, r);
    FileDataAt(v, chain, k);
  }

  /**
    Where on the disk byte k of a file is: r bytes into the q-th cluster of its chain. The clusters lie one behind the
    other from the end of the root directory on, where cluster 2 starts.
  */
  lemma FileByte(v: Volume, chain: seq<Cluster>, k: nat, size: nat, q: nat, r: nat)
    requires v.Valid() && k < Capacity(v, chain)
    requires size == v.sectorsPerCluster * 512 && k == size * q + r && r < size
    ensures q < |chain| && FileData(v, chain)[k] == v.disk(v.rootEnd * 512 + (chain[q] - 2) * size + r)
  {
    FitsBelow(k, size, |chain|);
    FitsParts(k, size, q, r);
    StartInBytes(v, chain[q], size);
    ByteBehind(v, chain, k, q, r, v.rootEnd * 512 + (chain[q] - 2) * size);
  }

  function FilePositions(v: Volume, chain: seq<Cluster>, offset: nat, total: nat): (ps: seq<int>)
    requires v.Valid() && offset + total <= Capacity(v, chain)
    ensures |ps| == total
  {
    seq(total, k requires 0 <= k < total => FilePosition(v, chain, offset + k))
  }

  /** The bytes at the positions of a part of a file are that part of its contents. */
  lemma PositionsAreData(v: Volume, chain: seq<Cluster>, offset: nat, total: nat)
    requires v.Valid() && offset + total <= Capacity(v, chain)
    ensures DataAt(v, FilePositions(v, chain, offset, total)) == FileData(v, chain)[offset..offset + total]
  {
    var data, all := DataAt(v, FilePositions(v, chain, offset, total)), FileData(v, chain);
    forall k | 0 <= k < total
      ensures data[k] == all[offset + k]
    {
      FileDataAt(v, chain, offset + k);
    }
    SliceIs(data, all, offset);
  }

  lemma SliceIs(part: seq<byte>, all: seq<byte>, offset: nat)
    requires offset + |part| <= |all| && forall k | 0 <= k < |part| :: part[k] == all[offset + k]
    ensures part == all[offset..offset + |part|]
  {
  }

  lemma FilePositionsSplit(v: Volume, chain: seq<Cluster>, offset: nat, count: nat, total: nat)
    requires v.Valid() && count <= total && offset + total <= Capacity(v, chain)
    ensures FilePositions(v, chain, offset, total) ==
            FilePositions(v, chain, offset, count) + FilePositions(v, chain, offset + count, total - count)
  {
  }

  // When reading gives the contents --------------------------------------------------------------

  /** Going on by at most the size of a cluster leads to the same cluster or to the next. */
  lemma {:induction false} OffsetWithin(offset: nat, k: nat, size: nat)
    requires size > 0 && k <= size
    ensures if Rest(offset, size) + k < size
            then Fits(offset + k, size) == Fits(offset, size) && Rest(offset + k, size) == Rest(offset, size) + k
            else Fits(offset + k, size) == Fits(offset, size) + 1
                 && Rest(offset + k, size) == Rest(offset, size) + k - size
    decreases offset
  {
    if offset >= size {
      OffsetWithin(offset - size, k, size);
    }
  }

  /** The cluster after the i-th of the file is also the next on the disk. */
  predicate Adjacent(chain: seq<Cluster>, i: nat) {
    i + 1 < |chain| && var c: int := chain[i]; chain[i + 1] == c + 1
  }

  /** A chunk stays in its cluster, or runs into the next cluster of the file. */
  predicate StaysInFile(v: Volume, chain: seq<Cluster>, offset: nat, count: nat)
    requires v.Valid()
  {
    Rest(offset, ClusterSize(v)) + count > ClusterSize(v) ==> Adjacent(chain, Fits(offset, ClusterSize(v)))
  }

  /** Whether every chunk of a read does. */
  predicate Contiguous(v: Volume, chain: seq<Cluster>, offset: nat, total: nat)
    requires v.Valid()
    decreases total
  {
    var size := ClusterSize(v);
    if total <= size then StaysInFile(v, chain, offset, total)
    else StaysInFile(v, chain, offset, size) && Contiguous(v, chain, offset + size, total - size)
  }

  /** A byte less than a cluster further on is in the same cluster or in the next one of the file. */
  lemma PositionWithin(v: Volume, chain: seq<Cluster>, offset: nat, k: nat)
    requires v.Valid() && k < ClusterSize(v) && offset + k < Capacity(v, chain)
    ensures var q, r := Fits(offset, ClusterSize(v)), Rest(offset, ClusterSize(v));
            if r + k < ClusterSize(v)
            then q < |chain| && FilePosition(v, chain, offset + k) == ClusterStart(v, chain[q]) + r + k
            else q + 1 < |chain| &&
                 FilePosition(v, chain, offset + k) == ClusterStart(v, chain[q + 1]) + r + k - ClusterSize(v)
  {
    OffsetWithin(offset, k, ClusterSize(v));
    FitsBelow(offset + k, ClusterSize(v), |chain|);
  }

  /** A byte of a chunk is that of the file when it stays inside the cluster or the next cluster of the file follows. */
  lemma ChunkByteIsFile(v: Volume, chain: seq<Cluster>, offset: nat, k: nat)
    requires v.Valid() && k < ClusterSize(v) && offset + k < Capacity(v, chain)
    ensures var q, r := Fits(offset, ClusterSize(v)), Rest(offset, ClusterSize(v));
            && q < |chain|
            && (ClusterStart(v, chain[q]) + r + k == FilePosition(v, chain, offset + k) <==>
                r + k < ClusterSize(v) || Adjacent(chain, q))
  {
    PositionWithin(v, chain, offset, k);
    var q := Fits(offset, ClusterSize(v));
    if q + 1 < |chain| {
      NextClusterStart(v, chain[q], chain[q + 1]);
    }
  }

  /** One chunk reads the file exactly when it stays inside its cluster or the next cluster of the file follows it. */
  lemma ChunkIsFile(v: Volume, chain: seq<Cluster>, offset: nat, count: nat)
    requires v.Valid() && count <= ClusterSize(v)
    requires offset < Capacity(v, chain) && offset + count <= Capacity(v, chain)
    ensures Fits(offset, ClusterSize(v)) < |chain|
    ensures Chunk(v, chain[Fits(offset, ClusterSize(v))], offset, count) == FilePositions(v, chain, offset, count) <==>
            StaysInFile(v, chain, offset, count)
  {
    FitsBelow(offset, ClusterSize(v), |chain|);
    var q, r := Fits(offset, ClusterSize(v)), Rest(offset, ClusterSize(v));
    var ps, fs := Chunk(v, chain[q], offset, count), FilePositions(v, chain, offset, count);
    forall k | 0 <= k < count
      ensures ps[k] == fs[k] <==> r + k < ClusterSize(v) || Adjacent(chain, q)
    {
      ChunkByteIsFile(v, chain, offset, k);
    }
    if r + count > ClusterSize(v) {
      assert ps[count - 1] == fs[count - 1] <==> Adjacent(chain, q);
    }
  }

  /** Whether the positions that are read are those of the file. */
  predicate ReadsFile(v: Volume, chain: seq<Cluster>, offset: nat, total: nat)
    requires v.Valid() && |chain| > 0 && offset + total <= Capacity(v, chain)
  {
    ReadPositions(v, chain[0], offset, total) == FilePositions(v, chain, offset, total)
  }

  /** Reading inside the capacity of a chain finds all its clusters. */
  lemma {:induction false} ReadFound(v: Volume, chain: seq<Cluster>, offset: nat, total: nat)
    requires v.Valid() && IsChain(v, chain) && Accepted(chain)
    requires offset < Capacity(v, chain) && offset + total <= Capacity(v, chain)
    ensures ReadResult(v, chain[0], offset, total) == OK
    decreases total
  {
    FitsBelow(offset, ClusterSize(v), |chain|);
    WalkFollowsChain(v, chain, Fits(offset, ClusterSize(v)));
    if total > ClusterSize(v) {
      ReadFound(v, chain, offset + ClusterSize(v), total - ClusterSize(v));
    }
  }

  /** A read of more than a cluster is one chunk and another read. */
  lemma ReadSplit(v: Volume, chain: seq<Cluster>, offset: nat, total: nat, c: Cluster)
    requires v.Valid() && |chain| > 0 && total > ClusterSize(v) && offset + total <= Capacity(v, chain)
    requires ReadResult(v, chain[0], offset, total) == OK && c == ClusterAt(v, chain[0], Fits(offset, ClusterSize(v)))
    ensures ReadsFile(v, chain, offset, total) <==>
            && Chunk(v, c, offset, ClusterSize(v)) == FilePositions(v, chain, offset, ClusterSize(v))
            && ReadsFile(v, chain, offset + ClusterSize(v), total - ClusterSize(v))
  {
    var size := ClusterSize(v);
    FilePositionsSplit(v, chain, offset, size, total);
    SameSplit(Chunk(v, c, offset, size), ReadPositions(v, chain[0], offset + size, total - size),
              FilePositions(v, chain, offset, size), FilePositions(v, chain, offset + size, total - size));
  }

  /** A read of at most a cluster is one chunk. */
  lemma SingleChunk(v: Volume, chain: seq<Cluster>, offset: nat, total: nat)
    requires v.Valid() && IsChain(v, chain) && Accepted(chain) && total <= ClusterSize(v)
    requires offset < Capacity(v, chain) && offset + total <= Capacity(v, chain)
    ensures ReadsFile(v, chain, offset, total) <==> StaysInFile(v, chain, offset, total)
  {
    FitsBelow(offset, ClusterSize(v), |chain|);
    WalkFollowsChain(v, chain, Fits(offset, ClusterSize(v)));
    ChunkIsFile(v, chain, offset, total);
  }

  /** A longer read is one chunk and another read. */
  lemma FirstChunk(v: Volume, chain: seq<Cluster>, offset: nat, total: nat)
    requires v.Valid() && IsChain(v, chain) && Accepted(chain)
    requires total > ClusterSize(v) && offset + total <= Capacity(v, chain)
    ensures ReadsFile(v, chain, offset, total) <==>
            && StaysInFile(v, chain, offset, ClusterSize(v))
            && ReadsFile(v, chain, offset + ClusterSize(v), total - ClusterSize(v))
  {
    ReadFound(v, chain, offset, total);
    FitsBelow(offset, ClusterSize(v), |chain|);
    WalkFollowsChain(v, chain, Fits(offset, ClusterSize(v)));
    ReadSplit(v, chain, offset, total, chain[Fits(offset, ClusterSize(v))]);
    ChunkIsFile(v, chain, offset, ClusterSize(v));
  }

  /**
    The positions read are those of the file exactly when every chunk that runs over the end of its cluster runs into
    the file's next cluster.
  */
  lemma {:induction false} ReadIsFile(v: Volume, chain: seq<Cluster>, offset: nat, total: nat)
    requires v.Valid() && IsChain(v, chain) && Accepted(chain)
    requires offset < Capacity(v, chain) && offset + total <= Capacity(v, chain)
    ensures ReadsFile(v, chain, offset, total) <==> Contiguous(v, chain, offset, total)
    decreases total
  {
    if total <= ClusterSize(v) {
      SingleChunk(v, chain, offset, total);
    } else {
      FirstChunk(v, chain, offset, total);
      ReadIsFile(v, chain, offset + ClusterSize(v), total - ClusterSize(v));
    }
  }

  lemma SameSplit(a: seq<int>, b: seq<int>, c: seq<int>, d: seq<int>)
    requires |a| == |c|
    ensures a + b == c + d <==> a == c && b == d
  {
    if a + b == c + d {
      assert a == (a + b)[..|a|] && b == (a + b)[|a|..];
    }
  }

  predicate ItemsContiguous(v: Volume, chain: seq<Cluster>, offset: nat, size: nat, n: nat)
    requires v.Valid()
    decreases n
  {
    n > 0 ==> Contiguous(v, chain, offset, size) && ItemsContiguous(v, chain, offset + size, size, n - 1)
  }

  predicate ItemsReadFile(v: Volume, chain: seq<Cluster>, offset: nat, size: nat, n: nat)
    requires v.Valid() && |chain| > 0 && offset + ItemsSize(size, n) <= Capacity(v, chain)
  {
    ItemsPositions(v, chain[0], offset, size, n) == FilePositions(v, chain, offset, ItemsSize(size, n))
  }

  /** One item more, in front of the others. */
  lemma ItemsSplit(v: Volume, chain: seq<Cluster>, offset: nat, size: nat, n: nat)
    requires v.Valid() && n > 0 && |chain| > 0 && offset + ItemsSize(size, n) <= Capacity(v, chain)
    requires ReadResult(v, chain[0], offset, size) == OK
    ensures offset + size + ItemsSize(size, n - 1) <= Capacity(v, chain)
    ensures ItemsReadFile(v, chain, offset, size, n) <==>
            ReadsFile(v, chain, offset, size) && ItemsReadFile(v, chain, offset + size, size, n - 1)
  {
    var rest := ItemsSize(size, n - 1);
    ReadResultRange(v, chain[0], offset, size);
    FilePositionsSplit(v, chain, offset, size, size + rest);
    SameSplit(ReadPositions(v, chain[0], offset, size), ItemsPositions(v, chain[0], offset + size, size, n - 1),
              FilePositions(v, chain, offset, size), FilePositions(v, chain, offset + size, rest));
  }

  lemma {:induction false} ItemsFound(v: Volume, chain: seq<Cluster>, offset: nat, size: nat, n: nat)
    requires v.Valid() && IsChain(v, chain) && Accepted(chain)
    requires offset + ItemsSize(size, n) <= Capacity(v, chain) && (n > 0 ==> offset < Capacity(v, chain))
    ensures ItemsResult(v, chain[0], offset, size, n) == OK
    decreases n
  {
    if n > 0 {
      ReadFound(v, chain, offset, size);
      MoreItemsFit(size, n);
      ItemsFound(v, chain, offset + size, size, n - 1);
    }
  }

  /** A first item is a read of its own, in front of the others. */
  lemma FirstItem(v: Volume, chain: seq<Cluster>, offset: nat, size: nat, n: nat)
    requires v.Valid() && IsChain(v, chain) && Accepted(chain) && n > 0
    requires offset + ItemsSize(size, n) <= Capacity(v, chain) && offset < Capacity(v, chain)
    ensures offset + size + ItemsSize(size, n - 1) <= Capacity(v, chain)
    ensures ItemsReadFile(v, chain, offset, size, n) <==>
            Contiguous(v, chain, offset, size) && ItemsReadFile(v, chain, offset + size, size, n - 1)
  {
    ReadFound(v, chain, offset, size);
    ReadIsFile(v, chain, offset, size);
    ItemsSplit(v, chain, offset, size, n);
  }

  /** The same for any number of items in a row. */
  lemma {:induction false} ItemsAreFile(v: Volume, chain: seq<Cluster>, offset: nat, size: nat, n: nat)
    requires v.Valid() && IsChain(v, chain) && Accepted(chain)
    requires offset + ItemsSize(size, n) <= Capacity(v, chain) && (n > 0 ==> offset < Capacity(v, chain))
    ensures ItemsReadFile(v, chain, offset, size, n) <==> ItemsContiguous(v, chain, offset, size, n)
    decreases n
  {
    if n > 0 {
      FirstItem(v, chain, offset, size, n);
      MoreItemsFit(size, n);
      ItemsAreFile(v, chain, offset + size, size, n - 1);
    }
  }

  lemma MoreItemsFit(size: nat, n: nat)
    requires n > 0
    ensures n > 1 ==> ItemsSize(size, n - 1) >= size
  {
  }

  /** What a file read leaves in its buffer is then the file's contents from its position on. */
  lemma ReadGivesContents(v: Volume, chain: seq<Cluster>, s: seq<byte>, offset: nat, size: nat, n: nat)
    requires v.Valid() && IsChain(v, chain) && Accepted(chain) && ItemsSize(size, n) <= |s|
    requires offset + ItemsSize(size, n) <= Capacity(v, chain) && (n > 0 ==> offset < Capacity(v, chain))
    requires ItemsContiguous(v, chain, offset, size, n)
    ensures ItemsResult(v, chain[0], offset, size, n) == OK
    ensures ItemsRead(v, s, 0, chain[0], offset, size, n) ==
            Overwritten(s, 0, FileData(v, chain)[offset..offset + ItemsSize(size, n)])
  {
    ItemsFound(v, chain, offset, size, n);
    ItemsAreFile(v, chain, offset, size, n);
    PositionsAreData(v, chain, offset, ItemsSize(size, n));
    SameData(v, s, ItemsPositions(v, chain[0], offset, size, n), FilePositions(v, chain, offset, ItemsSize(size, n)),
             FileData(v, chain)[offset..offset + ItemsSize(size, n)]);
  }

  lemma SameData(v: Volume, s: seq<byte>, ps: seq<int>, fs: seq<int>, data: seq<byte>)
    requires ps == fs && DataAt(v, fs) == data && |data| <= |s|
    ensures Overwritten(s, 0, DataAt(v, ps)) == Overwritten(s, 0, data)
  {
  }

  /** A read that starts on a cluster boundary always gives the contents. */
  lemma {:induction false} AlignedContiguous(v: Volume, chain: seq<Cluster>, offset: nat, total: nat)
    requires v.Valid() && Rest(offset, ClusterSize(v)) == 0
    ensures Contiguous(v, chain, offset, total)
    decreases total
  {
    if total > ClusterSize(v) {
      OffsetWithin(offset, ClusterSize(v), ClusterSize(v));
      AlignedContiguous(v, chain, offset + ClusterSize(v), total - ClusterSize(v));
    }
  }

  // Reading twice -----------------------------------------------------------------------------------

  /** Two reads in a row return the same: the position of the file does not move. */
  method ReadTwice(fs: FileSystem, file: FileDescriptor, size: nat, nmemb: nat, first: array<byte>,
                   second: array<byte>)
    returns (res1: int, res2: int)
    requires fs.Valid() && file.item.firstClusterHigh == 0 && first != second
    requires ItemsSize(size, nmemb) <= first.Length && ItemsSize(size, nmemb) <= second.Length
    requires file.pos + ItemsSize(size, nmemb) < 0x8000_0000 && nmemb < 0x8000_0000
    requires ItemsInReach(fs.volume, file.item.firstClusterLow, file.pos, size, nmemb)
    modifies fs.fatStream`pos, fs.clusterStream`pos, first, second
    ensures file.pos == old(file.pos) && res1 == res2
    ensures var ps := ItemsPositions(fs.volume, file.item.firstClusterLow, old(file.pos), size, nmemb);
            first[..|ps|] == second[..|ps|] == DataAt(fs.volume, ps)
  {
    ghost var ps := ItemsPositions(fs.volume, file.item.firstClusterLow, file.pos, size, nmemb);
    res1 := fs.Read(file, size, nmemb, first);
    FrontIs(first[..], old(first[..]), DataAt(fs.volume, ps));
    res2 := fs.Read(file, size, nmemb, second);
    FrontIs(second[..], old(second[..]), DataAt(fs.volume, ps));
  }

  lemma FrontIs(s: seq<byte>, before: seq<byte>, part: seq<byte>)
    requires |part| <= |before| && s == Overwritten(before, 0, part)
    ensures s[..|part|] == part
  {
  }

  lemma ClustersApart(v: Volume, c: int, d: int)
    requires v.Valid() && c != d
    ensures ClusterStart(v, c) - ClusterStart(v, d) >= ClusterSize(v) ||
            ClusterStart(v, d) - ClusterStart(v, c) >= ClusterSize(v)
  {
    assert ClusterStart(v, c) - ClusterStart(v, d) == (c - d) * ClusterSize(v);
    MultipleApart(c - d, ClusterSize(v));
  }

  lemma MultipleApart(n: int, size: nat)
    requires n != 0
    ensures n * size >= size || n * size <= 0 - size
  {
    assert n >= 1 ==> n * size >= size;
    assert n <= -1 ==> n * size <= 0 - size;
  }

  lemma {:induction false} PartsUnique(k: nat, l: nat, size: nat)
    requires size > 0 && Fits(k, size) == Fits(l, size) && Rest(k, size) == Rest(l, size)
    ensures k == l
    decreases k
  {
    if k >= size {
      PartsUnique(k - size, l - size, size);
    }
  }

  /** Different bytes of a file whose clusters are all different are in different places. */
  lemma PositionsDistinct(v: Volume, chain: seq<Cluster>, k: nat, l: nat)
    requires v.Valid() && k < Capacity(v, chain) && l < Capacity(v, chain) && k != l
    requires forall i, j | 0 <= i < j < |chain| :: chain[i] != chain[j]
    ensures FilePosition(v, chain, k) != FilePosition(v, chain, l)
  {
    var size := ClusterSize(v);
    FitsBelow(k, size, |chain|);
    FitsBelow(l, size, |chain|);
    if Fits(k, size) != Fits(l, size) {
      ClustersApart(v, chain[Fits(k, size)], chain[Fits(l, size)]);
    } else if Rest(k, size) == Rest(l, size) {
      PartsUnique(k, l, size);
    }
  }

  lemma PartsApart(v: Volume, chain: seq<Cluster>, offset: nat, total: nat)
    requires v.Valid() && offset + total + total <= Capacity(v, chain)
    requires forall i, j | 0 <= i < j < |chain| :: chain[i] != chain[j]
    ensures FilePositions(v, chain, offset, total) == FilePositions(v, chain, offset + total, total) <==> total == 0
  {
    if total > 0 {
      PositionsDistinct(v, chain, offset, offset + total);
      assert FilePositions(v, chain, offset, total)[0] == FilePosition(v, chain, offset);
      assert FilePositions(v, chain, offset + total, total)[0] == FilePosition(v, chain, offset + total);
    }
  }

  /**
    Two reads in a row from a position where reading gives the file: both return the bytes from that position on. So the
    second one is a read of the part that follows the first exactly when both are empty.
  */
  lemma SecondReadFollowsIff(v: Volume, chain: seq<Cluster>, pos: nat, size: nat, n: nat, total: nat)
    requires v.Valid() && IsChain(v, chain) && Accepted(chain)
    requires forall i, j | 0 <= i < j < |chain| :: chain[i] != chain[j]
    requires total == ItemsSize(size, n) && pos + total + total <= Capacity(v, chain)
    requires (n > 0 ==> pos < Capacity(v, chain)) && ItemsContiguous(v, chain, pos, size, n)
    ensures DataAt(v, ItemsPositions(v, chain[0], pos, size, n)) == FileData(v, chain)[pos..pos + total]
    ensures ItemsPositions(v, chain[0], pos, size, n) == FilePositions(v, chain, pos + total, total) <==> total == 0
  {
    ItemsAreFile(v, chain, pos, size, n);
    PositionsAreData(v, chain, pos, total);
    PartsApart(v, chain, pos, total);
  }

  // The form the code means ------------------------------------------------------------------------

  /** The positions of a read whose chunks end with their clusters. */
  function MeantPositions(v: Volume, first: Cluster, offset: nat, total: nat): (ps: seq<int>)
    requires v.Valid()
    decreases total
  {
    var size := ClusterSize(v);
    var c, room := ClusterAt(v, first, Fits(offset, size)), size - Rest(offset, size);
    if c < 0 then []
    else if total <= room then Chunk(v, c, offset, total)
    else Chunk(v, c, offset, room) + MeantPositions(v, first, offset + room, total - room)
  }

  /** They are always those of the file. */
  lemma {:induction false} MeantReadIsFile(v: Volume, chain: seq<Cluster>, offset: nat, total: nat)
    requires v.Valid() && IsChain(v, chain) && Accepted(chain)
    requires offset < Capacity(v, chain) && offset + total <= Capacity(v, chain)
    ensures MeantPositions(v, chain[0], offset, total) == FilePositions(v, chain, offset, total)
    decreases total
  {
    var size := ClusterSize(v);
    FitsBelow(offset, size, |chain|);
    WalkFollowsChain(v, chain, Fits(offset, size));
    var room := size - Rest(offset, size);
    var count := if total > room then room else total;
    ChunkIsFile(v, chain, offset, count);
    if total > room {
      MeantReadIsFile(v, chain, offset + room, total - room);
      FilePositionsSplit(v, chain, offset, room, total);
    }
  }

  /** The positions of n items of the same size, each read in that form. */
  function MeantItemsPositions(v: Volume, first: Cluster, offset: nat, size: nat, n: nat): (ps: seq<int>)
    requires v.Valid()
    decreases n
  {
    if n == 0 then []
    else MeantPositions(v, first, offset, size) + MeantItemsPositions(v, first, offset + size, size, n - 1)
  }

  lemma JoinPositions(v: Volume, chain: seq<Cluster>, offset: nat, size: nat, rest: nat, total: nat, a: seq<int>,
                      b: seq<int>)
    requires v.Valid() && total == size + rest && offset + total <= Capacity(v, chain)
    requires a == FilePositions(v, chain, offset, size) && b == FilePositions(v, chain, offset + size, rest)
    ensures a + b == FilePositions(v, chain, offset, total)
  {
    FilePositionsSplit(v, chain, offset, size, total);
  }

  lemma {:induction false} MeantItemsAreFile(v: Volume, chain: seq<Cluster>, offset: nat, size: nat, n: nat)
    requires v.Valid() && IsChain(v, chain) && Accepted(chain)
    requires offset + ItemsSize(size, n) <= Capacity(v, chain) && (n > 0 ==> offset < Capacity(v, chain))
    ensures MeantItemsPositions(v, chain[0], offset, size, n) == FilePositions(v, chain, offset, ItemsSize(size, n))
    decreases n
  {
    if n > 0 {
      MeantReadIsFile(v, chain, offset, size);
      MoreItemsFit(size, n);
      MeantItemsAreFile(v, chain, offset + size, size, n - 1);
      JoinPositions(v, chain, offset, size, ItemsSize(size, n - 1), ItemsSize(size, n),
                    MeantPositions(v, chain[0], offset, size),
                    MeantItemsPositions(v, chain[0], offset + size, size, n - 1));
    }
  }

  /** In that form a file read gives the file's contents for every position, size and number of items. */
  lemma MeantReadGivesContents(v: Volume, chain: seq<Cluster>, offset: nat, size: nat, n: nat)
    requires v.Valid() && IsChain(v, chain) && Accepted(chain)
    requires offset + ItemsSize(size, n) <= Capacity(v, chain) && (n > 0 ==> offset < Capacity(v, chain))
    ensures DataAt(v, MeantItemsPositions(v, chain[0], offset, size, n)) ==
            FileData(v, chain)[offset..offset + ItemsSize(size, n)]
  {
    MeantItemsAreFile(v, chain, offset, size, n);
    PositionsAreData(v, chain, offset, ItemsSize(size, n));
  }
}
