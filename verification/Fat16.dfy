/** src/fs/fat/fat16.c: the contents of a file as its chain of clusters, and the code that reads it. */
module Fat16 {
  import opened Words
  import opened Disk

  /** What the read path uses of a mounted volume: its disk, and values from the header and the root directory. */
  datatype Volume = Volume(disk: Content, reservedSectors: nat, sectorsPerCluster: nat, rootEnd: nat)
  {
    // Both are as wide as their fields in the header.
    predicate Valid() {
      1 <= sectorsPerCluster < 0x100 && reservedSectors < 0x1_0000
    }
  }

  type Cluster = c: int | 0 <= c < 0x1_0000

  // Mounting --------------------------------------------------------------------------------------

  /** A 16-bit field on a disk, the low byte first. */
  function Half(disk: Content, p: int): Cluster {
    disk(p) + 256 * disk(p + 1)
  }

  /** A disk is taken for a FAT16 volume when its header has the signature. */
  predicate Mounts(disk: Content) {
    disk(38) == 0x29
  }

  /** The first sector of the root directory: behind the reserved sectors and the copies of the table. */
  function RootSector(copies: nat, sectorsPerFat: nat, reservedSectors: nat): nat {
    copies * sectorsPerFat + reservedSectors
  }

  function RootStart(disk: Content): nat {
    RootSector(disk(16), Half(disk, 22), Half(disk, 14))
  }

  /** The volume that a header describes. The size of the root directory is rounded down to sectors. */
  function VolumeOf(disk: Content): Volume {
    Volume(disk, Half(disk, 14), disk(13), RootStart(disk) + Half(disk, 17) * 32 / 512)
  }

  lemma {:induction false} TablesBefore(copies: nat, size: nat, k: nat)
    requires k < copies
    ensures k * size + size <= copies * size && (k * size + size == copies * size <==> k == copies - 1 || size == 0)
    decreases copies
  {
    OneMore(k, size);
    if k < copies - 1 {
      OneMore(copies - 1, size);
      TablesBefore(copies - 1, size, k);
    }
  }

  lemma RootSectors(entries: nat)
    ensures entries * 32 / 512 == entries / 16
  {
  }

  /**
    The sectors of a volume in order: the reserved ones, then as many copies of the table as there are, one right behind
    the other, then the root directory, and then cluster 2.
  */
  lemma LayoutInOrder(disk: Content, k: nat)
    requires k < disk(16)
    ensures var (table, size) := (Half(disk, 14) + k * Half(disk, 22), Half(disk, 22));
            && table + size <= RootStart(disk)
            && (table + size == RootStart(disk) <==> k == disk(16) - 1 || size == 0)
    ensures VolumeOf(disk).reservedSectors == Half(disk, 14)
    ensures ClusterStart(VolumeOf(disk), 2) == (RootStart(disk) + Half(disk, 17) / 16) * 512
  {
    TablesBefore(disk(16), Half(disk, 22), k);
    RootSectors(Half(disk, 17));
  }

  lemma OneMore(k: nat, size: nat)
    ensures (k + 1) * size == k * size + size
  {
  }

  /** Without a table the root directory is right behind the reserved sectors. */
  lemma NoTables(disk: Content)
    requires disk(16) == 0
    ensures RootStart(disk) == Half(disk, 14)
  {
  }

  const HEADER_SIZE := 62

  /** A 16-bit field of a header that was read. */
  function Field(header: seq<byte>, i: nat): Cluster
    requires i + 1 < |header|
  {
    var high: int := header[i + 1];
    header[i] + 256 * high
  }

  lemma HeaderBytes(disk: Content, header: seq<byte>)
    requires |header| == HEADER_SIZE && header == Overwritten(header, 0, Bytes(disk, 0, HEADER_SIZE))
    ensures header[13] == disk(13) && header[16] == disk(16) && header[38] == disk(38)
    ensures Field(header, 14) == Half(disk, 14) && Field(header, 17) == Half(disk, 17)
    ensures Field(header, 22) == Half(disk, 22)
  {
    assert forall i | 0 <= i < HEADER_SIZE :: header[i] == Bytes(disk, 0, HEADER_SIZE)[i];
  }

  /** Reads the header of a disk from its start, and finds the volume in it. */
  method Resolve(stream: DiskStream) returns (res: int, volume: Volume)
    requires stream.pos == 0 && stream.attached
    modifies stream`pos
    ensures res == if Mounts(stream.disk) then OK else EFSNOTUS
    ensures res == OK ==> volume == VolumeOf(stream.disk)
  {
    volume := Volume(stream.disk, 0, 0, 0);
    var header := new byte[HEADER_SIZE](_ => 0);
    res := stream.Read(header, 0, HEADER_SIZE);
    HeaderBytes(stream.disk, header[..]);
    assert header[38] == header[..][38] && header[13] == header[..][13] && header[16] == header[..][16];
    if header[38] != 0x29 {
      return EFSNOTUS, volume;
    }
    var reserved: nat, rootEntries: nat := Field(header[..], 14), Field(header[..], 17);
    var rootSector := RootSector(header[16], Field(header[..], 22), reserved);
    volume := Volume(stream.disk, reserved, header[13], rootSector + rootEntries * 32 / 512);
  }

  function ClusterSize(v: Volume): (size: nat)
    requires v.Valid()
    ensures size >= SECTOR
  {
    v.sectorsPerCluster * 512
  }

  /** How many whole times d fits into x, and what remains: x / d and x % d without division. */
  function Fits(x: nat, d: nat): (q: nat)
    requires d > 0
  {
    if x < d then 0 else 1 + Fits(x - d, d)
  }

  function Rest(x: nat, d: nat): (r: nat)
    requires d > 0
    ensures r < d
  {
    if x < d then x else Rest(x - d, d)
  }

  lemma {:induction false} FitsIsDivision(x: nat, d: nat)
    requires d > 0
    ensures Fits(x, d) == x / d && Rest(x, d) == x % d
  {
    if x >= d {
      FitsIsDivision(x - d, d);
      assert x == d * ((x - d) / d + 1) + (x - d) % d;
      DivisionUnique(x, d, (x - d) / d + 1, (x - d) % d);
    }
  }

  lemma DivisionUnique(x: nat, d: nat, q: nat, r: nat)
    requires d > 0 && x == d * q + r && r < d
    ensures x / d == q && x % d == r
  {
    var e := x / d - q;
    assert d * e == r - x % d;
    assert e >= 1 ==> d * e >= d;
    assert e <= -1 ==> d * e <= 0 - d;
  }

  /** The position of a cluster. The data area starts with cluster 2. */
  function ClusterStart(v: Volume, c: int): int {
    (v.rootEnd + (c - 2) * v.sectorsPerCluster) * 512
  }

  /** Cluster 2 starts where the root directory ends. */
  lemma FirstClusterStart(v: Volume)
    ensures ClusterStart(v, 2) == v.rootEnd * 512
  {
  }

  lemma NextClusterStart(v: Volume, c: int, d: int)
    requires v.Valid()
    ensures ClusterStart(v, d) == ClusterStart(v, c) + ClusterSize(v) <==> d == c + 1
  {
    StepsApart(d - c, v.sectorsPerCluster);
    assert (d - 2) * v.sectorsPerCluster - (c - 2) * v.sectorsPerCluster == (d - c) * v.sectorsPerCluster;
  }

  lemma StepsApart(n: int, size: nat)
    requires size > 0
    ensures n * size == size <==> n == 1
  {
    if n < 1 {
      assert n * size <= 0;
    }
    if n > 1 {
      assert n * size >= 2 * size;
    }
  }

  /** An entry of the file allocation table: two bytes, the low one first. */
  function FatEntry(v: Volume, c: Cluster): Cluster {
    Half(v.disk, v.reservedSectors * 512 + c * 2)
  }

  /** The entries that end a walk: those of the 12-bit format. */
  predicate Rejected(e: Cluster) {
    e == 0xff8 || e == 0xfff || e == 0xff7 || e == 0xff0 || e == 0xff6 || e == 0
  }

  /** The cluster n links after the first, or an error. */
  function ClusterAt(v: Volume, first: Cluster, n: nat): (c: int)
    ensures c == EIO || 0 <= c < 0x1_0000
    decreases n
  {
    if n == 0 then first
    else
      var e := FatEntry(v, first);
      if Rejected(e) then EIO else ClusterAt(v, e, n - 1)
  }

  lemma {:induction false} ClusterAtNext(v: Volume, first: Cluster, n: nat)
    ensures ClusterAt(v, first, n + 1) ==
            var c := ClusterAt(v, first, n);
            if c == EIO || Rejected(FatEntry(v, c)) then EIO else FatEntry(v, c)
    decreases n
  {
    if n > 0 && !Rejected(FatEntry(v, first)) {
      ClusterAtNext(v, FatEntry(v, first), n - 1);
    }
  }

  // The read path as written ---------------------------------------------------------------------

  /** Whether a read of total bytes from offset on finds all its clusters. */
  function ReadResult(v: Volume, first: Cluster, offset: nat, total: nat): int
    requires v.Valid()
    decreases total
  {
    var size := ClusterSize(v);
    if ClusterAt(v, first, Fits(offset, size)) < 0 then EIO
    else if total <= size then OK
    else ReadResult(v, first, offset + size, total - size)
  }

  /** A read that finds all its clusters reads all its bytes. */
  lemma {:induction false} ReadResultRange(v: Volume, first: Cluster, offset: nat, total: nat)
    requires v.Valid()
    ensures ReadResult(v, first, offset, total) in {OK, EIO}
    ensures ReadResult(v, first, offset, total) == OK ==> |ReadPositions(v, first, offset, total)| == total
    decreases total
  {
    var size := ClusterSize(v);
    if total > size && ClusterAt(v, first, Fits(offset, size)) >= 0 {
      ReadResultRange(v, first, offset + size, total - size);
    }
  }

  /** The positions that it reads, up to a cluster that is not found. A chunk may be as long as a whole cluster. */
  function ReadPositions(v: Volume, first: Cluster, offset: nat, total: nat): (ps: seq<int>)
    requires v.Valid()
    ensures |ps| <= total
    decreases total
  {
    var size := ClusterSize(v);
    var c := ClusterAt(v, first, Fits(offset, size));
    if c < 0 then []
    else if total <= size then Chunk(v, c, offset, total)
    else Chunk(v, c, offset, size) + ReadPositions(v, first, offset + size, total - size)
  }

  /** n positions from the one on that an offset has in a cluster. */
  function Chunk(v: Volume, c: Cluster, offset: nat, n: nat): (ps: seq<int>)
    requires v.Valid()
    ensures |ps| == n && forall i | 0 <= i < n :: ps[i] == ClusterStart(v, c) + Rest(offset, ClusterSize(v)) + i
  {
    seq(n, i => ClusterStart(v, c) + Rest(offset, ClusterSize(v)) + i)
  }

  function DataAt(v: Volume, ps: seq<int>): (s: seq<byte>)
    ensures |s| == |ps| && forall i | 0 <= i < |ps| :: s[i] == v.disk(ps[i])
  {
    seq<byte>(|ps|, i requires 0 <= i < |ps| => v.disk(ps[i]))
  }

  predicate ChunkInReach(v: Volume, c: Cluster)
    requires v.Valid()
  {
    0 <= ClusterStart(v, c) && ClusterStart(v, c) + 2 * ClusterSize(v) + SECTOR <= 0x8000_0000
  }

  /** Every position read, and the sector after it, is within the reach of a C integer. */
  ghost predicate InReach(v: Volume, first: Cluster, offset: nat, total: nat)
    requires v.Valid()
    decreases total
  {
    var size := ClusterSize(v);
    var c := ClusterAt(v, first, Fits(offset, size));
    c >= 0 ==>
      && ChunkInReach(v, c)
      && (total > size ==> InReach(v, first, offset + size, total - size))
  }

  /** What a chunk, and what a whole read, leaves in a buffer. */
  function ChunkRead(v: Volume, s: seq<byte>, start: nat, c: Cluster, offset: nat, n: nat): (r: seq<byte>)
    requires v.Valid() && start + n <= |s|
    ensures |r| == |s|
  {
    Overwritten(s, start, DataAt(v, Chunk(v, c, offset, n)))
  }

  function StreamRead(v: Volume, s: seq<byte>, start: nat, first: Cluster, offset: nat, total: nat): (r: seq<byte>)
    requires v.Valid() && start + total <= |s|
    ensures |r| == |s|
  {
    Overwritten(s, start, DataAt(v, ReadPositions(v, first, offset, total)))
  }

  lemma OverwrittenPositions(v: Volume, s: seq<byte>, start: nat, a: seq<int>, b: seq<int>)
    requires start + |a| + |b| <= |s|
    ensures Overwritten(Overwritten(s, start, DataAt(v, a)), start + |a|, DataAt(v, b)) ==
            Overwritten(s, start, DataAt(v, a + b))
  {
  }

  lemma OverwrittenNothing(s: seq<byte>, start: nat, part: seq<byte>)
    requires start <= |s| && |part| == 0
    ensures Overwritten(s, start, part) == s
  {
  }

  /** Reading total bytes into s will end with a given result and give a goal. */
  ghost predicate Streaming(v: Volume, s: seq<byte>, start: nat, first: Cluster, offset: nat, total: nat,
                            goal: seq<byte>, result: int) {
    && v.Valid() && start + total <= |s| && InReach(v, first, offset, total)
    && ReadResult(v, first, offset, total) == result && StreamRead(v, s, start, first, offset, total) == goal
  }

  /** One chunk read: either the reading ends with it, or the rest follows. */
  lemma ReadStep(v: Volume, s: seq<byte>, start: nat, first: Cluster, offset: nat, total: nat, c: int, count: nat,
                 goal: seq<byte>, result: int)
    requires Streaming(v, s, start, first, offset, total, goal, result)
    requires c == ClusterAt(v, first, Fits(offset, ClusterSize(v)))
    requires count == if total > ClusterSize(v) then ClusterSize(v) else total
    ensures c < 0 ==> result == EIO && goal == s
    ensures c >= 0 && total == count ==> result == OK && goal == ChunkRead(v, s, start, c, offset, count)
    ensures c >= 0 && total > count ==>
              Streaming(v, ChunkRead(v, s, start, c, offset, count), start + count, first, offset + count,
                        total - count, goal, result)
  {
    if c < 0 {
      OverwrittenNothing(s, start, DataAt(v, []));
    } else if total > count {
      OverwrittenPositions(v, s, start, Chunk(v, c, offset, count),
                           ReadPositions(v, first, offset + count, total - count));
    }
  }

  // Reading items ---------------------------------------------------------------------------------

  /** The part of a directory entry that reading a file uses. The number of its first cluster has two halves. */
  datatype DirectoryItem = DirectoryItem(firstClusterHigh: Cluster, firstClusterLow: Cluster)

  function FirstCluster(item: DirectoryItem): u32 {
    item.firstClusterHigh * 0x1_0000 + item.firstClusterLow
  }

  // Directories -------------------------------------------------------------------------------------

  /** The first byte of the i-th entry of the directory at a position. */
  function EntryStart(v: Volume, pos: nat, i: nat): byte {
    v.disk(pos + i * 32)
  }

  /** The first cluster of the i-th entry, as it is stored in the low half of its number. */
  function EntryCluster(v: Volume, pos: nat, i: nat): Cluster {
    Half(v.disk, pos + i * 32 + 26)
  }

  /** A directory of 32-byte entries has n of them before the one that ends it. */
  ghost predicate EndsAfter(v: Volume, pos: nat, n: nat) {
    v.disk(pos + 32 * n) == 0 && forall i | 0 <= i < n :: v.disk(pos + 32 * i) != 0
  }

  lemma EndsAt(v: Volume, pos: nat, n: nat, k: nat)
    requires EndsAfter(v, pos, n) && k <= n
    ensures EntryStart(v, pos, k) == 0 <==> k == n
  {
    assert EntryStart(v, pos, k) == v.disk(pos + 32 * k);
  }

  function CountItems(v: Volume, pos: nat, n: nat): nat {
    if n == 0 then 0 else CountItems(v, pos, n - 1) + if EntryStart(v, pos, n - 1) == 0xe5 then 0 else 1
  }

  /** The count is the number of entries in use. */
  lemma {:induction false} CountIsNumberInUse(v: Volume, pos: nat, n: nat)
    ensures CountItems(v, pos, n) == |InUse(v, pos, n)|
  {
    if n > 0 {
      CountIsNumberInUse(v, pos, n - 1);
      OneEntryMore(v, pos, n - 1);
    }
  }

  /** The entries in use among the first n. */
  function InUse(v: Volume, pos: nat, n: nat): set<nat> {
    set i: nat | 0 <= i < n && v.disk(pos + 32 * i) != 0xe5
  }

  lemma OneEntryMore(v: Volume, pos: nat, n: nat)
    ensures n !in InUse(v, pos, n)
    ensures InUse(v, pos, n + 1) == InUse(v, pos, n) + if EntryStart(v, pos, n) == 0xe5 then {} else {n}
  {
    assert EntryStart(v, pos, n) == v.disk(pos + 32 * n);
    forall i: nat | i < n
      ensures i in InUse(v, pos, n + 1) <==> i in InUse(v, pos, n)
    {
    }
  }

  /** On a FAT16 volume the number is its low half. */
  lemma FirstClusterLow(item: DirectoryItem)
    ensures FirstCluster(item) == item.firstClusterLow <==> item.firstClusterHigh == 0
  {
  }

  class FileDescriptor {
    const item: DirectoryItem
    var pos: nat

    constructor (item: DirectoryItem)
      ensures this.item == item && pos == 0
    {
      this.item, pos := item, 0;
    }
  }

  /** How reading n items of the same size ends, one after the other until one is not found. */
  function ItemsResult(v: Volume, first: Cluster, offset: nat, size: nat, n: nat): int
    requires v.Valid()
    decreases n
  {
    if n == 0 then OK
    else
      var res := ReadResult(v, first, offset, size);
      if res < 0 then res else ItemsResult(v, first, offset + size, size, n - 1)
  }

  function ItemsPositions(v: Volume, first: Cluster, offset: nat, size: nat, n: nat): (ps: seq<int>)
    requires v.Valid()
    ensures |ps| <= ItemsSize(size, n)
    decreases n
  {
    if n == 0 then []
    else if ReadResult(v, first, offset, size) < 0 then ReadPositions(v, first, offset, size)
    else ReadPositions(v, first, offset, size) + ItemsPositions(v, first, offset + size, size, n - 1)
  }

  /** The bytes of n items. */
  function ItemsSize(size: nat, n: nat): nat {
    if n == 0 then 0 else size + ItemsSize(size, n - 1)
  }

  lemma {:induction false} ItemsSizeIsProduct(size: nat, n: nat)
    ensures ItemsSize(size, n) == n * size
  {
    if n > 0 {
      ItemsSizeIsProduct(size, n - 1);
      assert n * size == size + (n - 1) * size;
    }
  }

  ghost predicate ItemsInReach(v: Volume, first: Cluster, offset: nat, size: nat, n: nat)
    requires v.Valid()
    decreases n
  {
    n > 0 ==> InReach(v, first, offset, size) && ItemsInReach(v, first, offset + size, size, n - 1)
  }

  class FileSystem {
    const volume: Volume
    const clusterStream: DiskStream
    const fatStream: DiskStream
    const directoryStream: DiskStream

    constructor (volume: Volume, clusterStream: DiskStream, fatStream: DiskStream, directoryStream: DiskStream)
      ensures this.volume == volume && this.clusterStream == clusterStream
      ensures this.fatStream == fatStream && this.directoryStream == directoryStream
    {
      this.volume, this.clusterStream, this.fatStream, this.directoryStream :=
        volume, clusterStream, fatStream, directoryStream;
    }

    /** A volume is only ever found on the system disk, and has a stream for each purpose. */
    ghost predicate Valid() {
      && volume.Valid() && clusterStream != fatStream
      && clusterStream.attached && fatStream.attached && directoryStream.attached
      && clusterStream.disk == fatStream.disk == directoryStream.disk == volume.disk
    }

    method GetFatEntry(cluster: Cluster) returns (entry: Cluster)
      requires Valid()
      modifies fatStream`pos
      ensures entry == FatEntry(volume, cluster)
      ensures var p := 512 * volume.reservedSectors + 2 * cluster;
              entry == volume.disk(p) + 256 * volume.disk(p + 1)
    {
      var start := volume.reservedSectors * 512;
      var res := fatStream.Seek(start + cluster * 2);
      var result := new byte[2](_ => 0);
      res := fatStream.Read(result, 0, 2);
      assert result[0] == result[..][0] && result[1] == result[..][1];
      var high: int := result[1];
      entry := result[0] + 256 * high;
    }

    method GetClusterForOffset(first: Cluster, offset: nat) returns (res: int)
      requires Valid()
      modifies fatStream`pos
      ensures res == ClusterAt(volume, first, Fits(offset, ClusterSize(volume)))
    {
      var current: Cluster := first;
      FitsIsDivision(offset, ClusterSize(volume));
      var ahead := offset / ClusterSize(volume);
      for i := 0 to ahead
        invariant ClusterAt(volume, first, i) == current
      {
        ClusterAtNext(volume, first, i);
        var entry := GetFatEntry(current);
        if Rejected(entry) {
          Stopped(volume, first, i + 1, ahead);
          return EIO;
        }
        current := entry;
      }
      res := current;
    }

    /** Reads one chunk: from offset on, at most as many bytes as a cluster has. */
    method ReadChunk(first: Cluster, offset: nat, total: nat, out: array<byte>, start: nat)
      returns (res: int, count: nat)
      requires Valid() && start + total <= out.Length
      requires var c := ClusterAt(volume, first, Fits(offset, ClusterSize(volume))); c < 0 || ChunkInReach(volume, c)
      modifies fatStream`pos, clusterStream`pos, out
      ensures count == if total > ClusterSize(volume) then ClusterSize(volume) else total
      ensures var c := ClusterAt(volume, first, Fits(offset, ClusterSize(volume)));
              && res == (if c < 0 then EIO else OK) && (c < 0 ==> out[..] == old(out[..]))
              && (c >= 0 ==> out[..] == ChunkRead(volume, old(out[..]), start, c, offset, count))
    {
      var size := ClusterSize(volume);
      count := if total > size then size else total;
      res := GetClusterForOffset(first, offset);
      if res >= 0 {
        FitsIsDivision(offset, size);
        var pos := ClusterStart(volume, res) + offset % size;
        assert Bytes(volume.disk, pos, count) == DataAt(volume, Chunk(volume, res, offset, count));
        res := clusterStream.Seek(pos);
        res := clusterStream.Read(out, start, count);
      }
    }

    /** Reads the next chunk, and finds out whether it is the last: s is what out holds before, and s' after. */
    method ReadNext(first: Cluster, offset: nat, total: nat, out: array<byte>, start: nat, ghost s: seq<byte>,
                    ghost goal: seq<byte>, ghost result: int) returns (res: int, count: nat, ghost s': seq<byte>)
      requires Valid() && out[..] == s && Streaming(volume, s, start, first, offset, total, goal, result)
      modifies fatStream`pos, clusterStream`pos, out
      ensures out[..] == s' && (0 < count || total == 0)
      ensures if res < 0 || total <= count then res == result && s' == goal
              else Streaming(volume, s', start + count, first, offset + count, total - count, goal, result)
    {
      ghost var c := ClusterAt(volume, first, Fits(offset, ClusterSize(volume)));
      res, count := ReadChunk(first, offset, total, out, start);
      ReadStep(volume, s, start, first, offset, total, c, count, goal, result);
      s' := if c < 0 then s else ChunkRead(volume, s, start, c, offset, count);
    }

    /** Reads chunk by chunk, up to a cluster that is not found. */
    method ReadChunks(first: Cluster, offset: nat, total: nat, out: array<byte>, start: nat, ghost s: seq<byte>,
                      ghost goal: seq<byte>, ghost result: int) returns (res: int)
      requires Valid() && out[..] == s && Streaming(volume, s, start, first, offset, total, goal, result)
      modifies fatStream`pos, clusterStream`pos, out
      ensures res == result && out[..] == goal
      decreases total
    {
      var count;
      ghost var s';
      res, count, s' := ReadNext(first, offset, total, out, start, s, goal, result);
      if res >= 0 && total > count {
        res := ReadChunks(first, offset + count, total - count, out, start + count, s', goal, result);
      }
    }

    /** Reads total bytes of a file from offset on. */
    method ReadFromStream(first: Cluster, offset: nat, total: nat, out: array<byte>, start: nat) returns (res: int)
      requires Valid() && start + total <= out.Length && InReach(volume, first, offset, total)
      modifies fatStream`pos, clusterStream`pos, out
      ensures res == ReadResult(volume, first, offset, total)
      ensures out[..] == StreamRead(volume, old(out[..]), start, first, offset, total)
    {
      ghost var s := out[..];
      res := ReadChunks(first, offset, total, out, start, s, StreamRead(volume, s, start, first, offset, total),
                        ReadResult(volume, first, offset, total));
    }

    /** Reads one of the items that are still to be read. */
    method ReadItem(first: Cluster, offset: nat, size: nat, out: array<byte>, start: nat, ghost s: seq<byte>,
                    ghost left: nat, ghost goal: seq<byte>, ghost result: int) returns (res: int, ghost s': seq<byte>)
      requires Valid() && left > 0 && out[..] == s && Reading(volume, s, start, first, offset, size, left, goal, result)
      modifies fatStream`pos, clusterStream`pos, out
      ensures out[..] == s'
      ensures if res < 0 then result < 0 && res == EIO && s' == goal
              else Reading(volume, s', start + size, first, offset + size, size, left - 1, goal, result)
    {
      ItemStep(volume, s, start, first, offset, size, left, goal, result);
      res := ReadFromStream(first, offset, size, out, start);
      s' := StreamRead(volume, s, start, first, offset, size);
    }

    /** Reads nmemb items from the position of a file on. The position stays. */
    method Read(file: FileDescriptor, size: nat, nmemb: nat, out: array<byte>) returns (res: int)
      requires Valid() && ItemsSize(size, nmemb) <= out.Length && file.item.firstClusterHigh == 0
      requires file.pos + ItemsSize(size, nmemb) < 0x8000_0000 && nmemb < 0x8000_0000
      requires ItemsInReach(volume, file.item.firstClusterLow, file.pos, size, nmemb)
      modifies fatStream`pos, clusterStream`pos, out
      ensures res == if ItemsResult(volume, file.item.firstClusterLow, file.pos, size, nmemb) < 0 then EIO else nmemb
      ensures out[..] == ItemsRead(volume, old(out[..]), 0, file.item.firstClusterLow, file.pos, size, nmemb)
    {
      FirstClusterLow(file.item);
      ghost var first, s := file.item.firstClusterLow, out[..];
      ghost var goal := ItemsRead(volume, s, 0, first, file.pos, size, nmemb);
      ghost var result := ItemsResult(volume, first, file.pos, size, nmemb);
      var offset: nat, start: nat := file.pos, 0;
      ghost var left := nmemb;
      for i := 0 to nmemb
        invariant left == nmemb - i && out[..] == s
        invariant Reading(volume, s, start, first, offset, size, left, goal, result)
      {
        res, s := ReadItem(FirstCluster(file.item), offset, size, out, start, s, left, goal, result);
        if res < 0 {
          return;
        }
        start := start + size;
        offset := offset + size;
        left := left - 1;
      }
      res := nmemb;
      ReadingDone(volume, s, start, first, offset, size, goal, result);
    }

    /** Counts the entries of a directory up to the first that starts with 0; those that start with 0xe5 are free. */
    method GetTotalItems(startSector: nat, ghost n: nat) returns (res: int)
      requires Valid() && EndsAfter(volume, startSector * 512, n)
      requires startSector * 512 + n * 32 + 32 + SECTOR <= 0x8000_0000
      modifies directoryStream`pos
      ensures res == CountItems(volume, startSector * 512, n)
    {
      var pos := startSector * 512;
      res := directoryStream.Seek(pos);
      var item := new byte[32];
      var i := 0;
      ghost var k := 0;
      while true
        invariant 0 <= k <= n && directoryStream.pos == pos + k * 32 && i == CountItems(volume, pos, k)
        decreases n - k
      {
        res := directoryStream.Read(item, 0, 32);
        assert item[0] == item[..][0] == EntryStart(volume, pos, k);
        EndsAt(volume, pos, n, k);
        if item[0] == 0 {
          break;
        }
        k := k + 1;
        if item[0] == 0xe5 {
          continue;
        }
        i := i + 1;
      }
      res := i;
    }
  }

  /** What reading n items leaves in a buffer. */
  function ItemsRead(v: Volume, s: seq<byte>, start: nat, first: Cluster, offset: nat, size: nat, n: nat): seq<byte>
    requires v.Valid() && start + ItemsSize(size, n) <= |s|
  {
    Overwritten(s, start, DataAt(v, ItemsPositions(v, first, offset, size, n)))
  }

  /** Reading n more items into s will end with a given result and give a goal. */
  ghost predicate Reading(v: Volume, s: seq<byte>, start: nat, first: Cluster, offset: nat, size: nat, n: nat,
                          goal: seq<byte>, result: int) {
    && v.Valid() && start + ItemsSize(size, n) <= |s| && ItemsInReach(v, first, offset, size, n)
    && ItemsResult(v, first, offset, size, n) == result
    && ItemsRead(v, s, start, first, offset, size, n) == goal
  }

  lemma ReadingDone(v: Volume, s: seq<byte>, start: nat, first: Cluster, offset: nat, size: nat, goal: seq<byte>,
                    result: int)
    requires Reading(v, s, start, first, offset, size, 0, goal, result)
    ensures goal == s && result == OK
  {
    OverwrittenNothing(s, start, DataAt(v, []));
  }

  /** One item read: either the reading ends with it, or the others follow. */
  lemma ItemStep(v: Volume, s: seq<byte>, start: nat, first: Cluster, offset: nat, size: nat, n: nat, goal: seq<byte>,
                 result: int)
    requires Reading(v, s, start, first, offset, size, n, goal, result) && n > 0
    ensures InReach(v, first, offset, size) && start + size <= |s|
    ensures ReadResult(v, first, offset, size) in {OK, EIO}
    ensures var s' := StreamRead(v, s, start, first, offset, size);
            if ReadResult(v, first, offset, size) < 0 then result < 0 && s' == goal
            else Reading(v, s', start + size, first, offset + size, size, n - 1, goal, result)
  {
    ReadResultRange(v, first, offset, size);
    if ReadResult(v, first, offset, size) >= 0 {
      OverwrittenPositions(v, s, start, ReadPositions(v, first, offset, size),
                           ItemsPositions(v, first, offset + size, size, n - 1));
    }
  }

  lemma {:induction false} Stopped(v: Volume, first: Cluster, n: nat, m: nat)
    requires n <= m && ClusterAt(v, first, n) == EIO
    ensures ClusterAt(v, first, m) == EIO
    decreases m
  {
    if n < m {
      ClusterAtNext(v, first, m - 1);
      Stopped(v, first, n, m - 1);
    }
  }
}
