/** Small disks on which reading a file departs from what the file holds, and the disk that the kernel boots from. */
module FatExamples {
  import opened Words
  import opened Disk
  import opened Fat16
  import opened FatFiles

  /** A boot sector: one FAT of one sector, clusters of one sector, a root directory of 16 entries, six sectors. */
  function BootSector(i: int): byte {
    match i
    case 12 => 2
    case 13 => 1
    case 14 => 1
    case 16 => 1
    case 17 => 16
    case 19 => 6
    case 22 => 1
    case 38 => 0x29
    case _ => 0
  }

  /** A root directory with one file, A, which starts with cluster 2, and whose size is a multiple of 256. */
  function RootSector(i: int, size: byte): byte {
    match i
    case 0 => 0x41
    case 26 => 2
    case 29 => size
    case _ => 0
  }

  /** A table in which cluster 4 follows cluster 2 and ends the file. */
  function SplitTable(i: int): byte {
    match i
    case 0 => 0xf8
    case 1 => 0xff
    case 2 => 0xff
    case 3 => 0xff
    case 4 => 4
    case 8 => 0xff
    case 9 => 0xff
    case _ => 0
  }

  /** A disk with that file: cluster 3, which is none of its clusters, is full of 1. */
  function SplitDisk(p: int): byte {
    if p < 512 then BootSector(p)
    else if p < 1024 then SplitTable(p - 512)
    else if p < 1536 then RootSector(p - 1024, 4)
    else if 2048 <= p < 2560 then 1
    else 0
  }

  /** A table in which cluster 2 is a file of its own. */
  function ShortTable(i: int): byte {
    match i
    case 0 => 0xf8
    case 1 => 0xff
    case 2 => 0xff
    case 3 => 0xff
    case 4 => 0xff
    case 5 => 0xff
    case _ => 0
  }

  function ShortDisk(p: int): byte {
    if p < 512 then BootSector(p)
    else if p < 1024 then ShortTable(p - 512)
    else if p < 1536 then RootSector(p - 1024, 2)
    else 0
  }

  /** A disk that is mounted as the volume v, with one file in its root directory, which starts with cluster 2. */
  ghost predicate HoldsOneFile(disk: Content, v: Volume) {
    && Mounts(disk) && v == VolumeOf(disk) && v.Valid()
    && EndsAfter(v, RootStart(disk) * 512, 1) && EntryCluster(v, RootStart(disk) * 512, 0) == 2
  }

  lemma SplitDiskMounts()
    ensures HoldsOneFile(SplitDisk, Volume(SplitDisk, 1, 1, 3))
  {
    var v := Volume(SplitDisk, 1, 1, 3);
    assert RootStart(SplitDisk) == 2;
    assert v.disk(1024 + 32 * 0) == 0x41 && v.disk(1024 + 32 * 1) == 0;
  }

  lemma ShortDiskMounts()
    ensures HoldsOneFile(ShortDisk, Volume(ShortDisk, 1, 1, 3))
  {
    var v := Volume(ShortDisk, 1, 1, 3);
    assert RootStart(ShortDisk) == 2;
    assert v.disk(1024 + 32 * 0) == 0x41 && v.disk(1024 + 32 * 1) == 0;
  }

  /** A read of a sector from the middle of the split file's first cluster returns bytes that are not the file's. */
  lemma MidClusterReadGoesWrong()
    ensures var v := Volume(SplitDisk, 1, 1, 3);
            && HoldsOneFile(SplitDisk, v)
            && IsChain(v, [2, 4]) && Accepted([2, 4]) && FatEntry(v, 4) == 0xffff && Capacity(v, [2, 4]) == 1024
            && DataAt(v, ReadPositions(v, 2, 256, 512)) != FileData(v, [2, 4])[256..768]
  {
    var v := Volume(SplitDisk, 1, 1, 3);
    SplitDiskMounts();
    assert ItemsSize(512, 1) == 512 && ItemsSize(512, 2) == 1024;
    assert Fits(256, 512) == 0 && Rest(256, 512) == 256 && Fits(556, 512) == 1 && Rest(556, 512) == 44;
    assert ReadPositions(v, 2, 256, 512)[300] == 2092;
    FileDataAt(v, [2, 4], 556);
    assert FileData(v, [2, 4])[256..768][300] == SplitDisk(2604);
  }

  /** The short file ends with the usual mark, and a read behind its capacity finds a cluster all the same. */
  lemma ReadBehindEndSucceeds()
    ensures var v := Volume(ShortDisk, 1, 1, 3);
            && HoldsOneFile(ShortDisk, v)
            && IsChain(v, [2]) && FatEntry(v, 2) == 0xffff && Capacity(v, [2]) == 512
            && ReadResult(v, 2, 512, 1) == OK
  {
    var v := Volume(ShortDisk, 1, 1, 3);
    ShortDiskMounts();
    assert ItemsSize(512, 1) == 512 && Fits(512, 512) == 1;
    assert FatEntry(v, 2) == 0xffff;
    ClusterAtNext(v, 2, 0);
  }

  // The disk of the kernel -----------------------------------------------------------------------------

  /** The boot sector of the kernel: 200 reserved sectors, two tables of 0x100, 0x40 root entries, clusters of 0x80. */
  function KernelBootSector(i: int): byte {
    match i
    case 12 => 2
    case 13 => 0x80
    case 14 => 200
    case 16 => 2
    case 17 => 0x40
    case 21 => 0xf8
    case 23 => 1
    case 24 => 0x20
    case 26 => 0x40
    case 32 => 0x94
    case 33 => 0x35
    case 34 => 0x77
    case 36 => 0x80
    case 38 => 0x29
    case _ => 0
  }

  /** A table in which cluster 5 follows cluster 2 and ends the file. */
  function KernelTable(i: int): byte {
    match i
    case 0 => 0xf8
    case 1 => 0xff
    case 2 => 0xff
    case 3 => 0xff
    case 4 => 5
    case 10 => 0xff
    case 11 => 0xff
    case _ => 0
  }

  /** A root directory with one file, A, of two clusters from cluster 2 on. */
  function KernelRoot(i: int): byte {
    match i
    case 0 => 0x41
    case 26 => 2
    case 30 => 2
    case _ => 0
  }

  /** The tables are at sectors 200 and 456, the root directory at 712. Sectors of data hold their number modulo 256. */
  function KernelDisk(p: int): byte {
    if p < 512 then KernelBootSector(p)
    else if p < 102400 then 0
    else if p < 233472 then KernelTable(p - 102400)
    else if p < 364544 then KernelTable(p - 233472)
    else if p < 366592 then KernelRoot(p - 364544)
    else p / 512 % 256
  }

  lemma KernelDiskMounts()
    ensures RootStart(KernelDisk) == 712 && HoldsOneFile(KernelDisk, Volume(KernelDisk, 200, 128, 716))
  {
    var v := Volume(KernelDisk, 200, 128, 716);
    assert Half(KernelDisk, 14) == 200 && Half(KernelDisk, 17) == 64 && Half(KernelDisk, 22) == 256;
    assert RootStart(KernelDisk) == 712;
    assert v.disk(364544 + 32 * 0) == 0x41 && v.disk(364544 + 32 * 1) == 0;
  }

  /** What reading the file's first and its 65537th byte returns: they are in sectors 716 and 716 + 3 * 128. */
  lemma KernelFileRead()
    ensures var v := Volume(KernelDisk, 200, 128, 716);
            && HoldsOneFile(KernelDisk, v) && IsChain(v, [2, 5]) && FatEntry(v, 5) == 0xffff
            && DataAt(v, ReadPositions(v, 2, 0, 1)) == [204] && DataAt(v, ReadPositions(v, 2, 65536, 1)) == [76]
            && Capacity(v, [2, 5]) == 131072 && FileData(v, [2, 5])[0] == 204 && FileData(v, [2, 5])[65536] == 76
  {
    var v := Volume(KernelDisk, 200, 128, 716);
    KernelDiskMounts();
    assert FatEntry(v, 2) == 5 && FatEntry(v, 5) == 0xffff;
    assert ItemsSize(65536, 1) == 65536 && ItemsSize(65536, 2) == 131072;
    KernelPositions(v);
    FileByte(v, [2, 5], 0, 65536, 0, 0);
    FileByte(v, [2, 5], 65536, 65536, 1, 0);
  }

  lemma KernelPositions(v: Volume)
    requires v == Volume(KernelDisk, 200, 128, 716)
    ensures ReadPositions(v, 2, 0, 1) == [366592] && ReadPositions(v, 2, 65536, 1) == [563200]
  {
    assert Fits(0, 65536) == 0 && Rest(0, 65536) == 0 && Fits(65536, 65536) == 1 && Rest(65536, 65536) == 0;
    assert FatEntry(v, 2) == 5;
    assert ClusterAt(v, 2, 0) == 2;
    ClusterAtNext(v, 2, 0);
    assert ClusterStart(v, 2) == 366592 && ClusterStart(v, 5) == 563200;
  }
}
