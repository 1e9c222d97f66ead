/** src/disk/streamer.c: reading any number of bytes from a disk that is read sector by sector. */
module Disk {
  import opened Words

  const SECTOR := 512

  // The bytes of a disk by position.
  type Content = int -> byte

  /** The bytes [pos, pos + n) of a disk. */
  function Bytes(disk: Content, pos: int, n: nat): (s: seq<byte>)
    ensures |s| == n && forall i | 0 <= i < n :: s[i] == disk(pos + i)
  {
    seq<byte>(n, i requires 0 <= i => disk(pos + i))
  }

  /** A sequence with the part from start on replaced. */
  function Overwritten(s: seq<byte>, start: nat, part: seq<byte>): (r: seq<byte>)
    requires start + |part| <= |s|
    ensures |r| == |s|
    ensures forall i | 0 <= i < |s| :: r[i] == if start <= i < start + |part| then part[i - start] else s[i]
  {
    seq<byte>(|s|, i requires 0 <= i < |s| => if start <= i < start + |part| then part[i - start] else s[i])
  }

  class DiskStream {
    var pos: nat
    const disk: Content
    // Whether the stream is on the system disk; no other disk can be read.
    const attached: bool

    constructor (disk: Content, attached: bool)
      ensures pos == 0 && this.disk == disk && this.attached == attached
    {
      this.disk, this.attached, pos := disk, attached, 0;
    }

    method Seek(pos: nat) returns (res: int)
      modifies this`pos
      ensures this.pos == pos && res == OK
    {
      this.pos := pos;
      res := OK;
    }

    method ReadBlock(sector: nat, buf: array<byte>) returns (res: int)
      requires buf.Length == SECTOR
      modifies buf
      ensures res == if attached then OK else EIO
      ensures attached ==> buf[..] == Bytes(disk, sector * SECTOR, SECTOR)
    {
      if !attached {
        return EIO;
      }
      for i := 0 to SECTOR
        invariant forall k | 0 <= k < i :: buf[k] == disk(sector * SECTOR + k)
      {
        buf[i] := disk(sector * SECTOR + i);
      }
      res := OK;
    }

    /** The part of a read that lies in the current sector. It overflows even when it ends exactly with the sector. */
    method ReadPart(out: array<byte>, start: nat, total: nat) returns (res: int, count: nat, overflow: bool)
      requires start + total <= out.Length
      modifies this`pos, out
      ensures res == if attached then OK else EIO
      ensures attached ==>
                && count <= total && (overflow ==> count > 0) && (!overflow ==> count == total)
                && pos == old(pos) + count
                && out[..] == Overwritten(old(out[..]), start, Bytes(disk, old(pos), count))
      ensures !attached ==> pos == old(pos) && out[..] == old(out[..])
    {
      var buf := new byte[SECTOR];
      var sector := pos / SECTOR;
      var offset := pos % SECTOR;
      overflow := offset + total >= SECTOR;
      count := if overflow then SECTOR - offset else total;
      res := ReadBlock(sector, buf);
      if res < 0 {
        return;
      }
      CopyFrom(buf, offset, out, start, count);
      assert buf[offset..offset + count] == Bytes(disk, pos, count);
      pos := pos + count;
    }

    /**
      Reads total bytes into out from start on, and moves on by as many. A read that ends on a sector boundary reads one
      more sector without using it. Positions are C integers: the sector after the last byte must have one, too.
    */
    method Read(out: array<byte>, start: nat, total: nat) returns (res: int)
      requires start + total <= out.Length && pos + total + SECTOR <= 0x8000_0000
      modifies this`pos, out
      ensures res == if attached then OK else EIO
      ensures attached ==> pos == old(pos) + total
      ensures attached ==> out[..] == Overwritten(old(out[..]), start, Bytes(disk, old(pos), total))
      ensures !attached ==> pos == old(pos) && out[..] == old(out[..])
      decreases total
    {
      var count, overflow;
      res, count, overflow := ReadPart(out, start, total);
      if res >= 0 && overflow {
        OverwrittenTwice(old(out[..]), start, disk, old(pos), count, total);
        res := Read(out, start + count, total - count);
      }
    }
  }

  /** Two adjacent parts of a disk in turn are the whole. */
  lemma OverwrittenTwice(s: seq<byte>, start: nat, disk: Content, pos: int, k: nat, n: nat)
    requires k <= n && start + n <= |s|
    ensures Overwritten(Overwritten(s, start, Bytes(disk, pos, k)), start + k, Bytes(disk, pos + k, n - k)) ==
            Overwritten(s, start, Bytes(disk, pos, n))
  {
  }

  method CopyFrom(buf: array<byte>, offset: nat, out: array<byte>, start: nat, count: nat)
    requires buf != out && offset + count <= buf.Length && start + count <= out.Length
    modifies out
    ensures out[..] == Overwritten(old(out[..]), start, buf[offset..offset + count])
  {
    for i := 0 to count
      invariant out[..] == Overwritten(old(out[..]), start, buf[offset..offset + i])
    {
      out[start + i] := buf[offset + i];
    }
  }
}
