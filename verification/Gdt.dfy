/**
  src/gdt/gdt.c: segment descriptors (Intel SDM, Volume 3A, section 3.4.5) from their base, limit and access byte. The
  bit fields that are joined here do not overlap: joining is adding, and shifts and masks are quotients and remainders.
*/
module Gdt {
  import opened Memory
  import opened Words

  datatype Descriptor = Descriptor(base: u32, limit: u32, access: byte)

  /** What the processor takes a slot for: with 32-bit operands or not, with 64-bit code or not, and a spare bit. */
  datatype Segment = Segment(base: u32, limit: u32, access: byte, operands32: bool, code64: bool, spare: bool)

  // A slot of the table: eight bytes.
  type Slot = s: seq<byte> | |s| == 8 witness [0, 0, 0, 0, 0, 0, 0, 0]

  /** The limits above 64 KiB that do not end on a page boundary stop the kernel. */
  predicate Encodable(d: Descriptor) {
    d.limit <= 65536 || d.limit % 0x1000 == 0xfff
  }

  // What the processor makes of a slot -----------------------------------------------------------

  function DecodedBase(s: Slot): u32 {
    Join(s[2], s[3], s[4], s[7])
  }

  function LimitField(s: Slot): (field: u32)
    ensures field < 0x10_0000
  {
    Join(s[0], s[1], s[6] % 0x10, 0)
  }

  /** The granularity flag scales the limit to pages; the low twelve bits of an offset are then not checked. */
  function DecodedLimit(s: Slot): u32 {
    if s[6] >= 0x80 then LimitField(s) * 0x1000 + 0xfff else LimitField(s)
  }

  predicate FlagBit(s: Slot, bit: int)
    requires bit > 0
  {
    s[6] / bit % 2 == 1
  }

  function Decoded(s: Slot): Segment {
    Segment(DecodedBase(s), DecodedLimit(s), s[5], FlagBit(s, 0x40), FlagBit(s, 0x20), FlagBit(s, 0x10))
  }

  /** The 32-bit segment that a descriptor stands for. */
  function Meant(d: Descriptor): Segment {
    Segment(d.base, d.limit, d.access, true, false, false)
  }

  // Encoding ---------------------------------------------------------------------------------------

  /** The limit as it is stored: in pages when it is above 64 KiB. */
  function Scaled(limit: u32): u32 {
    if limit > 65536 then limit / 0x1000 else limit
  }

  /** The flags for 32-bit operands, the granularity if the limit is in pages, and the highest bits of the limit. */
  function FlagsByte(limit: u32): byte {
    (if limit > 65536 then 0xc0 else 0x40) + ByteOf(Scaled(limit), 2) % 0x10
  }

  function Encoded(d: Descriptor): Slot {
    [ByteOf(Scaled(d.limit), 0), ByteOf(Scaled(d.limit), 1), ByteOf(d.base, 0), ByteOf(d.base, 1), ByteOf(d.base, 2),
     d.access, FlagsByte(d.limit), ByteOf(d.base, 3)]
  }

  lemma StoredBytes(stored: u32)
    requires stored < 0x10_0000
    ensures ByteOf(stored, 2) < 0x10 && ByteOf(stored, 3) == 0
  {
    assert stored / 0x100 < 0x1000;
    assert stored / 0x100 / 0x100 < 0x10;
  }

  lemma ScaledBelow(limit: u32)
    ensures Scaled(limit) < 0x10_0000
  {
  }

  /** The flags lie above the bits of the limit. */
  lemma FlagsAbove(limit: u32, bits: byte)
    requires bits < 0x10 && bits == ByteOf(Scaled(limit), 2)
    ensures FlagsByte(limit) % 0x10 == bits && (FlagsByte(limit) >= 0x80 <==> limit > 65536)
    ensures FlagsByte(limit) / 0x40 % 2 == 1 && FlagsByte(limit) / 0x20 % 2 == 0 && FlagsByte(limit) / 0x10 % 2 == 0
  {
    if limit > 65536 {
      assert FlagsByte(limit) == 0xc0 + bits;
    } else {
      assert FlagsByte(limit) == 0x40 + bits;
    }
  }

  /** A stored limit has 20 bits. */
  lemma FieldDecodes(d: Descriptor)
    ensures LimitField(Encoded(d)) == Scaled(d.limit)
    ensures Encoded(d)[6] >= 0x80 <==> d.limit > 65536
    ensures FlagBit(Encoded(d), 0x40) && !FlagBit(Encoded(d), 0x20) && !FlagBit(Encoded(d), 0x10)
  {
    ScaledBelow(d.limit);
    StoredBytes(Scaled(d.limit));
    FlagsAbove(d.limit, ByteOf(Scaled(d.limit), 2));
    JoinByteOf(Scaled(d.limit));
  }

  lemma PagesRound(limit: u32)
    ensures limit / 0x1000 * 0x1000 + 0xfff == limit <==> limit % 0x1000 == 0xfff
  {
  }

  /** The processor decodes an encoded descriptor to the segment it stands for exactly when it is encodable. */
  lemma DecodesIff(d: Descriptor)
    ensures Decoded(Encoded(d)) == Meant(d) <==> Encodable(d)
  {
    JoinByteOf(d.base);
    FieldDecodes(d);
    PagesRound(d.limit);
  }

  /** Encodable or not, a slot is that of a 32-bit segment with the base and the access byte of its descriptor. */
  lemma Always32Bit(d: Descriptor)
    ensures Decoded(Encoded(d)) == Meant(d).(limit := DecodedLimit(Encoded(d)))
  {
    JoinByteOf(d.base);
    FieldDecodes(d);
  }

  /** The kernel's own code segment, and one with all bytes different. */
  lemma EncodedExamples()
    ensures Encoded(Descriptor(0, 0xffff_ffff, 0x9a)) == [0xff, 0xff, 0, 0, 0, 0x9a, 0xcf, 0]
    ensures Encoded(Descriptor(0x1234_5678, 0x9ab, 0xe9)) == [0xab, 0x09, 0x78, 0x56, 0x34, 0xe9, 0x40, 0x12]
  {
    assert ByteOf(0x1234_5678, 0) == 0x78 && ByteOf(0x1234_5678, 1) == 0x56 && ByteOf(0x1234_5678, 2) == 0x34;
  }

  /** Writes the slot of a descriptor, unless the kernel has to stop. */
  method EncodeEntry(out: array<byte>, start: nat, d: Descriptor) returns (panic: bool)
    requires start + 8 <= out.Length
    modifies out
    ensures panic <==> !Encodable(d)
    ensures panic ==> out[..] == old(out[..])
    ensures !panic ==> out[start..start + 8] == Encoded(d)
    ensures forall i | 0 <= i < out.Length && !(start <= i < start + 8) :: out[i] == old(out[i])
  {
    if d.limit > 65536 && d.limit % 0x1000 != 0xfff {
      return true;
    }
    var limit := d.limit;
    out[start + 6] := 0x40;
    if limit > 65536 {
      limit := limit / 0x1000;
      out[start + 6] := 0xc0;
    }
    out[start] := ByteOf(limit, 0);
    out[start + 1] := ByteOf(limit, 1);
    out[start + 6] := out[start + 6] + ByteOf(limit, 2) % 0x10;
    out[start + 2] := ByteOf(d.base, 0);
    out[start + 3] := ByteOf(d.base, 1);
    out[start + 4] := ByteOf(d.base, 2);
    out[start + 7] := ByteOf(d.base, 3);
    out[start + 5] := d.access;
    panic := false;
  }

  /** The i-th slot of a table. */
  function SlotAt(bytes: seq<byte>, i: nat): Slot
    requires 8 * i + 8 <= |bytes|
  {
    bytes[8 * i..8 * i + 8]
  }

  /** A slot all of whose bytes stay is as before. */
  lemma SlotStays(before: seq<byte>, after: seq<byte>, i: nat)
    requires |before| == |after| && 8 * i + 8 <= |before|
    requires forall k | 8 * i <= k < 8 * i + 8 :: after[k] == before[k]
    ensures SlotAt(after, i) == SlotAt(before, i)
  {
  }

  /** Fills a table, slot by slot, up to the first descriptor that is not encodable. */
  method EncodeTable(out: array<byte>, table: seq<Descriptor>) returns (panic: bool)
    requires 8 * |table| <= out.Length
    modifies out
    ensures panic <==> exists i :: 0 <= i < |table| && !Encodable(table[i])
    ensures forall i | 0 <= i < |table| && (forall j | 0 <= j <= i :: Encodable(table[j])) ::
              Decoded(SlotAt(out[..], i)) == Meant(table[i])
    ensures forall k | 8 * |table| <= k < out.Length :: out[k] == old(out[k])
  {
    for i := 0 to |table|
      invariant forall j | 0 <= j < i :: Encodable(table[j]) && Decoded(SlotAt(out[..], j)) == Meant(table[j])
      invariant forall k | 8 * i <= k < out.Length :: out[k] == old(out[k])
    {
      ghost var before := out[..];
      panic := EncodeEntry(out, 8 * i, table[i]);
      DecodesIff(table[i]);
      forall j | 0 <= j < i
        ensures SlotAt(out[..], j) == SlotAt(before, j)
      {
        SlotStays(before, out[..], j);
      }
      if panic {
        return;
      }
      assert SlotAt(out[..], i) == Encoded(table[i]);
    }
    panic := false;
  }
}
