/**
 The slot bitmap of a record page (src/record/bitmap.h).  Bit `pos` lives in
 byte `pos / 8`, the highest bit first.  A bitmap starts at byte `base` of the
 page that holds it.
 */
module Bitmap {

  type byte = bv8

  function Mask(pos: nat): byte { (0x80 as bv8) >> (pos % 8) }

  predicate Covers(data: seq<byte>, base: nat, pos: nat) { base + pos / 8 < |data| }

  predicate IsSet(data: seq<byte>, base: nat, pos: nat)
    requires Covers(data, base, pos)
  {
    data[base + pos / 8] & Mask(pos) != 0
  }

  function WithBit(data: seq<byte>, base: nat, pos: nat): seq<byte>
    requires Covers(data, base, pos)
  {
    data[base + pos / 8 := data[base + pos / 8] | Mask(pos)]
  }

  function WithoutBit(data: seq<byte>, base: nat, pos: nat): seq<byte>
    requires Covers(data, base, pos)
  {
    data[base + pos / 8 := data[base + pos / 8] & !Mask(pos)]
  }

  // ---------------------------------------------------------------- one byte

  function HighBit(k: nat): byte
    requires k < 8
  {
    match k
    case 0 => 0x80 case 1 => 0x40 case 2 => 0x20 case 3 => 0x10
    case 4 => 0x08 case 5 => 0x04 case 6 => 0x02 case _ => 0x01
  }

  lemma MaskIsHighBit(pos: nat)
    ensures Mask(pos) == HighBit(pos % 8)
  {
  }

  lemma BitsOfAByte(b: byte, j: nat, k: nat)
    requires j < 8 && k < 8
    ensures (b | HighBit(j)) & HighBit(k) != 0 <==> j == k || b & HighBit(k) != 0
    ensures (b & !HighBit(j)) & HighBit(k) != 0 <==> j != k && b & HighBit(k) != 0
  {
  }

  /** Position pos is bit 7 - pos % 8 of the number that byte pos / 8 is. */
  lemma HighestBitFirst(data: seq<byte>, base: nat, pos: nat)
    requires Covers(data, base, pos)
    ensures IsSet(data, base, pos) <==> (data[base + pos / 8] >> (7 - pos % 8)) & 1 == 1
  {
    MaskIsHighBit(pos);
    ShiftedBit(data[base + pos / 8], pos % 8);
  }

  lemma ShiftedBit(b: byte, k: nat)
    requires k < 8
    ensures b & HighBit(k) != 0 <==> (b >> (7 - k)) & 1 == 1
  {
    match k
    case 0 => assert b & 0x80 != 0 <==> (b >> 7) & 1 == 1;
    case 1 => assert b & 0x40 != 0 <==> (b >> 6) & 1 == 1;
    case 2 => assert b & 0x20 != 0 <==> (b >> 5) & 1 == 1;
    case 3 => assert b & 0x10 != 0 <==> (b >> 4) & 1 == 1;
    case 4 => assert b & 0x08 != 0 <==> (b >> 3) & 1 == 1;
    case 5 => assert b & 0x04 != 0 <==> (b >> 2) & 1 == 1;
    case 6 => assert b & 0x02 != 0 <==> (b >> 1) & 1 == 1;
    case _ => assert b & 0x01 != 0 <==> (b >> 0) & 1 == 1;
  }

  // ---------------------------------------------------------------- the whole bitmap

  /** Setting a bit sets that one and leaves every other as it was. */
  lemma SetChangesOneBit(data: seq<byte>, base: nat, pos: nat, other: nat)
    requires Covers(data, base, pos) && Covers(data, base, other)
    ensures IsSet(WithBit(data, base, pos), base, other) <==> other == pos || IsSet(data, base, other)
  {
    MaskIsHighBit(pos);
    MaskIsHighBit(other);
    BitsOfAByte(data[base + pos / 8], pos % 8, other % 8);
  }

  lemma ResetChangesOneBit(data: seq<byte>, base: nat, pos: nat, other: nat)
    requires Covers(data, base, pos) && Covers(data, base, other)
    ensures IsSet(WithoutBit(data, base, pos), base, other) <==> other != pos && IsSet(data, base, other)
  {
    MaskIsHighBit(pos);
    MaskIsHighBit(other);
    BitsOfAByte(data[base + pos / 8], pos % 8, other % 8);
  }

  lemma ResetUndoesSet(data: seq<byte>, base: nat, pos: nat)
    requires Covers(data, base, pos) && !IsSet(data, base, pos)
    ensures WithoutBit(WithBit(data, base, pos), base, pos) == data
  {
    var b, m := data[base + pos / 8], Mask(pos);
    MaskIsHighBit(pos);
    assert b & m == 0 ==> (b | m) & !m == b;
  }

  method Set(data: array<byte>, base: nat, pos: nat)
    requires Covers(data[..], base, pos)
    modifies data
    ensures data[..] == WithBit(old(data[..]), base, pos)
  {
    data[base + pos / 8] := data[base + pos / 8] | Mask(pos);
  }

  method Reset(data: array<byte>, base: nat, pos: nat)
    requires Covers(data[..], base, pos)
    modifies data
    ensures data[..] == WithoutBit(old(data[..]), base, pos)
  {
    data[base + pos / 8] := data[base + pos / 8] & !Mask(pos);
  }

  /** All `size` bytes from `base` become zero. */
  method Init(data: array<byte>, base: nat, size: nat)
    requires base + size <= data.Length
    modifies data
    ensures data[..] == old(data[..base]) + seq(size, _ => 0) + old(data[base + size..])
  {
    for i := 0 to size
      invariant forall j :: 0 <= j < data.Length ==>
        data[j] == if base <= j < base + i then 0 else old(data[j])
    {
      data[base + i] := 0;
    }
  }

  /** The first position after `curr` whose bit is `bit`, or `maxN`. */
  predicate IsNext(data: seq<byte>, base: nat, bit: bool, maxN: nat, curr: int, r: nat)
    requires -1 <= curr
    requires maxN > 0 ==> Covers(data, base, maxN - 1)
  {
    && r <= maxN
    && (r < maxN ==> curr < r && IsSet(data, base, r) == bit)
    && (forall j: nat :: curr < j < r && j < maxN ==> IsSet(data, base, j) != bit)
  }

  method NextBit(bit: bool, data: array<byte>, base: nat, maxN: nat, curr: int) returns (r: nat)
    requires -1 <= curr
    requires maxN > 0 ==> Covers(data[..], base, maxN - 1)
    ensures IsNext(data[..], base, bit, maxN, curr, r)
  {
    var i := curr + 1;
    while i < maxN
      invariant curr < i
      invariant i <= maxN || i == curr + 1
      invariant forall j: nat :: curr < j < i && j < maxN ==> IsSet(data[..], base, j) != bit
    {
      if IsSet(data[..], base, i) == bit {
        return i;
      }
      i := i + 1;
    }
    return maxN;
  }

  method FirstBit(bit: bool, data: array<byte>, base: nat, maxN: nat) returns (r: nat)
    requires maxN > 0 ==> Covers(data[..], base, maxN - 1)
    ensures IsNext(data[..], base, bit, maxN, -1, r)
  {
    r := NextBit(bit, data, base, maxN, -1);
  }
}
