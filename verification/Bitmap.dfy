/** Bitmaps inside a page (src/record/bitmap.h): bit `pos` of the bitmap that
    starts at byte `base` of `data`, highest bit of a byte first. */
module Bitmap {
  import opened Common
  import opened Bytes

  const BITMAP_WIDTH := 8
  const BITMAP_HIGHEST_BIT: byte := 0x80

  function GetBucket(pos: nat): nat {
    pos / BITMAP_WIDTH
  }

  function GetBit(pos: nat): byte {
    BITMAP_HIGHEST_BIT >> ((pos % BITMAP_WIDTH) as bv4)
  }

  predicate InBitmap(data: bytes, base: nat, pos: nat) {
    base + GetBucket(pos) < |data|
  }

  function Init(data: bytes, base: nat, size: nat): (r: bytes)
    requires base + size <= |data|
    ensures |r| == |data|
  {
    Splice(data, base, seq(size, _ => 0))
  }

  function Set(data: bytes, base: nat, pos: nat): (r: bytes)
    requires InBitmap(data, base, pos)
    ensures |r| == |data|
  {
    var k := base + GetBucket(pos);
    data[k := data[k] | GetBit(pos)]
  }

  function Reset(data: bytes, base: nat, pos: nat): (r: bytes)
    requires InBitmap(data, base, pos)
    ensures |r| == |data|
  {
    var k := base + GetBucket(pos);
    data[k := data[k] & !GetBit(pos)]
  }

  predicate IsSet(data: bytes, base: nat, pos: nat)
    requires InBitmap(data, base, pos)
  {
    data[base + GetBucket(pos)] & GetBit(pos) != 0
  }

  predicate Fits(data: bytes, base: nat, n: nat) {
    base + (n + BITMAP_WIDTH - 1) / BITMAP_WIDTH <= |data|
  }

  /** The first position after `curr` whose bit is `bit`, or `maxN`. */
  method NextBit(bit: bool, data: bytes, base: nat, maxN: nat, curr: int) returns (pos: nat)
    requires -1 <= curr < maxN && Fits(data, base, maxN)
    ensures curr < pos <= maxN
    ensures pos < maxN ==> IsSet(data, base, pos) == bit
    ensures forall i :: curr < i < pos ==> InBitmap(data, base, i) && IsSet(data, base, i) != bit
  {
    for i := curr + 1 to maxN
      invariant forall k :: curr < k < i ==> InBitmap(data, base, k) && IsSet(data, base, k) != bit
    {
      if IsSet(data, base, i) == bit {
        return i;
      }
    }
    return maxN;
  }

  method FirstBit(bit: bool, data: bytes, base: nat, maxN: nat) returns (pos: nat)
    requires Fits(data, base, maxN)
    ensures pos <= maxN
    ensures pos < maxN ==> IsSet(data, base, pos) == bit
    ensures forall i :: 0 <= i < pos ==> InBitmap(data, base, i) && IsSet(data, base, i) != bit
  {
    if maxN == 0 {
      return 0;
    }
    pos := NextBit(bit, data, base, maxN, -1);
  }

  // ----- Laws -----

  lemma {:induction false} OneBit(b: byte, j: nat, k: nat)
    requires j < 8 && k < 8
    ensures ((b | GetBit(j)) & GetBit(k) != 0) <==> j == k || b & GetBit(k) != 0
    ensures ((b & !GetBit(j)) & GetBit(k) != 0) <==> j != k && b & GetBit(k) != 0
  {
    BitTable(j);
    BitTable(k);
  }

  lemma {:induction false} BitTable(k: nat)
    requires k < 8
    ensures GetBit(k) == if k == 0 then 0x80 else if k == 1 then 0x40 else if k == 2 then 0x20 else if k == 3 then 0x10
                         else if k == 4 then 8 else if k == 5 then 4 else if k == 6 then 2 else 1
  {
  }

  /** Setting or clearing a bit does that, and nothing to any other bit. */
  lemma {:induction false} SetOneBit(data: bytes, base: nat, pos: nat, k: nat)
    requires InBitmap(data, base, pos) && InBitmap(data, base, k)
    ensures IsSet(Set(data, base, pos), base, k) <==> k == pos || IsSet(data, base, k)
    ensures IsSet(Reset(data, base, pos), base, k) <==> k != pos && IsSet(data, base, k)
  {
    if GetBucket(pos) == GetBucket(k) {
      OneBit(data[base + GetBucket(k)], pos % 8, k % 8);
    }
  }
}
