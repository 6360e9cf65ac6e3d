/** Integers in memory and copies between byte buffers. */
module Bytes {
  import opened Common

  function Pow256(n: nat): (p: nat)
    ensures p > 0
  {
    if n == 0 then 1 else 256 * Pow256(n - 1)
  }

  /** The `n` lowest bytes of `x`, least significant first. */
  function EncodeLE(x: nat, n: nat): (b: bytes)
    ensures |b| == n
  {
    if n == 0 then [] else [(x % 256) as byte] + EncodeLE(x / 256, n - 1)
  }

  function DecodeLE(b: bytes): nat {
    if b == [] then 0 else (b[0] as int) + 256 * DecodeLE(b[1..])
  }

  lemma {:induction false} ByteRoundTrip(x: nat)
    requires x < 256
    ensures (x as byte) as int == x
  {
    var k := x / 16;
    if k == 0 {} else if k == 1 {} else if k == 2 {} else if k == 3 {} else if k == 4 {} else if k == 5 {}
    else if k == 6 {} else if k == 7 {} else if k == 8 {} else if k == 9 {} else if k == 10 {} else if k == 11 {}
    else if k == 12 {} else if k == 13 {} else if k == 14 {}
  }

  lemma {:induction false} LERoundTrip(x: nat, n: nat)
    requires x < Pow256(n)
    ensures DecodeLE(EncodeLE(x, n)) == x
  {
    if n > 0 {
      LERoundTrip(x / 256, n - 1);
      ByteRoundTrip(x % 256);
      var b := EncodeLE(x, n);
      assert b[0] == (x % 256) as byte && b[1..] == EncodeLE(x / 256, n - 1);
    }
  }

  lemma {:induction false} LEBound(b: bytes)
    ensures DecodeLE(b) < Pow256(|b|)
  {
    if b != [] { LEBound(b[1..]); }
  }

  const INT32_LIMIT := 0x8000_0000

  predicate IsInt32(x: int) {
    -INT32_LIMIT <= x < INT32_LIMIT
  }

  /** A 32-bit two's complement integer as it lies in memory. */
  function EncodeInt(x: int): (b: bytes)
    requires IsInt32(x)
    ensures |b| == 4
  {
    EncodeLE(if x < 0 then x + 2 * INT32_LIMIT else x, 4)
  }

  function DecodeInt(b: bytes): int
    requires |b| == 4
  {
    var u := DecodeLE(b);
    if u >= INT32_LIMIT then u - 2 * INT32_LIMIT else u
  }

  lemma {:induction false} IntRoundTrip(x: int)
    requires IsInt32(x)
    ensures DecodeInt(EncodeInt(x)) == x
  {
    LERoundTrip(if x < 0 then x + 2 * INT32_LIMIT else x, 4);
  }

  const INT64_LIMIT := 0x8000_0000_0000_0000

  predicate IsInt64(x: int) {
    -INT64_LIMIT <= x < INT64_LIMIT
  }

  function EncodeLong(x: int): (b: bytes)
    requires IsInt64(x)
    ensures |b| == 8
  {
    EncodeLE(if x < 0 then x + 2 * INT64_LIMIT else x, 8)
  }

  function DecodeLong(b: bytes): int
    requires |b| == 8
  {
    var u := DecodeLE(b);
    if u >= INT64_LIMIT then u - 2 * INT64_LIMIT else u
  }

  lemma {:induction false} LongRoundTrip(x: int)
    requires IsInt64(x)
    ensures DecodeLong(EncodeLong(x)) == x
  {
    assert Pow256(8) == 2 * INT64_LIMIT by {
      assert Pow256(4) == 2 * INT32_LIMIT;
      assert Pow256(8) == 256 * 256 * 256 * 256 * Pow256(4);
    }
    LERoundTrip(if x < 0 then x + 2 * INT64_LIMIT else x, 8);
  }

  lemma {:induction false} IntDecodes(b: bytes)
    requires |b| == 4
    ensures IsInt32(DecodeInt(b))
  {
    LEBound(b);
  }

  /** `memcpy(dest + offset, src, |src|)`. */
  function Splice(dest: bytes, offset: nat, src: bytes): (r: bytes)
    requires offset + |src| <= |dest|
    ensures |r| == |dest|
    ensures forall k :: 0 <= k < |dest| ==> r[k] == if offset <= k < offset + |src| then src[k - offset] else dest[k]
  {
    dest[..offset] + src + dest[offset + |src|..]
  }

  lemma {:induction false} SliceEq(a: bytes, b: bytes, from: nat, to: nat)
    requires from <= to <= |a| && |a| == |b|
    requires forall k :: from <= k < to ==> a[k] == b[k]
    ensures a[from..to] == b[from..to]
  {
  }

  lemma {:induction false} SpliceReads(dest: bytes, offset: nat, src: bytes)
    requires offset + |src| <= |dest|
    ensures Splice(dest, offset, src)[offset..offset + |src|] == src
  {
  }

  lemma {:induction false} SpliceKeeps(dest: bytes, offset: nat, src: bytes, from: nat, to: nat)
    requires offset + |src| <= |dest| && from <= to <= |dest|
    requires to <= offset || offset + |src| <= from
    ensures Splice(dest, offset, src)[from..to] == dest[from..to]
  {
    SliceEq(Splice(dest, offset, src), dest, from, to);
  }
}
