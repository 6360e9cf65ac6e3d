/** The order of index keys (src/index/ix_index_handle.h) and the keys of
    inserted records (src/execution/executor_insert.h). */
module KeyOrder {
  import opened Common
  import opened Bytes
  import opened Meta
  import opened TupleCodec

  /** A key column: a number or a string of fixed length. */
  datatype KeyCol = KeyCol(colType: ColType, len: nat)

  predicate WfKeyCol(c: KeyCol) {
    c.colType != TypeString ==> c.len == 4
  }

  predicate WfKey(cols: seq<KeyCol>) {
    forall i :: 0 <= i < |cols| ==> WfKeyCol(cols[i])
  }

  function KeyLen(cols: seq<KeyCol>): nat {
    if cols == [] then 0 else cols[0].len + KeyLen(cols[1..])
  }

  function IntSign(x: int, y: int): int {
    if x < y then -1 else if x > y then 1 else 0
  }

  /** The sign of `memcmp`. */
  function Memcmp(a: bytes, b: bytes): (r: int)
    requires |a| == |b|
    ensures -1 <= r <= 1
  {
    if a == [] then 0 else
    if a[0] < b[0] then -1 else if a[0] > b[0] then 1 else Memcmp(a[1..], b[1..])
  }

  const FLOAT_INFINITY := 0x7F80_0000

  /** The bits of a single-precision float without its sign. */
  function Magnitude(b: bytes): int {
    DecodeLE(b) % INT32_LIMIT
  }

  predicate IsNan(b: bytes) {
    Magnitude(b) > FLOAT_INFINITY
  }

  /** Floats other than NaN are ordered like their bits read as sign and
      magnitude, with both zeros equal (section 5.11 of IEEE 754). */
  function FloatRank(b: bytes): int {
    if DecodeLE(b) >= INT32_LIMIT then -Magnitude(b) else Magnitude(b)
  }

  /** A NaN is neither less nor greater than anything. */
  function FloatCompare(a: bytes, b: bytes): (r: int)
    ensures -1 <= r <= 1
  {
    if IsNan(a) || IsNan(b) then 0 else IntSign(FloatRank(a), FloatRank(b))
  }

  /** `ix_compare` on one column. */
  function CompareCol(a: bytes, b: bytes, c: KeyCol): (r: int)
    requires WfKeyCol(c) && |a| == |b| == c.len
    ensures -1 <= r <= 1
  {
    match c.colType
    case TypeInt => IntSign(DecodeInt(a), DecodeInt(b))
    case TypeFloat => FloatCompare(a, b)
    case TypeString => Memcmp(a, b)
  }

  /** The first column that differs decides. */
  function Compare(a: bytes, b: bytes, cols: seq<KeyCol>): (r: int)
    requires WfKey(cols) && |a| == |b| == KeyLen(cols)
    ensures -1 <= r <= 1
    decreases |cols|
  {
    if cols == [] then 0 else
    var n := cols[0].len;
    var r := CompareCol(a[..n], b[..n], cols[0]);
    if r != 0 then r else Compare(a[n..], b[n..], cols[1..])
  }

  lemma {:induction false} KeyLenSplit(cols: seq<KeyCol>, i: nat)
    requires i < |cols|
    ensures KeyLen(cols[i..]) == cols[i].len + KeyLen(cols[i + 1..])
  {
    assert cols[i..][1..] == cols[i + 1..];
  }

  /** `ix_compare` on whole keys: a loop with a running offset. */
  method IxCompare(a: bytes, b: bytes, cols: seq<KeyCol>) returns (r: int)
    requires WfKey(cols) && |a| == |b| == KeyLen(cols)
    ensures r == Compare(a, b, cols)
  {
    var offset := 0;
    assert a[0..] == a && b[0..] == b && cols[0..] == cols;
    for i := 0 to |cols|
      invariant 0 <= offset <= |a| && |a| - offset == KeyLen(cols[i..])
      invariant Compare(a, b, cols) == Compare(a[offset..], b[offset..], cols[i..])
    {
      KeyLenSplit(cols, i);
      var n := cols[i].len;
      assert a[offset..][..n] == a[offset..offset + n] && b[offset..][..n] == b[offset..offset + n];
      assert a[offset..][n..] == a[offset + n..] && b[offset..][n..] == b[offset + n..];
      assert cols[i..][1..] == cols[i + 1..];
      var res := CompareCol(a[offset..offset + n], b[offset..offset + n], cols[i]);
      if res != 0 {
        return res;
      }
      offset := offset + n;
    }
    return 0;
  }

  // ----- It is a total order -----

  lemma {:induction false} MemcmpOrder(a: bytes, b: bytes, c: bytes)
    requires |a| == |b| == |c|
    ensures Memcmp(b, a) == -Memcmp(a, b)
    ensures Memcmp(a, b) == 0 <==> a == b
    ensures Memcmp(a, b) <= 0 && Memcmp(b, c) <= 0 ==> Memcmp(a, c) <= 0
    ensures Memcmp(a, b) < 0 && Memcmp(b, c) <= 0 ==> Memcmp(a, c) < 0
    ensures Memcmp(a, b) <= 0 && Memcmp(b, c) < 0 ==> Memcmp(a, c) < 0
  {
    if a != [] {
      MemcmpOrder(a[1..], b[1..], c[1..]);
      assert a == [a[0]] + a[1..] && b == [b[0]] + b[1..];
    }
  }

  lemma {:induction false} LEInjective(a: bytes, b: bytes)
    requires |a| == |b| && DecodeLE(a) == DecodeLE(b)
    ensures a == b
  {
    if a != [] {
      ByteInjective(a[0], b[0]);
      SameDigits(a[0] as int, DecodeLE(a[1..]), b[0] as int, DecodeLE(b[1..]));
      LEInjective(a[1..], b[1..]);
      assert a == [a[0]] + a[1..] && b == [b[0]] + b[1..];
    }
  }

  lemma {:induction false} SameDigits(x: int, u: int, y: int, v: int)
    requires 0 <= x < 256 && 0 <= y < 256 && x + 256 * u == y + 256 * v
    ensures x == y && u == v
  {
  }

  lemma {:induction false} ByteInjective(x: byte, y: byte)
    ensures x as int == y as int <==> x == y
    ensures 0 <= x as int < 256
  {
  }

  predicate ColNanFree(a: bytes, k: KeyCol) {
    k.colType == TypeFloat ==> !IsNan(a)
  }

  /** Equal bytes or, in a float column, two zeros. */
  predicate SameCol(a: bytes, b: bytes, k: KeyCol) {
    a == b || (k.colType == TypeFloat && Magnitude(a) == 0 == Magnitude(b))
  }

  lemma {:induction false} FloatInjective(a: bytes, b: bytes)
    requires |a| == |b| == 4
    ensures FloatRank(a) == FloatRank(b) <==> a == b || (Magnitude(a) == 0 == Magnitude(b))
  {
    LEBound(a);
    LEBound(b);
    if FloatRank(a) == FloatRank(b) && Magnitude(a) != 0 {
      SignAndMagnitude(DecodeLE(a), DecodeLE(b));
      LEInjective(a, b);
    }
  }

  lemma {:induction false} SignAndMagnitude(u: nat, v: nat)
    requires u < 2 * INT32_LIMIT && v < 2 * INT32_LIMIT && u % INT32_LIMIT == v % INT32_LIMIT
    requires u >= INT32_LIMIT <==> v >= INT32_LIMIT
    ensures u == v
  {
  }

  /** Float comparison can be chained through `a` iff `a` is not a NaN: a NaN is
      level with every number. */
  lemma {:induction false} NanBreaksOrder(a: bytes)
    requires |a| == 4
    ensures !IsNan(a) <==>
            forall x: bytes, y: bytes :: |x| == |y| == 4 && FloatCompare(x, a) == 0 && FloatCompare(a, y) == 0 ==>
              FloatCompare(x, y) == 0
  {
    if IsNan(a) {
      var zero, one := EncodeLE(0, 4), EncodeLE(1, 4);
      LERoundTrip(0, 4);
      LERoundTrip(1, 4);
      assert FloatCompare(zero, a) == 0 && FloatCompare(a, one) == 0 && FloatCompare(zero, one) == -1;
    }
  }

  lemma {:induction false} CompareColOrder(a: bytes, b: bytes, c: bytes, k: KeyCol)
    requires WfKeyCol(k) && |a| == |b| == |c| == k.len
    requires ColNanFree(a, k) && ColNanFree(b, k) && ColNanFree(c, k)
    ensures CompareCol(b, a, k) == -CompareCol(a, b, k)
    ensures CompareCol(a, b, k) == 0 <==> SameCol(a, b, k)
    ensures CompareCol(a, b, k) <= 0 && CompareCol(b, c, k) <= 0 ==> CompareCol(a, c, k) <= 0
    ensures CompareCol(a, b, k) < 0 && CompareCol(b, c, k) <= 0 ==> CompareCol(a, c, k) < 0
    ensures CompareCol(a, b, k) <= 0 && CompareCol(b, c, k) < 0 ==> CompareCol(a, c, k) < 0
  {
    match k.colType
    case TypeInt => IntInjective(a, b);
    case TypeFloat => FloatInjective(a, b);
    case TypeString => MemcmpOrder(a, b, c);
  }

  lemma {:induction false} IntInjective(a: bytes, b: bytes)
    requires |a| == |b| == 4
    ensures DecodeInt(a) == DecodeInt(b) <==> a == b
  {
    if DecodeInt(a) == DecodeInt(b) {
      LEBound(a);
      LEBound(b);
      LEInjective(a, b);
    }
  }

  /** No float column of the key holds a NaN. */
  predicate NanFree(a: bytes, cols: seq<KeyCol>)
    requires |a| == KeyLen(cols)
    decreases |cols|
  {
    cols == [] || (ColNanFree(a[..cols[0].len], cols[0]) && NanFree(a[cols[0].len..], cols[1..]))
  }

  /** Equal keys, up to the sign of zeros in float columns. */
  predicate SameKey(a: bytes, b: bytes, cols: seq<KeyCol>)
    requires |a| == |b| == KeyLen(cols)
    decreases |cols|
  {
    cols == [] ||
    var n := cols[0].len;
    SameCol(a[..n], b[..n], cols[0]) && SameKey(a[n..], b[n..], cols[1..])
  }

  /** Without float columns that is equality of bytes. */
  lemma {:induction false} SameKeyBytes(a: bytes, b: bytes, cols: seq<KeyCol>)
    requires |a| == |b| == KeyLen(cols)
    ensures a == b ==> SameKey(a, b, cols)
    ensures (forall i :: 0 <= i < |cols| ==> cols[i].colType != TypeFloat) ==> (SameKey(a, b, cols) <==> a == b)
    decreases |cols|
  {
    if cols != [] {
      var n := cols[0].len;
      SameKeyBytes(a[n..], b[n..], cols[1..]);
      assert a == a[..n] + a[n..] && b == b[..n] + b[n..];
    }
  }

  /** Key comparison is a total order for any column list and keys without NaN:
      antisymmetric in sign, zero exactly on equal keys, and transitive. */
  lemma {:induction false} KeyTotalOrder(a: bytes, b: bytes, c: bytes, cols: seq<KeyCol>)
    requires WfKey(cols) && |a| == |b| == |c| == KeyLen(cols)
    requires NanFree(a, cols) && NanFree(b, cols) && NanFree(c, cols)
    ensures Compare(b, a, cols) == -Compare(a, b, cols)
    ensures Compare(a, b, cols) == 0 <==> SameKey(a, b, cols)
    ensures Compare(a, b, cols) <= 0 && Compare(b, c, cols) <= 0 ==> Compare(a, c, cols) <= 0
    ensures Compare(a, b, cols) < 0 && Compare(b, c, cols) <= 0 ==> Compare(a, c, cols) < 0
    ensures Compare(a, b, cols) <= 0 && Compare(b, c, cols) < 0 ==> Compare(a, c, cols) < 0
    decreases |cols|
  {
    hide CompareCol, SameCol, ColNanFree;
    if cols != [] {
      var n := cols[0].len;
      CompareColOrder(a[..n], b[..n], c[..n], cols[0]);
      CompareColOrder(b[..n], c[..n], a[..n], cols[0]);
      KeyTotalOrder(a[n..], b[n..], c[n..], cols[1..]);
    }
  }

  // ----- Keys of records -----

  predicate KeyColOk(c: ColMeta, rec: bytes) {
    WfCol(c) && 0 <= c.offset && c.offset + c.len <= |rec|
  }

  predicate KeyCols(cols: seq<ColMeta>, rec: bytes) {
    forall i :: 0 <= i < |cols| ==> KeyColOk(cols[i], rec)
  }

  /** The bytes of one column. */
  function Piece(c: ColMeta, rec: bytes): (b: bytes)
    requires KeyColOk(c, rec)
    ensures |b| == c.len
  {
    rec[c.offset..c.offset + c.len]
  }

  function AsKeyCols(cols: seq<ColMeta>): (r: seq<KeyCol>)
    requires forall i :: 0 <= i < |cols| ==> cols[i].len >= 0
    ensures |r| == |cols|
  {
    seq(|cols|, i requires 0 <= i < |cols| => KeyCol(cols[i].colType, cols[i].len))
  }

  ghost function KeyOf(cols: seq<ColMeta>, rec: bytes): (key: bytes)
    requires KeyCols(cols, rec)
    ensures WfKey(AsKeyCols(cols)) && |key| == KeyLen(AsKeyCols(cols))
    decreases |cols|
  {
    if cols == [] then [] else
    assert AsKeyCols(cols)[1..] == AsKeyCols(cols[1..]);
    Piece(cols[0], rec) + KeyOf(cols[1..], rec)
  }

  lemma {:induction false} KeyOfSnoc(cols: seq<ColMeta>, rec: bytes)
    requires KeyCols(cols, rec) && cols != []
    ensures var n := |cols| - 1;
            KeyOf(cols, rec) == KeyOf(cols[..n], rec) + Piece(cols[n], rec)
    decreases |cols|
  {
    hide KeyColOk, Piece, AsKeyCols;
    var n := |cols| - 1;
    if n == 0 {
      assert cols[..0] == [] && cols[1..] == [];
    } else {
      KeyOfSnoc(cols[1..], rec);
      assert cols[1..][..n - 1] == cols[..n][1..];
      assert cols[..n][0] == cols[0];
      var mid := KeyOf(cols[..n][1..], rec);
      assert Piece(cols[0], rec) + (mid + Piece(cols[n], rec)) == Piece(cols[0], rec) + mid + Piece(cols[n], rec);
    }
  }

  /** The key `InsertExecutor::Next` builds for an index, column by column into
      a buffer of the key's length. */
  method BuildKey(cols: seq<ColMeta>, rec: bytes, buf: bytes) returns (key: bytes)
    requires KeyCols(cols, rec) && |buf| == |KeyOf(cols, rec)|
    ensures key == KeyOf(cols, rec)
  {
    hide KeyOf, KeyLen;
    key := buf;
    var offset := 0;
    KeyOfNone(rec);
    assert cols[..0] == [];
    for i := 0 to |cols|
      invariant KeyCols(cols[..i], rec) && offset == |KeyOf(cols[..i], rec)| <= |key| == |buf|
      invariant key[..offset] == KeyOf(cols[..i], rec)
    {
      KeyPrefix(cols, rec, i + 1);
      assert cols[..i + 1][..i] == cols[..i];
      KeyOfSnoc(cols[..i + 1], rec);
      var piece := Piece(cols[i], rec);
      AppendPiece(key, offset, piece);
      key := Splice(key, offset, piece);
      offset := offset + cols[i].len;
    }
    assert cols[..|cols|] == cols;
  }

  lemma {:induction false} KeyOfNone(rec: bytes)
    ensures KeyOf([], rec) == []
  {
  }

  lemma {:induction false} AppendPiece(key: bytes, offset: nat, piece: bytes)
    requires offset + |piece| <= |key|
    ensures Splice(key, offset, piece)[..offset + |piece|] == key[..offset] + piece
  {
  }

  lemma {:induction false} KeyPrefix(cols: seq<ColMeta>, rec: bytes, i: nat)
    requires KeyCols(cols, rec) && i <= |cols|
    ensures KeyCols(cols[..i], rec) && |KeyOf(cols[..i], rec)| <= |KeyOf(cols, rec)|
    decreases |cols|
  {
    if i < |cols| {
      KeyPrefix(cols[..|cols| - 1], rec, i);
      assert cols[..|cols| - 1][..i] == cols[..i];
      KeyOfSnoc(cols, rec);
    } else {
      assert cols[..i] == cols;
    }
  }

  /** Lexicographic comparison of strings, a proper prefix being smaller. */
  function StrCompare(s: bytes, t: bytes): int {
    if s == [] && t == [] then 0 else if s == [] then -1 else if t == [] then 1
    else if s[0] < t[0] then -1 else if s[0] > t[0] then 1 else StrCompare(s[1..], t[1..])
  }

  function DatumCompare(d: Datum, e: Datum): int
    requires DatumType(d) == DatumType(e)
  {
    match d
    case IntDatum(x) => IntSign(x, e.i)
    case FloatDatum(b) => FloatCompare(b, e.bits)
    case StrDatum(s) => StrCompare(s, e.s)
  }

  /** Lexicographic comparison of the fields of two records. */
  ghost function FieldsCompare(cols: seq<ColMeta>, r1: bytes, r2: bytes): int
    requires KeyCols(cols, r1) && KeyCols(cols, r2)
    decreases |cols|
  {
    if cols == [] then 0 else
    var c := DatumCompare(DecodeField(r1, cols[0]), DecodeField(r2, cols[0]));
    if c != 0 then c else FieldsCompare(cols[1..], r1, r2)
  }

  /** Strings in the record are padded with NULs, as packing leaves them. */
  ghost predicate PaddedFields(cols: seq<ColMeta>, rec: bytes)
    requires KeyCols(cols, rec)
  {
    forall i :: 0 <= i < |cols| ==> PaddedCol(cols[i], rec)
  }

  predicate PaddedCol(c: ColMeta, rec: bytes)
    requires KeyColOk(c, rec)
  {
    c.colType == TypeString ==> Padded(Piece(c, rec))
  }

  predicate Padded(b: bytes) {
    forall i :: StrLen(b) <= i < |b| ==> b[i] == 0
  }

  lemma {:induction false} PaddedCompare(a: bytes, b: bytes)
    requires |a| == |b| && Padded(a) && Padded(b)
    ensures Memcmp(a, b) == StrCompare(a[..StrLen(a)], b[..StrLen(b)])
  {
    if a != [] {
      var a', b' := a[1..], b[1..];
      if a[0] != 0 && b[0] != 0 {
        assert Padded(a') && Padded(b');
        PaddedCompare(a', b');
        assert a[..StrLen(a)][1..] == a'[..StrLen(a')] && b[..StrLen(b)][1..] == b'[..StrLen(b')];
      } else if a[0] == 0 && b[0] == 0 {
        assert a == b by {
          assert forall i :: 0 <= i < |a| ==> a[i] == b[i];
        }
        MemcmpOrder(a, b, a);
      }
    }
  }

  /** The bytes of a padded column order like its decoded value. */
  lemma {:induction false} ColCompareDecoded(c: ColMeta, r1: bytes, r2: bytes)
    requires KeyColOk(c, r1) && KeyColOk(c, r2) && PaddedCol(c, r1) && PaddedCol(c, r2)
    ensures CompareCol(Piece(c, r1), Piece(c, r2), KeyCol(c.colType, c.len)) ==
            DatumCompare(DecodeField(r1, c), DecodeField(r2, c))
  {
    if c.colType == TypeString {
      PaddedCompare(Piece(c, r1), Piece(c, r2));
    }
  }

  /** Comparing the keys of two records is comparing their indexed fields. */
  lemma {:induction false} KeyOrderIsFieldOrder(cols: seq<ColMeta>, r1: bytes, r2: bytes)
    requires KeyCols(cols, r1) && KeyCols(cols, r2) && PaddedFields(cols, r1) && PaddedFields(cols, r2)
    ensures Compare(KeyOf(cols, r1), KeyOf(cols, r2), AsKeyCols(cols)) == FieldsCompare(cols, r1, r2)
    decreases |cols|
  {
    hide CompareCol, DatumCompare, DecodeField, PaddedCol, Piece;
    if cols != [] {
      var c, n := cols[0], cols[0].len;
      assert AsKeyCols(cols)[1..] == AsKeyCols(cols[1..]);
      var k1, k2 := KeyOf(cols, r1), KeyOf(cols, r2);
      assert k1[..n] == Piece(c, r1) && k1[n..] == KeyOf(cols[1..], r1);
      assert k2[..n] == Piece(c, r2) && k2[n..] == KeyOf(cols[1..], r2);
      ColCompareDecoded(c, r1, r2);
      KeyOrderIsFieldOrder(cols[1..], r1, r2);
    }
  }

  // ----- Keys of packed rows -----

  /** The columns numbered in `ix`. */
  function Select(cols: seq<ColMeta>, ix: seq<nat>): (r: seq<ColMeta>)
    requires forall k :: 0 <= k < |ix| ==> ix[k] < |cols|
    ensures |r| == |ix| && forall k :: 0 <= k < |ix| ==> r[k] == cols[ix[k]]
  {
    seq(|ix|, k requires 0 <= k < |ix| => cols[ix[k]])
  }

  /** Lexicographic comparison of the values numbered in `ix`. */
  ghost function ValuesCompare(v1: seq<Datum>, v2: seq<Datum>, ix: seq<nat>): int
    requires forall k :: 0 <= k < |ix| ==> ix[k] < |v1| && ix[k] < |v2| && DatumType(v1[ix[k]]) == DatumType(v2[ix[k]])
  {
    if ix == [] then 0 else
    var c := DatumCompare(v1[ix[0]], v2[ix[0]]);
    if c != 0 then c else ValuesCompare(v1, v2, ix[1..])
  }

  /** Column `i` of the row was packed, and holds no string with a NUL. */
  ghost predicate PackedAt(cols: seq<ColMeta>, values: seq<Datum>, rec: bytes, i: nat) {
    && i < |cols| == |values| && FieldIs(cols, values, rec, i)
    && (values[i].StrDatum? ==> NulFree(values[i].s))
  }

  lemma {:induction false} PackedField(cols: seq<ColMeta>, values: seq<Datum>, rec: bytes, i: nat)
    requires PackedAt(cols, values, rec, i)
    ensures KeyColOk(cols[i], rec) && PaddedCol(cols[i], rec)
    ensures DecodeField(rec, cols[i]) == values[i] && DatumType(values[i]) == cols[i].colType
  {
    FieldRoundTrip(rec, cols[i], values[i]);
    if values[i].StrDatum? {
      var s, n := values[i].s, cols[i].len - |values[i].s|;
      StrLenPadded(s, n);
      assert Piece(cols[i], rec) == s + Zeroes(n);
    }
  }

  /** The index order of inserted rows is the order of their indexed values:
      packing, key extraction and comparison together. */
  lemma {:induction false} IndexOrderIsValueOrder(cols: seq<ColMeta>, v1: seq<Datum>, v2: seq<Datum>,
                                                  r1: bytes, r2: bytes, ix: seq<nat>)
    requires forall k :: 0 <= k < |ix| ==> PackedAt(cols, v1, r1, ix[k]) && PackedAt(cols, v2, r2, ix[k])
    ensures forall k :: 0 <= k < |ix| ==>
              ix[k] < |cols| && ix[k] < |v1| && ix[k] < |v2| && DatumType(v1[ix[k]]) == DatumType(v2[ix[k]])
    ensures KeyCols(Select(cols, ix), r1) && KeyCols(Select(cols, ix), r2)
    ensures Compare(KeyOf(Select(cols, ix), r1), KeyOf(Select(cols, ix), r2), AsKeyCols(Select(cols, ix))) ==
            ValuesCompare(v1, v2, ix)
  {
    forall k | 0 <= k < |ix|
      ensures KeyColOk(cols[ix[k]], r1) && PaddedCol(cols[ix[k]], r1) && KeyColOk(cols[ix[k]], r2) && PaddedCol(cols[ix[k]], r2)
      ensures DecodeField(r1, cols[ix[k]]) == v1[ix[k]] && DecodeField(r2, cols[ix[k]]) == v2[ix[k]]
      ensures DatumType(v1[ix[k]]) == DatumType(v2[ix[k]])
    {
      PackedField(cols, v1, r1, ix[k]);
      PackedField(cols, v2, r2, ix[k]);
    }
    KeyOrderIsFieldOrder(Select(cols, ix), r1, r2);
    FieldsAreValues(cols, v1, v2, r1, r2, ix);
  }

  lemma {:induction false} FieldsAreValues(cols: seq<ColMeta>, v1: seq<Datum>, v2: seq<Datum>, r1: bytes, r2: bytes, ix: seq<nat>)
    requires forall k :: 0 <= k < |ix| ==>
               && ix[k] < |cols| && ix[k] < |v1| && ix[k] < |v2| && DatumType(v1[ix[k]]) == DatumType(v2[ix[k]])
               && KeyColOk(cols[ix[k]], r1) && KeyColOk(cols[ix[k]], r2)
               && DecodeField(r1, cols[ix[k]]) == v1[ix[k]] && DecodeField(r2, cols[ix[k]]) == v2[ix[k]]
    ensures FieldsCompare(Select(cols, ix), r1, r2) == ValuesCompare(v1, v2, ix)
    decreases |ix|
  {
    hide DecodeField, DatumCompare, KeyColOk;
    if ix != [] {
      FieldsAreValues(cols, v1, v2, r1, r2, ix[1..]);
      assert Select(cols, ix)[1..] == Select(cols, ix[1..]);
    }
  }
}
