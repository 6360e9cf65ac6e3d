/** Records as bytes: column offsets of a new table (src/system/sm_manager.cpp),
    packing of inserted values (src/execution/executor_insert.h,
    src/common/common.h) and decoding of fields (src/execution/execution_manager.cpp). */
module TupleCodec {
  import opened Common
  import opened Bytes
  import opened Meta

  /** A column value; a float is kept as its four bytes. */
  datatype Datum = IntDatum(i: int) | FloatDatum(bits: bytes) | StrDatum(s: bytes)

  datatype PackError = IncompatibleType | StringOverflow

  datatype ColDef = ColDef(name: string, colType: ColType, len: int)

  predicate WfDef(d: ColDef) {
    d.len >= 0 && (d.colType != TypeString ==> d.len == 4)
  }

  predicate WfCol(c: ColMeta) {
    c.len >= 0 && (c.colType != TypeString ==> c.len == 4)
  }

  function DatumType(d: Datum): ColType {
    match d case IntDatum(_) => TypeInt case FloatDatum(_) => TypeFloat case StrDatum(_) => TypeString
  }

  predicate WfDatum(d: Datum) {
    match d case IntDatum(i) => IsInt32(i) case FloatDatum(b) => |b| == 4 case StrDatum(_) => true
  }

  // ----- create_table: offsets -----

  function Width(cols: seq<ColMeta>): int {
    if cols == [] then 0 else Width(cols[..|cols| - 1]) + cols[|cols| - 1].len
  }

  /** Each column starts where the one before it ends: the columns tile the
      record, without gaps or overlaps. */
  ghost predicate Tiled(cols: seq<ColMeta>) {
    forall i :: 0 <= i < |cols| ==> WfCol(cols[i]) && cols[i].offset == Width(cols[..i])
  }

  method CreateCols(tab: string, defs: seq<ColDef>) returns (cols: seq<ColMeta>, recordSize: int)
    requires forall d :: d in defs ==> WfDef(d)
    ensures |cols| == |defs| && Tiled(cols) && recordSize == Width(cols)
    ensures forall i :: 0 <= i < |defs| ==>
              cols[i].name == defs[i].name && cols[i].colType == defs[i].colType && cols[i].len == defs[i].len
  {
    cols, recordSize := [], 0;
    for k := 0 to |defs|
      invariant |cols| == k && Tiled(cols) && recordSize == Width(cols)
      invariant forall i :: 0 <= i < k ==>
                  cols[i].name == defs[i].name && cols[i].colType == defs[i].colType && cols[i].len == defs[i].len
    {
      var col := ColMeta(tab, defs[k].name, defs[k].colType, defs[k].len, recordSize, false);
      assert defs[k] in defs;
      TiledSnoc(cols, col);
      cols := cols + [col];
      recordSize := recordSize + defs[k].len;
    }
  }

  lemma {:induction false} TiledSnoc(cols: seq<ColMeta>, c: ColMeta)
    requires Tiled(cols) && WfCol(c) && c.offset == Width(cols)
    ensures Tiled(cols + [c]) && Width(cols + [c]) == Width(cols) + c.len
  {
    var l := cols + [c];
    assert l[..|l| - 1] == cols;
    forall i | 0 <= i < |l| ensures WfCol(l[i]) && l[i].offset == Width(l[..i]) {
      if i < |cols| { assert l[..i] == cols[..i]; }
    }
  }

  lemma {:induction false} WidthMono(cols: seq<ColMeta>, i: nat)
    requires (forall k :: 0 <= k < |cols| ==> WfCol(cols[k])) && i <= |cols|
    ensures 0 <= Width(cols[..i]) <= Width(cols)
  {
    if i < |cols| {
      var front := cols[..|cols| - 1];
      assert cols[..i] == front[..i];
      WidthMono(front, i);
    } else {
      assert cols[..i] == cols;
      WidthNat(cols);
    }
  }

  lemma {:induction false} WidthNat(cols: seq<ColMeta>)
    requires forall k :: 0 <= k < |cols| ==> WfCol(cols[k])
    ensures Width(cols) >= 0
  {
    if cols != [] { WidthNat(cols[..|cols| - 1]); }
  }

  lemma {:induction false} ColFits(cols: seq<ColMeta>, i: nat)
    requires Tiled(cols) && i < |cols|
    ensures 0 <= cols[i].offset && cols[i].offset + cols[i].len == Width(cols[..i + 1]) <= Width(cols)
  {
    WidthMono(cols, i + 1);
    WidthMono(cols, i);
    assert cols[..i + 1][..i] == cols[..i];
  }

  // ----- init_raw and packing -----

  function Zeroes(n: nat): (z: bytes)
    ensures |z| == n && forall i :: 0 <= i < n ==> z[i] == 0
  {
    seq(n, _ => 0)
  }

  /** `init_raw`: the bytes of a value in a column of length `len`. */
  function InitRaw(d: Datum, len: nat): (r: Result<bytes, PackError>)
    requires WfDatum(d) && (!d.StrDatum? ==> len == 4)
    ensures r.Ok? ==> |r.value| == len
    ensures r.Err? <==> d.StrDatum? && len < |d.s|
  {
    match d
    case IntDatum(i) => Ok(EncodeInt(i))
    case FloatDatum(b) => Ok(b)
    case StrDatum(s) => if len < |s| then Err(StringOverflow) else Ok(s + Zeroes(len - |s|))
  }

  predicate Packable(c: ColMeta, d: Datum)
    requires WfCol(c) && WfDatum(d)
  {
    DatumType(d) == c.colType && InitRaw(d, c.len).Ok?
  }

  ghost function Raw(c: ColMeta, d: Datum): bytes
    requires WfCol(c) && WfDatum(d) && Packable(c, d)
  {
    InitRaw(d, c.len).value
  }

  /** The bytes of column `i` in `rec` are those of value `i`. */
  ghost predicate FieldIs(cols: seq<ColMeta>, values: seq<Datum>, rec: bytes, i: nat)
    requires i < |cols| == |values|
  {
    var c, d := cols[i], values[i];
    && WfCol(c) && WfDatum(d) && Packable(c, d)
    && 0 <= c.offset && c.offset + c.len <= |rec| && rec[c.offset..c.offset + c.len] == Raw(c, d)
  }

  /** Column `k` is the first one whose value does not fit, with error `e`. */
  ghost predicate FailsAt(cols: seq<ColMeta>, values: seq<Datum>, k: nat, e: PackError)
    requires k < |cols| == |values| && Tiled(cols) && forall d :: d in values ==> WfDatum(d)
  {
    && (forall i :: 0 <= i < k ==> WfDatum(values[i]) && Packable(cols[i], values[i]))
    && if DatumType(values[k]) != cols[k].colType then e == IncompatibleType
       else WfDatum(values[k]) && InitRaw(values[k], cols[k].len) == Err(e)
  }

  /** `InsertExecutor::Next` up to the record insert: packs the values into a
      buffer whose initial bytes `buf` do not matter. */
  method PackRecord(cols: seq<ColMeta>, values: seq<Datum>, buf: bytes) returns (r: Result<bytes, PackError>)
    requires Tiled(cols) && |values| == |cols| && |buf| == Width(cols)
    requires forall d :: d in values ==> WfDatum(d)
    ensures r.Ok? ==> |r.value| == Width(cols) && forall i :: 0 <= i < |cols| ==> FieldIs(cols, values, r.value, i)
    ensures r.Err? ==> exists k :: 0 <= k < |cols| && FailsAt(cols, values, k, r.error)
  {
    hide FieldIs, FailsAt, Splice;
    var rec := buf;
    for k := 0 to |values|
      invariant |rec| == Width(cols)
      invariant forall i :: 0 <= i < k ==> FieldIs(cols, values, rec, i)
    {
      assert values[k] in values;
      if cols[k].colType != DatumType(values[k]) {
        FailedAt(cols, values, rec, k, IncompatibleType);
        return Err(IncompatibleType);
      }
      var raw := InitRaw(values[k], cols[k].len);
      if raw.Err? {
        FailedAt(cols, values, rec, k, raw.error);
        return Err(raw.error);
      }
      ColFits(cols, k);
      PackOne(cols, values, rec, k, raw.value);
      rec := Splice(rec, cols[k].offset, raw.value);
    }
    return Ok(rec);
  }

  lemma {:induction false} FailedAt(cols: seq<ColMeta>, values: seq<Datum>, rec: bytes, k: nat, e: PackError)
    requires k < |cols| == |values| && Tiled(cols) && forall d :: d in values ==> WfDatum(d)
    requires forall i :: 0 <= i < k ==> FieldIs(cols, values, rec, i)
    requires if DatumType(values[k]) != cols[k].colType then e == IncompatibleType
             else WfDatum(values[k]) && InitRaw(values[k], cols[k].len) == Err(e)
    ensures FailsAt(cols, values, k, e)
  {
    forall i | 0 <= i < k ensures WfDatum(values[i]) && Packable(cols[i], values[i]) {
      assert FieldIs(cols, values, rec, i);
    }
  }

  lemma {:induction false} PackOne(cols: seq<ColMeta>, values: seq<Datum>, rec: bytes, k: nat, raw: bytes)
    requires Tiled(cols) && k < |cols| == |values| && |rec| == Width(cols) && WfDatum(values[k])
    requires Packable(cols[k], values[k]) && raw == Raw(cols[k], values[k])
    requires 0 <= cols[k].offset && cols[k].offset + |raw| <= |rec|
    requires forall i :: 0 <= i < k ==> FieldIs(cols, values, rec, i)
    ensures forall i :: 0 <= i <= k ==> FieldIs(cols, values, Splice(rec, cols[k].offset, raw), i)
  {
    forall i | 0 <= i <= k ensures FieldIs(cols, values, Splice(rec, cols[k].offset, raw), i) {
      if i == k {
        SpliceReads(rec, cols[k].offset, raw);
      } else {
        assert FieldIs(cols, values, rec, i);
        ColsApart(cols, i, k);
        SpliceKeeps(rec, cols[k].offset, raw, cols[i].offset, cols[i].offset + cols[i].len);
      }
    }
  }

  lemma {:induction false} ColsApart(cols: seq<ColMeta>, i: nat, k: nat)
    requires Tiled(cols) && i < k < |cols|
    ensures cols[i].offset + cols[i].len <= cols[k].offset
  {
    ColFits(cols, i);
    assert cols[..k][..i + 1] == cols[..i + 1];
    WidthMono(cols[..k], i + 1);
  }

  // ----- Decoding -----

  /** The length of a string field up to its first NUL. */
  function StrLen(b: bytes): (n: nat)
    ensures n <= |b|
  {
    if b == [] || b[0] == 0 then 0 else 1 + StrLen(b[1..])
  }

  function DecodeField(rec: bytes, c: ColMeta): Datum
    requires WfCol(c) && 0 <= c.offset && c.offset + c.len <= |rec|
  {
    var b := rec[c.offset..c.offset + c.len];
    match c.colType
    case TypeInt => IntDatum(DecodeInt(b))
    case TypeFloat => FloatDatum(b)
    case TypeString => StrDatum(b[..StrLen(b)])
  }

  predicate NulFree(s: bytes) {
    forall i :: 0 <= i < |s| ==> s[i] != 0
  }

  lemma {:induction false} StrLenPadded(s: bytes, n: nat)
    requires NulFree(s)
    ensures StrLen(s + Zeroes(n)) == |s|
  {
    var t := s + Zeroes(n);
    if s != [] {
      assert t[1..] == s[1..] + Zeroes(n);
      StrLenPadded(s[1..], n);
    }
  }

  /** Decoding column `i` of a packed record gives the `i`th value back. */
  lemma {:induction false} FieldRoundTrip(rec: bytes, c: ColMeta, d: Datum)
    requires WfCol(c) && WfDatum(d) && Packable(c, d) && (d.StrDatum? ==> NulFree(d.s))
    requires 0 <= c.offset && c.offset + c.len <= |rec| && rec[c.offset..c.offset + c.len] == Raw(c, d)
    ensures DecodeField(rec, c) == d
  {
    match d
    case IntDatum(i) => IntRoundTrip(i);
    case FloatDatum(_) =>
    case StrDatum(s) =>
      StrLenPadded(s, c.len - |s|);
      assert (s + Zeroes(c.len - |s|))[..|s|] == s;
  }

  /** For every schema and every row of values that fit: whatever the buffer
      held before, decoding each column gives the row back. */
  lemma {:induction false} RecordRoundTrip(cols: seq<ColMeta>, values: seq<Datum>, rec: bytes, i: nat)
    requires Tiled(cols) && i < |cols| == |values|
    requires forall k :: 0 <= k < |cols| ==> FieldIs(cols, values, rec, k)
    requires values[i].StrDatum? ==> NulFree(values[i].s)
    ensures 0 <= cols[i].offset && cols[i].offset + cols[i].len <= |rec|
    ensures DecodeField(rec, cols[i]) == values[i]
  {
    assert FieldIs(cols, values, rec, i);
    FieldRoundTrip(rec, cols[i], values[i]);
  }

  /** A string with an embedded NUL does not survive: what comes back is what precedes it. */
  lemma {:induction false} NulCuts(rec: bytes, c: ColMeta, s: bytes)
    requires WfCol(c) && c.colType == TypeString && |s| <= c.len
    requires 0 <= c.offset && c.offset + c.len <= |rec|
    requires Packable(c, StrDatum(s)) && rec[c.offset..c.offset + c.len] == Raw(c, StrDatum(s))
    ensures DecodeField(rec, c) == StrDatum(s) <==> NulFree(s)
  {
    if NulFree(s) {
      FieldRoundTrip(rec, c, StrDatum(s));
    } else {
      var k :| 0 <= k < |s| && s[k] == 0;
      CutBefore(rec[c.offset..c.offset + c.len], k);
    }
  }

  lemma {:induction false} CutBefore(b: bytes, k: nat)
    requires k < |b| && b[k] == 0
    ensures StrLen(b) <= k
  {
    if k > 0 && b[0] != 0 { CutBefore(b[1..], k - 1); }
  }

  lemma {:induction false} EmbeddedNul(c: ColMeta)
    requires c.colType == TypeString && c.len == 2 && c.offset == 0
    ensures InitRaw(StrDatum([0, 7]), 2) == Ok([0, 7]) && DecodeField([0, 7], c) == StrDatum([])
  {
    var b: bytes := [0, 7];
    assert b + Zeroes(0) == b;
    assert b[0..2] == b;
  }
}
