/** Binary images of the index file header (src/index/ix_defs.h) and of insert
    log records (src/recovery/log_manager.h). */
module BinaryCodec {
  import opened Common
  import opened Bytes
  import opened Meta

  // ----- Writing and reading at a running offset -----

  /** `out` is the buffer `dest` with `image` written up to `offset`; `rest` is still to come. */
  ghost predicate Written(out: bytes, offset: nat, rest: bytes, image: bytes, dest: bytes) {
    && |out| == |dest| && offset <= |dest| && offset + |rest| == |image| <= |dest|
    && out[..offset] + rest == image
    && out[offset..] == dest[offset..]
  }

  method Put(buf: bytes, at: nat, piece: bytes, ghost rest: bytes, ghost image: bytes, ghost dest: bytes)
    returns (out: bytes, offset: nat)
    requires Written(buf, at, piece + rest, image, dest)
    ensures Written(out, offset, rest, image, dest)
  {
    out, offset := Splice(buf, at, piece), at + |piece|;
    assert out[..offset] == buf[..at] + piece;
    assert buf[..at] + piece + rest == buf[..at] + (piece + rest);
    assert out[offset..] == buf[at..][|piece|..];
  }

  /** What lies at the reading position, and what follows it. */
  lemma {:induction false} Take(src: bytes, offset: nat, piece: bytes, rest: bytes)
    requires offset <= |src| && src[offset..] == piece + rest
    ensures offset + |piece| <= |src|
    ensures src[offset..offset + |piece|] == piece && src[offset + |piece|..] == rest
  {
    assert src[offset..][..|piece|] == piece;
    assert src[offset..][|piece|..] == rest;
  }

  predicate AllInt32(s: seq<int>) {
    forall i :: 0 <= i < |s| ==> IsInt32(s[i])
  }

  function Ints(s: seq<int>): (b: bytes)
    requires AllInt32(s)
    ensures |b| == 4 * |s|
  {
    if s == [] then [] else EncodeInt(s[0]) + Ints(s[1..])
  }

  method PutInts(buf: bytes, at: nat, xs: seq<int>, ghost rest: bytes, ghost image: bytes, ghost dest: bytes)
    returns (out: bytes, offset: nat)
    requires AllInt32(xs) && Written(buf, at, Ints(xs) + rest, image, dest)
    ensures Written(out, offset, rest, image, dest)
  {
    hide Written;
    out, offset := buf, at;
    assert xs[0..] == xs;
    for i := 0 to |xs|
      invariant Written(out, offset, Ints(xs[i..]) + rest, image, dest)
    {
      assert xs[i..][1..] == xs[i + 1..];
      ghost var more := Ints(xs[i + 1..]) + rest;
      assert Ints(xs[i..]) + rest == EncodeInt(xs[i]) + more;
      out, offset := Put(out, offset, EncodeInt(xs[i]), more, image, dest);
    }
    assert Ints(xs[|xs|..]) + rest == rest;
  }

  method TakeInts(src: bytes, at: nat, n: nat, ghost xs: seq<int>, ghost rest: bytes) returns (ys: seq<int>, offset: nat)
    requires AllInt32(xs) && |xs| == n && at <= |src| && src[at..] == Ints(xs) + rest
    ensures ys == xs && offset == at + 4 * n <= |src| && src[offset..] == rest
  {
    hide EncodeInt, DecodeInt;
    ys, offset := [], at;
    assert xs[0..] == xs;
    for i := 0 to n
      invariant ys == xs[..i] && offset == at + 4 * i <= |src| && src[offset..] == Ints(xs[i..]) + rest
    {
      assert xs[i..][1..] == xs[i + 1..];
      assert Ints(xs[i..]) + rest == EncodeInt(xs[i]) + (Ints(xs[i + 1..]) + rest);
      Take(src, offset, EncodeInt(xs[i]), Ints(xs[i + 1..]) + rest);
      IntRoundTrip(xs[i]);
      ys := ys + [DecodeInt(src[offset..offset + 4])];
      offset := offset + 4;
    }
    assert Ints(xs[n..]) + rest == rest;
  }

  // ----- Index file header -----

  datatype IxFileHdr = IxFileHdr(firstFree: int, numPages: int, root: int, colNum: int,
                                 colTypes: seq<ColType>, colLens: seq<int>, colTotLen: int,
                                 order: int, keysSize: int, firstLeaf: int, lastLeaf: int, totLen: int)

  function Head(h: IxFileHdr): (s: seq<int>) {
    [h.totLen, h.firstFree, h.numPages, h.root, h.colNum]
  }

  function Tail(h: IxFileHdr): (s: seq<int>) {
    [h.colTotLen, h.order, h.keysSize, h.firstLeaf, h.lastLeaf]
  }

  function TypeNos(s: seq<ColType>): (r: seq<int>)
    ensures |r| == |s| && AllInt32(r) && forall i :: 0 <= i < |s| ==> r[i] == TypeNo(s[i])
  {
    seq(|s|, i requires 0 <= i < |s| => TypeNo(s[i]))
  }

  function ToTypes(s: seq<int>): (r: seq<ColType>) {
    seq(|s|, i requires 0 <= i < |s| => if s[i] == 0 then TypeInt else if s[i] == 1 then TypeFloat else TypeString)
  }

  predicate WfIx(h: IxFileHdr) {
    && AllInt32(Head(h)) && AllInt32(Tail(h)) && AllInt32(h.colLens)
    && |h.colTypes| == |h.colLens| == h.colNum
  }

  function HdrImage(h: IxFileHdr): (b: bytes)
    requires WfIx(h)
    ensures |b| == 40 + 8 * h.colNum
  {
    Ints(Head(h)) + (Ints(TypeNos(h.colTypes)) + (Ints(h.colLens) + Ints(Tail(h))))
  }

  function UpdateTotLen(h: IxFileHdr): IxFileHdr {
    h.(totLen := 4 * 4 + 4 * 6 + 4 * h.colNum + 4 * h.colNum)
  }

  /** `serialize`; `tight` is its final assertion, which holds iff the total length was brought up to date. */
  method Serialize(h: IxFileHdr, dest: bytes) returns (out: bytes, tight: bool)
    requires WfIx(h) && |dest| >= |HdrImage(h)|
    ensures out == HdrImage(h) + dest[|HdrImage(h)|..]
    ensures tight <==> h == UpdateTotLen(h)
  {
    hide Ints;
    ghost var image := HdrImage(h);
    assert dest[..0] + image == image;
    ghost var tail := Ints(Tail(h));
    ghost var lens := Ints(h.colLens) + tail;
    var offset: nat := 0;
    out, offset := PutInts(dest, offset, Head(h), Ints(TypeNos(h.colTypes)) + lens, image, dest);
    out, offset := PutInts(out, offset, TypeNos(h.colTypes), lens, image, dest);
    out, offset := PutInts(out, offset, h.colLens, tail, image, dest);
    assert tail + [] == tail;
    out, offset := PutInts(out, offset, Tail(h), [], image, dest);
    assert out == out[..offset] + out[offset..];
    tight := offset == h.totLen;
  }

  /** `deserialize` into a header whose column vectors already hold `types` and
      `lens`; `tight` is its final assertion. */
  method Deserialize(src: bytes, types: seq<ColType>, lens: seq<int>, ghost h: IxFileHdr, ghost rest: bytes)
    returns (r: IxFileHdr, tight: bool)
    requires WfIx(h) && src == HdrImage(h) + rest
    ensures r == h.(colTypes := types + h.colTypes, colLens := lens + h.colLens)
    ensures tight <==> h == UpdateTotLen(h)
  {
    hide Ints, IsInt32;
    var offset: nat := 0;
    ghost var r3 := Ints(Tail(h)) + rest;
    ghost var r2 := Ints(h.colLens) + r3;
    ghost var r1 := Ints(TypeNos(h.colTypes)) + r2;
    assert src[0..] == src == Ints(Head(h)) + r1;
    var head, typeNos, colLens, tail;
    head, offset := TakeInts(src, offset, 5, Head(h), r1);
    typeNos, offset := TakeInts(src, offset, head[4], TypeNos(h.colTypes), r2);
    colLens, offset := TakeInts(src, offset, head[4], h.colLens, r3);
    tail, offset := TakeInts(src, offset, 5, Tail(h), rest);
    assert ToTypes(typeNos) == h.colTypes;
    r := IxFileHdr(head[1], head[2], head[3], head[4], types + ToTypes(typeNos), lens + colLens,
                   tail[0], tail[1], tail[2], tail[3], tail[4], head[0]);
    tight := offset == r.totLen;
  }

  /** Writing a header into a page and reading it back, `None` where an
      assertion fails. It completes with the same header iff the total length
      was brought up to date and the header read into had no columns yet. */
  method HdrRoundTrip(h: IxFileHdr, page: bytes, types: seq<ColType>, lens: seq<int>) returns (r: Option<IxFileHdr>)
    requires WfIx(h) && |page| >= |HdrImage(h)|
    ensures r.Some? <==> h == UpdateTotLen(h)
    ensures r == Some(h) <==> h == UpdateTotLen(h) && types == [] && lens == []
  {
    var image, written := Serialize(h, page);
    if !written {
      return None;
    }
    var hdr, read := Deserialize(image, types, lens, h, page[|HdrImage(h)|..]);
    if !read {
      return None;
    }
    assert [] + h.colTypes == h.colTypes && [] + h.colLens == h.colLens;
    assert |hdr.colTypes| == |types| + |h.colTypes| && |hdr.colLens| == |lens| + |h.colLens|;
    return Some(hdr);
  }

  // ----- Insert log records -----

  const UINT32_LIMIT := 2 * INT32_LIMIT
  const LOG_HEADER_SIZE := 24
  const INSERT := 1
  const INVALID_LSN := -1

  datatype InsertLog = InsertLog(logType: int, lsn: int, totLen: nat, tid: int, prevLsn: int,
                                 value: bytes, rid: Rid, name: bytes)

  /** Every field fits its type, and so does the running offset, which ends
      where the table name starts. */
  predicate WfLog(l: InsertLog) {
    && IsInt32(l.logType) && IsInt32(l.lsn) && l.totLen < UINT32_LIMIT && IsInt64(l.tid) && IsInt32(l.prevLsn)
    && IsInt32(LOG_HEADER_SIZE + 4 + |l.value| + 8 + 8) && IsInt32(l.rid.pageNo) && IsInt32(l.rid.slotNo) && IsInt64(|l.name|)
  }

  /** The constructor: `log_tot_len_` is a 32-bit unsigned sum. */
  function NewInsertLog(tid: int, value: bytes, rid: Rid, name: bytes): InsertLog {
    InsertLog(INSERT, INVALID_LSN, (LOG_HEADER_SIZE + 4 + |value| + 8 + 8 + |name|) % UINT32_LIMIT, tid, INVALID_LSN,
              value, rid, name)
  }

  function LogHeader(l: InsertLog): (b: bytes)
    requires WfLog(l)
    ensures |b| == LOG_HEADER_SIZE
  {
    EncodeInt(l.logType) + EncodeInt(l.lsn) + EncodeLE(l.totLen, 4) + EncodeLong(l.tid) + EncodeInt(l.prevLsn)
  }

  function RidBytes(r: Rid): (b: bytes)
    requires IsInt32(r.pageNo) && IsInt32(r.slotNo)
    ensures |b| == 8
  {
    EncodeInt(r.pageNo) + EncodeInt(r.slotNo)
  }

  function LogImage(l: InsertLog): (b: bytes)
    requires WfLog(l)
    ensures |b| == LOG_HEADER_SIZE + 4 + |l.value| + 8 + 8 + |l.name|
  {
    LogHeader(l) + (EncodeInt(|l.value|) + (l.value + (RidBytes(l.rid) + (EncodeLong(|l.name|) + l.name))))
  }

  method SerializeLog(l: InsertLog, dest: bytes) returns (out: bytes)
    requires WfLog(l) && |dest| >= |LogImage(l)|
    ensures out == LogImage(l) + dest[|LogImage(l)|..]
  {
    hide LogHeader, EncodeInt, EncodeLong, RidBytes;
    ghost var image := LogImage(l);
    assert dest[..0] + image == image;
    ghost var r3 := EncodeLong(|l.name|) + l.name;
    ghost var r2 := RidBytes(l.rid) + r3;
    ghost var r1 := l.value + r2;
    var offset: nat := 0;
    out, offset := Put(dest, offset, LogHeader(l), EncodeInt(|l.value|) + r1, image, dest);
    out, offset := Put(out, offset, EncodeInt(|l.value|), r1, image, dest);
    out, offset := Put(out, offset, l.value, r2, image, dest);
    out, offset := Put(out, offset, RidBytes(l.rid), r3, image, dest);
    out, offset := Put(out, offset, EncodeLong(|l.name|), l.name, image, dest);
    assert l.name + [] == l.name;
    out, offset := Put(out, offset, l.name, [], image, dest);
    assert out == out[..offset] + out[offset..];
  }

  lemma {:induction false} HeaderFields(l: InsertLog, b: bytes)
    requires WfLog(l) && b == LogHeader(l)
    ensures b[..4] == EncodeInt(l.logType) && b[4..8] == EncodeInt(l.lsn) && b[8..12] == EncodeLE(l.totLen, 4)
    ensures b[12..20] == EncodeLong(l.tid) && b[20..24] == EncodeInt(l.prevLsn)
  {
  }

  lemma {:induction false} HeaderDecodes(l: InsertLog, src: bytes)
    requires WfLog(l) && |src| >= LOG_HEADER_SIZE && src[..LOG_HEADER_SIZE] == LogHeader(l)
    ensures DecodeInt(src[..4]) == l.logType && DecodeInt(src[4..8]) == l.lsn && DecodeLE(src[8..12]) == l.totLen
    ensures DecodeLong(src[12..20]) == l.tid && DecodeInt(src[20..24]) == l.prevLsn
  {
    var b := src[..LOG_HEADER_SIZE];
    assert b[..4] == src[..4] && b[4..8] == src[4..8] && b[8..12] == src[8..12];
    assert b[12..20] == src[12..20] && b[20..24] == src[20..24];
    hide LogHeader, EncodeInt, DecodeInt, EncodeLong, DecodeLong, EncodeLE, DecodeLE;
    HeaderFields(l, b);
    IntRoundTrip(l.logType);
    IntRoundTrip(l.lsn);
    IntRoundTrip(l.prevLsn);
    LongRoundTrip(l.tid);
    assert Pow256(4) == UINT32_LIMIT;
    LERoundTrip(l.totLen, 4);
  }

  method DeserializeLog(src: bytes, ghost l: InsertLog, ghost rest: bytes) returns (r: InsertLog)
    requires WfLog(l) && src == LogImage(l) + rest
    ensures r == l
  {
    hide LogHeader, EncodeInt, DecodeInt, EncodeLong, DecodeLong, EncodeLE, DecodeLE;
    ghost var r5 := l.name + rest;
    ghost var r4 := EncodeLong(|l.name|) + r5;
    ghost var r3 := RidBytes(l.rid) + r4;
    ghost var r2 := l.value + r3;
    ghost var r1 := EncodeInt(|l.value|) + r2;
    assert src[0..] == src == LogHeader(l) + r1;
    Take(src, 0, LogHeader(l), r1);
    HeaderDecodes(l, src);
    var offset := LOG_HEADER_SIZE;
    Take(src, offset, EncodeInt(|l.value|), r2);
    IntRoundTrip(|l.value|);
    var size := DecodeInt(src[offset..offset + 4]);
    offset := offset + 4;
    Take(src, offset, l.value, r3);
    var value := src[offset..offset + size];
    offset := offset + size;
    Take(src, offset, RidBytes(l.rid), r4);
    var rid := TakeRid(src, offset, l.rid);
    offset := offset + 8;
    Take(src, offset, EncodeLong(|l.name|), r5);
    LongRoundTrip(|l.name|);
    var nameSize := DecodeLong(src[offset..offset + 8]);
    offset := offset + 8;
    Take(src, offset, l.name, rest);
    r := InsertLog(DecodeInt(src[..4]), DecodeInt(src[4..8]), DecodeLE(src[8..12]), DecodeLong(src[12..20]),
                   DecodeInt(src[20..24]), value, rid, src[offset..offset + nameSize]);
  }

  method TakeRid(src: bytes, offset: nat, ghost rid: Rid) returns (r: Rid)
    requires IsInt32(rid.pageNo) && IsInt32(rid.slotNo)
    requires offset + 8 <= |src| && src[offset..offset + 8] == RidBytes(rid)
    ensures r == rid
  {
    hide EncodeInt, DecodeInt;
    assert src[offset..offset + 8][..4] == src[offset..offset + 4];
    assert src[offset..offset + 8][4..] == src[offset + 4..offset + 8];
    IntRoundTrip(rid.pageNo);
    IntRoundTrip(rid.slotNo);
    r := Rid(DecodeInt(src[offset..offset + 4]), DecodeInt(src[offset + 4..offset + 8]));
  }

  /** A new record survives the log buffer, and its recorded length is the length of
      its image iff that length fits 32 bits. */
  method LogRoundTrip(tid: int, value: bytes, rid: Rid, name: bytes, buf: bytes) returns (r: InsertLog)
    requires WfLog(NewInsertLog(tid, value, rid, name)) && |buf| >= |LogImage(NewInsertLog(tid, value, rid, name))|
    ensures r == NewInsertLog(tid, value, rid, name)
    ensures r.totLen == |LogImage(r)| <==> |LogImage(r)| < UINT32_LIMIT
  {
    hide LogImage;
    ghost var l := NewInsertLog(tid, value, rid, name);
    var image := SerializeLog(NewInsertLog(tid, value, rid, name), buf);
    r := DeserializeLog(image, l, buf[|LogImage(l)|..]);
  }
}
