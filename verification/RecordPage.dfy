/** The bytes of a record page (src/record/rm_file_handle.h, src/record/rm_defs.h,
    src/record/rm_manager.h): page header, bitmap, slots. */
module RecordPage {
  import opened Common
  import opened Bytes
  import opened Bitmap

  const OFFSET_NEXT_FREE := 4      // after the page LSN
  const OFFSET_NUM_RECORDS := 8
  const OFFSET_BITMAP := 12
  const FILE_HDR_SIZE := 20
  const RM_NO_PAGE := -1
  const RM_FILE_HDR_PAGE := 0
  const RM_FIRST_RECORD_PAGE := 1
  const RM_MAX_RECORD_SIZE := 512

  /** The part of the file header that never changes. */
  datatype Layout = Layout(recordSize: int, perPage: int, bitmapSize: int)

  /** The file header. */
  datatype RmFileHdr = RmFileHdr(layout: Layout, numPages: int, firstFree: int)

  /** The slots of a page as `create_file` computes them. */
  function Capacity(recordSize: nat): nat {
    (BITMAP_WIDTH * (PAGE_SIZE - 1 - FILE_HDR_SIZE) + 1) / (1 + recordSize * BITMAP_WIDTH)
  }

  predicate WfLayout(h: Layout) {
    && 1 <= h.recordSize <= RM_MAX_RECORD_SIZE
    && h.perPage == Capacity(h.recordSize)
    && h.bitmapSize == (h.perPage + BITMAP_WIDTH - 1) / BITMAP_WIDTH
  }

  datatype SizeError = InvalidRecordSize(size: int)

  /** `create_file`: the header of an empty file. */
  function CreateHdr(recordSize: int): (r: Result<RmFileHdr, SizeError>)
    ensures r.Ok? <==> 1 <= recordSize <= RM_MAX_RECORD_SIZE
    ensures r.Ok? ==> WfLayout(r.value.layout) && r.value.layout.recordSize == recordSize
    ensures r.Ok? ==> r.value.numPages == 1 && r.value.firstFree == RM_NO_PAGE
  {
    if recordSize < 1 || recordSize > RM_MAX_RECORD_SIZE then Err(InvalidRecordSize(recordSize)) else
    var n := Capacity(recordSize);
    Ok(RmFileHdr(Layout(recordSize, n, (n + BITMAP_WIDTH - 1) / BITMAP_WIDTH), 1, RM_NO_PAGE))
  }

  function SlotOffset(h: Layout, i: int): int {
    OFFSET_BITMAP + h.bitmapSize + i * h.recordSize
  }

  /** Header, bitmap and all slots fit into a page, there is room for several
      records, and slot `i` ends where slot `i + 1` starts. */
  lemma {:induction false} LayoutFits(h: Layout, i: int)
    requires WfLayout(h) && 0 <= i < h.perPage
    ensures h.perPage >= 7
    ensures OFFSET_BITMAP + h.bitmapSize <= SlotOffset(h, i)
    ensures SlotOffset(h, i) + h.recordSize == SlotOffset(h, i + 1) <= PAGE_SIZE
    ensures OFFSET_BITMAP + h.perPage <= PAGE_SIZE
  {
    CapacityFits(h.recordSize);
    SlotArithmetic(i, h.perPage, h.recordSize);
  }

  lemma {:induction false} SlotArithmetic(i: nat, n: nat, r: nat)
    requires i < n
    ensures 0 <= i * r && (i + 1) * r == i * r + r && (i + 1) * r <= n * r
  {
    MulMono(i + 1, n, r);
  }

  lemma {:induction false} CapacityFits(r: int)
    requires 1 <= r <= RM_MAX_RECORD_SIZE
    ensures 7 <= Capacity(r) <= 3622
    ensures OFFSET_BITMAP + (Capacity(r) + 7) / 8 + Capacity(r) * r <= PAGE_SIZE
  {
    var n, d := Capacity(r), 1 + r * 8;
    DivBounds(32601, d);
    CapacityArithmetic(n, r);
  }

  lemma {:induction false} CapacityArithmetic(n: nat, r: int)
    requires 1 <= r <= RM_MAX_RECORD_SIZE
    requires n * (1 + r * 8) <= 32601 < (n + 1) * (1 + r * 8)
    ensures 7 <= n <= 3622
    ensures OFFSET_BITMAP + (n + 7) / 8 + n * r <= PAGE_SIZE
  {
    var p := n * r;
    assert n * (1 + r * 8) == n + 8 * p;
    assert n <= p by { MulMono(1, r, n); }
    assert (n + 1) * (1 + r * 8) <= (n + 1) * 4097 by { MulMono(1 + r * 8, 4097, n + 1); }
  }

  lemma {:induction false} MulMono(a: int, b: int, n: nat)
    requires a <= b
    ensures n * a <= n * b
  {
  }

  lemma {:induction false} DivBounds(a: nat, d: nat)
    requires d > 0
    ensures (a / d) * d <= a < (a / d + 1) * d
  {
  }

  // ----- Reading and writing a page -----

  function NextFree(d: bytes): int
    requires |d| == PAGE_SIZE
  {
    DecodeInt(d[OFFSET_NEXT_FREE..OFFSET_NEXT_FREE + 4])
  }

  function NumRecords(d: bytes): int
    requires |d| == PAGE_SIZE
  {
    DecodeInt(d[OFFSET_NUM_RECORDS..OFFSET_NUM_RECORDS + 4])
  }

  function SetNextFree(d: bytes, v: int): (r: bytes)
    requires |d| == PAGE_SIZE && IsInt32(v)
    ensures |r| == PAGE_SIZE
  {
    Splice(d, OFFSET_NEXT_FREE, EncodeInt(v))
  }

  function SetNumRecords(d: bytes, v: int): (r: bytes)
    requires |d| == PAGE_SIZE && IsInt32(v)
    ensures |r| == PAGE_SIZE
  {
    Splice(d, OFFSET_NUM_RECORDS, EncodeInt(v))
  }

  predicate SlotOk(h: Layout, i: int) {
    WfLayout(h) && 0 <= i < h.perPage
  }

  lemma {:induction false} SlotBounds(h: Layout, i: int)
    requires SlotOk(h, i)
    ensures OFFSET_BITMAP + i / BITMAP_WIDTH < OFFSET_BITMAP + h.bitmapSize
    ensures OFFSET_BITMAP + h.bitmapSize <= SlotOffset(h, i) && SlotOffset(h, i) + h.recordSize <= PAGE_SIZE
  {
    LayoutFits(h, i);
  }

  predicate SlotSet(h: Layout, d: bytes, i: int)
    requires SlotOk(h, i) && |d| == PAGE_SIZE
  {
    SlotBounds(h, i);
    IsSet(d, OFFSET_BITMAP, i)
  }

  function MarkSlot(h: Layout, d: bytes, i: int): (r: bytes)
    requires SlotOk(h, i) && |d| == PAGE_SIZE
    ensures |r| == PAGE_SIZE
  {
    SlotBounds(h, i);
    Set(d, OFFSET_BITMAP, i)
  }

  function ClearSlot(h: Layout, d: bytes, i: int): (r: bytes)
    requires SlotOk(h, i) && |d| == PAGE_SIZE
    ensures |r| == PAGE_SIZE
  {
    SlotBounds(h, i);
    Reset(d, OFFSET_BITMAP, i)
  }

  function GetRecord(h: Layout, d: bytes, i: int): (r: bytes)
    requires SlotOk(h, i) && |d| == PAGE_SIZE
    ensures |r| == h.recordSize
  {
    SlotBounds(h, i);
    d[SlotOffset(h, i)..SlotOffset(h, i) + h.recordSize]
  }

  function PutRecord(h: Layout, d: bytes, i: int, buf: bytes): (r: bytes)
    requires SlotOk(h, i) && |d| == PAGE_SIZE && |buf| == h.recordSize
    ensures |r| == PAGE_SIZE
  {
    SlotBounds(h, i);
    Splice(d, SlotOffset(h, i), buf)
  }

  /** `create_new_page_handle`: header and bitmap of a new page. It clears
      `perPage` bytes from the start of the bitmap. */
  function InitPage(h: Layout, d: bytes): (r: bytes)
    requires WfLayout(h) && |d| == PAGE_SIZE
    ensures |r| == PAGE_SIZE
  {
    CapacityFits(h.recordSize);
    Init(SetNextFree(SetNumRecords(d, 0), RM_NO_PAGE), OFFSET_BITMAP, h.perPage)
  }

  // ----- The fields of a page -----

  /** What the bytes of a page stand for. */
  datatype PageView = PageView(next: int, num: int, used: seq<bool>, slots: seq<bytes>)

  ghost function View(h: Layout, d: bytes): (v: PageView)
    requires WfLayout(h) && |d| == PAGE_SIZE
    ensures |v.used| == |v.slots| == h.perPage
    ensures forall i :: 0 <= i < h.perPage ==> v.used[i] == SlotSet(h, d, i) && v.slots[i] == GetRecord(h, d, i)
  {
    CapacityFits(h.recordSize);
    PageView(NextFree(d), NumRecords(d),
             seq(h.perPage, i requires 0 <= i < h.perPage => SlotSet(h, d, i)),
             seq(h.perPage, i requires 0 <= i < h.perPage => GetRecord(h, d, i)))
  }

  /** Two pages that agree on the header and slot bytes have the same fields there. */
  lemma {:induction false} SameHeader(a: bytes, b: bytes)
    requires |a| == |b| == PAGE_SIZE && forall k :: OFFSET_NEXT_FREE <= k < OFFSET_BITMAP ==> a[k] == b[k]
    ensures NextFree(a) == NextFree(b) && NumRecords(a) == NumRecords(b)
  {
    SliceEq(a, b, OFFSET_NEXT_FREE, OFFSET_NUM_RECORDS);
    SliceEq(a, b, OFFSET_NUM_RECORDS, OFFSET_BITMAP);
  }

  lemma {:induction false} SameBits(h: Layout, a: bytes, b: bytes)
    requires WfLayout(h) && |a| == |b| == PAGE_SIZE
    requires forall k :: OFFSET_BITMAP <= k < OFFSET_BITMAP + h.bitmapSize && k < PAGE_SIZE ==> a[k] == b[k]
    ensures View(h, a).used == View(h, b).used
  {
    forall i | 0 <= i < h.perPage ensures SlotSet(h, a, i) == SlotSet(h, b, i) {
      SlotBounds(h, i);
    }
  }

  lemma {:induction false} SameSlots(h: Layout, a: bytes, b: bytes)
    requires WfLayout(h) && |a| == |b| == PAGE_SIZE
    requires forall k :: OFFSET_BITMAP + h.bitmapSize <= k < PAGE_SIZE ==> a[k] == b[k]
    ensures View(h, a).slots == View(h, b).slots
  {
    forall i | 0 <= i < h.perPage ensures GetRecord(h, a, i) == GetRecord(h, b, i) {
      SlotBounds(h, i);
      SliceEq(a, b, SlotOffset(h, i), SlotOffset(h, i) + h.recordSize);
    }
  }

  lemma {:induction false} HeaderBelowSlots(h: Layout)
    requires WfLayout(h)
    ensures h.perPage > 0 && 0 < h.bitmapSize && OFFSET_BITMAP + h.bitmapSize < PAGE_SIZE
  {
    CapacityFits(h.recordSize);
    LayoutFits(h, 0);
  }

  /** Writing the record count changes that field only. */
  lemma {:induction false} SetNumView(h: Layout, d: bytes, v: int)
    requires WfLayout(h) && |d| == PAGE_SIZE && IsInt32(v)
    ensures View(h, SetNumRecords(d, v)) == View(h, d).(num := v)
  {
    var d' := SetNumRecords(d, v);
    HeaderBelowSlots(h);
    SameBits(h, d, d');
    SameSlots(h, d, d');
    SpliceReads(d, OFFSET_NUM_RECORDS, EncodeInt(v));
    IntRoundTrip(v);
    SpliceKeeps(d, OFFSET_NUM_RECORDS, EncodeInt(v), OFFSET_NEXT_FREE, OFFSET_NEXT_FREE + 4);
  }

  lemma {:induction false} SetNextView(h: Layout, d: bytes, v: int)
    requires WfLayout(h) && |d| == PAGE_SIZE && IsInt32(v)
    ensures View(h, SetNextFree(d, v)) == View(h, d).(next := v)
  {
    var d' := SetNextFree(d, v);
    HeaderBelowSlots(h);
    SameBits(h, d, d');
    SameSlots(h, d, d');
    SpliceReads(d, OFFSET_NEXT_FREE, EncodeInt(v));
    IntRoundTrip(v);
    SpliceKeeps(d, OFFSET_NEXT_FREE, EncodeInt(v), OFFSET_NUM_RECORDS, OFFSET_NUM_RECORDS + 4);
  }

  /** Setting a slot's bit changes that bit only. */
  lemma {:induction false} MarkView(h: Layout, d: bytes, i: int)
    requires SlotOk(h, i) && |d| == PAGE_SIZE
    ensures View(h, MarkSlot(h, d, i)) == View(h, d).(used := View(h, d).used[i := true])
  {
    var d' := MarkSlot(h, d, i);
    SlotBounds(h, i);
    SameHeader(d, d');
    SameSlots(h, d, d');
    forall k | 0 <= k < h.perPage ensures SlotSet(h, d', k) <==> k == i || SlotSet(h, d, k) {
      SlotBounds(h, k);
      SetOneBit(d, OFFSET_BITMAP, i, k);
    }
    assert View(h, d').used == View(h, d).used[i := true];
  }

  lemma {:induction false} ClearView(h: Layout, d: bytes, i: int)
    requires SlotOk(h, i) && |d| == PAGE_SIZE
    ensures View(h, ClearSlot(h, d, i)) == View(h, d).(used := View(h, d).used[i := false])
  {
    var d' := ClearSlot(h, d, i);
    SlotBounds(h, i);
    SameHeader(d, d');
    SameSlots(h, d, d');
    forall k | 0 <= k < h.perPage ensures SlotSet(h, d', k) <==> k != i && SlotSet(h, d, k) {
      SlotBounds(h, k);
      SetOneBit(d, OFFSET_BITMAP, i, k);
    }
    assert View(h, d').used == View(h, d).used[i := false];
  }

  /** Copying a record into a slot changes that slot only. */
  lemma {:induction false} PutView(h: Layout, d: bytes, i: int, buf: bytes)
    requires SlotOk(h, i) && |d| == PAGE_SIZE && |buf| == h.recordSize
    ensures View(h, PutRecord(h, d, i, buf)) == View(h, d).(slots := View(h, d).slots[i := buf])
  {
    var d' := PutRecord(h, d, i, buf);
    SlotBounds(h, i);
    SameHeader(d, d');
    SameBits(h, d, d');
    forall k | 0 <= k < h.perPage ensures GetRecord(h, d', k) == if k == i then buf else GetRecord(h, d, k) {
      PutOther(h, d, i, buf, k);
    }
    assert View(h, d').slots == View(h, d).slots[i := buf];
  }

  lemma {:induction false} PutOther(h: Layout, d: bytes, i: int, buf: bytes, k: int)
    requires SlotOk(h, i) && SlotOk(h, k) && |d| == PAGE_SIZE && |buf| == h.recordSize
    ensures GetRecord(h, PutRecord(h, d, i, buf), k) == if k == i then buf else GetRecord(h, d, k)
  {
    SlotBounds(h, i);
    SlotBounds(h, k);
    if k == i {
      SpliceReads(d, SlotOffset(h, i), buf);
    } else {
      SlotsApart(h, i, k);
      SpliceKeeps(d, SlotOffset(h, i), buf, SlotOffset(h, k), SlotOffset(h, k) + h.recordSize);
    }
  }

  lemma {:induction false} SlotsApart(h: Layout, i: int, k: int)
    requires h.recordSize >= 0 && i != k
    ensures SlotOffset(h, k) + h.recordSize <= SlotOffset(h, i) || SlotOffset(h, i) + h.recordSize <= SlotOffset(h, k)
  {
    if i < k {
      StepApart(h.recordSize, i, k);
    } else {
      StepApart(h.recordSize, k, i);
    }
  }

  lemma {:induction false} StepApart(r: nat, i: int, k: int)
    requires i < k
    ensures i * r + r <= k * r
  {
    MulMono(i + 1, k, r);
    assert r * (i + 1) == i * r + r;
  }

  lemma {:induction false} InitView(h: Layout, d: bytes)
    requires WfLayout(h) && |d| == PAGE_SIZE
    ensures var v := View(h, InitPage(h, d));
            v.next == RM_NO_PAGE && v.num == 0 && forall i :: 0 <= i < h.perPage ==> !v.used[i]
  {
    CapacityFits(h.recordSize);
    var d1 := SetNextFree(SetNumRecords(d, 0), RM_NO_PAGE);
    SetNumView(h, d, 0);
    SetNextView(h, SetNumRecords(d, 0), RM_NO_PAGE);
    var d2 := InitPage(h, d);
    SameHeader(d1, d2);
    forall i | 0 <= i < h.perPage ensures !SlotSet(h, d2, i) {
      SlotBounds(h, i);
    }
  }

  // ----- Counting -----

  function CountTrue(s: seq<bool>): (c: nat)
    ensures c <= |s|
  {
    if s == [] then 0 else CountTrue(s[..|s| - 1]) + if s[|s| - 1] then 1 else 0
  }

  lemma {:induction false} CountUpdate(s: seq<bool>, i: nat, b: bool)
    requires i < |s|
    ensures CountTrue(s[i := b]) == CountTrue(s) + (if b then 1 else 0) - (if s[i] then 1 else 0)
  {
    var n := |s| - 1;
    if i == n {
      assert s[i := b][..n] == s[..n];
    } else {
      assert s[i := b][..n] == s[..n][i := b];
      CountUpdate(s[..n], i, b);
    }
  }

  lemma {:induction false} CountExtremes(s: seq<bool>)
    ensures CountTrue(s) == |s| <==> forall i :: 0 <= i < |s| ==> s[i]
    ensures CountTrue(s) == 0 <==> forall i :: 0 <= i < |s| ==> !s[i]
  {
    if s != [] {
      var n := |s| - 1;
      CountExtremes(s[..n]);
      var t := s[..n];
      assert forall i :: 0 <= i < n ==> t[i] == s[i];
      if CountTrue(s) == |s| {
        assert forall i :: 0 <= i < |s| ==> (if i < n then t[i] else s[i]);
      } else if CountTrue(s) == 0 {
        assert forall i :: 0 <= i < |s| ==> !(if i < n then t[i] else s[i]);
      }
    }
  }
}
