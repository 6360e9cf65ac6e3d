/** Record files over the buffer pool (src/record/rm_file_handle.cpp). */
module RmFiles {
  import opened Common
  import opened Bytes
  import opened Pool
  import opened PoolInvariant
  import opened PageAccess
  import opened BufferPool
  import opened RecordPage
  import opened RecordFile
  import Bitmap

  datatype RmError = PageNotExist | NoFreeFrame | InvalidSlot | RecordNotFound | NoFreeSlot

  // ----- A file as the pool holds it -----

  ghost function PageBytes(s: State, q: PageId): (d: bytes)
    requires Shape(s)
    ensures |d| == PAGE_SIZE
  {
    if Exists(s, q) && |Content(s, q)| == PAGE_SIZE then Content(s, q) else Zeros()
  }

  /** The fields of the first `n` pages of file `fd`. */
  ghost function ViewOf(s: State, h: Layout, fd: int, n: nat): (fv: FileView)
    requires Shape(s) && WfLayout(h)
    ensures |fv| == n && forall p :: 0 <= p < n ==> fv[p] == View(h, PageBytes(s, PageId(fd, p)))
  {
    seq(n, p requires 0 <= p < n => View(h, PageBytes(s, PageId(fd, p))))
  }

  /** The pool is in order, all pages of the file exist, the page counter is
      the number of pages, and every record count is right. */
  ghost predicate HandleOk(s: State, hdr: RmFileHdr, fd: int) {
    && Inv(s) && Shape(s) && NoLoss(s)
    && 0 <= fd < MAX_FD && WfLayout(hdr.layout)
    && 1 <= hdr.numPages < INT32_LIMIT && NextOf(s, fd) == hdr.numPages && IsInt32(hdr.firstFree)
    && (forall p :: 1 <= p < hdr.numPages ==> Exists(s, PageId(fd, p)))
    && FileOk(hdr.layout, ViewOf(s, hdr.layout, fd, hdr.numPages))
  }

  /** No pin count changed, nor anything of other files. */
  ghost predicate RestKept(s: State, s': State, fd: int) {
    && Shape(s) && Shape(s')
    && (forall q :: PinCount(s', q) == PinCount(s, q))
    && OthersKept(s, s', fd)
  }

  lemma {:induction false} QuietFile(s: State, s': State, hdr: RmFileHdr, fd: int)
    requires HandleOk(s, hdr, fd) && Inv(s') && Shape(s') && NoLoss(s') && s'.next == s.next
    requires forall q :: SameFor(s, s', q)
    ensures HandleOk(s', hdr, fd)
    ensures ViewOf(s', hdr.layout, fd, hdr.numPages) == ViewOf(s, hdr.layout, fd, hdr.numPages)
  {
    forall p | 0 <= p < hdr.numPages
      ensures PageBytes(s', PageId(fd, p)) == PageBytes(s, PageId(fd, p))
      ensures 1 <= p ==> Exists(s', PageId(fd, p))
    {
      assert SameFor(s, s', PageId(fd, p));
    }
    assert ViewOf(s', hdr.layout, fd, hdr.numPages) == ViewOf(s, hdr.layout, fd, hdr.numPages);
  }

  /** One page of the file got new bytes. */
  lemma {:induction false} OnlyPageFile(s: State, s': State, h: Layout, fd: int, n: nat, p: int, data: bytes)
    requires Shape(s) && Shape(s') && WfLayout(h) && 0 <= p < n && |data| == PAGE_SIZE
    requires OnlyPage(s, s', PageId(fd, p), data)
    ensures ViewOf(s', h, fd, n) == ViewOf(s, h, fd, n)[p := View(h, data)]
  {
    forall k | 0 <= k < n && k != p ensures PageBytes(s', PageId(fd, k)) == PageBytes(s, PageId(fd, k)) {
      assert SameFor(s, s', PageId(fd, k));
    }
    assert ViewOf(s', h, fd, n) == ViewOf(s, h, fd, n)[p := View(h, data)];
  }

  /** The file got one more page, with bytes `data`. */
  lemma {:induction false} AppendPageFile(s: State, s': State, h: Layout, fd: int, n: nat, data: bytes)
    requires Shape(s) && Shape(s') && WfLayout(h) && |data| == PAGE_SIZE
    requires OnlyPage(s, s', PageId(fd, n), data)
    ensures ViewOf(s', h, fd, n + 1) == ViewOf(s, h, fd, n) + [View(h, data)]
  {
    forall k | 0 <= k < n ensures PageBytes(s', PageId(fd, k)) == PageBytes(s, PageId(fd, k)) {
      assert SameFor(s, s', PageId(fd, k));
    }
    assert ViewOf(s', h, fd, n + 1) == ViewOf(s, h, fd, n) + [View(h, data)];
  }

  lemma {:induction false} PageBytesContent(s: State, q: PageId)
    requires Inv(s) && Shape(s) && Exists(s, q)
    ensures PageBytes(s, q) == Content(s, q)
  {
    ContentWhole(s, q);
  }

  /** Why an operation on record `r` fails, if it does. */
  ghost function FetchError(s: State, hdr: RmFileHdr, fd: int, pageNo: int): Option<RmError> {
    if pageNo <= RM_FILE_HDR_PAGE || pageNo >= hdr.numPages then Some(PageNotExist)
    else if PageId(fd, pageNo) !in s.table && AllPinned(s) then Some(NoFreeFrame)
    else None
  }

  ghost function SlotError(s: State, hdr: RmFileHdr, fd: int, r: Rid): Option<RmError> {
    var e := FetchError(s, hdr, fd, r.pageNo);
    if e.Some? then e
    else if r.slotNo < 0 || r.slotNo >= hdr.layout.perPage then Some(InvalidSlot)
    else None
  }

  ghost function RecordError(s: State, hdr: RmFileHdr, fd: int, fv: FileView, r: Rid): Option<RmError> {
    var e := SlotError(s, hdr, fd, r);
    if e.Some? then e else if !Occupied(fv, r) then Some(RecordNotFound) else None
  }

  /** What a caller of `fetch_page_handle` holds. */
  lemma {:induction false} FetchedPage(s: State, hdr: RmFileHdr, fd: int, pageNo: int)
    requires HandleOk(s, hdr, fd) && FetchError(s, hdr, fd, pageNo).None?
    ensures var p := PageId(fd, pageNo);
            && Exists(s, p) && Fetch(s, p).1.Got?
            && Holding(s, Fetch(s, p).0, p, Fetch(s, p).1.frame, Content(s, p))
            && Droppable(Fetch(s, p).0, p) && Fetch(s, p).0.next == s.next
            && |Content(s, p)| == PAGE_SIZE
            && ViewOf(s, hdr.layout, fd, hdr.numPages)[pageNo] == View(hdr.layout, Content(s, p))
  {
    var p := PageId(fd, pageNo);
    FetchKeeps(s, p);
    ExistingReadable(s, p);
    FetchHolds(s, p);
    PageBytesContent(s, p);
  }

  /** After a page of the file was only read, nothing has changed. */
  lemma {:induction false} ReadDone(s: State, s1: State, hdr: RmFileHdr, fd: int, p: PageId, f: int)
    requires HandleOk(s, hdr, fd) && Exists(s, p)
    requires Holding(s, s1, p, f, Content(s, p)) && Droppable(s1, p) && s1.next == s.next
    ensures var s' := Unpin(s1, p, false).0;
            && HandleOk(s', hdr, fd)
            && ViewOf(s', hdr.layout, fd, hdr.numPages) == ViewOf(s, hdr.layout, fd, hdr.numPages)
            && (forall q :: PinCount(s', q) == PinCount(s, q))
            && Quiet(s, s')
  {
    var s' := Unpin(s1, p, false).0;
    ReleaseRead(s, s1, p, f);
    QuietFile(s, s', hdr, fd);
    forall q ensures PinCount(s', q) == PinCount(s, q) {
      assert SameFor(s, s', q);
    }
  }

  /** After a page of the file was written and unpinned, only its fields have changed. */
  lemma {:induction false} WriteDone(s: State, s1: State, hdr: RmFileHdr, fd: int, pageNo: int, f: int, data: bytes)
    requires HandleOk(s, hdr, fd) && 1 <= pageNo < hdr.numPages && |data| == PAGE_SIZE
    requires Holding(s, s1, PageId(fd, pageNo), f, data) && s1.next == s.next
    requires ViewOk(hdr.layout, View(hdr.layout, data))
    ensures var s' := Unpin(s1, PageId(fd, pageNo), true).0;
            && HandleOk(s', hdr, fd)
            && ViewOf(s', hdr.layout, fd, hdr.numPages) ==
               ViewOf(s, hdr.layout, fd, hdr.numPages)[pageNo := View(hdr.layout, data)]
            && RestKept(s, s', fd)
  {
    hide Inv, NoLoss, ViewOk, FileOk, Unpin, View;
    WrittenFile(hdr.layout, ViewOf(s, hdr.layout, fd, hdr.numPages), pageNo, View(hdr.layout, data));
    var p := PageId(fd, pageNo);
    var s' := Unpin(s1, p, true).0;
    ReleaseDirty(s, s1, p, f, data);
    OnlyPageFile(s, s', hdr.layout, fd, hdr.numPages, pageNo, data);
    forall q ensures PinCount(s', q) == PinCount(s, q) {
      if q != p { assert SameFor(s, s', q); }
    }
    forall k | 1 <= k < hdr.numPages ensures Exists(s', PageId(fd, k)) {
      if k != pageNo { assert SameFor(s, s', PageId(fd, k)); }
    }
  }

  lemma {:induction false} WrittenFile(h: Layout, fv: FileView, p: int, v: PageView)
    requires FileOk(h, fv) && 1 <= p < |fv| && ViewOk(h, v)
    ensures FileOk(h, fv[p := v])
  {
  }

  // ----- The page changes of the operations -----

  lemma {:induction false} CountFits(h: Layout, v: PageView)
    requires WfLayout(h) && ViewOk(h, v)
    ensures IsInt32(v.num + 1) && IsInt32(v.num - 1) && 0 <= v.num <= h.perPage
  {
    CapacityFits(h.recordSize);
  }

  /** Copying a record into a slot and setting its bit, counting it if the slot was free. */
  lemma {:induction false} FillBytes(h: Layout, d: bytes, i: int, buf: bytes)
    requires SlotOk(h, i) && |d| == PAGE_SIZE && |buf| == h.recordSize && ViewOk(h, View(h, d))
    ensures var d1 := MarkSlot(h, PutRecord(h, d, i, buf), i);
            && NumRecords(d1) == NumRecords(d) && IsInt32(NumRecords(d) + 1)
            && View(h, if SlotSet(h, d, i) then d1 else SetNumRecords(d1, NumRecords(d1) + 1)) == Fill(View(h, d), i, buf)
            && ViewOk(h, Fill(View(h, d), i, buf))
  {
    var v := View(h, d);
    CountFits(h, v);
    PutView(h, d, i, buf);
    var d0 := PutRecord(h, d, i, buf);
    hide PutRecord, CountTrue;
    MarkView(h, d0, i);
    var d1 := MarkSlot(h, d0, i);
    SetNumView(h, d1, NumRecords(d) + 1);
    CountUpdate(v.used, i, true);
    assert v.used[i] ==> v.used[i := true] == v.used;
  }

  method FillSlot(h: Layout, data: bytes, i: int, buf: bytes, used: bool) returns (r: bytes)
    requires SlotOk(h, i) && |data| == PAGE_SIZE && |buf| == h.recordSize && ViewOk(h, View(h, data))
    requires used == SlotSet(h, data, i)
    ensures |r| == PAGE_SIZE && View(h, r) == Fill(View(h, data), i, buf)
  {
    FillBytes(h, data, i, buf);
    r := PutRecord(h, data, i, buf);
    r := MarkSlot(h, r, i);
    if !used {
      r := SetNumRecords(r, NumRecords(r) + 1);
    }
  }

  method VacateSlot(h: Layout, data: bytes, i: int) returns (r: bytes)
    requires SlotOk(h, i) && |data| == PAGE_SIZE && ViewOk(h, View(h, data)) && SlotSet(h, data, i)
    ensures |r| == PAGE_SIZE && View(h, r) == Vacate(View(h, data), i)
  {
    VacateBytes(h, data, i);
    r := ClearSlot(h, data, i);
    r := SetNumRecords(r, NumRecords(r) - 1);
  }

  /** Overwriting a used slot. */
  lemma {:induction false} UpdateBytes(h: Layout, d: bytes, i: int, buf: bytes)
    requires SlotOk(h, i) && |d| == PAGE_SIZE && |buf| == h.recordSize && SlotSet(h, d, i)
    ensures View(h, PutRecord(h, d, i, buf)) == Fill(View(h, d), i, buf)
  {
    PutView(h, d, i, buf);
    assert View(h, d).used[i := true] == View(h, d).used;
  }

  /** Clearing a slot's bit and counting it out. */
  lemma {:induction false} VacateBytes(h: Layout, d: bytes, i: int)
    requires SlotOk(h, i) && |d| == PAGE_SIZE && ViewOk(h, View(h, d)) && SlotSet(h, d, i)
    ensures var d1 := ClearSlot(h, d, i);
            && NumRecords(d1) == NumRecords(d) && IsInt32(NumRecords(d) - 1)
            && View(h, SetNumRecords(d1, NumRecords(d1) - 1)) == Vacate(View(h, d), i)
            && ViewOk(h, Vacate(View(h, d), i))
  {
    var v := View(h, d);
    CountFits(h, v);
    ClearView(h, d, i);
    SetNumView(h, ClearSlot(h, d, i), NumRecords(d) - 1);
    CountUpdate(v.used, i, false);
  }

  class RmFileHandle {
    const fd: int
    const pool: BufferPoolManager
    var hdr: RmFileHdr
    /** The header as last written to page 0, which does not go through the pool. */
    var savedHdr: RmFileHdr
    /** The pages with free slots, from `hdr.firstFree`. */
    ghost var chain: seq<int>

    /** Opens a file whose header page holds `saved`: its page numbers go on
        after the pages it has. */
    constructor (pool: BufferPoolManager, fd: int, saved: RmFileHdr, ghost chain: seq<int>)
      requires pool.Valid()
      requires var s := pool.State(); HandleOk(s.(next := s.next[fd := saved.numPages]), saved, fd)
      modifies pool.disk
      ensures Valid() && this.pool == pool && this.fd == fd && hdr == saved && savedHdr == saved && this.chain == chain
      ensures pool.State() == old(pool.State()).(next := old(pool.State()).next[fd := saved.numPages])
    {
      this.pool, this.fd, this.hdr, this.savedHdr, this.chain := pool, fd, saved, saved, chain;
      new;
      pool.disk.SetPageCounter(fd, saved.numPages);
    }

    ghost predicate Valid()
      reads this, pool.Repr()
    {
      pool.Valid() && HandleOk(pool.State(), hdr, fd)
    }

    ghost function Pages(): FileView
      requires Valid()
      reads this, pool.Repr()
    {
      ViewOf(pool.State(), hdr.layout, fd, hdr.numPages)
    }

    /** The file as a map from record positions to records. */
    ghost function Recs(): map<Rid, bytes>
      requires Valid()
      reads this, pool.Repr()
    {
      Records(hdr.layout, Pages())
    }

    ghost predicate Chained()
      requires Valid()
      reads this, pool.Repr()
    {
      ChainOk(hdr.layout, Pages(), hdr.firstFree, chain)
    }

    method FetchPageHandle(pageNo: int) returns (r: Result<int, RmError>)
      requires Valid()
      modifies pool.Repr()
      ensures pool.Valid()
      ensures var e := old(FetchError(pool.State(), hdr, fd, pageNo));
              if e.Some? then r == Err(e.value) && pool.State() == old(pool.State())
              else r.Ok? && Fetch(old(pool.State()), PageId(fd, pageNo)) == (pool.State(), Got(r.value))
    {
      if pageNo <= RM_FILE_HDR_PAGE || pageNo >= hdr.numPages {
        return Err(PageNotExist);
      }
      ghost var s := pool.State();
      FetchKeeps(s, PageId(fd, pageNo));
      ExistingReadable(s, PageId(fd, pageNo));
      var o := pool.FetchPage(PageId(fd, pageNo));
      if o == NoFrame {
        return Err(NoFreeFrame);
      }
      return Ok(o.frame);
    }

    /** This file, all other pages and all pin counts are as in pool state `s`. */
    ghost predicate AsBefore(s: State)
      reads this, pool.Repr()
    {
      && HandleOk(s, hdr, fd) && Valid()
      && Pages() == ViewOf(s, hdr.layout, fd, hdr.numPages)
      && (forall q :: PinCount(pool.State(), q) == PinCount(s, q))
      && Quiet(s, pool.State())
    }

    /** Unpins a page that was not changed. */
    method PutBack(p: PageId, f: int, ghost s: State)
      requires HandleOk(s, hdr, fd) && Exists(s, p) && pool.Valid()
      requires Holding(s, pool.State(), p, f, Content(s, p)) && Droppable(pool.State(), p) && pool.State().next == s.next
      modifies pool.pages, pool.replacer
      ensures AsBefore(s)
    {
      ReadDone(s, pool.State(), hdr, fd, p, f);
      var _ := pool.UnpinPage(p, false);
    }

    /** What all operations on a given record start with: fetch its page, check
        its slot number, look at its bit. */
    method OpenSlot(rid: Rid) returns (e: Option<RmError>, f: int, data: bytes, used: bool)
      requires Valid()
      modifies pool.Repr()
      ensures pool.Valid()
      ensures e == old(SlotError(pool.State(), hdr, fd, rid))
      ensures e.Some? ==> AsBefore(old(pool.State()))
      ensures e.None? ==>
                var s, p := old(pool.State()), PageId(fd, rid.pageNo);
                && Exists(s, p) && data == Content(s, p) && |data| == PAGE_SIZE
                && Holding(s, pool.State(), p, f, data) && p in pool.pageTable
                && Droppable(pool.State(), p) && pool.State().next == s.next
                && SlotOk(hdr.layout, rid.slotNo) && 1 <= rid.pageNo < hdr.numPages
                && ViewOk(hdr.layout, View(hdr.layout, data))
                && old(Pages())[rid.pageNo] == View(hdr.layout, Content(s, p))
                && used == Occupied(old(Pages()), rid)
    {
      ghost var s := pool.State();
      f, data, used := 0, [], false;
      var fetched := FetchPageHandle(rid.pageNo);
      if fetched.Err? {
        return Some(fetched.error), f, data, used;
      }
      f := fetched.value;
      FetchedPage(s, hdr, fd, rid.pageNo);
      if rid.slotNo < 0 || rid.slotNo >= hdr.layout.perPage {
        PutBack(PageId(fd, rid.pageNo), f, s);
        return Some(InvalidSlot), f, data, used;
      }
      data := pool.pages[f].data;
      used := SlotSet(hdr.layout, data, rid.slotNo);
      return None, f, data, used;
    }

    method GetRecord(rid: Rid) returns (r: Result<bytes, RmError>)
      requires Valid()
      modifies pool.Repr()
      ensures AsBefore(old(pool.State()))
      ensures var e := old(RecordError(pool.State(), hdr, fd, Pages(), rid));
              if e.Some? then r == Err(e.value) else rid in old(Recs()) && r == Ok(old(Recs())[rid])
    {
      hide Holding, Droppable, Inv, NoLoss, FileOk;
      ghost var s := pool.State();
      var e, f, data, used := OpenSlot(rid);
      if e.Some? {
        return Err(e.value);
      }
      var p := PageId(fd, rid.pageNo);
      if !used {
        PutBack(p, f, s);
        return Err(RecordNotFound);
      }
      var record := RecordPage.GetRecord(hdr.layout, data, rid.slotNo);
      PutBack(p, f, s);
      return Ok(record);
    }

    method UpdateRecord(rid: Rid, buf: bytes) returns (e: Option<RmError>)
      requires Valid() && |buf| == hdr.layout.recordSize
      modifies pool.Repr()
      ensures e == old(RecordError(pool.State(), hdr, fd, Pages(), rid))
      ensures e.Some? ==> AsBefore(old(pool.State()))
      ensures e.None? ==> Valid() && rid in old(Recs()) && Recs() == old(Recs())[rid := buf]
      ensures e.None? ==> RestKept(old(pool.State()), pool.State(), fd) && (old(Chained()) ==> Chained())
      ensures e.None? ==> UpdatedPages(old(Pages()), Pages(), rid, buf)
    {
      hide Holding, Droppable, ChainOk, Inv, NoLoss, FileOk, PutRecord, ViewOk, Unpin, RestKept, Quiet;
      ghost var s := pool.State();
      var f, data, used;
      e, f, data, used := OpenSlot(rid);
      if e.Some? {
        return;
      }
      var p := PageId(fd, rid.pageNo);
      if !used {
        PutBack(p, f, s);
        return Some(RecordNotFound);
      }
      var data' := PutRecord(hdr.layout, data, rid.slotNo, buf);
      UpdateBytes(hdr.layout, data, rid.slotNo, buf);
      WriteBack(p, f, data', s, data);
      FillDone(s, pool.State(), hdr, fd, rid, f, data', buf, chain);
      var _ := pool.UnpinPage(p, true);
    }

    /** The insert at a given position: it overwrites a record that is there. */
    method InsertAt(rid: Rid, buf: bytes) returns (e: Option<RmError>)
      requires Valid() && |buf| == hdr.layout.recordSize
      modifies pool.Repr()
      ensures e == old(SlotError(pool.State(), hdr, fd, rid))
      ensures e.Some? ==> AsBefore(old(pool.State()))
      ensures e.None? ==> Valid() && Recs() == old(Recs())[rid := buf] && RestKept(old(pool.State()), pool.State(), fd)
      ensures e.None? && old(Chained()) ==> (Chained() <==> !FillsUp(hdr.layout, old(Pages()), chain, rid))
    {
      hide Holding, Droppable, ChainOk, Inv, NoLoss, FileOk, FillsUp, Fill, View, ViewOk, Records, ViewOf, Unpin, RestKept, Quiet;
      ghost var s := pool.State();
      var f, data, used;
      e, f, data, used := OpenSlot(rid);
      if e.Some? {
        return;
      }
      var p := PageId(fd, rid.pageNo);
      var data' := FillSlot(hdr.layout, data, rid.slotNo, buf, used);
      WriteBack(p, f, data', s, data);
      FillDone(s, pool.State(), hdr, fd, rid, f, data', buf, chain);
      var _ := pool.UnpinPage(p, true);
    }

    /** Deleting a record; a page that was full joins the chain at its head. */
    method DeleteRecord(rid: Rid) returns (e: Option<RmError>)
      requires Valid()
      modifies this`hdr, this`chain, pool.Repr()
      ensures e == old(RecordError(pool.State(), hdr, fd, Pages(), rid))
      ensures e.Some? ==> AsBefore(old(pool.State())) && hdr == old(hdr) && chain == old(chain)
      ensures e.None? ==> Valid() && rid in old(Recs()) && Recs() == old(Recs()) - {rid}
      ensures e.None? ==> RestKept(old(pool.State()), pool.State(), fd)
      ensures e.None? ==> ErasedPages(old(hdr), old(Pages()), Pages(), rid)
      ensures e.None? && old(Chained()) ==> Chained()
      ensures e.None? ==> hdr == old(Erased(hdr, Pages(), rid)) && chain == old(ErasedChain(hdr, Pages(), chain, rid))
    {
      hide Holding, Droppable, ChainOk, Inv, NoLoss, FileOk, Records, Erased, ErasedChain, ErasedPages, RestKept, Quiet;
      ghost var s := pool.State();
      var f, data, used;
      e, f, data, used := OpenSlot(rid);
      if e.Some? {
        return;
      }
      var p := PageId(fd, rid.pageNo);
      if !used {
        PutBack(p, f, s);
        return Some(RecordNotFound);
      }
      OccupiedRecord(hdr.layout, ViewOf(s, hdr.layout, fd, hdr.numPages), rid);
      Erase(rid, f, data, s);
    }

    /** The deletion itself, on the held page. */
    method Erase(rid: Rid, f: int, data: bytes, ghost s: State)
      requires HandleOk(s, hdr, fd) && pool.Valid() && |data| == PAGE_SIZE && 1 <= rid.pageNo < hdr.numPages
      requires SlotOk(hdr.layout, rid.slotNo) && Occupied(ViewOf(s, hdr.layout, fd, hdr.numPages), rid)
      requires Holding(s, pool.State(), PageId(fd, rid.pageNo), f, data) && pool.State().next == s.next
      requires ViewOk(hdr.layout, View(hdr.layout, data))
      requires ViewOf(s, hdr.layout, fd, hdr.numPages)[rid.pageNo] == View(hdr.layout, data)
      modifies this`hdr, this`chain, pool.pages, pool.replacer
      ensures var fv := ViewOf(s, old(hdr).layout, fd, old(hdr).numPages);
              && hdr == Erased(old(hdr), fv, rid) && chain == ErasedChain(old(hdr), fv, old(chain), rid)
              && Valid() && Recs() == Records(old(hdr).layout, fv) - {rid}
              && RestKept(s, pool.State(), fd) && ErasedPages(old(hdr), fv, Pages(), rid)
              && (ChainOk(old(hdr).layout, fv, old(hdr).firstFree, old(chain)) ==> Chained())
    {
      hide Holding, ChainOk, Inv, NoLoss, FileOk, Records, ErasedPage, ErasedPages, Unpin, RestKept;
      ghost var fv := ViewOf(s, hdr.layout, fd, hdr.numPages);
      var data' := EraseSlot(PageId(fd, rid.pageNo), f, data, rid.slotNo, s);
      EraseDone(s, pool.State(), hdr, fd, rid, f, data', chain);
      chain := ErasedChain(hdr, fv, chain, rid);
      if NumRecords(data) == hdr.layout.perPage {
        hdr := hdr.(firstFree := rid.pageNo);
      }
      var _ := pool.UnpinPage(PageId(fd, rid.pageNo), true);
    }

    /** Vacates a slot of the held page and, if the page was full, links it to
        the head of the chain. */
    method EraseSlot(p: PageId, f: int, data: bytes, i: int, ghost s: State) returns (data': bytes)
      requires pool.Valid() && Holding(s, pool.State(), p, f, data) && |data| == PAGE_SIZE
      requires SlotOk(hdr.layout, i) && ViewOk(hdr.layout, View(hdr.layout, data)) && SlotSet(hdr.layout, data, i)
      requires IsInt32(hdr.firstFree)
      modifies pool.pages
      ensures pool.Valid() && |data'| == PAGE_SIZE && Holding(s, pool.State(), p, f, data')
      ensures pool.State().next == old(pool.State()).next
      ensures View(hdr.layout, data') == ErasedPage(hdr, View(hdr.layout, data), i)
    {
      hide Holding;
      var wasFull := NumRecords(data) == hdr.layout.perPage;
      data' := VacateSlot(hdr.layout, data, i);
      WriteBack(p, f, data', s, data);
      if wasFull {
        SetNextView(hdr.layout, data', hdr.firstFree);
        ghost var vacated := data';
        data' := SetNextFree(data', hdr.firstFree);
        WriteBack(p, f, data', s, vacated);
      }
    }

    /** `close_file`: writes the header and flushes the dirty pages of the file. */
    method Close()
      requires Valid()
      modifies this`savedHdr, pool.pages, pool.disk
      ensures savedHdr == hdr && AsBefore(old(pool.State()))
      ensures pool.State() == FlushAll(old(pool.State()), fd)
    {
      hide FileOk;
      ghost var s := pool.State();
      savedHdr := hdr;
      FlushAllKeeps(s, fd);
      FlushAllEffect(s, fd);
      pool.FlushAllPages(fd);
      QuietFile(s, pool.State(), hdr, fd);
      forall q ensures PinCount(pool.State(), q) == PinCount(s, q) {
        assert SameFor(s, pool.State(), q);
      }
    }

    /** Inserts into the first page of the chain or into a new page, at its
        first free slot. A page of the chain that becomes full leaves it. */
    method InsertRecord(buf: bytes) returns (r: Result<Rid, RmError>)
      requires Valid() && |buf| == hdr.layout.recordSize
      requires hdr.firstFree == RM_NO_PAGE ==> hdr.numPages + 1 < INT32_LIMIT
      modifies this`hdr, this`savedHdr, this`chain, pool.Repr()
      ensures r.Ok? ==> Valid() && r.value !in old(Recs()) && Recs() == old(Recs())[r.value := buf]
      ensures r.Ok? ==> RestKept(old(pool.State()), pool.State(), fd)
      ensures r.Ok? ==> InsertedPages(old(hdr), old(Pages()), hdr, Pages(), r.value, buf)
      ensures r.Err? ==> AsBefore(old(pool.State())) && hdr == old(hdr) && chain == old(chain)
      ensures var e := old(InsertError(pool.State(), hdr, fd, Pages()));
              (r.Err? <==> e.Some?) && (r.Err? ==> r.error == e.value)
      ensures old(Chained()) ==> Chained()
    {
      hide Opened, ChainOk, Inv, NoLoss, Records, FileOk, InsertedPages, RestKept, Quiet, View, ViewOk, InsertError;
      ghost var s, hdr0 := pool.State(), hdr;
      var handle, slot := OpenFreeSlot();
      if handle.Err? {
        return Err(handle.error);
      }
      var (pageNo, f, data) := handle.value;
      InsertInto(pageNo, f, data, slot, buf, s, hdr0);
      return Ok(Rid(pageNo, slot));
    }

    /** Gets the page to insert into and its first free slot. */
    method OpenFreeSlot() returns (r: Result<(int, int, bytes), RmError>, slot: int)
      requires Valid() && (hdr.firstFree == RM_NO_PAGE ==> hdr.numPages + 1 < INT32_LIMIT)
      modifies this`hdr, pool.Repr()
      ensures var e := old(InsertError(pool.State(), hdr, fd, Pages()));
              (r.Err? <==> e.Some?) && (r.Err? ==> r.error == e.value)
      ensures r.Err? ==> AsBefore(old(pool.State())) && hdr == old(hdr)
      ensures r.Ok? ==>
                var (pageNo, f, data) := r.value;
                && pool.Valid() && Opened(old(pool.State()), pool.State(), old(hdr), hdr, fd, pageNo, f, data)
                && hdr.layout == old(hdr).layout && |data| == PAGE_SIZE && ViewOk(hdr.layout, View(hdr.layout, data))
                && SlotOk(hdr.layout, slot) && !SlotSet(hdr.layout, data, slot)
                && forall i :: 0 <= i < slot ==> SlotSet(hdr.layout, data, i)
    {
      hide Holding, Droppable, Inv, NoLoss, FileOk, Records, Quiet;
      ghost var s, hdr0 := pool.State(), hdr;
      slot := 0;
      r := CreatePageHandle();
      if r.Err? {
        QuietSame(s);
        return;
      }
      var (pageNo, f, data) := r.value;
      OpenedBase(s, pool.State(), hdr0, hdr, fd, pageNo, f, data);
      slot := FreeSlotOf(hdr.layout, data);
      if slot == hdr.layout.perPage || NumRecords(data) >= hdr.layout.perPage {
        PutBack(PageId(fd, pageNo), f, s);
        r := Err(NoFreeSlot);
      }
    }

    /** The insertion itself, on the held page. */
    method InsertInto(pageNo: int, f: int, data: bytes, slot: int, buf: bytes, ghost s: State, ghost hdr0: RmFileHdr)
      requires pool.Valid() && Opened(s, pool.State(), hdr0, hdr, fd, pageNo, f, data)
      requires |data| == PAGE_SIZE && |buf| == hdr.layout.recordSize
      requires ViewOk(hdr.layout, View(hdr.layout, data))
      requires SlotOk(hdr.layout, slot) && !SlotSet(hdr.layout, data, slot)
      requires forall i :: 0 <= i < slot ==> SlotSet(hdr.layout, data, i)
      modifies this`hdr, this`savedHdr, this`chain, pool.pages, pool.replacer
      ensures pool.Valid() && InsertResult(s, pool.State(), hdr0, hdr, fd, Rid(pageNo, slot), buf, old(chain), chain)
    {
      hide Holding, Droppable, ChainOk, Inv, NoLoss, Records, FileOk, OpenedFree, OpenedNew, InsertResult;
      ghost var s1, hdr1 := pool.State(), hdr;
      OpenedBase(s, s1, hdr0, hdr1, fd, pageNo, f, data);
      OpenedHeld(s, s1, hdr0, hdr1, fd, pageNo, f, data);
      var data' := FillSlot(hdr.layout, data, slot, buf, false);
      WriteBack(PageId(fd, pageNo), f, data', s, data);
      if NumRecords(data') == hdr.layout.perPage {
        if hdr.firstFree == pageNo {
          hdr := hdr.(firstFree := NextFree(data'));
          savedHdr := hdr;
        }
      }
      ghost var chain' := InsertedChain(hdr0, chain, pageNo, View(hdr.layout, data'));
      InsertDone(s, s1, hdr0, hdr1, fd, pageNo, f, data, pool.State(), data', slot, buf, chain);
      chain := chain';
      var _ := pool.UnpinPage(PageId(fd, pageNo), true);
    }

    /** A new page at the end of the file, with no records; it does not join the chain. */
    method CreateNewPageHandle() returns (r: Result<(int, int, bytes), RmError>)
      requires Valid() && hdr.numPages + 1 < INT32_LIMIT
      modifies this`hdr, pool.Repr()
      ensures pool.Valid()
      ensures r.Err? <==> old(AllPinned(pool.State()))
      ensures r.Err? ==> r.error == NoFreeFrame && pool.State() == old(pool.State()) && hdr == old(hdr)
      ensures r.Ok? ==> OpenedNew(old(pool.State()), pool.State(), old(hdr), hdr, fd, r.value.0, r.value.1, r.value.2)
    {
      hide Holding, FileOk, Inv, NoLoss, AllPinned;
      ghost var s := pool.State();
      NewKeeps(s, fd);
      var o := pool.NewPage(fd);
      if o == NoFrame {
        return Err(NoFreeFrame);
      }
      NewHolds(s, fd);
      var data := InitPage(hdr.layout, Zeros());
      InitView(hdr.layout, Zeros());
      if o.id.pageNo >= hdr.numPages {
        hdr := hdr.(numPages := o.id.pageNo + 1);
      }
      WriteBack(o.id, o.frame, data, s, Zeros());
      return Ok((o.id.pageNo, o.frame, data));
    }

    /** The first page of the chain, or a new page. */
    method CreatePageHandle() returns (r: Result<(int, int, bytes), RmError>)
      requires Valid() && (hdr.firstFree == RM_NO_PAGE ==> hdr.numPages + 1 < INT32_LIMIT)
      modifies this`hdr, pool.Repr()
      ensures pool.Valid()
      ensures r.Err? <==> old(OpenError(pool.State(), hdr, fd)).Some?
      ensures r.Err? ==> r.error == old(OpenError(pool.State(), hdr, fd)).value
      ensures r.Err? ==> pool.State() == old(pool.State()) && hdr == old(hdr)
      ensures r.Ok? ==> Opened(old(pool.State()), pool.State(), old(hdr), hdr, fd, r.value.0, r.value.1, r.value.2)
    {
      hide Holding, FileOk, Inv, NoLoss, Droppable;
      if hdr.firstFree != RM_NO_PAGE {
        ghost var s := pool.State();
        var fetched := FetchPageHandle(hdr.firstFree);
        if fetched.Err? {
          return Err(fetched.error);
        }
        FetchedPage(s, hdr, fd, hdr.firstFree);
        HeldBytes(s, pool.State(), PageId(fd, hdr.firstFree), fetched.value);
        return Ok((hdr.firstFree, fetched.value, pool.pages[fetched.value].data));
      } else {
        r := CreateNewPageHandle();
      }
    }

    /** Writes the held page and marks it dirty. */
    method WriteBack(p: PageId, f: int, data': bytes, ghost s: State, ghost data: bytes)
      requires pool.Valid() && Holding(s, pool.State(), p, f, data) && |data'| == PAGE_SIZE
      modifies pool.pages
      ensures pool.Valid() && Holding(s, pool.State(), p, f, data') && pool.State().next == old(pool.State()).next
    {
      WriteHolds(s, pool.State(), p, f, data, data');
      pool.WriteFrame(p, f, data');
      pool.MarkDirty(p, f);
    }
  }

  /** After slot `rid` of its page was filled and the page unpinned. */
  lemma {:induction false} FillDone(s: State, s1: State, hdr: RmFileHdr, fd: int, rid: Rid, f: int, data: bytes, buf: bytes, chain: seq<int>)
    requires HandleOk(s, hdr, fd) && 1 <= rid.pageNo < hdr.numPages && SlotOk(hdr.layout, rid.slotNo)
    requires |data| == PAGE_SIZE && Holding(s, s1, PageId(fd, rid.pageNo), f, data) && s1.next == s.next
    requires var fv := ViewOf(s, hdr.layout, fd, hdr.numPages);
             View(hdr.layout, data) == Fill(fv[rid.pageNo], rid.slotNo, buf)
    ensures var s' := Unpin(s1, PageId(fd, rid.pageNo), true).0;
            var h, fv := hdr.layout, ViewOf(s, hdr.layout, fd, hdr.numPages);
            && HandleOk(s', hdr, fd)
            && ViewOf(s', h, fd, hdr.numPages) == fv[rid.pageNo := Fill(fv[rid.pageNo], rid.slotNo, buf)]
            && Records(h, ViewOf(s', h, fd, hdr.numPages)) == Records(h, fv)[rid := buf]
            && RestKept(s, s', fd)
            && (ChainOk(h, fv, hdr.firstFree, chain) ==>
                (ChainOk(h, ViewOf(s', h, fd, hdr.numPages), hdr.firstFree, chain) <==>
                 !FillsUp(h, fv, chain, rid)))
  {
    hide Holding, Records, ChainOk, FileOk, Unpin, Fill, ViewOk, PinCount, RestKept, Inv, NoLoss;
    var h, fv := hdr.layout, ViewOf(s, hdr.layout, fd, hdr.numPages);
    FilledPage(h, fv, rid, buf);
    WriteDone(s, s1, hdr, fd, rid.pageNo, f, data);
    if ChainOk(h, fv, hdr.firstFree, chain) {
      FillChain(h, fv, hdr.firstFree, chain, rid.pageNo, rid.slotNo, buf);
    }
  }

  lemma {:induction false} FilledPage(h: Layout, fv: FileView, rid: Rid, buf: bytes)
    requires FileOk(h, fv) && 1 <= rid.pageNo < |fv| && 0 <= rid.slotNo < h.perPage
    ensures |fv[rid.pageNo].used| == |fv[rid.pageNo].slots| == h.perPage
    ensures var v := Fill(fv[rid.pageNo], rid.slotNo, buf);
            && ViewOk(h, v) && FileOk(h, fv[rid.pageNo := v])
            && Records(h, fv[rid.pageNo := v]) == Records(h, fv)[rid := buf]
  {
    FillRecords(h, fv, rid.pageNo, rid.slotNo, buf);
    var v := Fill(fv[rid.pageNo], rid.slotNo, buf);
    assert fv[rid.pageNo := v][rid.pageNo] == v;
  }

  lemma {:induction false} HeldBytes(s0: State, s: State, p: PageId, f: int)
    requires Shape(s0) && Exists(s0, p) && Holding(s0, s, p, f, Content(s0, p))
    ensures 0 <= f < |s.pages| && s.pages[f].data == Content(s0, p)
  {
  }

  // ----- Several files over one pool -----

  /** An operation on file `fd` leaves every other file in order, with the same
      pages and hence the same records and the same chain. */
  lemma {:induction false} OtherFile(s: State, s': State, fd: int, hdr: RmFileHdr, other: int)
    requires HandleOk(s, hdr, other) && other != fd
    requires Inv(s') && Shape(s') && NoLoss(s') && OthersKept(s, s', fd)
    ensures HandleOk(s', hdr, other)
    ensures ViewOf(s', hdr.layout, other, hdr.numPages) == ViewOf(s, hdr.layout, other, hdr.numPages)
  {
    forall p | 0 <= p < hdr.numPages
      ensures PageBytes(s', PageId(other, p)) == PageBytes(s, PageId(other, p))
      ensures 1 <= p ==> Exists(s', PageId(other, p))
    {
      assert SameFor(s, s', PageId(other, p));
    }
    assert ViewOf(s', hdr.layout, other, hdr.numPages) == ViewOf(s, hdr.layout, other, hdr.numPages);
  }

  /** Handle `b` after an operation of handle `a` on another file of the same pool. */
  twostate lemma {:induction false} OtherHandle(a: RmFileHandle, b: RmFileHandle)
    requires a.pool == b.pool && a.fd != b.fd && b.hdr == old(b.hdr) && b.chain == old(b.chain)
    requires old(b.Valid()) && a.Valid() && OthersKept(old(a.pool.State()), a.pool.State(), a.fd)
    ensures b.Valid() && b.Pages() == old(b.Pages()) && b.Recs() == old(b.Recs())
    ensures b.Chained() <==> old(b.Chained())
  {
    OtherFile(old(a.pool.State()), a.pool.State(), a.fd, b.hdr, b.fd);
  }

  // ----- Closing and opening again -----

  /** Durability: once a file none of whose pages is pinned was closed, a new
      pool over the same disk opens it with the same records and the same chain. */
  lemma {:induction false} ReopenedFile(s: State, hdr: RmFileHdr, fd: int, poolSize: nat)
    requires HandleOk(s, hdr, fd)
    requires forall p :: 1 <= p < hdr.numPages ==> PinCount(s, PageId(fd, p)) == 0
    ensures var s' := FlushAll(s, fd);
            var s2 := Fresh(poolSize, s'.disk, s'.next);
            var s3 := s2.(next := s2.next[fd := hdr.numPages]);
            var h, n := hdr.layout, hdr.numPages;
            && Shape(s3) && HandleOk(s3, hdr, fd)
            && Records(h, ViewOf(s3, h, fd, n)) == Records(h, ViewOf(s, h, fd, n))
            && forall chain :: ChainOk(h, ViewOf(s, h, fd, n), hdr.firstFree, chain) ==>
                               ChainOk(h, ViewOf(s3, h, fd, n), hdr.firstFree, chain)
  {
    hide NoLoss, FileOk;
    var s' := FlushAll(s, fd);
    FlushAllKeeps(s, fd);
    FlushAllEffect(s, fd);
    ReopenedPool(s', hdr, fd, poolSize);
    var s2 := Fresh(poolSize, s'.disk, s'.next);
    var s3 := s2.(next := s2.next[fd := hdr.numPages]);
    var h, n := hdr.layout, hdr.numPages;
    forall p | 1 <= p < n
      ensures Exists(s3, PageId(fd, p)) && ViewOf(s3, h, fd, n)[p] == ViewOf(s, h, fd, n)[p]
    {
      PageBytesContent(s, PageId(fd, p));
      PageBytesContent(s3, PageId(fd, p));
    }
    SamePages(h, ViewOf(s, h, fd, n), ViewOf(s3, h, fd, n));
  }

  lemma {:induction false} ReopenedPool(s: State, hdr: RmFileHdr, fd: int, poolSize: nat)
    requires Inv(s) && NextOf(s, fd) == hdr.numPages
    ensures var s2 := Fresh(poolSize, s.disk, s.next);
            var s3 := s2.(next := s2.next[fd := hdr.numPages]);
            Inv(s3) && Shape(s3) && NoLoss(s3) && NextOf(s3, fd) == hdr.numPages && s3.disk == s.disk && s3.table == map[]
  {
    var s2 := Fresh(poolSize, s.disk, s.next);
    var s3 := s2.(next := s2.next[fd := hdr.numPages]);
    assert forall d :: NextOf(s3, d) == NextOf(s, d);
    forall f | 0 <= f < |s3.pages| ensures FrameOk(s3, f) {
      assert s3.free[f] == f;
    }
  }

  lemma {:induction false} SamePages(h: Layout, fv: FileView, fv': FileView)
    requires FileOk(h, fv) && |fv'| == |fv| && forall p :: 1 <= p < |fv| ==> fv'[p] == fv[p]
    ensures FileOk(h, fv') && Records(h, fv') == Records(h, fv)
    ensures forall first, chain :: ChainOk(h, fv, first, chain) ==> ChainOk(h, fv', first, chain)
  {
    assert forall r :: Occupied(fv', r) <==> Occupied(fv, r);
    forall first, chain | ChainOk(h, fv, first, chain) ensures ChainOk(h, fv', first, chain) {
      forall p | p in chain ensures 1 <= p < |fv| && fv[p].num < h.perPage {
        ChainMember(h, fv, first, chain, p);
      }
      ChainSame(h, fv, fv', first, chain);
    }
  }

  // ----- Opening a page to insert into -----

  /** Why no page to insert into can be had, if so. */
  ghost function OpenError(s: State, hdr: RmFileHdr, fd: int): Option<RmError> {
    if hdr.firstFree != RM_NO_PAGE then FetchError(s, hdr, fd, hdr.firstFree)
    else if AllPinned(s) then Some(NoFreeFrame) else None
  }

  ghost predicate OpenedFree(s: State, s1: State, hdr: RmFileHdr, hdr1: RmFileHdr, fd: int, pageNo: int, f: int, data: bytes) {
    && HandleOk(s, hdr, fd) && hdr1 == hdr && pageNo == hdr.firstFree && 1 <= pageNo < hdr.numPages
    && Exists(s, PageId(fd, pageNo)) && data == Content(s, PageId(fd, pageNo)) && |data| == PAGE_SIZE
    && Holding(s, s1, PageId(fd, pageNo), f, data) && PageId(fd, pageNo) in s1.table && Shape(s1)
    && Droppable(s1, PageId(fd, pageNo)) && s1.next == s.next
  }

  ghost predicate OpenedNew(s: State, s1: State, hdr: RmFileHdr, hdr1: RmFileHdr, fd: int, pageNo: int, f: int, data: bytes) {
    && HandleOk(s, hdr, fd) && pageNo == hdr.numPages && hdr1 == hdr.(numPages := pageNo + 1)
    && pageNo + 1 < INT32_LIMIT
    && !Exists(s, PageId(fd, pageNo)) && |data| == PAGE_SIZE
    && Holding(s, s1, PageId(fd, pageNo), f, data) && NextOf(s1, fd) == pageNo + 1
    && (forall d :: d != fd ==> NextOf(s1, d) == NextOf(s, d))
    && var v := View(hdr.layout, data);
       v.next == RM_NO_PAGE && v.num == 0 && forall i :: 0 <= i < hdr.layout.perPage ==> !v.used[i]
  }

  ghost predicate Opened(s: State, s1: State, hdr: RmFileHdr, hdr1: RmFileHdr, fd: int, pageNo: int, f: int, data: bytes) {
    if hdr.firstFree != RM_NO_PAGE then OpenedFree(s, s1, hdr, hdr1, fd, pageNo, f, data)
    else OpenedNew(s, s1, hdr, hdr1, fd, pageNo, f, data)
  }

  /** The pages of the file with the opened one, before anything is inserted. */
  ghost function Base(s: State, hdr: RmFileHdr, fd: int, data: bytes): FileView
    requires HandleOk(s, hdr, fd) && |data| == PAGE_SIZE
  {
    var fv := ViewOf(s, hdr.layout, fd, hdr.numPages);
    if hdr.firstFree != RM_NO_PAGE then fv else fv + [View(hdr.layout, data)]
  }

  lemma {:induction false} OpenedBase(s: State, s1: State, hdr: RmFileHdr, hdr1: RmFileHdr, fd: int, pageNo: int, f: int, data: bytes)
    requires Opened(s, s1, hdr, hdr1, fd, pageNo, f, data)
    ensures HandleOk(s, hdr, fd) && |data| == PAGE_SIZE
    ensures var h, fv, base := hdr.layout, ViewOf(s, hdr.layout, fd, hdr.numPages), Base(s, hdr, fd, data);
            && |base| == hdr1.numPages && 1 <= pageNo < |base| && base[pageNo] == View(h, data)
            && FileOk(h, base) && ViewOk(h, View(h, data)) && Records(h, base) == Records(h, fv)
            && (hdr.firstFree == RM_NO_PAGE ==> View(h, data).num == 0)
  {
    var h, fv := hdr.layout, ViewOf(s, hdr.layout, fd, hdr.numPages);
    if hdr.firstFree != RM_NO_PAGE {
      PageBytesContent(s, PageId(fd, pageNo));
    } else {
      CountExtremes(View(h, data).used);
      AppendRecords(h, fv, View(h, data));
    }
  }

  /** The opened page was written with `data'` and unpinned. */
  lemma {:induction false} OpenedDone(s: State, s1: State, hdr: RmFileHdr, hdr1: RmFileHdr, fd: int, pageNo: int, f: int, data: bytes,
                   s2: State, data': bytes, firstFree: int)
    requires Opened(s, s1, hdr, hdr1, fd, pageNo, f, data) && |data'| == PAGE_SIZE && IsInt32(firstFree)
    requires Shape(s2) && Holding(s, s2, PageId(fd, pageNo), f, data') && s2.next == s1.next
    requires HandleOk(s, hdr, fd) && |data| == PAGE_SIZE
    requires var base := Base(s, hdr, fd, data);
             |base| == hdr1.numPages && 1 <= pageNo < |base| && FileOk(hdr.layout, base[pageNo := View(hdr.layout, data')])
    ensures var s', h := Unpin(s2, PageId(fd, pageNo), true).0, hdr.layout;
            && HandleOk(s', hdr1.(firstFree := firstFree), fd)
            && ViewOf(s', h, fd, hdr1.numPages) == Base(s, hdr, fd, data)[pageNo := View(h, data')]
            && RestKept(s, s', fd)
  {
    hide Inv, NoLoss, Holding, FileOk, Droppable;
    var p, h := PageId(fd, pageNo), hdr.layout;
    var s' := Unpin(s2, p, true).0;
    ReleaseDirty(s, s2, p, f, data');
    if hdr.firstFree != RM_NO_PAGE {
      OnlyPageFile(s, s', h, fd, hdr.numPages, pageNo, data');
    } else {
      AppendPageFile(s, s', h, fd, hdr.numPages, data');
      assert Base(s, hdr, fd, data)[pageNo := View(h, data')] ==
             ViewOf(s, h, fd, hdr.numPages) + [View(h, data')];
    }
    forall q ensures PinCount(s', q) == PinCount(s, q) {
      if q != p { assert SameFor(s, s', q); }
    }
    forall k | 1 <= k < hdr1.numPages ensures Exists(s', PageId(fd, k)) {
      if k != pageNo { assert SameFor(s, s', PageId(fd, k)); }
    }
  }

  lemma {:induction false} OpenedHeld(s: State, s1: State, hdr: RmFileHdr, hdr1: RmFileHdr, fd: int, pageNo: int, f: int, data: bytes)
    requires Opened(s, s1, hdr, hdr1, fd, pageNo, f, data)
    ensures Holding(s, s1, PageId(fd, pageNo), f, data) && Shape(s1)
    ensures hdr1.layout == hdr.layout && hdr1.firstFree == hdr.firstFree && WfLayout(hdr.layout)
  {
  }

  /** The page at the head of the chain has no free slot. */
  ghost predicate HeadFull(hdr: RmFileHdr, fv: FileView) {
    1 <= hdr.firstFree < |fv| && fv[hdr.firstFree].num >= hdr.layout.perPage
  }

  /** Why an insert fails, if it does. */
  ghost function InsertError(s: State, hdr: RmFileHdr, fd: int, fv: FileView): Option<RmError> {
    var e := OpenError(s, hdr, fd);
    if e.Some? then e else if HeadFull(hdr, fv) then Some(NoFreeSlot) else None
  }

  /** With the chain in order an insert fails only for lack of a frame: neither
      a page that does not exist nor one without a free slot is ever opened. */
  lemma {:induction false} InsertNeverStuck(s: State, hdr: RmFileHdr, fd: int, fv: FileView, chain: seq<int>)
    requires |fv| == hdr.numPages && ChainOk(hdr.layout, fv, hdr.firstFree, chain)
    ensures var e := InsertError(s, hdr, fd, fv);
            && e != Some(NoFreeSlot) && e != Some(PageNotExist)
            && (e == Some(NoFreeFrame) ==> AllPinned(s))
  {
    if chain != [] {
      ChainMember(hdr.layout, fv, hdr.firstFree, chain, chain[0]);
    }
  }

  method FreeSlotOf(h: Layout, data: bytes) returns (slot: int)
    requires WfLayout(h) && |data| == PAGE_SIZE && ViewOk(h, View(h, data))
    ensures 0 <= slot <= h.perPage
    ensures slot == h.perPage <==> View(h, data).num >= h.perPage
    ensures slot < h.perPage ==> !SlotSet(h, data, slot)
    ensures forall i :: 0 <= i < slot ==> SlotSet(h, data, i)
  {
    HeaderBelowSlots(h);
    slot := Bitmap.FirstBit(false, data, OFFSET_BITMAP, h.perPage);
    FullPage(h, data, slot);
  }

  lemma {:induction false} FullPage(h: Layout, data: bytes, slot: int)
    requires WfLayout(h) && |data| == PAGE_SIZE && ViewOk(h, View(h, data)) && 0 <= slot <= h.perPage
    requires slot < h.perPage ==> !SlotSet(h, data, slot)
    requires forall i :: 0 <= i < slot ==> Bitmap.InBitmap(data, OFFSET_BITMAP, i) && Bitmap.IsSet(data, OFFSET_BITMAP, i)
    ensures slot == h.perPage <==> View(h, data).num >= h.perPage
  {
    hide Bitmap.IsSet, Bitmap.InBitmap;
    var v := View(h, data);
    FreeSlot(h, v);
    if slot < h.perPage {
      assert !v.used[slot];
    } else {
      forall i | 0 <= i < h.perPage ensures v.used[i] {
        SlotBounds(h, i);
        assert SlotSet(h, data, i);
      }
    }
  }

  /** The header's first free page after an insert left page `pageNo` as `v`. */
  ghost function InsertedFirst(hdr: RmFileHdr, pageNo: int, v: PageView): int {
    if v.num == hdr.layout.perPage && hdr.firstFree == pageNo then v.next else hdr.firstFree
  }

  ghost function InsertedChain(hdr: RmFileHdr, chain: seq<int>, pageNo: int, v: PageView): seq<int> {
    if v.num == hdr.layout.perPage && hdr.firstFree == pageNo && chain != [] then chain[1..] else chain
  }

  lemma {:induction false} InsertChain(hdr: RmFileHdr, base: FileView, chain: seq<int>, pageNo: int, i: int, buf: bytes)
    requires FileOk(hdr.layout, base) && ChainOk(hdr.layout, base, hdr.firstFree, chain)
    requires 1 <= pageNo < |base| && 0 <= i < hdr.layout.perPage && !base[pageNo].used[i]
    requires pageNo == hdr.firstFree || hdr.firstFree == RM_NO_PAGE
    ensures var v := Fill(base[pageNo], i, buf);
            ChainOk(hdr.layout, base[pageNo := v], InsertedFirst(hdr, pageNo, v), InsertedChain(hdr, chain, pageNo, v))
  {
    var h := hdr.layout;
    var v := Fill(base[pageNo], i, buf);
    FillChain(h, base, hdr.firstFree, chain, pageNo, i, buf);
    if chain == [] {
    } else {
      ChainMember(h, base, hdr.firstFree, chain, chain[0]);
      if v.num == h.perPage {
        ChainTail(h, base, hdr.firstFree, chain);
        forall q | q in chain[1..] ensures 1 <= q < |base| && base[q].num < h.perPage {
          ChainMember(h, base, base[chain[0]].next, chain[1..], q);
        }
        ChainSame(h, base, base[pageNo := v], v.next, chain[1..]);
      }
    }
  }

  lemma {:induction false} BaseChain(s: State, s1: State, hdr: RmFileHdr, hdr1: RmFileHdr, fd: int, pageNo: int, f: int, data: bytes, chain: seq<int>)
    requires Opened(s, s1, hdr, hdr1, fd, pageNo, f, data) && HandleOk(s, hdr, fd) && |data| == PAGE_SIZE
    requires ChainOk(hdr.layout, ViewOf(s, hdr.layout, fd, hdr.numPages), hdr.firstFree, chain)
    ensures ChainOk(hdr.layout, Base(s, hdr, fd, data), hdr.firstFree, chain)
  {
    var fv := ViewOf(s, hdr.layout, fd, hdr.numPages);
    forall q | q in chain ensures 1 <= q < |fv| && fv[q].num < hdr.layout.perPage {
      ChainMember(hdr.layout, fv, hdr.firstFree, chain, q);
    }
    ChainSame(hdr.layout, fv, Base(s, hdr, fd, data), hdr.firstFree, chain);
  }

  /** After a free slot of the opened page was filled and the page unpinned. */
  lemma {:induction false} InsertDone(s: State, s1: State, hdr: RmFileHdr, hdr1: RmFileHdr, fd: int, pageNo: int, f: int, data: bytes,
                   s2: State, data': bytes, i: int, buf: bytes, chain: seq<int>)
    requires Opened(s, s1, hdr, hdr1, fd, pageNo, f, data) && |data| == |data'| == PAGE_SIZE && SlotOk(hdr.layout, i)
    requires Shape(s2) && Holding(s, s2, PageId(fd, pageNo), f, data') && s2.next == s1.next
    requires !View(hdr.layout, data).used[i] && View(hdr.layout, data') == Fill(View(hdr.layout, data), i, buf)
    requires forall k :: 0 <= k < i ==> View(hdr.layout, data).used[k]
    ensures var v' := View(hdr.layout, data');
            InsertResult(s, Unpin(s2, PageId(fd, pageNo), true).0, hdr, hdr1.(firstFree := InsertedFirst(hdr, pageNo, v')),
                         fd, Rid(pageNo, i), buf, chain, InsertedChain(hdr, chain, pageNo, v'))
  {
    hide Holding, Inv, NoLoss, ChainOk, Records, RestKept, InsertedPages;
    OpenedBase(s, s1, hdr, hdr1, fd, pageNo, f, data);
    var h, base, v' := hdr.layout, Base(s, hdr, fd, data), View(hdr.layout, data');
    FillRecords(h, base, pageNo, i, buf);
    IntDecodes(data'[OFFSET_NEXT_FREE..OFFSET_NEXT_FREE + 4]);
    OpenedDone(s, s1, hdr, hdr1, fd, pageNo, f, data, s2, data', InsertedFirst(hdr, pageNo, v'));
    InsertedInto(s, s1, hdr, hdr1, fd, pageNo, f, data, i, buf);
    OccupiedRecord(h, base, Rid(pageNo, i));
    if ChainOk(h, ViewOf(s, h, fd, hdr.numPages), hdr.firstFree, chain) {
      BaseChain(s, s1, hdr, hdr1, fd, pageNo, f, data, chain);
      InsertChain(hdr, base, chain, pageNo, i, buf);
    }
  }

  /** Pool, header, pages, records and chain after an insert of `buf` at `rid`. */
  ghost predicate InsertResult(s: State, s': State, hdr: RmFileHdr, hdr': RmFileHdr, fd: int, rid: Rid, buf: bytes,
                               chain: seq<int>, chain': seq<int>) {
    && HandleOk(s, hdr, fd) && HandleOk(s', hdr', fd) && hdr'.layout == hdr.layout && RestKept(s, s', fd)
    && var h, fv, fv' := hdr.layout, ViewOf(s, hdr.layout, fd, hdr.numPages), ViewOf(s', hdr.layout, fd, hdr'.numPages);
    && InsertedPages(hdr, fv, hdr', fv', rid, buf)
    && rid !in Records(h, fv) && Records(h, fv') == Records(h, fv)[rid := buf]
    && (ChainOk(h, fv, hdr.firstFree, chain) ==> ChainOk(h, fv', hdr'.firstFree, chain'))
  }

  /** Header and pages after an insert: it goes to the first free slot of the
      page at the head of the chain, or with no such page to slot 0 of a new
      page, which does not join the chain. */
  ghost predicate InsertedPages(hdr: RmFileHdr, fv: FileView, hdr': RmFileHdr, fv': FileView, rid: Rid, buf: bytes) {
    if hdr.firstFree != RM_NO_PAGE then
      && 1 <= hdr.firstFree < |fv| && rid.pageNo == hdr.firstFree
      && var v := fv[rid.pageNo];
      && 0 <= rid.slotNo < |v.used| == |v.slots|
      && !v.used[rid.slotNo] && (forall i :: 0 <= i < rid.slotNo ==> v.used[i])
      && fv' == fv[rid.pageNo := Fill(v, rid.slotNo, buf)]
      && hdr' == hdr.(firstFree := InsertedFirst(hdr, rid.pageNo, Fill(v, rid.slotNo, buf)))
    else
      && rid == Rid(|fv|, 0) && |fv'| == |fv| + 1 && fv'[..|fv|] == fv
      && hdr' == hdr.(numPages := |fv| + 1)
      && var v := fv'[|fv|];
      && v.num == 1 && v.next == RM_NO_PAGE && |v.used| == |v.slots| == hdr.layout.perPage
      && (forall i :: 0 <= i < |v.used| ==> (v.used[i] <==> i == 0))
      && |v.slots| > 0 && v.slots[0] == buf
  }

  lemma {:induction false} InsertedInto(s: State, s1: State, hdr: RmFileHdr, hdr1: RmFileHdr, fd: int, pageNo: int, f: int, data: bytes,
                                        i: int, buf: bytes)
    requires Opened(s, s1, hdr, hdr1, fd, pageNo, f, data) && HandleOk(s, hdr, fd) && |data| == PAGE_SIZE
    requires SlotOk(hdr.layout, i) && !View(hdr.layout, data).used[i]
    requires forall k :: 0 <= k < i ==> View(hdr.layout, data).used[k]
    requires var base := Base(s, hdr, fd, data); 1 <= pageNo < |base| && base[pageNo] == View(hdr.layout, data)
    ensures var v' := Fill(View(hdr.layout, data), i, buf);
            InsertedPages(hdr, ViewOf(s, hdr.layout, fd, hdr.numPages),
                          hdr1.(firstFree := InsertedFirst(hdr, pageNo, v')), Base(s, hdr, fd, data)[pageNo := v'],
                          Rid(pageNo, i), buf)
  {
    hide Holding, Inv, NoLoss, FileOk;
    assert i > 0 ==> View(hdr.layout, data).used[0];
  }

  /** The header after a delete. */
  ghost function Erased(hdr: RmFileHdr, fv: FileView, rid: Rid): RmFileHdr {
    if 0 <= rid.pageNo < |fv| && fv[rid.pageNo].num == hdr.layout.perPage then hdr.(firstFree := rid.pageNo) else hdr
  }

  ghost function ErasedChain(hdr: RmFileHdr, fv: FileView, chain: seq<int>, rid: Rid): seq<int> {
    if 0 <= rid.pageNo < |fv| && fv[rid.pageNo].num == hdr.layout.perPage then [rid.pageNo] + chain else chain
  }

  ghost function ErasedPage(hdr: RmFileHdr, v: PageView, i: int): PageView
    requires 0 <= i < |v.used|
  {
    if v.num == hdr.layout.perPage then Vacate(v, i).(next := hdr.firstFree) else Vacate(v, i)
  }

  /** The pages after a delete. */
  ghost predicate ErasedPages(hdr: RmFileHdr, fv: FileView, fv': FileView, rid: Rid) {
    Occupied(fv, rid) && fv' == fv[rid.pageNo := ErasedPage(hdr, fv[rid.pageNo], rid.slotNo)]
  }

  /** The pages after an update. */
  ghost predicate UpdatedPages(fv: FileView, fv': FileView, rid: Rid, buf: bytes) {
    && Occupied(fv, rid) && |fv[rid.pageNo].slots| == |fv[rid.pageNo].used|
    && fv' == fv[rid.pageNo := Fill(fv[rid.pageNo], rid.slotNo, buf)]
  }

  lemma {:induction false} EraseChain(hdr: RmFileHdr, fv: FileView, chain: seq<int>, rid: Rid)
    requires FileOk(hdr.layout, fv) && Occupied(fv, rid) && ChainOk(hdr.layout, fv, hdr.firstFree, chain)
    ensures ChainOk(hdr.layout, fv[rid.pageNo := ErasedPage(hdr, fv[rid.pageNo], rid.slotNo)],
                    Erased(hdr, fv, rid).firstFree, ErasedChain(hdr, fv, chain, rid))
  {
    var h, p, v := hdr.layout, rid.pageNo, fv[rid.pageNo];
    assert ViewOk(h, v);
    VacateChain(h, fv, hdr.firstFree, chain, p, rid.slotNo);
    if v.num == h.perPage {
      if p in chain {
        ChainMember(h, fv, hdr.firstFree, chain, p);
        assert false;
      }
      var fv1 := fv[p := Vacate(v, rid.slotNo)];
      var fv2 := fv[p := ErasedPage(hdr, v, rid.slotNo)];
      forall q | q in chain ensures 0 <= q < |fv1| && fv1[q].num < h.perPage {
        ChainMember(h, fv1, hdr.firstFree, chain, q);
      }
      ChainSame(h, fv1, fv2, hdr.firstFree, chain);
      ChainCons(h, fv2, hdr.firstFree, chain, p);
    }
  }

  /** After slot `rid` of its page was vacated and the page unpinned. */
  lemma {:induction false} EraseDone(s: State, s1: State, hdr: RmFileHdr, fd: int, rid: Rid, f: int, data: bytes, chain: seq<int>)
    requires HandleOk(s, hdr, fd) && 1 <= rid.pageNo < hdr.numPages && SlotOk(hdr.layout, rid.slotNo)
    requires |data| == PAGE_SIZE && Holding(s, s1, PageId(fd, rid.pageNo), f, data) && s1.next == s.next
    requires var fv := ViewOf(s, hdr.layout, fd, hdr.numPages);
             Occupied(fv, rid) && View(hdr.layout, data) == ErasedPage(hdr, fv[rid.pageNo], rid.slotNo)
    ensures var s' := Unpin(s1, PageId(fd, rid.pageNo), true).0;
            var h, fv := hdr.layout, ViewOf(s, hdr.layout, fd, hdr.numPages);
            && HandleOk(s', Erased(hdr, fv, rid), fd)
            && ErasedPages(hdr, fv, ViewOf(s', h, fd, hdr.numPages), rid)
            && Records(h, ViewOf(s', h, fd, hdr.numPages)) == Records(h, fv) - {rid}
            && RestKept(s, s', fd)
            && (ChainOk(h, fv, hdr.firstFree, chain) ==>
                ChainOk(h, ViewOf(s', h, fd, hdr.numPages), Erased(hdr, fv, rid).firstFree, ErasedChain(hdr, fv, chain, rid)))
  {
    hide Records, FileOk, ChainOk, Inv, NoLoss, Holding, ErasedPage, RestKept;
    var h, fv := hdr.layout, ViewOf(s, hdr.layout, fd, hdr.numPages);
    ErasedRecords(hdr, fv, rid);
    WriteDone(s, s1, hdr, fd, rid.pageNo, f, data);
    if ChainOk(h, fv, hdr.firstFree, chain) {
      EraseChain(hdr, fv, chain, rid);
    }
  }

  lemma {:induction false} ErasedRecords(hdr: RmFileHdr, fv: FileView, rid: Rid)
    requires FileOk(hdr.layout, fv) && Occupied(fv, rid)
    ensures var v := ErasedPage(hdr, fv[rid.pageNo], rid.slotNo);
            && ViewOk(hdr.layout, v) && FileOk(hdr.layout, fv[rid.pageNo := v])
            && Records(hdr.layout, fv[rid.pageNo := v]) == Records(hdr.layout, fv) - {rid}
  {
    var h, p, v := hdr.layout, rid.pageNo, fv[rid.pageNo];
    assert ViewOk(h, v);
    VacateRecords(h, fv, p, rid.slotNo);
    var fv1 := fv[p := Vacate(v, rid.slotNo)];
    LinkRecords(h, fv1, p, hdr.firstFree);
    assert fv1[p := fv1[p].(next := hdr.firstFree)] == fv[p := Vacate(v, rid.slotNo).(next := hdr.firstFree)];
    assert ViewOk(h, fv1[p]);
  }

  /** Inserting at `rid` would fill up a page of the chain. */
  ghost predicate FillsUp(h: Layout, fv: FileView, chain: seq<int>, rid: Rid) {
    1 <= rid.pageNo < |fv| && 0 <= rid.slotNo < |fv[rid.pageNo].used| &&
    rid.pageNo in chain && !fv[rid.pageNo].used[rid.slotNo] && fv[rid.pageNo].num + 1 == h.perPage
  }
}
