/** Scanning a record file (src/record/rm_scan.cpp). */
module RmScans {
  import opened Common
  import opened Pool
  import opened PoolInvariant
  import opened PageAccess
  import opened BufferPool
  import opened RecordPage
  import opened RecordFile
  import opened RmFiles
  import Bitmap

  const END := Rid(RM_NO_PAGE, -1)

  /** Scan order: by page, then by slot. */
  predicate Before(a: Rid, b: Rid) {
    a.pageNo < b.pageNo || (a.pageNo == b.pageNo && a.slotNo < b.slotNo)
  }

  /** `r` is the first record after position `from`, or the end if there is none. */
  ghost predicate IsNext(fv: FileView, from: Rid, r: Rid) {
    if r == END then forall q :: Occupied(fv, q) ==> !Before(from, q)
    else
      && Occupied(fv, r) && Before(from, r)
      && forall q :: Occupied(fv, q) && Before(from, q) ==> q == r || Before(r, q)
  }

  /** The first set bit after `curr` in a page of the file. */
  method NextUsed(h: Layout, data: bytes, curr: int) returns (slot: int)
    requires WfLayout(h) && |data| == PAGE_SIZE && -1 <= curr < h.perPage
    ensures curr < slot <= h.perPage
    ensures slot < h.perPage ==> View(h, data).used[slot]
    ensures forall i :: curr < i < slot ==> !View(h, data).used[i]
  {
    HeaderBelowSlots(h);
    slot := Bitmap.NextBit(true, data, OFFSET_BITMAP, h.perPage, curr);
    forall i | curr < i < slot ensures !View(h, data).used[i] {
      SlotBounds(h, i);
      assert !SlotSet(h, data, i);
    }
    if slot < h.perPage {
      SlotBounds(h, slot);
      assert SlotSet(h, data, slot);
    }
  }

  /** No record lies between `from` and the scan position `cur`. */
  ghost predicate Passed(fv: FileView, from: Rid, cur: Rid) {
    && (cur == from || Before(from, cur))
    && forall q :: Occupied(fv, q) && Before(from, q) ==> Before(cur, q)
  }

  /** No used slot lies between `curr` and `slot` in page `v`. */
  ghost predicate Skipped(v: PageView, perPage: int, curr: int, slot: int) {
    && curr < slot <= |v.used| == perPage
    && forall i :: 0 <= i && curr < i < slot ==> !v.used[i]
  }

  /** `slot` is the next used slot after `r` in its page, or the number of slots. */
  ghost predicate NextInView(fv: FileView, r: Rid, perPage: int, slot: int) {
    && 1 <= r.pageNo < |fv| && Skipped(fv[r.pageNo], perPage, r.slotNo, slot)
    && (slot < perPage ==> 0 <= slot && fv[r.pageNo].used[slot])
  }

  lemma {:induction false} SlotInPage(fv: FileView, r: Rid, perPage: int, slot: int)
    requires NextInView(fv, r, perPage, slot) && slot < perPage
    ensures 0 <= slot
  {
  }

  lemma {:induction false} ViewNext(h: Layout, fv: FileView, r: Rid, data: bytes, slot: int)
    requires WfLayout(h) && |data| == PAGE_SIZE && 1 <= r.pageNo < |fv| && fv[r.pageNo] == View(h, data)
    requires -1 <= r.slotNo < slot <= h.perPage && (slot < h.perPage ==> View(h, data).used[slot])
    requires forall i :: r.slotNo < i < slot ==> !View(h, data).used[i]
    ensures NextInView(fv, r, h.perPage, slot)
  {
  }

  lemma {:induction false} Standing(fv: FileView, r: Rid)
    ensures Passed(fv, r, r)
  {
  }

  lemma {:induction false} NothingLeft(fv: FileView, from: Rid, cur: Rid)
    requires Passed(fv, from, cur) && cur.pageNo >= |fv|
    ensures IsNext(fv, from, END)
  {
  }

  lemma {:induction false} FoundNext(fv: FileView, from: Rid, cur: Rid, perPage: int, slot: int)
    requires Passed(fv, from, cur) && 1 <= cur.pageNo < |fv| && Skipped(fv[cur.pageNo], perPage, cur.slotNo, slot)
    requires 0 <= slot < perPage && fv[cur.pageNo].used[slot]
    ensures IsNext(fv, from, Rid(cur.pageNo, slot))
  {
  }

  lemma {:induction false} PageDone(fv: FileView, from: Rid, cur: Rid, perPage: int)
    requires Passed(fv, from, cur) && 1 <= cur.pageNo < |fv| && Skipped(fv[cur.pageNo], perPage, cur.slotNo, perPage)
    ensures Passed(fv, from, Rid(cur.pageNo + 1, -1))
  {
  }

  // ----- When a scan fails -----

  /** A search from `from` has to look at page `p`: no record comes before it. */
  ghost predicate MustLook(fv: FileView, from: Rid, p: int) {
    && from.pageNo <= p < |fv|
    && forall q :: Occupied(fv, q) && Before(from, q) ==> p <= q.pageNo
  }

  /** All frames are pinned and a page the search has to look at is not in memory. */
  ghost predicate Blocked(s: State, fd: int, fv: FileView, from: Rid) {
    AllPinned(s) && exists p :: MustLook(fv, from, p) && PageId(fd, p) !in s.table
  }

  /** With all frames pinned, pages `lo` to `hi - 1` are in memory. */
  ghost predicate Resident(s: State, fd: int, lo: int, hi: int) {
    AllPinned(s) ==> forall p :: lo <= p < hi ==> PageId(fd, p) in s.table
  }

  /** The search from `from` has come to `cur` without finding a record or
      being blocked. */
  ghost predicate Searching(s: State, fd: int, fv: FileView, from: Rid, cur: Rid) {
    Passed(fv, from, cur) && Resident(s, fd, from.pageNo, cur.pageNo)
  }

  lemma {:induction false} SearchStart(s: State, fd: int, fv: FileView, from: Rid)
    ensures Searching(s, fd, fv, from, from)
  {
    Standing(fv, from);
  }

  lemma {:induction false} SearchStuck(s: State, fd: int, fv: FileView, from: Rid, cur: Rid)
    requires Searching(s, fd, fv, from, cur) && cur.pageNo < |fv| && AllPinned(s) && PageId(fd, cur.pageNo) !in s.table
    ensures Blocked(s, fd, fv, from)
  {
    assert MustLook(fv, from, cur.pageNo);
  }

  lemma {:induction false} SearchFound(s: State, fd: int, fv: FileView, from: Rid, cur: Rid, perPage: int, slot: int)
    requires Searching(s, fd, fv, from, cur) && NextInView(fv, cur, perPage, slot) && slot < perPage
    requires !(AllPinned(s) && PageId(fd, cur.pageNo) !in s.table)
    ensures IsNext(fv, from, Rid(cur.pageNo, slot)) && !Blocked(s, fd, fv, from)
  {
    FoundNext(fv, from, cur, perPage, slot);
    NotBlocked(s, fd, fv, from, Rid(cur.pageNo, slot));
  }

  lemma {:induction false} SearchOn(s: State, fd: int, fv: FileView, from: Rid, cur: Rid, perPage: int, slot: int)
    requires Searching(s, fd, fv, from, cur) && NextInView(fv, cur, perPage, slot) && slot >= perPage
    requires !(AllPinned(s) && PageId(fd, cur.pageNo) !in s.table)
    ensures Searching(s, fd, fv, from, Rid(cur.pageNo + 1, -1))
  {
    PageDone(fv, from, cur, perPage);
  }

  lemma {:induction false} SearchEnd(s: State, fd: int, fv: FileView, from: Rid, cur: Rid)
    requires Searching(s, fd, fv, from, cur) && cur.pageNo >= |fv|
    ensures IsNext(fv, from, END) && !Blocked(s, fd, fv, from)
  {
    NothingLeft(fv, from, cur);
    NotBlocked(s, fd, fv, from, END);
  }

  /** A search that found its answer was not blocked. */
  lemma {:induction false} NotBlocked(s: State, fd: int, fv: FileView, from: Rid, r: Rid)
    requires IsNext(fv, from, r) && Resident(s, fd, from.pageNo, if r == END then |fv| else r.pageNo + 1)
    ensures !Blocked(s, fd, fv, from)
  {
  }

  /** A search that was not blocked has all pages up to its answer in memory if
      all frames are pinned. */
  lemma {:induction false} LookedAt(s: State, fd: int, fv: FileView, from: Rid, r: Rid)
    requires IsNext(fv, from, r) && !Blocked(s, fd, fv, from)
    ensures Resident(s, fd, from.pageNo, if r == END then |fv| else r.pageNo + 1)
  {
    if AllPinned(s) {
      forall p | from.pageNo <= p < (if r == END then |fv| else r.pageNo + 1) ensures PageId(fd, p) in s.table {
        assert MustLook(fv, from, p);
      }
    }
  }

  lemma {:induction false} SameBlocked(s: State, s': State, fd: int, fv: FileView, from: Rid)
    requires Inv(s) && Inv(s') && Shape(s) && Shape(s') && Quiet(s, s')
    ensures Blocked(s', fd, fv, from) <==> Blocked(s, fd, fv, from)
  {
    PinnedFrames(s, s');
    assert AllPinned(s) ==> forall p :: p in s'.table.Keys <==> p in s.table.Keys;
  }

  class RmScan {
    const file: RmFileHandle?
    var rid: Rid

    predicate IsEnd()
      reads this
    {
      rid.pageNo == RM_NO_PAGE || file == null
    }

    /** The scan stands at the end, at a record, or before the first slot of a page. */
    ghost predicate Positioned()
      reads this, file
    {
      file == null || rid == END || (1 <= rid.pageNo && -1 <= rid.slotNo < file.hdr.layout.perPage)
    }

    /** A scan before its first record; without a file it is at its end. */
    constructor (file: RmFileHandle?)
      ensures this.file == file
      ensures rid == if file == null then END else Rid(RM_FIRST_RECORD_PAGE, -1)
    {
      this.file := file;
      if file == null {
        rid := END;
      } else {
        rid := Rid(RM_FIRST_RECORD_PAGE, -1);
      }
    }

    /** Moves to the next record, or to the end. */
    method Next() returns (e: Option<RmError>)
      requires Positioned() && (file != null ==> file.Valid())
      modifies this`rid, if file != null then file.pool.Repr() else {}
      ensures Positioned()
      ensures old(IsEnd()) ==> e.None? && rid == old(rid)
      ensures file != null ==> file.AsBefore(old(file.pool.State()))
      ensures !old(IsEnd()) && e.None? ==> IsNext(file.Pages(), old(rid), rid)
      ensures e.Some? ==> e == Some(NoFreeFrame)
      ensures e.Some? <==> !old(IsEnd()) && old(Blocked(file.pool.State(), file.fd, file.Pages(), rid))
    {
      if IsEnd() {
        return None;
      }
      e := Search(file);
    }

    /** The search from the current position on. */
    method Search(file: RmFileHandle) returns (e: Option<RmError>)
      requires this.file == file && file.Valid()
      requires 1 <= rid.pageNo && -1 <= rid.slotNo < file.hdr.layout.perPage
      modifies this`rid, file.pool.Repr()
      ensures Positioned()
      ensures file.AsBefore(old(file.pool.State()))
      ensures e.None? ==> IsNext(file.Pages(), old(rid), rid)
      ensures e.Some? ==> e == Some(NoFreeFrame)
      ensures e.Some? <==> old(Blocked(file.pool.State(), file.fd, file.Pages(), rid))
    {
      hide HandleOk, FileOk, NextInView, Searching, IsNext, Pool.PinCount, Quiet, AllPinned, Blocked;
      var n, perPage := file.hdr.numPages, file.hdr.layout.perPage;
      ghost var s := file.pool.State();
      ghost var fv := file.Pages();
      SearchStart(s, file.fd, fv, rid);
      QuietSame(s);
      while RM_FIRST_RECORD_PAGE <= rid.pageNo < n
        invariant 1 <= rid.pageNo && -1 <= rid.slotNo < perPage
        invariant file.hdr == old(file.hdr) && file.AsBefore(s) && file.Valid() && file.Pages() == fv
        invariant Searching(s, file.fd, fv, old(rid), rid)
        decreases n - rid.pageNo
      {
        var slot;
        e, slot := NextInPage(s);
        if e.Some? {
          SearchStuck(s, file.fd, fv, old(rid), rid);
          return;
        }
        if slot < perPage {
          SlotInPage(fv, rid, perPage, slot);
          SearchFound(s, file.fd, fv, old(rid), rid, perPage, slot);
          rid := Rid(rid.pageNo, slot);
          return None;
        }
        SearchOn(s, file.fd, fv, old(rid), rid, perPage, slot);
        rid := Rid(rid.pageNo + 1, -1);
      }
      SearchEnd(s, file.fd, fv, old(rid), rid);
      rid := END;
      return None;
    }

    /** Looks for the next record in the current page, seen from the state `s0`
        in which the search began. */
    method NextInPage(ghost s0: State) returns (e: Option<RmError>, slot: int)
      requires file != null && file.AsBefore(s0)
      requires 1 <= rid.pageNo < file.hdr.numPages && -1 <= rid.slotNo < file.hdr.layout.perPage
      modifies file.pool.Repr()
      ensures file.AsBefore(s0) && file.Valid()
      ensures e.None? || e == Some(NoFreeFrame)
      ensures e.Some? <==> AllPinned(s0) && PageId(file.fd, rid.pageNo) !in s0.table
      ensures e.None? ==> NextInView(file.Pages(), rid, file.hdr.layout.perPage, slot)
    {
      hide Inv, NoLoss, FileOk, Quiet, AllPinned, ViewOf, View, NextInView;
      ghost var s := file.pool.State();
      PinnedFrames(s0, s);
      assert PageId(file.fd, rid.pageNo) in s.table.Keys <==> PageId(file.fd, rid.pageNo) in s.table;
      e, slot := LookInPage();
      QuietTrans(s0, s, file.pool.State());
    }

    /** Fetches the current page, looks for the next used slot and unpins it. */
    method LookInPage() returns (e: Option<RmError>, slot: int)
      requires file != null && file.Valid()
      requires 1 <= rid.pageNo < file.hdr.numPages && -1 <= rid.slotNo < file.hdr.layout.perPage
      modifies file.pool.Repr()
      ensures file.AsBefore(old(file.pool.State()))
      ensures e.None? || e == Some(NoFreeFrame)
      ensures e.Some? <==> old(AllPinned(file.pool.State()) && PageId(file.fd, rid.pageNo) !in file.pool.State().table)
      ensures e.None? ==> NextInView(file.Pages(), rid, file.hdr.layout.perPage, slot)
    {
      hide Holding, Droppable, Inv, NoLoss, FileOk, Quiet, AllPinned, Pool.PinCount, NextInView, View;
      slot := 0;
      ghost var s := file.pool.State();
      var fetched := file.FetchPageHandle(rid.pageNo);
      if fetched.Err? {
        QuietSame(s);
        return Some(fetched.error), slot;
      }
      FetchedPage(s, file.hdr, file.fd, rid.pageNo);
      HeldBytes(s, file.pool.State(), PageId(file.fd, rid.pageNo), fetched.value);
      var data := file.pool.pages[fetched.value].data;
      slot := NextUsed(file.hdr.layout, data, rid.slotNo);
      ViewNext(file.hdr.layout, ViewOf(s, file.hdr.layout, file.fd, file.hdr.numPages), rid, data, slot);
      file.PutBack(PageId(file.fd, rid.pageNo), fetched.value, s);
      return None, slot;
    }
  }

  ghost predicate Ascending(rids: seq<Rid>) {
    forall i, j :: 0 <= i < j < |rids| ==> Before(rids[i], rids[j])
  }

  /** `rids` are, in order, the records up to position `cur`. */
  ghost predicate Visited(fv: FileView, rids: seq<Rid>, cur: Rid) {
    && Ascending(rids)
    && forall q :: q in rids <==> Occupied(fv, q) && (Before(q, cur) || cur == END)
  }

  lemma {:induction false} VisitFirst(fv: FileView, r: Rid)
    requires IsNext(fv, Rid(RM_FIRST_RECORD_PAGE, -1), r)
    ensures Visited(fv, [], r)
  {
  }

  lemma {:induction false} VisitNext(fv: FileView, rids: seq<Rid>, cur: Rid, r: Rid)
    requires Visited(fv, rids, cur) && cur != END && Occupied(fv, cur) && IsNext(fv, cur, r)
    ensures Visited(fv, rids + [cur], r)
  {
    var l := rids + [cur];
    forall i, j | 0 <= i < j < |l| ensures Before(l[i], l[j]) {
      if j == |rids| { assert l[i] in rids; }
    }
    forall q ensures q in l <==> Occupied(fv, q) && (Before(q, r) || r == END) {
      assert q in l <==> q in rids || q == cur;
    }
  }

  lemma {:induction false} NextBounds(h: Layout, fv: FileView, from: Rid, r: Rid)
    requires FileOk(h, fv) && IsNext(fv, from, r) && r != END
    ensures Occupied(fv, r) && Before(from, r) && 1 <= r.pageNo < |fv| && 0 <= r.slotNo < h.perPage
  {
  }

  lemma {:induction false} VisitedAll(h: Layout, fv: FileView, rids: seq<Rid>)
    requires FileOk(h, fv) && Visited(fv, rids, END)
    ensures Ascending(rids) && Elems(rids) == Records(h, fv).Keys
  {
    forall q ensures q in Elems(rids) <==> q in Records(h, fv) {
      OccupiedRecord(h, fv, q);
    }
  }

  /** `RmScan` of a file handle: the constructor moves to the first record. */
  method OpenScan(file: RmFileHandle?) returns (e: Option<RmError>, scan: RmScan)
    requires file != null ==> file.Valid()
    modifies if file != null then file.pool.Repr() else {}
    ensures fresh(scan) && scan.file == file && scan.Positioned()
    ensures file == null ==> e.None? && scan.rid == END
    ensures file != null ==> file.AsBefore(old(file.pool.State()))
    ensures file != null && e.None? ==> IsNext(file.Pages(), Rid(RM_FIRST_RECORD_PAGE, -1), scan.rid)
    ensures e.Some? ==> e == Some(NoFreeFrame)
    ensures e.Some? <==>
              file != null && old(Blocked(file.pool.State(), file.fd, file.Pages(), Rid(RM_FIRST_RECORD_PAGE, -1)))
  {
    scan := new RmScan(file);
    if file == null {
      return None, scan;
    }
    e := scan.Search(file);
  }

  /** Between two moves of a scan that went from `from` to `r`: `rids` are the
      records before `r`, and all pages up to `r` could be looked at. */
  ghost predicate ScanState(s: State, fd: int, fv: FileView, rids: seq<Rid>, from: Rid, r: Rid) {
    && IsNext(fv, from, r) && Visited(fv, rids, r)
    && Resident(s, fd, 1, if r == END then |fv| else r.pageNo + 1)
  }

  lemma {:induction false} ScanFirst(s: State, fd: int, fv: FileView, r: Rid)
    requires IsNext(fv, Rid(RM_FIRST_RECORD_PAGE, -1), r) && !Blocked(s, fd, fv, Rid(RM_FIRST_RECORD_PAGE, -1))
    ensures ScanState(s, fd, fv, [], Rid(RM_FIRST_RECORD_PAGE, -1), r)
  {
    VisitFirst(fv, r);
    LookedAt(s, fd, fv, Rid(RM_FIRST_RECORD_PAGE, -1), r);
  }

  lemma {:induction false} ScanStep(s: State, fd: int, fv: FileView, rids: seq<Rid>, from: Rid, r: Rid, r': Rid)
    requires ScanState(s, fd, fv, rids, from, r) && r != END && IsNext(fv, r, r') && !Blocked(s, fd, fv, r)
    ensures ScanState(s, fd, fv, rids + [r], r, r')
  {
    hide Visited, Blocked, Resident;
    VisitNext(fv, rids, r, r');
    LookedAt(s, fd, fv, r, r');
    ResidentMore(s, fd, r.pageNo, if r' == END then |fv| else r'.pageNo + 1);
  }

  lemma {:induction false} ScanBounds(h: Layout, s: State, fd: int, fv: FileView, rids: seq<Rid>, from: Rid, r: Rid)
    requires FileOk(h, fv) && ScanState(s, fd, fv, rids, from, r) && r != END
    ensures Before(from, r) && 1 <= r.pageNo < |fv| && 0 <= r.slotNo < h.perPage
  {
    NextBounds(h, fv, from, r);
  }

  /** One move, seen from the state `s` in which the scan began. */
  method MoveOn(scan: RmScan, file: RmFileHandle, ghost s: State) returns (e: Option<RmError>)
    requires scan.file == file && scan.Positioned() && !scan.IsEnd() && file.AsBefore(s)
    modifies scan`rid, file.pool.Repr()
    ensures scan.Positioned() && file.AsBefore(s) && file.Pages() == old(file.Pages())
    ensures e.None? ==> IsNext(file.Pages(), old(scan.rid), scan.rid)
    ensures e.Some? ==> e == Some(NoFreeFrame)
    ensures e.Some? <==> Blocked(s, file.fd, old(file.Pages()), old(scan.rid))
  {
    hide FileOk, IsNext, NoLoss, Quiet, Blocked;
    ghost var s1 := file.pool.State();
    SameBlocked(s, s1, file.fd, file.Pages(), scan.rid);
    e := scan.Next();
    QuietTrans(s, s1, file.pool.State());
  }

  /** The scan loop of a client: it visits exactly the records of the file, each
      once, in ascending order, and then ends. It fails iff all frames are
      pinned and some page of the file is not in memory. */
  method ScanAll(file: RmFileHandle) returns (e: Option<RmError>, rids: seq<Rid>)
    requires file.Valid()
    modifies file.pool.Repr()
    ensures file.AsBefore(old(file.pool.State()))
    ensures e.None? ==> Ascending(rids) && Elems(rids) == file.Recs().Keys
    ensures e.Some? ==> e == Some(NoFreeFrame)
    ensures e.Some? <==>
              old(AllPinned(file.pool.State()) &&
                  exists p :: 1 <= p < file.hdr.numPages && PageId(file.fd, p) !in file.pool.State().table)
  {
    hide FileOk, ScanState, IsNext, Ascending, Records, Inv, NoLoss, Quiet, AllPinned, Blocked;
    ghost var s, h, fv := file.pool.State(), file.hdr.layout, file.Pages();
    rids := [];
    var scan;
    e, scan := OpenScan(file);
    ghost var from := Rid(RM_FIRST_RECORD_PAGE, -1);
    if e.Some? {
      ScanStuck(s, file.fd, fv, from);
      return;
    }
    ScanFirst(s, file.fd, fv, scan.rid);
    while !scan.IsEnd()
      invariant scan.file == file && scan.Positioned() && file.hdr == old(file.hdr) && file.AsBefore(s) && file.Pages() == fv
      invariant e.None? && ScanState(s, file.fd, fv, rids, from, scan.rid)
      decreases if scan.IsEnd() then 0 else 1, |fv| - scan.rid.pageNo, h.perPage - scan.rid.slotNo
    {
      ScanBounds(h, s, file.fd, fv, rids, from, scan.rid);
      var r := scan.rid;
      e := MoveOn(scan, file, s);
      if e.Some? {
        ScanStuck(s, file.fd, fv, r);
        return;
      }
      ScanStep(s, file.fd, fv, rids, from, r, scan.rid);
      rids := rids + [r];
      from := r;
      if scan.rid != END { ScanBounds(h, s, file.fd, fv, rids, from, scan.rid); }
    }
    ScanDone(h, s, file.fd, fv, rids, from);
  }

  lemma {:induction false} ScanDone(h: Layout, s: State, fd: int, fv: FileView, rids: seq<Rid>, from: Rid)
    requires FileOk(h, fv) && ScanState(s, fd, fv, rids, from, END)
    ensures Ascending(rids) && Elems(rids) == Records(h, fv).Keys
    ensures !(AllPinned(s) && exists p :: 1 <= p < |fv| && PageId(fd, p) !in s.table)
  {
    VisitedAll(h, fv, rids);
  }

  lemma {:induction false} ScanStuck(s: State, fd: int, fv: FileView, from: Rid)
    requires Blocked(s, fd, fv, from) && 1 <= from.pageNo
    ensures AllPinned(s) && exists p :: 1 <= p < |fv| && PageId(fd, p) !in s.table
  {
    var p :| MustLook(fv, from, p) && PageId(fd, p) !in s.table;
    assert 1 <= p < |fv|;
  }

  lemma {:induction false} ResidentMore(s: State, fd: int, mid: int, hi: int)
    requires Resident(s, fd, 1, mid + 1) && Resident(s, fd, mid, hi)
    ensures Resident(s, fd, 1, hi)
  {
  }
}
