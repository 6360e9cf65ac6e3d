/** How the record layer uses the buffer pool: it gets a page pinned, perhaps
    writes and marks it, and unpins it. Seen from outside, the first form
    changes nothing and the second one page. */
module PageAccess {
  import opened Common
  import opened Pool
  import opened PoolInvariant

  /** No page, byte or pin count changed. */
  ghost predicate Quiet(s: State, s': State)
    requires Shape(s) && Shape(s')
  {
    |s'.pages| == |s.pages| && s'.next == s.next && forall q :: SameFor(s, s', q)
  }

  /** Nothing changed for the pages of other files than `fd`. */
  ghost predicate OthersKept(s: State, s': State, fd: int)
    requires Shape(s) && Shape(s')
  {
    && (forall q: PageId :: q.fd != fd ==> SameFor(s, s', q))
    && (forall d :: d != fd ==> NextOf(s', d) == NextOf(s, d))
  }

  lemma {:induction false} QuietSame(s: State)
    requires Shape(s)
    ensures Quiet(s, s)
  {
  }

  lemma {:induction false} QuietOthers(s: State, s': State, fd: int)
    requires Shape(s) && Shape(s') && Quiet(s, s')
    ensures OthersKept(s, s', fd)
  {
  }

  lemma {:induction false} QuietTrans(s0: State, s: State, s': State)
    requires Shape(s0) && Shape(s) && Shape(s') && Quiet(s0, s) && Quiet(s, s')
    ensures Quiet(s0, s')
  {
    forall q ensures SameFor(s0, s', q) {
      assert SameFor(s0, s, q) && SameFor(s, s', q);
    }
  }

  /** If all frames are pinned they stay so while pin counts do, with the same pages. */
  lemma {:induction false} PinnedKept(s: State, s': State)
    requires Inv(s) && Inv(s') && |s'.pages| == |s.pages| && AllPinned(s)
    requires forall q :: PinCount(s', q) == PinCount(s, q)
    ensures AllPinned(s') && s'.table.Keys == s.table.Keys
  {
    var n := |s.pages|;
    forall f | 0 <= f < n
      ensures s.pages[f].id in s.table && s.table[s.pages[f].id] == f
      ensures s.pages[f].id in s'.table && PinCount(s', s.pages[f].id) > 0
    {
      assert FrameOk(s, f);
      assert PinCount(s', s.pages[f].id) == PinCount(s, s.pages[f].id);
    }
    var l := seq(n, f requires 0 <= f < n => s'.table[s.pages[f].id]);
    assert forall f :: 0 <= f < n ==> s'.pages[l[f]].id == s.pages[f].id;
    Pigeonhole(l, n);
    forall g | 0 <= g < n ensures s'.pages[g].pin > 0 {
      assert g in l;
      var f :| 0 <= f < n && l[f] == g;
      assert PinCount(s', s.pages[f].id) > 0;
    }
    forall q | q in s'.table ensures q in s.table {
      assert s'.table[q] in l;
    }
    forall q | q in s.table ensures q in s'.table {
      assert s.pages[s.table[q]].id == q;
    }
  }

  /** Pin counts decide whether all frames are pinned and, if so, which pages
      are in memory. */
  lemma {:induction false} PinnedFrames(s: State, s': State)
    requires Inv(s) && Inv(s') && Shape(s) && Shape(s') && Quiet(s, s')
    ensures AllPinned(s') <==> AllPinned(s)
    ensures AllPinned(s) ==> s'.table.Keys == s.table.Keys
  {
    forall q ensures PinCount(s', q) == PinCount(s, q) {
      assert SameFor(s, s', q);
    }
    if AllPinned(s) { PinnedKept(s, s'); }
    if AllPinned(s') { PinnedKept(s', s); }
  }

  /** Only the bytes of page `p` changed, to `data`. */
  ghost predicate OnlyPage(s: State, s': State, p: PageId, data: bytes)
    requires Shape(s) && Shape(s')
  {
    && Exists(s', p) && Content(s', p) == data && PinCount(s', p) == PinCount(s, p)
    && forall q :: q != p ==> SameFor(s, s', q)
  }

  /** Page `p` is held in frame `f` with bytes `data`, by one pin more than in `s0`. */
  ghost predicate Holding(s0: State, s: State, p: PageId, f: int, data: bytes) {
    && Shape(s0) && Inv(s) && Shape(s) && NoLoss(s)
    && p in s.table && s.table[p] == f && s.pages[f].data == data && |data| == PAGE_SIZE
    && |s.pages| == |s0.pages| && PinCount(s, p) == PinCount(s0, p) + 1 && PinCount(s0, p) >= 0
    && forall q :: q != p ==> SameFor(s0, s, q)
  }

  /** The last pin can be dropped without marking the page dirty. */
  ghost predicate Droppable(s: State, p: PageId)
    requires Shape(s) && p in s.table
  {
    PinCount(s, p) == 1 && !s.pages[s.table[p]].dirty ==> Synced(s, p)
  }

  lemma {:induction false} FetchHolds(s: State, p: PageId)
    requires Inv(s) && NoLoss(s) && Exists(s, p) && Fetch(s, p).1.Got?
    ensures Holding(s, Fetch(s, p).0, p, Fetch(s, p).1.frame, Content(s, p))
    ensures Droppable(Fetch(s, p).0, p) && Fetch(s, p).0.next == s.next
  {
    FetchKeeps(s, p);
    FetchEffect(s, p);
    ContentWhole(s, p);
    if p in s.table {
      assert FrameOk(s, s.table[p]);
    } else {
      FetchedSynced(s, p);
    }
  }

  lemma {:induction false} ContentWhole(s: State, p: PageId)
    requires Inv(s) && Exists(s, p)
    ensures |Content(s, p)| == PAGE_SIZE
  {
    if p in s.table { assert FrameOk(s, s.table[p]); }
  }

  lemma {:induction false} FetchedSynced(s: State, p: PageId)
    requires Inv(s) && p !in s.table && p in s.disk && Fetch(s, p).1.Got?
    ensures p in Fetch(s, p).0.table && Synced(Fetch(s, p).0, p)
  {
    FetchKeeps(s, p);
    VictimTaken(s);
    DiskAfterVictimAt(s, p);
    LoadShape(s, p, ReadPage(DiskAfterVictim(s), p));
  }

  /** A new page is held with zero bytes. */
  lemma {:induction false} NewHolds(s: State, fd: int)
    requires Inv(s) && NoLoss(s) && New(s, fd).1.Created?
    ensures var p := New(s, fd).1.id;
            && p == PageId(fd, NextOf(s, fd)) && !Exists(s, p)
            && Holding(s, New(s, fd).0, p, New(s, fd).1.frame, Zeros())
            && NextOf(New(s, fd).0, fd) == NextOf(s, fd) + 1
            && forall d :: d != fd ==> NextOf(New(s, fd).0, d) == NextOf(s, d)
  {
    NewKeeps(s, fd);
    NewEffect(s, fd);
  }

  /** Writing the held page and marking it dirty. */
  lemma {:induction false} WriteHolds(s0: State, s: State, p: PageId, f: int, data: bytes, data': bytes)
    requires Holding(s0, s, p, f, data) && |data'| == PAGE_SIZE
    ensures Holding(s0, MarkDirty(Write(s, p, data'), p), p, f, data')
    ensures MarkDirty(Write(s, p, data'), p).next == s.next
  {
    var s1 := Write(s, p, data');
    var s2 := MarkDirty(s1, p);
    WriteKeeps(s, p, data');
    WriteEffect(s, p, data');
    MarkKeeps(s1, p);
    MarkEffect(s1, p);
    forall q | q != p ensures SameFor(s0, s2, q) {
      assert SameFor(s0, s, q) && SameFor(s, s1, q) && SameFor(s1, s2, q);
    }
    assert SameFor(s1, s2, p);
  }

  /** Unpinning a page that was only read. */
  lemma {:induction false} ReleaseRead(s0: State, s: State, p: PageId, f: int)
    requires Shape(s0) && Exists(s0, p) && Holding(s0, s, p, f, Content(s0, p)) && Droppable(s, p)
    ensures var s' := Unpin(s, p, false).0;
            Inv(s') && NoLoss(s') && s'.next == s.next && |s'.pages| == |s0.pages| && forall q :: SameFor(s0, s', q)
  {
    var s' := Unpin(s, p, false).0;
    UnpinKeeps(s, p, false);
    UnpinEffect(s, p, false);
    forall q ensures SameFor(s0, s', q) {
      if q != p {
        assert SameFor(s0, s, q) && SameFor(s, s', q);
      }
    }
  }

  /** Unpinning a page as dirty. */
  lemma {:induction false} ReleaseDirty(s0: State, s: State, p: PageId, f: int, data: bytes)
    requires Holding(s0, s, p, f, data)
    ensures var s' := Unpin(s, p, true).0;
            Inv(s') && NoLoss(s') && s'.next == s.next && OnlyPage(s0, s', p, data)
  {
    var s' := Unpin(s, p, true).0;
    UnpinKeeps(s, p, true);
    UnpinEffect(s, p, true);
    forall q | q != p ensures SameFor(s0, s', q) {
      assert SameFor(s0, s, q) && SameFor(s, s', q);
    }
  }
}
