/** What every pool operation keeps, and what it does to the pages' contents
    and pin counts. */
module PoolInvariant {
  import opened Common
  import opened Pool

  lemma {:induction false} WithoutDistinct(l: seq<int>, f: int)
    requires Distinct(l)
    ensures Distinct(Without(l, f))
  {
    if l != [] {
      WithoutDistinct(l[1..], f);
      assert l == [l[0]] + l[1..];
      assert l[0] !in l[1..];
      assert l[0] !in Without(l[1..], f);
    }
  }

  lemma {:induction false} WithoutAbsent(l: seq<int>, f: int)
    requires f !in l
    ensures Without(l, f) == l
  {
    if l != [] {
      WithoutAbsent(l[1..], f);
    }
  }

  /** Removing the first free frame or the last evictable one. */
  lemma {:induction false} VictimTaken(s: State)
    requires Inv(s)
    ensures FindVictim(s).0.None? <==> AllPinned(s)
    ensures FindVictim(s).0.Some? ==>
              var f, s1 := FindVictim(s).0.value, FindVictim(s).1;
              && s.pages[f].pin == 0
              && s1 == s.(free := s1.free, lru := s1.lru)
              && (forall x :: x in s1.free <==> x in s.free && x != f)
              && (forall x :: x in s1.lru <==> x in s.lru && x != f)
              && Distinct(s1.free) && Distinct(s1.lru)
  {
    if s.free != [] {
      assert s.free[0] in s.free;
      assert FrameOk(s, s.free[0]);
      assert s.free == [s.free[0]] + s.free[1..];
    } else if s.lru != [] {
      var n := |s.lru| - 1;
      assert s.lru[n] in s.lru;
      assert FrameOk(s, s.lru[n]);
      assert s.lru == s.lru[..n] + [s.lru[n]];
    } else {
      forall f | 0 <= f < |s.pages| ensures s.pages[f].pin > 0 {
        assert FrameOk(s, f);
      }
    }
  }

  /** The victim's frame after it was handed over to page `p`. */
  ghost function Load(s: State, p: PageId, data: bytes): State
    requires Shape(s) && FindVictim(s).0.Some?
  {
    var (victim, s1) := FindVictim(s);
    PinLoaded(UpdatePage(s1, victim.value, p), victim.value, data)
  }

  lemma {:induction false} LoadShape(s: State, p: PageId, data: bytes)
    requires Inv(s) && FindVictim(s).0.Some? && p.pageNo != INVALID_PAGE_ID
    ensures var f, s1, s' := FindVictim(s).0.value, FindVictim(s).1, Load(s, p, data);
            var was := s.pages[f];
            && s'.pages == s.pages[f := Page(p, data, false, 1)]
            && s'.table == (if f in s.free then s.table else s.table - {was.id})[p := f]
            && s'.free == s1.free && s'.lru == s1.lru && s'.next == s.next
            && s'.disk == (if was.dirty then s.disk[was.id := was.data] else s.disk)
  {
    VictimTaken(s);
    var f := FindVictim(s).0.value;
    assert FrameOk(s, f);
    WithoutAbsent(FindVictim(s).1.lru, f);
  }

  lemma {:induction false} LoadTable(s: State, p: PageId, data: bytes)
    requires Inv(s) && FindVictim(s).0.Some? && p !in s.table && p.pageNo != INVALID_PAGE_ID
    ensures TableOk(Load(s, p, data))
  {
    hide CountersOk, Readable;
    VictimTaken(s);
    LoadShape(s, p, data);
    assert FrameOk(s, FindVictim(s).0.value);
  }

  lemma {:induction false} LoadFrames(s: State, p: PageId, data: bytes)
    requires Inv(s) && FindVictim(s).0.Some? && p.pageNo != INVALID_PAGE_ID && |data| == PAGE_SIZE
    ensures FramesOk(Load(s, p, data))
  {
    VictimTaken(s);
    LoadShape(s, p, data);
    var s' := Load(s, p, data);
    forall g | 0 <= g < |s'.pages| ensures FrameOk(s', g) {
      assert FrameOk(s, g);
    }
  }

  lemma {:induction false} LoadCounters(s: State, p: PageId, data: bytes)
    requires Inv(s) && FindVictim(s).0.Some? && 0 <= p.pageNo < NextOf(s, p.fd)
    ensures CountersOk(Load(s, p, data))
  {
    VictimTaken(s);
    LoadShape(s, p, data);
    assert FrameOk(s, FindVictim(s).0.value);
  }

  lemma {:induction false} LoadInv(s: State, p: PageId, data: bytes)
    requires Inv(s) && FindVictim(s).0.Some? && p !in s.table
    requires 0 <= p.pageNo < NextOf(s, p.fd) && |data| == PAGE_SIZE
    ensures Inv(Load(s, p, data))
  {
    LoadTable(s, p, data);
    LoadFrames(s, p, data);
    LoadCounters(s, p, data);
  }

  /** `s'` shows the same pages, bytes and pin counts as `s` for page `q`. */
  ghost predicate SameFor(s: State, s': State, q: PageId)
    requires Shape(s) && Shape(s')
  {
    && (Exists(s', q) <==> Exists(s, q))
    && (Exists(s, q) ==> Content(s', q) == Content(s, q))
    && PinCount(s', q) == PinCount(s, q)
  }

  /** Loading a page into a victim frame is invisible to every other page. */
  lemma {:induction false} LoadOther(s: State, p: PageId, data: bytes, q: PageId)
    requires Inv(s) && NoLoss(s) && FindVictim(s).0.Some? && p !in s.table && p.pageNo != INVALID_PAGE_ID
    requires q != p
    ensures SameFor(s, Load(s, p, data), q)
  {
    VictimTaken(s);
    LoadShape(s, p, data);
    assert FrameOk(s, FindVictim(s).0.value);
  }

  lemma {:induction false} LoadNoLoss(s: State, p: PageId, data: bytes)
    requires Inv(s) && NoLoss(s) && FindVictim(s).0.Some? && p !in s.table && p.pageNo != INVALID_PAGE_ID
    ensures NoLoss(Load(s, p, data))
  {
    VictimTaken(s);
    LoadShape(s, p, data);
    assert FrameOk(s, FindVictim(s).0.value);
  }

  lemma {:induction false} LoadEffect(s: State, p: PageId, data: bytes)
    requires Inv(s) && NoLoss(s) && FindVictim(s).0.Some? && p !in s.table && p.pageNo != INVALID_PAGE_ID
    ensures var s' := Load(s, p, data);
            && NoLoss(s')
            && Exists(s', p) && Content(s', p) == data && PinCount(s', p) == 1
            && forall q :: q != p ==> SameFor(s, s', q)
  {
    LoadNoLoss(s, p, data);
    forall q | q != p ensures SameFor(s, Load(s, p, data), q) {
      LoadOther(s, p, data, q);
    }
    LoadShape(s, p, data);
  }

  // ----- Fetch -----

  /** The disk after the next victim was written back. */
  ghost function DiskAfterVictim(s: State): map<PageId, bytes>
    requires Shape(s)
  {
    var (victim, s1) := FindVictim(s);
    if victim.None? then s.disk else
    var was := s.pages[victim.value];
    if was.id.pageNo != INVALID_PAGE_ID && was.dirty then s.disk[was.id := was.data] else s.disk
  }

  lemma {:induction false} PinHit(s: State, p: PageId)
    requires Inv(s) && p in s.table
    ensures Inv(Fetch(s, p).0)
  {
    var f, s' := s.table[p], Fetch(s, p).0;
    WithoutDistinct(s.lru, f);
    forall g | 0 <= g < |s'.pages| ensures FrameOk(s', g) {
      assert FrameOk(s, g);
    }
  }

  /** A fetch of an absent page fails exactly when every frame is pinned, and
      then changes nothing. It reports a read error exactly when the file does
      not reach the page; that, and only that, breaks the invariant: the frame
      taken is left in neither list and unpinned. */
  lemma {:induction false} FetchKeeps(s: State, p: PageId)
    requires Inv(s)
    ensures var (s', o) := Fetch(s, p);
            && (o == NoFrame <==> p !in s.table && AllPinned(s))
            && (o == NoFrame ==> s' == s)
            && (o == ReadFailed <==> p !in s.table && !AllPinned(s) && !Readable(DiskAfterVictim(s), p))
            && (Inv(s') <==> o != ReadFailed)
            && (o.Got? || o == NoFrame || o == ReadFailed)
            && (o.Got? ==> 0 <= o.frame < |s'.pages| && s'.pages[o.frame].id == p && s'.pages[o.frame].pin > 0)
  {
    hide CountersOk, Readable;
    VictimTaken(s);
    if p in s.table {
      PinHit(s, p);
      assert FrameOk(s, s.table[p]);
    } else if !AllPinned(s) {
      var (victim, s1) := FindVictim(s);
      var f := victim.value;
      var s2 := UpdatePage(s1, f, p);
      assert s2.disk == DiskAfterVictim(s);
      if Readable(s2.disk, p) {
        ReadableBelowCounter(s, p);
        DiskPagesWhole(s, p);
        LoadInv(s, p, ReadPage(s2.disk, p));
        LoadShape(s, p, ReadPage(s2.disk, p));
      } else {
        assert FrameOk(s, f);
        assert !FrameOk(s2, f);
      }
    }
  }

  lemma {:induction false} ReadableBelowCounter(s: State, p: PageId)
    requires Inv(s) && Readable(DiskAfterVictim(s), p)
    ensures 0 <= p.pageNo < NextOf(s, p.fd)
  {
    var q :| q in DiskAfterVictim(s) && q.fd == p.fd && q.pageNo >= p.pageNo;
    VictimTaken(s);
    assert q in s.disk || q in s.table;
  }

  lemma {:induction false} DiskPagesWhole(s: State, p: PageId)
    requires Inv(s)
    ensures |ReadPage(DiskAfterVictim(s), p)| == PAGE_SIZE
  {
    VictimTaken(s);
    if FindVictim(s).0.Some? { assert FrameOk(s, FindVictim(s).0.value); }
  }

  /** A successful fetch pins the page and shows its current bytes (zeros for a
      page the file skipped), whatever was evicted to make room. */
  lemma {:induction false} FetchEffect(s: State, p: PageId)
    requires Inv(s) && NoLoss(s) && Fetch(s, p).1.Got?
    ensures var (s', o) := Fetch(s, p);
            && NoLoss(s') && s'.next == s.next
            && s'.table.Keys >= {p} && s'.table[p] == o.frame
            && Content(s', p) == (if Exists(s, p) then Content(s, p) else Zeros())
            && PinCount(s', p) == PinCount(s, p) + 1
            && forall q :: q != p ==> SameFor(s, s', q)
  {
    if p !in s.table {
      VictimTaken(s);
      var data := ReadPage(DiskAfterVictim(s), p);
      ReadableBelowCounter(s, p);
      LoadEffect(s, p, data);
      LoadShape(s, p, data);
      assert Fetch(s, p).0 == Load(s, p, data);
      DiskAfterVictimAt(s, p);
    } else {
      HitOther(s, p);
    }
  }

  lemma {:induction false} DiskAfterVictimAt(s: State, p: PageId)
    requires Inv(s) && p !in s.table
    ensures p in DiskAfterVictim(s) <==> p in s.disk
    ensures p in s.disk ==> DiskAfterVictim(s)[p] == s.disk[p]
  {
    VictimTaken(s);
  }

  /** An existing page can always be read. */
  lemma {:induction false} ExistingReadable(s: State, p: PageId)
    requires Inv(s) && Exists(s, p)
    ensures Fetch(s, p).1 != ReadFailed
  {
    FetchKeeps(s, p);
    if p !in s.table {
      DiskAfterVictimAt(s, p);
    }
  }

  lemma {:induction false} HitOther(s: State, p: PageId)
    requires Inv(s) && NoLoss(s) && p in s.table
    ensures NoLoss(Fetch(s, p).0)
    ensures forall q :: q != p ==> SameFor(s, Fetch(s, p).0, q)
  {
    assert FrameOk(s, s.table[p]);
  }

  // ----- Unpin -----

  lemma {:induction false} UnpinKeeps(s: State, p: PageId, dirty: bool)
    requires Inv(s)
    ensures Inv(Unpin(s, p, dirty).0)
    ensures Unpin(s, p, dirty).1 == Done(PinCount(s, p) > 0)
  {
    var s' := Unpin(s, p, dirty).0;
    forall g | 0 <= g < |s'.pages| ensures FrameOk(s', g) {
      assert FrameOk(s, g);
    }
    if p in s.table { assert FrameOk(s, s.table[p]); }
  }

  /** Unpinning changes one pin count and no bytes. Afterwards nothing can be
      lost unless it was the last pin of a clean page whose bytes the disk does
      not have. */
  lemma {:induction false} UnpinEffect(s: State, p: PageId, dirty: bool)
    requires Inv(s) && NoLoss(s)
    ensures var s' := Unpin(s, p, dirty).0;
            && s'.next == s.next && s'.table == s.table && s'.disk == s.disk
            && (Exists(s, p) ==> Content(s', p) == Content(s, p))
            && PinCount(s', p) == (if PinCount(s, p) > 0 then PinCount(s, p) - 1 else PinCount(s, p))
            && (forall q :: q != p ==> SameFor(s, s', q))
            && (NoLoss(s') <==>
                !(PinCount(s, p) == 1 && !dirty && !s.pages[s.table[p]].dirty && !Synced(s, p)))
  {
    var s' := Unpin(s, p, dirty).0;
    if PinCount(s, p) == 1 && !dirty && !s.pages[s.table[p]].dirty && !Synced(s, p) {
      assert !Synced(s', p);
    }
  }

  // ----- Flush -----

  lemma {:induction false} FlushKeeps(s: State, p: PageId)
    requires Inv(s)
    ensures Inv(Flush(s, p).0)
  {
    var s' := Flush(s, p).0;
    if p in s.table { assert FrameOk(s, s.table[p]); }
    forall g | 0 <= g < |s'.pages| ensures FrameOk(s', g) {
      assert FrameOk(s, g);
    }
  }

  /** Flushing a page in memory puts its current bytes on disk. */
  lemma {:induction false} FlushEffect(s: State, p: PageId)
    requires Inv(s) && NoLoss(s)
    ensures var s' := Flush(s, p).0;
            && NoLoss(s') && s'.next == s.next
            && (p in s.table ==> Synced(s', p))
            && forall q :: SameFor(s, s', q)
  {
  }

  // ----- New -----

  ghost function Bumped(s: State, fd: int): State {
    s.(next := s.next[fd := NextOf(s, fd) + 1])
  }

  lemma {:induction false} BumpInv(s: State, fd: int)
    requires Inv(s)
    ensures Inv(Bumped(s, fd)) && Shape(Bumped(s, fd))
    ensures NoLoss(s) ==> NoLoss(Bumped(s, fd))
    ensures forall q :: SameFor(s, Bumped(s, fd), q)
  {
    var s' := Bumped(s, fd);
    forall g | 0 <= g < |s'.pages| ensures FrameOk(s', g) {
      assert FrameOk(s, g);
    }
    assert forall d :: NextOf(s', d) >= NextOf(s, d) >= 0;
  }

  /** A new page is a load of zeros under the next page number, which is unused. */
  lemma {:induction false} NewIsLoad(s: State, fd: int)
    requires Inv(s)
    ensures !Exists(s, PageId(fd, NextOf(s, fd)))
    ensures NextOf(s, fd) >= 0
    ensures FindVictim(s).0 == FindVictim(Bumped(s, fd)).0
    ensures New(s, fd).1.Created? <==> FindVictim(s).0.Some?
    ensures FindVictim(s).0.Some? ==>
              var p := PageId(fd, NextOf(s, fd));
              New(s, fd) == (Load(Bumped(s, fd), p, Zeros()), Created(FindVictim(s).0.value, p))
  {
  }

  /** A new page gets the next number of its file; it fails exactly when every
      frame is pinned, and then changes nothing. */
  lemma {:induction false} NewKeeps(s: State, fd: int)
    requires Inv(s)
    ensures var (s', o) := New(s, fd);
            && Inv(s')
            && (o == NoFrame <==> AllPinned(s)) && (o == NoFrame ==> s' == s)
            && (o != NoFrame ==> o.Created? && o.id == PageId(fd, NextOf(s, fd)) && !Exists(s, o.id)
                                 && NextOf(s', fd) == NextOf(s, fd) + 1)
  {
    VictimTaken(s);
    NewIsLoad(s, fd);
    if !AllPinned(s) {
      var p := PageId(fd, NextOf(s, fd));
      BumpInv(s, fd);
      LoadInv(Bumped(s, fd), p, Zeros());
      LoadShape(Bumped(s, fd), p, Zeros());
    }
  }

  /** Its bytes are zero, it is pinned once, and no other page notices. */
  lemma {:induction false} NewEffect(s: State, fd: int)
    requires Shape(s) && Inv(s) && NoLoss(s) && New(s, fd).1.Created?
    ensures var (s', o) := New(s, fd);
            && NoLoss(s') && o.id in s'.table && s'.table[o.id] == o.frame
            && Content(s', o.id) == Zeros() && PinCount(s', o.id) == 1
            && (forall d :: d != fd ==> NextOf(s', d) == NextOf(s, d))
            && forall q :: q != o.id ==> SameFor(s, s', q)
  {
    hide Inv, NoLoss, New, Load, FindVictim;
    var p := PageId(fd, NextOf(s, fd));
    BumpInv(s, fd);
    NewIsLoad(s, fd);
    LoadEffect(Bumped(s, fd), p, Zeros());
    LoadShape(Bumped(s, fd), p, Zeros());
    forall q | q != p ensures SameFor(s, New(s, fd).0, q) {
      assert SameFor(s, Bumped(s, fd), q);
      assert SameFor(Bumped(s, fd), New(s, fd).0, q);
    }
  }

  // ----- Delete -----

  lemma {:induction false} DeleteKeeps(s: State, p: PageId)
    requires Inv(s)
    ensures Inv(Delete(s, p).0)
    ensures Delete(s, p).1 == Done(PinCount(s, p) == 0)
  {
    if p in s.table {
      var f, s' := s.table[p], Delete(s, p).0;
      assert FrameOk(s, f);
      WithoutDistinct(s.lru, f);
      if s.pages[f].pin == 0 {
        DeleteFrames(s, p);
      }
    }
  }

  lemma {:induction false} DeleteFrames(s: State, p: PageId)
    requires Inv(s) && p in s.table && s.pages[s.table[p]].pin == 0
    ensures FramesOk(Delete(s, p).0)
  {
    var f, s' := s.table[p], Delete(s, p).0;
    WithoutDistinct(s.lru, f);
    forall g | 0 <= g < |s'.pages| ensures FrameOk(s', g) {
      assert FrameOk(s, g);
      assert FrameOk(s, f);
    }
  }

  /** Deleting a page from the pool does not lose its bytes. */
  lemma {:induction false} DeleteEffect(s: State, p: PageId)
    requires Inv(s) && NoLoss(s)
    ensures var s' := Delete(s, p).0;
            NoLoss(s') && s'.next == s.next && forall q :: SameFor(s, s', q)
  {
    if p in s.table { assert FrameOk(s, s.table[p]); }
  }

  // ----- Flush all -----

  lemma {:induction false} FlushAllKeeps(s: State, fd: int)
    requires Inv(s)
    ensures Inv(FlushAll(s, fd))
  {
    assert forall p :: p in s.table ==> FrameOk(s, s.table[p]);
    var s' := FlushAll(s, fd);
    forall g | 0 <= g < |s'.pages| ensures FrameOk(s', g) {
      assert FrameOk(s, g);
    }
  }

  /** After `flush_all_pages` every page of the file that could be evicted is on disk as it is. */
  lemma {:induction false} FlushAllEffect(s: State, fd: int)
    requires Inv(s) && NoLoss(s)
    ensures var s' := FlushAll(s, fd);
            && NoLoss(s') && s'.next == s.next && s'.table == s.table
            && (forall q :: SameFor(s, s', q))
            && (forall q: PageId :: q.fd == fd && Exists(s, q) && PinCount(s, q) == 0 ==>
                  q in s'.disk && s'.disk[q] == Content(s, q))
  {
  }

  // ----- Client steps -----

  lemma {:induction false} WriteKeeps(s: State, p: PageId, data: bytes)
    requires Inv(s) && |data| == PAGE_SIZE
    ensures Inv(Write(s, p, data))
  {
    var s' := Write(s, p, data);
    forall g | 0 <= g < |s'.pages| ensures FrameOk(s', g) {
      assert FrameOk(s, g);
    }
  }

  /** Writing into a pinned frame changes that page's bytes only. */
  lemma {:induction false} WriteEffect(s: State, p: PageId, data: bytes)
    requires Inv(s) && NoLoss(s) && PinCount(s, p) > 0
    ensures var s' := Write(s, p, data);
            && NoLoss(s') && s'.next == s.next && s'.table == s.table && s'.disk == s.disk
            && Content(s', p) == data && PinCount(s', p) == PinCount(s, p)
            && forall q :: q != p ==> SameFor(s, s', q)
  {
  }

  lemma {:induction false} MarkKeeps(s: State, p: PageId)
    requires Inv(s)
    ensures Inv(MarkDirty(s, p))
  {
    var s' := MarkDirty(s, p);
    forall g | 0 <= g < |s'.pages| ensures FrameOk(s', g) {
      assert FrameOk(s, g);
    }
  }

  lemma {:induction false} MarkEffect(s: State, p: PageId)
    requires Inv(s) && NoLoss(s)
    ensures var s' := MarkDirty(s, p);
            && NoLoss(s') && s'.next == s.next && s'.table == s.table && s'.disk == s.disk
            && (p in s.table ==> s'.pages[s.table[p]].dirty)
            && forall q :: SameFor(s, s', q)
  {
  }

  // ----- Sizes -----

  /** The free list and the replacer's list together hold at most as many
      frames as the pool has. */
  lemma {:induction false} ListsFit(s: State)
    requires Inv(s)
    ensures |s.free| + |s.lru| <= |s.pages|
  {
    var l := s.free + s.lru;
    forall i, j | 0 <= i < j < |l| ensures l[i] != l[j] {
      if i < |s.free| <= j {
        assert FrameOk(s, s.free[i]);
        assert s.lru[j - |s.free|] in s.lru && s.free[i] in s.free;
      }
    }
    Pigeonhole(l, |s.pages|);
  }
}
