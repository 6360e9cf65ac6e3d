/** The buffer pool manager as an object (src/storage/buffer_pool_manager.cpp),
    each method proved against the corresponding step of `Pool`. */
module BufferPool {
  import opened Common
  import opened Pool
  import PoolInvariant
  import opened LruReplacers

  /** Pages on disk and the page counter of each file (src/storage/disk_manager.cpp). */
  class DiskManager {
    var pages: map<PageId, bytes>
    var next: map<int, int>

    /** No file has a page yet. */
    constructor ()
      ensures pages == map[] && next == map[]
    {
      pages, next := map[], map[];
    }

    method WritePage(p: PageId, data: bytes)
      modifies this`pages
      ensures pages == old(pages)[p := data]
    {
      pages := pages[p := data];
    }

    /** Fails when the file does not reach the page. */
    method ReadPage(p: PageId) returns (r: Option<bytes>)
      ensures r == if Readable(pages, p) then Some(Pool.ReadPage(pages, p)) else None
    {
      if Readable(pages, p) {
        return Some(Pool.ReadPage(pages, p));
      }
      return None;
    }

    /** `set_fd2pageno`: where the page numbers of an opened file go on. */
    method SetPageCounter(fd: int, pageNo: int)
      modifies this`next
      ensures next == old(next)[fd := pageNo]
    {
      next := next[fd := pageNo];
    }

    method AllocatePage(fd: int) returns (pageNo: int)
      modifies this`next
      ensures pageNo == (if fd in old(next) then old(next)[fd] else 0)
      ensures next == old(next)[fd := pageNo + 1]
    {
      pageNo := if fd in next then next[fd] else 0;
      next := next[fd := pageNo + 1];
    }
  }

  /** `flush_all_pages` at one page-table entry. */
  ghost function FlushEntry(s: State, fd: int, p: PageId): State
    requires Shape(s) && p in s.table
  {
    var f := s.table[p];
    var g := s.pages[f];
    if p.fd == fd && g.dirty
    then s.(disk := s.disk[g.id := g.data], pages := s.pages[f := g.(dirty := false)])
    else s
  }

  /** The state after the entries in `done` were visited. */
  ghost function Visited(s: State, fd: int, done: set<PageId>): (s': State)
    requires Shape(s)
    ensures Shape(s')
  {
    s.(disk := s.disk + map p | p in s.table && p in done && Flushed(s, p, fd) :: s.pages[s.table[p]].data,
       pages := seq(|s.pages|, f requires 0 <= f < |s.pages| =>
         var g := s.pages[f];
         if g.id in done && g.id in s.table && s.table[g.id] == f && g.id.fd == fd then g.(dirty := false) else g))
  }

  lemma {:induction false} VisitPages(s: State, fd: int, done: set<PageId>, p: PageId)
    requires TableOk(s) && p in s.table && p !in done
    ensures FlushEntry(Visited(s, fd, done), fd, p).pages == Visited(s, fd, done + {p}).pages
  {
    var s1, s2 := FlushEntry(Visited(s, fd, done), fd, p), Visited(s, fd, done + {p});
    forall f | 0 <= f < |s.pages| ensures s1.pages[f] == s2.pages[f] {
      if f == s.table[p] { assert s.pages[f].id == p; }
    }
  }

  lemma {:induction false} VisitDisk(s: State, fd: int, done: set<PageId>, p: PageId)
    requires TableOk(s) && p in s.table && p !in done
    ensures FlushEntry(Visited(s, fd, done), fd, p).disk == Visited(s, fd, done + {p}).disk
  {
    assert Visited(s, fd, done).pages[s.table[p]] == s.pages[s.table[p]];
  }

  /** The order of the visits does not matter. */
  lemma {:induction false} VisitOne(s: State, fd: int, done: set<PageId>, p: PageId)
    requires TableOk(s) && p in s.table && p !in done
    ensures FlushEntry(Visited(s, fd, done), fd, p) == Visited(s, fd, done + {p})
  {
    VisitPages(s, fd, done, p);
    VisitDisk(s, fd, done, p);
  }

  lemma {:induction false} VisitNone(s: State, fd: int)
    requires Shape(s)
    ensures Visited(s, fd, {}) == s
  {
    assert Visited(s, fd, {}).pages == s.pages;
  }

  lemma {:induction false} VisitAll(s: State, fd: int)
    requires TableOk(s)
    ensures Visited(s, fd, s.table.Keys) == FlushAll(s, fd)
  {
    assert Visited(s, fd, s.table.Keys).pages == FlushAll(s, fd).pages;
    assert Visited(s, fd, s.table.Keys).disk == FlushAll(s, fd).disk;
  }

  class BufferPoolManager {
    const pages: array<Page>
    const replacer: LruReplacer
    const disk: DiskManager
    var pageTable: map<PageId, int>
    var freeList: seq<int>

    ghost function Repr(): set<object> {
      {this, pages, replacer, disk}
    }

    ghost function State(): State
      reads this, pages, replacer, disk
    {
      Pool.State(pages[..], pageTable, freeList, replacer.Frames(), disk.pages, disk.next)
    }

    ghost predicate Valid()
      reads this, pages, replacer, disk
    {
      replacer.Valid() && replacer.maxSize == pages.Length && Shape(State())
    }

    /** All frames start out free. */
    constructor (poolSize: nat, disk: DiskManager)
      ensures Valid() && fresh(Repr() - {disk}) && this.disk == disk
      ensures State() == Fresh(poolSize, disk.pages, disk.next)
    {
      this.disk := disk;
      pages := new Page[poolSize](_ => Page(PageId(-1, INVALID_PAGE_ID), Zeros(), false, 0));
      replacer := new LruReplacer(poolSize);
      pageTable := map[];
      freeList := [];
      new;
      for i := 0 to poolSize
        invariant freeList == seq(i, k => k)
        invariant pageTable == map[] && replacer.Valid() && replacer.Frames() == []
        invariant forall f :: 0 <= f < poolSize ==> pages[f] == Page(PageId(-1, INVALID_PAGE_ID), Zeros(), false, 0)
      {
        freeList := freeList + [i];
      }
      assert pages[..] == Fresh(poolSize, disk.pages, disk.next).pages;
    }

    /** The replacer never holds more frames than it was made for. */
    lemma {:induction false} ReplacerFits()
      requires Valid() && Inv(State())
      ensures |replacer.Frames()| <= replacer.maxSize
    {
      PoolInvariant.ListsFit(State());
    }

    method SetPage(f: int, page: Page)
      requires 0 <= f < pages.Length
      modifies pages
      ensures pages[..] == old(pages[..])[f := page]
    {
      pages[f] := page;
    }

    method FindVictimPage() returns (ok: bool, frame: int)
      requires Valid()
      modifies this`freeList, replacer
      ensures Valid()
      ensures State() == old(FindVictim(State())).1
      ensures old(FindVictim(State())).0 == if ok then Some(frame) else None
    {
      frame := 0;
      if freeList != [] {
        frame := freeList[0];
        freeList := freeList[1..];
        return true, frame;
      }
      ok, frame := replacer.Victim();
    }

    method UpdatePage(frame: int, newId: PageId)
      requires Valid() && 0 <= frame < pages.Length
      modifies this`pageTable, pages, disk`pages
      ensures Valid()
      ensures State() == Pool.UpdatePage(old(State()), frame, newId)
    {
      var oldId := pages[frame].id;
      if oldId.pageNo != INVALID_PAGE_ID {
        if pages[frame].dirty {
          disk.WritePage(oldId, pages[frame].data);
          SetPage(frame, pages[frame].(dirty := false));
        }
        pageTable := pageTable - {oldId};
      }
      if newId.pageNo != INVALID_PAGE_ID {
        pageTable := pageTable[newId := frame];
        SetPage(frame, pages[frame].(id := newId));
        SetPage(frame, pages[frame].(data := Zeros()));
      } else {
        SetPage(frame, Page(newId, Zeros(), false, 0));
      }
    }

    method FetchPage(p: PageId) returns (o: Outcome)
      requires Valid()
      modifies Repr()
      ensures Valid()
      ensures (State(), o) == Fetch(old(State()), p)
    {
      if p in pageTable {
        var f := pageTable[p];
        SetPage(f, pages[f].(pin := pages[f].pin + 1));
        replacer.Pin(f);
        return Got(f);
      }
      var ok, f := FindVictimPage();
      if !ok {
        return NoFrame;
      }
      UpdatePage(f, p);
      var read := disk.ReadPage(p);
      if read.None? {
        return ReadFailed;
      }
      SetPage(f, pages[f].(data := read.value, pin := 1, dirty := false));
      replacer.Pin(f);
      return Got(f);
    }

    method UnpinPage(p: PageId, dirty: bool) returns (o: Outcome)
      requires Valid()
      modifies pages, replacer
      ensures Valid()
      ensures (State(), o) == Unpin(old(State()), p, dirty)
    {
      if p !in pageTable {
        return Done(false);
      }
      var f := pageTable[p];
      if pages[f].pin <= 0 {
        return Done(false);
      }
      SetPage(f, pages[f].(pin := pages[f].pin - 1, dirty := pages[f].dirty || dirty));
      if pages[f].pin == 0 {
        replacer.Unpin(f);
      }
      return Done(true);
    }

    method FlushPage(p: PageId) returns (o: Outcome)
      requires Valid()
      modifies pages, disk`pages
      ensures Valid()
      ensures (State(), o) == Flush(old(State()), p)
    {
      if p !in pageTable {
        return Done(false);
      }
      var f := pageTable[p];
      disk.WritePage(pages[f].id, pages[f].data);
      SetPage(f, pages[f].(dirty := false));
      return Done(true);
    }

    method NewPage(fd: int) returns (o: Outcome)
      requires Valid() && 0 <= fd < MAX_FD
      modifies Repr()
      ensures Valid()
      ensures (State(), o) == New(old(State()), fd)
    {
      var ok, f := FindVictimPage();
      if !ok {
        return NoFrame;
      }
      var pageNo := disk.AllocatePage(fd);
      if pageNo == INVALID_PAGE_ID {
        return NoFrame;
      }
      var p := PageId(fd, pageNo);
      UpdatePage(f, p);
      SetPage(f, pages[f].(pin := 1, dirty := false));
      replacer.Pin(f);
      return Created(f, p);
    }

    method DeletePage(p: PageId) returns (o: Outcome)
      requires Valid()
      modifies Repr()
      ensures Valid()
      ensures (State(), o) == Delete(old(State()), p)
    {
      if p !in pageTable {
        return Done(true);
      }
      var f := pageTable[p];
      if pages[f].pin > 0 {
        return Done(false);
      }
      if pages[f].dirty {
        disk.WritePage(pages[f].id, pages[f].data);
      }
      pageTable := pageTable - {p};
      SetPage(f, Page(PageId(pages[f].id.fd, INVALID_PAGE_ID), Zeros(), false, 0));
      replacer.Pin(f);
      freeList := freeList + [f];
      return Done(true);
    }

    /** Writes the dirty pages of a file back, in whatever order the page table
        lists them. */
    method FlushAllPages(fd: int)
      requires Valid() && TableOk(State())
      modifies pages, disk`pages
      ensures Valid()
      ensures State() == FlushAll(old(State()), fd)
    {
      ghost var s := State();
      var todo := pageTable.Keys;
      VisitNone(s, fd);
      assert pageTable.Keys - todo == {};
      while todo != {}
        invariant replacer.Valid() && pageTable == s.table && todo <= pageTable.Keys
        invariant State() == Visited(s, fd, pageTable.Keys - todo)
        decreases todo
      {
        var p :| p in todo;
        FlushAt(p, fd);
        VisitOne(s, fd, pageTable.Keys - todo, p);
        assert pageTable.Keys - (todo - {p}) == pageTable.Keys - todo + {p};
        todo := todo - {p};
      }
      assert pageTable.Keys - todo == pageTable.Keys;
      VisitAll(s, fd);
    }

    method FlushAt(p: PageId, fd: int)
      requires Valid() && p in pageTable
      modifies pages, disk`pages
      ensures Valid()
      ensures State() == FlushEntry(old(State()), fd, p)
    {
      if p.fd == fd {
        var f := pageTable[p];
        if pages[f].dirty {
          disk.WritePage(pages[f].id, pages[f].data);
          SetPage(f, pages[f].(dirty := false));
        }
      }
    }

    /** A client that holds the frame of page `p` writes its bytes. */
    method WriteFrame(p: PageId, frame: int, data: bytes)
      requires Valid() && p in pageTable && pageTable[p] == frame
      modifies pages
      ensures Valid()
      ensures State() == Write(old(State()), p, data)
    {
      SetPage(frame, pages[frame].(data := data));
    }

    method MarkDirty(p: PageId, frame: int)
      requires Valid() && p in pageTable && pageTable[p] == frame
      modifies pages
      ensures Valid()
      ensures State() == Pool.MarkDirty(old(State()), p)
    {
      SetPage(frame, pages[frame].(dirty := true));
    }
  }
}
