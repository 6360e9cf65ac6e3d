/** The buffer pool as a state machine (src/storage/buffer_pool_manager.cpp,
    src/replacer/lru_replacer.cpp): every public operation holds the latch for
    its whole body, so each is one atomic step on the state. */
module Pool {
  import opened Common

  const INVALID_PAGE_ID := -1
  const MAX_FD := 8192

  datatype PageId = PageId(fd: int, pageNo: int)

  /** A frame: the page it holds (none if `id.pageNo` is invalid). */
  datatype Page = Page(id: PageId, data: bytes, dirty: bool, pin: int)

  /** `lru` is the replacer's list, most recently unpinned frame first. `disk`
      holds the pages written so far, `next` the page counter of each file
      (zero if absent). */
  datatype State = State(pages: seq<Page>, table: map<PageId, int>, free: seq<int>, lru: seq<int>,
                         disk: map<PageId, bytes>, next: map<int, int>)

  datatype Outcome =
    | Got(frame: int)
    | Created(frame: int, id: PageId)
    | NoFrame
    | ReadFailed
    | Done(ok: bool)

  function Zeros(): (z: bytes)
    ensures |z| == PAGE_SIZE
  {
    seq(PAGE_SIZE, _ => 0)
  }

  function NextOf(s: State, fd: int): int {
    if fd in s.next then s.next[fd] else 0
  }

  // ----- Disk -----

  /** A page can be read if the file reaches past it. */
  predicate Readable(disk: map<PageId, bytes>, p: PageId) {
    p.pageNo >= 0 && exists q :: q in disk && q.fd == p.fd && q.pageNo >= p.pageNo
  }

  /** A page that was skipped over when a later one was written reads as zeros. */
  function ReadPage(disk: map<PageId, bytes>, p: PageId): bytes {
    if p in disk then disk[p] else Zeros()
  }

  // ----- Invariant: frames, page table, lists -----

  /** Every index is a frame number. */
  predicate Shape(s: State) {
    && (forall p :: p in s.table ==> 0 <= s.table[p] < |s.pages|)
    && InRange(s.free, |s.pages|) && InRange(s.lru, |s.pages|)
  }

  predicate InRange(l: seq<int>, n: nat) {
    forall i :: 0 <= i < |l| ==> 0 <= l[i] < n
  }

  /** The page table is a bijection with the frames that hold a page. */
  ghost predicate TableOk(s: State) {
    && Shape(s)
    && (forall p :: p in s.table ==> s.pages[s.table[p]].id == p && p.pageNo != INVALID_PAGE_ID)
    && (forall f :: 0 <= f < |s.pages| && s.pages[f].id.pageNo != INVALID_PAGE_ID ==>
          s.pages[f].id in s.table && s.table[s.pages[f].id] == f)
  }

  /** Each frame is in exactly one of: the free list, the evictable list, pinned. */
  ghost predicate FrameOk(s: State, f: int)
    requires 0 <= f < |s.pages|
  {
    var g := s.pages[f];
    && |g.data| == PAGE_SIZE && g.pin >= 0
    && (f in s.free <==> g.id.pageNo == INVALID_PAGE_ID)
    && (f in s.lru <==> g.id.pageNo != INVALID_PAGE_ID && g.pin == 0)
    && (g.id.pageNo == INVALID_PAGE_ID ==> g.pin == 0 && !g.dirty)
  }

  ghost predicate FramesOk(s: State) {
    && (forall f :: 0 <= f < |s.pages| ==> FrameOk(s, f))
    && Distinct(s.free) && Distinct(s.lru)
  }

  /** The page counters are past every page in memory or on disk. */
  ghost predicate CountersOk(s: State) {
    && (forall fd :: fd in s.next ==> s.next[fd] >= 0)
    && (forall p :: p in s.table ==> 0 <= p.pageNo < NextOf(s, p.fd))
    && (forall p :: p in s.disk ==> 0 <= p.pageNo < NextOf(s, p.fd) && |s.disk[p]| == PAGE_SIZE)
  }

  ghost predicate Inv(s: State) {
    TableOk(s) && FramesOk(s) && CountersOk(s)
  }

  /** The pool a constructor builds: all frames free. */
  function Fresh(n: nat, disk: map<PageId, bytes>, next: map<int, int>): State {
    State(seq(n, _ => Page(PageId(-1, INVALID_PAGE_ID), Zeros(), false, 0)), map[], seq(n, i => i), [], disk, next)
  }

  // ----- Operations -----

  function Without(l: seq<int>, f: int): (r: seq<int>)
    ensures forall x :: x in r <==> x in l && x != f
    ensures forall n: nat :: InRange(l, n) ==> InRange(r, n)
  {
    if l == [] then [] else
    assert forall n: nat :: InRange(l, n) ==> InRange(l[1..], n);
    if l[0] == f then Without(l[1..], f) else [l[0]] + Without(l[1..], f)
  }

  /** `find_victim_page`: the first free frame, else the least recently unpinned one. */
  function FindVictim(s: State): (r: (Option<int>, State))
    requires Shape(s)
    ensures Shape(r.1) && (r.0.Some? ==> 0 <= r.0.value < |s.pages|)
  {
    if s.free != [] then (Some(s.free[0]), s.(free := s.free[1..]))
    else if s.lru != [] then (Some(s.lru[|s.lru| - 1]), s.(lru := s.lru[..|s.lru| - 1]))
    else (None, s)
  }

  /** `update_page`: writes the old page of frame `f` back if it is dirty, and
      hands the frame over to page `p`. */
  function UpdatePage(s: State, f: int, p: PageId): (s': State)
    requires Shape(s) && 0 <= f < |s.pages|
    ensures Shape(s') && |s'.pages| == |s.pages|
  {
    var was := s.pages[f];
    var held := was.id.pageNo != INVALID_PAGE_ID;
    var disk := if held && was.dirty then s.disk[was.id := was.data] else s.disk;
    var table := if held then s.table - {was.id} else s.table;
    if p.pageNo != INVALID_PAGE_ID then
      s.(disk := disk, table := table[p := f],
         pages := s.pages[f := Page(p, Zeros(), !held && was.dirty, was.pin)])
    else
      s.(disk := disk, table := table, pages := s.pages[f := Page(p, Zeros(), false, 0)])
  }

  /** What both a fetch from disk and a new page end with: frame `f` holds `data`, pinned once. */
  function PinLoaded(s: State, f: int, data: bytes): (s': State)
    requires Shape(s) && 0 <= f < |s.pages|
    ensures Shape(s') && |s'.pages| == |s.pages|
  {
    s.(pages := s.pages[f := s.pages[f].(data := data, pin := 1, dirty := false)], lru := Without(s.lru, f))
  }

  function Fetch(s: State, p: PageId): (r: (State, Outcome))
    requires Shape(s)
    ensures Shape(r.0) && |r.0.pages| == |s.pages|
  {
    if p in s.table then
      var f := s.table[p];
      (s.(pages := s.pages[f := s.pages[f].(pin := s.pages[f].pin + 1)], lru := Without(s.lru, f)), Got(f))
    else
      var (victim, s1) := FindVictim(s);
      if victim.None? then (s, NoFrame) else
      var f := victim.value;
      var s2 := UpdatePage(s1, f, p);
      if !Readable(s2.disk, p) then (s2, ReadFailed) else
      (PinLoaded(s2, f, ReadPage(s2.disk, p)), Got(f))
  }

  function Unpin(s: State, p: PageId, dirty: bool): (r: (State, Outcome))
    requires Shape(s)
    ensures Shape(r.0) && |r.0.pages| == |s.pages|
  {
    if p !in s.table then (s, Done(false)) else
    var f := s.table[p];
    var g := s.pages[f];
    if g.pin <= 0 then (s, Done(false)) else
    (s.(pages := s.pages[f := g.(pin := g.pin - 1, dirty := g.dirty || dirty)],
        lru := if g.pin == 1 && f !in s.lru then [f] + s.lru else s.lru), Done(true))
  }

  function Flush(s: State, p: PageId): (r: (State, Outcome))
    requires Shape(s)
    ensures Shape(r.0) && |r.0.pages| == |s.pages|
  {
    if p !in s.table then (s, Done(false)) else
    var f := s.table[p];
    var g := s.pages[f];
    (s.(pages := s.pages[f := g.(dirty := false)], disk := s.disk[g.id := g.data]), Done(true))
  }

  function New(s: State, fd: int): (r: (State, Outcome))
    requires Shape(s)
    ensures Shape(r.0) && |r.0.pages| == |s.pages|
  {
    var (victim, s1) := FindVictim(s);
    if victim.None? then (s, NoFrame) else
    var f := victim.value;
    var p := PageId(fd, NextOf(s, fd));
    var s2 := s1.(next := s1.next[fd := p.pageNo + 1]);
    if p.pageNo == INVALID_PAGE_ID then (s2, NoFrame) else
    (PinLoaded(UpdatePage(s2, f, p), f, Zeros()), Created(f, p))
  }

  function Delete(s: State, p: PageId): (r: (State, Outcome))
    requires Shape(s)
    ensures Shape(r.0) && |r.0.pages| == |s.pages|
  {
    if p !in s.table then (s, Done(true)) else
    var f := s.table[p];
    var g := s.pages[f];
    if g.pin > 0 then (s, Done(false)) else
    (s.(disk := if g.dirty then s.disk[g.id := g.data] else s.disk,
        table := s.table - {p},
        pages := s.pages[f := Page(PageId(g.id.fd, INVALID_PAGE_ID), Zeros(), false, 0)],
        lru := Without(s.lru, f),
        free := s.free + [f]), Done(true))
  }

  /** Frames that `flush_all_pages` writes: dirty pages of the file. */
  predicate Flushed(s: State, p: PageId, fd: int)
    requires Shape(s)
  {
    p in s.table && p.fd == fd && s.pages[s.table[p]].dirty
  }

  function FlushAll(s: State, fd: int): (s': State)
    requires Shape(s)
    ensures Shape(s') && |s'.pages| == |s.pages|
  {
    s.(disk := s.disk + map p | p in s.table && Flushed(s, p, fd) :: s.pages[s.table[p]].data,
       pages := seq(|s.pages|, f requires 0 <= f < |s.pages| =>
         var g := s.pages[f];
         if g.id in s.table && s.table[g.id] == f && g.id.fd == fd then g.(dirty := false) else g))
  }

  /** A client that holds the page writes into the frame in place. */
  function Write(s: State, p: PageId, data: bytes): (s': State)
    requires Shape(s)
    ensures Shape(s') && |s'.pages| == |s.pages|
  {
    if p !in s.table then s else
    var f := s.table[p];
    s.(pages := s.pages[f := s.pages[f].(data := data)])
  }

  function MarkDirty(s: State, p: PageId): (s': State)
    requires Shape(s)
    ensures Shape(s') && |s'.pages| == |s.pages|
  {
    if p !in s.table then s else
    var f := s.table[p];
    s.(pages := s.pages[f := s.pages[f].(dirty := true)])
  }

  // ----- What a client sees -----

  function PinCount(s: State, p: PageId): int
    requires Shape(s)
  {
    if p in s.table then s.pages[s.table[p]].pin else 0
  }

  ghost predicate AllPinned(s: State) {
    forall f :: 0 <= f < |s.pages| ==> s.pages[f].pin > 0
  }

  /** The page is in memory or on disk. */
  predicate Exists(s: State, p: PageId) {
    p in s.table || p in s.disk
  }

  /** The current bytes of an existing page: its frame if it is in memory. */
  function Content(s: State, p: PageId): bytes
    requires Shape(s) && Exists(s, p)
  {
    if p in s.table then s.pages[s.table[p]].data else s.disk[p]
  }

  ghost predicate Synced(s: State, p: PageId)
    requires Shape(s) && p in s.table
  {
    p in s.disk && s.disk[p] == s.pages[s.table[p]].data
  }

  /** No page that could be evicted holds bytes that would be lost. */
  ghost predicate NoLoss(s: State)
    requires Shape(s)
  {
    forall p :: p in s.table && s.pages[s.table[p]].pin == 0 && !s.pages[s.table[p]].dirty ==> Synced(s, p)
  }
}
