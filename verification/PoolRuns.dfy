/** Whole runs of the buffer pool: transparency of the cache, stability of
    pinned frames, and true LRU eviction. */
module PoolRuns {
  import opened Common
  import opened Pool
  import opened PoolInvariant

  datatype Op =
    | OpFetch(p: PageId)
    | OpUnpin(p: PageId, dirty: bool)
    | OpFlush(p: PageId)
    | OpNew(fd: int)
    | OpDelete(p: PageId)
    | OpFlushAll(fd: int)
    | OpWrite(p: PageId, data: bytes)
    | OpMark(p: PageId)

  function Step(s: State, op: Op): (r: (State, Outcome))
    requires Shape(s)
    ensures Shape(r.0) && |r.0.pages| == |s.pages|
  {
    match op
    case OpFetch(p) => Fetch(s, p)
    case OpUnpin(p, dirty) => Unpin(s, p, dirty)
    case OpFlush(p) => Flush(s, p)
    case OpNew(fd) => New(s, fd)
    case OpDelete(p) => Delete(s, p)
    case OpFlushAll(fd) => (FlushAll(s, fd), Done(true))
    case OpWrite(p, data) => (Write(s, p, data), Done(true))
    case OpMark(p) => (MarkDirty(s, p), Done(true))
  }

  // ----- The plain map a client would like to see -----

  /** Pages are created as zeros and changed by writes; nothing else matters. */
  function PlainStep(m: map<PageId, bytes>, op: Op, o: Outcome): map<PageId, bytes> {
    if op.OpWrite? then m[op.p := op.data]
    else if op.OpNew? && o.Created? then m[o.id := Zeros()]
    else m
  }

  /** The pool, the plain map beside it, the pages changed since they were last
      marked dirty, and the time at which each frame's pin count last became zero. */
  datatype Config = Config(s: State, model: map<PageId, bytes>, unmarked: set<PageId>,
                           clock: nat, zeroAt: map<int, nat>)

  function NextUnmarked(c: Config, op: Op, o: Outcome): set<PageId>
    requires Shape(c.s)
  {
    match op
    case OpWrite(p, _) =>
      if p in c.s.table && !c.s.pages[c.s.table[p]].dirty then c.unmarked + {p} else c.unmarked
    case OpNew(_) => if o.Created? then c.unmarked + {o.id} else c.unmarked
    case OpMark(p) => c.unmarked - {p}
    case OpUnpin(p, dirty) => if dirty then c.unmarked - {p} else c.unmarked
    case OpFlush(p) => c.unmarked - {p}
    case _ => c.unmarked
  }

  function Advance(c: Config, op: Op): Config
    requires Shape(c.s)
  {
    var (s', o) := Step(c.s, op);
    Config(s', PlainStep(c.model, op, o), NextUnmarked(c, op, o), c.clock + 1,
           if op.OpUnpin? && PinCount(c.s, op.p) == 1 then c.zeroAt[c.s.table[op.p] := c.clock] else c.zeroAt)
  }

  /** The client's part: it fetches pages that exist, writes only into pages it
      holds pinned, and marks what it changed before it gives up the last pin. */
  ghost predicate Allowed(c: Config, op: Op)
    requires Shape(c.s)
  {
    match op
    case OpFetch(p) => p in c.model
    case OpUnpin(p, dirty) => PinCount(c.s, p) == 1 && p in c.unmarked ==> dirty
    case OpNew(fd) => 0 <= fd < MAX_FD
    case OpWrite(p, data) => PinCount(c.s, p) > 0 && |data| == PAGE_SIZE
    case OpMark(p) => PinCount(c.s, p) > 0
    case _ => true
  }

  // ----- Invariant of disciplined runs -----

  /** A clean page that was not changed since is on disk as it is. */
  ghost predicate CleanSynced(s: State, unmarked: set<PageId>)
    requires Shape(s)
  {
    forall p :: p in s.table && !s.pages[s.table[p]].dirty && p !in unmarked ==> Synced(s, p)
  }

  ghost predicate Tracks(s: State, m: map<PageId, bytes>)
    requires Shape(s)
  {
    && s.table.Keys <= m.Keys
    && forall p :: p in m ==> Exists(s, p) && Content(s, p) == m[p]
  }

  ghost predicate UnmarkedPinned(s: State, unmarked: set<PageId>)
    requires Shape(s)
  {
    forall p :: p in unmarked ==> PinCount(s, p) > 0
  }

  /** The evictable frames are listed by the time they became so, latest first. */
  ghost predicate LruOrder(lru: seq<int>, clock: nat, zeroAt: map<int, nat>) {
    && (forall i :: 0 <= i < |lru| ==> lru[i] in zeroAt && zeroAt[lru[i]] < clock)
    && (forall i, j :: 0 <= i < j < |lru| ==> zeroAt[lru[i]] > zeroAt[lru[j]])
  }

  ghost predicate Good(c: Config) {
    && Inv(c.s)
    && Tracks(c.s, c.model) && CleanSynced(c.s, c.unmarked) && UnmarkedPinned(c.s, c.unmarked)
    && LruOrder(c.s.lru, c.clock, c.zeroAt)
  }

  lemma {:induction false} GoodNoLoss(c: Config)
    requires Good(c)
    ensures NoLoss(c.s)
  {
  }

  // ----- Each step keeps it -----

  lemma {:induction false} StepKeepsInv(s: State, op: Op)
    requires Inv(s) && (op.OpWrite? ==> |op.data| == PAGE_SIZE)
    ensures Inv(Step(s, op).0) <==> Step(s, op).1 != ReadFailed
  {
    match op
    case OpFetch(p) => FetchKeeps(s, p);
    case OpUnpin(p, dirty) => UnpinKeeps(s, p, dirty);
    case OpFlush(p) => FlushKeeps(s, p);
    case OpNew(fd) => NewKeeps(s, fd);
    case OpDelete(p) => DeleteKeeps(s, p);
    case OpFlushAll(fd) => FlushAllKeeps(s, fd);
    case OpWrite(p, data) => WriteKeeps(s, p, data);
    case OpMark(p) => MarkKeeps(s, p);
  }

  /** If only page `p` changed, and to `data`, so did the plain map. */
  lemma {:induction false} TracksOne(s: State, s': State, m: map<PageId, bytes>, p: PageId, data: bytes)
    requires Shape(s) && Shape(s') && Tracks(s, m)
    requires Exists(s', p) && Content(s', p) == data && s'.table.Keys <= s.table.Keys + {p}
    requires forall q :: q != p ==> SameFor(s, s', q)
    ensures Tracks(s', m[p := data])
  {
    forall q | q in m[p := data] ensures Exists(s', q) && Content(s', q) == m[p := data][q] {
      if q != p { assert SameFor(s, s', q); }
    }
  }

  lemma {:induction false} TracksSame(s: State, s': State, m: map<PageId, bytes>)
    requires Shape(s) && Shape(s') && Tracks(s, m) && s'.table.Keys <= s.table.Keys
    requires forall q :: SameFor(s, s', q)
    ensures Tracks(s', m)
  {
    forall q | q in m ensures Exists(s', q) && Content(s', q) == m[q] {
      assert SameFor(s, s', q);
    }
  }

  lemma {:induction false} FetchTracks(c: Config, p: PageId)
    requires Good(c) && p in c.model
    ensures Tracks(Fetch(c.s, p).0, c.model)
  {
    GoodNoLoss(c);
    ExistingReadable(c.s, p);
    FetchKeeps(c.s, p);
    if Fetch(c.s, p).1.Got? {
      FetchEffect(c.s, p);
      FetchTable(c.s, p);
      TracksOne(c.s, Fetch(c.s, p).0, c.model, p, c.model[p]);
      assert c.model[p := c.model[p]] == c.model;
    }
  }

  /** Pages come into memory only by being asked for. */
  lemma {:induction false} FetchTable(s: State, p: PageId)
    requires Inv(s) && Fetch(s, p).1.Got?
    ensures Fetch(s, p).0.table.Keys <= s.table.Keys + {p}
  {
    VictimTaken(s);
    if p !in s.table {
      LoadShapeOfFetch(s, p);
    }
  }

  lemma {:induction false} LoadShapeOfFetch(s: State, p: PageId)
    requires Inv(s) && p !in s.table && Fetch(s, p).1.Got?
    ensures FindVictim(s).0.Some? && p.pageNo != INVALID_PAGE_ID
    ensures Fetch(s, p) == (Load(s, p, ReadPage(DiskAfterVictim(s), p)), Got(FindVictim(s).0.value))
    ensures var f, s1, s' := FindVictim(s).0.value, FindVictim(s).1, Fetch(s, p).0;
            && s'.pages == s.pages[f := Page(p, ReadPage(DiskAfterVictim(s), p), false, 1)]
            && s'.table == (if f in s.free then s.table else s.table - {s.pages[f].id})[p := f]
            && s'.lru == s1.lru && s'.disk == DiskAfterVictim(s)
  {
    VictimTaken(s);
    assert FrameOk(s, FindVictim(s).0.value);
    LoadShape(s, p, ReadPage(DiskAfterVictim(s), p));
  }

  lemma {:induction false} FetchSynced(c: Config, p: PageId)
    requires Good(c) && p in c.model
    ensures CleanSynced(Fetch(c.s, p).0, c.unmarked)
  {
    var s := c.s;
    ExistingReadable(s, p);
    FetchKeeps(s, p);
    if p !in s.table && Fetch(s, p).1.Got? {
      LoadShapeOfFetch(s, p);
      DiskAfterVictimAt(s, p);
      VictimTaken(s);
      assert FrameOk(s, FindVictim(s).0.value);
    }
  }

  lemma {:induction false} NewShape(s: State, fd: int)
    requires Inv(s) && New(s, fd).1.Created?
    ensures var p := PageId(fd, NextOf(s, fd));
            var f, s1, s' := FindVictim(s).0.value, FindVictim(s).1, New(s, fd).0;
            && FindVictim(s).0.Some? && p !in s.table
            && New(s, fd).1 == Created(f, p)
            && s'.pages == s.pages[f := Page(p, Zeros(), false, 1)]
            && s'.table == (if f in s.free then s.table else s.table - {s.pages[f].id})[p := f]
            && s'.lru == s1.lru && s'.disk == DiskAfterVictim(s)
  {
    NewIsLoad(s, fd);
    BumpInv(s, fd);
    VictimTaken(s);
    assert FrameOk(s, FindVictim(s).0.value);
    LoadShape(Bumped(s, fd), PageId(fd, NextOf(s, fd)), Zeros());
  }

  lemma {:induction false} NewTracks(c: Config, fd: int)
    requires Good(c)
    ensures Tracks(New(c.s, fd).0, PlainStep(c.model, OpNew(fd), New(c.s, fd).1))
  {
    GoodNoLoss(c);
    NewKeeps(c.s, fd);
    if New(c.s, fd).1.Created? {
      NewEffect(c.s, fd);
      NewShape(c.s, fd);
      TracksOne(c.s, New(c.s, fd).0, c.model, New(c.s, fd).1.id, Zeros());
    }
  }

  lemma {:induction false} NewSynced(c: Config, fd: int)
    requires Good(c)
    ensures CleanSynced(New(c.s, fd).0, NextUnmarked(c, OpNew(fd), New(c.s, fd).1))
  {
    NewKeeps(c.s, fd);
    if New(c.s, fd).1.Created? {
      NewShape(c.s, fd);
      VictimTaken(c.s);
      assert FrameOk(c.s, FindVictim(c.s).0.value);
    }
  }

  lemma {:induction false} ConsOrder(x: int, lru: seq<int>, clock: nat, zeroAt: map<int, nat>)
    requires LruOrder(lru, clock, zeroAt) && x in zeroAt && zeroAt[x] < clock
    requires forall i :: 0 <= i < |lru| ==> zeroAt[lru[i]] < zeroAt[x]
    ensures LruOrder([x] + lru, clock, zeroAt)
  {
    var l := [x] + lru;
    assert forall i :: 0 < i < |l| ==> l[i] == lru[i - 1];
  }

  lemma {:induction false} WithoutLruOrder(lru: seq<int>, f: int, clock: nat, zeroAt: map<int, nat>)
    requires LruOrder(lru, clock, zeroAt)
    ensures LruOrder(Without(lru, f), clock, zeroAt)
  {
    if lru != [] {
      var tail := lru[1..];
      assert forall i :: 0 <= i < |tail| ==> tail[i] == lru[i + 1];
      WithoutLruOrder(tail, f, clock, zeroAt);
      if lru[0] != f {
        var rest := Without(tail, f);
        forall i | 0 <= i < |rest| ensures zeroAt[rest[i]] < zeroAt[lru[0]] {
          assert rest[i] in rest;
          var k :| 0 <= k < |tail| && tail[k] == rest[i];
        }
        ConsOrder(lru[0], rest, clock, zeroAt);
      }
    }
  }

  /** Taking a victim drops at most the oldest entry. */
  lemma {:induction false} VictimLru(s: State)
    requires Shape(s)
    ensures FindVictim(s).1.lru == s.lru || (s.lru != [] && FindVictim(s).1.lru == s.lru[..|s.lru| - 1])
  {
  }

  lemma {:induction false} FetchLru(s: State, p: PageId, clock: nat, zeroAt: map<int, nat>)
    requires Inv(s) && LruOrder(s.lru, clock, zeroAt) && Fetch(s, p).1 != ReadFailed
    ensures LruOrder(Fetch(s, p).0.lru, clock, zeroAt)
  {
    FetchKeeps(s, p);
    if p in s.table {
      WithoutLruOrder(s.lru, s.table[p], clock, zeroAt);
    } else if Fetch(s, p).1.Got? {
      LoadShapeOfFetch(s, p);
      VictimLru(s);
    }
  }

  lemma {:induction false} NewLru(s: State, fd: int, clock: nat, zeroAt: map<int, nat>)
    requires Inv(s) && LruOrder(s.lru, clock, zeroAt)
    ensures LruOrder(New(s, fd).0.lru, clock, zeroAt)
  {
    NewKeeps(s, fd);
    if New(s, fd).1.Created? {
      NewShape(s, fd);
      VictimLru(s);
    }
  }

  lemma {:induction false} UnpinLru(s: State, p: PageId, dirty: bool, clock: nat, zeroAt: map<int, nat>)
    requires Inv(s) && LruOrder(s.lru, clock, zeroAt)
    ensures var zeroAt' := if PinCount(s, p) == 1 then zeroAt[s.table[p] := clock] else zeroAt;
            LruOrder(Unpin(s, p, dirty).0.lru, clock + 1, zeroAt')
  {
    if PinCount(s, p) == 1 {
      var f := s.table[p];
      assert FrameOk(s, f);
      assert forall i :: 0 <= i < |s.lru| ==> s.lru[i] in s.lru;
      ConsOrder(f, s.lru, clock + 1, zeroAt[f := clock]);
    }
  }

  lemma {:induction false} StepLruOrder(s: State, op: Op, clock: nat, zeroAt: map<int, nat>)
    requires Shape(s) && Inv(s) && LruOrder(s.lru, clock, zeroAt) && Step(s, op).1 != ReadFailed
    ensures var zeroAt' := if op.OpUnpin? && PinCount(s, op.p) == 1 then zeroAt[s.table[op.p] := clock] else zeroAt;
            LruOrder(Step(s, op).0.lru, clock + 1, zeroAt')
  {
    hide Inv, LruOrder, Shape;
    LaterOrder(s.lru, clock, zeroAt);
    match op
    case OpFetch(p) => FetchLru(s, p, clock + 1, zeroAt);
    case OpUnpin(p, dirty) => UnpinLru(s, p, dirty, clock, zeroAt);
    case OpNew(fd) => NewLru(s, fd, clock + 1, zeroAt);
    case OpDelete(p) => DeleteLru(s, p, clock + 1, zeroAt);
    case _ =>
  }

  lemma {:induction false} DeleteLru(s: State, p: PageId, clock: nat, zeroAt: map<int, nat>)
    requires Shape(s) && LruOrder(s.lru, clock, zeroAt)
    ensures LruOrder(Delete(s, p).0.lru, clock, zeroAt)
  {
    if p in s.table {
      WithoutLruOrder(s.lru, s.table[p], clock, zeroAt);
    }
  }

  lemma {:induction false} LaterOrder(lru: seq<int>, clock: nat, zeroAt: map<int, nat>)
    requires LruOrder(lru, clock, zeroAt)
    ensures LruOrder(lru, clock + 1, zeroAt)
  {
  }

  // ----- A step of a disciplined run -----

  lemma {:induction false} StepTracks(c: Config, op: Op)
    requires Good(c) && Allowed(c, op)
    ensures Tracks(Advance(c, op).s, Advance(c, op).model)
  {
    GoodNoLoss(c);
    var s, s' := c.s, Step(c.s, op).0;
    match op
    case OpFetch(p) => FetchTracks(c, p);
    case OpUnpin(p, dirty) =>
      UnpinTracks(c, p, dirty);
    case OpFlush(p) =>
      FlushEffect(s, p);
      TracksSame(s, s', c.model);
    case OpNew(fd) => NewTracks(c, fd);
    case OpDelete(p) =>
      DeleteEffect(s, p);
      TracksSame(s, s', c.model);
    case OpFlushAll(fd) =>
      FlushAllEffect(s, fd);
      TracksSame(s, s', c.model);
    case OpWrite(p, data) =>
      WriteEffect(s, p, data);
      TracksOne(s, s', c.model, p, data);
    case OpMark(p) =>
      MarkEffect(s, p);
      TracksSame(s, s', c.model);
  }

  lemma {:induction false} UnpinTracks(c: Config, p: PageId, dirty: bool)
    requires Good(c)
    ensures Tracks(Unpin(c.s, p, dirty).0, c.model)
  {
    GoodNoLoss(c);
    UnpinEffect(c.s, p, dirty);
    var s' := Unpin(c.s, p, dirty).0;
    if p in c.model {
      TracksOne(c.s, s', c.model, p, c.model[p]);
      assert c.model[p := c.model[p]] == c.model;
    } else {
      assert s' == c.s;
    }
  }

  lemma {:induction false} StepSynced(c: Config, op: Op)
    requires Good(c) && Allowed(c, op)
    ensures CleanSynced(Advance(c, op).s, Advance(c, op).unmarked)
  {
    match op
    case OpFetch(p) => FetchSynced(c, p);
    case OpNew(fd) => NewSynced(c, fd);
    case OpUnpin(p, dirty) => UnpinSynced(c, p, dirty);
    case OpFlush(p) => FlushSynced(c, p);
    case OpDelete(p) => DeleteSynced(c, p);
    case OpFlushAll(fd) => FlushAllSynced(c, fd);
    case OpWrite(p, data) => WriteSynced(c, p, data);
    case OpMark(p) => MarkSynced(c, p);
  }

  lemma {:induction false} UnpinSynced(c: Config, p: PageId, dirty: bool)
    requires Good(c)
    ensures CleanSynced(Unpin(c.s, p, dirty).0, NextUnmarked(c, OpUnpin(p, dirty), Done(true)))
  {
  }

  lemma {:induction false} FlushSynced(c: Config, p: PageId)
    requires Good(c)
    ensures CleanSynced(Flush(c.s, p).0, c.unmarked - {p})
  {
  }

  lemma {:induction false} DeleteSynced(c: Config, p: PageId)
    requires Good(c)
    ensures CleanSynced(Delete(c.s, p).0, c.unmarked)
  {
  }

  lemma {:induction false} FlushAllSynced(c: Config, fd: int)
    requires Good(c)
    ensures CleanSynced(FlushAll(c.s, fd), c.unmarked)
  {
  }

  lemma {:induction false} WriteSynced(c: Config, p: PageId, data: bytes)
    requires Good(c)
    ensures CleanSynced(Write(c.s, p, data), NextUnmarked(c, OpWrite(p, data), Done(true)))
  {
  }

  lemma {:induction false} MarkSynced(c: Config, p: PageId)
    requires Good(c)
    ensures CleanSynced(MarkDirty(c.s, p), c.unmarked - {p})
  {
  }

  /** How one step changes the pin count of a page. */
  ghost function PinAfter(s: State, op: Op, q: PageId): int
    requires Shape(s)
  {
    var n, o := PinCount(s, q), Step(s, op).1;
    if op == OpFetch(q) && o.Got? then n + 1
    else if op.OpUnpin? && op.p == q && n > 0 then n - 1
    else if op.OpNew? && o.Created? && o.id == q then 1
    else n
  }

  lemma {:induction false} PinEffect(s: State, op: Op, q: PageId)
    requires Shape(s) && Inv(s) && NoLoss(s) && Step(s, op).1 != ReadFailed
    requires op.OpWrite? ==> PinCount(s, op.p) > 0
    ensures PinCount(Step(s, op).0, q) == PinAfter(s, op, q)
  {
    hide Inv, NoLoss, Fetch, New, Unpin, Flush, Delete, FlushAll, Write, MarkDirty;
    match op
    case OpFetch(p) =>
      FetchKeeps(s, p);
      if Fetch(s, p).1.Got? {
        FetchEffect(s, p);
        assert q != p ==> SameFor(s, Fetch(s, p).0, q);
      }
    case OpUnpin(p, dirty) =>
      UnpinEffect(s, p, dirty);
      assert q != p ==> SameFor(s, Unpin(s, p, dirty).0, q);
    case OpFlush(p) =>
      FlushEffect(s, p);
      assert SameFor(s, Flush(s, p).0, q);
    case OpNew(fd) =>
      NewKeeps(s, fd);
      if New(s, fd).1.Created? {
        NewEffect(s, fd);
        assert q != New(s, fd).1.id ==> SameFor(s, New(s, fd).0, q);
      }
    case OpDelete(p) =>
      DeleteEffect(s, p);
      assert SameFor(s, Delete(s, p).0, q);
    case OpFlushAll(fd) =>
      FlushAllEffect(s, fd);
      assert SameFor(s, FlushAll(s, fd), q);
    case OpWrite(p, data) =>
      WriteEffect(s, p, data);
      assert q != p ==> SameFor(s, Write(s, p, data), q);
    case OpMark(p) =>
      MarkEffect(s, p);
      assert SameFor(s, MarkDirty(s, p), q);
  }

  lemma {:induction false} StepUnmarked(c: Config, op: Op)
    requires Shape(c.s) && Good(c) && Allowed(c, op) && Step(c.s, op).1 != ReadFailed
    ensures UnmarkedPinned(Advance(c, op).s, Advance(c, op).unmarked)
  {
    hide Inv, Tracks, CleanSynced, LruOrder, NoLoss, Fetch, New, Unpin, Flush, Delete, FlushAll, Write, MarkDirty;
    GoodNoLoss(c);
    forall q | q in Advance(c, op).unmarked ensures PinCount(Advance(c, op).s, q) > 0 {
      PinEffect(c.s, op, q);
    }
  }

  lemma {:induction false} StepGood(c: Config, op: Op)
    requires Good(c) && Allowed(c, op)
    ensures Step(c.s, op).1 != ReadFailed
    ensures Good(Advance(c, op))
  {
    if op.OpFetch? { ExistingReadable(c.s, op.p); }
    StepKeepsInv(c.s, op);
    StepTracks(c, op);
    StepSynced(c, op);
    StepUnmarked(c, op);
    StepLruOrder(c.s, op, c.clock, c.zeroAt);
  }

  // ----- Whole runs -----

  /** `cs` are the configurations a disciplined client goes through with `ops`. */
  ghost predicate Run(cs: seq<Config>, ops: seq<Op>) {
    && |cs| == |ops| + 1
    && forall i :: 0 <= i < |ops| ==> StepAt(cs, ops, i)
  }

  ghost predicate StepAt(cs: seq<Config>, ops: seq<Op>, i: nat)
    requires |cs| == |ops| + 1 && i < |ops|
  {
    Shape(cs[i].s) && Allowed(cs[i], ops[i]) && cs[i + 1] == Advance(cs[i], ops[i])
  }

  /** A new pool over a disk whose page counters are past its pages. */
  ghost predicate Start(c: Config) {
    exists n: nat, disk, next ::
      && c == Config(Fresh(n, disk, next), disk, {}, 0, map[])
      && CountersOk(Fresh(n, disk, next))
  }

  lemma {:induction false} StartGood(c: Config)
    requires Start(c)
    ensures Good(c)
  {
    var n: nat, disk, next :| c == Config(Fresh(n, disk, next), disk, {}, 0, map[]) && CountersOk(Fresh(n, disk, next));
    FreshInv(n, disk, next);
  }

  lemma {:induction false} FreshInv(n: nat, disk: map<PageId, bytes>, next: map<int, int>)
    requires CountersOk(Fresh(n, disk, next))
    ensures Inv(Fresh(n, disk, next))
  {
    var s := Fresh(n, disk, next);
    forall f | 0 <= f < |s.pages| ensures FrameOk(s, f) {
      assert s.free[f] == f;
    }
  }

  /** Conservation of frames, the page-table bijection, true LRU order and
      agreement with the plain map hold in every state of every run. */
  lemma {:induction false} RunGood(cs: seq<Config>, ops: seq<Op>, i: nat)
    requires Run(cs, ops) && Start(cs[0]) && i < |cs|
    ensures Good(cs[i])
    ensures |cs[i].s.free| + |cs[i].s.lru| <= |cs[i].s.pages| == |cs[0].s.pages|
  {
    if i == 0 {
      StartGood(cs[0]);
    } else {
      RunGood(cs, ops, i - 1);
      assert StepAt(cs, ops, i - 1);
      StepGood(cs[i - 1], ops[i - 1]);
    }
    ListsFit(cs[i].s);
  }

  /** Transparency: whatever was evicted before, fetching an existing page
      shows the bytes of the plain map; it fails only for an absent page with
      every frame pinned, and then changes nothing. */
  lemma {:induction false} TransparentCache(cs: seq<Config>, ops: seq<Op>, i: nat)
    requires Run(cs, ops) && Start(cs[0]) && i < |ops| && ops[i].OpFetch?
    ensures var c, p := cs[i], ops[i].p;
            Shape(c.s) && p in c.model &&
            var (s', o) := Fetch(c.s, p);
            if p !in c.s.table && AllPinned(c.s) then o == NoFrame && s' == c.s
            else o.Got? && 0 <= o.frame < |s'.pages| && s'.pages[o.frame].id == p && s'.pages[o.frame].data == c.model[p]
  {
    RunGood(cs, ops, i);
    assert StepAt(cs, ops, i);
    var c, p := cs[i], ops[i].p;
    GoodNoLoss(c);
    ExistingReadable(c.s, p);
    FetchKeeps(c.s, p);
    if Fetch(c.s, p).1.Got? {
      FetchEffect(c.s, p);
    }
  }

  /** True LRU: with no free frame, the frame that is reused is the unpinned
      one whose pin count became zero longest ago. */
  lemma {:induction false} VictimIsOldest(cs: seq<Config>, ops: seq<Op>, i: nat, f: int)
    requires Run(cs, ops) && Start(cs[0]) && i < |cs|
    requires cs[i].s.free == [] && 0 <= f < |cs[i].s.pages| && cs[i].s.pages[f].pin == 0
    ensures var c := cs[i];
            Shape(c.s) && FindVictim(c.s).0.Some? &&
            var v := FindVictim(c.s).0.value;
            && v in c.zeroAt && f in c.zeroAt && c.s.pages[v].pin == 0
            && (f == v || c.zeroAt[v] < c.zeroAt[f])
  {
    RunGood(cs, ops, i);
    var c := cs[i];
    assert FrameOk(c.s, f);
    VictimTaken(c.s);
    var k :| 0 <= k < |c.s.lru| && c.s.lru[k] == f;
  }

  // ----- Pinned frames -----

  /** The step puts no page into frame `f`, unless it fetches the page the frame holds. */
  ghost predicate NotGiven(s: State, op: Op, f: int)
    requires Shape(s) && 0 <= f < |s.pages|
  {
    var o := Step(s, op).1;
    && (o.Got? && o.frame == f ==> op == OpFetch(s.pages[f].id))
    && !(o.Created? && o.frame == f)
  }

  /** The frame keeps its page and, unless written by the page's client, its bytes. */
  ghost predicate FrameKept(s: State, op: Op, f: int)
    requires Shape(s) && 0 <= f < |s.pages|
  {
    var g := Step(s, op).0.pages[f];
    && g.id == s.pages[f].id
    && (g.data == s.pages[f].data || (op.OpWrite? && op.p == s.pages[f].id))
  }

  lemma {:induction false} VictimNotPinned(s: State, f: int)
    requires Inv(s) && 0 <= f < |s.pages| && s.pages[f].pin > 0
    ensures FindVictim(s).0 != Some(f)
  {
    VictimTaken(s);
  }

  lemma {:induction false} FetchPinned(s: State, p: PageId, f: int)
    requires Inv(s) && 0 <= f < |s.pages| && s.pages[f].pin > 0
    ensures NotGiven(s, OpFetch(p), f) && FrameKept(s, OpFetch(p), f)
  {
    hide FramesOk, CountersOk;
    VictimNotPinned(s, f);
  }

  lemma {:induction false} NewPinned(s: State, fd: int, f: int)
    requires Inv(s) && 0 <= f < |s.pages| && s.pages[f].pin > 0
    ensures NotGiven(s, OpNew(fd), f) && FrameKept(s, OpNew(fd), f)
  {
    hide FramesOk, CountersOk;
    VictimNotPinned(s, f);
  }

  lemma {:induction false} OtherPinned(s: State, op: Op, f: int)
    requires Inv(s) && 0 <= f < |s.pages| && s.pages[f].pin > 0 && !op.OpFetch? && !op.OpNew?
    ensures NotGiven(s, op, f) && FrameKept(s, op, f)
  {
    hide FramesOk, CountersOk;
  }

  /** One step does not touch a pinned frame, except through its own page. */
  lemma {:induction false} StepPinned(s: State, op: Op, f: int)
    requires Inv(s) && 0 <= f < |s.pages| && s.pages[f].pin > 0
    ensures NotGiven(s, op, f) && FrameKept(s, op, f)
  {
    hide NotGiven, FrameKept;
    match op
    case OpFetch(p) => FetchPinned(s, p, f);
    case OpNew(fd) => NewPinned(s, fd, f);
    case _ => OtherPinned(s, op, f);
  }

  ghost predicate PinnedAt(c: Config, f: int) {
    Shape(c.s) && 0 <= f < |c.s.pages| && c.s.pages[f].pin > 0
  }

  /** From when a frame is pinned until its pin count returns to zero it keeps
      its page, and its bytes change only by writes to that page. */
  lemma {:induction false} PinnedStable(cs: seq<Config>, ops: seq<Op>, f: int, i: nat, j: nat)
    requires Run(cs, ops) && Start(cs[0]) && i <= j < |cs|
    requires PinnedAt(cs[i], f) && PinnedAt(cs[j], f) && forall k :: i <= k <= j ==> PinnedAt(cs[k], f)
    ensures cs[j].s.pages[f].id == cs[i].s.pages[f].id
    ensures (forall k :: i <= k < j ==> !(ops[k].OpWrite? && ops[k].p == cs[i].s.pages[f].id)) ==>
              cs[j].s.pages[f].data == cs[i].s.pages[f].data
  {
    if i < j {
      hide Step, NotGiven, Inv, Start, Allowed;
      PinnedStable(cs, ops, f, i, j - 1);
      RunGood(cs, ops, j - 1);
      assert PinnedAt(cs[j - 1], f) && PinnedAt(cs[j], f);
      StepPinned(cs[j - 1].s, ops[j - 1], f);
      assert StepAt(cs, ops, j - 1);
    }
  }

  /** While a frame is pinned, no other fetch and no new page is given it. */
  lemma {:induction false} PinnedExclusive(cs: seq<Config>, ops: seq<Op>, f: int, k: nat)
    requires Run(cs, ops) && Start(cs[0]) && k < |ops| && PinnedAt(cs[k], f)
    ensures NotGiven(cs[k].s, ops[k], f)
  {
    RunGood(cs, ops, k);
    StepPinned(cs[k].s, ops[k], f);
  }

  // ----- What happens without the discipline -----

  /** Evicting a clean page whose bytes the disk does not have loses them:
      handing its frame to another page keeps a page's bytes exactly when the
      page is dirty or on disk as it is. */
  lemma {:induction false} EvictionKeeps(s: State, p: PageId, data: bytes)
    requires Inv(s) && p !in s.table && p.pageNo != INVALID_PAGE_ID && FindVictim(s).0.Some? && s.free == []
    ensures var q := s.pages[FindVictim(s).0.value].id;
            && Exists(s, q) && q in s.table
            && ((Exists(Load(s, p, data), q) && Content(Load(s, p, data), q) == Content(s, q)) <==>
                (s.pages[s.table[q]].dirty || Synced(s, q)))
  {
    LoadShape(s, p, data);
    VictimTaken(s);
    assert FrameOk(s, FindVictim(s).0.value);
  }

  /** The same for the two operations that evict. */
  lemma {:induction false} FetchEvicts(s: State, p: PageId)
    requires Inv(s) && p !in s.table && Fetch(s, p).1.Got? && s.free == []
    ensures FindVictim(s).0.Some?
    ensures var q := s.pages[FindVictim(s).0.value].id;
            && Exists(s, q) && q in s.table
            && ((Exists(Fetch(s, p).0, q) && Content(Fetch(s, p).0, q) == Content(s, q)) <==>
                (s.pages[s.table[q]].dirty || Synced(s, q)))
  {
    LoadShapeOfFetch(s, p);
    EvictionKeeps(s, p, ReadPage(DiskAfterVictim(s), p));
  }

  lemma {:induction false} NewEvicts(s: State, fd: int)
    requires Inv(s) && New(s, fd).1.Created? && s.free == []
    ensures FindVictim(s).0.Some?
    ensures var q := s.pages[FindVictim(s).0.value].id;
            && Exists(s, q) && q in s.table
            && ((Exists(New(s, fd).0, q) && Content(New(s, fd).0, q) == Content(s, q)) <==>
                (s.pages[s.table[q]].dirty || Synced(s, q)))
  {
    NewIsLoad(s, fd);
    BumpInv(s, fd);
    EvictionKeeps(Bumped(s, fd), PageId(fd, NextOf(s, fd)), Zeros());
  }

  /** Fetching a page past the end of its file in a pool of one frame: the error
      leaves the frame in no list, and from then on no frame can be had. */
  lemma {:induction false} LeakedFrame(fd: int, p: PageId)
    requires p.pageNo >= 0
    ensures var s := Fresh(1, map[], map[]);
            var (s', o) := Fetch(s, p);
            Inv(s) && o == ReadFailed && !Inv(s') && New(s', fd) == (s', NoFrame) && !AllPinned(s')
  {
    var s := Fresh(1, map[], map[]);
    FreshInv(1, map[], map[]);
    FetchKeeps(s, p);
    var s' := Fetch(s, p).0;
    assert s.free == [0];
    assert s'.free == [] && s'.lru == [] && s'.pages[0].pin == 0;
  }

  /** A page written to but never marked dirty is gone once its frame is taken. */
  lemma {:induction false} LostWrite(data: bytes)
    requires |data| == PAGE_SIZE
    ensures var p := PageId(0, 0);
            var s := Write(New(Fresh(1, map[], map[]), 0).0, p, data);
            && Exists(s, p) && Content(s, p) == data
            && !NoLoss(Unpin(s, p, false).0) && !Exists(New(Unpin(s, p, false).0, 0).0, p)
            && Exists(New(Unpin(s, p, true).0, 0).0, p) && Content(New(Unpin(s, p, true).0, 0).0, p) == data
  {
    var p := PageId(0, 0);
    assert Fresh(1, map[], map[]).free == [0];
    var s := Write(New(Fresh(1, map[], map[]), 0).0, p, data);
    assert s.table == map[p := 0] && s.free == [] && s.lru == [] && s.pages[0] == Page(p, data, false, 1);
    var kept := Unpin(s, p, true).0;
    assert kept.lru == [0] && kept.pages[0].dirty;
    var lost := Unpin(s, p, false).0;
    assert lost.lru == [0] && !Synced(lost, p);
  }
}
