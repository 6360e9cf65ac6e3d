/** A record file by its page fields: the records it holds and the chain of
    pages with free slots (src/record/rm_file_handle.cpp). */
module RecordFile {
  import opened Common
  import opened RecordPage

  /** The fields of every page of a file by page number; page 0 holds the file
      header and is not looked at. */
  type FileView = seq<PageView>

  ghost predicate ViewOk(h: Layout, v: PageView) {
    && |v.used| == |v.slots| == h.perPage
    && v.num == CountTrue(v.used)
  }

  /** The record count of every page is the number of its used slots. */
  ghost predicate FileOk(h: Layout, fv: FileView) {
    WfLayout(h) && |fv| >= 1 && forall p :: 1 <= p < |fv| ==> ViewOk(h, fv[p])
  }

  // ----- The record map -----

  predicate Occupied(fv: FileView, r: Rid) {
    1 <= r.pageNo < |fv| && 0 <= r.slotNo < |fv[r.pageNo].used| && fv[r.pageNo].used[r.slotNo]
  }

  ghost function RidSet(fv: FileView): (s: set<Rid>)
    ensures forall r :: r in s <==> Occupied(fv, r)
  {
    set p, i | 1 <= p < |fv| && 0 <= i < |fv[p].used| && fv[p].used[i] :: Rid(p, i)
  }

  ghost function Records(h: Layout, fv: FileView): map<Rid, bytes>
    requires FileOk(h, fv)
  {
    map r | r in RidSet(fv) :: fv[r.pageNo].slots[r.slotNo]
  }

  lemma {:induction false} OccupiedRecord(h: Layout, fv: FileView, r: Rid)
    requires FileOk(h, fv)
    ensures r in Records(h, fv) <==> Occupied(fv, r)
  {
  }

  function Fill(v: PageView, i: int, buf: bytes): PageView
    requires 0 <= i < |v.used| == |v.slots|
  {
    v.(used := v.used[i := true], slots := v.slots[i := buf], num := v.num + if v.used[i] then 0 else 1)
  }

  function Vacate(v: PageView, i: int): PageView
    requires 0 <= i < |v.used|
  {
    v.(used := v.used[i := false], num := v.num - 1)
  }

  /** Filling slot `i` of page `p` adds or replaces that one record. */
  lemma {:induction false} FillRecords(h: Layout, fv: FileView, p: int, i: int, buf: bytes)
    requires FileOk(h, fv) && 1 <= p < |fv| && 0 <= i < h.perPage
    ensures FileOk(h, fv[p := Fill(fv[p], i, buf)])
    ensures Records(h, fv[p := Fill(fv[p], i, buf)]) == Records(h, fv)[Rid(p, i) := buf]
  {
    CountUpdate(fv[p].used, i, true);
    var fv' := fv[p := Fill(fv[p], i, buf)];
    assert forall r :: Occupied(fv', r) <==> Occupied(fv, r) || r == Rid(p, i);
  }

  lemma {:induction false} VacateRecords(h: Layout, fv: FileView, p: int, i: int)
    requires FileOk(h, fv) && 1 <= p < |fv| && 0 <= i < h.perPage && fv[p].used[i]
    ensures FileOk(h, fv[p := Vacate(fv[p], i)])
    ensures Records(h, fv[p := Vacate(fv[p], i)]) == Records(h, fv) - {Rid(p, i)}
  {
    var fv' := fv[p := Vacate(fv[p], i)];
    VacateOk(h, fv, p, i);
    hide ViewOk;
    assert forall r :: Occupied(fv', r) <==> Occupied(fv, r) && r != Rid(p, i);
    var before, after := Records(h, fv), Records(h, fv');
    forall r ensures r in after <==> r in before && r != Rid(p, i) {
      OccupiedRecord(h, fv, r);
      OccupiedRecord(h, fv', r);
    }
  }

  lemma {:induction false} VacateOk(h: Layout, fv: FileView, p: int, i: int)
    requires FileOk(h, fv) && 1 <= p < |fv| && 0 <= i < h.perPage && fv[p].used[i]
    ensures FileOk(h, fv[p := Vacate(fv[p], i)])
  {
    CountUpdate(fv[p].used, i, false);
    assert ViewOk(h, Vacate(fv[p], i));
  }

  lemma {:induction false} LinkRecords(h: Layout, fv: FileView, p: int, next: int)
    requires FileOk(h, fv) && 1 <= p < |fv|
    ensures FileOk(h, fv[p := fv[p].(next := next)])
    ensures Records(h, fv[p := fv[p].(next := next)]) == Records(h, fv)
  {
  }

  lemma {:induction false} AppendRecords(h: Layout, fv: FileView, v: PageView)
    requires FileOk(h, fv) && |v.used| == |v.slots| == h.perPage && v.num == 0
    requires forall i :: 0 <= i < h.perPage ==> !v.used[i]
    ensures FileOk(h, fv + [v])
    ensures Records(h, fv + [v]) == Records(h, fv)
  {
    CountExtremes(v.used);
    assert forall r :: Occupied(fv + [v], r) <==> Occupied(fv, r);
  }

  // ----- The chain of pages with free slots -----

  ghost function First(chain: seq<int>): int {
    if chain == [] then RM_NO_PAGE else chain[0]
  }

  /** The `k`th page of the chain is in range, not full, and links to the next one. */
  ghost predicate LinkOk(h: Layout, fv: FileView, chain: seq<int>, k: nat)
    requires k < |chain|
  {
    var p := chain[k];
    && 1 <= p < |fv| && fv[p].num < h.perPage
    && fv[p].next == First(chain[k + 1..])
  }

  /** From `first` the pages of `chain` hang together, without a cycle. */
  ghost predicate ChainOk(h: Layout, fv: FileView, first: int, chain: seq<int>) {
    && first == First(chain) && Distinct(chain)
    && forall k :: 0 <= k < |chain| ==> LinkOk(h, fv, chain, k)
  }

  /** A change outside the chain, or one that keeps links and free slots, keeps the chain. */
  lemma {:induction false} ChainSame(h: Layout, fv: FileView, fv': FileView, first: int, chain: seq<int>)
    requires ChainOk(h, fv, first, chain) && |fv'| >= |fv|
    requires forall p :: p in chain ==> 0 <= p < |fv| && fv'[p].next == fv[p].next && fv'[p].num < h.perPage
    ensures ChainOk(h, fv', first, chain)
  {
    forall k | 0 <= k < |chain| ensures LinkOk(h, fv', chain, k) {
      assert LinkOk(h, fv, chain, k);
      assert chain[k] in chain;
    }
  }

  /** Dropping the head. */
  lemma {:induction false} ChainTail(h: Layout, fv: FileView, first: int, chain: seq<int>)
    requires ChainOk(h, fv, first, chain) && chain != []
    ensures 1 <= chain[0] < |fv|
    ensures ChainOk(h, fv, fv[chain[0]].next, chain[1..])
    ensures chain[0] !in chain[1..]
  {
    assert LinkOk(h, fv, chain, 0);
    var tail := chain[1..];
    forall k | 0 <= k < |tail| ensures LinkOk(h, fv, tail, k) {
      assert LinkOk(h, fv, chain, k + 1);
      assert tail[k + 1..] == chain[k + 2..];
    }
  }

  /** A page that was full joins at the head. */
  lemma {:induction false} ChainCons(h: Layout, fv: FileView, first: int, chain: seq<int>, p: int)
    requires ChainOk(h, fv, first, chain) && p !in chain
    requires 1 <= p < |fv| && fv[p].num < h.perPage && fv[p].next == first
    ensures ChainOk(h, fv, p, [p] + chain)
  {
    var l := [p] + chain;
    forall k | 0 <= k < |l| ensures LinkOk(h, fv, l, k) {
      assert l[k + 1..] == chain[k..];
      if k > 0 {
        assert LinkOk(h, fv, chain, k - 1);
      }
    }
  }

  lemma {:induction false} ChainMember(h: Layout, fv: FileView, first: int, chain: seq<int>, p: int)
    requires ChainOk(h, fv, first, chain) && p in chain
    ensures 1 <= p < |fv| && fv[p].num < h.perPage
  {
    var k :| 0 <= k < |chain| && chain[k] == p;
    assert LinkOk(h, fv, chain, k);
  }

  /** Filling a slot keeps the chain exactly when it does not fill up a page of the chain. */
  lemma {:induction false} FillChain(h: Layout, fv: FileView, first: int, chain: seq<int>, p: int, i: int, buf: bytes)
    requires FileOk(h, fv) && ChainOk(h, fv, first, chain) && 1 <= p < |fv| && 0 <= i < h.perPage
    ensures ChainOk(h, fv[p := Fill(fv[p], i, buf)], first, chain) <==>
              !(p in chain && !fv[p].used[i] && fv[p].num + 1 == h.perPage)
  {
    var fv' := fv[p := Fill(fv[p], i, buf)];
    forall q | q in chain ensures 1 <= q < |fv| && fv[q].num < h.perPage {
      ChainMember(h, fv, first, chain, q);
    }
    if p in chain && !fv[p].used[i] && fv[p].num + 1 == h.perPage {
      if ChainOk(h, fv', first, chain) {
        ChainMember(h, fv', first, chain, p);
        assert false;
      }
    } else {
      ChainSame(h, fv, fv', first, chain);
    }
  }

  lemma {:induction false} VacateChain(h: Layout, fv: FileView, first: int, chain: seq<int>, p: int, i: int)
    requires FileOk(h, fv) && ChainOk(h, fv, first, chain) && 1 <= p < |fv| && 0 <= i < h.perPage
    ensures ChainOk(h, fv[p := Vacate(fv[p], i)], first, chain)
  {
    forall q | q in chain ensures 1 <= q < |fv| && fv[q].num < h.perPage {
      ChainMember(h, fv, first, chain, q);
    }
    ChainSame(h, fv, fv[p := Vacate(fv[p], i)], first, chain);
  }

  /** A page whose record count is below its capacity has a free slot. */
  lemma {:induction false} FreeSlot(h: Layout, v: PageView)
    requires ViewOk(h, v)
    ensures v.num < h.perPage <==> exists i :: 0 <= i < h.perPage && !v.used[i]
  {
    CountExtremes(v.used);
  }

  /** A file with one page whose last free slot is filled by position: the page
      stays at the head of the chain although it is full. */
  lemma {:induction false} FullHead(h: Layout, v: PageView, buf: bytes)
    requires WfLayout(h) && ViewOk(h, v) && v.num == h.perPage - 1 && v.next == RM_NO_PAGE && !v.used[0]
    ensures ChainOk(h, [v, v], 1, [1]) && !ChainOk(h, [v, Fill(v, 0, buf)], 1, [1])
  {
    var fv := [v, v];
    assert LinkOk(h, fv, [1], 0);
    FillChain(h, fv, 1, [1], 1, 0, buf);
    assert fv[1 := Fill(v, 0, buf)] == [v, Fill(v, 0, buf)];
  }
}
