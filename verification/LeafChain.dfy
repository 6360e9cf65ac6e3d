/** The leaf list of an index and scans over it (src/index/ix_scan.cpp,
    src/index/ix_index_handle.cpp). */
module LeafChain {
  import opened Common
  import opened IndexTree

  /** The position of an index entry. */
  datatype Iid = Iid(pageNo: int, slotNo: int)

  function Size(nodes: Nodes, n: int): nat
    requires n in nodes
  {
    |nodes[n].rids|
  }

  ghost predicate Linked(nodes: Nodes, leaves: seq<int>, k: nat)
    requires k + 1 < |leaves| && leaves[k] in nodes && leaves[k + 1] in nodes
  {
    nodes[leaves[k]].nextLeaf == leaves[k + 1] && nodes[leaves[k + 1]].prevLeaf == leaves[k]
  }

  ghost predicate LeafOk(nodes: Nodes, n: int) {
    n in nodes && nodes[n].isLeaf && |nodes[n].rids| > 0
  }

  ghost predicate Forward(nodes: Nodes, leaves: seq<int>, k: nat)
    requires k + 1 < |leaves| && leaves[k] in nodes
  {
    nodes[leaves[k]].nextLeaf == leaves[k + 1]
  }

  /** `leaves` are distinct non-empty leaves, each linked to the next one. */
  ghost predicate Threaded(nodes: Nodes, leaves: seq<int>) {
    && leaves != [] && Distinct(leaves)
    && (forall k :: 0 <= k < |leaves| ==> LeafOk(nodes, leaves[k]))
    && (forall k :: 0 <= k < |leaves| - 1 ==> Forward(nodes, leaves, k))
  }

  /** They are linked in both directions. */
  ghost predicate ChainOk(nodes: Nodes, leaves: seq<int>) {
    && leaves != [] && Distinct(leaves)
    && (forall k :: 0 <= k < |leaves| ==> LeafOk(nodes, leaves[k]))
    && (forall k :: 0 <= k < |leaves| - 1 ==> Linked(nodes, leaves, k))
  }

  lemma {:induction false} ChainThreaded(nodes: Nodes, leaves: seq<int>)
    requires ChainOk(nodes, leaves)
    ensures Threaded(nodes, leaves)
  {
    forall k | 0 <= k < |leaves| - 1 ensures Forward(nodes, leaves, k) {
      assert Linked(nodes, leaves, k);
    }
  }

  // ----- The entries in chain order -----

  function LeafEntries(nodes: Nodes, n: int): (s: seq<Iid>)
    requires n in nodes
    ensures |s| == Size(nodes, n) && forall i :: 0 <= i < |s| ==> s[i] == Iid(n, i)
  {
    seq(Size(nodes, n), i => Iid(n, i))
  }

  ghost function Entries(nodes: Nodes, leaves: seq<int>): seq<Iid>
    requires forall k :: 0 <= k < |leaves| ==> leaves[k] in nodes
  {
    if leaves == [] then [] else LeafEntries(nodes, leaves[0]) + Entries(nodes, leaves[1..])
  }

  /** `leaf_begin` and `leaf_end`. */
  function LeafBegin(leaves: seq<int>): Iid
    requires leaves != []
  {
    Iid(leaves[0], 0)
  }

  function LeafEnd(nodes: Nodes, leaves: seq<int>): Iid
    requires leaves != [] && leaves[|leaves| - 1] in nodes
  {
    Iid(leaves[|leaves| - 1], Size(nodes, leaves[|leaves| - 1]))
  }

  /** The entry at index `k` of the whole list, or the end. */
  ghost function At(nodes: Nodes, leaves: seq<int>, k: nat): Iid
    requires Threaded(nodes, leaves) && k <= |Entries(nodes, leaves)|
  {
    if k < |Entries(nodes, leaves)| then Entries(nodes, leaves)[k] else LeafEnd(nodes, leaves)
  }

  /** `IxScan::next` on a position. */
  function NextIid(nodes: Nodes, lastLeaf: int, iid: Iid): Iid
    requires iid.pageNo in nodes
  {
    if iid.pageNo != lastLeaf && iid.slotNo + 1 == Size(nodes, iid.pageNo)
    then Iid(nodes[iid.pageNo].nextLeaf, 0)
    else Iid(iid.pageNo, iid.slotNo + 1)
  }

  lemma {:induction false} TailOk(nodes: Nodes, leaves: seq<int>)
    requires Threaded(nodes, leaves) && |leaves| > 1
    ensures Threaded(nodes, leaves[1..])
    ensures nodes[leaves[0]].nextLeaf == leaves[1] && leaves[0] != leaves[|leaves| - 1]
  {
    var tail := leaves[1..];
    forall k | 0 <= k < |tail| ensures LeafOk(nodes, tail[k]) {
      assert tail[k] == leaves[k + 1];
    }
    forall k | 0 <= k < |tail| - 1 ensures Forward(nodes, tail, k) {
      assert Forward(nodes, leaves, k + 1);
    }
    assert Forward(nodes, leaves, 0);
  }

  /** Every entry is a slot of a listed leaf, and the list starts at `leaf_begin`. */
  lemma {:induction false} EntryInLeaf(nodes: Nodes, leaves: seq<int>, k: nat)
    requires Threaded(nodes, leaves) && k < |Entries(nodes, leaves)|
    ensures var e := Entries(nodes, leaves)[k];
            e.pageNo in leaves && e.pageNo in nodes && 0 <= e.slotNo < Size(nodes, e.pageNo)
    ensures Entries(nodes, leaves)[0] == LeafBegin(leaves)
  {
    var first := LeafEntries(nodes, leaves[0]);
    assert LeafOk(nodes, leaves[0]);
    if k >= |first| {
      if |leaves| > 1 {
        TailOk(nodes, leaves);
        EntryInLeaf(nodes, leaves[1..], k - |first|);
      }
    }
  }

  /** A step of the scan goes from each entry to the next one in the list, and
      from the last one to `leaf_end`. */
  lemma {:induction false} NextEntry(nodes: Nodes, leaves: seq<int>, k: nat)
    requires Threaded(nodes, leaves) && k < |Entries(nodes, leaves)|
    ensures Entries(nodes, leaves)[k].pageNo in nodes
    ensures NextIid(nodes, leaves[|leaves| - 1], Entries(nodes, leaves)[k]) == At(nodes, leaves, k + 1)
  {
    var first, rest := LeafEntries(nodes, leaves[0]), Entries(nodes, leaves[1..]);
    assert LeafOk(nodes, leaves[0]);
    EntryInLeaf(nodes, leaves, k);
    if |leaves| > 1 {
      TailOk(nodes, leaves);
      assert LeafOk(nodes, leaves[1]);
      if k >= |first| {
        NextEntry(nodes, leaves[1..], k - |first|);
        assert leaves[1..][|leaves[1..]| - 1] == leaves[|leaves| - 1];
      } else if k + 1 == |first| {
        EntryInLeaf(nodes, leaves[1..], 0);
      }
    }
  }

  /** No position occurs twice, so the scan cannot stop early. */
  lemma {:induction false} EntriesDistinct(nodes: Nodes, leaves: seq<int>, i: nat, j: nat)
    requires Threaded(nodes, leaves) && i < j <= |Entries(nodes, leaves)|
    ensures At(nodes, leaves, i) != At(nodes, leaves, j)
  {
    var first := LeafEntries(nodes, leaves[0]);
    if |leaves| > 1 {
      TailOk(nodes, leaves);
      assert leaves[1..][|leaves[1..]| - 1] == leaves[|leaves| - 1];
      if i >= |first| {
        EntriesDistinct(nodes, leaves[1..], i - |first|, j - |first|);
      } else if |first| <= j < |Entries(nodes, leaves)| {
        EntryInLeaf(nodes, leaves[1..], j - |first|);
        assert forall m :: 0 < m < |leaves| ==> leaves[m] != leaves[0];
      }
    }
  }

  lemma {:induction false} EntryAt(nodes: Nodes, leaves: seq<int>, k: nat)
    requires Threaded(nodes, leaves) && k < |Entries(nodes, leaves)|
    ensures var e := At(nodes, leaves, k);
            LeafOk(nodes, e.pageNo) && e.slotNo < Size(nodes, e.pageNo)
  {
    EntryInLeaf(nodes, leaves, k);
    var m :| 0 <= m < |leaves| && leaves[m] == At(nodes, leaves, k).pageNo;
    assert LeafOk(nodes, leaves[m]);
  }

  // ----- Whole scans -----

  /** A scan from `from` that stops at `to` goes through exactly the positions
      `out`, each an entry of a leaf. */
  ghost predicate Yields(nodes: Nodes, lastLeaf: int, from: Iid, to: Iid, out: seq<Iid>)
    decreases |out|
  {
    if out == [] then from == to else
    && from == out[0] && from != to
    && from.pageNo in nodes && nodes[from.pageNo].isLeaf && 0 <= from.slotNo < Size(nodes, from.pageNo)
    && Yields(nodes, lastLeaf, NextIid(nodes, lastLeaf, from), to, out[1..])
  }

  lemma {:induction false} YieldsOne(nodes: Nodes, lastLeaf: int, from: Iid, to: Iid, out1: seq<Iid>, out2: seq<Iid>)
    requires Yields(nodes, lastLeaf, from, to, out1) && Yields(nodes, lastLeaf, from, to, out2)
    ensures out1 == out2
    decreases |out1|
  {
    if out1 != [] && out2 != [] {
      YieldsOne(nodes, lastLeaf, NextIid(nodes, lastLeaf, from), to, out1[1..], out2[1..]);
      assert out1 == [out1[0]] + out1[1..] && out2 == [out2[0]] + out2[1..];
    }
  }

  /** A scan between two positions of the list goes through exactly the entries
      between them. */
  lemma {:induction false} RangeYields(nodes: Nodes, leaves: seq<int>, i: nat, j: nat)
    requires Threaded(nodes, leaves) && i <= j <= |Entries(nodes, leaves)|
    ensures Yields(nodes, leaves[|leaves| - 1], At(nodes, leaves, i), At(nodes, leaves, j), Entries(nodes, leaves)[i..j])
    decreases j - i
  {
    var entries := Entries(nodes, leaves);
    if i < j {
      EntryAt(nodes, leaves, i);
      EntryInLeaf(nodes, leaves, i);
      EntriesDistinct(nodes, leaves, i, j);
      NextEntry(nodes, leaves, i);
      RangeYields(nodes, leaves, i + 1, j);
      assert entries[i..j][1..] == entries[i + 1..j];
    }
  }

  /** A scan from `leaf_begin` to `leaf_end` goes through all entries. */
  lemma {:induction false} FullYields(nodes: Nodes, leaves: seq<int>)
    requires Threaded(nodes, leaves)
    ensures Yields(nodes, leaves[|leaves| - 1], LeafBegin(leaves), LeafEnd(nodes, leaves), Entries(nodes, leaves))
  {
    var n := |Entries(nodes, leaves)|;
    assert LeafOk(nodes, leaves[0]);
    EntryInLeaf(nodes, leaves, 0);
    RangeYields(nodes, leaves, 0, n);
    assert Entries(nodes, leaves)[0..n] == Entries(nodes, leaves);
  }

  /** A scan that goes through at least one position stops right after the last one. */
  lemma {:induction false} YieldsStop(nodes: Nodes, lastLeaf: int, from: Iid, to: Iid, out: seq<Iid>)
    requires Yields(nodes, lastLeaf, from, to, out) && out != []
    ensures out[|out| - 1].pageNo in nodes && NextIid(nodes, lastLeaf, out[|out| - 1]) == to
    decreases |out|
  {
    if |out| > 1 {
      YieldsStop(nodes, lastLeaf, NextIid(nodes, lastLeaf, from), to, out[1..]);
    }
  }

  // ----- erase_leaf -----

  /** The neighbours of `leaf` linked to each other. */
  function Unlinked(nodes: Nodes, leaf: int): Nodes
    requires leaf in nodes && nodes[leaf].prevLeaf in nodes && nodes[leaf].nextLeaf in nodes
  {
    var prev := nodes[leaf].prevLeaf;
    var nodes1 := nodes[prev := nodes[prev].(nextLeaf := nodes[leaf].nextLeaf)];
    var next := nodes1[leaf].nextLeaf;
    nodes1[next := nodes1[next].(prevLeaf := nodes1[leaf].prevLeaf)]
  }

  lemma {:induction false} EntriesConcat(nodes: Nodes, a: seq<int>, b: seq<int>)
    requires forall k :: 0 <= k < |a| ==> a[k] in nodes
    requires forall k :: 0 <= k < |b| ==> b[k] in nodes
    ensures Entries(nodes, a + b) == Entries(nodes, a) + Entries(nodes, b)
  {
    if a == [] {
      assert a + b == b;
    } else {
      assert (a + b)[1..] == a[1..] + b;
      EntriesConcat(nodes, a[1..], b);
    }
  }

  lemma {:induction false} EntriesSame(nodes: Nodes, nodes': Nodes, l: seq<int>)
    requires forall k :: 0 <= k < |l| ==> l[k] in nodes && l[k] in nodes' && nodes'[l[k]].rids == nodes[l[k]].rids
    ensures Entries(nodes', l) == Entries(nodes, l)
  {
    if l != [] {
      EntriesSame(nodes, nodes', l[1..]);
      assert LeafEntries(nodes', l[0]) == LeafEntries(nodes, l[0]);
    }
  }

  /** The first leaf has a neighbour before it and the last one a neighbour
      after it, neither in the list: the leaf header page. */
  ghost predicate Ended(nodes: Nodes, leaves: seq<int>)
    requires ChainOk(nodes, leaves)
  {
    var first, last := nodes[leaves[0]], nodes[leaves[|leaves| - 1]];
    first.prevLeaf in nodes && first.prevLeaf !in leaves && last.nextLeaf in nodes && last.nextLeaf !in leaves
  }

  lemma {:induction false} Neighbours(nodes: Nodes, leaves: seq<int>, k: nat)
    requires ChainOk(nodes, leaves) && Ended(nodes, leaves) && k < |leaves|
    ensures leaves[k] in nodes && nodes[leaves[k]].prevLeaf in nodes && nodes[leaves[k]].nextLeaf in nodes
    ensures k > 0 ==> nodes[leaves[k]].prevLeaf == leaves[k - 1]
    ensures k < |leaves| - 1 ==> nodes[leaves[k]].nextLeaf == leaves[k + 1]
  {
    assert LeafOk(nodes, leaves[k]);
    if k > 0 {
      assert LeafOk(nodes, leaves[k - 1]) && Linked(nodes, leaves, k - 1);
    }
    if k < |leaves| - 1 {
      assert LeafOk(nodes, leaves[k + 1]) && Linked(nodes, leaves, k);
    }
  }

  /** The entries without those of leaf number `k`. */
  ghost function Others(nodes: Nodes, leaves: seq<int>, k: nat): seq<Iid>
    requires (forall m :: 0 <= m < |leaves| ==> leaves[m] in nodes) && k < |leaves|
  {
    Entries(nodes, leaves[..k]) + Entries(nodes, leaves[k + 1..])
  }

  /** Taking any leaf out leaves a well linked list of the others. */
  lemma {:induction false} UnlinkedChain(nodes: Nodes, leaves: seq<int>, k: nat)
    requires ChainOk(nodes, leaves) && Ended(nodes, leaves) && |leaves| > 1 && k < |leaves|
    ensures leaves[k] in nodes && nodes[leaves[k]].prevLeaf in nodes && nodes[leaves[k]].nextLeaf in nodes
    ensures ChainOk(Unlinked(nodes, leaves[k]), leaves[..k] + leaves[k + 1..])
    ensures Ended(Unlinked(nodes, leaves[k]), leaves[..k] + leaves[k + 1..])
  {
    Neighbours(nodes, leaves, k);
    var nodes', l := Unlinked(nodes, leaves[k]), leaves[..k] + leaves[k + 1..];
    assert forall x :: x in l ==> x in leaves;
    forall m | 0 <= m < |l| ensures LeafOk(nodes', l[m]) {
      assert LeafOk(nodes, leaves[if m < k then m else m + 1]);
    }
    forall m | 0 <= m < |l| - 1 ensures Linked(nodes', l, m) {
      if m < k - 1 {
        assert Linked(nodes, leaves, m);
      } else if m > k - 1 {
        assert Linked(nodes, leaves, m + 1);
      }
    }
    Neighbours(nodes, leaves, 0);
    Neighbours(nodes, leaves, |leaves| - 1);
    if k == 0 { Neighbours(nodes, leaves, 1); }
    if k == |leaves| - 1 { Neighbours(nodes, leaves, k - 1); }
  }

  /** Taking any leaf out removes just its entries from the list. */
  lemma {:induction false} UnlinkedEntries(nodes: Nodes, leaves: seq<int>, k: nat)
    requires ChainOk(nodes, leaves) && Ended(nodes, leaves) && |leaves| > 1 && k < |leaves|
    ensures leaves[k] in nodes && nodes[leaves[k]].prevLeaf in nodes && nodes[leaves[k]].nextLeaf in nodes
    ensures ChainOk(Unlinked(nodes, leaves[k]), leaves[..k] + leaves[k + 1..])
    ensures forall m :: 0 <= m < |leaves| ==> leaves[m] in nodes
    ensures Entries(nodes, leaves) ==
            Entries(nodes, leaves[..k]) + LeafEntries(nodes, leaves[k]) + Entries(nodes, leaves[k + 1..])
    ensures Entries(Unlinked(nodes, leaves[k]), leaves[..k] + leaves[k + 1..]) == Others(nodes, leaves, k)
  {
    UnlinkedChain(nodes, leaves, k);
    var a, b := leaves[..k], leaves[k + 1..];
    var nodes' := Unlinked(nodes, leaves[k]);
    assert forall m :: 0 <= m < |leaves| ==> leaves[m] in nodes by {
      assert forall m :: 0 <= m < |leaves| ==> LeafOk(nodes, leaves[m]);
    }
    hide ChainOk, Ended;
    assert leaves == a + leaves[k..];
    EntriesConcat(nodes, a, leaves[k..]);
    assert leaves[k..][1..] == b;
    EntriesConcat(nodes, a, b);
    EntriesSame(nodes, nodes', a + b);
  }

  /** After the first leaf was erased, a scan still starts there and goes
      through its entries. */
  lemma {:induction false} FirstErased(nodes: Nodes, leaves: seq<int>)
    requires ChainOk(nodes, leaves) && Ended(nodes, leaves) && |leaves| > 1
    ensures leaves[0] in nodes && nodes[leaves[0]].prevLeaf in nodes && nodes[leaves[0]].nextLeaf in nodes
    ensures forall m :: 0 <= m < |leaves| ==> leaves[m] in Unlinked(nodes, leaves[0])
    ensures Yields(Unlinked(nodes, leaves[0]), leaves[|leaves| - 1], LeafBegin(leaves),
                   LeafEnd(Unlinked(nodes, leaves[0]), leaves), Entries(nodes, leaves))
  {
    Neighbours(nodes, leaves, 0);
    var nodes' := Unlinked(nodes, leaves[0]);
    forall m | 0 <= m < |leaves| ensures LeafOk(nodes', leaves[m]) && nodes'[leaves[m]].rids == nodes[leaves[m]].rids {
      assert LeafOk(nodes, leaves[m]);
    }
    forall m | 0 <= m < |leaves| - 1 ensures Forward(nodes', leaves, m) {
      assert Linked(nodes, leaves, m);
    }
    FullYields(nodes', leaves);
    EntriesSame(nodes, nodes', leaves);
  }

  lemma {:induction false} LastEntry(nodes: Nodes, leaves: seq<int>)
    requires leaves != [] && forall m :: 0 <= m < |leaves| ==> leaves[m] in nodes && LeafOk(nodes, leaves[m])
    ensures var entries, last := Entries(nodes, leaves), leaves[|leaves| - 1];
            entries != [] && entries[|entries| - 1] == Iid(last, Size(nodes, last) - 1)
  {
    var n := |leaves| - 1;
    assert leaves == leaves[..n] + [leaves[n]];
    assert LeafOk(nodes, leaves[n]);
    EntriesConcat(nodes, leaves[..n], [leaves[n]]);
    assert Entries(nodes, [leaves[n]]) == LeafEntries(nodes, leaves[n]);
  }

  /** After the last leaf was erased, a scan runs from the leaf before it to the
      header page and so misses `leaf_end`. */
  lemma {:induction false} LastErased(nodes: Nodes, leaves: seq<int>)
    requires ChainOk(nodes, leaves) && Ended(nodes, leaves) && |leaves| > 1
    ensures var k := |leaves| - 1;
            && leaves[k] in nodes && nodes[leaves[k]].prevLeaf in nodes && nodes[leaves[k]].nextLeaf in nodes
            && leaves[k] in Unlinked(nodes, leaves[k])
            && (forall m :: 0 <= m < |leaves| ==> leaves[m] in nodes)
            && !Yields(Unlinked(nodes, leaves[k]), leaves[k], LeafBegin(leaves), LeafEnd(Unlinked(nodes, leaves[k]), leaves),
                       Others(nodes, leaves, k))
  {
    var k := |leaves| - 1;
    Neighbours(nodes, leaves, k);
    var nodes', l := Unlinked(nodes, leaves[k]), leaves[..k];
    assert forall m :: 0 <= m < |leaves| ==> LeafOk(nodes, leaves[m]);
    LastEntry(nodes, l);
    assert leaves[k + 1..] == [] && Others(nodes, leaves, k) == Entries(nodes, l);
    var from, to := LeafBegin(leaves), LeafEnd(nodes', leaves);
    var last := Entries(nodes, l)[|Entries(nodes, l)| - 1];
    assert NextIid(nodes', leaves[k], last).pageNo == nodes[leaves[k]].nextLeaf;
    assert leaves[k] in leaves;
    if Yields(nodes', leaves[k], from, to, Entries(nodes, l)) {
      YieldsStop(nodes', leaves[k], from, to, Entries(nodes, l));
    }
  }

  /** `erase_leaf` leaves the handle's first and last leaf as they are: the full
      scan then goes through the entries without those of the erased leaf iff
      that was neither the first nor the last one. */
  lemma {:induction false} ErasedScan(nodes: Nodes, leaves: seq<int>, k: nat)
    requires ChainOk(nodes, leaves) && Ended(nodes, leaves) && |leaves| > 1 && k < |leaves|
    ensures leaves[k] in nodes && nodes[leaves[k]].prevLeaf in nodes && nodes[leaves[k]].nextLeaf in nodes
    ensures forall m :: 0 <= m < |leaves| ==> leaves[m] in nodes
    ensures var nodes' := Unlinked(nodes, leaves[k]);
            && leaves[|leaves| - 1] in nodes'
            && (0 < k < |leaves| - 1 <==>
                Yields(nodes', leaves[|leaves| - 1], LeafBegin(leaves), LeafEnd(nodes', leaves), Others(nodes, leaves, k)))
  {
    hide Yields;
    Neighbours(nodes, leaves, k);
    assert forall m :: 0 <= m < |leaves| ==> LeafOk(nodes, leaves[m]);
    var nodes', last := Unlinked(nodes, leaves[k]), leaves[|leaves| - 1];
    if k == 0 {
      FirstErased(nodes, leaves);
      assert |Entries(nodes, leaves)| == Size(nodes, leaves[0]) + |Others(nodes, leaves, k)|;
      if Yields(nodes', last, LeafBegin(leaves), LeafEnd(nodes', leaves), Others(nodes, leaves, k)) {
        YieldsOne(nodes', last, LeafBegin(leaves), LeafEnd(nodes', leaves), Entries(nodes, leaves), Others(nodes, leaves, k));
      }
    } else if k == |leaves| - 1 {
      LastErased(nodes, leaves);
    } else {
      UnlinkedEntries(nodes, leaves, k);
      var l := leaves[..k] + leaves[k + 1..];
      ChainThreaded(nodes', l);
      FullYields(nodes', l);
    }
  }
}
