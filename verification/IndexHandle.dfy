/** The index handle and its scan as objects (src/index/ix_index_handle.cpp,
    src/index/ix_scan.cpp). Nodes are taken by page number, without the pool. */
module IndexHandles {
  import opened IndexTree
  import opened LeafChain

  class IndexHandle {
    var nodes: Nodes
    var firstLeaf: int
    var lastLeaf: int

    constructor (nodes: Nodes, firstLeaf: int, lastLeaf: int)
      ensures this.nodes == nodes && this.firstLeaf == firstLeaf && this.lastLeaf == lastLeaf
    {
      this.nodes, this.firstLeaf, this.lastLeaf := nodes, firstLeaf, lastLeaf;
    }

    /** The position of child `c` among the entries of `parent`. */
    method FindChild(parent: int, c: int) returns (rank: int)
      requires exists i :: HasChild(nodes, parent, i, c)
      ensures HasChild(nodes, parent, rank, c)
    {
      ghost var i :| HasChild(nodes, parent, i, c);
      rank := 0;
      while rank < |nodes[parent].rids| && nodes[parent].rids[rank].pageNo != c
        invariant 0 <= rank <= i
      {
        rank := rank + 1;
      }
    }

    /** Copies first keys upwards from `node` until an entry is right already or
        the root is reached. Afterwards every entry of the tree is right. */
    method MaintainParent(node: int, ghost depth: map<int, nat>)
      requires TreeOk(nodes, depth) && node in nodes && EntriesOk(nodes, depth, node)
      modifies this`nodes
      ensures SameShape(old(nodes), nodes) && TreeOk(nodes, depth)
      ensures EntriesOk(nodes, depth, IX_NO_PAGE)
      ensures forall n :: n in nodes && !Above(old(nodes), depth, node, n) ==> nodes[n] == old(nodes)[n]
    {
      hide EntriesOk, Above;
      var curr := node;
      ghost var was := nodes;
      while nodes[curr].parent != IX_NO_PAGE
        invariant SameShape(was, nodes) && TreeOk(nodes, depth) && curr in nodes
        invariant EntriesOk(nodes, depth, curr)
        invariant curr == node || Above(was, depth, node, curr)
        invariant forall n :: n in nodes && !Above(was, depth, node, n) ==> nodes[n] == was[n]
        decreases depth[curr]
      {
        var parent := nodes[curr].parent;
        var rank := FindChild(parent, curr);
        if nodes[parent].keys[rank] == nodes[curr].keys[0] {
          EntryRight(nodes, depth, curr, parent, rank);
          break;
        }
        AboveStep(was, depth, node, curr);
        KeyCopied(nodes, depth, curr, parent, rank);
        nodes := CopyKey(nodes, curr, parent, rank);
        curr := parent;
      }
      if nodes[curr].parent == IX_NO_PAGE {
        RootRight(nodes, depth, curr);
      }
    }

    method LeafBegin() returns (iid: Iid)
      ensures iid == Iid(firstLeaf, 0)
      ensures forall leaves: seq<int> :: leaves != [] && leaves[0] == firstLeaf ==> iid == LeafChain.LeafBegin(leaves)
    {
      iid := Iid(firstLeaf, 0);
    }

    method LeafEnd() returns (iid: Iid)
      requires lastLeaf in nodes
      ensures iid == Iid(lastLeaf, Size(nodes, lastLeaf))
      ensures forall leaves: seq<int> :: leaves != [] && leaves[|leaves| - 1] == lastLeaf ==>
                iid == LeafChain.LeafEnd(nodes, leaves)
    {
      iid := Iid(lastLeaf, |nodes[lastLeaf].rids|);
    }

    /** Takes `leaf` out of the leaf list by linking its neighbours. */
    method EraseLeaf(leaf: int)
      requires leaf in nodes && nodes[leaf].isLeaf && nodes[leaf].prevLeaf in nodes && nodes[leaf].nextLeaf in nodes
      modifies this`nodes
      ensures nodes == Unlinked(old(nodes), leaf)
    {
      var prev := nodes[leaf].prevLeaf;
      nodes := nodes[prev := nodes[prev].(nextLeaf := nodes[leaf].nextLeaf)];
      var next := nodes[leaf].nextLeaf;
      nodes := nodes[next := nodes[next].(prevLeaf := nodes[leaf].prevLeaf)];
    }
  }

  class IxScan {
    const ih: IndexHandle
    var iid: Iid
    const end: Iid

    constructor (ih: IndexHandle, lower: Iid, upper: Iid)
      ensures this.ih == ih && iid == lower && end == upper
    {
      this.ih, this.iid, this.end := ih, lower, upper;
    }

    predicate IsEnd()
      reads this
    {
      iid == end
    }

    method Next()
      requires !IsEnd() && iid.pageNo in ih.nodes && ih.nodes[iid.pageNo].isLeaf
      requires iid.slotNo < Size(ih.nodes, iid.pageNo)
      modifies this`iid
      ensures iid == NextIid(ih.nodes, ih.lastLeaf, old(iid))
    {
      var node := ih.nodes[iid.pageNo];
      iid := Iid(iid.pageNo, iid.slotNo + 1);
      if iid.pageNo != ih.lastLeaf && iid.slotNo == |node.rids| {
        iid := Iid(node.nextLeaf, 0);
      }
    }
  }

  /** The scan loop of a client. Where the scan is to go through `entries`, it
      does, and terminates. */
  method RunScan(ih: IndexHandle, lower: Iid, upper: Iid, ghost entries: seq<Iid>) returns (out: seq<Iid>)
    requires Yields(ih.nodes, ih.lastLeaf, lower, upper, entries)
    ensures out == entries
  {
    var scan := new IxScan(ih, lower, upper);
    out := [];
    while !scan.IsEnd()
      invariant scan.ih == ih && scan.end == upper && |out| <= |entries| && out == entries[..|out|]
      invariant Yields(ih.nodes, ih.lastLeaf, scan.iid, upper, entries[|out|..])
      decreases |entries| - |out|
    {
      ghost var rest := entries[|out|..];
      assert rest[1..] == entries[|out| + 1..];
      out := out + [scan.iid];
      scan.Next();
    }
  }

  /** A scan from entry number `i` to entry number `j` or the end yields
      exactly the entries between, in chain order. */
  method ScanRange(ih: IndexHandle, lower: Iid, upper: Iid, ghost leaves: seq<int>, ghost i: nat, ghost j: nat)
    returns (out: seq<Iid>)
    requires Threaded(ih.nodes, leaves) && ih.lastLeaf == leaves[|leaves| - 1]
    requires i <= j <= |Entries(ih.nodes, leaves)|
    requires lower == At(ih.nodes, leaves, i) && upper == At(ih.nodes, leaves, j)
    ensures out == Entries(ih.nodes, leaves)[i..j]
  {
    RangeYields(ih.nodes, leaves, i, j);
    out := RunScan(ih, lower, upper, Entries(ih.nodes, leaves)[i..j]);
  }

  /** A scan from `leaf_begin` to `leaf_end` yields all entries. */
  method ScanLeaves(ih: IndexHandle, ghost leaves: seq<int>) returns (out: seq<Iid>)
    requires Threaded(ih.nodes, leaves) && ih.firstLeaf == leaves[0] && ih.lastLeaf == leaves[|leaves| - 1]
    ensures out == Entries(ih.nodes, leaves)
  {
    assert LeafOk(ih.nodes, leaves[|leaves| - 1]);
    FullYields(ih.nodes, leaves);
    var lower := ih.LeafBegin();
    var upper := ih.LeafEnd();
    out := RunScan(ih, lower, upper, Entries(ih.nodes, leaves));
  }

  /** Erasing a leaf that is neither first nor last, then a full scan. */
  method EraseAndScan(ih: IndexHandle, ghost leaves: seq<int>, ghost k: nat, leaf: int) returns (out: seq<Iid>)
    requires ChainOk(ih.nodes, leaves) && Ended(ih.nodes, leaves) && 0 < k < |leaves| - 1 && leaf == leaves[k]
    requires ih.firstLeaf == leaves[0] && ih.lastLeaf == leaves[|leaves| - 1]
    requires forall m :: 0 <= m < |leaves| ==> leaves[m] in ih.nodes
    modifies ih`nodes
    ensures out == old(Others(ih.nodes, leaves, k))
  {
    ghost var entries := Others(ih.nodes, leaves, k);
    ErasedScan(ih.nodes, leaves, k);
    ih.EraseLeaf(leaf);
    var lower := ih.LeafBegin();
    var upper := ih.LeafEnd();
    out := RunScan(ih, lower, upper, entries);
  }
}
