/** Finished parts of the B+ tree (src/index/ix_index_handle.cpp,
    src/index/ix_scan.cpp), on nodes by page number. */
module IndexTree {
  import opened Common

  const IX_NO_PAGE := -1

  /** A node: its parent, its entries (key and rid, for an inner node the rid's
      page number is the child) and, for a leaf, its neighbours in the leaf list. */
  datatype Node = Node(parent: int, isLeaf: bool, keys: seq<bytes>, rids: seq<Rid>, prevLeaf: int, nextLeaf: int)

  type Nodes = map<int, Node>

  // ----- Tree shape -----

  /** Entry `i` of inner node `n` is child `c`. */
  predicate HasChild(nodes: Nodes, n: int, i: int, c: int) {
    n in nodes && !nodes[n].isLeaf && 0 <= i < |nodes[n].rids| && nodes[n].rids[i].pageNo == c
  }

  /** Parent and child links agree, and depths strictly grow downwards. */
  ghost predicate TreeOk(nodes: Nodes, depth: map<int, nat>) {
    && (forall n :: n in nodes ==> n in depth && |nodes[n].keys| == |nodes[n].rids|)
    && (forall n, i, c :: HasChild(nodes, n, i, c) ==>
          c in nodes && nodes[c].parent == n && |nodes[c].keys| > 0 && depth[n] < depth[c])
    && (forall n, i, j, c :: HasChild(nodes, n, i, c) && HasChild(nodes, n, j, c) ==> i == j)
    && (forall c :: c in nodes && nodes[c].parent != IX_NO_PAGE ==> exists i :: HasChild(nodes, nodes[c].parent, i, c))
    && IX_NO_PAGE !in nodes
  }

  /** Every entry for a child other than `except` carries the child's first key. */
  ghost predicate EntriesOk(nodes: Nodes, depth: map<int, nat>, except: int)
    requires TreeOk(nodes, depth)
  {
    forall n, i, c :: HasChild(nodes, n, i, c) && c != except ==> nodes[n].keys[i] == nodes[c].keys[0]
  }

  /** Only keys differ. */
  ghost predicate SameShape(a: Nodes, b: Nodes) {
    && a.Keys == b.Keys
    && forall n :: n in a ==> b[n] == a[n].(keys := b[n].keys) && |b[n].keys| == |a[n].keys|
  }

  lemma {:induction false} ShapeTreeOk(a: Nodes, b: Nodes, depth: map<int, nat>)
    requires TreeOk(a, depth) && SameShape(a, b)
    ensures TreeOk(b, depth)
    ensures forall n, i, c :: HasChild(b, n, i, c) <==> HasChild(a, n, i, c)
  {
    assert forall n, i, c :: HasChild(b, n, i, c) <==> HasChild(a, n, i, c);
    forall c | c in b && b[c].parent != IX_NO_PAGE ensures exists i :: HasChild(b, b[c].parent, i, c) {
      var i :| HasChild(a, a[c].parent, i, c);
      assert HasChild(b, b[c].parent, i, c);
    }
  }

  /** `a` lies on the path from `n` up to the root, above `n`. */
  ghost predicate Above(nodes: Nodes, depth: map<int, nat>, n: int, a: int)
    requires TreeOk(nodes, depth) && n in nodes
    decreases depth[n]
  {
    var p := nodes[n].parent;
    p != IX_NO_PAGE &&
    (var i :| HasChild(nodes, p, i, n); p == a || Above(nodes, depth, p, a))
  }

  /** The first key of `curr` goes into entry `rank` of its parent. */
  function CopyKey(nodes: Nodes, curr: int, parent: int, rank: int): Nodes
    requires curr in nodes && parent in nodes && 0 <= rank < |nodes[parent].keys| && |nodes[curr].keys| > 0
  {
    nodes[parent := nodes[parent].(keys := nodes[parent].keys[rank := nodes[curr].keys[0]])]
  }

  /** That repairs the entry, and only the parent's own entry may now be wrong. */
  lemma {:induction false} KeyCopied(nodes: Nodes, depth: map<int, nat>, curr: int, parent: int, rank: int)
    requires TreeOk(nodes, depth) && EntriesOk(nodes, depth, curr) && HasChild(nodes, parent, rank, curr)
    ensures curr in nodes && |nodes[curr].keys| > 0
    ensures var nodes' := CopyKey(nodes, curr, parent, rank);
            SameShape(nodes, nodes') && TreeOk(nodes', depth) && EntriesOk(nodes', depth, parent)
  {
    var nodes' := CopyKey(nodes, curr, parent, rank);
    ShapeTreeOk(nodes, nodes', depth);
    forall n, i, c | HasChild(nodes', n, i, c) && c != parent ensures nodes'[n].keys[i] == nodes'[c].keys[0] {
      assert HasChild(nodes, n, i, c);
    }
  }

  lemma {:induction false} EntryRight(nodes: Nodes, depth: map<int, nat>, curr: int, parent: int, rank: int)
    requires TreeOk(nodes, depth) && EntriesOk(nodes, depth, curr) && HasChild(nodes, parent, rank, curr)
    requires curr in nodes && nodes[curr].keys != [] && nodes[parent].keys[rank] == nodes[curr].keys[0]
    ensures EntriesOk(nodes, depth, IX_NO_PAGE)
  {
    forall n, i, c | HasChild(nodes, n, i, c) ensures nodes[n].keys[i] == nodes[c].keys[0] {
      if c == curr { assert n == parent && i == rank; }
    }
  }

  lemma {:induction false} RootRight(nodes: Nodes, depth: map<int, nat>, root: int)
    requires TreeOk(nodes, depth) && EntriesOk(nodes, depth, root) && root in nodes && nodes[root].parent == IX_NO_PAGE
    ensures EntriesOk(nodes, depth, IX_NO_PAGE)
  {
    forall n, i, c | HasChild(nodes, n, i, c) ensures nodes[n].keys[i] == nodes[c].keys[0] {
      assert c != root;
    }
  }

  lemma {:induction false} AboveStep(nodes: Nodes, depth: map<int, nat>, n: int, a: int)
    requires TreeOk(nodes, depth) && n in nodes && (a == n || Above(nodes, depth, n, a))
    requires a in nodes && nodes[a].parent != IX_NO_PAGE
    ensures Above(nodes, depth, n, nodes[a].parent)
    decreases depth[n]
  {
    if a == n {
      var i :| HasChild(nodes, nodes[n].parent, i, n);
    } else {
      var p := nodes[n].parent;
      var i :| HasChild(nodes, p, i, n);
      AboveStep(nodes, depth, p, a);
    }
  }
}
