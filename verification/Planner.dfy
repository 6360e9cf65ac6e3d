/** Join planning (src/optimizer/planner.cpp): from a table list and a
    conjunction of conditions to a tree of scans and joins. */
module Planner {
  import opened Common
  import opened Conditions
  import opened Meta
  import opened PlanTrees

  datatype PlanError = TableNotFound(tab: string) | NoJoinExecutor

  // ----- Plan nodes -----

  /** Plans as the planner holds them: null, a finished scan, or a reference to
      a join node. Scans never change; join nodes gain conditions. */
  datatype Plan =
    | NoPlan
    | ScanPlan(scanKind: ScanKind, tab: string, conds: seq<Condition>, indexCols: seq<string>)
    | JoinPlan(node: JoinNode)

  class JoinNode {
    const kind: JoinKind
    const left: Plan
    const right: Plan
    var conds: seq<Condition>
    ghost const repr: set<JoinNode>
    ghost const height: nat

    constructor (kind: JoinKind, left: Plan, right: Plan, conds: seq<Condition>)
      requires Wf(left) && Wf(right) && Repr(left) !! Repr(right)
      ensures Wf(JoinPlan(this)) && Repr(JoinPlan(this)) == {this} + Repr(left) + Repr(right)
      ensures fresh(this)
      ensures View(JoinPlan(this)) == Join(kind, old(View(left)), old(View(right)), conds)
    {
      this.kind := kind;
      this.left := left;
      this.right := right;
      this.conds := conds;
      this.repr := {this} + Repr(left) + Repr(right);
      this.height := 1 + Height(left) + Height(right);
    }
  }

  ghost function Repr(p: Plan): set<JoinNode> {
    if p.JoinPlan? then p.node.repr else {}
  }

  ghost function Height(p: Plan): nat {
    if p.JoinPlan? then p.node.height else 0
  }

  /** The join nodes below `p` form a tree. */
  ghost predicate Wf(p: Plan)
    decreases Height(p)
  {
    p.JoinPlan? ==>
      var n := p.node;
      && Height(n.left) < n.height && Height(n.right) < n.height
      && n !in Repr(n.left) && n !in Repr(n.right) && Repr(n.left) !! Repr(n.right)
      && n.repr == {n} + Repr(n.left) + Repr(n.right)
      && Wf(n.left) && Wf(n.right)
  }

  /** The plan as a value. */
  ghost function View(p: Plan): Tree
    requires Wf(p)
    reads Repr(p)
    decreases Height(p)
  {
    match p
    case NoPlan => NoTree
    case ScanPlan(k, tab, cs, ix) => Scan(k, tab, cs, ix)
    case JoinPlan(n) => Join(n.kind, View(n.left), View(n.right), n.conds)
  }

  // ----- pop_conds -----

  /** The test of `pop_conds`. Its second half does not look at `tab`. */
  predicate Belongs(c: Condition, tab: string) {
    (tab == c.lhs.tab && c.rhsIsVal) || c.lhs.tab == c.rhs.tab
  }

  function Taken(cs: seq<Condition>, tab: string): seq<Condition> {
    if cs == [] then [] else
    var rest := Taken(cs[..|cs| - 1], tab);
    if Belongs(cs[|cs| - 1], tab) then rest + [cs[|cs| - 1]] else rest
  }

  function Left(cs: seq<Condition>, tab: string): seq<Condition> {
    if cs == [] then [] else
    var rest := Left(cs[..|cs| - 1], tab);
    if Belongs(cs[|cs| - 1], tab) then rest else rest + [cs[|cs| - 1]]
  }

  method PopConds(conds: seq<Condition>, tab: string) returns (solved: seq<Condition>, rest: seq<Condition>)
    ensures solved == Taken(conds, tab) && rest == Left(conds, tab)
  {
    solved, rest := [], conds;
    var it := 0;
    ghost var seen := 0;
    while it < |rest|
      invariant 0 <= it <= |rest| && 0 <= seen <= |conds|
      invariant rest[it..] == conds[seen..]
      invariant rest[..it] == Left(conds[..seen], tab)
      invariant solved == Taken(conds[..seen], tab)
      decreases |conds| - seen
    {
      assert rest[it] == rest[it..][0] == conds[seen];
      assert conds[..seen + 1][..seen] == conds[..seen];
      assert rest[it + 1..] == rest[it..][1..] == conds[seen..][1..] == conds[seen + 1..];
      if Belongs(rest[it], tab) {
        solved := solved + [rest[it]];
        rest := rest[..it] + rest[it + 1..];
      } else {
        it := it + 1;
      }
      seen := seen + 1;
    }
    assert conds[seen..] == [] && conds[..seen] == conds;
    assert rest[..it] == rest;
  }

  lemma {:induction false} PopMembers(cs: seq<Condition>, tab: string, c: Condition)
    ensures c in Taken(cs, tab) <==> c in cs && Belongs(c, tab)
    ensures c in Left(cs, tab) <==> c in cs && !Belongs(c, tab)
  {
    if cs != [] {
      var n := |cs| - 1;
      assert cs == cs[..n] + [cs[n]];
      PopMembers(cs[..n], tab, c);
    }
  }

  /** Popping splits the conditions in two, losing none. */
  lemma {:induction false} PopSplits(cs: seq<Condition>, tab: string)
    ensures BagOf(Taken(cs, tab)) + BagOf(Left(cs, tab)) == BagOf(cs)
    ensures forall c :: c in Taken(cs, tab) <==> c in cs && Belongs(c, tab)
    ensures forall c :: c in Left(cs, tab) <==> c in cs && !Belongs(c, tab)
  {
    forall c ensures c in Taken(cs, tab) <==> c in cs && Belongs(c, tab)
             ensures c in Left(cs, tab) <==> c in cs && !Belongs(c, tab) {
      PopMembers(cs, tab, c);
    }
    PopBag(cs, tab);
  }

  lemma {:induction false} BagOfSnoc(cs: seq<Condition>, c: Condition)
    ensures BagOf(cs + [c]) == BagOf(cs) + multiset{Norm(c)}
  {
    assert (cs + [c])[..|cs|] == cs;
  }

  lemma {:induction false} PopBag(cs: seq<Condition>, tab: string)
    ensures BagOf(Taken(cs, tab)) + BagOf(Left(cs, tab)) == BagOf(cs)
  {
    if cs != [] {
      var n := |cs| - 1;
      PopBag(cs[..n], tab);
      var taken, left := Taken(cs[..n], tab), Left(cs[..n], tab);
      if Belongs(cs[n], tab) {
        BagOfSnoc(taken, cs[n]);
      } else {
        BagOfSnoc(left, cs[n]);
      }
    }
  }

  // ----- get_index_cols -----

  function EqCols(tab: string, conds: seq<Condition>): seq<string> {
    if conds == [] then [] else
    var c := conds[|conds| - 1];
    EqCols(tab, conds[..|conds| - 1]) +
    if c.rhsIsVal && c.op == EQ && c.lhs.tab == tab then [c.lhs.col] else []
  }

  /** The columns that `conds` fixes to a value, in order, and whether some
      index has exactly those columns. */
  method GetIndexCols(db: map<string, TabMeta>, tab: string, conds: seq<Condition>)
    returns (r: Result<(bool, seq<string>), PlanError>)
    requires forall t :: t in db ==> WfTab(db[t])
    ensures if tab in db then r.Ok? else r == Err(TableNotFound(tab))
    ensures r.Ok? ==> tab in db && r.value.1 == EqCols(tab, conds)
    ensures r.Ok? ==> (r.value.0 <==> exists ix :: ix in db[tab].indexes && ColNames(ix.cols) == EqCols(tab, conds))
  {
    var names := [];
    for i := 0 to |conds|
      invariant names == EqCols(tab, conds[..i])
    {
      assert conds[..i + 1][..i] == conds[..i];
      var c := conds[i];
      if c.rhsIsVal && c.op == EQ && c.lhs.tab == tab {
        names := names + [c.lhs.col];
      }
    }
    assert conds[..|conds|] == conds;
    if tab !in db {
      return Err(TableNotFound(tab));
    }
    var found := IsIndex(db[tab], names);
    return Ok((found, names));
  }

  // ----- push_conds -----

  /** In place, `push_conds` does to the join nodes what `Push` does to the
      tree: only condition lists change. */
  method PushConds(cond: Condition, plan: Plan) returns (res: int)
    requires Wf(plan)
    modifies Repr(plan)
    ensures (res, View(plan)) == Push(cond, old(View(plan)))
    decreases Height(plan)
  {
    match plan
    case NoPlan => return NEITHER;
    case ScanPlan(_, tab, _, _) =>
      if tab == cond.lhs.tab {
        return LEFT_ONLY;
      } else if tab == cond.rhs.tab {
        return RIGHT_ONLY;
      } else {
        return NEITHER;
      }
    case JoinPlan(x) =>
      var leftRes := PushConds(cond, x.left);
      if leftRes == PUSHED {
        return PUSHED;
      }
      var rightRes := PushConds(cond, x.right);
      if rightRes == PUSHED {
        return PUSHED;
      }
      if leftRes == NEITHER || rightRes == NEITHER {
        return leftRes + rightRes;
      }
      var c := cond;
      if leftRes == RIGHT_ONLY {
        c := SwapSides(c);
      }
      x.conds := x.conds + [c];
      return PUSHED;
  }

  // ----- What the planner is asked to do -----

  /** Distinct, named tables, and conditions over those tables. The right-hand
      column of a value comparison is left empty by the analyzer. */
  ghost predicate WellPosed(tables: seq<string>, conds: seq<Condition>) {
    && Distinct(tables) && "" !in tables
    && forall c :: c in conds ==>
         && c.lhs.tab in tables
         && if c.rhsIsVal then c.rhs.tab != c.lhs.tab else c.rhs.tab in tables
  }

  /** Columns of one table are compared with each other only for the first table. */
  predicate SameTableOnFirst(tables: seq<string>, conds: seq<Condition>)
    requires |tables| > 0
  {
    forall c :: c in conds && !c.rhsIsVal && c.lhs.tab == c.rhs.tab ==> c.lhs.tab == tables[0]
  }

  // ----- Scans -----

  /** The conditions that are left after the scans of `tables` took theirs. */
  function RestAfter(conds: seq<Condition>, tables: seq<string>): seq<Condition> {
    if tables == [] then conds
    else Left(RestAfter(conds, tables[..|tables| - 1]), tables[|tables| - 1])
  }

  ghost predicate IsScanFor(p: Plan, db: map<string, TabMeta>, tables: seq<string>, conds: seq<Condition>, i: nat)
    requires i < |tables|
  {
    && p.ScanPlan? && p.tab == tables[i] && p.tab in db
    && p.conds == Taken(RestAfter(conds, tables[..i]), tables[i])
    && (p.scanKind == IndexScan <==>
        exists ix :: ix in db[p.tab].indexes && ColNames(ix.cols) == EqCols(p.tab, p.conds))
    && p.indexCols == if p.scanKind == IndexScan then EqCols(p.tab, p.conds) else []
  }

  method BuildScans(db: map<string, TabMeta>, tables: seq<string>, conds: seq<Condition>)
    returns (r: Result<(seq<Plan>, seq<Condition>), PlanError>)
    requires forall t :: t in db ==> WfTab(db[t])
    ensures r.Err? <==> exists t :: t in tables && t !in db
    ensures r.Err? ==> r.error.TableNotFound? && r.error.tab in tables && r.error.tab !in db
    ensures r.Ok? ==> |r.value.0| == |tables| && r.value.1 == RestAfter(conds, tables)
    ensures r.Ok? ==> forall i :: 0 <= i < |tables| ==> IsScanFor(r.value.0[i], db, tables, conds, i)
  {
    var scans, rest := [], conds;
    for i := 0 to |tables|
      invariant |scans| == i && forall k :: 0 <= k < i ==> tables[k] in db
      invariant rest == RestAfter(conds, tables[..i])
      invariant forall k :: 0 <= k < i ==> IsScanFor(scans[k], db, tables, conds, k)
    {
      assert tables[..i + 1][..i] == tables[..i];
      var currConds;
      currConds, rest := PopConds(rest, tables[i]);
      var ix := GetIndexCols(db, tables[i], currConds);
      if ix.Err? {
        return Err(ix.error);
      }
      var (indexExist, indexCols) := ix.value;
      var scan;
      if !indexExist {
        scan := ScanPlan(SeqScan, tables[i], currConds, []);
      } else {
        scan := ScanPlan(IndexScan, tables[i], currConds, indexCols);
      }
      scans := scans + [scan];
    }
    assert tables[..|tables|] == tables;
    return Ok((scans, rest));
  }

  function ScanTree(p: Plan): Tree {
    if p.ScanPlan? then Scan(p.scanKind, p.tab, p.conds, p.indexCols) else NoTree
  }

  /** The conditions of the scans numbered in `on`, among the first `n`. */
  ghost function ScanBag(scans: seq<Plan>, on: set<int>, n: nat): multiset<set<Condition>>
    requires n <= |scans|
  {
    if n == 0 then multiset{} else
    ScanBag(scans, on, n - 1) + if n - 1 in on then Bag(ScanTree(scans[n - 1])) else multiset{}
  }

  ghost predicate ScansFor(scans: seq<Plan>, tables: seq<string>) {
    |scans| == |tables| && Distinct(tables) &&
    forall i :: 0 <= i < |tables| ==> scans[i].ScanPlan? && scans[i].tab == tables[i]
  }

  lemma {:induction false} RestMembers(conds: seq<Condition>, tables: seq<string>, c: Condition)
    ensures c in RestAfter(conds, tables) <==> c in conds && forall t :: t in tables ==> !Belongs(c, t)
  {
    if tables != [] {
      var n := |tables| - 1;
      assert tables == tables[..n] + [tables[n]];
      RestMembers(conds, tables[..n], c);
      PopSplits(RestAfter(conds, tables[..n]), tables[n]);
    }
  }

  lemma {:induction false} ScansKeepBag(db: map<string, TabMeta>, tables: seq<string>, conds: seq<Condition>,
                                        scans: seq<Plan>, on: set<int>, n: nat)
    requires |scans| == |tables| && n <= |tables|
    requires forall i :: 0 <= i < |tables| ==> IsScanFor(scans[i], db, tables, conds, i) && i in on
    ensures ScanBag(scans, on, n) + BagOf(RestAfter(conds, tables[..n])) == BagOf(conds)
  {
    if n > 0 {
      ScansKeepBag(db, tables, conds, scans, on, n - 1);
      assert IsScanFor(scans[n - 1], db, tables, conds, n - 1);
      ScanTakes(scans[n - 1], tables, conds, n - 1);
    }
  }

  /** One scan moves its conditions from the list into the plan. */
  lemma {:induction false} ScanTakes(p: Plan, tables: seq<string>, conds: seq<Condition>, i: nat)
    requires i < |tables| && p.ScanPlan? && p.conds == Taken(RestAfter(conds, tables[..i]), tables[i])
    ensures Bag(ScanTree(p)) + BagOf(RestAfter(conds, tables[..i + 1])) == BagOf(RestAfter(conds, tables[..i]))
  {
    assert tables[..i + 1][..i] == tables[..i];
    PopSplits(RestAfter(conds, tables[..i]), tables[i]);
  }

  ghost predicate IsJoinCond(c: Condition, tables: seq<string>) {
    !c.rhsIsVal && c.lhs.tab in tables && c.rhs.tab in tables && c.lhs.tab != c.rhs.tab
  }

  /** After the scans only comparisons between two different tables are left. */
  lemma {:induction false} RestAreJoins(tables: seq<string>, conds: seq<Condition>)
    requires |tables| > 0 && WellPosed(tables, conds)
    ensures forall c :: c in RestAfter(conds, tables) ==> IsJoinCond(c, tables)
  {
    forall c | c in RestAfter(conds, tables) ensures IsJoinCond(c, tables) {
      RestMembers(conds, tables, c);
      assert !Belongs(c, tables[0]);
      assert !Belongs(c, c.lhs.tab);
    }
  }

  /** The first scan built takes every comparison inside one table, so it is
      the only one that can hold a condition it cannot evaluate. */
  lemma {:induction false} ScansScoped(db: map<string, TabMeta>, tables: seq<string>, conds: seq<Condition>, scans: seq<Plan>)
    requires |tables| > 0 && WellPosed(tables, conds) && |scans| == |tables|
    requires forall i :: 0 <= i < |tables| ==> IsScanFor(scans[i], db, tables, conds, i)
    ensures (forall i :: 0 <= i < |scans| ==> Scoped(ScanTree(scans[i]))) <==> SameTableOnFirst(tables, conds)
  {
    forall i | 0 <= i < |scans|
      ensures forall c :: c in scans[i].conds <==> c in RestAfter(conds, tables[..i]) && Belongs(c, tables[i])
    {
      PopSplits(RestAfter(conds, tables[..i]), tables[i]);
      assert IsScanFor(scans[i], db, tables, conds, i);
    }
    forall c, i | 0 <= i <= |tables|
      ensures c in RestAfter(conds, tables[..i]) ==> c in conds && (i > 0 ==> c.lhs.tab != c.rhs.tab)
    {
      RestMembers(conds, tables[..i], c);
      if i > 0 && c in RestAfter(conds, tables[..i]) {
        assert tables[..i][0] in tables[..i];
        assert !Belongs(c, tables[0]);
      }
    }
    assert RestAfter(conds, tables[..0]) == conds;
    assert Scoped(ScanTree(scans[0])) <==> forall c :: c in scans[0].conds ==> InScope(c, {tables[0]});
  }

  // ----- Joins -----

  ghost function TabSet(tables: seq<string>, on: set<int>): set<string> {
    set i | i in on && 0 <= i < |tables| :: tables[i]
  }

  lemma {:induction false} TabSetUnion(tables: seq<string>, on1: set<int>, on2: set<int>)
    requires Distinct(tables) && on1 !! on2
    ensures TabSet(tables, on1 + on2) == TabSet(tables, on1) + TabSet(tables, on2)
    ensures TabSet(tables, on1) !! TabSet(tables, on2)
  {
    forall x | x in TabSet(tables, on1) + TabSet(tables, on2) ensures x in TabSet(tables, on1 + on2) {
      var i :| 0 <= i < |tables| && (i in on1 || i in on2) && tables[i] == x;
      assert i in on1 + on2;
    }
    assert forall i, j :: i in on1 && j in on2 && 0 <= i < |tables| && 0 <= j < |tables| ==> tables[i] != tables[j];
  }

  /** `t` joins exactly the scans numbered in `on`, each once; its conditions
      are theirs and `extra`; and it can be evaluated iff they can. */
  ghost predicate Covers(tables: seq<string>, scans: seq<Plan>, on: set<int>, t: Tree, extra: multiset<set<Condition>>) {
    && ScansFor(scans, tables)
    && Distinct(Leaves(t))
    && Elems(Leaves(t)) == TabSet(tables, on)
    && Bag(t) == ScanBag(scans, on, |scans|) + extra
    && (Scoped(t) <==> AllScoped(scans, on))
  }

  ghost predicate AllScoped(scans: seq<Plan>, on: set<int>) {
    forall i :: i in on && 0 <= i < |scans| ==> Scoped(ScanTree(scans[i]))
  }

  lemma {:induction false} AllScopedUnion(scans: seq<Plan>, on1: set<int>, on2: set<int>)
    ensures AllScoped(scans, on1 + on2) <==> AllScoped(scans, on1) && AllScoped(scans, on2)
  {
    if AllScoped(scans, on1 + on2) {
      assert forall i :: i in on1 || i in on2 ==> i in on1 + on2;
    }
  }

  lemma {:induction false} ScanBagUnion(scans: seq<Plan>, on1: set<int>, on2: set<int>, n: nat)
    requires n <= |scans| && on1 !! on2
    ensures ScanBag(scans, on1 + on2, n) == ScanBag(scans, on1, n) + ScanBag(scans, on2, n)
  {
    if n > 0 { ScanBagUnion(scans, on1, on2, n - 1); }
  }

  lemma {:induction false} ScanBagOne(scans: seq<Plan>, i: nat, n: nat)
    requires i < |scans| && n <= |scans|
    ensures ScanBag(scans, {i}, n) == if i < n then Bag(ScanTree(scans[i])) else multiset{}
  {
    if n > 0 { ScanBagOne(scans, i, n - 1); }
  }

  lemma {:induction false} CoverScan(tables: seq<string>, scans: seq<Plan>, i: nat)
    requires ScansFor(scans, tables) && i < |scans|
    ensures Covers(tables, scans, {i}, ScanTree(scans[i]), multiset{})
  {
    ScanBagOne(scans, i, |scans|);
    var t := ScanTree(scans[i]);
    assert Leaves(t) == [tables[i]];
    assert i in {i};
    assert Elems(Leaves(t)) == TabSet(tables, {i});
  }

  /** Joining two trees that cover disjoint scans, on conditions over their tables. */
  lemma {:induction false} CoverJoin(tables: seq<string>, scans: seq<Plan>, kind: JoinKind, cs: seq<Condition>,
                  on1: set<int>, t1: Tree, extra1: multiset<set<Condition>>,
                  on2: set<int>, t2: Tree, extra2: multiset<set<Condition>>)
    requires Covers(tables, scans, on1, t1, extra1) && Covers(tables, scans, on2, t2, extra2)
    requires on1 !! on2
    requires forall c :: c in cs ==> InScope(c, Elems(Leaves(t1)) + Elems(Leaves(t2)))
    ensures Covers(tables, scans, on1 + on2, Join(kind, t1, t2, cs), extra1 + extra2 + BagOf(cs))
  {
    var t := Join(kind, t1, t2, cs);
    LeavesSplit(t);
    ScanBagUnion(scans, on1, on2, |scans|);
    TabSetUnion(tables, on1, on2);
    AllScopedUnion(scans, on1, on2);
    assert Scoped(t) <==> Scoped(t1) && Scoped(t2);
    assert Bag(t) == Bag(t1) + Bag(t2) + BagOf(cs);
    hide Scoped, Bag, BagOf, Leaves, AllScoped, TabSet, ScanBag, ScansFor;
  }

  ghost function On(flags: seq<int>): set<int> {
    set i | 0 <= i < |flags| && flags[i] == 1
  }

  /** The planner's variables between two join steps: the tree so far, the
      `scantbl` flags (1 for a scan in the tree, -1 otherwise) and `joined_tables`. */
  datatype JoinVars = JoinVars(tree: Tree, flags: seq<int>, joined: seq<string>)

  ghost predicate FlagsOk(flags: seq<int>, n: nat) {
    |flags| == n && forall i :: 0 <= i < n ==> flags[i] == 1 || flags[i] == -1
  }

  /** `flags` and `joined` name the scans in the tree. */
  ghost predicate JoinState(tables: seq<string>, scans: seq<Plan>, v: JoinVars, placed: multiset<set<Condition>>) {
    && FlagsOk(v.flags, |tables|) && ScansFor(scans, tables)
    && Covers(tables, scans, On(v.flags), v.tree, placed)
    && (forall x :: x in tables ==> (x in v.joined <==> x in Leaves(v.tree)))
  }

  // ----- pop_scan -----

  predicate AreScans(scans: seq<Plan>) {
    forall i :: 0 <= i < |scans| ==> scans[i].ScanPlan?
  }

  /** The first scan of `table` from position `k` on, or the number of scans. */
  function FindScan(scans: seq<Plan>, table: string, k: nat): (i: nat)
    requires k <= |scans| && AreScans(scans)
    ensures k <= i <= |scans| && (i < |scans| ==> scans[i].tab == table)
    ensures forall j :: k <= j < i ==> scans[j].tab != table
    decreases |scans| - k
  {
    if k == |scans| || scans[k].tab == table then k else FindScan(scans, table, k + 1)
  }

  function Mark(flags: seq<int>, i: nat): seq<int> {
    if i < |flags| then flags[i := 1] else flags
  }

  /** Marks and returns the scan of `table`, or returns the null plan. */
  method PopScan(scantbl: array<int>, table: string, joined: seq<string>, plans: seq<Plan>)
    returns (p: Plan, joined': seq<string>)
    requires scantbl.Length == |plans| && AreScans(plans)
    modifies scantbl
    ensures var i := FindScan(plans, table, 0);
            && p == (if i < |plans| then plans[i] else NoPlan)
            && joined' == (if i < |plans| then joined + [table] else joined)
            && scantbl[..] == Mark(old(scantbl[..]), i)
  {
    for i := 0 to |plans|
      invariant FindScan(plans, table, 0) == FindScan(plans, table, i)
      invariant scantbl[..] == old(scantbl[..])
    {
      if plans[i].tab == table {
        scantbl[i] := 1;
        return plans[i], joined + [plans[i].tab];
      }
    }
    return NoPlan, joined;
  }

  lemma {:induction false} FindsScan(tables: seq<string>, scans: seq<Plan>, tab: string) returns (i: nat)
    requires ScansFor(scans, tables) && tab in tables
    ensures i < |scans| && i == FindScan(scans, tab, 0) && tables[i] == tab
  {
    var k :| 0 <= k < |tables| && tables[k] == tab;
    FindsAny(scans, tab, 0, k);
    i := k;
  }

  lemma {:induction false} FindsAny(scans: seq<Plan>, tab: string, k: nat, i: nat)
    requires AreScans(scans) && k <= i < |scans| && scans[i].tab == tab
    ensures FindScan(scans, tab, k) <= i
    decreases i - k
  {
    if scans[k].tab != tab { FindsAny(scans, tab, k + 1, i); }
  }

  // ----- One join condition -----

  /** Two new tables are joined with each other and then with the tree, one is
      joined with the tree on the turned condition, none means push-down. */
  ghost function AttachTree(c: Condition, left: Tree, right: Tree, needReverse: bool, t: Tree): Tree {
    if left != NoTree && right != NoTree then Join(NestLoop, Join(NestLoop, left, right, [c]), t, [])
    else if left == NoTree && right == NoTree then Push(c, t).1
    else if needReverse then Join(NestLoop, right, t, [SwapSides(c)])
    else Join(NestLoop, left, t, [c])
  }

  ghost function PopTree(scans: seq<Plan>, i: nat): Tree {
    if i < |scans| then ScanTree(scans[i]) else NoTree
  }

  /** What the loop body does for one join condition: the tables it mentions
      that are not in the tree yet join it, or it is pushed down. */
  ghost function JoinStep(c: Condition, scans: seq<Plan>, v: JoinVars): JoinVars
    requires AreScans(scans)
  {
    var n := |scans|;
    var i := if c.lhs.tab in v.joined then n else FindScan(scans, c.lhs.tab, 0);
    var joined := if i < n then v.joined + [c.lhs.tab] else v.joined;
    var j := if c.rhs.tab in joined then n else FindScan(scans, c.rhs.tab, 0);
    JoinVars(AttachTree(c, PopTree(scans, i), PopTree(scans, j), c.rhs.tab !in joined, v.tree),
             Mark(Mark(v.flags, i), j),
             if j < n then joined + [c.rhs.tab] else joined)
  }

  method Attach(c: Condition, left: Plan, right: Plan, needReverse: bool, tree: Plan) returns (tree': Plan)
    requires !left.JoinPlan? && !right.JoinPlan? && Wf(tree)
    modifies Repr(tree)
    ensures Wf(tree') && fresh(Repr(tree') - Repr(tree))
    ensures View(tree') == AttachTree(c, ScanTree(left), ScanTree(right), needReverse, old(View(tree)))
  {
    if left != NoPlan && right != NoPlan {
      var temp := new JoinNode(NestLoop, left, right, [c]);
      var node := new JoinNode(NestLoop, JoinPlan(temp), tree, []);
      tree' := JoinPlan(node);
    } else if left != NoPlan || right != NoPlan {
      var d, first := c, left;
      if needReverse {
        d := SwapSides(d);
        first := right;
      }
      var node := new JoinNode(NestLoop, first, tree, [d]);
      tree' := JoinPlan(node);
    } else {
      var _ := PushConds(c, tree);
      tree' := tree;
    }
  }

  method NextJoin(c: Condition, scantbl: array<int>, joined: seq<string>, scans: seq<Plan>, tree: Plan)
    returns (tree': Plan, joined': seq<string>)
    requires scantbl.Length == |scans| && AreScans(scans)
    requires Wf(tree)
    modifies scantbl, Repr(tree)
    ensures Wf(tree') && fresh(Repr(tree') - Repr(tree))
    ensures JoinVars(View(tree'), scantbl[..], joined') ==
            JoinStep(c, scans, JoinVars(old(View(tree)), old(scantbl[..]), joined))
  {
    ghost var t := View(tree);
    ghost var step := JoinStep(c, scans, JoinVars(t, scantbl[..], joined));
    var left, right := NoPlan, NoPlan;
    joined' := joined;
    if c.lhs.tab !in joined' {
      left, joined' := PopScan(scantbl, c.lhs.tab, joined', scans);
    }
    var needReverse := c.rhs.tab !in joined';
    if needReverse {
      right, joined' := PopScan(scantbl, c.rhs.tab, joined', scans);
    }
    assert View(tree) == t;
    assert step == JoinVars(AttachTree(c, ScanTree(left), ScanTree(right), needReverse, t), scantbl[..], joined');
    tree' := Attach(c, left, right, needReverse, tree);
  }

  /** Joining one more scan. */
  lemma {:induction false} CoverOneMore(tables: seq<string>, scans: seq<Plan>, on: set<int>, t: Tree,
                     placed: multiset<set<Condition>>, i: nat, cs: seq<Condition>)
    requires Covers(tables, scans, on, t, placed) && i < |tables| && i !in on
    requires forall c :: c in cs ==> InScope(c, {tables[i]} + Elems(Leaves(t)))
    ensures Covers(tables, scans, {i} + on, Join(NestLoop, ScanTree(scans[i]), t, cs), placed + BagOf(cs))
  {
    CoverScan(tables, scans, i);
    assert Leaves(ScanTree(scans[i])) == [tables[i]];
    CoverJoin(tables, scans, NestLoop, cs, {i}, ScanTree(scans[i]), multiset{}, on, t, placed);
    assert multiset{} + placed + BagOf(cs) == placed + BagOf(cs);
  }

  /** One more table joins the tree, at its left. */
  lemma {:induction false} AttachScan(tables: seq<string>, scans: seq<Plan>, v: JoinVars,
                   placed: multiset<set<Condition>>, i: nat, cs: seq<Condition>)
    requires JoinState(tables, scans, v, placed)
    requires i < |v.flags| && v.flags[i] == -1
    requires forall c :: c in cs ==> InScope(c, {tables[i]} + Elems(Leaves(v.tree)))
    ensures JoinState(tables, scans, JoinVars(Join(NestLoop, ScanTree(scans[i]), v.tree, cs),
                                              v.flags[i := 1], v.joined + [tables[i]]), placed + BagOf(cs))
  {
    hide Covers;
    CoverOneMore(tables, scans, On(v.flags), v.tree, placed, i, cs);
    assert On(v.flags[i := 1]) == {i} + On(v.flags);
    assert Leaves(Join(NestLoop, ScanTree(scans[i]), v.tree, cs)) == [tables[i]] + Leaves(v.tree);
    assert FlagsOk(v.flags[i := 1], |tables|);
  }

  lemma {:induction false} PairCovers(tables: seq<string>, scans: seq<Plan>, kind: JoinKind, i: nat, j: nat, c: Condition)
    requires ScansFor(scans, tables) && i < |scans| && j < |scans| && i != j
    requires c.lhs.tab == tables[i] && c.rhs.tab == tables[j]
    ensures Covers(tables, scans, {i, j}, Join(kind, ScanTree(scans[i]), ScanTree(scans[j]), [c]), BagOf([c]))
  {
    var t1, t2 := ScanTree(scans[i]), ScanTree(scans[j]);
    CoverScan(tables, scans, i);
    CoverScan(tables, scans, j);
    assert Elems(Leaves(t1)) == {tables[i]} && Elems(Leaves(t2)) == {tables[j]};
    CoverJoin(tables, scans, kind, [c], {i}, t1, multiset{}, {j}, t2, multiset{});
    assert {i} + {j} == {i, j};
    assert multiset{} + multiset{} + BagOf([c]) == BagOf([c]);
  }

  /** Two more tables, joined with each other first. */
  lemma {:induction false} AttachPair(tables: seq<string>, scans: seq<Plan>, v: JoinVars,
                   placed: multiset<set<Condition>>, i: nat, j: nat, c: Condition)
    requires JoinState(tables, scans, v, placed)
    requires i < |v.flags| && j < |v.flags| && i != j && v.flags[i] == -1 && v.flags[j] == -1
    requires c.lhs.tab == tables[i] && c.rhs.tab == tables[j]
    ensures JoinState(tables, scans,
                      JoinVars(Join(NestLoop, Join(NestLoop, ScanTree(scans[i]), ScanTree(scans[j]), [c]), v.tree, []),
                               v.flags[i := 1][j := 1], v.joined + [tables[i]] + [tables[j]]), placed + BagOf([c]))
  {
    var pair := Join(NestLoop, ScanTree(scans[i]), ScanTree(scans[j]), [c]);
    PairCovers(tables, scans, NestLoop, i, j, c);
    CoverJoin(tables, scans, NestLoop, [], {i, j}, pair, BagOf([c]), On(v.flags), v.tree, placed);
    assert On(v.flags[i := 1][j := 1]) == {i, j} + On(v.flags);
    assert BagOf([c]) + placed + BagOf([]) == placed + BagOf([c]);
    assert Leaves(pair) == [tables[i], tables[j]];
  }

  lemma {:induction false} PushCovers(tables: seq<string>, scans: seq<Plan>, v: JoinVars, placed: multiset<set<Condition>>, c: Condition)
    requires JoinState(tables, scans, v, placed) && IsJoinCond(c, tables)
    requires c.lhs.tab in Leaves(v.tree) && c.rhs.tab in Leaves(v.tree)
    ensures JoinState(tables, scans, v.(tree := Push(c, v.tree).1), placed + multiset{Norm(c)})
  {
    PushCode(c, v.tree);
    MeetEffect(c, v.tree, Push(c, v.tree).1);
  }

  lemma {:induction false} FlagOf(tables: seq<string>, scans: seq<Plan>, v: JoinVars, placed: multiset<set<Condition>>, i: nat)
    requires JoinState(tables, scans, v, placed) && i < |tables|
    ensures v.flags[i] == 1 <==> tables[i] in Leaves(v.tree)
    ensures v.flags[i] == 1 <==> tables[i] in v.joined
  {
    assert tables[i] in Leaves(v.tree) <==> tables[i] in TabSet(tables, On(v.flags));
    if tables[i] in TabSet(tables, On(v.flags)) {
      var k :| k in On(v.flags) && 0 <= k < |tables| && tables[k] == tables[i];
      assert k == i;
    }
    if v.flags[i] == 1 { assert i in On(v.flags); }
  }

  lemma {:induction false} NormOne(c: Condition)
    ensures BagOf([c]) == multiset{Norm(c)}
    ensures !c.rhsIsVal ==> BagOf([SwapSides(c)]) == multiset{Norm(c)}
  {
    assert [c][..0] == [] && [SwapSides(c)][..0] == [];
    assert SwapSides(SwapSides(c)) == c;
    assert !c.rhsIsVal ==> Norm(SwapSides(c)) == Norm(c);
  }

  /** Every step places its condition, whichever way it goes. */
  lemma {:induction false} JoinStepKeeps(c: Condition, tables: seq<string>, scans: seq<Plan>, v: JoinVars, placed: multiset<set<Condition>>)
    requires JoinState(tables, scans, v, placed) && IsJoinCond(c, tables)
    ensures AreScans(scans)
    ensures JoinState(tables, scans, JoinStep(c, scans, v), placed + multiset{Norm(c)})
  {
    NormOne(c);
    var i := FindsScan(tables, scans, c.lhs.tab);
    var j := FindsScan(tables, scans, c.rhs.tab);
    FlagOf(tables, scans, v, placed, i);
    FlagOf(tables, scans, v, placed, j);
    if c.lhs.tab !in v.joined {
      if c.rhs.tab !in v.joined {
        AttachPair(tables, scans, v, placed, i, j, c);
      } else {
        AttachScan(tables, scans, v, placed, i, [c]);
      }
    } else if c.rhs.tab !in v.joined {
      AttachScan(tables, scans, v, placed, j, [SwapSides(c)]);
    } else {
      PushCovers(tables, scans, v, placed, c);
    }
  }

  // ----- All join conditions -----

  ghost function FirstJoin(c: Condition, scans: seq<Plan>, kind: JoinKind): JoinVars
    requires AreScans(scans)
  {
    var n := |scans|;
    var i, j := FindScan(scans, c.lhs.tab, 0), FindScan(scans, c.rhs.tab, 0);
    var joined := if i < n then NoNames(n) + [c.lhs.tab] else NoNames(n);
    JoinVars(Join(kind, PopTree(scans, i), PopTree(scans, j), [c]),
             Mark(Mark(NoFlags(n), i), j),
             if j < n then joined + [c.rhs.tab] else joined)
  }

  function NoFlags(n: nat): (s: seq<int>)
    ensures |s| == n && forall i :: 0 <= i < n ==> s[i] == -1
  {
    seq(n, _ => -1)
  }

  /** `joined_tables` starts out with as many empty names as there are tables. */
  function NoNames(n: nat): (s: seq<string>)
    ensures forall x :: x in s ==> x == ""
  {
    seq(n, _ => "")
  }

  ghost function JoinFold(conds: seq<Condition>, scans: seq<Plan>, kind: JoinKind): JoinVars
    requires conds != [] && AreScans(scans)
  {
    var n := |conds| - 1;
    if n == 0 then FirstJoin(conds[0], scans, kind) else JoinStep(conds[n], scans, JoinFold(conds[..n], scans, kind))
  }

  lemma {:induction false} FirstJoinState(tables: seq<string>, scans: seq<Plan>, kind: JoinKind, c: Condition)
    requires ScansFor(scans, tables) && "" !in tables && IsJoinCond(c, tables)
    ensures AreScans(scans) && JoinState(tables, scans, FirstJoin(c, scans, kind), BagOf([c]))
  {
    var i := FindsScan(tables, scans, c.lhs.tab);
    var j := FindsScan(tables, scans, c.rhs.tab);
    PairCovers(tables, scans, kind, i, j, c);
    var v := FirstJoin(c, scans, kind);
    assert On(v.flags) == {i, j};
    assert Leaves(v.tree) == [c.lhs.tab, c.rhs.tab];
  }

  lemma {:induction false} JoinFoldState(tables: seq<string>, scans: seq<Plan>, kind: JoinKind, conds: seq<Condition>)
    requires ScansFor(scans, tables) && "" !in tables && conds != []
    requires forall c :: c in conds ==> IsJoinCond(c, tables)
    ensures AreScans(scans) && JoinState(tables, scans, JoinFold(conds, scans, kind), BagOf(conds))
  {
    var n := |conds| - 1;
    assert conds[n] in conds;
    if n == 0 {
      assert conds == [conds[0]];
      FirstJoinState(tables, scans, kind, conds[0]);
    } else {
      JoinFoldState(tables, scans, kind, conds[..n]);
      JoinStepKeeps(conds[n], tables, scans, JoinFold(conds[..n], scans, kind), BagOf(conds[..n]));
    }
  }

  method StartJoin(c: Condition, scantbl: array<int>, scans: seq<Plan>, kind: JoinKind)
    returns (tree: Plan, joined: seq<string>)
    requires scantbl.Length == |scans| && AreScans(scans) && scantbl[..] == NoFlags(|scans|)
    modifies scantbl
    ensures Wf(tree) && fresh(Repr(tree))
    ensures JoinVars(View(tree), scantbl[..], joined) == FirstJoin(c, scans, kind)
  {
    joined := NoNames(|scans|);
    var left, right;
    left, joined := PopScan(scantbl, c.lhs.tab, joined, scans);
    right, joined := PopScan(scantbl, c.rhs.tab, joined, scans);
    var node := new JoinNode(kind, left, right, [c]);
    tree := JoinPlan(node);
  }

  /** The join conditions in order, each joining new tables or pushed down. */
  method JoinByConds(conds: seq<Condition>, scantbl: array<int>, scans: seq<Plan>, kind: JoinKind) returns (tree: Plan)
    requires conds != [] && scantbl.Length == |scans| && AreScans(scans)
    requires scantbl[..] == NoFlags(|scans|)
    modifies scantbl
    ensures Wf(tree) && fresh(Repr(tree))
    ensures var v := JoinFold(conds, scans, kind); View(tree) == v.tree && scantbl[..] == v.flags
  {
    hide FirstJoin, JoinStep, AreScans;
    var joined;
    tree, joined := StartJoin(conds[0], scantbl, scans, kind);
    var rest := conds[1..];
    ghost var done := 1;
    assert conds[..1] == [conds[0]];
    while rest != []
      invariant Wf(tree) && fresh(Repr(tree))
      invariant 1 <= done <= |conds| && rest == conds[done..]
      invariant JoinVars(View(tree), scantbl[..], joined) == JoinFold(conds[..done], scans, kind)
    {
      assert conds[..done + 1][..done] == conds[..done];
      tree, joined := NextJoin(rest[0], scantbl, joined, scans, tree);
      rest := rest[1..];
      done := done + 1;
    }
    assert conds[..done] == conds;
  }

  // ----- Remaining tables -----

  ghost function Remain(scans: seq<Plan>, flags: seq<int>, t: Tree, n: nat): Tree
    requires n <= |scans| && n <= |flags|
  {
    if n == 0 then t else
    var t' := Remain(scans, flags, t, n - 1);
    if flags[n - 1] == -1 then Join(NestLoop, ScanTree(scans[n - 1]), t', []) else t'
  }

  /** The tables no condition mentioned join the tree, at its left. */
  method JoinRemaining(scantbl: array<int>, scans: seq<Plan>, tree: Plan) returns (tree': Plan)
    requires scantbl.Length == |scans| && AreScans(scans) && Wf(tree)
    ensures Wf(tree') && fresh(Repr(tree') - Repr(tree))
    ensures View(tree') == Remain(scans, scantbl[..], View(tree), |scans|)
  {
    tree' := tree;
    ghost var t, flags := View(tree), scantbl[..];
    for i := 0 to |scans|
      invariant Wf(tree') && fresh(Repr(tree') - Repr(tree))
      invariant View(tree') == Remain(scans, flags, t, i)
    {
      if scantbl[i] == -1 {
        var node := new JoinNode(NestLoop, scans[i], tree', []);
        tree' := JoinPlan(node);
      }
    }
  }

  ghost function Upto(n: nat): (s: set<int>)
    ensures forall i :: i in s <==> 0 <= i < n
  {
    if n == 0 then {} else Upto(n - 1) + {n - 1}
  }

  lemma {:induction false} RemainCovers(tables: seq<string>, scans: seq<Plan>, flags: seq<int>, t: Tree,
                                        placed: multiset<set<Condition>>, n: nat)
    requires n <= |tables| == |scans| && FlagsOk(flags, |tables|)
    requires Covers(tables, scans, On(flags), t, placed)
    ensures Covers(tables, scans, On(flags) + Upto(n), Remain(scans, flags, t, n), placed)
  {
    hide Covers;
    if n == 0 {
      assert On(flags) + Upto(0) == On(flags);
    } else {
      var i := n - 1;
      RemainCovers(tables, scans, flags, t, placed, i);
      if flags[i] == -1 {
        CoverOneMore(tables, scans, On(flags) + Upto(i), Remain(scans, flags, t, i), placed, i, []);
        assert placed + BagOf([]) == placed;
        assert {i} + (On(flags) + Upto(i)) == On(flags) + Upto(n);
      } else {
        assert On(flags) + Upto(i) == On(flags) + Upto(n);
      }
    }
  }

  // ----- make_one_rel -----

  /** The plan for given scans and join conditions. */
  ghost function OneRel(scans: seq<Plan>, rest: seq<Condition>, kind: JoinKind): Tree
    requires scans != [] && AreScans(scans)
  {
    if |scans| == 1 then ScanTree(scans[0]) else
    var v := if rest != [] then JoinFold(rest, scans, kind)
             else JoinVars(ScanTree(scans[0]), NoFlags(|scans|)[0 := 1], []);
    if |v.flags| == |scans| then Remain(scans, v.flags, v.tree, |scans|) else NoTree
  }

  lemma {:induction false} OneTableNoJoins(tables: seq<string>, rest: seq<Condition>)
    requires |tables| == 1 && forall c :: c in rest ==> IsJoinCond(c, tables)
    ensures rest == []
  {
    assert |rest| > 0 ==> rest[0] in rest;
    assert forall x :: x in tables ==> x == tables[0];
    assert forall c :: !IsJoinCond(c, tables);
  }

  lemma {:induction false} OneRelCovers(tables: seq<string>, scans: seq<Plan>, rest: seq<Condition>, kind: JoinKind)
    requires scans != [] && ScansFor(scans, tables) && "" !in tables
    requires forall c :: c in rest ==> IsJoinCond(c, tables)
    ensures AreScans(scans) && Covers(tables, scans, Upto(|scans|), OneRel(scans, rest, kind), BagOf(rest))
  {
    var n := |scans|;
    CoverScan(tables, scans, 0);
    if n == 1 {
      assert {0} == Upto(1);
      OneTableNoJoins(tables, rest);
    } else {
      if rest != [] {
        JoinFoldState(tables, scans, kind, rest);
        var v := JoinFold(rest, scans, kind);
        RemainCovers(tables, scans, v.flags, v.tree, BagOf(rest), n);
        assert On(v.flags) + Upto(n) == Upto(n);
      } else {
        var flags := NoFlags(n)[0 := 1];
        assert On(flags) == {0};
        RemainCovers(tables, scans, flags, ScanTree(scans[0]), multiset{}, n);
        assert On(flags) + Upto(n) == Upto(n);
      }
    }
  }

  ghost predicate ScansBuilt(db: map<string, TabMeta>, tables: seq<string>, conds: seq<Condition>, scans: seq<Plan>) {
    |scans| == |tables| && forall i :: 0 <= i < |tables| ==> IsScanFor(scans[i], db, tables, conds, i)
  }

  /** For a well-posed query every table is a leaf of the plan exactly once,
      every condition is kept exactly once up to side swap, and each sits where
      it can be evaluated iff comparisons inside one table are confined to the
      first table. */
  lemma {:induction false} PlanShape(db: map<string, TabMeta>, tables: seq<string>, conds: seq<Condition>, scans: seq<Plan>, kind: JoinKind)
    requires tables != [] && WellPosed(tables, conds) && ScansBuilt(db, tables, conds, scans)
    ensures AreScans(scans)
    ensures var t := OneRel(scans, RestAfter(conds, tables), kind);
            && Distinct(Leaves(t)) && Elems(Leaves(t)) == Elems(tables)
            && Bag(t) == BagOf(conds)
            && (Scoped(t) <==> SameTableOnFirst(tables, conds))
  {
    var rest := RestAfter(conds, tables);
    RestAreJoins(tables, conds);
    OneRelCovers(tables, scans, rest, kind);
    AllScans(db, tables, conds, scans);
  }

  /** What the scans together take. */
  lemma {:induction false} AllScans(db: map<string, TabMeta>, tables: seq<string>, conds: seq<Condition>, scans: seq<Plan>)
    requires tables != [] && WellPosed(tables, conds) && ScansBuilt(db, tables, conds, scans)
    ensures TabSet(tables, Upto(|scans|)) == Elems(tables)
    ensures ScanBag(scans, Upto(|scans|), |scans|) + BagOf(RestAfter(conds, tables)) == BagOf(conds)
    ensures AllScoped(scans, Upto(|scans|)) <==> SameTableOnFirst(tables, conds)
  {
    var on := Upto(|scans|);
    ScansScoped(db, tables, conds, scans);
    assert forall i :: 0 <= i < |tables| ==> i in on;
    assert TabSet(tables, on) == Elems(tables);
    hide Upto, SameTableOnFirst, Scoped, RestAfter, BagOf, IsScanFor;
    assert AllScoped(scans, on) <==> forall i :: 0 <= i < |scans| ==> Scoped(ScanTree(scans[i]));
    ScansKeepBag(db, tables, conds, scans, on, |scans|);
    assert tables[..|tables|] == tables;
  }

  /** The planner preserves meaning: its plan yields exactly the answers of the
      query iff comparisons inside one table are confined to the first table.
      That it does not otherwise, even over empty tables, rests on the rule that
      a condition on a missing column cannot be evaluated. */
  lemma {:induction false} PlannerPreservesMeaning(data: Database, db: map<string, TabMeta>, tables: seq<string>, conds: seq<Condition>,
                                scans: seq<Plan>, kind: JoinKind)
    requires tables != [] && WellPosed(tables, conds) && ScansBuilt(db, tables, conds, scans)
    ensures AreScans(scans)
    ensures multiset(Leaves(OneRel(scans, RestAfter(conds, tables), kind))) == multiset(tables)
    ensures Answers(data, OneRel(scans, RestAfter(conds, tables), kind), tables, conds) <==>
            SameTableOnFirst(tables, conds)
  {
    PlanShape(db, tables, conds, scans, kind);
    var t := OneRel(scans, RestAfter(conds, tables), kind);
    DistinctPermutation(Leaves(t), tables);
    PlanMeaning(data, t, tables, conds);
  }

  /** `b.x = b.y` in a query over `a` and `b`: the scan of `a`, built first,
      takes the comparison and cannot evaluate it. */
  lemma {:induction false} MisplacedComparison(data: Database, db: map<string, TabMeta>, scans: seq<Plan>, kind: JoinKind)
    requires ScansBuilt(db, ["a", "b"], [Condition(TabCol("b", "x"), EQ, false, TabCol("b", "y"), IntVal(0))], scans)
    ensures var tables, conds := ["a", "b"], [Condition(TabCol("b", "x"), EQ, false, TabCol("b", "y"), IntVal(0))];
            && scans[0].ScanPlan? && scans[0].tab == "a" && scans[0].conds == conds
            && AreScans(scans) && !Answers(data, OneRel(scans, RestAfter(conds, tables), kind), tables, conds)
  {
    var tables, conds := ["a", "b"], [Condition(TabCol("b", "x"), EQ, false, TabCol("b", "y"), IntVal(0))];
    assert conds[0] in conds && !SameTableOnFirst(tables, conds);
    PlannerPreservesMeaning(data, db, tables, conds, scans, kind);
    assert tables[..0] == [] && conds[..0] == [];
    assert IsScanFor(scans[0], db, tables, conds, 0);
    assert Belongs(conds[0], "a");
    assert Taken(conds, "a") == conds;
  }

  /** The plan is right on every database iff comparisons inside one table are
      confined to the first table. */
  lemma {:induction false} PlanIsRight(db: map<string, TabMeta>, tables: seq<string>, conds: seq<Condition>,
                                       scans: seq<Plan>, kind: JoinKind)
    requires tables != [] && ScansBuilt(db, tables, conds, scans)
    ensures AreScans(scans)
    ensures WellPosed(tables, conds) ==>
              ((forall data :: Answers(data, OneRel(scans, RestAfter(conds, tables), kind), tables, conds)) <==>
               SameTableOnFirst(tables, conds))
  {
    forall i | 0 <= i < |scans| ensures scans[i].ScanPlan? {
      assert IsScanFor(scans[i], db, tables, conds, i);
    }
    if WellPosed(tables, conds) {
      forall data ensures Answers(data, OneRel(scans, RestAfter(conds, tables), kind), tables, conds) <==>
                          SameTableOnFirst(tables, conds) {
        PlannerPreservesMeaning(data, db, tables, conds, scans, kind);
      }
      var data := Database(_ => {}, (_, _, _) => IntVal(0));
      assert Answers(data, OneRel(scans, RestAfter(conds, tables), kind), tables, conds) <==> SameTableOnFirst(tables, conds);
    }
  }

  /** The joins over the scans. */
  method JoinScans(scans: seq<Plan>, rest: seq<Condition>, kind: JoinKind) returns (tree: Plan)
    requires scans != [] && AreScans(scans)
    ensures Wf(tree) && fresh(Repr(tree)) && View(tree) == OneRel(scans, rest, kind)
  {
    if |scans| == 1 {
      return scans[0];
    }
    var scantbl := new int[|scans|](_ => -1);
    assert scantbl[..] == NoFlags(|scans|);
    if |rest| >= 1 {
      tree := JoinByConds(rest, scantbl, scans, kind);
    } else {
      tree := scans[0];
      scantbl[0] := 1;
      assert scantbl[..] == NoFlags(|scans|)[0 := 1];
    }
    tree := JoinRemaining(scantbl, scans, tree);
  }

  /** A scan per table, then joins. */
  method MakeOneRel(db: map<string, TabMeta>, tables: seq<string>, conds: seq<Condition>,
                    enableNestedLoop: bool, enableSortMerge: bool)
    returns (r: Result<Plan, PlanError>, ghost scans: seq<Plan>)
    requires tables != []
    requires forall t :: t in db ==> WfTab(db[t])
    ensures r.Err? && r.error.TableNotFound? ==> r.error.tab in tables && r.error.tab !in db
    ensures (r.Err? && r.error.TableNotFound?) <==> exists t :: t in tables && t !in db
    ensures r == Err(NoJoinExecutor) <==>
              (forall t :: t in tables ==> t in db) && |tables| > 1 && RestAfter(conds, tables) != [] &&
              !enableNestedLoop && !enableSortMerge
    ensures r.Ok? ==>
              && Wf(r.value) && fresh(Repr(r.value))
              && ScansBuilt(db, tables, conds, scans) && AreScans(scans)
              && View(r.value) == OneRel(scans, RestAfter(conds, tables),
                                         if enableNestedLoop then NestLoop else SortMerge)
    ensures r.Ok? && WellPosed(tables, conds) ==>
              ((forall data :: Answers(data, View(r.value), tables, conds)) <==> SameTableOnFirst(tables, conds))
  {
    hide Answers, OneRel, WellPosed, SameTableOnFirst, RestAfter, IsScanFor;
    scans := [];
    var built := BuildScans(db, tables, conds);
    if built.Err? {
      return Err(built.error), [];
    }
    var (scanned, rest) := built.value;
    scans := scanned;
    var kind := if enableNestedLoop then NestLoop else SortMerge;
    PlanIsRight(db, tables, conds, scans, kind);
    if |tables| > 1 && |rest| >= 1 && !enableNestedLoop && !enableSortMerge {
      return Err(NoJoinExecutor), scans;
    }
    var tree := JoinScans(scanned, rest, kind);
    return Ok(tree), scans;
  }
}
