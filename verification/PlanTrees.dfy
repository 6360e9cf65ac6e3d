/** Plan trees as values, what they compute, and condition push-down on them
    (src/optimizer/plan.h, src/optimizer/planner.cpp). */
module PlanTrees {
  import opened Common
  import opened Conditions

  datatype ScanKind = SeqScan | IndexScan

  datatype JoinKind = NestLoop | SortMerge

  /** `NoTree` is the null plan. */
  datatype Tree =
    | NoTree
    | Scan(scanKind: ScanKind, tab: string, conds: seq<Condition>, indexCols: seq<string>)
    | Join(joinKind: JoinKind, left: Tree, right: Tree, conds: seq<Condition>)

  function Leaves(t: Tree): seq<string> {
    match t
    case NoTree => []
    case Scan(_, tab, _, _) => [tab]
    case Join(_, l, r, _) => Leaves(l) + Leaves(r)
  }

  /** All conditions of the tree, counted up to side swap. */
  function Bag(t: Tree): multiset<set<Condition>> {
    match t
    case NoTree => multiset{}
    case Scan(_, _, cs, _) => BagOf(cs)
    case Join(_, l, r, cs) => Bag(l) + Bag(r) + BagOf(cs)
  }

  ghost predicate AllInScope(cs: seq<Condition>, tabs: set<string>) {
    forall c :: c in cs ==> InScope(c, tabs)
  }

  /** No null plan, and every node's conditions only mention tables below the node. */
  ghost predicate Scoped(t: Tree) {
    match t
    case NoTree => false
    case Scan(_, tab, cs, _) => AllInScope(cs, {tab})
    case Join(_, l, r, cs) => Scoped(l) && Scoped(r) && AllInScope(cs, Elems(Leaves(t)))
  }

  // ----- What a plan computes -----

  ghost function ScanRows(db: Database, tab: string, cs: seq<Condition>): set<Tuple> {
    set r | r in db.rows(tab) && AllHold(db, cs, map[tab := r]) :: map[tab := r]
  }

  ghost function JoinRows(db: Database, xs: set<Tuple>, ys: set<Tuple>, cs: seq<Condition>): set<Tuple> {
    set x, y | x in xs && y in ys && AllHold(db, cs, x + y) :: x + y
  }

  /** A scan yields the rows passing its conditions, a join the pairs passing
      its conditions. A node whose conditions mention a column that its rows do
      not have cannot be evaluated, nor can a null plan. */
  ghost function Denote(db: Database, t: Tree): Option<set<Tuple>> {
    match t
    case NoTree => None
    case Scan(_, tab, cs, _) =>
      if AllInScope(cs, {tab}) then Some(ScanRows(db, tab, cs)) else None
    case Join(_, l, r, cs) =>
      var dl, dr := Denote(db, l), Denote(db, r);
      if dl.Some? && dr.Some? && AllInScope(cs, Elems(Leaves(t)))
      then Some(JoinRows(db, dl.value, dr.value, cs)) else None
  }

  /** `t` can be evaluated and yields exactly the answers of the query. */
  ghost predicate Answers(db: Database, t: Tree, tables: seq<string>, cs: seq<Condition>) {
    Denote(db, t).Some? && forall a :: a in Denote(db, t).value <==> IsAnswer(db, tables, cs, a)
  }

  ghost predicate TreeHolds(db: Database, t: Tree, a: Tuple) {
    match t
    case NoTree => true
    case Scan(_, _, cs, _) => AllHold(db, cs, a)
    case Join(_, l, r, cs) => TreeHolds(db, l, a) && TreeHolds(db, r, a) && AllHold(db, cs, a)
  }

  lemma {:induction false} DenoteDefined(db: Database, t: Tree)
    ensures Denote(db, t).Some? <==> Scoped(t)
  {
    if t.Join? {
      DenoteDefined(db, t.left);
      DenoteDefined(db, t.right);
    }
  }

  /** In-scope conditions do not see the other tables of a row combination. */
  lemma {:induction false} TreeHoldsLocal(db: Database, t: Tree, a: Tuple, b: Tuple)
    requires Scoped(t)
    requires forall x :: x in Leaves(t) ==> x in a && x in b && a[x] == b[x]
    ensures TreeHolds(db, t, a) <==> TreeHolds(db, t, b)
  {
    match t
    case Scan(_, tab, cs, _) =>
      assert tab in Leaves(t);
      assert forall c :: c in cs ==> (Holds(db, c, a) <==> Holds(db, c, b));
    case Join(_, l, r, cs) =>
      TreeHoldsLocal(db, l, a, b);
      TreeHoldsLocal(db, r, a, b);
      forall c | c in cs ensures Holds(db, c, a) <==> Holds(db, c, b) {
        assert InScope(c, Elems(Leaves(t)));
      }
  }

  lemma {:induction false} TreeHoldsBag(db: Database, t: Tree, a: Tuple)
    ensures TreeHolds(db, t, a) <==> BagHolds(db, Bag(t), a)
  {
    match t
    case NoTree =>
    case Scan(_, _, cs, _) =>
      AllHoldBag(db, cs, a);
    case Join(_, l, r, cs) =>
      TreeHoldsBag(db, l, a);
      TreeHoldsBag(db, r, a);
      AllHoldBag(db, cs, a);
      BagHoldsUnion(db, Bag(l), Bag(r), a);
      BagHoldsUnion(db, Bag(l) + Bag(r), BagOf(cs), a);
  }

  ghost predicate RowsOf(db: Database, tabs: set<string>, a: Tuple) {
    a.Keys == tabs && forall x :: x in a ==> a[x] in db.rows(x)
  }

  function Restrict(a: Tuple, tabs: set<string>): Tuple {
    map x | x in a && x in tabs :: a[x]
  }

  /** The compositional meaning of an evaluable plan in one step: row
      combinations of its leaves that satisfy all its conditions. */
  lemma {:induction false} DenoteFlat(db: Database, t: Tree, a: Tuple)
    requires Scoped(t) && Distinct(Leaves(t))
    ensures Denote(db, t).Some?
    ensures a in Denote(db, t).value <==> RowsOf(db, Elems(Leaves(t)), a) && TreeHolds(db, t, a)
    decreases t, 1
  {
    DenoteDefined(db, t);
    match t
    case Scan(_, tab, cs, _) =>
      assert Elems(Leaves(t)) == {tab};
      if RowsOf(db, {tab}, a) {
        assert tab in a;
        assert a == map[tab := a[tab]];
      }
    case Join(_, l, r, cs) =>
      if a in Denote(db, t).value {
        JoinSound(db, t, a);
      }
      if RowsOf(db, Elems(Leaves(t)), a) && TreeHolds(db, t, a) {
        JoinComplete(db, t, a);
      }
  }

  lemma {:induction false} JoinComplete(db: Database, t: Tree, a: Tuple)
    requires t.Join? && Scoped(t) && Distinct(Leaves(t)) && Denote(db, t).Some?
    requires RowsOf(db, Elems(Leaves(t)), a) && TreeHolds(db, t, a)
    ensures a in Denote(db, t).value
    decreases t, 0
  {
    LeavesSplit(t);
    DenoteDefined(db, t.left);
    DenoteDefined(db, t.right);
    var x, y := Restrict(a, Elems(Leaves(t.left))), Restrict(a, Elems(Leaves(t.right)));
    assert a == x + y;
    DenoteFlat(db, t.left, x);
    DenoteFlat(db, t.right, y);
    TreeHoldsLocal(db, t.left, x, a);
    TreeHoldsLocal(db, t.right, y, a);
  }

  lemma {:induction false} JoinSound(db: Database, t: Tree, a: Tuple)
    requires t.Join? && Scoped(t) && Distinct(Leaves(t))
    requires Denote(db, t).Some? && a in Denote(db, t).value
    ensures RowsOf(db, Elems(Leaves(t)), a) && TreeHolds(db, t, a)
    decreases t, 0
  {
    LeavesSplit(t);
    DenoteDefined(db, t.left);
    DenoteDefined(db, t.right);
    var x, y :| x in Denote(db, t.left).value && y in Denote(db, t.right).value
      && AllHold(db, t.conds, x + y) && a == x + y;
    DenoteFlat(db, t.left, x);
    DenoteFlat(db, t.right, y);
    TreeHoldsLocal(db, t.left, x, a);
    TreeHoldsLocal(db, t.right, y, a);
  }

  lemma {:induction false} LeavesSplit(t: Tree)
    requires t.Join?
    ensures Elems(Leaves(t)) == Elems(Leaves(t.left)) + Elems(Leaves(t.right))
    ensures Distinct(Leaves(t)) <==>
            Distinct(Leaves(t.left)) && Distinct(Leaves(t.right)) &&
            Elems(Leaves(t.left)) !! Elems(Leaves(t.right))
  {
    DistinctConcat(Leaves(t.left), Leaves(t.right));
  }

  lemma {:induction false} DistinctConcat<T>(s: seq<T>, t: seq<T>)
    ensures Elems(s + t) == Elems(s) + Elems(t)
    ensures Distinct(s + t) <==> Distinct(s) && Distinct(t) && Elems(s) !! Elems(t)
  {
    var u := s + t;
    assert forall i :: 0 <= i < |s| ==> u[i] == s[i];
    assert forall j :: 0 <= j < |t| ==> u[|s| + j] == t[j];
    if Distinct(u) {
      assert forall i, j :: 0 <= i < |s| && 0 <= j < |t| ==> s[i] != t[j];
    }
    if Distinct(s) && Distinct(t) && Elems(s) !! Elems(t) {
      forall i, j | 0 <= i < j < |u| ensures u[i] != u[j] {
        if i < |s| <= j {
          assert s[i] in Elems(s) && t[j - |s|] in Elems(t);
        }
      }
    }
  }

  /** A plan with the query's tables as its leaves and the query's conditions
      as its conditions means the same as the query exactly when every
      condition sits where its columns are available. */
  lemma {:induction false} PlanMeaning(db: Database, t: Tree, tables: seq<string>, cs: seq<Condition>)
    requires Distinct(Leaves(t)) && Elems(Leaves(t)) == Elems(tables)
    requires Bag(t) == BagOf(cs)
    ensures Answers(db, t, tables, cs) <==> Scoped(t)
  {
    DenoteDefined(db, t);
    if Scoped(t) {
      forall a ensures a in Denote(db, t).value <==> IsAnswer(db, tables, cs, a) {
        DenoteFlat(db, t, a);
        TreeHoldsBag(db, t, a);
        AllHoldBag(db, cs, a);
      }
    }
  }

  // ----- Condition push-down -----

  const NEITHER := 0
  const LEFT_ONLY := 1
  const RIGHT_ONLY := 2
  const PUSHED := 3

  /** `push_conds`: which columns of `c` were found below `t`, and the tree after. */
  function Push(c: Condition, t: Tree): (r: (int, Tree))
    ensures NEITHER <= r.0 <= PUSHED
    ensures r.0 != PUSHED ==> r.1 == t
  {
    match t
    case NoTree => (NEITHER, t)
    case Scan(_, tab, _, _) =>
      (if tab == c.lhs.tab then LEFT_ONLY else if tab == c.rhs.tab then RIGHT_ONLY else NEITHER, t)
    case Join(k, l, r, cs) =>
      var pl := Push(c, l);
      if pl.0 == PUSHED then (PUSHED, Join(k, pl.1, r, cs)) else
      var pr := Push(c, r);
      if pr.0 == PUSHED then (PUSHED, Join(k, l, pr.1, cs)) else
      if pl.0 == NEITHER || pr.0 == NEITHER then (pl.0 + pr.0, t) else
      (PUSHED, Join(k, l, r, cs + [if pl.0 == RIGHT_ONLY then SwapSides(c) else c]))
  }

  /** `t'` is `t` with `c` added at the lowest join that has both its tables
      below it, turned so that its left column comes from the left subtree. */
  ghost predicate AddedAtMeet(c: Condition, t: Tree, t': Tree) {
    t.Join? && t'.Join? && t'.joinKind == t.joinKind &&
    var inL, inR := Elems(Leaves(t.left)), Elems(Leaves(t.right));
    if c.lhs.tab in inL && c.rhs.tab in inL then
      t'.right == t.right && t'.conds == t.conds && AddedAtMeet(c, t.left, t'.left)
    else if c.lhs.tab in inR && c.rhs.tab in inR then
      t'.left == t.left && t'.conds == t.conds && AddedAtMeet(c, t.right, t'.right)
    else
      t'.left == t.left && t'.right == t.right &&
      if c.lhs.tab in inL then t'.conds == t.conds + [c] else t'.conds == t.conds + [SwapSides(c)]
  }

  /** The result code says exactly which of the two tables are below, and with
      both below the condition lands at their lowest common join. */
  lemma {:induction false} PushCode(c: Condition, t: Tree)
    requires Distinct(Leaves(t)) && c.lhs.tab != c.rhs.tab
    ensures Push(c, t).0 ==
            (if c.lhs.tab in Leaves(t) then 1 else 0) + (if c.rhs.tab in Leaves(t) then 2 else 0)
    ensures Push(c, t).0 == PUSHED ==> AddedAtMeet(c, t, Push(c, t).1)
  {
    if t.Join? {
      LeavesSplit(t);
      PushCode(c, t.left);
      PushCode(c, t.right);
      assert forall x :: x in Leaves(t) <==> x in Elems(Leaves(t));
      assert forall x :: x in Leaves(t.left) <==> x in Elems(Leaves(t.left));
      assert forall x :: x in Leaves(t.right) <==> x in Elems(Leaves(t.right));
    }
  }

  /** Adding a condition at the meet keeps the leaves, adds exactly that
      condition up to side swap, and keeps every condition evaluable. */
  lemma {:induction false} MeetEffect(c: Condition, t: Tree, t': Tree)
    requires AddedAtMeet(c, t, t') && !c.rhsIsVal
    requires c.lhs.tab in Leaves(t) && c.rhs.tab in Leaves(t)
    ensures Leaves(t') == Leaves(t)
    ensures Bag(t') == Bag(t) + multiset{Norm(c)}
    ensures Scoped(t') <==> Scoped(t)
  {
    var inL, inR := Elems(Leaves(t.left)), Elems(Leaves(t.right));
    LeavesSplit(t);
    if c.lhs.tab in inL && c.rhs.tab in inL {
      MeetEffect(c, t.left, t'.left);
    } else if c.lhs.tab in inR && c.rhs.tab in inR {
      MeetEffect(c, t.right, t'.right);
    } else {
      MeetHere(c, t, t', if c.lhs.tab in inL then c else SwapSides(c));
    }
  }

  /** The condition `c`, as it is or turned round, added at the root. */
  lemma {:induction false} MeetHere(c: Condition, t: Tree, t': Tree, d: Condition)
    requires t.Join? && t' == t.(conds := t.conds + [d]) && (d == c || d == SwapSides(c)) && !c.rhsIsVal
    requires c.lhs.tab in Leaves(t) && c.rhs.tab in Leaves(t)
    ensures Bag(t') == Bag(t) + multiset{Norm(c)}
    ensures Scoped(t') <==> Scoped(t)
  {
    assert t'.conds[..|t'.conds| - 1] == t.conds;
    assert SwapSides(SwapSides(c)) == c;
    assert Norm(d) == Norm(c);
    assert c.lhs.tab in Elems(Leaves(t)) && c.rhs.tab in Elems(Leaves(t));
    assert InScope(d, Elems(Leaves(t)));
    assert forall e :: e in t'.conds <==> e in t.conds || e == d;
  }

  /** Pushing a condition down filters what the tree computes by that condition. */
  lemma {:induction false} PushFilters(db: Database, c: Condition, t: Tree, a: Tuple)
    requires Scoped(t) && Distinct(Leaves(t))
    requires !c.rhsIsVal && c.lhs.tab != c.rhs.tab
    requires c.lhs.tab in Leaves(t) && c.rhs.tab in Leaves(t)
    ensures Denote(db, t).Some? && Denote(db, Push(c, t).1).Some?
    ensures a in Denote(db, Push(c, t).1).value <==> a in Denote(db, t).value && Holds(db, c, a)
  {
    var t' := Push(c, t).1;
    PushCode(c, t);
    MeetEffect(c, t, t');
    DenoteFlat(db, t, a);
    DenoteFlat(db, t', a);
    TreeHoldsBag(db, t, a);
    TreeHoldsBag(db, t', a);
    BagHoldsUnion(db, Bag(t), multiset{Norm(c)}, a);
    NormHolds(db, c, a);
  }
}
