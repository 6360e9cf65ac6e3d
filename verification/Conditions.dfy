/** Where-clause conditions and the row combinations they select (src/common/common.h). */
module Conditions {
  import opened Common

  datatype CompOp = EQ | NE | LT | GT | LE | GE

  datatype Value = IntVal(i: int) | FloatVal(f: real) | StrVal(s: string)

  datatype TabCol = TabCol(tab: string, col: string)

  /** `lhs op rhs`, where the right-hand side is the value `val` if `rhsIsVal`
      and the column `rhs` otherwise. */
  datatype Condition = Condition(lhs: TabCol, op: CompOp, rhsIsVal: bool, rhs: TabCol, val: Value)

  /** The `swap_op` table of the planner. */
  function SwapOp(op: CompOp): CompOp {
    match op
    case EQ => EQ
    case NE => NE
    case LT => GT
    case GT => LT
    case LE => GE
    case GE => LE
  }

  function SwapSides(c: Condition): Condition {
    c.(lhs := c.rhs, rhs := c.lhs, op := SwapOp(c.op))
  }

  /** A condition up to side swap: the unit in which conditions are counted. */
  function Norm(c: Condition): set<Condition> {
    if c.rhsIsVal then {c} else {c, SwapSides(c)}
  }

  function BagOf(cs: seq<Condition>): multiset<set<Condition>> {
    if cs == [] then multiset{} else BagOf(cs[..|cs| - 1]) + multiset{Norm(cs[|cs| - 1])}
  }

  // ----- Meaning -----

  predicate StrLess(s: string, t: string) {
    t != [] && (s == [] || s[0] < t[0] || (s[0] == t[0] && StrLess(s[1..], t[1..])))
  }

  predicate Less(v: Value, w: Value) {
    match (v, w)
    case (IntVal(x), IntVal(y)) => x < y
    case (FloatVal(x), FloatVal(y)) => x < y
    case (StrVal(x), StrVal(y)) => StrLess(x, y)
    case _ => false
  }

  predicate Test(op: CompOp, v: Value, w: Value) {
    match op
    case EQ => v == w
    case NE => v != w
    case LT => Less(v, w)
    case GT => Less(w, v)
    case LE => v == w || Less(v, w)
    case GE => v == w || Less(w, v)
  }

  /** The rows of every table, and the value of each column of each row. */
  datatype Database = Database(rows: string -> set<Rid>, field: (string, Rid, string) -> Value)

  /** One row of each of several tables. */
  type Tuple = map<string, Rid>

  predicate InScope(c: Condition, tabs: set<string>) {
    c.lhs.tab in tabs && (c.rhsIsVal || c.rhs.tab in tabs)
  }

  ghost predicate Holds(db: Database, c: Condition, a: Tuple) {
    InScope(c, a.Keys) &&
    var v := db.field(c.lhs.tab, a[c.lhs.tab], c.lhs.col);
    var w := if c.rhsIsVal then c.val else db.field(c.rhs.tab, a[c.rhs.tab], c.rhs.col);
    Test(c.op, v, w)
  }

  ghost predicate AllHold(db: Database, cs: seq<Condition>, a: Tuple) {
    forall c :: c in cs ==> Holds(db, c, a)
  }

  ghost predicate BagHolds(db: Database, bag: multiset<set<Condition>>, a: Tuple) {
    forall s :: s in bag ==> forall c :: c in s ==> Holds(db, c, a)
  }

  /** What the query asks for: row combinations of the cross product of `tables`
      that satisfy every condition. */
  ghost predicate IsAnswer(db: Database, tables: seq<string>, cs: seq<Condition>, a: Tuple) {
    && a.Keys == Elems(tables)
    && (forall x :: x in a ==> a[x] in db.rows(x))
    && AllHold(db, cs, a)
  }

  // ----- Laws -----

  /** Exchanging the sides and mirroring the operator does not change what a
      column comparison selects, and doing it twice gives the condition back. */
  lemma {:induction false} SwapKeepsMeaning(db: Database, c: Condition, a: Tuple)
    requires !c.rhsIsVal
    ensures Holds(db, SwapSides(c), a) <==> Holds(db, c, a)
    ensures SwapSides(SwapSides(c)) == c
    ensures Norm(SwapSides(c)) == Norm(c)
  {
    assert SwapSides(SwapSides(c)) == c;
  }

  lemma {:induction false} NormHolds(db: Database, c: Condition, a: Tuple)
    ensures (forall d :: d in Norm(c) ==> Holds(db, d, a)) <==> Holds(db, c, a)
  {
    assert c in Norm(c);
    if !c.rhsIsVal { SwapKeepsMeaning(db, c, a); }
  }

  lemma {:induction false} AllHoldBag(db: Database, cs: seq<Condition>, a: Tuple)
    ensures AllHold(db, cs, a) <==> BagHolds(db, BagOf(cs), a)
  {
    if cs != [] {
      var n := |cs| - 1;
      assert cs == cs[..n] + [cs[n]];
      AllHoldBag(db, cs[..n], a);
      NormHolds(db, cs[n], a);
      BagHoldsUnion(db, BagOf(cs[..n]), multiset{Norm(cs[n])}, a);
      assert AllHold(db, cs, a) <==> AllHold(db, cs[..n], a) && Holds(db, cs[n], a);
    }
  }

  lemma {:induction false} BagHoldsUnion(db: Database, b1: multiset<set<Condition>>, b2: multiset<set<Condition>>, a: Tuple)
    ensures BagHolds(db, b1 + b2, a) <==> BagHolds(db, b1, a) && BagHolds(db, b2, a)
  {
    assert forall s :: s in b1 + b2 <==> s in b1 || s in b2;
  }

  lemma {:induction false} BagOfConcat(cs: seq<Condition>, ds: seq<Condition>)
    ensures BagOf(cs + ds) == BagOf(cs) + BagOf(ds)
  {
    if ds == [] {
      assert cs + ds == cs;
    } else {
      var n := |ds| - 1;
      assert (cs + ds)[..|cs + ds| - 1] == cs + ds[..n];
      BagOfConcat(cs, ds[..n]);
    }
  }
}
