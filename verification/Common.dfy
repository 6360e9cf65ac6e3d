/** Types shared by several components. */
module Common {

  datatype Option<+T> = None | Some(value: T)

  datatype Result<+T, +E> = Ok(value: T) | Err(error: E)

  /** The position of a record: page number and slot number (`Rid` in src/defs.h). */
  datatype Rid = Rid(pageNo: int, slotNo: int)

  datatype ColType = TypeInt | TypeFloat | TypeString

  const PAGE_SIZE := 4096

  type byte = bv8

  type bytes = seq<byte>

  ghost predicate Distinct<T>(s: seq<T>) {
    forall i, j :: 0 <= i < j < |s| ==> s[i] != s[j]
  }

  ghost function Elems<T>(s: seq<T>): set<T> {
    set x | x in s
  }

  lemma {:induction false} DistinctCount<T>(s: seq<T>, x: T)
    requires Distinct(s)
    ensures multiset(s)[x] == if x in s then 1 else 0
  {
    if s != [] {
      var n := |s| - 1;
      assert s == s[..n] + [s[n]];
      DistinctCount(s[..n], x);
    }
  }

  /** Two duplicate-free sequences with the same elements are permutations of each other. */
  lemma {:induction false} DistinctPermutation<T>(s: seq<T>, t: seq<T>)
    requires Distinct(s) && Distinct(t) && Elems(s) == Elems(t)
    ensures multiset(s) == multiset(t)
  {
    forall x: T | x in s || x in t
      ensures multiset(s)[x] == multiset(t)[x]
    {
      assert x in Elems(s) <==> x in s;
      assert x in Elems(t) <==> x in t;
      DistinctCount(s, x);
      DistinctCount(t, x);
    }
  }

  /** A duplicate-free list of numbers below `n` has at most `n` of them, and
      if it has `n` it has them all. */
  lemma {:induction false} Pigeonhole(l: seq<int>, n: nat)
    requires Distinct(l) && forall i :: 0 <= i < |l| ==> 0 <= l[i] < n
    ensures |l| <= n
    ensures |l| == n ==> forall x :: 0 <= x < n ==> x in l
    decreases n
  {
    if l == [] {
      return;
    }
    assert 0 <= l[0] < n;
    if n - 1 in l {
      var j :| 0 <= j < |l| && l[j] == n - 1;
      var rest := l[..j] + l[j + 1..];
      Pigeonhole(rest, n - 1);
      assert forall x :: x in rest ==> x in l;
    } else {
      Pigeonhole(l, n - 1);
    }
  }
}
