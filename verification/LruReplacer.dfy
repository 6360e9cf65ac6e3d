/** The replacer (src/replacer/lru_replacer.cpp): a list of evictable frames
    and a hash from frame to its list cell, changed together. */
module LruReplacers {
  import opened Common
  import opened Pool
  import opened PoolInvariant

  /** A list cell; `key` is its identity, which is what an iterator denotes. */
  datatype Cell = Cell(key: nat, frame: int)

  function FramesOf(list: seq<Cell>): (l: seq<int>)
    ensures |l| == |list| && forall i :: 0 <= i < |l| ==> l[i] == list[i].frame
  {
    seq(|list|, i requires 0 <= i < |list| => list[i].frame)
  }

  /** The hash takes every listed frame to its cell, and nothing else. */
  ghost predicate Matches(list: seq<Cell>, hash: map<int, nat>) {
    && (forall i, j :: 0 <= i < j < |list| ==> list[i].key != list[j].key)
    && (forall i :: 0 <= i < |list| ==> list[i].frame in hash && hash[list[i].frame] == list[i].key)
    && (forall f :: f in hash ==> Cell(hash[f], f) in list)
  }

  /** List and hash describe the same frames, none twice. */
  lemma {:induction false} MatchedFrames(list: seq<Cell>, hash: map<int, nat>)
    requires Matches(list, hash)
    ensures Distinct(FramesOf(list))
    ensures forall f :: f in FramesOf(list) <==> f in hash
    ensures |hash| == |list|
  {
    forall f ensures f in FramesOf(list) <==> f in hash {
      if f in hash {
        var i :| 0 <= i < |list| && list[i] == Cell(hash[f], f);
        assert FramesOf(list)[i] == f;
      }
    }
    assert hash.Keys == Elems(FramesOf(list));
    DistinctSize(FramesOf(list));
  }

  /** Erasing a cell through its iterator and its hash entry. */
  lemma {:induction false} RemoveCell(list: seq<Cell>, hash: map<int, nat>, i: nat)
    requires Matches(list, hash) && i < |list|
    ensures Matches(list[..i] + list[i + 1..], hash - {list[i].frame})
  {
    var list', hash' := list[..i] + list[i + 1..], hash - {list[i].frame};
    forall f | f in hash' ensures Cell(hash'[f], f) in list' {
      var k :| 0 <= k < |list| && list[k] == Cell(hash[f], f);
      assert k < i ==> list'[k] == list[k];
      assert k > i ==> list'[k - 1] == list[k];
    }
    assert forall k :: 0 <= k < |list'| ==> list'[k] == list[if k < i then k else k + 1];
  }

  lemma {:induction false} RemoveFrame(list: seq<Cell>, hash: map<int, nat>, i: nat)
    requires Matches(list, hash) && i < |list|
    ensures FramesOf(list[..i] + list[i + 1..]) == Without(FramesOf(list), list[i].frame)
  {
    MatchedFrames(list, hash);
    WithoutAt(FramesOf(list), i);
  }

  class LruReplacer {
    var list: seq<Cell>
    var hash: map<int, nat>
    var nextKey: nat
    const maxSize: nat

    ghost predicate Valid()
      reads this
    {
      Matches(list, hash) && forall i :: 0 <= i < |list| ==> list[i].key < nextKey
    }

    /** The evictable frames, most recently unpinned first. */
    ghost function Frames(): seq<int>
      reads this
    {
      FramesOf(list)
    }

    constructor (numPages: nat)
      ensures Valid() && Frames() == [] && maxSize == numPages
    {
      list, hash, nextKey, maxSize := [], map[], 0, numPages;
    }

    method Victim() returns (ok: bool, frame: int)
      requires Valid()
      modifies this
      ensures Valid()
      ensures ok <==> old(Frames()) != []
      ensures !ok ==> Frames() == old(Frames())
      ensures ok ==> var l := old(Frames()); frame == l[|l| - 1] && Frames() == l[..|l| - 1]
    {
      frame := 0;
      if list == [] {
        return false, frame;
      }
      var n := |list| - 1;
      frame := list[n].frame;
      hash := hash - {frame};
      list := list[..n];
      return true, frame;
    }

    method Pin(frame: int)
      requires Valid()
      modifies this
      ensures Valid()
      ensures Frames() == Without(old(Frames()), frame)
    {
      MatchedFrames(list, hash);
      if frame in hash {
        var i :| 0 <= i < |list| && list[i].key == hash[frame];
        assert list[i].frame == frame;
        RemoveCell(list, hash, i);
        RemoveFrame(list, hash, i);
        list := list[..i] + list[i + 1..];
        hash := hash - {frame};
      } else {
        WithoutAbsent(Frames(), frame);
      }
    }

    method Unpin(frame: int)
      requires Valid()
      modifies this
      ensures Valid()
      ensures Frames() == if frame in old(Frames()) then old(Frames()) else [frame] + old(Frames())
    {
      MatchedFrames(list, hash);
      if frame in hash {
        return;
      }
      ghost var l := Frames();
      list := [Cell(nextKey, frame)] + list;
      hash := hash[frame := nextKey];
      nextKey := nextKey + 1;
      assert Frames() == [frame] + l;
    }

    method Size() returns (n: nat)
      requires Valid()
      ensures n == |Frames()|
    {
      n := |list|;
    }
  }

  lemma {:induction false} DistinctSize<T>(s: seq<T>)
    requires Distinct(s)
    ensures |Elems(s)| == |s|
  {
    if s != [] {
      var n := |s| - 1;
      DistinctSize(s[..n]);
      assert Elems(s) == Elems(s[..n]) + {s[n]};
    }
  }

  lemma {:induction false} WithoutAt(l: seq<int>, i: nat)
    requires Distinct(l) && i < |l|
    ensures Without(l, l[i]) == l[..i] + l[i + 1..]
  {
    if i == 0 {
      WithoutAbsent(l[1..], l[0]);
    } else {
      WithoutAt(l[1..], i - 1);
    }
  }
}
