/**
 * Small value types and sequence operations shared by every component:
 * Swift's `Optional`, `filter`, `prefix`, `firstIndex(where:)`,
 * `contains(where:)` and `remove(atOffsets:)`.
 */
module Common {

  /** Swift's `Optional<T>`. */
  datatype Option<+T> = None | Some(value: T) {

    /** `x ?? default` */
    function GetOr(default: T): T {
      match this
      case Some(v) => v
      case None => default
    }
  }

  /**
   * What a network request produced once decoding was attempted: a failure
   * (transport, missing data or JSON decoding) with its description, or the
   * decoded value.
   */
  datatype Reply<T> = Failed(description: string) | Received(value: T)

  /** Each index is smaller than the next. */
  predicate Increasing(idx: seq<nat>) {
    forall k, l :: 0 <= k < l < |idx| ==> idx[k] < idx[l]
  }

  /** `r` lists the elements of `xs` at the indices `idx`, in that order. */
  ghost predicate PicksAt<T>(r: seq<T>, xs: seq<T>, idx: seq<nat>) {
    |r| == |idx| && forall k :: 0 <= k < |idx| ==> idx[k] < |xs| && r[k] == xs[idx[k]]
  }

  /** The indices of `xs` whose elements satisfy `p`, smallest first (see `MatchingSpec`). */
  function Matching<T>(xs: seq<T>, p: T -> bool): seq<nat>
    decreases |xs|
  {
    if |xs| == 0 then []
    else Matching(xs[..|xs| - 1], p) + (if p(xs[|xs| - 1]) then [|xs| - 1] else [])
  }

  /** `Matching` lists every index whose element satisfies `p`, and no other, in increasing order. */
  lemma {:induction false} MatchingSpec<T>(xs: seq<T>, p: T -> bool)
    ensures Increasing(Matching(xs, p))
    ensures forall k :: 0 <= k < |Matching(xs, p)| ==> Matching(xs, p)[k] < |xs| && p(xs[Matching(xs, p)[k]])
    ensures forall i :: 0 <= i < |xs| && p(xs[i]) ==> i in Matching(xs, p)
    decreases |xs|
  {
    if |xs| != 0 {
      var n := |xs| - 1;
      var front := Matching(xs[..n], p);
      MatchingSpec(xs[..n], p);
      assert forall k :: 0 <= k < |front| ==> xs[..n][front[k]] == xs[front[k]];
      assert forall i :: 0 <= i < n ==> xs[..n][i] == xs[i];
    }
  }

  /**
   * `r` is the sub-list of `xs` made of exactly the elements that satisfy
   * `p`, each once and in their original order.
   */
  ghost predicate KeepsInOrder<T>(r: seq<T>, xs: seq<T>, p: T -> bool) {
    PicksAt(r, xs, Matching(xs, p))
  }

  lemma FirstIsMember(b: seq<nat>)
    requires |b| != 0
    ensures b[0] in b
  {
  }

  /** Two increasing index lists with the same members are the same list. */
  lemma {:induction false} IncreasingUnique(a: seq<nat>, b: seq<nat>)
    requires Increasing(a) && Increasing(b)
    requires forall x :: x in a <==> x in b
    ensures a == b
    decreases |a|
  {
    if |a| == 0 {
      if |b| != 0 {
        FirstIsMember(b);
        assert false;
      }
    } else {
      assert a[0] in b;
      assert b[0] in a;
      forall x
        ensures x in a[1..] <==> x in b[1..]
      {
        if x in a[1..] {
          var j :| 1 <= j < |a| && a[j] == x;
          assert a[0] < x;
          assert x in a;
          var i :| 0 <= i < |b| && b[i] == x;
          assert i != 0;
          assert b[1..][i - 1] == x;
        }
        if x in b[1..] {
          var j :| 1 <= j < |b| && b[j] == x;
          assert b[0] < x;
          assert x in b;
          var i :| 0 <= i < |a| && a[i] == x;
          assert i != 0;
          assert a[1..][i - 1] == x;
        }
      }
      IncreasingUnique(a[1..], b[1..]);
      assert a == [a[0]] + a[1..] && b == [b[0]] + b[1..];
    }
  }

  /** Every index shifted up by one. */
  function Shift(idx: seq<nat>): (r: seq<nat>)
    ensures |r| == |idx| && forall k :: 0 <= k < |idx| ==> r[k] == idx[k] + 1
  {
    seq(|idx|, k requires 0 <= k < |idx| => idx[k] + 1)
  }

  /** An index is a match exactly when it is in range and its element satisfies `p`. */
  lemma InMatching<T>(xs: seq<T>, p: T -> bool, x: nat)
    ensures x in Matching(xs, p) <==> x < |xs| && p(xs[x])
  {
    MatchingSpec(xs, p);
    var m := Matching(xs, p);
    if x in m {
      var k :| 0 <= k < |m| && m[k] == x;
    }
  }

  /** The candidate for the matches of a non-empty `xs`, built from its tail's. */
  function ConsMatching<T>(xs: seq<T>, p: T -> bool): seq<nat>
    requires |xs| > 0
  {
    (if p(xs[0]) then [0] else []) + Shift(Matching(xs[1..], p))
  }

  lemma ConsMatchingIncreasing<T>(xs: seq<T>, p: T -> bool)
    requires |xs| > 0
    ensures Increasing(ConsMatching(xs, p))
  {
    var c := ConsMatching(xs, p);
    var shifted := Shift(Matching(xs[1..], p));
    MatchingSpec(xs[1..], p);
    forall k, l | 0 <= k < l < |c|
      ensures c[k] < c[l]
    {
      if p(xs[0]) {
        assert c[l] == shifted[l - 1];
        if k > 0 {
          assert c[k] == shifted[k - 1];
        }
      } else {
        assert c[k] == shifted[k] && c[l] == shifted[l];
      }
    }
  }

  lemma InShift(idx: seq<nat>, x: nat)
    ensures x in Shift(idx) <==> x > 0 && x - 1 in idx
  {
    var sh := Shift(idx);
    if x in sh {
      var m :| 0 <= m < |sh| && sh[m] == x;
      assert idx[m] == x - 1;
    }
    if x > 0 && x - 1 in idx {
      var m :| 0 <= m < |idx| && idx[m] == x - 1;
      assert sh[m] == x;
    }
  }

  lemma ConsMatchingMembers<T>(xs: seq<T>, p: T -> bool, x: nat)
    requires |xs| > 0
    ensures x in ConsMatching(xs, p) <==> x < |xs| && p(xs[x])
  {
    var tail := Matching(xs[1..], p);
    InShift(tail, x);
    if x > 0 {
      InMatching(xs[1..], p, x - 1);
      assert x < |xs| ==> xs[1..][x - 1] == xs[x];
    }
  }

  /** The matches of `xs` are the head's, if it matches, then the tail's moved up by one. */
  lemma MatchingCons<T>(xs: seq<T>, p: T -> bool)
    requires |xs| > 0
    ensures Matching(xs, p) == ConsMatching(xs, p)
  {
    forall x: nat
      ensures x in Matching(xs, p) <==> x in ConsMatching(xs, p)
    {
      InMatching(xs, p, x);
      ConsMatchingMembers(xs, p, x);
    }
    ConsMatchingIncreasing(xs, p);
    MatchingSpec(xs, p);
    IncreasingUnique(Matching(xs, p), ConsMatching(xs, p));
  }

  /** The elements of `xs` that satisfy `p`, in their original order (Swift's `filter`). */
  function Filter<T>(xs: seq<T>, p: T -> bool): (r: seq<T>)
    ensures |r| <= |xs|
    ensures forall i :: 0 <= i < |r| ==> r[i] in xs && p(r[i])
    ensures forall i :: 0 <= i < |xs| && p(xs[i]) ==> xs[i] in r
    ensures multiset(r) <= multiset(xs)
    decreases |xs|
  {
    if |xs| == 0 then []
    else
      var rest := Filter(xs[1..], p);
      assert xs == [xs[0]] + xs[1..];
      if p(xs[0]) then [xs[0]] + rest else rest
  }

  /**
   * `Filter` keeps exactly the matching elements, each once and in order:
   * the result is `xs` read at the matching indices.
   */
  lemma {:induction false} FilterKeepsInOrder<T>(xs: seq<T>, p: T -> bool)
    ensures KeepsInOrder(Filter(xs, p), xs, p)
    decreases |xs|
  {
    if |xs| != 0 {
      FilterKeepsInOrder(xs[1..], p);
      MatchingCons(xs, p);
      PicksCons(xs, Filter(xs[1..], p), Matching(xs[1..], p), p(xs[0]));
    }
  }

  /** Reading the tail at some indices, optionally after the head, reads `xs` at those indices moved up by one. */
  lemma PicksCons<T>(xs: seq<T>, rest: seq<T>, tail: seq<nat>, take: bool)
    requires |xs| > 0 && PicksAt(rest, xs[1..], tail)
    ensures PicksAt((if take then [xs[0]] else []) + rest, xs, (if take then [0] else []) + Shift(tail))
  {
    var shifted := Shift(tail);
    var head := if take then [0] else [];
    var r := (if take then [xs[0]] else []) + rest;
    var idx := head + shifted;
    forall k | 0 <= k < |idx|
      ensures idx[k] < |xs| && r[k] == xs[idx[k]]
    {
      if k >= |head| {
        var m := k - |head|;
        assert idx[k] == shifted[m] == tail[m] + 1;
        assert r[k] == rest[m] == xs[1..][tail[m]];
      }
    }
  }

  /** The indices of `xs` whose elements fail `p`. */
  function Failing<T>(xs: seq<T>, p: T -> bool): (r: set<nat>)
    ensures forall i :: i in r <==> 0 <= i < |xs| && !p(xs[i])
  {
    set i: nat | i < |xs| && !p(xs[i])
  }

  /** Only one list keeps exactly the matching elements in order: the filter. */
  lemma KeepsInOrderIsFilter<T>(r: seq<T>, xs: seq<T>, p: T -> bool)
    requires KeepsInOrder(r, xs, p)
    ensures r == Filter(xs, p)
  {
    FilterKeepsInOrder(xs, p);
    var idx := Matching(xs, p);
    assert forall k :: 0 <= k < |r| ==> r[k] == xs[idx[k]] == Filter(xs, p)[k];
  }

  /**
   * Filtering is `remove(atOffsets:)` at the failing indices: both keep the
   * other elements, in order.
   */
  lemma FilterIsRemoveAtOffsets<T>(xs: seq<T>, p: T -> bool)
    ensures Filter(xs, p) == RemoveAtOffsets(xs, Failing(xs, p))
  {
    var offsets := Failing(xs, p);
    var kept := KeptIndices(|xs|, offsets);
    var idx := Matching(xs, p);
    forall x: nat
      ensures x in kept <==> x in idx
    {
      InMatching(xs, p, x);
    }
    MatchingSpec(xs, p);
    IncreasingUnique(kept, idx);
    FilterKeepsInOrder(xs, p);
    var r := RemoveAtOffsets(xs, offsets);
    assert forall k :: 0 <= k < |r| ==> r[k] == xs[idx[k]] == Filter(xs, p)[k];
  }

  lemma {:induction false} FilterAppend<T>(xs: seq<T>, ys: seq<T>, p: T -> bool)
    ensures Filter(xs + ys, p) == Filter(xs, p) + Filter(ys, p)
    decreases |xs|
  {
    if |xs| == 0 {
      assert xs + ys == ys;
    } else {
      assert (xs + ys)[1..] == xs[1..] + ys;
      FilterAppend(xs[1..], ys, p);
    }
  }

  /** Filtering with a weaker test first changes nothing: `q` implies `p`. */
  lemma {:induction false} FilterOfFilter<T>(xs: seq<T>, p: T -> bool, q: T -> bool)
    requires forall x :: q(x) ==> p(x)
    ensures Filter(Filter(xs, p), q) == Filter(xs, q)
    decreases |xs|
  {
    if |xs| != 0 {
      FilterOfFilter(xs[1..], p, q);
      if p(xs[0]) {
        assert ([xs[0]] + Filter(xs[1..], p))[1..] == Filter(xs[1..], p);
      }
    }
  }

  /** A filter whose test holds everywhere keeps the whole sequence. */
  lemma {:induction false} FilterKeepsAll<T>(xs: seq<T>, p: T -> bool)
    requires forall i :: 0 <= i < |xs| ==> p(xs[i])
    ensures Filter(xs, p) == xs
    decreases |xs|
  {
    if |xs| != 0 {
      FilterKeepsAll(xs[1..], p);
      assert [xs[0]] + xs[1..] == xs;
    }
  }

  /** Filtering by a test that fails everywhere leaves nothing. */
  lemma {:induction false} FilterDropsAll<T>(xs: seq<T>, p: T -> bool)
    requires forall i :: 0 <= i < |xs| ==> !p(xs[i])
    ensures Filter(xs, p) == []
    decreases |xs|
  {
    if |xs| != 0 {
      FilterDropsAll(xs[1..], p);
    }
  }

  /** Something passes the filter exactly when some element passes the test. */
  lemma FilterNonEmpty<T>(xs: seq<T>, p: T -> bool)
    ensures |Filter(xs, p)| > 0 <==> exists i :: 0 <= i < |xs| && p(xs[i])
  {
    var f := Filter(xs, p);
    if |f| > 0 {
      var i :| 0 <= i < |xs| && xs[i] == f[0];
      assert p(xs[i]);
    }
    if exists i :: 0 <= i < |xs| && p(xs[i]) {
      var i :| 0 <= i < |xs| && p(xs[i]);
      assert xs[i] in f;
    }
  }

  /** `r` relates every element of `xs` to every later one. */
  predicate Pairwise<T>(xs: seq<T>, r: (T, T) -> bool) {
    forall i, j :: 0 <= i < j < |xs| ==> r(xs[i], xs[j])
  }

  lemma PairwiseTail<T>(xs: seq<T>, r: (T, T) -> bool)
    requires Pairwise(xs, r) && |xs| > 0
    ensures Pairwise(xs[1..], r)
  {
    forall i, j | 0 <= i < j < |xs[1..]|
      ensures r(xs[1..][i], xs[1..][j])
    {
      assert xs[1..][i] == xs[i + 1] && xs[1..][j] == xs[j + 1];
    }
  }

  lemma PairwiseCons<T>(x: T, ys: seq<T>, r: (T, T) -> bool)
    requires Pairwise(ys, r)
    requires forall k :: 0 <= k < |ys| ==> r(x, ys[k])
    ensures Pairwise([x] + ys, r)
  {
    var f := [x] + ys;
    forall i, j | 0 <= i < j < |f|
      ensures r(f[i], f[j])
    {
      assert f[j] == ys[j - 1];
      if i > 0 {
        assert f[i] == ys[i - 1];
      }
    }
  }

  /** The first element relates to everything that a filter of the rest keeps. */
  lemma HeadRelatesToFiltered<T>(xs: seq<T>, p: T -> bool, r: (T, T) -> bool)
    requires Pairwise(xs, r) && |xs| > 0
    ensures forall k :: 0 <= k < |Filter(xs[1..], p)| ==> r(xs[0], Filter(xs[1..], p)[k])
  {
    var rest := Filter(xs[1..], p);
    forall k | 0 <= k < |rest|
      ensures r(xs[0], rest[k])
    {
      assert rest[k] in xs[1..];
      var m :| 0 <= m < |xs[1..]| && xs[1..][m] == rest[k];
      assert xs[m + 1] == rest[k];
    }
  }

  /** Filtering keeps relative order, so it keeps any pairwise relation. */
  lemma {:induction false} FilterPairwise<T>(xs: seq<T>, p: T -> bool, r: (T, T) -> bool)
    requires Pairwise(xs, r)
    ensures Pairwise(Filter(xs, p), r)
    decreases |xs|
  {
    if |xs| != 0 {
      PairwiseTail(xs, r);
      FilterPairwise(xs[1..], p, r);
      if p(xs[0]) {
        HeadRelatesToFiltered(xs, p, r);
        PairwiseCons(xs[0], Filter(xs[1..], p), r);
      }
    }
  }

  lemma FilterAppend3<T>(a: seq<T>, b: seq<T>, c: seq<T>, p: T -> bool)
    ensures Filter(a + b + c, p) == Filter(a, p) + Filter(b, p) + Filter(c, p)
  {
    FilterAppend(a + b, c, p);
    FilterAppend(a, b, p);
  }

  /** The number of elements of `xs` that satisfy `p` (`xs.filter(p).count`). */
  function Count<T>(xs: seq<T>, p: T -> bool): (n: nat)
    ensures n <= |xs|
  {
    |Filter(xs, p)|
  }

  /** Swift's `contains(where:)`. */
  predicate Exists<T>(xs: seq<T>, p: T -> bool) {
    exists i :: 0 <= i < |xs| && p(xs[i])
  }

  /** Swift's `firstIndex(where:)`. */
  function FirstIndex<T>(xs: seq<T>, p: T -> bool): (r: Option<nat>)
    ensures r.Some? <==> Exists(xs, p)
    ensures r.Some? ==> r.value < |xs| && p(xs[r.value])
    ensures r.Some? ==> forall j :: 0 <= j < r.value ==> !p(xs[j])
    decreases |xs|
  {
    if |xs| == 0 then None
    else if p(xs[0]) then Some(0)
    else
      match FirstIndex(xs[1..], p)
      case None => None
      case Some(i) => Some(i + 1)
  }

  /** Swift's `Array(xs.prefix(n))`. */
  function Take<T>(xs: seq<T>, n: nat): (r: seq<T>)
    ensures |r| <= n && |r| <= |xs|
    ensures |r| == if n < |xs| then n else |xs|
    ensures forall i :: 0 <= i < |r| ==> r[i] == xs[i]
  {
    if n < |xs| then xs[..n] else xs
  }

  /** The indices below `n` that are not in `offsets`, in increasing order. */
  function KeptIndices(n: nat, offsets: set<nat>): (r: seq<nat>)
    ensures forall k :: 0 <= k < |r| ==> r[k] < n && r[k] !in offsets
    ensures forall i :: 0 <= i < n && i !in offsets ==> i in r
    ensures forall k, l :: 0 <= k < l < |r| ==> r[k] < r[l]
    decreases n
  {
    if n == 0 then []
    else KeptIndices(n - 1, offsets) + (if n - 1 in offsets then [] else [n - 1])
  }

  /**
   * Swift's `remove(atOffsets:)`: the elements at the kept indices, in
   * order. An offset outside the array traps in Swift, hence the requires.
   */
  function RemoveAtOffsets<T>(xs: seq<T>, offsets: set<nat>): (r: seq<T>)
    requires forall o :: o in offsets ==> o < |xs|
    ensures |r| == |KeptIndices(|xs|, offsets)|
    ensures forall k :: 0 <= k < |r| ==> r[k] == xs[KeptIndices(|xs|, offsets)[k]]
    ensures |r| + |offsets| == |xs|
  {
    var kept := KeptIndices(|xs|, offsets);
    KeptIndicesCount(|xs|, offsets);
    seq(|kept|, k requires 0 <= k < |kept| => xs[kept[k]])
  }

  /** Every index below `n` is either kept or removed, never both. */
  lemma KeptIndicesCount(n: nat, offsets: set<nat>)
    requires forall o :: o in offsets ==> o < n
    ensures |KeptIndices(n, offsets)| + |offsets| == n
  {
    KeptPlusRemoved(n, offsets);
    RemovedBelowAll(n, offsets);
  }

  /** How many of the indices below `n` are in `offsets`. */
  function RemovedBelow(n: nat, offsets: set<nat>): nat
    decreases n
  {
    if n == 0 then 0 else RemovedBelow(n - 1, offsets) + (if n - 1 in offsets then 1 else 0)
  }

  lemma {:induction false} KeptPlusRemoved(n: nat, offsets: set<nat>)
    ensures |KeptIndices(n, offsets)| + RemovedBelow(n, offsets) == n
    decreases n
  {
    if n > 0 {
      KeptPlusRemoved(n - 1, offsets);
    }
  }

  /** When every offset is below `n`, all of them are counted. */
  lemma {:induction false} RemovedBelowAll(n: nat, offsets: set<nat>)
    requires forall o :: o in offsets ==> o < n
    ensures RemovedBelow(n, offsets) == |offsets|
    decreases n
  {
    if n == 0 {
      assert offsets == {};
    } else {
      var below := offsets - {n - 1};
      RemovedBelowAll(n - 1, below);
      RemovedBelowOnlyBelow(n - 1, below, offsets);
      if n - 1 in offsets {
        assert offsets == below + {n - 1};
      } else {
        assert below == offsets;
      }
    }
  }

  /** Only the offsets below `n` matter to `RemovedBelow(n, _)`. */
  lemma {:induction false} RemovedBelowOnlyBelow(n: nat, a: set<nat>, b: set<nat>)
    requires forall i :: 0 <= i < n ==> (i in a <==> i in b)
    ensures RemovedBelow(n, a) == RemovedBelow(n, b)
    decreases n
  {
    if n > 0 {
      RemovedBelowOnlyBelow(n - 1, a, b);
    }
  }
}
