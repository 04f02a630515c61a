/** Vocabulary shared by the six trace generators: ordering of a sequence,
    swapping two positions, index ranges and the inversion count. */
module SortSpec {

  /** Every element is at most every element to its right. */
  predicate NonDecreasing(s: seq<int>) {
    forall i, j :: 0 <= i < j < |s| ==> s[i] <= s[j]
  }

  /** `s[lo..hi]` is non-decreasing. */
  predicate NonDecreasingBetween(s: seq<int>, lo: int, hi: int) {
    forall i, j :: lo <= i < j < hi && 0 <= i && j < |s| ==> s[i] <= s[j]
  }

  /** Every element of `s[lo..mid]` is at most every element of `s[mid..hi]`. */
  predicate Split(s: seq<int>, lo: int, mid: int, hi: int) {
    forall i, j :: lo <= i < mid <= j < hi && 0 <= i && j < |s| ==> s[i] <= s[j]
  }

  /** Destructuring swap `[s[i], s[j]] = [s[j], s[i]]`. */
  function SwapAt(s: seq<int>, i: nat, j: nat): (r: seq<int>)
    requires i < |s| && j < |s|
    ensures |r| == |s| && r[i] == s[j] && r[j] == s[i]
    ensures forall k :: 0 <= k < |s| && k != i && k != j ==> r[k] == s[k]
    ensures multiset(r) == multiset(s)
  {
    if i == j then s
    else
      SwapMultiset(s, i, j);
      s[i := s[j]][j := s[i]]
  }

  lemma SwapMultiset(s: seq<int>, i: nat, j: nat)
    requires i < |s| && j < |s| && i != j
    ensures multiset(s[i := s[j]][j := s[i]]) == multiset(s)
  {
    var t := s[i := s[j]];
    assert multiset(t) == multiset(s) - multiset{s[i]} + multiset{s[j]};
    assert t[j] == s[j];
    assert multiset(t[j := s[i]]) == multiset(t) - multiset{s[j]} + multiset{s[i]};
  }

  /** `Array.from({ length: hi - lo }, (_, idx) => lo + idx)`: the indices lo..hi-1 in order. */
  function Range(lo: nat, hi: nat): seq<nat>
    decreases hi
  {
    if hi <= lo then [] else Range(lo, hi - 1) + [hi - 1]
  }

  lemma {:induction false} RangeAt(lo: nat, hi: nat)
    requires lo <= hi
    ensures |Range(lo, hi)| == hi - lo
    ensures forall k :: 0 <= k < hi - lo ==> Range(lo, hi)[k] == lo + k
    decreases hi
  {
    if lo < hi {
      RangeAt(lo, hi - 1);
    }
  }

  /** hi-1, hi-2, ..., lo. */
  function Countdown(hi: nat, lo: nat): seq<nat>
    decreases hi - lo
  {
    if hi <= lo then [] else Countdown(hi, lo + 1) + [lo]
  }

  /** Each of lo..hi-1 occurs exactly once in hi-1, hi-2, ..., lo, and nothing else does. */
  lemma {:induction false} CountdownCounts(hi: nat, lo: nat)
    ensures forall k: nat :: multiset(Countdown(hi, lo))[k] == (if lo <= k < hi then 1 else 0)
    decreases hi - lo
  {
    if lo < hi {
      CountdownCounts(hi, lo + 1);
    }
  }

  /** Number of elements of `s` strictly below `x`. */
  function CountBelow(x: int, s: seq<int>): nat {
    if s == [] then 0 else (if s[0] < x then 1 else 0) + CountBelow(x, s[1..])
  }

  /** Number of pairs i < j with s[i] > s[j]. */
  function Inversions(s: seq<int>): nat {
    if s == [] then 0 else CountBelow(s[0], s[1..]) + Inversions(s[1..])
  }

  lemma {:induction false} CountBelowAppend(x: int, s: seq<int>, t: seq<int>)
    ensures CountBelow(x, s + t) == CountBelow(x, s) + CountBelow(x, t)
  {
    if s == [] {
      assert s + t == t;
    } else {
      assert (s + t)[1..] == s[1..] + t;
      CountBelowAppend(x, s[1..], t);
    }
  }

  /** Exchanging two neighbours does not change how many elements lie below `x`. */
  lemma CountBelowAdjacentSwap(x: int, s: seq<int>, j: nat)
    requires j + 1 < |s|
    ensures CountBelow(x, SwapAt(s, j, j + 1)) == CountBelow(x, s)
  {
    var p, q := s[..j], s[j + 2..];
    assert s == p + [s[j], s[j + 1]] + q;
    assert SwapAt(s, j, j + 1) == p + [s[j + 1], s[j]] + q;
    CountBelowAppend(x, p + [s[j], s[j + 1]], q);
    CountBelowAppend(x, p, [s[j], s[j + 1]]);
    CountBelowAppend(x, p + [s[j + 1], s[j]], q);
    CountBelowAppend(x, p, [s[j + 1], s[j]]);
    assert [s[j], s[j + 1]][1..] == [s[j + 1]];
    assert [s[j + 1], s[j]][1..] == [s[j]];
  }

  /** Exchanging an out-of-order pair of neighbours removes exactly one inversion. */
  lemma {:induction false} AdjacentSwapInversions(s: seq<int>, j: nat)
    requires j + 1 < |s| && s[j] > s[j + 1]
    ensures Inversions(SwapAt(s, j, j + 1)) + 1 == Inversions(s)
  {
    var r := SwapAt(s, j, j + 1);
    if j == 0 {
      var q := s[2..];
      assert s[1..] == [s[1]] + q;
      assert r[1..] == [s[0]] + q;
      assert ([s[1]] + q)[1..] == q;
      assert ([s[0]] + q)[1..] == q;
    } else {
      assert r[1..] == SwapAt(s[1..], j - 1, j);
      AdjacentSwapInversions(s[1..], j - 1);
      CountBelowAdjacentSwap(s[0], s[1..], j - 1);
    }
  }

  /** A non-decreasing sequence has no inversions. */
  lemma {:induction false} NonDecreasingNoInversions(s: seq<int>)
    requires NonDecreasing(s)
    ensures Inversions(s) == 0
  {
    if s != [] {
      NoneBelow(s[0], s[1..]);
      NonDecreasingNoInversions(s[1..]);
    }
  }

  lemma {:induction false} NoneBelow(x: int, s: seq<int>)
    requires forall k :: 0 <= k < |s| ==> x <= s[k]
    ensures CountBelow(x, s) == 0
  {
    if s != [] {
      NoneBelow(x, s[1..]);
    }
  }

  /** A bound at most `x` on every element of the range `lo..hi-1` carries over to a permutation of it. */
  lemma MultisetAtMost(a: seq<int>, b: seq<int>, lo: nat, hi: nat, x: int)
    requires lo <= hi <= |a| && hi <= |b| && multiset(a[lo..hi]) == multiset(b[lo..hi])
    requires forall k :: lo <= k < hi ==> b[k] <= x
    ensures forall k :: lo <= k < hi ==> a[k] <= x
  {
    forall k | lo <= k < hi ensures a[k] <= x {
      assert a[k] == a[lo..hi][k - lo];
      assert a[k] in multiset(b[lo..hi]);
      var m :| lo <= m < hi && b[m] == a[k] by {
        assert a[k] in b[lo..hi];
      }
    }
  }

  /** `a` and `b` have the same length and agree outside `lo..hi-1`. */
  predicate Unchanged(a: seq<int>, b: seq<int>, lo: int, hi: int) {
    |a| == |b| && forall k :: 0 <= k < |a| && (k < lo || hi <= k) ==> a[k] == b[k]
  }

  /** A slice outside the changed range `lo..hi-1` is the same in both sequences. */
  lemma UnchangedSlice(a: seq<int>, b: seq<int>, lo: int, hi: int, x: nat, y: nat)
    requires Unchanged(a, b, lo, hi) && x <= y <= |a| && (y <= lo || hi <= x)
    ensures a[x..y] == b[x..y]
  {
  }

  /** A permutation that leaves everything outside `lo..hi-1` in place permutes that range. */
  lemma SegmentPermutes(a: seq<int>, b: seq<int>, lo: nat, hi: nat)
    requires lo <= hi <= |a| && Unchanged(a, b, lo, hi) && multiset(a) == multiset(b)
    ensures multiset(a[lo..hi]) == multiset(b[lo..hi])
  {
    assert a == a[..lo] + a[lo..hi] + a[hi..];
    assert b == b[..lo] + b[lo..hi] + b[hi..];
    assert a[..lo] == b[..lo];
    assert a[hi..] == b[hi..];
    assert multiset(a) == multiset(a[..lo]) + multiset(a[lo..hi]) + multiset(a[hi..]);
    assert multiset(b) == multiset(a[..lo]) + multiset(b[lo..hi]) + multiset(a[hi..]);
    assert multiset(a[lo..hi]) == multiset(a) - multiset(a[..lo]) - multiset(a[hi..]);
    assert multiset(b[lo..hi]) == multiset(b) - multiset(a[..lo]) - multiset(a[hi..]);
  }

  /** An upper bound on every element of the range `lo..hi-1` carries over to a permutation of it. */
  lemma MultisetBelow(a: seq<int>, b: seq<int>, lo: nat, hi: nat, x: int)
    requires lo <= hi <= |a| && hi <= |b| && multiset(a[lo..hi]) == multiset(b[lo..hi])
    requires forall k :: lo <= k < hi ==> b[k] < x
    ensures forall k :: lo <= k < hi ==> a[k] < x
  {
    forall k | lo <= k < hi ensures a[k] < x {
      assert a[k] == a[lo..hi][k - lo];
      assert a[k] in multiset(b[lo..hi]);
      var m :| lo <= m < hi && b[m] == a[k] by {
        assert a[k] in b[lo..hi];
      }
    }
  }

  /** A lower bound on every element of the range `lo..hi-1` carries over to a permutation of it. */
  lemma MultisetAtLeast(a: seq<int>, b: seq<int>, lo: nat, hi: nat, x: int)
    requires lo <= hi <= |a| && hi <= |b| && multiset(a[lo..hi]) == multiset(b[lo..hi])
    requires forall k :: lo <= k < hi ==> x <= b[k]
    ensures forall k :: lo <= k < hi ==> x <= a[k]
  {
    forall k | lo <= k < hi ensures x <= a[k] {
      assert a[k] == a[lo..hi][k - lo];
      assert a[k] in multiset(b[lo..hi]);
      var m :| lo <= m < hi && b[m] == a[k] by {
        assert a[k] in b[lo..hi];
      }
    }
  }
}
