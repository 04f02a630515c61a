/** The merge sort page: its trace generator (top-down merge sort, merging through slice
    copies of both halves) and its playback controller. */
module MergeSort {
  import opened SortSpec
  import Playback

  /** One recorded event; `snapshot` is the copy of the array taken after the event (the
      source field `array`) and `comparisons` the running total at that point. */
  datatype Step =
    | Divide(indices: seq<nat>, snapshot: seq<int>, comparisons: nat)
    | MergeStart(indices: seq<nat>, snapshot: seq<int>, comparisons: nat)
    | Compare(indices: seq<nat>, snapshot: seq<int>, comparisons: nat)
    | Merge(indices: seq<nat>, snapshot: seq<int>, comparisons: nat)
    | MergeComplete(indices: seq<nat>, snapshot: seq<int>, comparisons: nat)
    | Complete(snapshot: seq<int>, comparisons: nat)

  // ---------------------------------------------------------------------------
  // The sort the generator performs, as functions on sequences
  // ---------------------------------------------------------------------------

  /** Merging two runs, taking the left element on ties (`leftArray[i] <= rightArray[j]`). */
  function Merged(l: seq<int>, r: seq<int>): seq<int>
    decreases |l| + |r|
  {
    if l == [] then r
    else if r == [] then l
    else if l[0] <= r[0] then [l[0]] + Merged(l[1..], r)
    else [r[0]] + Merged(l, r[1..])
  }

  /** Top-down merge sort splitting `left..right` at floor((left + right) / 2): the left
      half takes the first (|s| - 1) / 2 + 1 elements. */
  function MergeSorted(s: seq<int>): seq<int>
    decreases |s|
  {
    if |s| <= 1 then s
    else
      var m := (|s| - 1) / 2 + 1;
      Merged(MergeSorted(s[..m]), MergeSorted(s[m..]))
  }

  /** Merging keeps every element of both runs. */
  lemma {:induction false} MergedPermutes(l: seq<int>, r: seq<int>)
    ensures |Merged(l, r)| == |l| + |r|
    ensures multiset(Merged(l, r)) == multiset(l) + multiset(r)
    decreases |l| + |r|
  {
    if l != [] && r != [] {
      if l[0] <= r[0] {
        MergedPermutes(l[1..], r);
        HeadMultiset(l);
      } else {
        MergedPermutes(l, r[1..]);
        HeadMultiset(r);
      }
    }
  }

  lemma HeadMultiset(s: seq<int>)
    requires s != []
    ensures multiset(s) == multiset{s[0]} + multiset(s[1..])
  {
    assert s == [s[0]] + s[1..];
  }

  /** A sequence stays non-decreasing when an element at most all of it is put in front. */
  lemma ConsSorted(x: int, s: seq<int>)
    requires NonDecreasing(s) && forall k :: 0 <= k < |s| ==> x <= s[k]
    ensures NonDecreasing([x] + s)
  {
  }

  /** Every element of a merge of `l` and `r` is at least `x` when every element of the
      two runs is. */
  lemma MergedAtLeast(l: seq<int>, r: seq<int>, x: int)
    requires forall k :: 0 <= k < |l| ==> x <= l[k]
    requires forall k :: 0 <= k < |r| ==> x <= r[k]
    ensures forall k :: 0 <= k < |Merged(l, r)| ==> x <= Merged(l, r)[k]
  {
    var m := Merged(l, r);
    MergedPermutes(l, r);
    forall k | 0 <= k < |m| ensures x <= m[k] {
      assert m[k] in multiset(m);
      if m[k] in multiset(l) {
        assert m[k] in l;
      } else {
        assert m[k] in r;
      }
    }
  }

  /** Merging two non-decreasing runs gives a non-decreasing run. */
  lemma {:induction false} MergedSorted(l: seq<int>, r: seq<int>)
    requires NonDecreasing(l) && NonDecreasing(r)
    ensures NonDecreasing(Merged(l, r))
    decreases |l| + |r|
  {
    if l != [] && r != [] {
      if l[0] <= r[0] {
        MergedSorted(l[1..], r);
        MergedAtLeast(l[1..], r, l[0]);
        ConsSorted(l[0], Merged(l[1..], r));
      } else {
        MergedSorted(l, r[1..]);
        MergedAtLeast(l, r[1..], r[0]);
        ConsSorted(r[0], Merged(l, r[1..]));
      }
    }
  }

  /** Merge sort keeps every element of its input. */
  lemma {:induction false} MergeSortedPermutes(s: seq<int>)
    ensures |MergeSorted(s)| == |s| && multiset(MergeSorted(s)) == multiset(s)
    decreases |s|
  {
    if |s| > 1 {
      var m := (|s| - 1) / 2 + 1;
      MergeSortedPermutes(s[..m]);
      MergeSortedPermutes(s[m..]);
      MergedPermutes(MergeSorted(s[..m]), MergeSorted(s[m..]));
      SplitMultiset(s, m);
    }
  }

  lemma SplitMultiset(s: seq<int>, m: nat)
    requires m <= |s|
    ensures multiset(s) == multiset(s[..m]) + multiset(s[m..])
  {
    assert s == s[..m] + s[m..];
  }

  /** Merge sort returns a non-decreasing sequence. */
  lemma {:induction false} MergeSortedOrdered(s: seq<int>)
    ensures NonDecreasing(MergeSorted(s))
    decreases |s|
  {
    if |s| > 1 {
      var m := (|s| - 1) / 2 + 1;
      MergeSortedOrdered(s[..m]);
      MergeSortedOrdered(s[m..]);
      MergedSorted(MergeSorted(s[..m]), MergeSorted(s[m..]));
    }
  }

  /** Merge sort returns a non-decreasing permutation of its input. */
  lemma MergeSortedSpec(s: seq<int>)
    ensures |MergeSorted(s)| == |s| && multiset(MergeSorted(s)) == multiset(s)
    ensures NonDecreasing(MergeSorted(s))
  {
    MergeSortedPermutes(s);
    MergeSortedOrdered(s);
  }

  // ---------------------------------------------------------------------------
  // What a trace means
  // ---------------------------------------------------------------------------

  /** What the page shows after a prefix of the trace: the snapshot and the counter. */
  datatype State = State(snapshot: seq<int>, comparisons: nat)

  function StateOf(s: Step): State {
    State(s.snapshot, s.comparisons)
  }

  /** The state left by `steps`, starting from the input with the counter at zero. */
  function After(input: seq<int>, steps: seq<Step>): State {
    if steps == [] then State(input, 0) else StateOf(steps[|steps| - 1])
  }

  /** The effect of one step on the state before it:
      `divide`, `merge_start`, `merge_complete` and `complete` change nothing;
      a comparison of a left-run and a right-run position counts one comparison;
      a `merge` step writes position k and nothing else. */
  predicate Follows(st: State, s: Step) {
    var a := st.snapshot;
    match s
    case Divide(ix, b, c) =>
      |ix| == 3 && ix[0] <= ix[1] < ix[2] < |a| && b == a && c == st.comparisons
    case MergeStart(ix, b, c) =>
      |ix| == 3 && ix[0] <= ix[1] < ix[2] < |a| && b == a && c == st.comparisons
    case Compare(ix, b, c) =>
      |ix| == 2 && ix[0] < ix[1] < |a| && b == a && c == st.comparisons + 1
    case Merge(ix, b, c) =>
      |ix| == 1 && ix[0] < |a| && |b| == |a| && c == st.comparisons
      && forall t :: 0 <= t < |a| && t != ix[0] ==> b[t] == a[t]
    case MergeComplete(ix, b, c) =>
      (forall t :: 0 <= t < |ix| ==> ix[t] < |a|) && b == a && c == st.comparisons
    case Complete(b, c) =>
      b == a && c == st.comparisons
  }

  /** Every step is obtained from the state left by the steps before it. */
  predicate Replays(input: seq<int>, steps: seq<Step>) {
    steps == []
    || (Replays(input, steps[..|steps| - 1])
        && Follows(After(input, steps[..|steps| - 1]), steps[|steps| - 1]))
  }

  /** The trace `steps` replays and leaves the page showing `a` with the counter at `cmp`. */
  predicate Ready(input: seq<int>, steps: seq<Step>, a: seq<int>, cmp: nat) {
    Replays(input, steps) && After(input, steps) == State(a, cmp)
  }

  /** The position written by every `merge` step, in trace order. */
  function Written(steps: seq<Step>): seq<nat> {
    if steps == [] then []
    else
      var s := steps[|steps| - 1];
      Written(steps[..|steps| - 1]) + (if s.Merge? then s.indices else [])
  }

  // ---------------------------------------------------------------------------
  // Lemmas about traces
  // ---------------------------------------------------------------------------

  /** Appending a step that follows from the current state keeps the trace replayable. */
  lemma Push(input: seq<int>, steps: seq<Step>, s: Step)
    requires Replays(input, steps) && Follows(After(input, steps), s)
    ensures Replays(input, steps + [s]) && After(input, steps + [s]) == StateOf(s)
    ensures Written(steps + [s]) == Written(steps) + (if s.Merge? then s.indices else [])
  {
    assert (steps + [s])[..|steps|] == steps;
  }

  lemma {:induction false} ReplaysPrefix(input: seq<int>, steps: seq<Step>, m: nat)
    requires Replays(input, steps) && m <= |steps|
    ensures Replays(input, steps[..m])
    ensures m > 0 ==> After(input, steps[..m]) == StateOf(steps[m - 1])
    decreases |steps|
  {
    if m < |steps| {
      var p := steps[..|steps| - 1];
      ReplaysPrefix(input, p, m);
      assert p[..m] == steps[..m];
    } else {
      assert steps[..m] == steps;
    }
  }

  /** Every snapshot of a replayable trace has the input's length. */
  lemma {:induction false} ReplaysLength(input: seq<int>, steps: seq<Step>)
    requires Replays(input, steps)
    ensures |After(input, steps).snapshot| == |input|
    ensures forall k :: 0 <= k < |steps| ==> |steps[k].snapshot| == |input|
  {
    if steps != [] {
      var m := |steps| - 1;
      var p := steps[..m];
      ReplaysLength(input, p);
      assert forall k :: 0 <= k < m ==> p[k] == steps[k];
    }
  }

  /** No step shows a comparison count above the final one. */
  lemma {:induction false} ReplaysCounters(input: seq<int>, steps: seq<Step>)
    requires Replays(input, steps)
    ensures forall k :: 0 <= k < |steps| ==> steps[k].comparisons <= After(input, steps).comparisons
  {
    if steps != [] {
      var m := |steps| - 1;
      var p := steps[..m];
      ReplaysCounters(input, p);
      assert forall k :: 0 <= k < m ==> p[k] == steps[k];
      assert Follows(After(input, p), steps[m]);
    }
  }

  /** The comparison counter never decreases from one step to a later one. */
  lemma CountersMonotone(input: seq<int>, steps: seq<Step>, k: nat, l: nat)
    requires Replays(input, steps) && k <= l < |steps|
    ensures steps[k].comparisons <= steps[l].comparisons
  {
    ReplaysPrefix(input, steps, l + 1);
    ReplaysCounters(input, steps[..l + 1]);
    assert steps[..l + 1][k] == steps[k];
  }

  // ---------------------------------------------------------------------------
  // merge(array, left, mid, right)
  // ---------------------------------------------------------------------------

  /** The array part of the merge loops' invariant: positions left..k-1 hold the first
      k-left elements of the merge of the runs `l` and `r`, of which i and j elements
      have been taken, and nothing else has been written. */
  predicate MergeArray(a: seq<int>, before: seq<int>, l: seq<int>, r: seq<int>,
                       left: nat, right: nat, i: nat, j: nat, k: nat) {
    |a| == |before| && right < |a| && i <= |l| && j <= |r|
    && left + |l| + |r| == right + 1 && k == left + i + j
    && a[left..k] + Merged(l[i..], r[j..]) == Merged(l, r)
    && Unchanged(a, before, left, k)
  }

  /** The trace part: `steps` extends `steps0` by the `merge_start` step `first`, replays
      to `a` and the counter, and has written positions left..k-1 in turn. */
  predicate MergeTrace(input: seq<int>, steps0: seq<Step>, steps: seq<Step>, a: seq<int>,
                       cmp: nat, first: Step, left: nat, k: nat) {
    Replays(input, steps) && After(input, steps) == State(a, cmp)
    && |steps0| < |steps| && steps[..|steps0|] == steps0 && steps[|steps0|] == first
    && Written(steps) == Written(steps0) + Range(left, k)
  }

  lemma MergeBegins(input: seq<int>, steps0: seq<Step>, a: seq<int>, cmp: nat,
                    left: nat, mid: nat, right: nat)
    requires Ready(input, steps0, a, cmp) == true
    requires left <= mid < right < |a|
    ensures MergeTrace(input, steps0, steps0 + [MergeStart([left, mid, right], a, cmp)], a, cmp,
                       MergeStart([left, mid, right], a, cmp), left, left) == true
    ensures MergeArray(a, a, a[left..mid + 1], a[mid + 1..right + 1], left, right, 0, 0, left) == true
  {
    var s := MergeStart([left, mid, right], a, cmp);
    Push(input, steps0, s);
    assert (steps0 + [s])[..|steps0|] == steps0;
    assert Written(steps0) + Range(left, left) == Written(steps0);
    var l, r := a[left..mid + 1], a[mid + 1..right + 1];
    assert l[0..] == l && r[0..] == r;
    assert a[left..left] + Merged(l, r) == Merged(l, r);
  }

  /** The element the first loop writes next: the left one on ties. */
  function Take(l: seq<int>, r: seq<int>, i: nat, j: nat): int
    requires i < |l| && j < |r|
  {
    if l[i] <= r[j] then l[i] else r[j]
  }

  /** Writing the element the first loop takes. */
  lemma TakeArray(a: seq<int>, before: seq<int>, l: seq<int>, r: seq<int>,
                  left: nat, right: nat, i: nat, j: nat, k: nat)
    requires MergeArray(a, before, l, r, left, right, i, j, k) == true && i < |l| && j < |r|
    ensures l[i] <= r[j] ==> MergeArray(a[k := Take(l, r, i, j)], before, l, r, left, right, i + 1, j, k + 1) == true
    ensures r[j] < l[i] ==> MergeArray(a[k := Take(l, r, i, j)], before, l, r, left, right, i, j + 1, k + 1) == true
  {
    if l[i] <= r[j] {
      MergedTakesLeft(l, r, i, j);
      WriteNext(a, before, l, r, left, right, i, j, k, i + 1, j, l[i]);
    } else {
      MergedTakesRight(l, r, i, j);
      WriteNext(a, before, l, r, left, right, i, j, k, i, j + 1, r[j]);
    }
  }

  /** The merge of the rest of both runs starts with the left element on ties. */
  lemma MergedTakesLeft(l: seq<int>, r: seq<int>, i: nat, j: nat)
    requires i < |l| && j < |r| && l[i] <= r[j]
    ensures Merged(l[i..], r[j..]) == [l[i]] + Merged(l[i + 1..], r[j..])
  {
    assert l[i..][1..] == l[i + 1..];
  }

  /** The merge of the rest of both runs starts with the right element when it is smaller. */
  lemma MergedTakesRight(l: seq<int>, r: seq<int>, i: nat, j: nat)
    requires i < |l| && j < |r| && r[j] < l[i]
    ensures Merged(l[i..], r[j..]) == [r[j]] + Merged(l[i..], r[j + 1..])
  {
    assert r[j..][1..] == r[j + 1..];
  }

  /** Writing the head `v` of the rest of the merge to position k. */
  lemma WriteNext(a: seq<int>, before: seq<int>, l: seq<int>, r: seq<int>,
                  left: nat, right: nat, i: nat, j: nat, k: nat, i2: nat, j2: nat, v: int)
    requires MergeArray(a, before, l, r, left, right, i, j, k) == true
    requires i2 <= |l| && j2 <= |r| && i2 + j2 == i + j + 1
    requires Merged(l[i..], r[j..]) == [v] + Merged(l[i2..], r[j2..])
    ensures MergeArray(a[k := v], before, l, r, left, right, i2, j2, k + 1) == true
  {
    var b := a[k := v];
    assert b[left..k + 1] == a[left..k] + [v];
    assert (a[left..k] + [v]) + Merged(l[i2..], r[j2..]) == a[left..k] + ([v] + Merged(l[i2..], r[j2..]));
  }

  /** Writing the next left-run element once the right run is used up. */
  lemma RestLeftArray(a: seq<int>, before: seq<int>, l: seq<int>, r: seq<int>,
                      left: nat, right: nat, i: nat, j: nat, k: nat)
    requires MergeArray(a, before, l, r, left, right, i, j, k) == true && i < |l| && j == |r|
    ensures MergeArray(a[k := l[i]], before, l, r, left, right, i + 1, j, k + 1) == true
  {
    var b := a[k := l[i]];
    assert b[left..k + 1] == a[left..k] + [l[i]];
    assert r[j..] == [];
    assert l[i..] == [l[i]] + l[i + 1..];
  }

  /** Writing the next right-run element once the left run is used up. */
  lemma RestRightArray(a: seq<int>, before: seq<int>, l: seq<int>, r: seq<int>,
                       left: nat, right: nat, i: nat, j: nat, k: nat)
    requires MergeArray(a, before, l, r, left, right, i, j, k) == true && i == |l| && j < |r|
    ensures MergeArray(a[k := r[j]], before, l, r, left, right, i, j + 1, k + 1) == true
  {
    var b := a[k := r[j]];
    assert b[left..k + 1] == a[left..k] + [r[j]];
    assert l[i..] == [];
    assert r[j..] == [r[j]] + r[j + 1..];
  }

  /** Recording the comparison of positions x < y. */
  lemma TraceCompare(input: seq<int>, steps0: seq<Step>, steps: seq<Step>, a: seq<int>,
                     cmp: nat, first: Step, left: nat, k: nat, x: nat, y: nat)
    requires MergeTrace(input, steps0, steps, a, cmp, first, left, k) == true && x < y < |a|
    ensures MergeTrace(input, steps0, steps + [Compare([x, y], a, cmp + 1)], a, cmp + 1, first, left, k) == true
  {
    var s := Compare([x, y], a, cmp + 1);
    Push(input, steps, s);
    assert (steps + [s])[..|steps0|] == steps0;
  }

  /** Recording the write of v to position k. */
  lemma TraceWrite(input: seq<int>, steps0: seq<Step>, steps: seq<Step>, a: seq<int>,
                   cmp: nat, first: Step, left: nat, k: nat, v: int)
    requires MergeTrace(input, steps0, steps, a, cmp, first, left, k) == true && left <= k < |a|
    ensures MergeTrace(input, steps0, steps + [Merge([k], a[k := v], cmp)], a[k := v], cmp, first, left, k + 1) == true
  {
    var s := Merge([k], a[k := v], cmp);
    Push(input, steps, s);
    assert (steps + [s])[..|steps0|] == steps0;
  }

  /** `array[k] = value` */
  method Write(a: array<int>, k: nat, v: int)
    requires k < a.Length
    modifies a
    ensures a[..] == old(a[..])[k := v]
  {
    a[k] := v;
  }

  /** The first loop's invariant: both runs still have elements, and one comparison has
      been counted per position written. */
  predicate Comparing(cmp: nat, cmp0: nat, left: nat, right: nat, k: nat) {
    left <= k <= right && cmp == cmp0 + (k - left)
  }

  /** One iteration of the first loop: count and record the comparison of the next
      elements of both runs, write the smaller one (the left one on ties) to k and
      record the write. */
  method MergeNext(a: array<int>, l: seq<int>, r: seq<int>, left: nat, mid: nat, right: nat,
                   i: nat, j: nat, k: nat, ghost input: seq<int>, ghost steps0: seq<Step>, ghost first: Step,
                   ghost before: seq<int>, steps: seq<Step>, cmp: nat, ghost cmp0: nat)
    returns (steps': seq<Step>, cmp': nat, i': nat, j': nat)
    requires i < |l| && j < |r| && |l| == mid + 1 - left
    requires MergeArray(a[..], before, l, r, left, right, i, j, k) == true
    requires MergeTrace(input, steps0, steps, a[..], cmp, first, left, k) == true
    requires Comparing(cmp, cmp0, left, right, k) == true
    modifies a
    ensures MergeArray(a[..], before, l, r, left, right, i', j', k + 1) == true
    ensures MergeTrace(input, steps0, steps', a[..], cmp', first, left, k + 1) == true
    ensures Comparing(cmp', cmp0, left, right, k + 1) == true && i' <= |l| && j' <= |r|
    ensures i' + j' == i + j + 1
    // the comparison of the next two elements, then the write of the smaller (the left on ties)
    ensures a[..] == old(a[..])[k := Take(l, r, i, j)] && (i' == i + 1 <==> l[i] <= r[j])
    ensures steps' == steps + [Compare([left + i, mid + 1 + j], old(a[..]), cmp + 1), Merge([k], a[..], cmp + 1)]
    ensures cmp' == cmp + 1
  {
    NextEffect(input, steps0, first, before, a[..], l, r, left, mid, right, i, j, k, steps, cmp, cmp0);
    cmp' := cmp + 1;
    var c := Compare([left + i, mid + 1 + j], a[..], cmp');
    if l[i] <= r[j] {
      Write(a, k, l[i]);
      i', j' := i + 1, j;
    } else {
      Write(a, k, r[j]);
      i', j' := i, j + 1;
    }
    steps' := steps + [c] + [Merge([k], a[..], cmp')];
    assert steps' == steps + [c, Merge([k], a[..], cmp')];
  }

  /** The effect of one iteration of the first loop on the array, the trace and the counter. */
  lemma NextEffect(input: seq<int>, steps0: seq<Step>, first: Step, before: seq<int>, a: seq<int>,
                   l: seq<int>, r: seq<int>, left: nat, mid: nat, right: nat, i: nat, j: nat, k: nat,
                   steps: seq<Step>, cmp: nat, cmp0: nat)
    requires i < |l| && j < |r| && |l| == mid + 1 - left
    requires MergeArray(a, before, l, r, left, right, i, j, k) == true
    requires MergeTrace(input, steps0, steps, a, cmp, first, left, k) == true
    requires Comparing(cmp, cmp0, left, right, k) == true
    ensures l[i] <= r[j] ==> MergeArray(a[k := Take(l, r, i, j)], before, l, r, left, right, i + 1, j, k + 1) == true
    ensures r[j] < l[i] ==> MergeArray(a[k := Take(l, r, i, j)], before, l, r, left, right, i, j + 1, k + 1) == true
    ensures MergeTrace(input, steps0, steps + [Compare([left + i, mid + 1 + j], a, cmp + 1)]
                                           + [Merge([k], a[k := Take(l, r, i, j)], cmp + 1)],
                       a[k := Take(l, r, i, j)], cmp + 1, first, left, k + 1) == true
    ensures Comparing(cmp + 1, cmp0, left, right, k + 1) == true
  {
    TakeArray(a, before, l, r, left, right, i, j, k);
    TraceCompare(input, steps0, steps, a, cmp, first, left, k, left + i, mid + 1 + j);
    TraceWrite(input, steps0, steps + [Compare([left + i, mid + 1 + j], a, cmp + 1)], a, cmp + 1, first, left, k, Take(l, r, i, j));
  }

  /** One iteration of the second loop: copy the next left-run element to k. */
  method CopyLeft(a: array<int>, l: seq<int>, r: seq<int>, left: nat, right: nat,
                  i: nat, j: nat, k: nat, ghost input: seq<int>, ghost steps0: seq<Step>, ghost first: Step,
                  ghost before: seq<int>, steps: seq<Step>, cmp: nat)
    returns (steps': seq<Step>)
    requires i < |l| && j == |r|
    requires MergeArray(a[..], before, l, r, left, right, i, j, k) == true
    requires MergeTrace(input, steps0, steps, a[..], cmp, first, left, k) == true
    modifies a
    ensures MergeArray(a[..], before, l, r, left, right, i + 1, j, k + 1) == true
    ensures MergeTrace(input, steps0, steps', a[..], cmp, first, left, k + 1) == true
  {
    RestLeftArray(a[..], before, l, r, left, right, i, j, k);
    TraceWrite(input, steps0, steps, a[..], cmp, first, left, k, l[i]);
    Write(a, k, l[i]);
    steps' := steps + [Merge([k], a[..], cmp)];
  }

  /** One iteration of the third loop: copy the next right-run element to k. */
  method CopyRight(a: array<int>, l: seq<int>, r: seq<int>, left: nat, right: nat,
                   i: nat, j: nat, k: nat, ghost input: seq<int>, ghost steps0: seq<Step>, ghost first: Step,
                   ghost before: seq<int>, steps: seq<Step>, cmp: nat)
    returns (steps': seq<Step>)
    requires i == |l| && j < |r|
    requires MergeArray(a[..], before, l, r, left, right, i, j, k) == true
    requires MergeTrace(input, steps0, steps, a[..], cmp, first, left, k) == true
    modifies a
    ensures MergeArray(a[..], before, l, r, left, right, i, j + 1, k + 1) == true
    ensures MergeTrace(input, steps0, steps', a[..], cmp, first, left, k + 1) == true
  {
    RestRightArray(a[..], before, l, r, left, right, i, j, k);
    TraceWrite(input, steps0, steps, a[..], cmp, first, left, k, r[j]);
    Write(a, k, r[j]);
    steps' := steps + [Merge([k], a[..], cmp)];
  }

  /** What `merge(array, left, mid, right)` does to the array: left..right receives the
      merge of the two runs it held, and nothing else changes. */
  predicate MergeEffect(before: seq<int>, after: seq<int>, left: nat, mid: nat, right: nat) {
    |after| == |before| && left <= mid < right < |before|
    && after[left..right + 1] == Merged(before[left..mid + 1], before[mid + 1..right + 1])
    && Unchanged(after, before, left, right + 1)
  }

  /** What `merge(array, left, mid, right)` appends to the trace: a `merge_start` step for
      [left, mid, right], exactly one `merge` step per position left..right in increasing
      order, at most right-left comparisons, and a `merge_complete` step naming
      left..right. */
  predicate MergeTraceEffect(input: seq<int>, steps0: seq<Step>, steps: seq<Step>, after: seq<int>,
                             cmp0: nat, cmp: nat, left: nat, mid: nat, right: nat) {
    Replays(input, steps) && After(input, steps) == State(after, cmp)
    && |steps0| + 2 <= |steps| && steps[..|steps0|] == steps0
    && steps[|steps0|].MergeStart? && steps[|steps0|].indices == [left, mid, right]
    && steps[|steps| - 1] == MergeComplete(Range(left, right + 1), after, cmp)
    && Written(steps) == Written(steps0) + Range(left, right + 1)
    && cmp0 <= cmp <= cmp0 + (right - left)
  }

  /** `l` and `r` are the two runs `merge(array, left, mid, right)` copies out of `before`. */
  predicate Runs(before: seq<int>, l: seq<int>, r: seq<int>, left: nat, mid: nat, right: nat) {
    left <= mid < right < |before| && l == before[left..mid + 1] && r == before[mid + 1..right + 1]
  }

  lemma MergeEnds(input: seq<int>, steps0: seq<Step>, steps: seq<Step>, a: seq<int>, before: seq<int>,
                  l: seq<int>, r: seq<int>, cmp0: nat, cmp: nat, first: Step, left: nat, mid: nat, right: nat,
                  k: nat)
    requires Runs(before, l, r, left, mid, right) == true
    requires first == MergeStart([left, mid, right], before, cmp0)
    requires MergeArray(a, before, l, r, left, right, |l|, |r|, k) == true
    requires MergeTrace(input, steps0, steps, a, cmp, first, left, k) == true
    requires cmp0 <= cmp <= cmp0 + (right - left)
    ensures MergeEffect(before, a, left, mid, right) == true
    ensures MergeTraceEffect(input, steps0, steps + [MergeComplete(Range(left, right + 1), a, cmp)],
                             a, cmp0, cmp, left, mid, right) == true
  {
    assert k == right + 1;
    EndsArray(a, before, l, r, left, mid, right);
    EndsTrace(input, steps0, steps, a, before, cmp0, cmp, first, left, mid, right);
  }

  lemma EndsArray(a: seq<int>, before: seq<int>, l: seq<int>, r: seq<int>, left: nat, mid: nat, right: nat)
    requires Runs(before, l, r, left, mid, right) == true
    requires MergeArray(a, before, l, r, left, right, |l|, |r|, right + 1) == true
    ensures MergeEffect(before, a, left, mid, right) == true
  {
    assert l[|l|..] == [] && r[|r|..] == [];
    assert a[left..right + 1] + [] == a[left..right + 1];
  }

  lemma EndsTrace(input: seq<int>, steps0: seq<Step>, steps: seq<Step>, a: seq<int>, before: seq<int>,
                  cmp0: nat, cmp: nat, first: Step, left: nat, mid: nat, right: nat)
    requires first == MergeStart([left, mid, right], before, cmp0) && left <= right < |a|
    requires MergeTrace(input, steps0, steps, a, cmp, first, left, right + 1) == true
    requires cmp0 <= cmp <= cmp0 + (right - left)
    ensures MergeTraceEffect(input, steps0, steps + [MergeComplete(Range(left, right + 1), a, cmp)],
                             a, cmp0, cmp, left, mid, right) == true
  {
    var s := MergeComplete(Range(left, right + 1), a, cmp);
    RangeAt(left, right + 1);
    Push(input, steps, s);
    assert (steps + [s])[..|steps0|] == steps0;
  }

  /** The first loop of `merge`: while both runs have elements left, compare the next
      two and write the smaller, the left one on ties. */
  method MergeFront(a: array<int>, l: seq<int>, r: seq<int>, left: nat, mid: nat, right: nat,
                    ghost input: seq<int>, ghost steps0: seq<Step>, ghost first: Step,
                    ghost before: seq<int>, steps0': seq<Step>, cmp0: nat)
    returns (steps: seq<Step>, cmp: nat, i: nat, j: nat, k: nat)
    requires left <= right && |l| == mid + 1 - left
    requires MergeArray(a[..], before, l, r, left, right, 0, 0, left) == true
    requires MergeTrace(input, steps0, steps0', a[..], cmp0, first, left, left) == true
    modifies a
    ensures MergeArray(a[..], before, l, r, left, right, i, j, k) == true
    ensures MergeTrace(input, steps0, steps, a[..], cmp, first, left, k) == true
    ensures i == |l| || j == |r|
    ensures cmp0 <= cmp <= cmp0 + (right - left)
  {
    steps, cmp, i, j, k := steps0', cmp0, 0, 0, left;
    while i < |l| && j < |r|
      invariant MergeArray(a[..], before, l, r, left, right, i, j, k) == true
      invariant MergeTrace(input, steps0, steps, a[..], cmp, first, left, k) == true
      invariant Comparing(cmp, cmp0, left, right, k) == true
      decreases |l| + |r| - i - j
    {
      steps, cmp, i, j := MergeNext(a, l, r, left, mid, right, i, j, k,
                                    input, steps0, first, before, steps, cmp, cmp0);
      k := k + 1;
    }
  }

  /** The second loop of `merge`: copy what is left of the left run. */
  method MergeRestLeft(a: array<int>, l: seq<int>, r: seq<int>, left: nat, right: nat,
                       i0: nat, j: nat, k0: nat, ghost input: seq<int>, ghost steps0: seq<Step>,
                       ghost first: Step, ghost before: seq<int>, steps0': seq<Step>, cmp: nat)
    returns (steps: seq<Step>, k: nat)
    requires MergeArray(a[..], before, l, r, left, right, i0, j, k0) == true
    requires MergeTrace(input, steps0, steps0', a[..], cmp, first, left, k0) == true
    requires i0 == |l| || j == |r|
    modifies a
    ensures MergeArray(a[..], before, l, r, left, right, |l|, j, k) == true
    ensures MergeTrace(input, steps0, steps, a[..], cmp, first, left, k) == true
  {
    var i := i0;
    steps, k := steps0', k0;
    while i < |l|
      invariant MergeArray(a[..], before, l, r, left, right, i, j, k) == true
      invariant MergeTrace(input, steps0, steps, a[..], cmp, first, left, k) == true
      invariant i < |l| ==> j == |r|
      invariant i <= |l| && k == left + i + j
    {
      steps := CopyLeft(a, l, r, left, right, i, j, k, input, steps0, first, before, steps, cmp);
      i, k := i + 1, k + 1;
    }
  }

  /** The third loop of `merge`: copy what is left of the right run. */
  method MergeRestRight(a: array<int>, l: seq<int>, r: seq<int>, left: nat, right: nat,
                        i: nat, j0: nat, k0: nat, ghost input: seq<int>, ghost steps0: seq<Step>,
                        ghost first: Step, ghost before: seq<int>, steps0': seq<Step>, cmp: nat)
    returns (steps: seq<Step>, k: nat)
    requires i == |l|
    requires MergeArray(a[..], before, l, r, left, right, i, j0, k0) == true
    requires MergeTrace(input, steps0, steps0', a[..], cmp, first, left, k0) == true
    modifies a
    ensures MergeArray(a[..], before, l, r, left, right, i, |r|, k) == true
    ensures MergeTrace(input, steps0, steps, a[..], cmp, first, left, k) == true
  {
    var j := j0;
    steps, k := steps0', k0;
    while j < |r|
      invariant MergeArray(a[..], before, l, r, left, right, i, j, k) == true
      invariant MergeTrace(input, steps0, steps, a[..], cmp, first, left, k) == true
      invariant j <= |r| && k == left + i + j
    {
      steps := CopyRight(a, l, r, left, right, i, j, k, input, steps0, first, before, steps, cmp);
      j, k := j + 1, k + 1;
    }
  }

  /** `merge(array, left, mid, right)`: copy both runs, then merge them back into
      left..right, taking from the left run while its next element is at most the right's. */
  method MergeRuns(a: array<int>, left: nat, mid: nat, right: nat, ghost input: seq<int>,
                   steps0: seq<Step>, cmp0: nat)
    returns (steps: seq<Step>, cmp: nat)
    requires left <= mid < right < a.Length
    requires Ready(input, steps0, a[..], cmp0) == true
    modifies a
    ensures MergeEffect(old(a[..]), a[..], left, mid, right) == true
    ensures MergeTraceEffect(input, steps0, steps, a[..], cmp0, cmp, left, mid, right) == true
  {
    ghost var before := a[..];
    var leftArray := a[left..mid + 1];
    var rightArray := a[mid + 1..right + 1];
    ghost var first := MergeStart([left, mid, right], a[..], cmp0);
    MergeBegins(input, steps0, a[..], cmp0, left, mid, right);
    steps := steps0 + [MergeStart([left, mid, right], a[..], cmp0)];
    var i, j, k;
    steps, cmp, i, j, k := MergeFront(a, leftArray, rightArray, left, mid, right,
                                      input, steps0, first, before, steps, cmp0);
    steps, k := MergeRestLeft(a, leftArray, rightArray, left, right, i, j, k, input, steps0, first, before, steps, cmp);
    steps, k := MergeRestRight(a, leftArray, rightArray, left, right, |leftArray|, j, k, input, steps0, first, before, steps, cmp);
    MergeEnds(input, steps0, steps, a[..], before, leftArray, rightArray, cmp0, cmp, first, left, mid, right, k);
    steps := steps + [MergeComplete(Range(left, right + 1), a[..], cmp)];
  }

  // ---------------------------------------------------------------------------
  // mergeSort(array, left, right)
  // ---------------------------------------------------------------------------

  /** What `mergeSort(array, left, right)` does: the effect below on the array and the
      counter, and the order of its steps. */
  predicate SortRangeEffect(input: seq<int>, steps0: seq<Step>, steps: seq<Step>, before: seq<int>,
                            after: seq<int>, cmp0: nat, cmp: nat, left: nat, right: int) {
    SortRangeCore(input, steps0, steps, before, after, cmp0, cmp, left, right)
    && SortRangeOrder(steps0, steps, before, after, cmp0, cmp, left, right)
  }

  /** The trace grows by replayable steps, the counter never goes down, left..right ends
      up as the merge sort of what it held, nothing outside it changes, and a range of at
      most one element is left alone without a step. */
  predicate SortRangeCore(input: seq<int>, steps0: seq<Step>, steps: seq<Step>, before: seq<int>,
                          after: seq<int>, cmp0: nat, cmp: nat, left: nat, right: int) {
    Replays(input, steps) && After(input, steps) == State(after, cmp)
    && |steps0| <= |steps| && steps[..|steps0|] == steps0 && cmp0 <= cmp
    && |after| == |before| && right < |before|
    && (left <= right ==> after[left..right + 1] == MergeSorted(before[left..right + 1]))
    && Unchanged(after, before, left, right + 1)
    && (right <= left ==> steps == steps0 && after == before)
  }

  /** The positions are written in the order WriteOrder gives (the left half's, then the
      right half's, then the whole range's), and a range of two or more elements opens
      with its `divide` step and closes with the `merge_complete` step of its final merge. */
  predicate SortRangeOrder(steps0: seq<Step>, steps: seq<Step>, before: seq<int>,
                           after: seq<int>, cmp0: nat, cmp: nat, left: nat, right: int) {
    Written(steps) == Written(steps0) + WriteOrder(left, right)
    && (left < right ==>
          |steps0| < |steps|
          && steps[|steps0|] == Divide([left, (left + right) / 2, right], before, cmp0)
          && steps[|steps| - 1] == MergeComplete(Range(left, right + 1), after, cmp))
  }

  /** The positions `mergeSort(array, left, right)` writes, in order: those of the left
      half, then those of the right half, then every position of the range once, in
      increasing order, by the final merge. */
  function WriteOrder(left: nat, right: int): seq<nat>
    decreases right - left
  {
    if left < right then
      var mid := (left + right) / 2;
      WriteOrder(left, mid) + WriteOrder(mid + 1, right) + Range(left, right + 1)
    else []
  }

  /** Every position written while sorting left..right lies in left..right. */
  lemma {:induction false} WriteOrderWithin(left: nat, right: int)
    ensures forall t :: 0 <= t < |WriteOrder(left, right)| ==> left <= WriteOrder(left, right)[t] <= right
    decreases right - left
  {
    if left < right {
      var mid := (left + right) / 2;
      WriteOrderWithin(left, mid);
      WriteOrderWithin(mid + 1, right);
      RangeAt(left, right + 1);
    }
  }

  /** left..mid and mid+1..right of `mid2` hold the merge sorts of what `before` held there,
      and left..right of `after` holds the merge of the two. */
  predicate HalvesSorted(before: seq<int>, mid2: seq<int>, after: seq<int>, left: nat, mid: nat, right: nat) {
    left <= mid < right < |before| && mid == (left + right) / 2
    && |mid2| == |before| && |after| == |before|
    && mid2[left..mid + 1] == MergeSorted(before[left..mid + 1])
    && mid2[mid + 1..right + 1] == MergeSorted(before[mid + 1..right + 1])
    && after[left..right + 1] == Merged(mid2[left..mid + 1], mid2[mid + 1..right + 1])
  }

  /** The array part of `mergeSort`'s recursive case: once left..mid holds the merge sort
      of what it held and mid+1..right the merge sort of what it held, merging the two
      gives the merge sort of the whole range. */
  lemma CombineArray(before: seq<int>, mid2: seq<int>, after: seq<int>, left: nat, mid: nat, right: nat)
    requires HalvesSorted(before, mid2, after, left, mid, right) == true
    ensures after[left..right + 1] == MergeSorted(before[left..right + 1])
  {
    MergeSortedSplit(before, left, mid, right);
  }

  lemma MergeSortedUnfold(s: seq<int>, l: seq<int>, r: seq<int>, m: nat)
    requires |s| > 1 && m == (|s| - 1) / 2 + 1 && l == s[..m] && r == s[m..]
    ensures MergeSorted(s) == Merged(MergeSorted(l), MergeSorted(r))
  {
  }

  /** The left half of left..right, up to floor((left + right) / 2), has
      (right - left) / 2 + 1 elements. */
  lemma HalfPoint(left: nat, mid: nat, right: nat)
    requires left <= mid < right && mid == (left + right) / 2
    ensures mid + 1 - left == (right + 1 - left - 1) / 2 + 1
  {
  }

  /** Merge sort of left..right merges the merge sorts of left..mid and mid+1..right when
      mid is floor((left + right) / 2). */
  lemma MergeSortedSplit(before: seq<int>, left: nat, mid: nat, right: nat)
    requires left <= mid < right < |before| && mid == (left + right) / 2
    ensures MergeSorted(before[left..right + 1])
            == Merged(MergeSorted(before[left..mid + 1]), MergeSorted(before[mid + 1..right + 1]))
  {
    HalfPoint(left, mid, right);
    SliceParts(before, left, mid + 1, right + 1);
    MergeSortedUnfold(before[left..right + 1], before[left..mid + 1], before[mid + 1..right + 1], mid + 1 - left);
  }

  /** Cutting the slice lo..hi-1 at m gives the slices lo..m-1 and m..hi-1. */
  lemma SliceParts(t: seq<int>, lo: nat, m: nat, hi: nat)
    requires lo <= m <= hi <= |t|
    ensures t[lo..hi][..m - lo] == t[lo..m] && t[lo..hi][m - lo..] == t[m..hi]
  {
  }

  /** Unchanged outside lo..hi-1 is transitive. */
  lemma UnchangedTrans(a: seq<int>, b: seq<int>, c: seq<int>, lo: int, hi: int)
    requires Unchanged(b, a, lo, hi) && Unchanged(c, b, lo, hi)
    ensures Unchanged(c, a, lo, hi)
  {
  }

  /** The trace part of `mergeSort`'s recursive case. */
  lemma CombineTrace(steps0: seq<Step>, steps1: seq<Step>, steps2: seq<Step>,
                     steps3: seq<Step>, steps: seq<Step>)
    requires |steps0| < |steps1| && steps1[..|steps0|] == steps0
    requires |steps1| <= |steps2| && steps2[..|steps1|] == steps1
    requires |steps2| <= |steps3| && steps3[..|steps2|] == steps2
    requires |steps3| <= |steps| && steps[..|steps3|] == steps3
    ensures |steps0| <= |steps| && steps[..|steps0|] == steps0
    ensures steps[|steps0|] == steps1[|steps0|]
  {
    assert steps[..|steps0|] == steps3[..|steps0|] == steps2[..|steps0|] == steps1[..|steps0|];
    assert steps[..|steps1|] == steps3[..|steps1|] == steps2[..|steps1|] == steps1;
  }

  /** The positions written by the split step, both recursive calls and the merge, in turn. */
  lemma CombineOrder(steps0: seq<Step>, steps2: seq<Step>, steps3: seq<Step>, steps: seq<Step>,
                     d: Step, left: nat, mid: nat, right: nat)
    requires d.Divide? && mid == (left + right) / 2 && left < right
    requires Written(steps2) == Written(steps0 + [d]) + WriteOrder(left, mid)
    requires Written(steps3) == Written(steps2) + WriteOrder(mid + 1, right)
    requires Written(steps) == Written(steps3) + Range(left, right + 1)
    ensures Written(steps) == Written(steps0) + WriteOrder(left, right)
  {
    WrittenDivide(steps0, d);
    WriteOrderSplit(left, mid, right);
    AppendThree(Written(steps0), WriteOrder(left, mid), WriteOrder(mid + 1, right), Range(left, right + 1));
  }

  /** A `divide` step writes nothing. */
  lemma WrittenDivide(steps0: seq<Step>, d: Step)
    requires d.Divide?
    ensures Written(steps0 + [d]) == Written(steps0)
  {
    assert (steps0 + [d])[..|steps0|] == steps0;
  }

  /** The recursive case of WriteOrder. */
  lemma WriteOrderSplit(left: nat, mid: nat, right: nat)
    requires mid == (left + right) / 2 && left < right
    ensures WriteOrder(left, right) == WriteOrder(left, mid) + WriteOrder(mid + 1, right) + Range(left, right + 1)
  {
  }

  lemma AppendThree(w: seq<nat>, l: seq<nat>, r: seq<nat>, m: seq<nat>)
    ensures w + l + r + m == w + (l + r + m)
  {
  }

  /** `mid` is where `mergeSort` splits left..right: floor((left + right) / 2). */
  predicate Halves(left: nat, mid: nat, right: nat) {
    left <= mid < right && mid == (left + right) / 2
  }

  /** `mergeSort`'s recursive case: the effects of the split step, both recursive calls and
      the merge compose to the effect of the whole call. */
  lemma Combine(input: seq<int>, steps0: seq<Step>, steps2: seq<Step>, steps3: seq<Step>,
                steps: seq<Step>, before: seq<int>, mid1: seq<int>, mid2: seq<int>, after: seq<int>,
                cmp0: nat, cmp2: nat, cmp3: nat, cmp: nat, left: nat, mid: nat, right: nat)
    requires Halves(left, mid, right) == true
    requires SortRangeEffect(input, steps0 + [Divide([left, mid, right], before, cmp0)], steps2,
                             before, mid1, cmp0, cmp2, left, mid) == true
    requires SortRangeEffect(input, steps2, steps3, mid1, mid2, cmp2, cmp3, mid + 1, right) == true
    requires MergeEffect(mid2, after, left, mid, right) == true
    requires MergeTraceEffect(input, steps3, steps, after, cmp3, cmp, left, mid, right) == true
    ensures SortRangeEffect(input, steps0, steps, before, after, cmp0, cmp, left, right) == true
  {
    CombineCore(input, steps0, steps2, steps3, steps, before, mid1, mid2, after, cmp0, cmp2, cmp3, cmp, left, mid, right);
    CombineSteps(input, steps0, steps2, steps3, steps, before, mid1, mid2, after, cmp0, cmp2, cmp3, cmp, left, mid, right);
  }

  /** The array and counter part of `mergeSort`'s recursive case. */
  lemma CombineCore(input: seq<int>, steps0: seq<Step>, steps2: seq<Step>, steps3: seq<Step>,
                    steps: seq<Step>, before: seq<int>, mid1: seq<int>, mid2: seq<int>, after: seq<int>,
                    cmp0: nat, cmp2: nat, cmp3: nat, cmp: nat, left: nat, mid: nat, right: nat)
    requires Halves(left, mid, right) == true
    requires SortRangeCore(input, steps0 + [Divide([left, mid, right], before, cmp0)], steps2,
                           before, mid1, cmp0, cmp2, left, mid) == true
    requires SortRangeCore(input, steps2, steps3, mid1, mid2, cmp2, cmp3, mid + 1, right) == true
    requires MergeEffect(mid2, after, left, mid, right) == true
    requires MergeTraceEffect(input, steps3, steps, after, cmp3, cmp, left, mid, right) == true
    ensures SortRangeCore(input, steps0, steps, before, after, cmp0, cmp, left, right) == true
  {
    var steps1 := steps0 + [Divide([left, mid, right], before, cmp0)];
    assert steps1[..|steps0|] == steps0;
    UnchangedSlice(mid1, before, left, mid + 1, mid + 1, right + 1);
    UnchangedSlice(mid2, mid1, mid + 1, right + 1, left, mid + 1);
    CombineArray(before, mid2, after, left, mid, right);
    UnchangedTrans(before, mid1, mid2, left, right + 1);
    UnchangedTrans(before, mid2, after, left, right + 1);
    CombineTrace(steps0, steps1, steps2, steps3, steps);
  }

  /** The step order part of `mergeSort`'s recursive case. */
  lemma CombineSteps(input: seq<int>, steps0: seq<Step>, steps2: seq<Step>, steps3: seq<Step>,
                     steps: seq<Step>, before: seq<int>, mid1: seq<int>, mid2: seq<int>, after: seq<int>,
                     cmp0: nat, cmp2: nat, cmp3: nat, cmp: nat, left: nat, mid: nat, right: nat)
    requires Halves(left, mid, right) == true
    requires SortRangeCore(input, steps0 + [Divide([left, mid, right], before, cmp0)], steps2,
                           before, mid1, cmp0, cmp2, left, mid) == true
    requires SortRangeOrder(steps0 + [Divide([left, mid, right], before, cmp0)], steps2,
                            before, mid1, cmp0, cmp2, left, mid) == true
    requires SortRangeCore(input, steps2, steps3, mid1, mid2, cmp2, cmp3, mid + 1, right) == true
    requires SortRangeOrder(steps2, steps3, mid1, mid2, cmp2, cmp3, mid + 1, right) == true
    requires MergeTraceEffect(input, steps3, steps, after, cmp3, cmp, left, mid, right) == true
    ensures SortRangeOrder(steps0, steps, before, after, cmp0, cmp, left, right) == true
  {
    var d := Divide([left, mid, right], before, cmp0);
    CombineTrace(steps0, steps0 + [d], steps2, steps3, steps);
    CombineOrder(steps0, steps2, steps3, steps, d, left, mid, right);
  }

  lemma Divides(input: seq<int>, steps0: seq<Step>, a: seq<int>, cmp0: nat, left: nat, mid: nat, right: nat)
    requires Ready(input, steps0, a, cmp0) == true
    requires left <= mid < right < |a|
    ensures Ready(input, steps0 + [Divide([left, mid, right], a, cmp0)], a, cmp0) == true
    ensures (steps0 + [Divide([left, mid, right], a, cmp0)])[..|steps0|] == steps0
  {
    Push(input, steps0, Divide([left, mid, right], a, cmp0));
  }

  /** The last call of `mergeSort`'s recursive case, `merge(array, left, mid, right)`, once
      both halves are sorted: the range ends up as its merge sort. */
  method MergeSortedHalves(a: array<int>, left: nat, mid: nat, right: nat, ghost input: seq<int>,
                           ghost steps0: seq<Step>, ghost steps2: seq<Step>, steps3: seq<Step>,
                           ghost before: seq<int>, ghost mid1: seq<int>,
                           ghost cmp0: nat, ghost cmp2: nat, cmp3: nat)
    returns (steps: seq<Step>, cmp: nat)
    requires right < a.Length && Halves(left, mid, right) == true
    requires SortRangeEffect(input, steps0 + [Divide([left, mid, right], before, cmp0)], steps2,
                             before, mid1, cmp0, cmp2, left, mid) == true
    requires SortRangeEffect(input, steps2, steps3, mid1, a[..], cmp2, cmp3, mid + 1, right) == true
    modifies a
    ensures SortRangeEffect(input, steps0, steps, before, a[..], cmp0, cmp, left, right) == true
  {
    ghost var mid2 := a[..];
    steps, cmp := MergeRuns(a, left, mid, right, input, steps3, cmp3);
    Combine(input, steps0, steps2, steps3, steps, before, mid1, mid2, a[..], cmp0, cmp2, cmp3, cmp, left, mid, right);
  }

  /** `mergeSort(array, left, right)`: split left..right at floor((left + right) / 2),
      record the split, sort both halves and merge them. */
  method MergeSortRange(a: array<int>, left: nat, right: int, ghost input: seq<int>,
                        steps0: seq<Step>, cmp0: nat)
    returns (steps: seq<Step>, cmp: nat)
    requires right < a.Length
    requires Ready(input, steps0, a[..], cmp0) == true
    modifies a
    decreases right - left, 1
    ensures SortRangeEffect(input, steps0, steps, old(a[..]), a[..], cmp0, cmp, left, right) == true
  {
    if left < right {
      var mid: nat := (left + right) / 2;
      ghost var before := a[..];
      Divides(input, steps0, a[..], cmp0, left, mid, right);
      var steps1 := steps0 + [Divide([left, mid, right], a[..], cmp0)];
      var steps2, cmp2 := MergeSortRange(a, left, mid, input, steps1, cmp0);
      steps, cmp := SortRightHalf(a, left, mid, right, input, steps0, steps2, before, cmp0, cmp2);
    } else {
      steps, cmp := steps0, cmp0;
    }
  }

  /** The rest of `mergeSort`'s recursive case once the left half is sorted: sort the
      right half, then merge the two. */
  method SortRightHalf(a: array<int>, left: nat, mid: nat, right: nat, ghost input: seq<int>,
                       ghost steps0: seq<Step>, steps2: seq<Step>, ghost before: seq<int>,
                       ghost cmp0: nat, cmp2: nat)
    returns (steps: seq<Step>, cmp: nat)
    requires right < a.Length && Halves(left, mid, right) == true
    requires SortRangeEffect(input, steps0 + [Divide([left, mid, right], before, cmp0)], steps2,
                             before, a[..], cmp0, cmp2, left, mid) == true
    modifies a
    decreases right - left, 0
    ensures SortRangeEffect(input, steps0, steps, before, a[..], cmp0, cmp, left, right) == true
  {
    ghost var mid1 := a[..];
    var steps3, cmp3 := MergeSortRange(a, mid + 1, right, input, steps2, cmp2);
    steps, cmp := MergeSortedHalves(a, left, mid, right, input, steps0, steps2, steps3,
                                    before, mid1, cmp0, cmp2, cmp3);
  }

  /** Sorting the whole array, 0..n-1, leaves its merge sort. */
  lemma SortedWhole(input: seq<int>, steps: seq<Step>, before: seq<int>, after: seq<int>, cmp: nat)
    requires SortRangeEffect(input, [], steps, before, after, 0, cmp, 0, |before| - 1) == true
    ensures after == MergeSorted(before)
  {
    if |before| > 0 {
      assert after[0..|before|] == after && before[0..|before|] == before;
    }
  }

  /** `generateSteps`: merge-sorts a copy of `arr`, recording every split, merge start,
      comparison, write and merge end, and ends with a `complete` step. */
  method GenerateSteps(arr: seq<int>) returns (steps: seq<Step>)
    ensures Replays(arr, steps) && steps != [] && steps[|steps| - 1].Complete?
    // the last snapshot is the merge sort of the input: a sorted permutation of it
    ensures steps[|steps| - 1].snapshot == MergeSorted(arr)
    ensures NonDecreasing(steps[|steps| - 1].snapshot)
    ensures multiset(steps[|steps| - 1].snapshot) == multiset(arr)
  {
    var a := new int[|arr|](k requires 0 <= k < |arr| => arr[k]);
    assert a[..] == arr;
    var cmp;
    steps, cmp := MergeSortRange(a, 0, |arr| - 1, arr, [], 0);
    SortedWhole(arr, steps, arr, a[..], cmp);
    var s := Complete(a[..], cmp);
    Push(arr, steps, s);
    steps := steps + [s];
    MergeSortedSpec(arr);
  }

  // ---------------------------------------------------------------------------
  // Playback
  // ---------------------------------------------------------------------------

  /** `[...new Set(s)]`: the elements of `s` in order of first occurrence. */
  function Dedup(s: seq<nat>): seq<nat> {
    if s == [] then []
    else
      var d := Dedup(s[..|s| - 1]);
      if s[|s| - 1] in d then d else d + [s[|s| - 1]]
  }

  /** No element occurs twice. */
  predicate Distinct(s: seq<nat>) {
    forall i, j :: 0 <= i < j < |s| ==> s[i] != s[j]
  }

  /** Removing repeats keeps every element and nothing else, leaves no repeats, and
      changes nothing in a sequence that has none. */
  lemma {:induction false} DedupSpec(s: seq<nat>)
    ensures forall x :: x in Dedup(s) <==> x in s
    ensures Distinct(Dedup(s))
    ensures Distinct(s) ==> Dedup(s) == s
  {
    if s != [] {
      var p := s[..|s| - 1];
      DedupSpec(p);
      assert s == p + [s[|s| - 1]];
      if Distinct(s) {
        assert Distinct(p);
        assert s[|s| - 1] !in p;
      }
    }
  }

  /** The "Merges" figure, `Math.floor(comparisons / 2)`: half the comparisons, rounded down. */
  function MergesShown(comparisons: nat): (m: nat)
    ensures 2 * m <= comparisons < 2 * m + 2
  {
    comparisons / 2
  }

  /** What the page displays: the bars, the comparison counter, and the three highlight
      lists (`dividing`, `merging`, `sorted`). */
  datatype View = View(values: seq<int>, comparisons: nat, dividing: seq<nat>,
                       merging: seq<nat>, sorted: seq<nat>)

  /** One timer tick: show the step's snapshot and counter; `divide` highlights its
      indices as dividing, `merge_start`, `compare` and `merge` as merging; `merge_complete`
      adds its indices to `sorted` (each index once) and `complete` sets `sorted` to every
      index, both clearing the other highlights. */
  function Apply(v: View, s: Step): View {
    var w := v.(values := s.snapshot, comparisons := s.comparisons);
    match s
    case Divide(ix, _, _) => w.(dividing := ix, merging := [])
    case MergeStart(ix, _, _) => w.(dividing := [], merging := ix)
    case Compare(ix, _, _) => w.(merging := ix)
    case Merge(ix, _, _) => w.(merging := ix)
    case MergeComplete(ix, _, _) => w.(dividing := [], merging := [], sorted := Dedup(v.sorted + ix))
    case Complete(b, _) => w.(dividing := [], merging := [], sorted := Range(0, |b|))
  }

  /** One tick shows the step's snapshot and counters and sets the highlights by the step's kind. */
  lemma ApplyShows(v: View, s: Step)
    ensures Apply(v, s).values == s.snapshot && Apply(v, s).comparisons == s.comparisons
    ensures s.Complete? ==> Apply(v, s).sorted == Range(0, |s.snapshot|)
    ensures !s.Complete? ==> forall x :: x in Apply(v, s).sorted <==> x in v.sorted || x in Completed([s])
    ensures !s.Complete? && Distinct(v.sorted) ==> Distinct(Apply(v, s).sorted)
    ensures s.MergeStart? || s.Compare? || s.Merge? ==> Apply(v, s).merging == s.indices
    ensures Apply(v, s).dividing ==
      if s.Divide? then s.indices else if s.Compare? || s.Merge? then v.dividing else []
  {
    if s.MergeComplete? {
      DedupSpec(v.sorted + s.indices);
    }
  }

  /** The display after ticking through `steps` from a freshly generated array. */
  function Played(input: seq<int>, steps: seq<Step>): View {
    if steps == [] then View(input, 0, [], [], [])
    else Apply(Played(input, steps[..|steps| - 1]), steps[|steps| - 1])
  }

  /** The indices of every `merge_complete` step, in trace order. */
  function Completed(steps: seq<Step>): seq<nat> {
    if steps == [] then []
    else
      var s := steps[|steps| - 1];
      Completed(steps[..|steps| - 1]) + (if s.MergeComplete? then s.indices else [])
  }

  /** Ticking through a prefix of the trace shows the state the trace has reached; the
      `sorted` list never repeats an index and, until a `complete` step, holds exactly the
      indices of the `merge_complete` steps played so far. */
  lemma {:induction false} PlayedShows(input: seq<int>, steps: seq<Step>)
    ensures Played(input, steps).values == After(input, steps).snapshot
    ensures Played(input, steps).comparisons == After(input, steps).comparisons
    ensures Distinct(Played(input, steps).sorted)
    ensures (forall k :: 0 <= k < |steps| ==> !steps[k].Complete?) ==>
      forall x :: x in Played(input, steps).sorted <==> x in Completed(steps)
  {
    if steps != [] {
      var p := steps[..|steps| - 1];
      PlayedShows(input, p);
      assert forall k :: 0 <= k < |p| ==> p[k] == steps[k];
      var s := steps[|steps| - 1];
      var v := Played(input, p);
      if s.MergeComplete? {
        DedupSpec(v.sorted + s.indices);
      } else if s.Complete? {
        RangeAt(0, |s.snapshot|);
      }
    }
  }

  /** Playing one more step applies that step to the display. */
  lemma PlayedNext(input: seq<int>, steps: seq<Step>, c: nat)
    requires c < |steps|
    ensures Played(input, steps[..c + 1]) == Apply(Played(input, steps[..c]), steps[c])
  {
    assert steps[..c + 1][..c] == steps[..c];
  }

  /** The trace of a freshly generated array, with what the controller relies on:
      nothing of it has been played yet, and it ends with a `complete` step showing the
      merge sort of the array. */
  method Fresh(arr: seq<int>) returns (steps: seq<Step>)
    ensures Played(arr, steps[..0]) == View(arr, 0, [], [], [])
    ensures Replays(arr, steps) && steps != [] && steps[|steps| - 1].Complete?
    ensures steps[|steps| - 1].snapshot == MergeSorted(arr)
  {
    steps := GenerateSteps(arr);
    assert steps[..0] == [];
  }

  /** The page's controller: the generated trace, how far it has been played, the speed
      slider, and in `shown` the five state variables the page renders (`array`,
      `comparisons`, `dividing`, `merging`, `sorted`). */
  class Player {
    var shown: View
    var isPlaying: bool
    var currentStep: nat
    var speed: int
    var steps: seq<Step>
    /** The array the trace was generated from. */
    ghost var input: seq<int>

    /** The display is the result of playing the first `currentStep` steps of a trace
        generated from `input`; that trace ends with a `complete` step showing the merge
        sort of `input`. */
    ghost predicate Valid()
      reads this
    {
      currentStep <= |steps| && shown == Played(input, steps[..currentStep])
      && Replays(input, steps) && steps != [] && steps[|steps| - 1].Complete?
      && steps[|steps| - 1].snapshot == MergeSorted(input)
      && Playback.MinSpeed <= speed <= Playback.MaxSpeed
    }

    /** Mounting the page: `generateArray` with the initial speed 200. */
    constructor (arr: seq<int>)
      ensures Valid() && input == arr && currentStep == 0 && !isPlaying && speed == 200
      ensures shown == View(arr, 0, [], [], [])
    {
      var s := Fresh(arr);
      shown, isPlaying, currentStep, speed := View(arr, 0, [], [], []), false, 0, 200;
      steps, input := s, arr;
    }

    /** `generateArray` on the freshly drawn array `next`: show it unsorted with the
        counter and highlights cleared, stop, and generate its trace; the speed is kept. */
    method Load(next: seq<int>)
      requires Playback.MinSpeed <= speed <= Playback.MaxSpeed
      modifies this
      ensures Valid() && input == next && currentStep == 0 && !isPlaying && speed == old(speed)
      ensures shown == View(next, 0, [], [], [])
    {
      var s := Fresh(next);
      shown, currentStep, isPlaying := View(next, 0, [], [], []), 0, false;
      steps, input := s, next;
    }

    /** One firing of the timer, which is armed only while playing and not finished:
        apply `steps[currentStep]` to the display and advance by one. */
    method Tick()
      requires Valid() && isPlaying && currentStep < |steps|
      modifies this
      ensures Valid() && currentStep == old(currentStep) + 1
      ensures shown == Apply(old(shown), steps[old(currentStep)])
      ensures steps == old(steps) && input == old(input)
      ensures isPlaying && speed == old(speed)
    {
      var k := currentStep;
      var v := Apply(shown, steps[k]);
      PlayedNext(input, steps, k);
      assert v == Played(input, steps[..k + 1]);
      shown, currentStep := v, k + 1;
    }

    /** The play/pause button: once the trace is finished it regenerates from `next`
        (which leaves playback stopped); otherwise it flips between playing and paused. */
    method TogglePlay(next: seq<int>)
      requires Valid()
      modifies this
      ensures Valid() && speed == old(speed)
      ensures old(currentStep) >= |old(steps)| ==>
        input == next && currentStep == 0 && !isPlaying && shown == View(next, 0, [], [], [])
      ensures old(currentStep) < |old(steps)| ==>
        isPlaying == !old(isPlaying) && currentStep == old(currentStep)
        && steps == old(steps) && input == old(input) && shown == old(shown)
    {
      if currentStep >= |steps| {
        Load(next);
      } else {
        isPlaying := !isPlaying;
      }
    }

    /** The reset button: `generateArray` on `next`. */
    method Reset(next: seq<int>)
      requires Valid()
      modifies this
      ensures Valid() && input == next && currentStep == 0 && !isPlaying && speed == old(speed)
      ensures shown == View(next, 0, [], [], [])
    {
      Load(next);
    }

    /** The speed slider, whose range is 1..1000. */
    method SetSpeed(v: int)
      requires Valid() && Playback.MinSpeed <= v <= Playback.MaxSpeed
      modifies this
      ensures Valid() && speed == v
      ensures shown == old(shown) && steps == old(steps) && input == old(input)
      ensures currentStep == old(currentStep) && isPlaying == old(isPlaying)
    {
      speed := v;
    }

    /** Once every step has been played the bars show the input sorted, every index is
        marked `sorted`, and nothing else is highlighted. */
    lemma PlayedOut()
      requires Valid() && currentStep == |steps|
      ensures shown.values == MergeSorted(input) && NonDecreasing(shown.values)
      ensures multiset(shown.values) == multiset(input)
      ensures shown.sorted == Range(0, |input|)
      ensures shown.dividing == [] && shown.merging == []
    {
      assert steps[..currentStep] == steps;
      MergeSortedSpec(input);
    }
  }
}
