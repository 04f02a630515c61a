/** The bubble sort page: its trace generator and its playback controller. */
module BubbleSort {
  import opened SortSpec
  import Playback

  /** One recorded event; `snapshot` is the copy of the array taken after the event (the source field `array`),
      `comparisons` and `swaps` the running totals at that point. */
  datatype Step =
    | Compare(indices: seq<nat>, snapshot: seq<int>, comparisons: nat, swaps: nat)
    | Swap(indices: seq<nat>, snapshot: seq<int>, comparisons: nat, swaps: nat)
    | Sorted(indices: seq<nat>, snapshot: seq<int>, comparisons: nat, swaps: nat)

  // ---------------------------------------------------------------------------
  // What a trace means
  // ---------------------------------------------------------------------------

  /** What the page shows after a prefix of the trace: the snapshot and both counters. */
  datatype State = State(snapshot: seq<int>, comparisons: nat, swaps: nat)

  function StateOf(s: Step): State {
    State(s.snapshot, s.comparisons, s.swaps)
  }

  /** The state left by `steps`, starting from the input with both counters at zero. */
  function After(input: seq<int>, steps: seq<Step>): State {
    if steps == [] then State(input, 0, 0) else StateOf(steps[|steps| - 1])
  }

  /** The effect of one step on the state before it:
      a comparison of two neighbours counts one comparison and changes nothing else;
      a swap exchanges two neighbours that are strictly out of order and counts one swap;
      a `sorted` milestone changes nothing. */
  predicate Follows(st: State, s: Step) {
    var a := st.snapshot;
    match s
    case Compare(ix, b, c, w) =>
      |ix| == 2 && ix[1] == ix[0] + 1 && ix[1] < |a| && b == a
      && c == st.comparisons + 1 && w == st.swaps
    case Swap(ix, b, c, w) =>
      |ix| == 2 && ix[1] == ix[0] + 1 && ix[1] < |a| && a[ix[0]] > a[ix[1]]
      && b == SwapAt(a, ix[0], ix[1]) && c == st.comparisons && w == st.swaps + 1
    case Sorted(ix, b, c, w) =>
      |ix| == 1 && b == a && c == st.comparisons && w == st.swaps
  }

  /** Every step is obtained from the state left by the steps before it. */
  predicate Replays(input: seq<int>, steps: seq<Step>) {
    steps == []
    || (Replays(input, steps[..|steps| - 1])
        && Follows(After(input, steps[..|steps| - 1]), steps[|steps| - 1]))
  }

  /** The first index of every `compare` step, in trace order. */
  function Compared(steps: seq<Step>): seq<nat> {
    if steps == [] then []
    else
      var s := steps[|steps| - 1];
      Compared(steps[..|steps| - 1]) + (if s.Compare? && |s.indices| > 0 then [s.indices[0]] else [])
  }

  /** The indices of every `sorted` step, in trace order; replaying the trace
      appends exactly these to the controller's `sorted` list. */
  function Marks(steps: seq<Step>): seq<nat> {
    if steps == [] then []
    else
      var s := steps[|steps| - 1];
      Marks(steps[..|steps| - 1]) + (if s.Sorted? then s.indices else [])
  }

  /** The inner-loop indices j of the outer passes 0..i-1: pass p scans j = 0..n-p-2. */
  function Passes(n: nat, i: nat): seq<nat>
    requires i <= n
  {
    if i == 0 then [] else Passes(n, i - 1) + Range(0, n - i)
  }

  /** The number of outer passes, `for (let i = 0; i < n - 1; i++)`: none for an empty array. */
  function Rounds(n: nat): nat {
    if n == 0 then 0 else n - 1
  }

  /** The inner-loop indices of all n-1 passes, in the order they are compared. */
  function ExpectedCompared(n: nat): seq<nat> {
    Passes(n, Rounds(n))
  }

  /** The `sorted` marks the generator emits: n-1 down to 1 from the passes, then 0
      (the final mark names index 0 even for an empty input). */
  function ExpectedMarks(n: nat): seq<nat> {
    if n == 0 then [0] else Countdown(n, 0)
  }

  // ---------------------------------------------------------------------------
  // Lemmas about traces
  // ---------------------------------------------------------------------------

  /** Appending a step that follows from the current state keeps the trace replayable. */
  lemma Push(input: seq<int>, steps: seq<Step>, s: Step)
    requires Replays(input, steps) && Follows(After(input, steps), s)
    ensures Replays(input, steps + [s]) && After(input, steps + [s]) == StateOf(s)
    ensures Compared(steps + [s]) == Compared(steps) + (if s.Compare? && |s.indices| > 0 then [s.indices[0]] else [])
    ensures Marks(steps + [s]) == Marks(steps) + (if s.Sorted? then s.indices else [])
  {
    assert (steps + [s])[..|steps|] == steps;
  }

  /** The steps from position `from` on are comparisons or swaps of two neighbours
      below `bound`. */
  predicate Scan(steps: seq<Step>, from: nat, bound: nat) {
    forall l :: from <= l < |steps| ==>
      !steps[l].Sorted? && |steps[l].indices| == 2 && steps[l].indices[1] < bound
  }

  lemma PushScan(steps: seq<Step>, s: Step, from: nat, bound: nat)
    requires from <= |steps| && Scan(steps, from, bound)
    requires !s.Sorted? && |s.indices| == 2 && s.indices[1] < bound
    ensures Scan(steps + [s], from, bound) && (steps + [s])[..from] == steps[..from]
  {
  }

  /** Conservation along a replayable trace: the state left by it holds a permutation
      of the input (so of the input's length), from which exactly as many inversions
      have been removed as the swap counter says. */
  lemma {:induction false} ReplaysConserves(input: seq<int>, steps: seq<Step>)
    requires Replays(input, steps)
    ensures var st := After(input, steps);
      |st.snapshot| == |input| && multiset(st.snapshot) == multiset(input)
      && Inversions(st.snapshot) + st.swaps == Inversions(input)
  {
    if steps != [] {
      var p := steps[..|steps| - 1];
      ReplaysConserves(input, p);
      var a := After(input, p).snapshot;
      if steps[|steps| - 1].Swap? {
        AdjacentSwapInversions(a, steps[|steps| - 1].indices[0]);
      }
    }
  }

  lemma {:induction false} ReplaysPrefix(input: seq<int>, steps: seq<Step>, m: nat)
    requires Replays(input, steps) && m <= |steps|
    ensures Replays(input, steps[..m])
    ensures m > 0 ==> After(input, steps[..m]) == StateOf(steps[m - 1])
    decreases |steps|
  {
    if m < |steps| {
      var p := steps[..|steps| - 1];
      ReplaysPrefix(input, p, m);
      assert p[..m] == steps[..m];
    } else {
      assert steps[..m] == steps;
    }
  }

  /** Each step of a trace names one index (`sorted`) or two (`compare`, `swap`),
      and carries a snapshot of the input's length. */
  predicate Shaped(steps: seq<Step>, n: nat) {
    forall k :: 0 <= k < |steps| ==>
      |steps[k].snapshot| == n && |steps[k].indices| == (if steps[k].Sorted? then 1 else 2)
  }

  /** Every snapshot of a replayable trace is a permutation of the input. */
  lemma {:induction false} ReplaysPermutes(input: seq<int>, steps: seq<Step>)
    requires Replays(input, steps)
    ensures Shaped(steps, |input|)
    ensures forall k :: 0 <= k < |steps| ==> multiset(steps[k].snapshot) == multiset(input)
  {
    if steps != [] {
      var m := |steps| - 1;
      var p := steps[..m];
      ReplaysPermutes(input, p);
      ReplaysConserves(input, steps);
      assert forall k :: 0 <= k < m ==> p[k] == steps[k];
    }
  }

  /** No step shows a counter above the final one, and the final comparison counter
      equals the number of `compare` steps. */
  lemma {:induction false} ReplaysCounters(input: seq<int>, steps: seq<Step>)
    requires Replays(input, steps)
    ensures forall k :: 0 <= k < |steps| ==>
      steps[k].comparisons <= After(input, steps).comparisons && steps[k].swaps <= After(input, steps).swaps
    ensures After(input, steps).comparisons == |Compared(steps)|
  {
    if steps != [] {
      var m := |steps| - 1;
      var p := steps[..m];
      ReplaysCounters(input, p);
      assert forall k :: 0 <= k < m ==> p[k] == steps[k];
      assert Follows(After(input, p), steps[m]);
    }
  }

  /** The counters never decrease along a replayable trace. */
  lemma CountersMonotone(input: seq<int>, steps: seq<Step>, k: nat, l: nat)
    requires Replays(input, steps) && k <= l < |steps|
    ensures steps[k].comparisons <= steps[l].comparisons && steps[k].swaps <= steps[l].swaps
  {
    ReplaysPrefix(input, steps, l + 1);
    ReplaysCounters(input, steps[..l + 1]);
    assert steps[..l + 1][k] == steps[k];
  }

  /** A replayable trace that ends sorted has swapped exactly the input's inversions. */
  lemma SwapsAreInversions(input: seq<int>, steps: seq<Step>)
    requires Replays(input, steps) && steps != []
    requires NonDecreasing(steps[|steps| - 1].snapshot)
    ensures steps[|steps| - 1].swaps == Inversions(input)
  {
    ReplaysConserves(input, steps);
    NonDecreasingNoInversions(steps[|steps| - 1].snapshot);
  }

  /** The outer passes scan n(n-1)/2 pairs in all, i.e. i(2n-i-1)/2 after i passes. */
  lemma {:induction false} PassesLength(n: nat, i: nat)
    requires i <= n
    ensures 2 * |Passes(n, i)| == i * (2 * n - i - 1)
  {
    if i > 0 {
      PassesLength(n, i - 1);
      RangeAt(0, n - i);
      assert |Passes(n, i)| == |Passes(n, i - 1)| + (n - i);
      assert (i - 1) * (2 * n - i) + 2 * (n - i) == i * (2 * n - i - 1) by {
        assert (i - 1) * (2 * n - i) == i * (2 * n - i) - (2 * n - i);
        assert i * (2 * n - i) - (2 * n - i) + 2 * (n - i) == i * (2 * n - i) - i;
        assert i * (2 * n - i) - i == i * (2 * n - i - 1);
      }
    }
  }

  /** All n-1 passes scan n(n-1)/2 pairs. */
  lemma PassesTotal(n: nat)
    ensures 2 * |ExpectedCompared(n)| == n * (n - 1)
  {
    if n > 0 {
      PassesLength(n, n - 1);
    }
  }

  // ---------------------------------------------------------------------------
  // The generator
  // ---------------------------------------------------------------------------

  /** The trace part of the inner-loop invariant: the trace `steps` extends `steps0`,
      replays to the array `a` and the counters, appends only comparisons and swaps of
      neighbours below `bound`, and compares 0..k-1 since `steps0`. */
  predicate TraceOK(input: seq<int>, steps0: seq<Step>, steps: seq<Step>, a: seq<int>,
                    cmp: nat, swp: nat, bound: nat, k: nat) {
    Replays(input, steps) && After(input, steps) == State(a, cmp, swp)
    && |steps0| <= |steps| && steps[..|steps0|] == steps0 && Scan(steps, |steps0|, bound)
    && Compared(steps) == Compared(steps0) + Range(0, k) && Marks(steps) == Marks(steps0)
  }

  /** The array part of the inner-loop invariant of pass i at j: positions n-i.. are as
      `before` the pass, and a[j] is the maximum of a[..j+1]. */
  predicate ArrayOK(a: seq<int>, before: seq<int>, i: nat, j: nat) {
    |a| == |before| && i + 1 < |a| && j < |a| - i
    && (forall t :: |a| - i <= t < |a| ==> a[t] == before[t])
    && (forall t :: 0 <= t < j ==> a[t] <= a[j])
  }

  lemma TraceStart(input: seq<int>, steps0: seq<Step>, a: seq<int>, cmp: nat, swp: nat, bound: nat)
    requires Replays(input, steps0) && After(input, steps0) == State(a, cmp, swp)
    ensures TraceOK(input, steps0, steps0, a, cmp, swp, bound, 0)
  {
    assert steps0[..|steps0|] == steps0;
  }

  /** Recording the comparison of a[j] and a[j+1]. */
  lemma TraceCompare(input: seq<int>, steps0: seq<Step>, steps: seq<Step>, a: seq<int>,
                     cmp: nat, swp: nat, bound: nat, j: nat)
    requires TraceOK(input, steps0, steps, a, cmp, swp, bound, j) && j + 1 < |a| && j + 1 < bound
    ensures TraceOK(input, steps0, steps + [Compare([j, j + 1], a, cmp + 1, swp)], a, cmp + 1, swp, bound, j + 1)
  {
    var s := Compare([j, j + 1], a, cmp + 1, swp);
    Push(input, steps, s);
    PushScan(steps, s, |steps0|, bound);
  }

  /** Recording the exchange of a[j] > a[j+1]. */
  lemma TraceSwap(input: seq<int>, steps0: seq<Step>, steps: seq<Step>, a: seq<int>,
                  cmp: nat, swp: nat, bound: nat, j: nat, k: nat)
    requires TraceOK(input, steps0, steps, a, cmp, swp, bound, k) && j + 1 < |a| && j + 1 < bound
    requires a[j] > a[j + 1]
    ensures TraceOK(input, steps0, steps + [Swap([j, j + 1], SwapAt(a, j, j + 1), cmp, swp + 1)],
                    SwapAt(a, j, j + 1), cmp, swp + 1, bound, k)
  {
    var s := Swap([j, j + 1], SwapAt(a, j, j + 1), cmp, swp + 1);
    Push(input, steps, s);
    PushScan(steps, s, |steps0|, bound);
  }

  /** Exchanging a[j] > a[j+1] moves the maximum of a[..j+2] to j+1. */
  lemma ArraySwap(a: seq<int>, before: seq<int>, i: nat, j: nat)
    requires ArrayOK(a, before, i, j) && j + 1 < |a| - i && a[j] > a[j + 1]
    ensures ArrayOK(SwapAt(a, j, j + 1), before, i, j + 1)
  {
  }

  /** A pair already in order leaves the maximum of a[..j+2] at j+1. */
  lemma ArrayKeep(a: seq<int>, before: seq<int>, i: nat, j: nat)
    requires ArrayOK(a, before, i, j) && j + 1 < |a| - i && a[j] <= a[j + 1]
    ensures ArrayOK(a, before, i, j + 1)
  {
  }

  /** The array after the inner-loop body at j: a[j] and a[j+1] exchanged when a[j] > a[j+1]. */
  function Exchanged(a: seq<int>, j: nat): seq<int>
    requires j + 1 < |a|
  {
    if a[j] > a[j + 1] then SwapAt(a, j, j + 1) else a
  }

  /** The swaps counted by the inner-loop body at j. */
  function Swapped(a: seq<int>, j: nat): nat
    requires j + 1 < |a|
  {
    if a[j] > a[j + 1] then 1 else 0
  }

  /** The steps recorded by the inner-loop body at j: a `compare` step, then a `swap`
      step when the pair was strictly out of order. */
  function NeighbourSteps(a: seq<int>, j: nat, cmp: nat, swp: nat): seq<Step>
    requires j + 1 < |a|
  {
    [Compare([j, j + 1], a, cmp + 1, swp)]
    + (if a[j] > a[j + 1] then [Swap([j, j + 1], SwapAt(a, j, j + 1), cmp + 1, swp + 1)] else [])
  }

  /** The inner-loop body at j keeps both parts of the invariant, now at j+1. */
  lemma NeighboursDone(input: seq<int>, steps0: seq<Step>, before: seq<int>,
                       steps: seq<Step>, a: seq<int>, cmp: nat, swp: nat, i: nat, j: nat)
    requires j + 1 < |a| - i
    requires TraceOK(input, steps0, steps, a, cmp, swp, |a| - i, j) && ArrayOK(a, before, i, j)
    ensures TraceOK(input, steps0, steps + NeighbourSteps(a, j, cmp, swp), Exchanged(a, j),
                    cmp + 1, swp + Swapped(a, j), |a| - i, j + 1)
    ensures ArrayOK(Exchanged(a, j), before, i, j + 1)
  {
    var c := Compare([j, j + 1], a, cmp + 1, swp);
    TraceCompare(input, steps0, steps, a, cmp, swp, |a| - i, j);
    if a[j] > a[j + 1] {
      TraceSwap(input, steps0, steps + [c], a, cmp + 1, swp, |a| - i, j, j + 1);
      ArraySwap(a, before, i, j);
      assert steps + [c] + [Swap([j, j + 1], SwapAt(a, j, j + 1), cmp + 1, swp + 1)]
          == steps + NeighbourSteps(a, j, cmp, swp);
    } else {
      ArrayKeep(a, before, i, j);
      assert steps + [c] == steps + NeighbourSteps(a, j, cmp, swp);
    }
  }

  /** `[arr[j], arr[j + 1]] = [arr[j + 1], arr[j]]` */
  method Exchange(a: array<int>, j: nat)
    requires j + 1 < a.Length
    modifies a
    ensures a[..] == SwapAt(old(a[..]), j, j + 1)
  {
    a[j], a[j + 1] := a[j + 1], a[j];
  }

  /** The body of the inner loop at j: count and record the comparison of a[j] and a[j+1],
      then swap them, counting and recording the swap, if a[j] > a[j+1]. */
  method CompareNeighbours(a: array<int>, j: nat, cmp0: nat, swp0: nat)
    returns (added: seq<Step>, cmp: nat, swp: nat)
    requires j + 1 < a.Length
    modifies a
    ensures added == NeighbourSteps(old(a[..]), j, cmp0, swp0)
    ensures a[..] == Exchanged(old(a[..]), j)
    ensures cmp == cmp0 + 1 && swp == swp0 + Swapped(old(a[..]), j)
  {
    cmp, swp := cmp0 + 1, swp0;
    added := [Compare([j, j + 1], a[..], cmp, swp)];
    if a[j] > a[j + 1] {
      swp := swp + 1;
      Exchange(a, j);
      added := added + [Swap([j, j + 1], a[..], cmp, swp)];
    }
  }

  /** One iteration of the inner loop of pass i, stated by the two parts of the invariant. */
  method InnerStep(a: array<int>, i: nat, j: nat, ghost input: seq<int>, ghost steps0: seq<Step>,
                   ghost before: seq<int>, steps: seq<Step>, cmp0: nat, swp0: nat)
    returns (steps': seq<Step>, cmp: nat, swp: nat)
    requires j + 1 < a.Length - i
    requires TraceOK(input, steps0, steps, a[..], cmp0, swp0, a.Length - i, j) && ArrayOK(a[..], before, i, j)
    modifies a
    ensures TraceOK(input, steps0, steps', a[..], cmp, swp, a.Length - i, j + 1) && ArrayOK(a[..], before, i, j + 1)
  {
    NeighboursDone(input, steps0, before, steps, a[..], cmp0, swp0, i, j);
    var added;
    added, cmp, swp := CompareNeighbours(a, j, cmp0, swp0);
    steps' := steps + added;
  }

  /** What pass i does to the array (`before` to `after`) and to the trace
      (`steps0` to `steps`). */
  predicate PassEffect(input: seq<int>, steps0: seq<Step>, before: seq<int>,
                       steps: seq<Step>, after: seq<int>, cmp: nat, swp: nat, i: nat) {
    var n := |before|;
    |after| == n && i + 1 < n
    && Replays(input, steps) && After(input, steps) == State(after, cmp, swp)
    && |steps0| <= |steps| && steps[..|steps0|] == steps0 && Scan(steps, |steps0|, n - i)
    && (forall t :: n - i <= t < n ==> after[t] == before[t])
    && (forall t :: 0 <= t < n - i - 1 ==> after[t] <= after[n - i - 1])
    && Compared(steps) == Compared(steps0) + Range(0, n - i - 1)
    && Marks(steps) == Marks(steps0)
  }

  lemma ScanningEnd(input: seq<int>, steps0: seq<Step>, before: seq<int>,
                    steps: seq<Step>, a: seq<int>, cmp: nat, swp: nat, i: nat)
    requires i + 1 < |before|
    requires TraceOK(input, steps0, steps, a, cmp, swp, |before| - i, |before| - i - 1)
    requires ArrayOK(a, before, i, |before| - i - 1)
    ensures PassEffect(input, steps0, before, steps, a, cmp, swp, i)
  {
  }

  /** One outer pass i: compare every neighbouring pair j, j+1 with j < n-i-1 and swap
      it when strictly out of order; the pass carries the maximum of a[..n-i] to n-i-1. */
  method Pass(a: array<int>, i: nat, ghost input: seq<int>, steps0: seq<Step>, cmp0: nat, swp0: nat)
    returns (steps: seq<Step>, cmp: nat, swp: nat)
    requires i + 1 < a.Length
    requires Replays(input, steps0) && After(input, steps0) == State(a[..], cmp0, swp0)
    modifies a
    ensures PassEffect(input, steps0, old(a[..]), steps, a[..], cmp, swp, i)
  {
    ghost var before := a[..];
    steps, cmp, swp := steps0, cmp0, swp0;
    TraceStart(input, steps0, before, cmp, swp, a.Length - i);
    var j := 0;
    while j < a.Length - i - 1
      invariant TraceOK(input, steps0, steps, a[..], cmp, swp, a.Length - i, j) && ArrayOK(a[..], before, i, j)
    {
      steps, cmp, swp := InnerStep(a, i, j, input, steps0, before, steps, cmp, swp);
      j := j + 1;
    }
    ScanningEnd(input, steps0, before, steps, a[..], cmp, swp, i);
  }

  /** Every `sorted` step so far marks one position below n that held the maximum of
      everything to its left in the step's snapshot, and whose value there is that of `a`
      from the mark on. */
  predicate MarksFinal(steps: seq<Step>, a: seq<int>, n: nat) {
    forall k :: 0 <= k < |steps| && steps[k].Sorted? ==>
      |steps[k].indices| == 1 && steps[k].indices[0] < n && |steps[k].snapshot| == n && |a| == n
      && (forall t :: 0 <= t < steps[k].indices[0] ==> steps[k].snapshot[t] <= steps[k].snapshot[steps[k].indices[0]])
      && (forall t :: steps[k].indices[0] <= t < n ==> steps[k].snapshot[t] == a[t])
  }

  /** Every `sorted` step so far marks a position at or above `lo`. */
  predicate MarksAbove(steps: seq<Step>, lo: nat) {
    forall k :: 0 <= k < |steps| && steps[k].Sorted? ==> |steps[k].indices| == 1 && lo <= steps[k].indices[0]
  }

  /** No comparison or swap touches a position already marked `sorted`. */
  predicate NeverTouched(steps: seq<Step>) {
    forall k, l :: 0 <= k < l < |steps| && steps[k].Sorted? && !steps[l].Sorted? ==>
      |steps[k].indices| == 1 && |steps[l].indices| == 2 && steps[l].indices[1] < steps[k].indices[0]
  }

  /** Two permutations of each other that agree from `k` on agree as multisets before `k`. */
  lemma PrefixPermutes(after: seq<int>, before: seq<int>, k: nat)
    requires |after| == |before| && k <= |before|
    requires multiset(after) == multiset(before) && after[k..] == before[k..]
    ensures multiset(after[..k]) == multiset(before[..k])
  {
    assert after == after[..k] + after[k..];
    assert before == before[..k] + before[k..];
    assert multiset(after[..k]) == multiset(after) - multiset(after[k..]);
    assert multiset(before[..k]) == multiset(before) - multiset(before[k..]);
  }

  /** After pass i the sorted suffix grows by the position n-i-1. */
  lemma PassSplit(before: seq<int>, after: seq<int>, i: nat)
    requires |after| == |before| && i + 1 < |before|
    requires multiset(after) == multiset(before)
    requires forall t :: |before| - i <= t < |before| ==> after[t] == before[t]
    requires forall t :: 0 <= t < |before| - i - 1 ==> after[t] <= after[|before| - i - 1]
    requires NonDecreasingBetween(before, |before| - i, |before|) && Split(before, 0, |before| - i, |before|)
    ensures NonDecreasingBetween(after, |before| - i - 1, |before|) && Split(after, 0, |before| - i - 1, |before|)
  {
    var n := |before|;
    assert after[n - i..] == before[n - i..];
    PrefixPermutes(after, before, n - i);
    forall x, y | 0 <= x < y < n && n - i - 1 <= y ensures after[x] <= after[y] {
      if y > n - i - 1 && x < n - i {
        assert after[x] in multiset(before[..n - i]) by {
          assert after[x] == after[..n - i][x];
        }
        var z :| 0 <= z < n - i && before[..n - i][z] == after[x];
        assert before[z] <= before[y];
      }
    }
  }

  /** Appending pass i and its `sorted` step keeps every earlier mark final and untouched. */
  lemma PassMarks(steps0: seq<Step>, steps: seq<Step>, s: Step, before: seq<int>, after: seq<int>, i: nat)
    requires |after| == |before| && i + 1 < |before|
    requires |steps0| <= |steps| && steps[..|steps0|] == steps0 && Scan(steps, |steps0|, |before| - i)
    requires forall t :: |before| - i <= t < |before| ==> after[t] == before[t]
    requires forall t :: 0 <= t < |before| - i - 1 ==> after[t] <= after[|before| - i - 1]
    requires MarksFinal(steps0, before, |before|) && MarksAbove(steps0, |before| - i) && NeverTouched(steps0)
    requires s.Sorted? && s.indices == [|before| - i - 1] && s.snapshot == after
    ensures MarksFinal(steps + [s], after, |before|)
    ensures MarksAbove(steps + [s], |before| - i - 1) && NeverTouched(steps + [s])
  {
    var m := |steps0|;
    var all := steps + [s];
    assert forall k :: 0 <= k < m ==> all[k] == steps0[k] by {
      assert forall k :: 0 <= k < m ==> steps[k] == steps[..m][k];
    }
    assert forall k :: m <= k < |steps| ==> all[k] == steps[k];
  }

  /** The loop invariant of `generateSteps` after i outer passes over the current array `a`:
      the trace so far replays to `a` and the counters, the last i positions hold the i
      largest values in order, every `sorted` mark is final and untouched, and the
      comparisons and marks are those of passes 0..i-1. */
  predicate PassesDone(input: seq<int>, steps: seq<Step>, a: seq<int>, cmp: nat, swp: nat, i: nat) {
    var n := |a|;
    i <= n
    && Replays(input, steps) && After(input, steps) == State(a, cmp, swp)
    && NonDecreasingBetween(a, n - i, n) && Split(a, 0, n - i, n)
    && MarksFinal(steps, a, n) && MarksAbove(steps, n - i) && NeverTouched(steps)
    && Compared(steps) == Passes(n, i) && Marks(steps) == Countdown(n, n - i)
  }

  /** Pass i followed by its `sorted` step for n-i-1 re-establishes the loop invariant. */
  lemma PassDone(input: seq<int>, steps0: seq<Step>, before: seq<int>, cmp0: nat, swp0: nat,
                 steps: seq<Step>, after: seq<int>, cmp: nat, swp: nat, i: nat, s: Step)
    requires PassesDone(input, steps0, before, cmp0, swp0, i)
    requires PassEffect(input, steps0, before, steps, after, cmp, swp, i)
    requires s == Sorted([|before| - i - 1], after, cmp, swp)
    ensures PassesDone(input, steps + [s], after, cmp, swp, i + 1)
  {
    PassDoneTrace(input, steps0, before, cmp0, swp0, steps, after, cmp, swp, i, s);
    PassDoneOrder(input, steps0, before, cmp0, swp0, steps, after, cmp, swp, i, s);
    PassDoneMarks(input, steps0, before, cmp0, swp0, steps, after, cmp, swp, i, s);
  }

  lemma PassDoneTrace(input: seq<int>, steps0: seq<Step>, before: seq<int>, cmp0: nat, swp0: nat,
                 steps: seq<Step>, after: seq<int>, cmp: nat, swp: nat, i: nat, s: Step)
    requires PassesDone(input, steps0, before, cmp0, swp0, i)
    requires PassEffect(input, steps0, before, steps, after, cmp, swp, i)
    requires s == Sorted([|before| - i - 1], after, cmp, swp)
    ensures Replays(input, steps + [s]) && After(input, steps + [s]) == State(after, cmp, swp)
    ensures Compared(steps + [s]) == Passes(|before|, i + 1)
    ensures Marks(steps + [s]) == Countdown(|before|, |before| - i - 1)
  {
    Push(input, steps, s);
  }

  lemma PassDoneOrder(input: seq<int>, steps0: seq<Step>, before: seq<int>, cmp0: nat, swp0: nat,
                 steps: seq<Step>, after: seq<int>, cmp: nat, swp: nat, i: nat, s: Step)
    requires PassesDone(input, steps0, before, cmp0, swp0, i)
    requires PassEffect(input, steps0, before, steps, after, cmp, swp, i)
    requires s == Sorted([|before| - i - 1], after, cmp, swp)
    ensures NonDecreasingBetween(after, |before| - i - 1, |before|) && Split(after, 0, |before| - i - 1, |before|)
  {
    ReplaysConserves(input, steps0);
    ReplaysConserves(input, steps);
    PassSplit(before, after, i);
  }

  lemma PassDoneMarks(input: seq<int>, steps0: seq<Step>, before: seq<int>, cmp0: nat, swp0: nat,
                 steps: seq<Step>, after: seq<int>, cmp: nat, swp: nat, i: nat, s: Step)
    requires PassesDone(input, steps0, before, cmp0, swp0, i)
    requires PassEffect(input, steps0, before, steps, after, cmp, swp, i)
    requires s == Sorted([|before| - i - 1], after, cmp, swp)
    ensures MarksFinal(steps + [s], after, |before|)
    ensures MarksAbove(steps + [s], |before| - i - 1) && NeverTouched(steps + [s])
  {
    PassMarks(steps0, steps, s, before, after, i);
  }

  /** One iteration of the outer loop: pass i, then its `sorted` step for index n-i-1. */
  method OuterPass(a: array<int>, i: nat, ghost input: seq<int>, steps0: seq<Step>, cmp0: nat, swp0: nat)
    returns (steps: seq<Step>, cmp: nat, swp: nat)
    requires i + 1 < a.Length && PassesDone(input, steps0, a[..], cmp0, swp0, i) == true
    modifies a
    ensures PassesDone(input, steps, a[..], cmp, swp, i + 1) == true
  {
    ghost var before := a[..];
    var passed;
    passed, cmp, swp := Pass(a, i, input, steps0, cmp0, swp0);
    var s := Sorted([a.Length - i - 1], a[..], cmp, swp);
    PassDone(input, steps0, before, cmp0, swp0, passed, a[..], cmp, swp, i, s);
    steps := passed + [s];
  }

  /** The final `sorted` step for index 0 closes a replayable trace that permutes the
      input and records the comparisons of all the passes. */
  lemma LastMarkTrace(input: seq<int>, steps0: seq<Step>, s: Step, a: seq<int>, cmp: nat, swp: nat)
    requires Replays(input, steps0) && After(input, steps0) == State(a, cmp, swp)
    requires s == Sorted([0], a, cmp, swp)
    ensures Replays(input, steps0 + [s]) && Shaped(steps0 + [s], |input|)
    ensures multiset(a) == multiset(input) && |a| == |input|
    ensures Compared(steps0 + [s]) == Compared(steps0) && Marks(steps0 + [s]) == Marks(steps0) + [0]
    ensures cmp == |Compared(steps0)|
  {
    Push(input, steps0, s);
    ReplaysPermutes(input, steps0 + [s]);
    ReplaysCounters(input, steps0);
    ReplaysConserves(input, steps0);
  }

  /** The final `sorted` step for index 0, once all n-1 passes are done, completes a
      sorted array and keeps every mark final and untouched. */
  lemma LastMarkOrder(steps0: seq<Step>, s: Step, a: seq<int>)
    requires |a| > 0 ==> NonDecreasingBetween(a, 1, |a|) && Split(a, 0, 1, |a|)
    requires MarksFinal(steps0, a, |a|) && MarksAbove(steps0, 1) && NeverTouched(steps0)
    requires s.Sorted? && s.indices == [0] && s.snapshot == a
    ensures NonDecreasing(a)
    ensures |a| > 0 ==> MarksFinal(steps0 + [s], a, |a|)
    ensures NeverTouched(steps0 + [s])
  {
    var steps := steps0 + [s];
    assert forall k :: 0 <= k < |steps0| ==> steps[k] == steps0[k];
  }

  /** A trace ending in a sorted array has counted n(n-1)/2 comparisons and exactly the
      input's inversions as swaps. */
  lemma LastMarkCounts(input: seq<int>, steps0: seq<Step>, s: Step, a: seq<int>, cmp: nat, swp: nat)
    requires Replays(input, steps0 + [s]) && s == Sorted([0], a, cmp, swp)
    requires NonDecreasing(a) && |a| == |input|
    requires cmp == |ExpectedCompared(|input|)|
    ensures cmp == |input| * (|input| - 1) / 2
    ensures swp == Inversions(input)
  {
    var steps := steps0 + [s];
    assert steps[|steps| - 1] == s;
    SwapsAreInversions(input, steps);
    PassesTotal(|input|);
  }

  /** The outer loop of `generateSteps`: the n-1 passes with their `sorted` steps. */
  method OuterLoop(a: array<int>, ghost input: seq<int>) returns (steps: seq<Step>, cmp: nat, swp: nat)
    requires a[..] == input
    modifies a
    ensures PassesDone(input, steps, a[..], cmp, swp, Rounds(|input|)) == true
  {
    var n := a.Length;
    cmp, swp := 0, 0;
    steps := [];
    var i := 0;
    while i < n - 1
      invariant n == 0 ==> i == 0
      invariant n > 0 ==> i <= n - 1
      invariant PassesDone(input, steps, a[..], cmp, swp, i) == true
    {
      steps, cmp, swp := OuterPass(a, i, input, steps, cmp, swp);
      i := i + 1;
    }
  }

  /** The final `sorted` step for index 0 completes the trace. */
  lemma Finished(input: seq<int>, steps0: seq<Step>, a: seq<int>, cmp: nat, swp: nat, s: Step)
    requires PassesDone(input, steps0, a, cmp, swp, Rounds(|input|))
    requires s == Sorted([0], a, cmp, swp)
    ensures var steps := steps0 + [s];
      Replays(input, steps) && Shaped(steps, |input|)
      && steps != [] && steps[|steps| - 1].Sorted?
      && NonDecreasing(steps[|steps| - 1].snapshot)
      && multiset(steps[|steps| - 1].snapshot) == multiset(input)
      && steps[|steps| - 1].comparisons == |input| * (|input| - 1) / 2
      && steps[|steps| - 1].swaps == Inversions(input)
      && Compared(steps) == ExpectedCompared(|input|)
      && Marks(steps) == ExpectedMarks(|input|)
      && (MarksFinal(steps, steps[|steps| - 1].snapshot, |input|) || |input| == 0)
      && NeverTouched(steps)
  {
    var steps := steps0 + [s];
    assert steps[|steps| - 1] == s;
    LastMarkTrace(input, steps0, s, a, cmp, swp);
    assert Compared(steps0) == ExpectedCompared(|input|);
    assert Marks(steps) == ExpectedMarks(|input|);
    LastMarkOrder(steps0, s, a);
    LastMarkCounts(input, steps0, s, a, cmp, swp);
  }

  /** `generateSteps`: bubble-sorts a copy of `arr`, recording every comparison,
      swap and `sorted` milestone. */
  method GenerateSteps(arr: seq<int>) returns (steps: seq<Step>)
    ensures Replays(arr, steps) && Shaped(steps, |arr|)
    // it ends in a `sorted` step whose snapshot is the input sorted ...
    ensures steps != [] && steps[|steps| - 1].Sorted?
    ensures NonDecreasing(steps[|steps| - 1].snapshot)
    ensures multiset(steps[|steps| - 1].snapshot) == multiset(arr)
    // ... having compared n(n-1)/2 pairs and swapped each inversion once
    ensures steps[|steps| - 1].comparisons == |arr| * (|arr| - 1) / 2
    ensures steps[|steps| - 1].swaps == Inversions(arr)
    // the neighbours compared, pass by pass, and the positions marked `sorted`
    ensures Compared(steps) == ExpectedCompared(|arr|)
    ensures Marks(steps) == ExpectedMarks(|arr|)
    // the position a `sorted` step marks holds the maximum of everything to its left,
    // and from that step on the marked suffix keeps its final values ...
    ensures MarksFinal(steps, steps[|steps| - 1].snapshot, |arr|) || |arr| == 0
    // ... and is never compared or swapped again
    ensures NeverTouched(steps)
  {
    var a := new int[|arr|](k requires 0 <= k < |arr| => arr[k]);
    assert a[..] == arr;
    var cmp, swp;
    steps, cmp, swp := OuterLoop(a, arr);
    var s := Sorted([0], a[..], cmp, swp);
    Finished(arr, steps, a[..], cmp, swp, s);
    steps := steps + [s];
  }

  // ---------------------------------------------------------------------------
  // Playback
  // ---------------------------------------------------------------------------

  /** The generator's `sorted` marks name every index of a non-empty array exactly once
      and no other index. */
  lemma MarksCoverAll(n: nat)
    requires n > 0
    ensures forall k: nat :: multiset(ExpectedMarks(n))[k] == (if k < n then 1 else 0)
  {
    CountdownCounts(n, 0);
  }

  /** What the page displays: the bars, both counters and the three highlight lists. */
  datatype View = View(values: seq<int>, comparisons: nat, swaps: nat,
                       comparing: seq<nat>, swapping: seq<nat>, sorted: seq<nat>)

  /** One timer tick: show the step's snapshot and counters; a comparison sets the
      compared pair and clears the swapped one, a swap the reverse, and a `sorted` step
      appends its indices to `sorted` and clears both. */
  function Apply(v: View, s: Step): View {
    var w := v.(values := s.snapshot, comparisons := s.comparisons, swaps := s.swaps);
    match s
    case Compare(ix, _, _, _) => w.(comparing := ix, swapping := [])
    case Swap(ix, _, _, _) => w.(comparing := [], swapping := ix)
    case Sorted(ix, _, _, _) => w.(comparing := [], swapping := [], sorted := v.sorted + ix)
  }

  /** One tick shows the step's snapshot and counters and sets the highlights by the step's kind. */
  lemma ApplyShows(v: View, s: Step)
    ensures Apply(v, s).values == s.snapshot
    ensures Apply(v, s).comparisons == s.comparisons && Apply(v, s).swaps == s.swaps
    ensures Apply(v, s).sorted == v.sorted + Marks([s])
    ensures Apply(v, s).comparing == (if s.Compare? then s.indices else [])
    ensures Apply(v, s).swapping == (if s.Swap? then s.indices else [])
  {
  }

  /** The display after ticking through `steps` from a freshly generated array. */
  function Played(input: seq<int>, steps: seq<Step>): View {
    if steps == [] then View(input, 0, 0, [], [], [])
    else Apply(Played(input, steps[..|steps| - 1]), steps[|steps| - 1])
  }

  /** Ticking through a prefix of the trace shows the state the trace has reached,
      the pair named by the last step if it is a comparison or a swap, and, as `sorted`,
      every index the trace has marked so far, in order. */
  lemma {:induction false} PlayedShows(input: seq<int>, steps: seq<Step>)
    ensures var v := Played(input, steps);
      var st := After(input, steps);
      v.values == st.snapshot && v.comparisons == st.comparisons && v.swaps == st.swaps
      && v.sorted == Marks(steps)
      && v.comparing == (if steps != [] && steps[|steps| - 1].Compare? then steps[|steps| - 1].indices else [])
      && v.swapping == (if steps != [] && steps[|steps| - 1].Swap? then steps[|steps| - 1].indices else [])
  {
    if steps != [] {
      PlayedShows(input, steps[..|steps| - 1]);
    }
  }

  /** The trace of a freshly generated array, with what the controller relies on:
      nothing of it has been played yet, and it ends sorted with every index marked. */
  method Fresh(arr: seq<int>) returns (steps: seq<Step>)
    ensures Played(arr, steps[..0]) == View(arr, 0, 0, [], [], [])
    ensures Replays(arr, steps) && steps != [] && NonDecreasing(steps[|steps| - 1].snapshot)
    ensures Marks(steps) == ExpectedMarks(|arr|)
  {
    steps := GenerateSteps(arr);
    assert steps[..0] == [];
  }

  /** Playing one more step applies that step to the display. */
  lemma PlayedNext(input: seq<int>, steps: seq<Step>, c: nat)
    requires c < |steps|
    ensures Played(input, steps[..c + 1]) == Apply(Played(input, steps[..c]), steps[c])
  {
    assert steps[..c + 1][..c] == steps[..c];
  }

  /** The page's controller: the generated trace, how far it has been played, the speed
      slider, and in `shown` the six state variables the page renders (`array`,
      `comparisons`, `swaps`, `comparing`, `swapping`, `sorted`). */
  class Player {
    var shown: View
    var isPlaying: bool
    var currentStep: nat
    var speed: int
    var steps: seq<Step>
    /** The array the trace was generated from. */
    ghost var input: seq<int>

    /** The display is the result of playing the first `currentStep` steps of a trace
        generated from `input`; that trace ends sorted and marks every index. */
    ghost predicate Valid()
      reads this
    {
      currentStep <= |steps| && shown == Played(input, steps[..currentStep])
      && Replays(input, steps) && steps != [] && NonDecreasing(steps[|steps| - 1].snapshot)
      && Marks(steps) == ExpectedMarks(|input|)
      && Playback.MinSpeed <= speed <= Playback.MaxSpeed
    }

    /** Mounting the page: `generateArray` with the initial speed 100. */
    constructor (arr: seq<int>)
      ensures Valid() && input == arr && currentStep == 0 && !isPlaying && speed == 100
      ensures shown == View(arr, 0, 0, [], [], [])
    {
      var s := Fresh(arr);
      shown, isPlaying, currentStep, speed := View(arr, 0, 0, [], [], []), false, 0, 100;
      steps, input := s, arr;
    }

    /** `generateArray` on the freshly drawn array `next`: show it unsorted with the
        counters and highlights cleared, stop, and generate its trace; the speed is kept. */
    method Load(next: seq<int>)
      requires Playback.MinSpeed <= speed <= Playback.MaxSpeed
      modifies this
      ensures Valid() && input == next && currentStep == 0 && !isPlaying && speed == old(speed)
      ensures shown == View(next, 0, 0, [], [], [])
    {
      var s := Fresh(next);
      shown, currentStep, isPlaying := View(next, 0, 0, [], [], []), 0, false;
      steps, input := s, next;
    }

    /** One firing of the timer, which is armed only while playing and not finished:
        apply `steps[currentStep]` to the display and advance by one. */
    method Tick()
      requires Valid() && isPlaying && currentStep < |steps|
      modifies this
      ensures Valid() && currentStep == old(currentStep) + 1
      ensures shown == Apply(old(shown), steps[old(currentStep)])
      ensures steps == old(steps) && input == old(input)
      ensures isPlaying && speed == old(speed)
    {
      var k := currentStep;
      var v := Apply(shown, steps[k]);
      PlayedNext(input, steps, k);
      assert v == Played(input, steps[..k + 1]);
      shown, currentStep := v, k + 1;
    }

    /** The play/pause button: once the trace is finished it regenerates from `next`
        (which leaves playback stopped); otherwise it flips between playing and paused. */
    method TogglePlay(next: seq<int>)
      requires Valid()
      modifies this
      ensures Valid() && speed == old(speed)
      ensures old(currentStep) >= |old(steps)| ==>
        input == next && currentStep == 0 && !isPlaying && shown == View(next, 0, 0, [], [], [])
      ensures old(currentStep) < |old(steps)| ==>
        isPlaying == !old(isPlaying) && currentStep == old(currentStep)
        && steps == old(steps) && input == old(input) && shown == old(shown)
    {
      if currentStep >= |steps| {
        Load(next);
      } else {
        isPlaying := !isPlaying;
      }
    }

    /** The reset button: `generateArray` on `next`. */
    method Reset(next: seq<int>)
      requires Valid()
      modifies this
      ensures Valid() && input == next && currentStep == 0 && !isPlaying && speed == old(speed)
      ensures shown == View(next, 0, 0, [], [], [])
    {
      Load(next);
    }

    /** The speed slider, whose range is 1..1000. */
    method SetSpeed(v: int)
      requires Valid() && Playback.MinSpeed <= v <= Playback.MaxSpeed
      modifies this
      ensures Valid() && speed == v
      ensures shown == old(shown) && steps == old(steps) && input == old(input)
      ensures currentStep == old(currentStep) && isPlaying == old(isPlaying)
    {
      speed := v;
    }

    /** Once every step has been played the bars show the input sorted and every index
        has been marked `sorted` exactly once. */
    lemma PlayedOut()
      requires Valid() && currentStep == |steps| && |input| > 0
      ensures NonDecreasing(shown.values) && multiset(shown.values) == multiset(input)
      ensures forall k: nat :: multiset(shown.sorted)[k] == (if k < |input| then 1 else 0)
    {
      assert steps[..currentStep] == steps;
      PlayedShows(input, steps);
      ReplaysConserves(input, steps);
      MarksCoverAll(|input|);
    }
  }
}
