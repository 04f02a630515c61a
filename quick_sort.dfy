/** The quick sort page: its trace generator (Lomuto partition, last element as pivot)
    and its playback controller. */
module QuickSort {
  import opened SortSpec
  import Playback

  /** One recorded event; `snapshot` is the copy of the array taken after the event (the
      source field `array`), `comparisons` and `swaps` the running totals at that point,
      `pivot` the position of the pivot highlighted with it. */
  datatype Step =
    | Pivot(pivot: nat, snapshot: seq<int>, comparisons: nat, swaps: nat)
    | Compare(indices: seq<nat>, pivot: nat, snapshot: seq<int>, comparisons: nat, swaps: nat)
    | Swap(indices: seq<nat>, pivot: nat, snapshot: seq<int>, comparisons: nat, swaps: nat)
    | Sorted(indices: seq<nat>, snapshot: seq<int>, comparisons: nat, swaps: nat)
    | Complete(snapshot: seq<int>, comparisons: nat, swaps: nat)

  // ---------------------------------------------------------------------------
  // What a trace means
  // ---------------------------------------------------------------------------

  /** What the page shows after a prefix of the trace: the snapshot and both counters. */
  datatype State = State(snapshot: seq<int>, comparisons: nat, swaps: nat)

  function StateOf(s: Step): State {
    State(s.snapshot, s.comparisons, s.swaps)
  }

  /** The state left by `steps`, starting from the input with both counters at zero. */
  function After(input: seq<int>, steps: seq<Step>): State {
    if steps == [] then State(input, 0, 0) else StateOf(steps[|steps| - 1])
  }

  /** The effect of one step on the state before it:
      choosing a pivot, a `sorted` milestone and the final `complete` change nothing;
      a comparison of position j with the pivot position counts one comparison;
      a swap exchanges two positions i <= j and counts one swap. */
  predicate Follows(st: State, s: Step) {
    var a := st.snapshot;
    match s
    case Pivot(p, b, c, w) =>
      p < |a| && b == a && c == st.comparisons && w == st.swaps
    case Compare(ix, p, b, c, w) =>
      |ix| == 2 && ix[0] < ix[1] && ix[1] == p && p < |a| && b == a
      && c == st.comparisons + 1 && w == st.swaps
    case Swap(ix, p, b, c, w) =>
      |ix| == 2 && ix[0] <= ix[1] < |a| && p < |a|
      && b == SwapAt(a, ix[0], ix[1]) && c == st.comparisons && w == st.swaps + 1
    case Sorted(ix, b, c, w) =>
      |ix| == 1 && ix[0] < |a| && b == a && c == st.comparisons && w == st.swaps
    case Complete(b, c, w) =>
      b == a && c == st.comparisons && w == st.swaps
  }

  /** Every step is obtained from the state left by the steps before it. */
  predicate Replays(input: seq<int>, steps: seq<Step>) {
    steps == []
    || (Replays(input, steps[..|steps| - 1])
        && Follows(After(input, steps[..|steps| - 1]), steps[|steps| - 1]))
  }

  /** The position compared with the pivot by every `compare` step, in trace order. */
  function Compared(steps: seq<Step>): seq<nat> {
    if steps == [] then []
    else
      var s := steps[|steps| - 1];
      Compared(steps[..|steps| - 1]) + (if s.Compare? && |s.indices| > 0 then [s.indices[0]] else [])
  }

  /** The indices of every `sorted` step, in trace order. */
  function Marks(steps: seq<Step>): seq<nat> {
    if steps == [] then []
    else
      var s := steps[|steps| - 1];
      Marks(steps[..|steps| - 1]) + (if s.Sorted? then s.indices else [])
  }

  // ---------------------------------------------------------------------------
  // Lemmas about traces
  // ---------------------------------------------------------------------------

  /** Appending a step that follows from the current state keeps the trace replayable. */
  lemma Push(input: seq<int>, steps: seq<Step>, s: Step)
    requires Replays(input, steps) && Follows(After(input, steps), s)
    ensures Replays(input, steps + [s]) && After(input, steps + [s]) == StateOf(s)
    ensures Compared(steps + [s]) == Compared(steps) + (if s.Compare? && |s.indices| > 0 then [s.indices[0]] else [])
    ensures Marks(steps + [s]) == Marks(steps) + (if s.Sorted? then s.indices else [])
  {
    assert (steps + [s])[..|steps|] == steps;
  }

  /** The state left by a replayable trace holds a permutation of the input. */
  lemma {:induction false} ReplaysConserves(input: seq<int>, steps: seq<Step>)
    requires Replays(input, steps)
    ensures |After(input, steps).snapshot| == |input|
    ensures multiset(After(input, steps).snapshot) == multiset(input)
  {
    if steps != [] {
      ReplaysConserves(input, steps[..|steps| - 1]);
    }
  }

  lemma {:induction false} ReplaysPrefix(input: seq<int>, steps: seq<Step>, m: nat)
    requires Replays(input, steps) && m <= |steps|
    ensures Replays(input, steps[..m])
    ensures m > 0 ==> After(input, steps[..m]) == StateOf(steps[m - 1])
    decreases |steps|
  {
    if m < |steps| {
      var p := steps[..|steps| - 1];
      ReplaysPrefix(input, p, m);
      assert p[..m] == steps[..m];
    } else {
      assert steps[..m] == steps;
    }
  }

  /** Every snapshot of a replayable trace is a permutation of the input, so of its length. */
  lemma {:induction false} ReplaysPermutes(input: seq<int>, steps: seq<Step>)
    requires Replays(input, steps)
    ensures forall k :: 0 <= k < |steps| ==>
      |steps[k].snapshot| == |input| && multiset(steps[k].snapshot) == multiset(input)
  {
    if steps != [] {
      var m := |steps| - 1;
      var p := steps[..m];
      ReplaysPermutes(input, p);
      ReplaysConserves(input, steps);
      assert forall k :: 0 <= k < m ==> p[k] == steps[k];
    }
  }

  /** No step shows a counter above the final one, and the final comparison counter
      equals the number of `compare` steps. */
  lemma {:induction false} ReplaysCounters(input: seq<int>, steps: seq<Step>)
    requires Replays(input, steps)
    ensures forall k :: 0 <= k < |steps| ==>
      steps[k].comparisons <= After(input, steps).comparisons && steps[k].swaps <= After(input, steps).swaps
    ensures After(input, steps).comparisons == |Compared(steps)|
  {
    if steps != [] {
      var m := |steps| - 1;
      var p := steps[..m];
      ReplaysCounters(input, p);
      assert forall k :: 0 <= k < m ==> p[k] == steps[k];
      assert Follows(After(input, p), steps[m]);
    }
  }

  /** Both counters never decrease from one step to a later one. */
  lemma CountersMonotone(input: seq<int>, steps: seq<Step>, k: nat, l: nat)
    requires Replays(input, steps) && k <= l < |steps|
    ensures steps[k].comparisons <= steps[l].comparisons && steps[k].swaps <= steps[l].swaps
  {
    ReplaysPrefix(input, steps, l + 1);
    ReplaysCounters(input, steps[..l + 1]);
    assert steps[..l + 1][k] == steps[k];
  }

  // ---------------------------------------------------------------------------
  // partition(array, low, high)
  // ---------------------------------------------------------------------------

  /** The steps from position `from` on compare with, or swap beside, the pivot at
      `high`, and each such swap exchanges two distinct positions. */
  predicate AtPivot(steps: seq<Step>, from: nat, high: nat) {
    forall l :: from <= l < |steps| ==>
      (steps[l].Compare? || steps[l].Swap?) && steps[l].pivot == high
      && (steps[l].Swap? ==> |steps[l].indices| == 2 && steps[l].indices[0] < steps[l].indices[1])
  }

  /** The trace part of the partition loop's invariant at j: `steps` extends `steps0` by a
      `pivot` step and then only compares and swaps beside the pivot, replays to `a` and
      the counters, and has compared low..j-1 with the pivot. */
  predicate LoopTrace(input: seq<int>, steps0: seq<Step>, steps: seq<Step>, a: seq<int>,
                      cmp: nat, swp: nat, low: nat, high: nat, j: nat) {
    Replays(input, steps) && After(input, steps) == State(a, cmp, swp)
    && |steps0| < |steps| && steps[..|steps0|] == steps0
    && steps[|steps0|].Pivot? && steps[|steps0|].pivot == high
    && AtPivot(steps, |steps0| + 1, high)
    && Compared(steps) == Compared(steps0) + Range(low, j) && Marks(steps) == Marks(steps0)
  }

  /** The array part at (i, j): a[low..i] lie below the pivot a[high], a[i+1..j-1] do not,
      and only positions low..high-1 have moved. */
  predicate LoopArray(a: seq<int>, before: seq<int>, low: nat, high: nat, i: int, j: nat) {
    |a| == |before| && low <= j <= high < |a| && low - 1 <= i < j
    && a[high] == before[high]
    && (forall k :: low <= k <= i ==> a[k] < a[high])
    && (forall k :: i < k < j ==> a[high] <= a[k])
    && multiset(a) == multiset(before) && Unchanged(a, before, low, high)
  }

  /** Whether the loop body at j swaps: a[j] is below the pivot and i+1 differs from j. */
  predicate Moves(a: seq<int>, high: nat, i: int, j: nat)
    requires -1 <= i < j < high < |a|
  {
    a[j] < a[high] && i + 1 != j
  }

  /** The boundary i after the loop body at j. */
  function Lower(a: seq<int>, high: nat, i: int, j: nat): int
    requires -1 <= i < j < high < |a|
  {
    if a[j] < a[high] then i + 1 else i
  }

  /** The array after the loop body at j. */
  function Lomuto(a: seq<int>, high: nat, i: int, j: nat): seq<int>
    requires -1 <= i < j < high < |a|
  {
    if Moves(a, high, i, j) then SwapAt(a, i + 1, j) else a
  }

  /** The steps recorded by the loop body at j: a `compare` of j with the pivot, then
      a `swap` of i+1 and j when the body swaps. */
  function LomutoSteps(a: seq<int>, high: nat, i: int, j: nat, cmp: nat, swp: nat): seq<Step>
    requires -1 <= i < j < high < |a|
  {
    if Moves(a, high, i, j) then
      [Compare([j, high], high, a, cmp + 1, swp), Swap([i + 1, j], high, SwapAt(a, i + 1, j), cmp + 1, swp + 1)]
    else [Compare([j, high], high, a, cmp + 1, swp)]
  }

  lemma LoopStart(input: seq<int>, steps0: seq<Step>, a: seq<int>, cmp: nat, swp: nat, low: nat, high: nat)
    requires Replays(input, steps0) && After(input, steps0) == State(a, cmp, swp) && low < high < |a|
    ensures LoopTrace(input, steps0, steps0 + [Pivot(high, a, cmp, swp)], a, cmp, swp, low, high, low) == true
  {
    var s := Pivot(high, a, cmp, swp);
    Push(input, steps0, s);
    assert (steps0 + [s])[..|steps0|] == steps0;
    assert Compared(steps0) + Range(low, low) == Compared(steps0);
  }

  lemma LoopArrayStart(a: seq<int>, low: nat, high: nat)
    requires low < high < |a|
    ensures LoopArray(a, a, low, high, low - 1, low) == true
  {
  }

  /** Recording the comparison of position j with the pivot. */
  lemma TraceCompare(input: seq<int>, steps0: seq<Step>, steps: seq<Step>, a: seq<int>,
                     cmp: nat, swp: nat, low: nat, high: nat, j: nat)
    requires LoopTrace(input, steps0, steps, a, cmp, swp, low, high, j) == true && low <= j < high < |a|
    ensures LoopTrace(input, steps0, steps + [Compare([j, high], high, a, cmp + 1, swp)],
                      a, cmp + 1, swp, low, high, j + 1) == true
  {
    var s := Compare([j, high], high, a, cmp + 1, swp);
    Push(input, steps, s);
    assert (steps + [s])[..|steps0|] == steps0;
  }

  /** Recording the swap of positions x < y beside the pivot. */
  lemma TraceSwap(input: seq<int>, steps0: seq<Step>, steps: seq<Step>, a: seq<int>,
                  cmp: nat, swp: nat, low: nat, high: nat, j: nat, x: nat, y: nat)
    requires LoopTrace(input, steps0, steps, a, cmp, swp, low, high, j) == true && x < y < |a| && high < |a|
    ensures LoopTrace(input, steps0, steps + [Swap([x, y], high, SwapAt(a, x, y), cmp, swp + 1)],
                      SwapAt(a, x, y), cmp, swp + 1, low, high, j) == true
  {
    var s := Swap([x, y], high, SwapAt(a, x, y), cmp, swp + 1);
    Push(input, steps, s);
    assert (steps + [s])[..|steps0|] == steps0;
  }

  /** The trace part of the invariant survives the loop body at j. */
  lemma LomutoTrace(input: seq<int>, steps0: seq<Step>, steps: seq<Step>, a: seq<int>,
                    cmp: nat, swp: nat, low: nat, high: nat, i: int, j: nat)
    requires low <= j < high < |a| && -1 <= i < j
    requires LoopTrace(input, steps0, steps, a, cmp, swp, low, high, j) == true
    ensures LoopTrace(input, steps0, steps + LomutoSteps(a, high, i, j, cmp, swp), Lomuto(a, high, i, j),
                      cmp + 1, swp + (if Moves(a, high, i, j) then 1 else 0), low, high, j + 1) == true
  {
    if Moves(a, high, i, j) {
      LomutoTraceSwaps(input, steps0, steps, a, cmp, swp, low, high, i, j);
    } else {
      LomutoTraceKeeps(input, steps0, steps, a, cmp, swp, low, high, i, j);
    }
  }

  lemma LomutoTraceSwaps(input: seq<int>, steps0: seq<Step>, steps: seq<Step>, a: seq<int>,
                         cmp: nat, swp: nat, low: nat, high: nat, i: int, j: nat)
    requires low <= j < high < |a| && -1 <= i < j && Moves(a, high, i, j)
    requires LoopTrace(input, steps0, steps, a, cmp, swp, low, high, j) == true
    ensures LoopTrace(input, steps0, steps + LomutoSteps(a, high, i, j, cmp, swp), Lomuto(a, high, i, j),
                      cmp + 1, swp + (if Moves(a, high, i, j) then 1 else 0), low, high, j + 1) == true
  {
    TraceCompareSwap(input, steps0, steps, a, cmp, swp, low, high, j, i + 1);
  }

  lemma LomutoTraceKeeps(input: seq<int>, steps0: seq<Step>, steps: seq<Step>, a: seq<int>,
                         cmp: nat, swp: nat, low: nat, high: nat, i: int, j: nat)
    requires low <= j < high < |a| && -1 <= i < j && !Moves(a, high, i, j)
    requires LoopTrace(input, steps0, steps, a, cmp, swp, low, high, j) == true
    ensures LoopTrace(input, steps0, steps + LomutoSteps(a, high, i, j, cmp, swp), Lomuto(a, high, i, j),
                      cmp + 1, swp + (if Moves(a, high, i, j) then 1 else 0), low, high, j + 1) == true
  {
    TraceCompare(input, steps0, steps, a, cmp, swp, low, high, j);
  }

  /** Recording the comparison of position j with the pivot and then the swap of x < j. */
  lemma TraceCompareSwap(input: seq<int>, steps0: seq<Step>, steps: seq<Step>, a: seq<int>,
                         cmp: nat, swp: nat, low: nat, high: nat, j: nat, x: nat)
    requires low <= j < high < |a| && x < j
    requires LoopTrace(input, steps0, steps, a, cmp, swp, low, high, j) == true
    ensures LoopTrace(input, steps0, steps + [Compare([j, high], high, a, cmp + 1, swp),
                                              Swap([x, j], high, SwapAt(a, x, j), cmp + 1, swp + 1)],
                      SwapAt(a, x, j), cmp + 1, swp + 1, low, high, j + 1) == true
  {
    CompareThenSwap(input, steps0, steps, a, cmp, swp, low, high, j, x);
    AppendPair(steps, Compare([j, high], high, a, cmp + 1, swp), Swap([x, j], high, SwapAt(a, x, j), cmp + 1, swp + 1));
  }

  lemma CompareThenSwap(input: seq<int>, steps0: seq<Step>, steps: seq<Step>, a: seq<int>,
                        cmp: nat, swp: nat, low: nat, high: nat, j: nat, x: nat)
    requires low <= j < high < |a| && x < j
    requires LoopTrace(input, steps0, steps, a, cmp, swp, low, high, j) == true
    ensures LoopTrace(input, steps0, steps + [Compare([j, high], high, a, cmp + 1, swp)]
                                           + [Swap([x, j], high, SwapAt(a, x, j), cmp + 1, swp + 1)],
                      SwapAt(a, x, j), cmp + 1, swp + 1, low, high, j + 1) == true
  {
    TraceCompare(input, steps0, steps, a, cmp, swp, low, high, j);
    TraceSwap(input, steps0, steps + [Compare([j, high], high, a, cmp + 1, swp)], a, cmp + 1, swp, low, high, j + 1, x, j);
  }

  lemma AppendPair(steps: seq<Step>, c: Step, s: Step)
    ensures steps + [c] + [s] == steps + [c, s]
  {
  }

  /** The array part of the invariant survives the loop body at j. */
  lemma LomutoArray(a: seq<int>, before: seq<int>, low: nat, high: nat, i: int, j: nat)
    requires LoopArray(a, before, low, high, i, j) == true && j < high
    ensures LoopArray(Lomuto(a, high, i, j), before, low, high, Lower(a, high, i, j), j + 1) == true
  {
  }

  /** `[array[i], array[j]] = [array[j], array[i]]` */
  method Exchange(a: array<int>, x: nat, y: nat)
    requires x < a.Length && y < a.Length
    modifies a
    ensures a[..] == SwapAt(old(a[..]), x, y)
  {
    a[x], a[y] := a[y], a[x];
  }

  /** The body of the partition loop at j: count and record the comparison of a[j] with
      the pivot value; when a[j] is below it, advance i, and swap a[i] and a[j], counting
      and recording the swap, if they are different positions. */
  method ComparePivot(a: array<int>, high: nat, pivotValue: int, i: int, j: nat, cmp0: nat, swp0: nat)
    returns (added: seq<Step>, i': int, cmp: nat, swp: nat)
    requires -1 <= i < j < high < a.Length && pivotValue == a[high]
    modifies a
    ensures added == LomutoSteps(old(a[..]), high, i, j, cmp0, swp0)
    ensures a[..] == Lomuto(old(a[..]), high, i, j) && i' == Lower(old(a[..]), high, i, j)
    ensures cmp == cmp0 + 1 && swp == swp0 + (if Moves(old(a[..]), high, i, j) then 1 else 0)
  {
    cmp, swp, i' := cmp0 + 1, swp0, i;
    added := [Compare([j, high], high, a[..], cmp, swp)];
    if a[j] < pivotValue {
      i' := i' + 1;
      if i' != j {
        swp := swp + 1;
        Exchange(a, i', j);
        added := added + [Swap([i', j], high, a[..], cmp, swp)];
      }
    }
  }

  /** One iteration of the partition loop, stated by the two parts of the invariant. */
  method LomutoStep(a: array<int>, low: nat, high: nat, pivotValue: int, i: int, j: nat,
                    ghost input: seq<int>, ghost steps0: seq<Step>, ghost before: seq<int>,
                    steps: seq<Step>, cmp0: nat, swp0: nat)
    returns (steps': seq<Step>, cmp: nat, swp: nat, i': int)
    requires j < high
    requires LoopTrace(input, steps0, steps, a[..], cmp0, swp0, low, high, j) == true
    requires LoopArray(a[..], before, low, high, i, j) == true && pivotValue == before[high]
    modifies a
    ensures LoopTrace(input, steps0, steps', a[..], cmp, swp, low, high, j + 1) == true
    ensures LoopArray(a[..], before, low, high, i', j + 1) == true
  {
    LomutoTrace(input, steps0, steps, a[..], cmp0, swp0, low, high, i, j);
    LomutoArray(a[..], before, low, high, i, j);
    var added;
    added, i', cmp, swp := ComparePivot(a, high, pivotValue, i, j, cmp0, swp0);
    steps' := steps + added;
  }

  /** What `partition(array, low, high)` does to the array: it returns p in low..high
      holding the old a[high], with everything in low..p-1 strictly below it and everything
      in p+1..high at least it, having permuted low..high and nothing else. */
  predicate PartArray(before: seq<int>, after: seq<int>, low: nat, high: nat, p: nat) {
    |after| == |before| && low <= p <= high < |before|
    && after[p] == before[high]
    && (forall k :: low <= k < p ==> after[k] < after[p])
    && (forall k :: p < k <= high ==> after[p] <= after[k])
    && multiset(after) == multiset(before) && Unchanged(after, before, low, high + 1)
  }

  /** What `partition(array, low, high)` appends to the trace: one `pivot` step for `high`,
      comparisons and swaps beside that pivot comparing low..high-1 in turn, the swap of
      p with `high` (always counted, even when p == high), and the `sorted` mark of p. */
  predicate PartTrace(input: seq<int>, steps0: seq<Step>, steps: seq<Step>, after: seq<int>,
                      cmp: nat, swp: nat, low: nat, high: nat, p: nat) {
    Replays(input, steps) && After(input, steps) == State(after, cmp, swp)
    && |steps0| + 3 <= |steps| && steps[..|steps0|] == steps0
    && steps[|steps0|].Pivot? && steps[|steps0|].pivot == high
    && AtPivot(steps[..|steps| - 2], |steps0| + 1, high)
    && steps[|steps| - 2] == Swap([p, high], p, after, cmp, swp)
    && steps[|steps| - 1] == Sorted([p], after, cmp, swp)
    && Compared(steps) == Compared(steps0) + Range(low, high)
    && Marks(steps) == Marks(steps0) + [p]
  }

  /** Placing the pivot at i+1 once the loop has compared low..high-1. */
  lemma PlacedArray(a: seq<int>, before: seq<int>, low: nat, high: nat, p: nat)
    requires LoopArray(a, before, low, high, p - 1, high) == true
    ensures PartArray(before, SwapAt(a, p, high), low, high, p) == true
  {
  }

  lemma PlacedTrace(input: seq<int>, steps0: seq<Step>, steps: seq<Step>, a: seq<int>,
                    cmp: nat, swp: nat, low: nat, high: nat, p: nat)
    requires LoopTrace(input, steps0, steps, a, cmp, swp, low, high, high) == true && p <= high < |a|
    ensures var b := SwapAt(a, p, high);
      PartTrace(input, steps0, steps + [Swap([p, high], p, b, cmp, swp + 1), Sorted([p], b, cmp, swp + 1)],
                b, cmp, swp + 1, low, high, p) == true
  {
    var b := SwapAt(a, p, high);
    var s1, s2 := Swap([p, high], p, b, cmp, swp + 1), Sorted([p], b, cmp, swp + 1);
    Push(input, steps, s1);
    Push(input, steps + [s1], s2);
    var all := steps + [s1] + [s2];
    assert all == steps + [s1, s2];
    assert all[..|all| - 2] == steps;
    assert all[..|steps0|] == steps0;
  }

  /** Each partition counts exactly high-low comparisons. */
  lemma PartitionCompares(input: seq<int>, steps0: seq<Step>, steps: seq<Step>, after: seq<int>,
                          cmp: nat, swp: nat, low: nat, high: nat, p: nat)
    requires low < high && Replays(input, steps0)
    requires PartTrace(input, steps0, steps, after, cmp, swp, low, high, p) == true
    ensures cmp == After(input, steps0).comparisons + (high - low)
  {
    ReplaysCounters(input, steps0);
    ReplaysCounters(input, steps);
    RangeAt(low, high);
  }

  /** `partition(array, low, high)` with the last element as pivot. */
  method Partition(a: array<int>, low: nat, high: nat, ghost input: seq<int>, steps0: seq<Step>, cmp0: nat, swp0: nat)
    returns (p: nat, steps: seq<Step>, cmp: nat, swp: nat)
    requires low < high < a.Length
    requires Replays(input, steps0) && After(input, steps0) == State(a[..], cmp0, swp0)
    modifies a
    ensures PartArray(old(a[..]), a[..], low, high, p) == true
    ensures PartTrace(input, steps0, steps, a[..], cmp, swp, low, high, p) == true
  {
    ghost var before := a[..];
    var pivotValue := a[high];
    LoopStart(input, steps0, before, cmp0, swp0, low, high);
    LoopArrayStart(before, low, high);
    steps, cmp, swp := steps0 + [Pivot(high, a[..], cmp0, swp0)], cmp0, swp0;
    var i;
    steps, cmp, swp, i := Scan(a, low, high, pivotValue, input, steps0, before, steps, cmp, swp);
    p, steps, swp := PlacePivot(a, low, high, i, input, steps0, before, steps, cmp, swp);
  }

  /** The loop `for (let j = low; j < high; j++)` of `partition`, with i starting at low - 1. */
  method Scan(a: array<int>, low: nat, high: nat, pivotValue: int, ghost input: seq<int>,
              ghost steps0: seq<Step>, ghost before: seq<int>, steps1: seq<Step>, cmp1: nat, swp1: nat)
    returns (steps: seq<Step>, cmp: nat, swp: nat, i: int)
    requires LoopTrace(input, steps0, steps1, a[..], cmp1, swp1, low, high, low) == true
    requires LoopArray(a[..], before, low, high, low - 1, low) == true && pivotValue == before[high]
    modifies a
    ensures LoopTrace(input, steps0, steps, a[..], cmp, swp, low, high, high) == true
    ensures LoopArray(a[..], before, low, high, i, high) == true
  {
    steps, cmp, swp, i := steps1, cmp1, swp1, low - 1;
    var j := low;
    while j < high
      invariant LoopTrace(input, steps0, steps, a[..], cmp, swp, low, high, j) == true
      invariant LoopArray(a[..], before, low, high, i, j) == true
    {
      steps, cmp, swp, i := LomutoStep(a, low, high, pivotValue, i, j, input, steps0, before, steps, cmp, swp);
      j := j + 1;
    }
  }

  /** After the loop: `[array[i + 1], array[high]] = [array[high], array[i + 1]]`, counting
      and recording the swap and then recording the pivot's final position. */
  method PlacePivot(a: array<int>, low: nat, high: nat, i: int, ghost input: seq<int>,
                    ghost steps0: seq<Step>, ghost before: seq<int>, steps: seq<Step>, cmp: nat, swp0: nat)
    returns (p: nat, steps': seq<Step>, swp: nat)
    requires LoopTrace(input, steps0, steps, a[..], cmp, swp0, low, high, high) == true
    requires LoopArray(a[..], before, low, high, i, high) == true
    modifies a
    ensures PartArray(before, a[..], low, high, p) == true
    ensures PartTrace(input, steps0, steps', a[..], cmp, swp, low, high, p) == true
  {
    ghost var a0 := a[..];
    p := i + 1;
    swp := swp0 + 1;
    Exchange(a, p, high);
    steps' := steps + [Swap([p, high], p, a[..], cmp, swp), Sorted([p], a[..], cmp, swp)];
    Placed(input, steps0, steps, steps', a0, a[..], before, cmp, swp0, swp, low, high, p);
  }

  /** The pivot swap after the loop ends the partition. */
  lemma Placed(input: seq<int>, steps0: seq<Step>, steps: seq<Step>, steps': seq<Step>,
               a0: seq<int>, a1: seq<int>, before: seq<int>, cmp: nat, swp0: nat, swp: nat,
               low: nat, high: nat, p: nat)
    requires LoopTrace(input, steps0, steps, a0, cmp, swp0, low, high, high) == true
    requires LoopArray(a0, before, low, high, p - 1, high) == true
    requires a1 == SwapAt(a0, p, high) && swp == swp0 + 1
    requires steps' == steps + [Swap([p, high], p, a1, cmp, swp), Sorted([p], a1, cmp, swp)]
    ensures PartArray(before, a1, low, high, p) == true
    ensures PartTrace(input, steps0, steps', a1, cmp, swp, low, high, p) == true
  {
    PlacedArray(a0, before, low, high, p);
    PlacedTrace(input, steps0, steps, a0, cmp, swp0, low, high, p);
  }

  // ---------------------------------------------------------------------------
  // quickSort(array, low, high) and generateSteps
  // ---------------------------------------------------------------------------

  /** What `quickSort(array, low, high)` does: it sorts low..high, permuting that range
      and nothing else, and extends the trace; a range of at most one element records
      nothing and changes nothing, and a longer one opens with the `pivot` step of its
      partition, choosing `high`; the `sorted` marks it appends are `marks`, in MarkOrder. */
  predicate SortEffect(input: seq<int>, steps0: seq<Step>, before: seq<int>, steps: seq<Step>,
                       after: seq<int>, cmp: nat, swp: nat, low: nat, high: int, marks: seq<nat>) {
    Replays(input, steps) && After(input, steps) == State(after, cmp, swp)
    && |steps0| <= |steps| && steps[..|steps0|] == steps0
    && (high <= low ==> steps == steps0 && after == before)
    && (low < high ==> |steps0| < |steps| && steps[|steps0|].Pivot? && steps[|steps0|].pivot == high)
    && NonDecreasingBetween(after, low, high + 1)
    && multiset(after) == multiset(before) && Unchanged(after, before, low, high + 1)
    && Marks(steps) == Marks(steps0) + marks && MarkOrder(marks, low, high)
  }

  /** The marks of a range: each lies in low..high, and a range of two or more elements
      marks its pivot first, then the marks of the left part, all below it, then those of
      the right part, all above it. */
  predicate MarkOrder(marks: seq<nat>, low: nat, high: int) {
    Within(marks, low, high) && (low < high ==> |marks| > 0 && Parted(marks[1..], marks[0]))
  }

  /** Every element of `s` lies in lo..hi. */
  predicate Within(s: seq<nat>, lo: int, hi: int)
    decreases |s|
  {
    s == [] || (lo <= s[0] <= hi && Within(s[1..], lo, hi))
  }

  /** What Within means: every element lies in lo..hi. */
  lemma {:induction false} WithinMeans(s: seq<nat>, lo: int, hi: int)
    requires Within(s, lo, hi)
    ensures forall x :: 0 <= x < |s| ==> lo <= s[x] <= hi
    decreases |s|
  {
    if s != [] {
      WithinMeans(s[1..], lo, hi);
      assert forall x :: 0 < x < |s| ==> s[x] == s[1..][x - 1];
    }
  }

  /** Every element of `s` is above q. */
  predicate Above(s: seq<nat>, q: nat)
    decreases |s|
  {
    s == [] || (q < s[0] && Above(s[1..], q))
  }

  /** `s` is a run of elements below q followed by a run of elements above q. */
  predicate Parted(s: seq<nat>, q: nat)
    decreases |s|
  {
    s == [] || (s[0] < q && Parted(s[1..], q)) || Above(s, q)
  }

  lemma {:induction false} WithinAppend(s: seq<nat>, t: seq<nat>, lo: int, hi: int)
    requires Within(s, lo, hi) && Within(t, lo, hi)
    ensures Within(s + t, lo, hi)
    decreases |s|
  {
    if s == [] {
      assert s + t == t;
    } else {
      WithinAppend(s[1..], t, lo, hi);
      assert (s + t)[1..] == s[1..] + t;
    }
  }

  lemma {:induction false} WithinWiden(s: seq<nat>, lo: int, hi: int, lo2: int, hi2: int)
    requires Within(s, lo, hi) && lo2 <= lo && hi <= hi2
    ensures Within(s, lo2, hi2)
    decreases |s|
  {
    if s != [] {
      WithinWiden(s[1..], lo, hi, lo2, hi2);
    }
  }

  lemma {:induction false} WithinAbove(s: seq<nat>, lo: int, hi: int, q: nat)
    requires Within(s, lo, hi) && q < lo
    ensures Above(s, q)
    decreases |s|
  {
    if s != [] {
      WithinAbove(s[1..], lo, hi, q);
    }
  }

  /** Elements below q followed by elements above q are parted at q. */
  lemma {:induction false} PartedAppend(s: seq<nat>, t: seq<nat>, lo: int, q: nat)
    requires Within(s, lo, q as int - 1) && Above(t, q)
    ensures Parted(s + t, q)
    decreases |s|
  {
    if s == [] {
      assert s + t == t;
    } else {
      PartedAppend(s[1..], t, lo, q);
      assert (s + t)[1..] == s[1..] + t;
    }
  }

  /** What Parted means: none of the elements is q, and every element below q comes
      before every element above q. */
  lemma {:induction false} PartedMeans(s: seq<nat>, q: nat)
    requires Parted(s, q)
    ensures forall x :: 0 <= x < |s| ==> s[x] != q
    ensures forall x, y :: 0 <= x < y < |s| && s[y] < q ==> s[x] < q
    decreases |s|
  {
    if s != [] {
      if Above(s, q) {
        AboveMeans(s, q);
      } else {
        PartedMeans(s[1..], q);
        assert forall x :: 0 < x < |s| ==> s[x] == s[1..][x - 1];
      }
    }
  }

  /** What Above means: every element is above q. */
  lemma {:induction false} AboveMeans(s: seq<nat>, q: nat)
    requires Above(s, q)
    ensures forall x :: 0 <= x < |s| ==> q < s[x]
    decreases |s|
  {
    if s != [] {
      AboveMeans(s[1..], q);
      assert forall x :: 0 < x < |s| ==> s[x] == s[1..][x - 1];
    }
  }

  /** Nothing to do for a range of at most one element. */
  lemma SortNothing(input: seq<int>, steps: seq<Step>, a: seq<int>, cmp: nat, swp: nat, low: nat, high: int)
    requires Replays(input, steps) && After(input, steps) == State(a, cmp, swp) && high <= low
    ensures SortEffect(input, steps, a, steps, a, cmp, swp, low, high, []) == true
  {
    assert steps[..|steps|] == steps;
  }

  /** The pivot's mark, then the marks of the left part, then those of the right part,
      are in the order MarkOrder gives for the whole range. */
  lemma MarkOrderJoin(p: nat, left: seq<nat>, right: seq<nat>, low: nat, high: nat, m: seq<nat>)
    requires low <= p <= high && low < high && m == [p] + left + right
    requires MarkOrder(left, low, p as int - 1) == true
    requires MarkOrder(right, p + 1, high) == true
    ensures MarkOrder(m, low, high) == true
  {
    assert m[1..] == left + right;
    WithinAbove(right, p + 1, high, p);
    PartedAppend(left, right, low, p);
    WithinWiden(left, low, p as int - 1, low, high);
    WithinWiden(right, p + 1, high, low, high);
    WithinAppend(left, right, low, high);
  }

  /** The marks of the partition and of both recursive calls, in turn. */
  lemma MarksJoin(m0: seq<nat>, m1: seq<nat>, m2: seq<nat>, m: seq<nat>, p: nat, left: seq<nat>, right: seq<nat>,
                  marks: seq<nat>)
    requires m1 == m0 + [p] && m2 == m1 + left && m == m2 + right && marks == [p] + left + right
    ensures m == m0 + marks
  {
  }

  /** Sorting low..p-1 keeps every element there below the pivot. */
  lemma LeftStaysBelow(before: seq<int>, mid: seq<int>, mid2: seq<int>, low: nat, high: nat, p: nat)
    requires PartArray(before, mid, low, high, p) == true
    requires multiset(mid2) == multiset(mid) && Unchanged(mid2, mid, low, p)
    ensures forall k :: low <= k < p ==> mid2[k] < mid[p]
  {
    SegmentPermutes(mid2, mid, low, p);
    MultisetBelow(mid2, mid, low, p, mid[p]);
  }

  /** Sorting p+1..high keeps every element there at least the pivot value x. */
  lemma RightStaysAbove(mid2: seq<int>, after: seq<int>, high: nat, p: nat, x: int)
    requires p <= high < |mid2| && forall k :: p < k <= high ==> x <= mid2[k]
    requires multiset(after) == multiset(mid2) && Unchanged(after, mid2, p + 1, high + 1)
    ensures forall k :: p < k <= high ==> x <= after[k]
  {
    SegmentPermutes(after, mid2, p + 1, high + 1);
    MultisetAtLeast(after, mid2, p + 1, high + 1, x);
  }

  /** Partitioning low..high at p and sorting low..p-1 and then p+1..high sorts low..high:
      the left part stays below the pivot and the right part at least it. */
  lemma SortedAround(before: seq<int>, mid: seq<int>, mid2: seq<int>, after: seq<int>,
                     low: nat, high: nat, p: nat)
    requires PartArray(before, mid, low, high, p) == true
    requires |mid2| == |mid| && NonDecreasingBetween(mid2, low, p)
    requires multiset(mid2) == multiset(mid) && Unchanged(mid2, mid, low, p)
    requires |after| == |mid2| && NonDecreasingBetween(after, p + 1, high + 1)
    requires multiset(after) == multiset(mid2) && Unchanged(after, mid2, p + 1, high + 1)
    ensures NonDecreasingBetween(after, low, high + 1)
    ensures multiset(after) == multiset(before) && Unchanged(after, before, low, high + 1)
  {
    LeftStaysBelow(before, mid, mid2, low, high, p);
    RightStaysAbove(mid2, after, high, p, mid[p]);
  }

  /** Partitioning low..high at p and then sorting low..p-1 and p+1..high, each extending
      the trace in turn, sorts low..high and marks p, then the left part, then the right part. */
  lemma SortNode(input: seq<int>, steps0: seq<Step>, s1: seq<Step>, s2: seq<Step>, steps: seq<Step>,
                 before: seq<int>, mid: seq<int>, mid2: seq<int>, after: seq<int>,
                 c1: nat, w1: nat, c2: nat, w2: nat, cmp: nat, swp: nat,
                 low: nat, high: int, p: nat, left: seq<nat>, right: seq<nat>, marks: seq<nat>)
    requires low < high && marks == [p] + left + right
    requires PartArray(before, mid, low, high, p) == true
    requires PartTrace(input, steps0, s1, mid, c1, w1, low, high, p) == true
    requires SortEffect(input, s1, mid, s2, mid2, c2, w2, low, p as int - 1, left) == true
    requires SortEffect(input, s2, mid2, steps, after, cmp, swp, p + 1, high, right) == true
    ensures SortEffect(input, steps0, before, steps, after, cmp, swp, low, high, marks) == true
  {
    SortedAround(before, mid, mid2, after, low, high, p);
    SortTrace(input, steps0, s1, s2, steps);
    MarksJoin(Marks(steps0), Marks(s1), Marks(s2), Marks(steps), p, left, right, marks);
    MarkOrderJoin(p, left, right, low, high, marks);
  }

  /** The trace of the two recursive calls extends the partition's. */
  lemma SortTrace(input: seq<int>, steps0: seq<Step>, s1: seq<Step>, s2: seq<Step>, steps: seq<Step>)
    requires |steps0| <= |s1| <= |s2| <= |steps|
    requires s1[..|steps0|] == steps0 && s2[..|s1|] == s1 && steps[..|s2|] == s2
    ensures steps[..|steps0|] == steps0
    ensures |steps0| < |s1| ==> steps[|steps0|] == s1[|steps0|]
  {
    assert steps[..|s1|] == steps[..|s2|][..|s1|];
    assert steps[..|steps0|] == steps[..|s2|][..|s1|][..|steps0|];
  }

  /** `quickSort(array, low, high)`: partition, then sort the left part, then the right part. */
  method Sort(a: array<int>, low: nat, high: int, ghost input: seq<int>, steps0: seq<Step>, cmp0: nat, swp0: nat)
    returns (steps: seq<Step>, cmp: nat, swp: nat, ghost marks: seq<nat>)
    requires low <= high + 1 <= a.Length
    requires Replays(input, steps0) && After(input, steps0) == State(a[..], cmp0, swp0)
    modifies a
    ensures SortEffect(input, steps0, old(a[..]), steps, a[..], cmp, swp, low, high, marks) == true
    decreases high - low, 2
  {
    if low < high {
      ghost var before := a[..];
      var p, s1, c1, w1 := Partition(a, low, high, input, steps0, cmp0, swp0);
      steps, cmp, swp, marks := SortSides(a, low, high, p, input, steps0, before, s1, c1, w1);
    } else {
      SortNothing(input, steps0, a[..], cmp0, swp0, low, high);
      steps, cmp, swp, marks := steps0, cmp0, swp0, [];
    }
  }

  /** The two recursive calls of `quickSort(array, low, high)` once `partition` has placed the
      pivot at p: the left part first, then the right part. */
  method SortSides(a: array<int>, low: nat, high: nat, p: nat, ghost input: seq<int>, ghost steps0: seq<Step>,
                   ghost before: seq<int>, s1: seq<Step>, c1: nat, w1: nat)
    returns (steps: seq<Step>, cmp: nat, swp: nat, ghost marks: seq<nat>)
    requires low < high < a.Length
    requires PartArray(before, a[..], low, high, p) == true
    requires PartTrace(input, steps0, s1, a[..], c1, w1, low, high, p) == true
    modifies a
    ensures SortEffect(input, steps0, before, steps, a[..], cmp, swp, low, high, marks) == true
    decreases high - low, 1
  {
    ghost var mid := a[..];
    ghost var left: seq<nat>;
    var s2, c2, w2;
    s2, c2, w2, left := Sort(a, low, p as int - 1, input, s1, c1, w1);
    steps, cmp, swp, marks := SortRight(a, low, high, p, input, steps0, before, mid, s1, c1, w1, s2, c2, w2, left);
  }

  /** The second recursive call of `quickSort(array, low, high)`, once the left part
      low..p-1 is sorted: sorting p+1..high completes the range. */
  method SortRight(a: array<int>, low: nat, high: nat, p: nat, ghost input: seq<int>, ghost steps0: seq<Step>,
                   ghost before: seq<int>, ghost mid: seq<int>, ghost s1: seq<Step>, ghost c1: nat, ghost w1: nat,
                   s2: seq<Step>, c2: nat, w2: nat, ghost left: seq<nat>)
    returns (steps: seq<Step>, cmp: nat, swp: nat, ghost marks: seq<nat>)
    requires low < high < a.Length
    requires PartArray(before, mid, low, high, p) == true
    requires PartTrace(input, steps0, s1, mid, c1, w1, low, high, p) == true
    requires SortEffect(input, s1, mid, s2, a[..], c2, w2, low, p as int - 1, left) == true
    modifies a
    ensures SortEffect(input, steps0, before, steps, a[..], cmp, swp, low, high, marks) == true
    decreases high - low, 0
  {
    ghost var mid2 := a[..];
    ghost var right: seq<nat>;
    steps, cmp, swp, right := Sort(a, p + 1, high, input, s2, c2, w2);
    marks := [p] + left + right;
    SortNode(input, steps0, s1, s2, steps, before, mid, mid2, a[..], c1, w1, c2, w2, cmp, swp,
             low, high, p, left, right, marks);
  }

  /** `generateSteps`: quick-sorts a copy of `arr`, recording every pivot choice,
      comparison, swap and `sorted` mark, and ends with a `complete` step. */
  method GenerateSteps(arr: seq<int>) returns (steps: seq<Step>)
    ensures Replays(arr, steps)
    // every snapshot is a permutation of the input ...
    ensures forall k :: 0 <= k < |steps| ==>
      |steps[k].snapshot| == |arr| && multiset(steps[k].snapshot) == multiset(arr)
    // ... and the last one, shown by the `complete` step, is sorted
    ensures steps != [] && steps[|steps| - 1].Complete? && NonDecreasing(steps[|steps| - 1].snapshot)
  {
    var a := new int[|arr|](k requires 0 <= k < |arr| => arr[k]);
    assert a[..] == arr;
    var cmp, swp;
    ghost var marks;
    steps, cmp, swp, marks := Sort(a, 0, |arr| - 1, arr, [], 0, 0);
    var s := Complete(a[..], cmp, swp);
    Push(arr, steps, s);
    steps := steps + [s];
    ReplaysPermutes(arr, steps);
  }

  // ---------------------------------------------------------------------------
  // Playback
  // ---------------------------------------------------------------------------

  /** What the page displays: the bars, both counters, the pivot position (-1 for none)
      and the three highlight lists. */
  datatype View = View(values: seq<int>, comparisons: nat, swaps: nat, pivot: int,
                       comparing: seq<nat>, swapping: seq<nat>, sorted: seq<nat>)

  /** One timer tick: show the step's snapshot and counters; `pivot`, `compare` and
      `swap` steps set the pivot and replace the compared and swapped pairs; a `sorted`
      step appends its indices to `sorted`, and `complete` sets `sorted` to every index;
      both clear the pivot and the pairs. */
  function Apply(v: View, s: Step): View {
    var w := v.(values := s.snapshot, comparisons := s.comparisons, swaps := s.swaps);
    match s
    case Pivot(p, _, _, _) => w.(pivot := p, comparing := [], swapping := [])
    case Compare(ix, p, _, _, _) => w.(pivot := p, comparing := ix, swapping := [])
    case Swap(ix, p, _, _, _) => w.(pivot := p, comparing := [], swapping := ix)
    case Sorted(ix, _, _, _) => w.(pivot := -1, comparing := [], swapping := [], sorted := v.sorted + ix)
    case Complete(b, _, _) => w.(pivot := -1, comparing := [], swapping := [], sorted := Range(0, |b|))
  }

  /** One tick shows the step's snapshot and counters and sets the highlights by the step's kind. */
  lemma ApplyShows(v: View, s: Step)
    ensures Apply(v, s).values == s.snapshot
    ensures Apply(v, s).comparisons == s.comparisons && Apply(v, s).swaps == s.swaps
    ensures Apply(v, s).sorted == if s.Complete? then Range(0, |s.snapshot|) else v.sorted + Marks([s])
    ensures Apply(v, s).pivot == if s.Pivot? || s.Compare? || s.Swap? then s.pivot as int else -1
    ensures Apply(v, s).comparing == (if s.Compare? then s.indices else [])
    ensures Apply(v, s).swapping == (if s.Swap? then s.indices else [])
  {
  }

  /** The display after ticking through `steps` from a freshly generated array. */
  function Played(input: seq<int>, steps: seq<Step>): View {
    if steps == [] then View(input, 0, 0, -1, [], [], [])
    else Apply(Played(input, steps[..|steps| - 1]), steps[|steps| - 1])
  }

  /** Ticking through a prefix of the trace shows the state the trace has reached and,
      until a `complete` step, every index marked `sorted` so far, in order. */
  lemma {:induction false} PlayedShows(input: seq<int>, steps: seq<Step>)
    ensures Played(input, steps).values == After(input, steps).snapshot
    ensures Played(input, steps).comparisons == After(input, steps).comparisons
    ensures Played(input, steps).swaps == After(input, steps).swaps
    ensures (forall k :: 0 <= k < |steps| ==> !steps[k].Complete?) ==> Played(input, steps).sorted == Marks(steps)
  {
    if steps != [] {
      var p := steps[..|steps| - 1];
      PlayedShows(input, p);
      assert forall k :: 0 <= k < |p| ==> p[k] == steps[k];
    }
  }

  /** Playing one more step applies that step to the display. */
  lemma PlayedNext(input: seq<int>, steps: seq<Step>, c: nat)
    requires c < |steps|
    ensures Played(input, steps[..c + 1]) == Apply(Played(input, steps[..c]), steps[c])
  {
    assert steps[..c + 1][..c] == steps[..c];
  }

  /** The trace of a freshly generated array, with what the controller relies on:
      nothing of it has been played yet, and it ends with a sorted `complete` step. */
  method Fresh(arr: seq<int>) returns (steps: seq<Step>)
    ensures Played(arr, steps[..0]) == View(arr, 0, 0, -1, [], [], [])
    ensures Replays(arr, steps) && steps != [] && steps[|steps| - 1].Complete?
    ensures NonDecreasing(steps[|steps| - 1].snapshot)
  {
    steps := GenerateSteps(arr);
    assert steps[..0] == [];
  }

  /** The page's controller: the generated trace, how far it has been played, the speed
      slider, and in `shown` the seven state variables the page renders (`array`,
      `comparisons`, `swaps`, `pivot`, `comparing`, `swapping`, `sorted`). */
  class Player {
    var shown: View
    var isPlaying: bool
    var currentStep: nat
    var speed: int
    var steps: seq<Step>
    /** The array the trace was generated from. */
    ghost var input: seq<int>

    /** The display is the result of playing the first `currentStep` steps of a trace
        generated from `input`; that trace ends with a sorted `complete` step. */
    ghost predicate Valid()
      reads this
    {
      currentStep <= |steps| && shown == Played(input, steps[..currentStep])
      && Replays(input, steps) && steps != [] && steps[|steps| - 1].Complete?
      && NonDecreasing(steps[|steps| - 1].snapshot)
      && Playback.MinSpeed <= speed <= Playback.MaxSpeed
    }

    /** Mounting the page: `generateArray` with the initial speed 200. */
    constructor (arr: seq<int>)
      ensures Valid() && input == arr && currentStep == 0 && !isPlaying && speed == 200
      ensures shown == View(arr, 0, 0, -1, [], [], [])
    {
      var s := Fresh(arr);
      shown, isPlaying, currentStep, speed := View(arr, 0, 0, -1, [], [], []), false, 0, 200;
      steps, input := s, arr;
    }

    /** `generateArray` on the freshly drawn array `next`: show it unsorted with the
        counters, pivot and highlights cleared, stop, and generate its trace; the speed is kept. */
    method Load(next: seq<int>)
      requires Playback.MinSpeed <= speed <= Playback.MaxSpeed
      modifies this
      ensures Valid() && input == next && currentStep == 0 && !isPlaying && speed == old(speed)
      ensures shown == View(next, 0, 0, -1, [], [], [])
    {
      var s := Fresh(next);
      shown, currentStep, isPlaying := View(next, 0, 0, -1, [], [], []), 0, false;
      steps, input := s, next;
    }

    /** One firing of the timer, which is armed only while playing and not finished:
        apply `steps[currentStep]` to the display and advance by one. */
    method Tick()
      requires Valid() && isPlaying && currentStep < |steps|
      modifies this
      ensures Valid() && currentStep == old(currentStep) + 1
      ensures shown == Apply(old(shown), steps[old(currentStep)])
      ensures steps == old(steps) && input == old(input)
      ensures isPlaying && speed == old(speed)
    {
      var k := currentStep;
      var v := Apply(shown, steps[k]);
      PlayedNext(input, steps, k);
      assert v == Played(input, steps[..k + 1]);
      shown, currentStep := v, k + 1;
    }

    /** The play/pause button: once the trace is finished it regenerates from `next`
        (which leaves playback stopped); otherwise it flips between playing and paused. */
    method TogglePlay(next: seq<int>)
      requires Valid()
      modifies this
      ensures Valid() && speed == old(speed)
      ensures old(currentStep) >= |old(steps)| ==>
        input == next && currentStep == 0 && !isPlaying && shown == View(next, 0, 0, -1, [], [], [])
      ensures old(currentStep) < |old(steps)| ==>
        isPlaying == !old(isPlaying) && currentStep == old(currentStep)
        && steps == old(steps) && input == old(input) && shown == old(shown)
    {
      if currentStep >= |steps| {
        Load(next);
      } else {
        isPlaying := !isPlaying;
      }
    }

    /** The reset button: `generateArray` on `next`. */
    method Reset(next: seq<int>)
      requires Valid()
      modifies this
      ensures Valid() && input == next && currentStep == 0 && !isPlaying && speed == old(speed)
      ensures shown == View(next, 0, 0, -1, [], [], [])
    {
      Load(next);
    }

    /** The speed slider, whose range is 1..1000. */
    method SetSpeed(v: int)
      requires Valid() && Playback.MinSpeed <= v <= Playback.MaxSpeed
      modifies this
      ensures Valid() && speed == v
      ensures shown == old(shown) && steps == old(steps) && input == old(input)
      ensures currentStep == old(currentStep) && isPlaying == old(isPlaying)
    {
      speed := v;
    }

    /** Once every step has been played the bars show the input sorted, every index is
        marked `sorted`, and nothing else is highlighted. */
    lemma PlayedOut()
      requires Valid() && currentStep == |steps|
      ensures NonDecreasing(shown.values) && multiset(shown.values) == multiset(input)
      ensures shown.sorted == Range(0, |input|)
      ensures shown.pivot == -1 && shown.comparing == [] && shown.swapping == []
    {
      assert steps[..currentStep] == steps;
      ReplaysConserves(input, steps);
    }
  }
}
