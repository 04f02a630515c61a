/** The selection sort page: its trace generator (pass i scans i+1..n-1 for the leftmost
    minimum and swaps it to i) and its playback controller. */
module SelectionSort {
  import opened SortSpec
  import Playback

  /** One recorded event; `snapshot` is the copy of the array taken after the event (the
      source field `array`), `sorted` the prefix the step declares sorted, `comparisons`
      and `swaps` the running totals at that point. */
  datatype Step =
    | StartPass(currentMin: nat, snapshot: seq<int>, sorted: seq<nat>, comparisons: nat, swaps: nat)
    | Compare(comparing: seq<nat>, currentMin: nat, snapshot: seq<int>, sorted: seq<nat>,
              comparisons: nat, swaps: nat)
    | NewMin(currentMin: nat, snapshot: seq<int>, sorted: seq<nat>, comparisons: nat, swaps: nat)
    | Swap(swapping: seq<nat>, snapshot: seq<int>, sorted: seq<nat>, comparisons: nat, swaps: nat)
    | Sorted(snapshot: seq<int>, sorted: seq<nat>, comparisons: nat, swaps: nat)
    | Complete(snapshot: seq<int>, sorted: seq<nat>, comparisons: nat, swaps: nat)

  // ---------------------------------------------------------------------------
  // What a trace means
  // ---------------------------------------------------------------------------

  /** The generator's state after a prefix of the trace: the array and both counters, the
      pass `pass`, the position `min` of the smallest element seen in it (-1 between
      passes) and the last position `scan` compared with it. */
  datatype State = State(snapshot: seq<int>, comparisons: nat, swaps: nat, pass: nat, min: int, scan: int)

  /** Before the first step: the input, zero counters, pass 0 not begun. */
  function Initial(input: seq<int>): State {
    State(input, 0, 0, 0, -1, 0)
  }

  /** The state after step `s`: its snapshot and counters; `start_pass` begins the search
      at the pass index, `compare` moves the scan on, `new_min` moves the minimum to the
      scanned position, `swap` moves it to the pass index, `sorted` ends the pass. */
  function Next(st: State, s: Step): State {
    var t := st.(snapshot := s.snapshot, comparisons := s.comparisons, swaps := s.swaps);
    match s
    case StartPass(m, _, _, _, _) => t.(min := m, scan := m)
    case Compare(_, _, _, _, _, _) => t.(scan := st.scan + 1)
    case NewMin(m, _, _, _, _) => t.(min := m)
    case Swap(_, _, _, _, _) => t.(min := st.pass)
    case Sorted(_, _, _, _) => t.(pass := st.pass + 1, min := -1)
    case Complete(_, _, _, _) => t
  }

  /** The state left by `steps`. */
  function After(input: seq<int>, steps: seq<Step>): State {
    if steps == [] then Initial(input) else Next(After(input, steps[..|steps| - 1]), steps[|steps| - 1])
  }

  /** The effect of one step on the state before it. Pass i begins, between passes, at an i
      with a position after it. A comparison of the minimum so far with the next position
      counts one comparison; `new_min` follows it only when that position holds a strictly
      smaller element; once the scan reached the last position, `swap` exchanges i with
      the minimum if that is elsewhere, counting one swap, and `sorted` ends the pass.
      `complete` follows the last pass. Every step declares 0..i-1 sorted, except `sorted`
      (0..i) and `complete` (every index). */
  predicate Follows(st: State, s: Step) {
    var a := st.snapshot;
    var same := s.snapshot == a && s.comparisons == st.comparisons && s.swaps == st.swaps;
    match s
    case StartPass(m, _, srt, _, _) =>
      same && st.min == -1 && m == st.pass && m + 1 < |a| && srt == Range(0, m)
    case Compare(ix, m, b, srt, c, w) =>
      b == a && c == st.comparisons + 1 && w == st.swaps
      && 0 <= st.min == m && st.scan + 1 < |a| && ix == [m, st.scan + 1] && srt == Range(0, st.pass)
    case NewMin(m, _, srt, _, _) =>
      same && 0 <= st.min < m && m == st.scan < |a| && a[m] < a[st.min] && srt == Range(0, st.pass)
    case Swap(ix, b, srt, c, w) =>
      c == st.comparisons && w == st.swaps + 1
      && 0 <= st.pass < st.min < |a| && st.scan == |a| - 1 && ix == [st.pass, st.min]
      && b == SwapAt(a, st.pass, st.min) && srt == Range(0, st.pass)
    case Sorted(_, srt, _, _) =>
      same && 0 <= st.min == st.pass && st.scan == |a| - 1 && srt == Range(0, st.pass + 1)
    case Complete(_, srt, _, _) =>
      same && st.min == -1 && st.pass == (if |a| == 0 then 0 else |a| - 1) && srt == Range(0, |a|)
  }

  /** Every step is obtained from the state left by the steps before it. */
  predicate Replays(input: seq<int>, steps: seq<Step>) {
    steps == []
    || (Replays(input, steps[..|steps| - 1])
        && Follows(After(input, steps[..|steps| - 1]), steps[|steps| - 1]))
  }

  // ---------------------------------------------------------------------------
  // Lemmas about traces
  // ---------------------------------------------------------------------------

  /** Appending a step that follows from the current state keeps the trace replayable. */
  lemma Push(input: seq<int>, steps: seq<Step>, s: Step)
    requires Replays(input, steps) && Follows(After(input, steps), s)
    ensures Replays(input, steps + [s]) && After(input, steps + [s]) == Next(After(input, steps), s)
  {
    assert (steps + [s])[..|steps|] == steps;
  }

  /** Every state a replayable trace reaches holds a permutation of the input. */
  lemma {:induction false} ReplaysConserves(input: seq<int>, steps: seq<Step>)
    requires Replays(input, steps)
    ensures |After(input, steps).snapshot| == |input|
    ensures multiset(After(input, steps).snapshot) == multiset(input)
  {
    if steps != [] {
      ReplaysConserves(input, steps[..|steps| - 1]);
    }
  }

  lemma {:induction false} ReplaysPrefix(input: seq<int>, steps: seq<Step>, m: nat)
    requires Replays(input, steps) && m <= |steps|
    ensures Replays(input, steps[..m])
    decreases |steps|
  {
    if m < |steps| {
      var p := steps[..|steps| - 1];
      ReplaysPrefix(input, p, m);
      assert p[..m] == steps[..m];
    } else {
      assert steps[..m] == steps;
    }
  }

  /** Every snapshot of a replayable trace is a permutation of the input. */
  lemma PermutesAt(input: seq<int>, steps: seq<Step>, k: nat)
    requires Replays(input, steps) && k < |steps|
    ensures multiset(steps[k].snapshot) == multiset(input)
  {
    ReplaysPrefix(input, steps, k + 1);
    var q := steps[..k + 1];
    ReplaysConserves(input, q);
    AfterShows(input, q);
    assert q[k] == steps[k];
  }

  /** The array of the state a non-empty trace leaves is the snapshot of its last step. */
  lemma AfterShows(input: seq<int>, steps: seq<Step>)
    requires steps != []
    ensures After(input, steps).snapshot == steps[|steps| - 1].snapshot
  {
  }

  /** No step shows a counter above the final one. */
  lemma {:induction false} ReplaysCounters(input: seq<int>, steps: seq<Step>)
    requires Replays(input, steps)
    ensures forall k :: 0 <= k < |steps| ==>
      steps[k].comparisons <= After(input, steps).comparisons && steps[k].swaps <= After(input, steps).swaps
  {
    if steps != [] {
      var m := |steps| - 1;
      var p := steps[..m];
      ReplaysCounters(input, p);
      assert forall k :: 0 <= k < m ==> p[k] == steps[k];
      assert Follows(After(input, p), steps[m]);
    }
  }

  /** The counters never decrease along a replayable trace. */
  lemma CountersMonotone(input: seq<int>, steps: seq<Step>, k: nat, l: nat)
    requires Replays(input, steps) && k <= l < |steps|
    ensures steps[k].comparisons <= steps[l].comparisons && steps[k].swaps <= steps[l].swaps
  {
    ReplaysPrefix(input, steps, l + 1);
    var p := steps[..l + 1];
    ReplaysCounters(input, p);
    assert p[k] == steps[k] && p[l] == steps[l];
  }

  // ---------------------------------------------------------------------------
  // The generator
  // ---------------------------------------------------------------------------

  /** What a `sorted` step shows: the declared prefix is sorted and no element of it
      exceeds any element after it. */
  predicate SortedOk(s: Step)
    requires s.Sorted?
  {
    var b, n := s.snapshot, |s.sorted|;
    n <= |b| && NonDecreasingBetween(b, 0, n) && Split(b, 0, n, |b|)
  }

  /** Every `sorted` step of `steps` shows what `SortedOk` says. */
  predicate SortedsOk(steps: seq<Step>) {
    forall k :: 0 <= k < |steps| && steps[k].Sorted? ==> SortedOk(steps[k])
  }

  /** `steps` starts with `steps0`. */
  predicate Extends(steps0: seq<Step>, steps: seq<Step>) {
    |steps0| <= |steps| && steps[..|steps0|] == steps0
  }

  /** The trace so far extends `steps0`, has only good `sorted` steps, and replays to this
      array, these counters, this pass and this minimum. */
  predicate Tracing(input: seq<int>, steps0: seq<Step>, steps: seq<Step>, a: seq<int>,
                    cmp: nat, swp: nat, pass: nat, min: int) {
    Replays(input, steps) && SortedsOk(steps) && Extends(steps0, steps)
    && var st := After(input, steps);
    st.snapshot == a && st.comparisons == cmp && st.swaps == swp && st.pass == pass && st.min == min
  }

  /** Appending a step that follows from the current state. */
  lemma Record(input: seq<int>, steps0: seq<Step>, steps: seq<Step>, s: Step)
    requires Replays(input, steps) && SortedsOk(steps) && Extends(steps0, steps)
    requires Follows(After(input, steps), s) && (s.Sorted? ==> SortedOk(s))
    ensures Replays(input, steps + [s]) && After(input, steps + [s]) == Next(After(input, steps), s)
    ensures SortedsOk(steps + [s]) && Extends(steps0, steps + [s])
  {
    Push(input, steps, s);
    ExtendsAppend(steps0, steps, s);
    SortedsOkAppend(steps, s);
  }

  lemma ExtendsAppend(steps0: seq<Step>, steps: seq<Step>, s: Step)
    requires Extends(steps0, steps)
    ensures Extends(steps0, steps + [s])
  {
    assert (steps + [s])[..|steps0|] == steps[..|steps0|];
  }

  lemma SortedsOkAppend(steps: seq<Step>, s: Step)
    requires SortedsOk(steps) && (s.Sorted? ==> SortedOk(s))
    ensures SortedsOk(steps + [s])
  {
    var t := steps + [s];
    forall k | 0 <= k < |t| && t[k].Sorted? ensures SortedOk(t[k]) {
      if k < |steps| {
        assert t[k] == steps[k];
      }
    }
  }

  /** Recording `start_pass` for pass i begins the search at i. */
  lemma RecordStart(input: seq<int>, steps0: seq<Step>, steps: seq<Step>, a: seq<int>, i: nat, cmp: nat, swp: nat)
    requires Tracing(input, steps0, steps, a, cmp, swp, i, -1) == true && i + 1 < |a|
    ensures Tracing(input, steps0, steps + [StartPass(i, a, Range(0, i), cmp, swp)], a, cmp, swp, i, i) == true
    ensures After(input, steps + [StartPass(i, a, Range(0, i), cmp, swp)]).scan == i
  {
    Record(input, steps0, steps, StartPass(i, a, Range(0, i), cmp, swp));
  }

  /** Recording the comparison of the minimum m with j counts one comparison. */
  lemma RecordCompare(input: seq<int>, steps0: seq<Step>, steps: seq<Step>, a: seq<int>,
                      i: nat, m: nat, j: nat, cmp: nat, swp: nat)
    requires Tracing(input, steps0, steps, a, cmp, swp, i, m) == true && After(input, steps).scan + 1 == j < |a|
    ensures Tracing(input, steps0, steps + [Compare([m, j], m, a, Range(0, i), cmp + 1, swp)], a, cmp + 1, swp, i, m) == true
    ensures After(input, steps + [Compare([m, j], m, a, Range(0, i), cmp + 1, swp)]).scan == j
  {
    Record(input, steps0, steps, Compare([m, j], m, a, Range(0, i), cmp + 1, swp));
  }

  /** Recording `new_min` at the just compared j, strictly below the minimum m. */
  lemma RecordNewMin(input: seq<int>, steps0: seq<Step>, steps: seq<Step>, a: seq<int>,
                     i: nat, m: nat, j: nat, cmp: nat, swp: nat)
    requires Tracing(input, steps0, steps, a, cmp, swp, i, m) == true && After(input, steps).scan == j
    requires m < j < |a| && a[j] < a[m]
    ensures Tracing(input, steps0, steps + [NewMin(j, a, Range(0, i), cmp, swp)], a, cmp, swp, i, j) == true
    ensures After(input, steps + [NewMin(j, a, Range(0, i), cmp, swp)]).scan == j
  {
    Record(input, steps0, steps, NewMin(j, a, Range(0, i), cmp, swp));
  }

  /** Recording the swap of i with the minimum m, after the scan, counts one swap. */
  lemma RecordSwap(input: seq<int>, steps0: seq<Step>, steps: seq<Step>, a: seq<int>,
                   i: nat, m: nat, cmp: nat, swp: nat)
    requires Tracing(input, steps0, steps, a, cmp, swp, i, m) == true && After(input, steps).scan == |a| - 1
    requires i < m < |a|
    ensures Tracing(input, steps0, steps + [Swap([i, m], SwapAt(a, i, m), Range(0, i), cmp, swp + 1)],
                    SwapAt(a, i, m), cmp, swp + 1, i, i) == true
    ensures After(input, steps + [Swap([i, m], SwapAt(a, i, m), Range(0, i), cmp, swp + 1)]).scan == |a| - 1
  {
    Record(input, steps0, steps, Swap([i, m], SwapAt(a, i, m), Range(0, i), cmp, swp + 1));
  }

  /** Recording `sorted` for pass i, with 0..i in place, ends the pass. */
  lemma RecordSorted(input: seq<int>, steps0: seq<Step>, steps: seq<Step>, a: seq<int>,
                     i: nat, cmp: nat, swp: nat)
    requires Tracing(input, steps0, steps, a, cmp, swp, i, i) == true && After(input, steps).scan == |a| - 1
    requires i < |a| && NonDecreasingBetween(a, 0, i + 1) && Split(a, 0, i + 1, |a|)
    ensures Tracing(input, steps0, steps + [Sorted(a, Range(0, i + 1), cmp, swp)], a, cmp, swp, i + 1, -1) == true
  {
    RangeAt(0, i + 1);
    Record(input, steps0, steps, Sorted(a, Range(0, i + 1), cmp, swp));
  }

  /** m is the leftmost position of the minimum of a[i..j-1]. */
  predicate LeftmostMin(a: seq<int>, i: nat, j: nat, m: nat) {
    i <= m < j <= |a|
    && (forall k :: i <= k < j ==> a[m] <= a[k])
    && (forall k :: i <= k < m ==> a[m] < a[k])
  }

  /** Scanning j keeps the leftmost minimum: it moves to j only if a[j] is strictly smaller. */
  lemma MinStep(a: seq<int>, i: nat, j: nat, m: nat)
    requires LeftmostMin(a, i, j, m) == true && j < |a|
    ensures LeftmostMin(a, i, j + 1, if a[j] < a[m] then j else m) == true
  {
  }

  /** The inner loop `for (let j = i + 1; j < n; j++)`: compare each j with the minimum so
      far and move the minimum to j only when a[j] is strictly smaller, so that ties keep
      the earlier position. One comparison per j. */
  method FindMin(a: array<int>, i: nat, ghost input: seq<int>, ghost steps0: seq<Step>,
                 steps1: seq<Step>, cmp0: nat, swp: nat)
    returns (m: nat, steps: seq<Step>, cmp: nat)
    requires i + 1 < a.Length
    requires Tracing(input, steps0, steps1, a[..], cmp0, swp, i, i) == true && After(input, steps1).scan == i
    ensures LeftmostMin(a[..], i, a.Length, m)
    ensures Tracing(input, steps0, steps, a[..], cmp, swp, i, m) == true && After(input, steps).scan == a.Length - 1
    ensures cmp == cmp0 + (a.Length - 1 - i)
  {
    m, steps, cmp := i, steps1, cmp0;
    var j := i + 1;
    while j < a.Length
      invariant i + 1 <= j <= a.Length
      invariant LeftmostMin(a[..], i, j, m) == true
      invariant Tracing(input, steps0, steps, a[..], cmp, swp, i, m) == true && After(input, steps).scan == j - 1
      invariant cmp == cmp0 + (j - 1 - i)
    {
      m, steps, cmp := ScanStep(a, i, j, m, input, steps0, steps, cmp, swp);
      j := j + 1;
    }
  }

  /** The inner loop's body at j: count and record the comparison of the minimum m with j,
      and when a[j] is strictly smaller make j the minimum and record `new_min`. */
  method ScanStep(a: array<int>, i: nat, j: nat, m0: nat, ghost input: seq<int>, ghost steps0: seq<Step>,
                  steps1: seq<Step>, cmp0: nat, swp: nat)
    returns (m: nat, steps: seq<Step>, cmp: nat)
    requires i < j < a.Length && LeftmostMin(a[..], i, j, m0) == true
    requires Tracing(input, steps0, steps1, a[..], cmp0, swp, i, m0) == true && After(input, steps1).scan == j - 1
    ensures m == (if a[j] < a[m0] then j else m0) && LeftmostMin(a[..], i, j + 1, m) == true
    ensures Tracing(input, steps0, steps, a[..], cmp, swp, i, m) == true && After(input, steps).scan == j
    ensures cmp == cmp0 + 1
  {
    RecordCompare(input, steps0, steps1, a[..], i, m0, j, cmp0, swp);
    cmp := cmp0 + 1;
    steps := steps1 + [Compare([m0, j], m0, a[..], Range(0, i), cmp, swp)];
    MinStep(a[..], i, j, m0);
    m := m0;
    if a[j] < a[m] {
      RecordNewMin(input, steps0, steps, a[..], i, m, j, cmp, swp);
      m := j;
      steps := steps + [NewMin(m, a[..], Range(0, i), cmp, swp)];
    }
  }

  /** `[array[i], array[j]] = [array[j], array[i]]` */
  method Exchange(a: array<int>, x: nat, y: nat)
    requires x < a.Length && y < a.Length
    modifies a
    ensures a[..] == SwapAt(old(a[..]), x, y)
  {
    a[x], a[y] := a[y], a[x];
  }

  /** Moving the leftmost minimum of i..n-1 to i extends the sorted, bounded prefix by i. */
  lemma Placed(a: seq<int>, i: nat, m: nat)
    requires NonDecreasingBetween(a, 0, i) && Split(a, 0, i, |a|) && LeftmostMin(a, i, |a|, m)
    ensures NonDecreasingBetween(SwapAt(a, i, m), 0, i + 1) && Split(SwapAt(a, i, m), 0, i + 1, |a|)
  {
    var b := SwapAt(a, i, m);
    forall x, y | 0 <= x <= i < y < |a| ensures b[x] <= b[y] {
      if y == m {
        assert b[y] == a[i];
      }
    }
  }

  /** The pass `for (let i = ...)` body: record its start, find the leftmost minimum of
      i..n-1, swap it to i (counting the swap) only if it is elsewhere, and record that 0..i
      is sorted. The pass compares n-1-i times. */
  method Pass(a: array<int>, i: nat, ghost input: seq<int>, ghost steps0: seq<Step>,
              steps1: seq<Step>, cmp0: nat, swp0: nat)
    returns (m: nat, steps: seq<Step>, cmp: nat, swp: nat)
    requires i + 1 < a.Length && NonDecreasingBetween(a[..], 0, i) && Split(a[..], 0, i, a.Length)
    requires Tracing(input, steps0, steps1, a[..], cmp0, swp0, i, -1) == true
    modifies a
    ensures LeftmostMin(old(a[..]), i, a.Length, m)
    ensures m == i ==> a[..] == old(a[..]) && swp == swp0
    ensures m != i ==> a[..] == SwapAt(old(a[..]), i, m) && swp == swp0 + 1
    ensures NonDecreasingBetween(a[..], 0, i + 1) && Split(a[..], 0, i + 1, a.Length)
    ensures Tracing(input, steps0, steps, a[..], cmp, swp, i + 1, -1) == true
    ensures cmp == cmp0 + (a.Length - 1 - i)
  {
    RecordStart(input, steps0, steps1, a[..], i, cmp0, swp0);
    steps := steps1 + [StartPass(i, a[..], Range(0, i), cmp0, swp0)];
    m, steps, cmp := FindMin(a, i, input, steps0, steps, cmp0, swp0);
    Placed(a[..], i, m);
    swp := swp0;
    if m != i {
      RecordSwap(input, steps0, steps, a[..], i, m, cmp, swp);
      swp := swp + 1;
      Exchange(a, i, m);
      steps := steps + [Swap([i, m], a[..], Range(0, i), cmp, swp)];
    } else {
      assert SwapAt(a[..], i, m) == a[..];
    }
    RecordSorted(input, steps0, steps, a[..], i, cmp, swp);
    steps := steps + [Sorted(a[..], Range(0, i + 1), cmp, swp)];
  }

  /** The comparisons of passes 0..i-1 over n elements: pass p compares n-1-p times. */
  function Pairs(n: nat, i: nat): nat
    requires i <= n
  {
    if i == 0 then 0 else Pairs(n, i - 1) + (n - i)
  }

  /** Closed form of `Pairs`: 2·Pairs(n, i) = i·(2n - i - 1). */
  lemma {:induction false} PairsSum(n: nat, i: nat)
    requires i <= n
    ensures 2 * Pairs(n, i) == i * (2 * n - i - 1)
  {
    if i > 0 {
      PairsSum(n, i - 1);
      var x := 2 * n - i;
      assert i * (x - 1) == i * x - i;
      assert (i - 1) * x == i * x - x;
    }
  }

  /** The n-1 passes compare every pair of positions once: n(n-1)/2 comparisons. */
  lemma AllPairs(n: nat)
    ensures 2 * Pairs(n, Rounds(n)) == n * (n - 1)
  {
    if n > 0 {
      PairsSum(n, n - 1);
      assert 2 * n - (n - 1) - 1 == n;
    }
  }

  /** A sorted prefix 0..n-2 that no element of exceeds the last one: all sorted. */
  lemma SortedWhole(a: seq<int>, n: nat)
    requires |a| == n && 0 < n && NonDecreasingBetween(a, 0, n - 1) && Split(a, 0, n - 1, n)
    ensures NonDecreasing(a)
  {
  }

  /** The number of passes, `for (let i = 0; i < n - 1; i++)`: none for an empty array. */
  function Rounds(n: nat): nat {
    if n == 0 then 0 else n - 1
  }

  /** Passes i = 0..n-2 over the array, each with a `sorted` step, from an empty trace. */
  method Passes(a: array<int>, ghost input: seq<int>) returns (steps: seq<Step>, cmp: nat, swp: nat)
    requires a[..] == input
    modifies a
    ensures NonDecreasing(a[..])
    ensures Tracing(input, [], steps, a[..], cmp, swp, Rounds(a.Length), -1) == true
    ensures cmp == Pairs(a.Length, Rounds(a.Length)) && swp <= Rounds(a.Length)
  {
    var n := a.Length;
    cmp, swp := 0, 0;
    steps := [];
    var i := 0;
    while i + 1 < n
      invariant i <= Rounds(n)
      invariant NonDecreasingBetween(a[..], 0, i) && Split(a[..], 0, i, n)
      invariant Tracing(input, [], steps, a[..], cmp, swp, i, -1) == true
      invariant cmp == Pairs(n, i) && swp <= i
    {
      var m;
      m, steps, cmp, swp := Pass(a, i, input, [], steps, cmp, swp);
      i := i + 1;
    }
    if n > 0 {
      SortedWhole(a[..], n);
    }
  }

  /** `generateSteps`: passes i = 0..n-2, then a `complete` step. */
  method GenerateSteps(arr: seq<int>) returns (steps: seq<Step>)
    ensures Replays(arr, steps) && steps != [] && steps[|steps| - 1].Complete?
    ensures NonDecreasing(steps[|steps| - 1].snapshot)
    ensures SortedsOk(steps)
    // one comparison per pair of positions, at most one swap per pass
    ensures 2 * steps[|steps| - 1].comparisons == |arr| * (|arr| - 1)
    ensures steps[|steps| - 1].swaps <= Rounds(|arr|)
  {
    var a := new int[|arr|](k requires 0 <= k < |arr| => arr[k]);
    assert a[..] == arr;
    var cmp, swp;
    steps, cmp, swp := Passes(a, arr);
    AllPairs(a.Length);
    var done := Complete(a[..], Range(0, a.Length), cmp, swp);
    Record(arr, [], steps, done);
    steps := steps + [done];
  }

  // ---------------------------------------------------------------------------
  // Playback
  // ---------------------------------------------------------------------------

  /** What the page displays: the bars, both counters, the position `currentMin` of the
      minimum so far (-1 for none) and the compared, swapped and sorted lists. */
  datatype View = View(values: seq<int>, comparisons: nat, swaps: nat, currentMin: int,
                       comparing: seq<nat>, swapping: seq<nat>, sorted: seq<nat>)

  /** The display before any step: the input, zero counters, nothing highlighted. */
  function Shown(input: seq<int>): View {
    View(input, 0, 0, -1, [], [], [])
  }

  /** One timer tick: show the step's snapshot and counters and replace `sorted` by the
      step's list; `start_pass`, `compare` and `new_min` show the minimum so far (and the
      compared pair), `swap` shows the swapped pair and clears the minimum, and `sorted`
      and `complete` clear all three highlights. */
  function Apply(v: View, s: Step): View {
    var w := v.(values := s.snapshot, comparisons := s.comparisons, swaps := s.swaps, sorted := s.sorted);
    match s
    case StartPass(m, _, _, _, _) => w.(currentMin := m, comparing := [], swapping := [])
    case Compare(ix, m, _, _, _, _) => w.(currentMin := m, comparing := ix, swapping := [])
    case NewMin(m, _, _, _, _) => w.(currentMin := m, comparing := [], swapping := [])
    case Swap(ix, _, _, _, _) => w.(currentMin := -1, comparing := [], swapping := ix)
    case Sorted(_, _, _, _) => w.(currentMin := -1, comparing := [], swapping := [])
    case Complete(_, _, _, _) => w.(currentMin := -1, comparing := [], swapping := [])
  }

  /** One tick shows the step's snapshot and counters and sets the highlights by the step's kind. */
  lemma ApplyShows(v: View, s: Step)
    ensures Apply(v, s).values == s.snapshot
    ensures Apply(v, s).comparisons == s.comparisons && Apply(v, s).swaps == s.swaps
    ensures Apply(v, s).sorted == s.sorted
    ensures Apply(v, s).currentMin == if s.StartPass? || s.Compare? || s.NewMin? then s.currentMin as int else -1
    ensures Apply(v, s).comparing == (if s.Compare? then s.comparing else [])
    ensures Apply(v, s).swapping == (if s.Swap? then s.swapping else [])
  {
  }

  /** The display after ticking through `steps` from a freshly generated array. */
  function Played(input: seq<int>, steps: seq<Step>): View {
    if steps == [] then Shown(input)
    else Apply(Played(input, steps[..|steps| - 1]), steps[|steps| - 1])
  }

  /** Ticking through a prefix of the trace shows the state the trace has reached, and the
      `sorted` list of the last step played: it is replaced, not accumulated. */
  lemma {:induction false} PlayedShows(input: seq<int>, steps: seq<Step>)
    ensures Played(input, steps).values == After(input, steps).snapshot
    ensures Played(input, steps).comparisons == After(input, steps).comparisons
    ensures Played(input, steps).swaps == After(input, steps).swaps
    ensures Played(input, steps).sorted == if steps == [] then [] else steps[|steps| - 1].sorted
  {
    if steps != [] {
      PlayedShows(input, steps[..|steps| - 1]);
    }
  }

  /** Along a replayable trace (before `complete`) the `sorted` list is the prefix of the
      finished passes, and the minimum shown is the generator's `minIndex` except right
      after a swap, which clears it. */
  lemma ShownPass(input: seq<int>, steps: seq<Step>)
    requires Replays(input, steps) && steps != [] && !steps[|steps| - 1].Complete?
    ensures Played(input, steps).sorted == Range(0, After(input, steps).pass)
    ensures Played(input, steps).currentMin == if steps[|steps| - 1].Swap? then -1 else After(input, steps).min
  {
    PlayedShows(input, steps);
    assert Follows(After(input, steps[..|steps| - 1]), steps[|steps| - 1]);
  }

  /** Playing one more step applies that step to the display. */
  lemma PlayedNext(input: seq<int>, steps: seq<Step>, c: nat)
    requires c < |steps|
    ensures Played(input, steps[..c + 1]) == Apply(Played(input, steps[..c]), steps[c])
  {
    assert steps[..c + 1][..c] == steps[..c];
  }

  /** The trace of a freshly generated array, with what the controller relies on:
      nothing of it has been played yet, and it ends with a sorted `complete` step. */
  method Fresh(arr: seq<int>) returns (steps: seq<Step>)
    ensures Played(arr, steps[..0]) == Shown(arr)
    ensures Replays(arr, steps) && steps != [] && steps[|steps| - 1].Complete?
    ensures NonDecreasing(steps[|steps| - 1].snapshot)
  {
    steps := GenerateSteps(arr);
    assert steps[..0] == [];
  }

  /** The page's controller: the generated trace, how far it has been played, the speed
      slider, and in `shown` the seven state variables the page renders (`array`,
      `comparisons`, `swaps`, `currentMin`, `comparing`, `swapping`, `sorted`). */
  class Player {
    var shown: View
    var isPlaying: bool
    var currentStep: nat
    var speed: int
    var steps: seq<Step>
    /** The array the trace was generated from. */
    ghost var input: seq<int>

    /** The display is the result of playing the first `currentStep` steps of a trace
        generated from `input`; that trace ends with a sorted `complete` step. */
    ghost predicate Valid()
      reads this
    {
      currentStep <= |steps| && shown == Played(input, steps[..currentStep])
      && Replays(input, steps) && steps != [] && steps[|steps| - 1].Complete?
      && NonDecreasing(steps[|steps| - 1].snapshot)
      && Playback.MinSpeed <= speed <= Playback.MaxSpeed
    }

    /** Mounting the page: `generateArray` with the initial speed 150. */
    constructor (arr: seq<int>)
      ensures Valid() && input == arr && currentStep == 0 && !isPlaying && speed == 150
      ensures shown == Shown(arr)
    {
      var s := Fresh(arr);
      shown, isPlaying, currentStep, speed := Shown(arr), false, 0, 150;
      steps, input := s, arr;
    }

    /** `generateArray` on the freshly drawn array `next`: show it unsorted with the
        counters and highlights cleared, stop, and generate its trace; the speed is kept. */
    method Load(next: seq<int>)
      requires Playback.MinSpeed <= speed <= Playback.MaxSpeed
      modifies this
      ensures Valid() && input == next && currentStep == 0 && !isPlaying && speed == old(speed)
      ensures shown == Shown(next)
    {
      var s := Fresh(next);
      shown, currentStep, isPlaying := Shown(next), 0, false;
      steps, input := s, next;
    }

    /** One firing of the timer, which is armed only while playing and not finished:
        apply `steps[currentStep]` to the display and advance by one. */
    method Tick()
      requires Valid() && isPlaying && currentStep < |steps|
      modifies this
      ensures Valid() && currentStep == old(currentStep) + 1
      ensures shown == Apply(old(shown), steps[old(currentStep)])
      ensures steps == old(steps) && input == old(input)
      ensures isPlaying && speed == old(speed)
    {
      var k := currentStep;
      var v := Apply(shown, steps[k]);
      PlayedNext(input, steps, k);
      assert v == Played(input, steps[..k + 1]);
      shown, currentStep := v, k + 1;
    }

    /** The play/pause button: once the trace is finished it regenerates from `next`
        (which leaves playback stopped); otherwise it flips between playing and paused. */
    method TogglePlay(next: seq<int>)
      requires Valid()
      modifies this
      ensures Valid() && speed == old(speed)
      ensures old(currentStep) >= |old(steps)| ==>
        input == next && currentStep == 0 && !isPlaying && shown == Shown(next)
      ensures old(currentStep) < |old(steps)| ==>
        isPlaying == !old(isPlaying) && currentStep == old(currentStep)
        && steps == old(steps) && input == old(input) && shown == old(shown)
    {
      if currentStep >= |steps| {
        Load(next);
      } else {
        isPlaying := !isPlaying;
      }
    }

    /** The reset button: `generateArray` on `next`. */
    method Reset(next: seq<int>)
      requires Valid()
      modifies this
      ensures Valid() && input == next && currentStep == 0 && !isPlaying && speed == old(speed)
      ensures shown == Shown(next)
    {
      Load(next);
    }

    /** The speed slider, whose range is 1..1000. */
    method SetSpeed(v: int)
      requires Valid() && Playback.MinSpeed <= v <= Playback.MaxSpeed
      modifies this
      ensures Valid() && speed == v
      ensures shown == old(shown) && steps == old(steps) && input == old(input)
      ensures currentStep == old(currentStep) && isPlaying == old(isPlaying)
    {
      speed := v;
    }

    /** Once every step has been played the bars show the input sorted, every index is
        declared sorted, and nothing is highlighted. */
    lemma PlayedOut()
      requires Valid() && currentStep == |steps|
      ensures NonDecreasing(shown.values) && multiset(shown.values) == multiset(input)
      ensures shown.sorted == Range(0, |input|)
      ensures shown.currentMin == -1 && shown.comparing == [] && shown.swapping == []
    {
      assert steps[..currentStep] == steps;
      PlayedShows(input, steps);
      ReplaysConserves(input, steps);
      assert Follows(After(input, steps[..|steps| - 1]), steps[|steps| - 1]);
    }
  }
}
