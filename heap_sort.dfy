/** The heap sort page: its trace generator (a binary max-heap kept in the array, built
    bottom-up and then emptied by moving the root behind it) and its playback controller. */
module HeapSort {
  import opened SortSpec
  import Playback

  /** One recorded event; `snapshot` is the copy of the array taken after the event (the
      source field `array`), `comparisons` and `swaps` the running totals at that point. */
  datatype Step =
    | HeapifyStart(indices: seq<nat>, snapshot: seq<int>, comparisons: nat, swaps: nat)
    | Compare(indices: seq<nat>, snapshot: seq<int>, comparisons: nat, swaps: nat)
    | Swap(indices: seq<nat>, snapshot: seq<int>, comparisons: nat, swaps: nat)
    | HeapBuilt(snapshot: seq<int>, comparisons: nat, swaps: nat)
    | Extract(indices: seq<nat>, snapshot: seq<int>, comparisons: nat, swaps: nat)
    | Sorted(indices: seq<nat>, snapshot: seq<int>, comparisons: nat, swaps: nat)
    | Complete(snapshot: seq<int>, comparisons: nat, swaps: nat)

  // ---------------------------------------------------------------------------
  // What a trace means
  // ---------------------------------------------------------------------------

  /** What the page shows after a prefix of the trace: the snapshot and both counters. */
  datatype State = State(snapshot: seq<int>, comparisons: nat, swaps: nat)

  function StateOf(s: Step): State {
    State(s.snapshot, s.comparisons, s.swaps)
  }

  /** The state left by `steps`, starting from the input with both counters at zero. */
  function After(input: seq<int>, steps: seq<Step>): State {
    if steps == [] then State(input, 0, 0) else StateOf(steps[|steps| - 1])
  }

  /** The effect of one step on the state before it:
      `heapify_start`, `heap_built`, `sorted` and `complete` change nothing;
      a comparison of a child with the larger of the positions seen so far, which lies
      before it, counts one comparison;
      a `swap` exchanges a parent with a child strictly larger than it and counts one swap;
      an `extract` exchanges the root with a later position and counts one swap. */
  predicate Follows(st: State, s: Step) {
    var a := st.snapshot;
    match s
    case HeapifyStart(ix, b, c, w) =>
      |ix| == 1 && ix[0] < |a| && b == a && c == st.comparisons && w == st.swaps
    case Compare(ix, b, c, w) =>
      |ix| == 2 && ix[1] < ix[0] < |a| && b == a && c == st.comparisons + 1 && w == st.swaps
    case Swap(ix, b, c, w) =>
      |ix| == 2 && ix[0] < ix[1] < |a| && (ix[1] - 1) / 2 == ix[0] && a[ix[0]] < a[ix[1]]
      && b == SwapAt(a, ix[0], ix[1]) && c == st.comparisons && w == st.swaps + 1
    case HeapBuilt(b, c, w) =>
      b == a && c == st.comparisons && w == st.swaps
    case Extract(ix, b, c, w) =>
      |ix| == 2 && ix[0] == 0 < ix[1] < |a|
      && b == SwapAt(a, 0, ix[1]) && c == st.comparisons && w == st.swaps + 1
    case Sorted(ix, b, c, w) =>
      |ix| == 1 && ix[0] < |a| && b == a && c == st.comparisons && w == st.swaps
    case Complete(b, c, w) =>
      b == a && c == st.comparisons && w == st.swaps
  }

  /** Every step is obtained from the state left by the steps before it. */
  predicate Replays(input: seq<int>, steps: seq<Step>) {
    steps == []
    || (Replays(input, steps[..|steps| - 1])
        && Follows(After(input, steps[..|steps| - 1]), steps[|steps| - 1]))
  }

  /** The trace `steps` replays and leaves the page showing `a` with counters `cmp`, `swp`. */
  predicate Ready(input: seq<int>, steps: seq<Step>, a: seq<int>, cmp: nat, swp: nat) {
    Replays(input, steps) && After(input, steps) == State(a, cmp, swp)
  }

  /** The indices of every `sorted` step, in trace order. */
  function Marks(steps: seq<Step>): seq<nat> {
    if steps == [] then []
    else
      var s := steps[|steps| - 1];
      Marks(steps[..|steps| - 1]) + (if s.Sorted? then s.indices else [])
  }

  // ---------------------------------------------------------------------------
  // Lemmas about traces
  // ---------------------------------------------------------------------------

  /** Appending a step that follows from the current state keeps the trace replayable. */
  lemma Push(input: seq<int>, steps: seq<Step>, s: Step)
    requires Replays(input, steps) && Follows(After(input, steps), s)
    ensures Replays(input, steps + [s]) && After(input, steps + [s]) == StateOf(s)
    ensures Marks(steps + [s]) == Marks(steps) + (if s.Sorted? then s.indices else [])
  {
    assert (steps + [s])[..|steps|] == steps;
  }

  /** The state left by a replayable trace holds a permutation of the input. */
  lemma {:induction false} ReplaysConserves(input: seq<int>, steps: seq<Step>)
    requires Replays(input, steps)
    ensures |After(input, steps).snapshot| == |input|
    ensures multiset(After(input, steps).snapshot) == multiset(input)
  {
    if steps != [] {
      ReplaysConserves(input, steps[..|steps| - 1]);
    }
  }

  lemma {:induction false} ReplaysPrefix(input: seq<int>, steps: seq<Step>, m: nat)
    requires Replays(input, steps) && m <= |steps|
    ensures Replays(input, steps[..m])
    ensures m > 0 ==> After(input, steps[..m]) == StateOf(steps[m - 1])
    decreases |steps|
  {
    if m < |steps| {
      var p := steps[..|steps| - 1];
      ReplaysPrefix(input, p, m);
      assert p[..m] == steps[..m];
    } else {
      assert steps[..m] == steps;
    }
  }

  /** Every snapshot of a replayable trace is a permutation of the input, so of its length. */
  lemma {:induction false} ReplaysPermutes(input: seq<int>, steps: seq<Step>)
    requires Replays(input, steps)
    ensures forall k :: 0 <= k < |steps| ==>
      |steps[k].snapshot| == |input| && multiset(steps[k].snapshot) == multiset(input)
  {
    if steps != [] {
      var m := |steps| - 1;
      var p := steps[..m];
      ReplaysPermutes(input, p);
      ReplaysConserves(input, steps);
      assert forall k :: 0 <= k < m ==> p[k] == steps[k];
    }
  }

  /** No step shows a counter above the final one. */
  lemma {:induction false} ReplaysCounters(input: seq<int>, steps: seq<Step>)
    requires Replays(input, steps)
    ensures forall k :: 0 <= k < |steps| ==>
      steps[k].comparisons <= After(input, steps).comparisons && steps[k].swaps <= After(input, steps).swaps
  {
    if steps != [] {
      var m := |steps| - 1;
      var p := steps[..m];
      ReplaysCounters(input, p);
      assert forall k :: 0 <= k < m ==> p[k] == steps[k];
      assert Follows(After(input, p), steps[m]);
    }
  }

  /** Both counters never decrease from one step to a later one. */
  lemma CountersMonotone(input: seq<int>, steps: seq<Step>, k: nat, l: nat)
    requires Replays(input, steps) && k <= l < |steps|
    ensures steps[k].comparisons <= steps[l].comparisons && steps[k].swaps <= steps[l].swaps
  {
    ReplaysPrefix(input, steps, l + 1);
    ReplaysCounters(input, steps[..l + 1]);
    assert steps[..l + 1][k] == steps[k];
  }

  // ---------------------------------------------------------------------------
  // The heap
  // ---------------------------------------------------------------------------

  /** `s[p]` is at least each child 2j+1, 2j+2 of j that lies inside the heap of size n. */
  predicate Dominates(s: seq<int>, n: nat, p: nat, j: nat)
    requires p < |s| && n <= |s|
  {
    (2 * j + 1 < n ==> s[2 * j + 1] <= s[p]) && (2 * j + 2 < n ==> s[2 * j + 2] <= s[p])
  }

  /** Positions lo..n-1 of `s` satisfy the max-heap order with their children inside n. */
  predicate IsHeap(s: seq<int>, lo: nat, n: nat) {
    n <= |s| && forall k :: lo <= k < n ==> Dominates(s, n, k, k)
  }

  /** What `heapify(array, n, j)` needs: every node of lo..n-1 but j is in heap order, and the
      parent of j, when it is one of those nodes, is at least j's children. */
  predicate HeapExcept(s: seq<int>, lo: nat, n: nat, j: nat) {
    n <= |s| && lo <= j < n
    && (forall k :: lo <= k < n && k != j ==> Dominates(s, n, k, k))
    && (0 < j && lo <= (j - 1) / 2 ==> Dominates(s, n, (j - 1) / 2, j))
  }

  /** `largest` after the test of the left child 2i+1: the child only when strictly larger. */
  function Candidate(s: seq<int>, n: nat, i: nat): nat
    requires i < n <= |s|
  {
    if 2 * i + 1 < n && s[2 * i + 1] > s[i] then 2 * i + 1 else i
  }

  /** `largest` after the two child tests of `heapify(array, n, i)`: a child replaces the
      current candidate only when strictly larger. The result is i or a child of i inside
      n, at least i and both its children, and strictly larger than i when it is not i. */
  function Largest(s: seq<int>, n: nat, i: nat): (m: nat)
    requires i < n <= |s|
    ensures i <= m < n && (m == i || m == 2 * i + 1 || m == 2 * i + 2)
    ensures s[i] <= s[m] && Dominates(s, n, m, i)
    ensures m != i ==> s[i] < s[m]
  {
    var l := Candidate(s, n, i);
    if 2 * i + 2 < n && s[2 * i + 2] > s[l] then 2 * i + 2 else l
  }

  /** Every node with no child inside n is trivially in heap order: so is lo..n-1 from n/2 on. */
  lemma LeavesHeap(s: seq<int>, n: nat)
    requires n <= |s|
    ensures IsHeap(s, n / 2, n)
  {
  }

  /** Swapping i with its larger child moves the exception down to that child. */
  lemma SiftStep(s: seq<int>, lo: nat, n: nat, i: nat)
    requires HeapExcept(s, lo, n, i) == true && Largest(s, n, i) != i
    ensures HeapExcept(SwapAt(s, i, Largest(s, n, i)), lo, n, Largest(s, n, i)) == true
  {
    var m := Largest(s, n, i);
    var t := SwapAt(s, i, m);
    assert (m - 1) / 2 == i;
    assert t[i] == s[m] && t[m] == s[i];
    forall k | lo <= k < n && k != m
      ensures Dominates(t, n, k, k)
    {
      if k == i {
        assert Dominates(s, n, m, i);
      } else if 0 < i && k == (i - 1) / 2 {
        assert 2 * k + 1 == i || 2 * k + 2 == i;
        assert Dominates(s, n, k, k) && Dominates(s, n, k, i);
        assert t[k] == s[k];
      } else {
        assert Dominates(s, n, k, k);
        assert t[k] == s[k];
        assert 2 * k + 1 != i && 2 * k + 2 != i && 2 * k + 1 != m && 2 * k + 2 != m;
      }
    }
    assert Dominates(s, n, m, m);
    assert 2 * m + 1 != i && 2 * m + 2 != i;
  }

  /** When i already dominates its children the whole range is a heap. */
  lemma SiftDone(s: seq<int>, lo: nat, n: nat, i: nat)
    requires HeapExcept(s, lo, n, i) == true && Largest(s, n, i) == i
    ensures IsHeap(s, lo, n)
  {
  }

  /** A node at least the children of every node below it is a heap's maximum. */
  lemma {:induction false} HeapRootMax(s: seq<int>, n: nat, k: nat)
    requires IsHeap(s, 0, n) && k < n
    ensures s[k] <= s[0]
  {
    if k > 0 {
      var p := (k - 1) / 2;
      assert Dominates(s, n, p, p);
      HeapRootMax(s, n, p);
    }
  }

  // ---------------------------------------------------------------------------
  // heapify(array, n, i)
  // ---------------------------------------------------------------------------

  /** The number of children of i inside the heap of size n: the comparisons one frame makes. */
  function Children(n: nat, i: nat): nat {
    (if 2 * i + 1 < n then 1 else 0) + (if 2 * i + 2 < n then 1 else 0)
  }

  /** The array after one frame of `heapify`, before its recursive call. */
  function Sifted(s: seq<int>, n: nat, i: nat): seq<int>
    requires i < n <= |s|
  {
    if Largest(s, n, i) == i then s else SwapAt(s, i, Largest(s, n, i))
  }

  /** The `compare` steps of one frame of `heapify(array, n, i)` on `s`, with the counters
      at `cmp` and `swp` before it: the left child 2i+1 against i when it lies inside n,
      then the right child 2i+2 against the candidate left by the first test when it
      lies inside n. */
  function ChildCompares(s: seq<int>, n: nat, i: nat, cmp: nat, swp: nat): seq<Step>
    requires i < n <= |s|
  {
    (if 2 * i + 1 < n then [Compare([2 * i + 1, i], s, cmp + 1, swp)] else [])
    + (if 2 * i + 2 < n then [Compare([2 * i + 2, Candidate(s, n, i)], s, cmp + 2, swp)] else [])
  }

  /** The steps of one frame of `heapify(array, n, i)`: the start, the child comparisons
      and, when a child is strictly larger, the swap of i with the larger child. */
  function FrameSteps(s: seq<int>, n: nat, i: nat, cmp: nat, swp: nat): seq<Step>
    requires i < n <= |s|
  {
    var m := Largest(s, n, i);
    [HeapifyStart([i], s, cmp, swp)] + ChildCompares(s, n, i, cmp, swp)
    + (if m == i then [] else [Swap([i, m], SwapAt(s, i, m), cmp + Children(n, i), swp + 1)])
  }

  /** Each comparison of a frame names a child of i inside the heap, and the position it
      is compared with: i itself, or the left child when that is the candidate; there is
      one comparison per child inside n. */
  lemma ChildComparesNameChildren(s: seq<int>, n: nat, i: nat, cmp: nat, swp: nat)
    requires i < n <= |s|
    ensures |ChildCompares(s, n, i, cmp, swp)| == Children(n, i)
    ensures forall t :: 0 <= t < |ChildCompares(s, n, i, cmp, swp)| ==>
      var x := ChildCompares(s, n, i, cmp, swp)[t];
      x.Compare? && |x.indices| == 2 && x.indices[0] < n && (x.indices[0] - 1) / 2 == i
      && (x.indices[1] == i || x.indices[1] == 2 * i + 1) && x.indices[1] < x.indices[0]
      && x.comparisons == cmp + t + 1
  {
  }

  /** `steps` starts with `steps0`. */
  predicate Extends(steps0: seq<Step>, steps: seq<Step>) {
    |steps0| <= |steps| && steps[..|steps0|] == steps0
  }

  lemma ExtendsTrans(s0: seq<Step>, s1: seq<Step>, s2: seq<Step>)
    requires Extends(s0, s1) && Extends(s1, s2)
    ensures Extends(s0, s2)
  {
    assert s2[..|s0|] == s2[..|s1|][..|s0|];
  }

  /** `steps` extends `steps0` without a `sorted` step. */
  predicate Grows(steps0: seq<Step>, steps: seq<Step>) {
    Extends(steps0, steps) && Marks(steps) == Marks(steps0)
  }

  /** Appending a step other than `sorted` that follows from the state `steps` leaves. */
  lemma PushOn(input: seq<int>, steps0: seq<Step>, steps: seq<Step>, s: seq<int>, cmp: nat, swp: nat, x: Step)
    requires Ready(input, steps, s, cmp, swp) == true && Grows(steps0, steps) == true
    requires Follows(State(s, cmp, swp), x) && !x.Sorted?
    ensures Ready(input, steps + [x], x.snapshot, x.comparisons, x.swaps) == true
    ensures Grows(steps0, steps + [x]) == true
  {
    Push(input, steps, x);
    assert (steps + [x])[..|steps0|] == steps[..|steps0|];
  }

  /** `[array[i], array[j]] = [array[j], array[i]]` */
  method Exchange(a: array<int>, x: nat, y: nat)
    requires x < a.Length && y < a.Length
    modifies a
    ensures a[..] == SwapAt(old(a[..]), x, y)
  {
    a[x], a[y] := a[y], a[x];
  }

  /** The two child tests of `heapify(array, n, i)`, counting and recording each comparison. */
  method Choose(a: array<int>, n: nat, i: nat, ghost input: seq<int>, ghost steps0: seq<Step>,
                steps1: seq<Step>, cmp0: nat, swp: nat)
    returns (steps: seq<Step>, largest: nat, cmp: nat)
    requires i < n <= a.Length
    requires Ready(input, steps1, a[..], cmp0, swp) == true && Grows(steps0, steps1) == true
    ensures largest == Largest(a[..], n, i) && cmp == cmp0 + Children(n, i)
    ensures Ready(input, steps, a[..], cmp, swp) == true && Grows(steps0, steps) == true
    ensures steps == steps1 + ChildCompares(a[..], n, i, cmp0, swp)
  {
    largest := i;
    var left, right := 2 * i + 1, 2 * i + 2;
    cmp, steps := cmp0, steps1;
    if left < n {
      PushOn(input, steps0, steps, a[..], cmp, swp, Compare([left, largest], a[..], cmp + 1, swp));
      cmp := cmp + 1;
      steps := steps + [Compare([left, largest], a[..], cmp, swp)];
      if a[left] > a[largest] {
        largest := left;
      }
    }
    if right < n {
      PushOn(input, steps0, steps, a[..], cmp, swp, Compare([right, largest], a[..], cmp + 1, swp));
      cmp := cmp + 1;
      steps := steps + [Compare([right, largest], a[..], cmp, swp)];
      if a[right] > a[largest] {
        largest := right;
      }
    }
  }

  /** One frame of `heapify(array, n, i)` up to its recursive call: record the start,
      compare each child inside n with `largest`, then swap i with `largest` if that is
      not i, recording the swap. */
  method Frame(a: array<int>, n: nat, i: nat, ghost input: seq<int>, steps0: seq<Step>, cmp0: nat, swp0: nat)
    returns (steps: seq<Step>, largest: nat, cmp: nat, swp: nat)
    requires i < n <= a.Length && Ready(input, steps0, a[..], cmp0, swp0) == true
    modifies a
    ensures largest == Largest(old(a[..]), n, i) && a[..] == Sifted(old(a[..]), n, i)
    ensures Ready(input, steps, a[..], cmp, swp) == true && Grows(steps0, steps) == true
    ensures cmp == cmp0 + Children(n, i) && swp == swp0 + (if largest == i then 0 else 1)
    ensures steps[|steps0|..] == FrameSteps(old(a[..]), n, i, cmp0, swp0)
  {
    ghost var before := a[..];
    assert steps0[..|steps0|] == steps0;
    PushOn(input, steps0, steps0, a[..], cmp0, swp0, HeapifyStart([i], a[..], cmp0, swp0));
    steps := steps0 + [HeapifyStart([i], a[..], cmp0, swp0)];
    steps, largest, cmp := Choose(a, n, i, input, steps0, steps, cmp0, swp0);
    swp := swp0;
    if largest != i {
      assert (largest - 1) / 2 == i;
      PushOn(input, steps0, steps, a[..], cmp, swp, Swap([i, largest], SwapAt(a[..], i, largest), cmp, swp + 1));
      swp := swp + 1;
      Exchange(a, i, largest);
      steps := steps + [Swap([i, largest], a[..], cmp, swp)];
    }
    FrameShape(before, n, i, cmp0, swp0, steps0);
  }

  /** The steps `Frame` appends, written as FrameSteps. */
  lemma FrameShape(s: seq<int>, n: nat, i: nat, cmp: nat, swp: nat, steps0: seq<Step>)
    requires i < n <= |s|
    ensures var m, front := Largest(s, n, i), steps0 + [HeapifyStart([i], s, cmp, swp)] + ChildCompares(s, n, i, cmp, swp);
      && (m == i ==> front == steps0 + FrameSteps(s, n, i, cmp, swp))
      && (m != i ==> front + [Swap([i, m], SwapAt(s, i, m), cmp + Children(n, i), swp + 1)]
                     == steps0 + FrameSteps(s, n, i, cmp, swp))
  {
  }

  /** What `heapify(array, n, i)` does to the array: it permutes it, moves nothing outside
      i..n-1, and leaves lo..n-1 in heap order. */
  predicate HeapifyArray(before: seq<int>, after: seq<int>, lo: nat, n: nat, i: nat) {
    |after| == |before| && multiset(after) == multiset(before) && Unchanged(after, before, i, n)
    && IsHeap(after, lo, n)
  }

  /** What `heapify` appends to the trace: replayable steps with no `sorted` step among
      them, and at most two comparisons per frame, there being one frame more than swaps. */
  predicate HeapifyTrace(input: seq<int>, steps0: seq<Step>, steps: seq<Step>, after: seq<int>,
                         cmp0: nat, cmp: nat, swp0: nat, swp: nat) {
    Ready(input, steps, after, cmp, swp) && Grows(steps0, steps)
    && swp0 <= swp && cmp0 <= cmp <= cmp0 + 2 * (swp - swp0 + 1)
  }

  /** The array part of `heapify`'s recursive case. */
  lemma HeapifyCombine(before: seq<int>, after: seq<int>, lo: nat, n: nat, i: nat, m: nat)
    requires i < m < n <= |before|
    requires HeapifyArray(SwapAt(before, i, m), after, lo, n, m) == true
    ensures HeapifyArray(before, after, lo, n, i) == true
  {
  }

  /** The trace part of `heapify`'s recursive case. */
  lemma HeapifyCombineTrace(input: seq<int>, steps0: seq<Step>, steps1: seq<Step>, steps: seq<Step>,
                            after: seq<int>, cmp0: nat, cmp1: nat, cmp: nat, swp0: nat, swp: nat)
    requires Grows(steps0, steps1) && cmp0 <= cmp1 <= cmp0 + 2
    requires HeapifyTrace(input, steps1, steps, after, cmp1, cmp, swp0 + 1, swp) == true
    ensures HeapifyTrace(input, steps0, steps, after, cmp0, cmp, swp0, swp) == true
  {
    ExtendsTrans(steps0, steps1, steps);
  }

  /** `heapify(array, n, i)`: let i's larger child rise while it is strictly larger, and
      continue from the position i's value moved to. */
  method Heapify(a: array<int>, n: nat, i: nat, ghost lo: nat, ghost input: seq<int>,
                 steps0: seq<Step>, cmp0: nat, swp0: nat)
    returns (steps: seq<Step>, cmp: nat, swp: nat)
    requires HeapExcept(a[..], lo, n, i) == true
    requires Ready(input, steps0, a[..], cmp0, swp0) == true
    modifies a
    decreases n - i
    ensures HeapifyArray(old(a[..]), a[..], lo, n, i) == true
    ensures HeapifyTrace(input, steps0, steps, a[..], cmp0, cmp, swp0, swp) == true
  {
    ghost var before := a[..];
    var largest, c1, w1;
    steps, largest, c1, w1 := Frame(a, n, i, input, steps0, cmp0, swp0);
    if largest != i {
      SiftStep(before, lo, n, i);
      var steps2;
      steps2, cmp, swp := Heapify(a, n, largest, lo, input, steps, c1, w1);
      HeapifyCombine(before, a[..], lo, n, i, largest);
      HeapifyCombineTrace(input, steps0, steps, steps2, a[..], cmp0, c1, cmp, swp0, swp);
      steps := steps2;
    } else {
      SiftDone(before, lo, n, i);
      cmp, swp := c1, w1;
    }
  }

  // ---------------------------------------------------------------------------
  // Building the heap
  // ---------------------------------------------------------------------------

  /** A heap from i+1 on is a heap except at i, as `heapify(array, n, i)` needs. */
  lemma ExceptAt(s: seq<int>, n: nat, i: nat)
    requires IsHeap(s, i + 1, n) && i < n
    ensures HeapExcept(s, i, n, i) == true
  {
  }

  /** `for (let i = Math.floor(n / 2) - 1; i >= 0; i--) heapify(tempArray, n, i)`: each
      heapify extends the heap order one node further down. */
  method BuildHeap(a: array<int>, ghost input: seq<int>) returns (steps: seq<Step>, cmp: nat, swp: nat)
    requires a[..] == input
    modifies a
    ensures IsHeap(a[..], 0, a.Length)
    ensures Ready(input, steps, a[..], cmp, swp) == true && Marks(steps) == []
  {
    var n := a.Length;
    var i: int := n / 2 - 1;
    steps, cmp, swp := [], 0, 0;
    LeavesHeap(a[..], n);
    while i >= 0
      invariant -1 <= i <= n / 2 - 1
      invariant IsHeap(a[..], i + 1, n)
      invariant Ready(input, steps, a[..], cmp, swp) == true && Marks(steps) == []
    {
      ExceptAt(a[..], n, i);
      steps, cmp, swp := Heapify(a, n, i, i, input, steps, cmp, swp);
      i := i - 1;
    }
  }

  // ---------------------------------------------------------------------------
  // Extracting the maximum
  // ---------------------------------------------------------------------------

  /** The extraction loop's invariant with h = i + 1: 0..h-1 is a heap, h..n-1 is sorted and
      each of its elements is at least everything before h. */
  predicate Extracting(s: seq<int>, n: nat, h: nat) {
    |s| == n && h <= n && IsHeap(s, 0, h) && NonDecreasingBetween(s, h, n) && Split(s, 0, h, n)
  }

  /** Swapping the root, the heap's maximum, to i extends the sorted suffix by i and leaves
      0..i-1 a heap except at the root. */
  lemma ExtractArray(s: seq<int>, n: nat, i: nat)
    requires 0 < i < n && Extracting(s, n, i + 1) == true
    ensures HeapExcept(SwapAt(s, 0, i), 0, i, 0) == true
    ensures NonDecreasingBetween(SwapAt(s, 0, i), i, n) && Split(SwapAt(s, 0, i), 0, i, n)
  {
    var t := SwapAt(s, 0, i);
    forall k | 0 <= k <= i ensures s[k] <= s[0] {
      HeapRootMax(s, i + 1, k);
    }
    forall k | 0 < k < i ensures Dominates(t, i, k, k) {
      assert Dominates(s, i + 1, k, k);
    }
  }

  /** Re-heapifying 0..i-1 permutes only that prefix, so the sorted suffix and its bound survive. */
  lemma ExtractRestored(t: seq<int>, after: seq<int>, n: nat, i: nat)
    requires 0 < i < n == |t|
    requires NonDecreasingBetween(t, i, n) && Split(t, 0, i, n)
    requires HeapifyArray(t, after, 0, i, 0) == true
    ensures Extracting(after, n, i) == true
  {
    SegmentPermutes(after, t, 0, i);
    MultisetAtMost(after, t, 0, i, t[i]);
  }

  /** Recording the `extract` swap of 0 and i, then the `sorted` mark of i. */
  lemma ExtractTrace(input: seq<int>, steps0: seq<Step>, steps: seq<Step>, s: seq<int>,
                     n: nat, i: nat, cmp: nat, swp: nat)
    requires Ready(input, steps, s, cmp, swp) == true && Extends(steps0, steps)
    requires 0 < i < n == |s| && Marks(steps) == Countdown(n, i + 1)
    ensures Ready(input, steps + [Extract([0, i], SwapAt(s, 0, i), cmp, swp + 1)]
                  + [Sorted([i], SwapAt(s, 0, i), cmp, swp + 1)], SwapAt(s, 0, i), cmp, swp + 1) == true
    ensures Extends(steps0, steps + [Extract([0, i], SwapAt(s, 0, i), cmp, swp + 1)]
                    + [Sorted([i], SwapAt(s, 0, i), cmp, swp + 1)])
    ensures Marks(steps + [Extract([0, i], SwapAt(s, 0, i), cmp, swp + 1)]
                  + [Sorted([i], SwapAt(s, 0, i), cmp, swp + 1)]) == Countdown(n, i)
  {
    var t := SwapAt(s, 0, i);
    var x := Extract([0, i], t, cmp, swp + 1);
    Push(input, steps, x);
    Push(input, steps + [x], Sorted([i], t, cmp, swp + 1));
    ExtendsTrans(steps0, steps, steps + [x]);
    ExtendsTrans(steps0, steps + [x], steps + [x] + [Sorted([i], t, cmp, swp + 1)]);
  }

  /** One round of the extraction loop: count and record the swap of the root with i, mark
      i sorted, and re-heapify 0..i-1. */
  method ExtractMax(a: array<int>, i: nat, ghost input: seq<int>, ghost steps0: seq<Step>,
                    steps1: seq<Step>, cmp0: nat, swp0: nat)
    returns (steps: seq<Step>, cmp: nat, swp: nat)
    requires 0 < i < a.Length && Extracting(a[..], a.Length, i + 1) == true
    requires Ready(input, steps1, a[..], cmp0, swp0) == true && Extends(steps0, steps1)
    requires Marks(steps1) == Countdown(a.Length, i + 1)
    modifies a
    ensures Extracting(a[..], a.Length, i) == true
    ensures Ready(input, steps, a[..], cmp, swp) == true && Extends(steps0, steps)
    ensures Marks(steps) == Countdown(a.Length, i)
  {
    ghost var before := a[..];
    ExtractArray(a[..], a.Length, i);
    ExtractTrace(input, steps0, steps1, a[..], a.Length, i, cmp0, swp0);
    swp := swp0 + 1;
    Exchange(a, 0, i);
    steps := steps1 + [Extract([0, i], a[..], cmp0, swp)] + [Sorted([i], a[..], cmp0, swp)];
    ghost var t := a[..];
    ghost var steps2 := steps;
    steps, cmp, swp := Heapify(a, i, 0, 0, input, steps, cmp0, swp);
    ExtractRestored(t, a[..], a.Length, i);
    ExtendsTrans(steps0, steps2, steps);
  }

  /** `for (let i = n - 1; i > 0; i--)`: move the maximum behind the heap, one position at a time. */
  method ExtractAll(a: array<int>, ghost input: seq<int>, steps0: seq<Step>, cmp0: nat, swp0: nat)
    returns (steps: seq<Step>, cmp: nat, swp: nat)
    requires IsHeap(a[..], 0, a.Length) && Ready(input, steps0, a[..], cmp0, swp0) == true
    requires Marks(steps0) == []
    modifies a
    ensures NonDecreasing(a[..])
    ensures Ready(input, steps, a[..], cmp, swp) == true && Extends(steps0, steps)
    ensures Marks(steps) == Countdown(a.Length, 1)
  {
    var n := a.Length;
    var i: int := n - 1;
    steps, cmp, swp := steps0, cmp0, swp0;
    assert steps0[..|steps0|] == steps0;
    while i > 0
      invariant -1 <= i < n && (n > 0 ==> 0 <= i)
      invariant Extracting(a[..], n, i + 1) == true
      invariant Ready(input, steps, a[..], cmp, swp) == true && Extends(steps0, steps)
      invariant Marks(steps) == Countdown(n, i + 1)
    {
      steps, cmp, swp := ExtractMax(a, i, input, steps0, steps, cmp, swp);
      i := i - 1;
    }
    assert Countdown(n, i + 1) == Countdown(n, 1);
  }

  /** `generateSteps`: heap-sorts a copy of `arr` (build, `heap_built`, extract) and ends
      with a `complete` step. */
  method GenerateSteps(arr: seq<int>) returns (steps: seq<Step>)
    ensures Replays(arr, steps) && steps != [] && steps[|steps| - 1].Complete?
    // the last snapshot is the input sorted
    ensures NonDecreasing(steps[|steps| - 1].snapshot)
    ensures multiset(steps[|steps| - 1].snapshot) == multiset(arr)
    // the `heap_built` step shows a max-heap
    ensures exists k :: 0 <= k < |steps| && steps[k].HeapBuilt? && IsHeap(steps[k].snapshot, 0, |arr|)
    // the `sorted` marks are n-1 down to 1: index 0 is only covered by `complete`
    ensures Marks(steps) == Countdown(|arr|, 1)
  {
    var a := new int[|arr|](k requires 0 <= k < |arr| => arr[k]);
    assert a[..] == arr;
    var cmp, swp;
    steps, cmp, swp := BuildHeap(a, arr);
    var built := HeapBuilt(a[..], cmp, swp);
    Push(arr, steps, built);
    ghost var k := |steps|;
    steps := steps + [built];
    assert steps[k] == built;
    ghost var s1 := steps;
    steps, cmp, swp := ExtractAll(a, arr, steps, cmp, swp);
    assert steps[k] == s1[k];
    var s := Complete(a[..], cmp, swp);
    Push(arr, steps, s);
    steps := steps + [s];
    assert steps[k] == built;
    ReplaysConserves(arr, steps);
  }

  // ---------------------------------------------------------------------------
  // Playback
  // ---------------------------------------------------------------------------

  /** What the page displays: the bars, both counters and the three highlight lists. */
  datatype View = View(values: seq<int>, comparisons: nat, swaps: nat,
                       heapifying: seq<nat>, extracting: seq<nat>, sorted: seq<nat>)

  /** The display before any step: the input, zero counters, nothing highlighted. */
  function Initial(input: seq<int>): View {
    View(input, 0, 0, [], [], [])
  }

  /** One timer tick: show the step's snapshot and counters. `heapify_start` highlights
      its node and clears the extracted pair; `compare` and `swap` replace the heapify
      highlight; `extract` highlights its pair and clears the heapify highlight; `sorted`
      appends its index to `sorted` and clears the extracted pair; `heap_built` clears the
      heapify highlight; `complete` marks every index and clears both highlights. */
  function Apply(v: View, s: Step): View {
    var w := v.(values := s.snapshot, comparisons := s.comparisons, swaps := s.swaps);
    match s
    case HeapifyStart(ix, _, _, _) => w.(heapifying := ix, extracting := [])
    case Compare(ix, _, _, _) => w.(heapifying := ix)
    case Swap(ix, _, _, _) => w.(heapifying := ix)
    case Extract(ix, _, _, _) => w.(extracting := ix, heapifying := [])
    case Sorted(ix, _, _, _) => w.(sorted := v.sorted + ix, extracting := [])
    case HeapBuilt(_, _, _) => w.(heapifying := [])
    case Complete(b, _, _) => w.(sorted := Range(0, |b|), heapifying := [], extracting := [])
  }

  /** One tick shows the step's snapshot and counters and sets the highlights by the step's kind. */
  lemma ApplyShows(v: View, s: Step)
    ensures Apply(v, s).values == s.snapshot
    ensures Apply(v, s).comparisons == s.comparisons && Apply(v, s).swaps == s.swaps
    ensures Apply(v, s).sorted == if s.Complete? then Range(0, |s.snapshot|) else v.sorted + Marks([s])
    ensures s.HeapifyStart? || s.Compare? || s.Swap? ==> Apply(v, s).heapifying == s.indices
    ensures s.Extract? || s.HeapBuilt? || s.Complete? ==> Apply(v, s).heapifying == []
    ensures Apply(v, s).extracting ==
      if s.Extract? then s.indices else if s.Sorted? || s.HeapifyStart? || s.Complete? then [] else v.extracting
  {
  }

  /** The display after ticking through `steps` from a freshly generated array. */
  function Played(input: seq<int>, steps: seq<Step>): View {
    if steps == [] then Initial(input)
    else Apply(Played(input, steps[..|steps| - 1]), steps[|steps| - 1])
  }

  /** Ticking through a prefix of the trace shows the state the trace has reached and,
      until a `complete` step, every index marked `sorted` so far, in order. */
  lemma {:induction false} PlayedShows(input: seq<int>, steps: seq<Step>)
    ensures Played(input, steps).values == After(input, steps).snapshot
    ensures Played(input, steps).comparisons == After(input, steps).comparisons
    ensures Played(input, steps).swaps == After(input, steps).swaps
    ensures (forall k :: 0 <= k < |steps| ==> !steps[k].Complete?) ==> Played(input, steps).sorted == Marks(steps)
  {
    if steps != [] {
      var p := steps[..|steps| - 1];
      PlayedShows(input, p);
      assert forall k :: 0 <= k < |p| ==> p[k] == steps[k];
    }
  }

  /** Playing one more step applies that step to the display. */
  lemma PlayedNext(input: seq<int>, steps: seq<Step>, c: nat)
    requires c < |steps|
    ensures Played(input, steps[..c + 1]) == Apply(Played(input, steps[..c]), steps[c])
  {
    assert steps[..c + 1][..c] == steps[..c];
  }

  /** The trace of a freshly generated array, with what the controller relies on:
      nothing of it has been played yet, and it ends with a sorted `complete` step. */
  method Fresh(arr: seq<int>) returns (steps: seq<Step>)
    ensures Played(arr, steps[..0]) == Initial(arr)
    ensures Replays(arr, steps) && steps != [] && steps[|steps| - 1].Complete?
    ensures NonDecreasing(steps[|steps| - 1].snapshot)
  {
    steps := GenerateSteps(arr);
    assert steps[..0] == [];
  }

  /** The page's controller: the generated trace, how far it has been played, the speed
      slider, and in `shown` the six state variables the page renders (`array`,
      `comparisons`, `swaps`, `heapifying`, `extracting`, `sorted`). */
  class Player {
    var shown: View
    var isPlaying: bool
    var currentStep: nat
    var speed: int
    var steps: seq<Step>
    /** The array the trace was generated from. */
    ghost var input: seq<int>

    /** The display is the result of playing the first `currentStep` steps of a trace
        generated from `input`; that trace ends with a sorted `complete` step. */
    ghost predicate Valid()
      reads this
    {
      currentStep <= |steps| && shown == Played(input, steps[..currentStep])
      && Replays(input, steps) && steps != [] && steps[|steps| - 1].Complete?
      && NonDecreasing(steps[|steps| - 1].snapshot)
      && Playback.MinSpeed <= speed <= Playback.MaxSpeed
    }

    /** Mounting the page: `generateArray` with the initial speed 200. */
    constructor (arr: seq<int>)
      ensures Valid() && input == arr && currentStep == 0 && !isPlaying && speed == 200
      ensures shown == Initial(arr)
    {
      var s := Fresh(arr);
      shown, isPlaying, currentStep, speed := Initial(arr), false, 0, 200;
      steps, input := s, arr;
    }

    /** `generateArray` on the freshly drawn array `next`: show it unsorted with the
        counters and highlights cleared, stop, and generate its trace; the speed is kept. */
    method Load(next: seq<int>)
      requires Playback.MinSpeed <= speed <= Playback.MaxSpeed
      modifies this
      ensures Valid() && input == next && currentStep == 0 && !isPlaying && speed == old(speed)
      ensures shown == Initial(next)
    {
      var s := Fresh(next);
      shown, currentStep, isPlaying := Initial(next), 0, false;
      steps, input := s, next;
    }

    /** One firing of the timer, which is armed only while playing and not finished:
        apply `steps[currentStep]` to the display and advance by one. */
    method Tick()
      requires Valid() && isPlaying && currentStep < |steps|
      modifies this
      ensures Valid() && currentStep == old(currentStep) + 1
      ensures shown == Apply(old(shown), steps[old(currentStep)])
      ensures steps == old(steps) && input == old(input)
      ensures isPlaying && speed == old(speed)
    {
      var k := currentStep;
      var v := Apply(shown, steps[k]);
      PlayedNext(input, steps, k);
      assert v == Played(input, steps[..k + 1]);
      shown, currentStep := v, k + 1;
    }

    /** The play/pause button: once the trace is finished it regenerates from `next`
        (which leaves playback stopped); otherwise it flips between playing and paused. */
    method TogglePlay(next: seq<int>)
      requires Valid()
      modifies this
      ensures Valid() && speed == old(speed)
      ensures old(currentStep) >= |old(steps)| ==>
        input == next && currentStep == 0 && !isPlaying && shown == Initial(next)
      ensures old(currentStep) < |old(steps)| ==>
        isPlaying == !old(isPlaying) && currentStep == old(currentStep)
        && steps == old(steps) && input == old(input) && shown == old(shown)
    {
      if currentStep >= |steps| {
        Load(next);
      } else {
        isPlaying := !isPlaying;
      }
    }

    /** The reset button: `generateArray` on `next`. */
    method Reset(next: seq<int>)
      requires Valid()
      modifies this
      ensures Valid() && input == next && currentStep == 0 && !isPlaying && speed == old(speed)
      ensures shown == Initial(next)
    {
      Load(next);
    }

    /** The speed slider, whose range is 1..1000. */
    method SetSpeed(v: int)
      requires Valid() && Playback.MinSpeed <= v <= Playback.MaxSpeed
      modifies this
      ensures Valid() && speed == v
      ensures shown == old(shown) && steps == old(steps) && input == old(input)
      ensures currentStep == old(currentStep) && isPlaying == old(isPlaying)
    {
      speed := v;
    }

    /** Once every step has been played the bars show the input sorted, every index is
        marked `sorted`, and nothing is highlighted. */
    lemma PlayedOut()
      requires Valid() && currentStep == |steps|
      ensures NonDecreasing(shown.values) && multiset(shown.values) == multiset(input)
      ensures shown.sorted == Range(0, |input|)
      ensures shown.heapifying == [] && shown.extracting == []
    {
      assert steps[..currentStep] == steps;
      ReplaysConserves(input, steps);
    }
  }
}
