/** The insertion sort page: its trace generator (each pass holds one key aside, shifts
    the larger elements of the sorted prefix one place right and writes the key into the
    gap) and its playback controller. */
module InsertionSort {
  import opened SortSpec
  import Playback

  /** One recorded event; `snapshot` is the copy of the array taken after the event (the
      source field `array`), `sorted` the prefix the step declares sorted, `comparisons`
      and `shifts` the running totals at that point. */
  datatype Step =
    | Start(snapshot: seq<int>, sorted: seq<nat>, comparisons: nat, shifts: nat)
    | Pick(current: nat, snapshot: seq<int>, sorted: seq<nat>, comparisons: nat, shifts: nat)
    | Compare(current: nat, comparing: seq<nat>, snapshot: seq<int>, sorted: seq<nat>,
              comparisons: nat, shifts: nat)
    | Shift(shifting: nat, snapshot: seq<int>, sorted: seq<nat>, comparisons: nat, shifts: nat)
    | Insert(inserting: nat, snapshot: seq<int>, sorted: seq<nat>, comparisons: nat, shifts: nat)
    | Complete(snapshot: seq<int>, sorted: seq<nat>, comparisons: nat, shifts: nat)

  // ---------------------------------------------------------------------------
  // What a trace means
  // ---------------------------------------------------------------------------

  /** The generator's state after a prefix of the trace: the array and both counters, the
      pass `current`, the position `hole` the key will be written to (-1 between passes)
      and the `key` held aside. */
  datatype State = State(snapshot: seq<int>, comparisons: nat, shifts: nat,
                         current: int, hole: int, key: int)

  /** Before the first step: the input, zero counters, no pass begun. */
  function Initial(input: seq<int>): State {
    State(input, 0, 0, 0, -1, 0)
  }

  /** The state after step `s`: its snapshot and counters; `pick` starts a pass holding the
      picked element, `shift` moves the hole one place left, `insert` fills it. */
  function Next(st: State, s: Step): State {
    var t := st.(snapshot := s.snapshot, comparisons := s.comparisons, shifts := s.shifts);
    match s
    case Pick(i, b, _, _, _) => t.(current := i, hole := i, key := if i < |b| then b[i] else st.key)
    case Shift(j, _, _, _, _) => t.(hole := j)
    case Insert(_, _, _, _, _) => t.(hole := -1)
    case _ => t
  }

  /** The state left by `steps`. */
  function After(input: seq<int>, steps: seq<Step>): State {
    if steps == [] then Initial(input) else Next(After(input, steps[..|steps| - 1]), steps[|steps| - 1])
  }

  /** The effect of one step on the state before it. Between passes: `start` declares
      index 0 sorted, `pick` begins pass `current`+1 on an index of the array, and
      `complete` follows the last pass. In pass i: a comparison of the element left of the
      hole with the key counts one comparison; a shift copies that element, which must be
      strictly larger than the key, into the hole and counts one shift; `insert` writes
      the key into the hole, which is at the front or behind an element at most the key.
      Every step but `insert` and `complete` declares 0..i-1 sorted; those two declare
      0..i and every index. */
  predicate Follows(st: State, s: Step) {
    var a := st.snapshot;
    var same := s.snapshot == a && s.comparisons == st.comparisons && s.shifts == st.shifts;
    match s
    case Start(_, srt, _, _) =>
      same && st.hole == -1 && st.current == 0 && srt == [0]
    case Pick(i, _, srt, _, _) =>
      same && st.hole == -1 && i == st.current + 1 && i < |a| && srt == Range(0, i)
    case Compare(i, ix, b, srt, c, w) =>
      b == a && c == st.comparisons + 1 && w == st.shifts
      && i == st.current && 1 <= st.hole && ix == [st.hole - 1, i] && i < |a| && srt == Range(0, i)
    case Shift(j, b, srt, c, w) =>
      c == st.comparisons && w == st.shifts + 1
      && st.hole == j + 1 && j + 1 <= st.current < |a| && a[j] > st.key
      && b == a[j + 1 := a[j]] && srt == Range(0, st.current)
    case Insert(p, b, srt, c, w) =>
      c == st.comparisons && w == st.shifts
      && p == st.hole && 0 <= p <= st.current < |a| && (p == 0 || a[p - 1] <= st.key)
      && b == a[p := st.key] && srt == Range(0, st.current + 1)
    case Complete(_, srt, _, _) =>
      same && st.hole == -1 && st.current == (if |a| == 0 then 0 else |a| - 1) && srt == Range(0, |a|)
  }

  /** Every step is obtained from the state left by the steps before it. */
  predicate Replays(input: seq<int>, steps: seq<Step>) {
    steps == []
    || (Replays(input, steps[..|steps| - 1])
        && Follows(After(input, steps[..|steps| - 1]), steps[|steps| - 1]))
  }

  /** The array as it would be with the key written back into the hole. */
  function Virtual(st: State): seq<int> {
    if 0 <= st.hole < |st.snapshot| then st.snapshot[st.hole := st.key] else st.snapshot
  }

  // ---------------------------------------------------------------------------
  // Lemmas about traces
  // ---------------------------------------------------------------------------

  /** Appending a step that follows from the current state keeps the trace replayable. */
  lemma Push(input: seq<int>, steps: seq<Step>, s: Step)
    requires Replays(input, steps) && Follows(After(input, steps), s)
    ensures Replays(input, steps + [s]) && After(input, steps + [s]) == Next(After(input, steps), s)
  {
    assert (steps + [s])[..|steps|] == steps;
  }

  /** What a replayable trace conserves: the array with the key written back is a
      permutation of the input, from which exactly as many inversions have been removed as
      the shift counter says; the hole lies inside the array, at or before the pass index. */
  predicate Conserved(input: seq<int>, st: State) {
    |st.snapshot| == |input| && st.hole < |input| && (0 <= st.hole ==> st.hole <= st.current)
    && multiset(Virtual(st)) == multiset(input)
    && Inversions(Virtual(st)) + st.shifts == Inversions(input)
  }

  /** A shift is an exchange of the key with the larger neighbour to its left, so it
      removes one inversion from the array with the key written back. */
  lemma ShiftConserves(input: seq<int>, st: State, s: Step)
    requires Conserved(input, st) == true && s.Shift? && Follows(st, s)
    ensures Conserved(input, Next(st, s)) == true
  {
    var j := s.shifting;
    ShiftVirtual(st, s);
    AdjacentSwapInversions(Virtual(st), j);
  }

  /** With the key written back, a shift exchanges the key with its larger left neighbour. */
  lemma ShiftVirtual(st: State, s: Step)
    requires s.Shift? && Follows(st, s)
    ensures s.shifting + 1 < |Virtual(st)| && Virtual(st)[s.shifting] > Virtual(st)[s.shifting + 1]
    ensures Virtual(Next(st, s)) == SwapAt(Virtual(st), s.shifting, s.shifting + 1)
  {
    var a, j := st.snapshot, s.shifting;
    var v := a[j + 1 := st.key];
    assert Virtual(st) == v;
    assert Virtual(Next(st, s)) == s.snapshot[j := st.key] == SwapAt(v, j, j + 1);
  }

  /** A pick holds aside the element already in the hole. */
  lemma PickConserves(input: seq<int>, st: State, s: Step)
    requires Conserved(input, st) == true && s.Pick? && Follows(st, s)
    ensures Conserved(input, Next(st, s)) == true
  {
    var a := st.snapshot;
    assert Virtual(st) == a;
    assert Virtual(Next(st, s)) == a[s.current := a[s.current]] == a;
  }

  /** An insert writes the key into the hole, where the array with the key written back already has it. */
  lemma InsertConserves(input: seq<int>, st: State, s: Step)
    requires Conserved(input, st) == true && s.Insert? && Follows(st, s)
    ensures Conserved(input, Next(st, s)) == true
  {
    assert Virtual(Next(st, s)) == s.snapshot == Virtual(st);
  }

  /** Every step that follows the state conserves it. */
  lemma StepConserves(input: seq<int>, st: State, s: Step)
    requires Conserved(input, st) == true && Follows(st, s)
    ensures Conserved(input, Next(st, s)) == true
  {
    match s
    case Pick(_, _, _, _, _) => PickConserves(input, st, s);
    case Shift(_, _, _, _, _) => ShiftConserves(input, st, s);
    case Insert(_, _, _, _, _) => InsertConserves(input, st, s);
    case _ => assert Next(st, s) == st.(comparisons := s.comparisons);
  }

  /** Conservation along a replayable trace. */
  lemma {:induction false} ReplaysConserves(input: seq<int>, steps: seq<Step>)
    requires Replays(input, steps)
    ensures Conserved(input, After(input, steps)) == true
  {
    if steps != [] {
      var p := steps[..|steps| - 1];
      ReplaysConserves(input, p);
      StepConserves(input, After(input, p), steps[|steps| - 1]);
    }
  }

  /** Outside the shifting (`start`, `pick`, `insert`, `complete`) the key is not missing
      from the snapshot. */
  lemma Filled(st: State, s: Step)
    requires Follows(st, s) && !s.Compare? && !s.Shift?
    ensures Virtual(Next(st, s)) == s.snapshot
  {
    if s.Pick? {
      assert s.snapshot[s.current := s.snapshot[s.current]] == s.snapshot;
    }
  }

  /** Every snapshot taken outside the shifting is a permutation of the input. */
  lemma PermutesAt(input: seq<int>, steps: seq<Step>, k: nat)
    requires Replays(input, steps) && k < |steps| && !steps[k].Compare? && !steps[k].Shift?
    ensures multiset(steps[k].snapshot) == multiset(input)
  {
    ReplaysPrefix(input, steps, k + 1);
    var q := steps[..k + 1];
    ReplaysConserves(input, q);
    assert q[..k] == steps[..k] && q[k] == steps[k];
    var st := After(input, q[..k]);
    assert Follows(st, steps[k]);
    Filled(st, steps[k]);
  }

  /** A `shift` snapshot shows the shifted element twice, at j and j+1. */
  lemma ShiftDuplicates(input: seq<int>, steps: seq<Step>, k: nat)
    requires Replays(input, steps) && k < |steps| && steps[k].Shift?
    ensures steps[k].shifting + 1 < |steps[k].snapshot|
    ensures steps[k].snapshot[steps[k].shifting] == steps[k].snapshot[steps[k].shifting + 1]
  {
    ReplaysAt(input, steps, k);
    ShiftCopies(After(input, steps[..k]), steps[k]);
  }

  /** A shift leaves the copied element in both its old and its new place. */
  lemma ShiftCopies(st: State, s: Step)
    requires s.Shift? && Follows(st, s)
    ensures s.shifting + 1 < |s.snapshot| && s.snapshot[s.shifting] == s.snapshot[s.shifting + 1]
  {
  }

  /** Every step of a replayable trace follows from the state the steps before it leave. */
  lemma ReplaysAt(input: seq<int>, steps: seq<Step>, k: nat)
    requires Replays(input, steps) && k < |steps|
    ensures Follows(After(input, steps[..k]), steps[k])
  {
    ReplaysPrefix(input, steps, k + 1);
    var p := steps[..k + 1];
    assert p[..k] == steps[..k] && p[k] == steps[k];
  }

  lemma {:induction false} ReplaysPrefix(input: seq<int>, steps: seq<Step>, m: nat)
    requires Replays(input, steps) && m <= |steps|
    ensures Replays(input, steps[..m])
    decreases |steps|
  {
    if m < |steps| {
      var p := steps[..|steps| - 1];
      ReplaysPrefix(input, p, m);
      assert p[..m] == steps[..m];
    } else {
      assert steps[..m] == steps;
    }
  }

  /** No step shows a counter above a later step's. */
  lemma {:induction false} ReplaysCounters(input: seq<int>, steps: seq<Step>)
    requires Replays(input, steps)
    ensures forall k :: 0 <= k < |steps| ==>
      steps[k].comparisons <= After(input, steps).comparisons && steps[k].shifts <= After(input, steps).shifts
  {
    if steps != [] {
      var m := |steps| - 1;
      var p := steps[..m];
      ReplaysCounters(input, p);
      assert forall k :: 0 <= k < m ==> p[k] == steps[k];
      assert Follows(After(input, p), steps[m]);
    }
  }

  /** The counters never decrease along a replayable trace. */
  lemma CountersMonotone(input: seq<int>, steps: seq<Step>, k: nat, l: nat)
    requires Replays(input, steps) && k <= l < |steps|
    ensures steps[k].comparisons <= steps[l].comparisons && steps[k].shifts <= steps[l].shifts
  {
    ReplaysPrefix(input, steps, l + 1);
    var p := steps[..l + 1];
    ReplaysCounters(input, p);
    assert p[k] == steps[k] && p[l] == steps[l];
  }

  // ---------------------------------------------------------------------------
  // The generator
  // ---------------------------------------------------------------------------

  /** What an `insert` step shows: the declared prefix is sorted, the key sits directly
      behind an element at most it (or at the front), and every element after it in the
      prefix, each shifted past it, is strictly larger, so equal values keep their order. */
  predicate InsertOk(s: Step)
    requires s.Insert?
  {
    var b, p, n := s.snapshot, s.inserting, |s.sorted|;
    p < n <= |b| && NonDecreasingBetween(b, 0, n)
    && (forall k :: p < k < n ==> b[p] < b[k])
    && (0 < p ==> b[p - 1] <= b[p])
  }

  /** Every `insert` step of `steps` shows what `InsertOk` says. */
  predicate InsertsOk(steps: seq<Step>) {
    forall k :: 0 <= k < |steps| && steps[k].Insert? ==> InsertOk(steps[k])
  }

  /** `steps` starts with `steps0`. */
  predicate Extends(steps0: seq<Step>, steps: seq<Step>) {
    |steps0| <= |steps| && steps[..|steps0|] == steps0
  }

  /** The trace so far extends `steps0`, has only good `insert` steps, and replays to this
      array, these counters, this pass and this hole. */
  predicate Tracing(input: seq<int>, steps0: seq<Step>, steps: seq<Step>, a: seq<int>,
                    cmp: nat, shf: nat, cur: int, hole: int) {
    Replays(input, steps) && InsertsOk(steps) && Extends(steps0, steps)
    && var st := After(input, steps);
    st.snapshot == a && st.comparisons == cmp && st.shifts == shf && st.current == cur && st.hole == hole
  }

  /** Appending a step that follows from the current state. */
  lemma Record(input: seq<int>, steps0: seq<Step>, steps: seq<Step>, s: Step)
    requires Replays(input, steps) && InsertsOk(steps) && Extends(steps0, steps)
    requires Follows(After(input, steps), s) && (s.Insert? ==> InsertOk(s))
    ensures Replays(input, steps + [s]) && After(input, steps + [s]) == Next(After(input, steps), s)
    ensures InsertsOk(steps + [s]) && Extends(steps0, steps + [s])
  {
    Push(input, steps, s);
    ExtendsAppend(steps0, steps, s);
    InsertsOkAppend(steps, s);
  }

  lemma ExtendsAppend(steps0: seq<Step>, steps: seq<Step>, s: Step)
    requires Extends(steps0, steps)
    ensures Extends(steps0, steps + [s])
  {
    assert (steps + [s])[..|steps0|] == steps[..|steps0|];
  }

  lemma InsertsOkAppend(steps: seq<Step>, s: Step)
    requires InsertsOk(steps) && (s.Insert? ==> InsertOk(s))
    ensures InsertsOk(steps + [s])
  {
    var t := steps + [s];
    forall k | 0 <= k < |t| && t[k].Insert? ensures InsertOk(t[k]) {
      if k < |steps| {
        assert t[k] == steps[k];
      }
    }
  }

  /** Recording `pick` for pass i holds a[i] aside with the hole at i. */
  lemma RecordPick(input: seq<int>, steps0: seq<Step>, steps: seq<Step>, a: seq<int>, i: nat, cmp: nat, shf: nat)
    requires Tracing(input, steps0, steps, a, cmp, shf, i - 1, -1) == true && 0 < i < |a|
    ensures Tracing(input, steps0, steps + [Pick(i, a, Range(0, i), cmp, shf)], a, cmp, shf, i, i) == true
    ensures After(input, steps + [Pick(i, a, Range(0, i), cmp, shf)]).key == a[i]
  {
    Record(input, steps0, steps, Pick(i, a, Range(0, i), cmp, shf));
  }

  /** Recording the comparison of j, left of the hole, with the key counts one comparison. */
  lemma RecordCompare(input: seq<int>, steps0: seq<Step>, steps: seq<Step>, a: seq<int>,
                      i: nat, j: nat, key: int, cmp: nat, shf: nat)
    requires Tracing(input, steps0, steps, a, cmp, shf, i, j + 1) == true && After(input, steps).key == key
    requires j < i < |a|
    ensures Tracing(input, steps0, steps + [Compare(i, [j, i], a, Range(0, i), cmp + 1, shf)],
                    a, cmp + 1, shf, i, j + 1) == true
    ensures After(input, steps + [Compare(i, [j, i], a, Range(0, i), cmp + 1, shf)]).key == key
  {
    Record(input, steps0, steps, Compare(i, [j, i], a, Range(0, i), cmp + 1, shf));
  }

  /** Recording the shift of a[j], larger than the key, into the hole at j+1 moves the hole to j. */
  lemma RecordShift(input: seq<int>, steps0: seq<Step>, steps: seq<Step>, a: seq<int>,
                    i: nat, j: nat, key: int, cmp: nat, shf: nat)
    requires Tracing(input, steps0, steps, a, cmp, shf, i, j + 1) == true && After(input, steps).key == key
    requires j < i < |a| && a[j] > key
    ensures Tracing(input, steps0, steps + [Shift(j, a[j + 1 := a[j]], Range(0, i), cmp, shf + 1)],
                    a[j + 1 := a[j]], cmp, shf + 1, i, j) == true
    ensures After(input, steps + [Shift(j, a[j + 1 := a[j]], Range(0, i), cmp, shf + 1)]).key == key
  {
    Record(input, steps0, steps, Shift(j, a[j + 1 := a[j]], Range(0, i), cmp, shf + 1));
  }

  /** What the hole at j+1 is ready for in pass i: the key belongs there, so writing it
      leaves 0..i sorted, behind an element at most it and before the larger ones. */
  predicate Insertable(a: seq<int>, i: nat, j: int, key: int) {
    -1 <= j < i < |a| && (0 <= j ==> a[j] <= key)
    && NonDecreasingBetween(a[j + 1 := key], 0, i + 1)
    && (forall k :: j + 1 < k <= i ==> key < a[k])
  }

  /** Recording the `insert` of the key at the hole j+1 ends pass i with 0..i declared sorted. */
  lemma RecordInsert(input: seq<int>, steps0: seq<Step>, steps: seq<Step>, a: seq<int>,
                     i: nat, j: int, key: int, cmp: nat, shf: nat)
    requires Tracing(input, steps0, steps, a, cmp, shf, i, j + 1) == true && After(input, steps).key == key
    requires Insertable(a, i, j, key) == true
    ensures Tracing(input, steps0, steps + [Insert(j + 1, a[j + 1 := key], Range(0, i + 1), cmp, shf)],
                    a[j + 1 := key], cmp, shf, i, -1) == true
  {
    var s := Insert(j + 1, a[j + 1 := key], Range(0, i + 1), cmp, shf);
    InsertedOk(a, i, j, key, cmp, shf);
    Record(input, steps0, steps, s);
  }

  /** The `insert` step ending pass i shows what `InsertOk` says. */
  lemma InsertedOk(a: seq<int>, i: nat, j: int, key: int, cmp: nat, shf: nat)
    requires Insertable(a, i, j, key) == true
    ensures InsertOk(Insert(j + 1, a[j + 1 := key], Range(0, i + 1), cmp, shf))
  {
    RangeAt(0, i + 1);
  }

  /** The array during pass i, compared with the array `before` at the pass's start, once
      the shifts have reached position j+1: 0..j+1 is untouched, j+2..i holds what was at
      j+1..i-1, everything after i is untouched, and every shifted element is larger than
      the key. */
  predicate Moving(before: seq<int>, a: seq<int>, i: nat, j: int, key: int) {
    |a| == |before| && -1 <= j < i < |a|
    && (forall k :: 0 <= k <= j + 1 ==> a[k] == before[k])
    && (forall k :: j + 2 <= k <= i ==> a[k] == before[k - 1])
    && (forall k :: i < k < |a| ==> a[k] == before[k])
    && (forall k :: j + 1 <= k < i ==> key < before[k])
  }

  /** Copying a[j], larger than the key, to j+1 moves the hole to j. */
  lemma ShiftMoves(before: seq<int>, a: seq<int>, i: nat, j: nat, key: int)
    requires Moving(before, a, i, j, key) == true && a[j] > key
    ensures Moving(before, a[j + 1 := a[j]], i, j - 1, key) == true
  {
  }

  /** One round of the shifting loop: count and record the comparison of j with the key
      at i and, when a[j] is larger, copy it to j+1 and record the shift. */
  method ShiftStep(a: array<int>, i: nat, j: nat, key: int, ghost before: seq<int>, ghost input: seq<int>,
                   ghost steps0: seq<Step>, steps1: seq<Step>, cmp0: nat, shf0: nat)
    returns (moved: bool, steps: seq<Step>, cmp: nat, shf: nat)
    requires j < i && Moving(before, a[..], i, j, key) == true
    requires Tracing(input, steps0, steps1, a[..], cmp0, shf0, i, j + 1) == true && After(input, steps1).key == key
    modifies a
    ensures cmp == cmp0 + 1 && After(input, steps).key == key
    ensures moved ==> shf == shf0 + 1 && Moving(before, a[..], i, j - 1, key) == true
    ensures moved ==> Tracing(input, steps0, steps, a[..], cmp, shf, i, j) == true
    ensures !moved ==> shf == shf0 && before[j] <= key && a[..] == old(a[..])
    ensures !moved ==> Tracing(input, steps0, steps, a[..], cmp, shf, i, j + 1) == true
  {
    cmp, shf := cmp0 + 1, shf0;
    RecordCompare(input, steps0, steps1, a[..], i, j, key, cmp0, shf);
    steps := steps1 + [Compare(i, [j, i], a[..], Range(0, i), cmp, shf)];
    moved := a[j] > key;
    if moved {
      ghost var b := a[..];
      RecordShift(input, steps0, steps, b, i, j, key, cmp, shf);
      ShiftMoves(before, b, i, j, key);
      shf := shf + 1;
      a[j + 1] := a[j];
      assert a[..] == b[j + 1 := b[j]];
      steps := steps + [Shift(j, a[..], Range(0, i), cmp, shf)];
    }
  }

  /** `while (j >= 0) { ... if (tempArray[j] > key) { ... j-- } else break }`: the hole
      moves left past every element larger than the key and stops behind the first one at
      most it, or at the front. Each round compares once; each but a final break shifts. */
  method Shifting(a: array<int>, i: nat, key: int, ghost input: seq<int>, ghost steps0: seq<Step>,
                  steps1: seq<Step>, cmp0: nat, shf0: nat)
    returns (j: int, steps: seq<Step>, cmp: nat, shf: nat)
    requires 0 < i < a.Length && a[i] == key
    requires Tracing(input, steps0, steps1, a[..], cmp0, shf0, i, i) == true && After(input, steps1).key == key
    modifies a
    ensures Moving(old(a[..]), a[..], i, j, key) == true && (0 <= j ==> old(a[j]) <= key)
    ensures Tracing(input, steps0, steps, a[..], cmp, shf, i, j + 1) == true && After(input, steps).key == key
    ensures shf == shf0 + (i - 1 - j) && cmp == shf + (if 0 <= j then 1 else 0) - shf0 + cmp0
  {
    ghost var before := a[..];
    j, steps, cmp, shf := i - 1, steps1, cmp0, shf0;
    while j >= 0
      invariant Moving(before, a[..], i, j, key) == true
      invariant Tracing(input, steps0, steps, a[..], cmp, shf, i, j + 1) == true && After(input, steps).key == key
      invariant shf == shf0 + (i - 1 - j) && cmp == cmp0 + (i - 1 - j)
    {
      var moved;
      moved, steps, cmp, shf := ShiftStep(a, i, j, key, before, input, steps0, steps, cmp, shf);
      if !moved {
        return;
      }
      j := j - 1;
    }
  }

  /** Where the shifting stopped the key belongs. */
  lemma Inserted(before: seq<int>, mid: seq<int>, i: nat, j: int, key: int)
    requires NonDecreasingBetween(before, 0, i) && Moving(before, mid, i, j, key) == true
    requires 0 <= j ==> before[j] <= key
    ensures Insertable(mid, i, j, key) == true
  {
    var b := mid[j + 1 := key];
    forall x, y | 0 <= x < y < i + 1 ensures b[x] <= b[y] {
      if y <= j {
      } else if x <= j && y == j + 1 {
      } else if x <= j {
        assert b[y] == before[y - 1];
      } else if x == j + 1 {
        assert b[y] == before[y - 1];
      } else {
        assert b[x] == before[x - 1] && b[y] == before[y - 1];
      }
    }
  }

  /** What pass i does to the array: the key a[i] moves to p, 0..i becomes sorted, the key
      lands behind an element at most it and before the strictly larger ones. */
  predicate PassEffect(before: seq<int>, a: seq<int>, i: nat, p: nat) {
    p <= i < |a| && i < |before| && a[p] == before[i] && NonDecreasingBetween(a, 0, i + 1)
    && (forall k :: p < k <= i ==> a[p] < a[k])
    && (0 < p ==> a[p - 1] <= a[p])
  }

  /** One pass `for (let i = ...)` body: record the pick of `key = tempArray[i]`, shift,
      write the key at p = j+1 and record the insert. The pass counts one shift per
      element larger than the key and one comparison more than that unless the key went
      to the front, where the loop ran out rather than broke. */
  method Pass(a: array<int>, i: nat, ghost input: seq<int>, ghost steps0: seq<Step>,
              steps1: seq<Step>, cmp0: nat, shf0: nat)
    returns (p: nat, steps: seq<Step>, cmp: nat, shf: nat)
    requires 0 < i < a.Length && NonDecreasingBetween(a[..], 0, i)
    requires Tracing(input, steps0, steps1, a[..], cmp0, shf0, i - 1, -1) == true
    modifies a
    ensures PassEffect(old(a[..]), a[..], i, p) == true
    ensures Tracing(input, steps0, steps, a[..], cmp, shf, i, -1) == true
    ensures shf == shf0 + (i - p) && cmp == cmp0 + (i - p) + (if 0 < p then 1 else 0)
  {
    ghost var before := a[..];
    var key := a[i];
    RecordPick(input, steps0, steps1, a[..], i, cmp0, shf0);
    steps := steps1 + [Pick(i, a[..], Range(0, i), cmp0, shf0)];
    var j;
    j, steps, cmp, shf := Shifting(a, i, key, input, steps0, steps, cmp0, shf0);
    ghost var mid, steps2 := a[..], steps;
    a[j + 1] := key;
    p := j + 1;
    steps := steps + [Insert(p, a[..], Range(0, i + 1), cmp, shf)];
    Completed(input, steps0, steps2, steps, before, mid, a[..], i, j, key, cmp, shf, p);
  }

  /** Writing the key into the hole j+1 left by the shifts, and recording the `insert`,
      completes pass i. */
  lemma Completed(input: seq<int>, steps0: seq<Step>, steps: seq<Step>, steps': seq<Step>,
                  before: seq<int>, mid: seq<int>, a: seq<int>, i: nat, j: int, key: int,
                  cmp: nat, shf: nat, p: nat)
    requires NonDecreasingBetween(before, 0, i) && i < |before| && before[i] == key
    requires Moving(before, mid, i, j, key) == true && (0 <= j ==> before[j] <= key)
    requires Tracing(input, steps0, steps, mid, cmp, shf, i, j + 1) == true && After(input, steps).key == key
    requires p == j + 1 && a == mid[p := key] && steps' == steps + [Insert(p, a, Range(0, i + 1), cmp, shf)]
    ensures PassEffect(before, a, i, p) == true
    ensures Tracing(input, steps0, steps', a, cmp, shf, i, -1) == true
  {
    Inserted(before, mid, i, j, key);
    RecordInsert(input, steps0, steps, mid, i, j, key, cmp, shf);
  }

  /** `generateSteps`: a `start` step declaring index 0 sorted, passes i = 1..n-1, and a
      `complete` step. */
  method GenerateSteps(arr: seq<int>) returns (steps: seq<Step>)
    ensures Replays(arr, steps) && steps != [] && steps[0] == Start(arr, [0], 0, 0)
    ensures steps[|steps| - 1].Complete?
    ensures NonDecreasing(steps[|steps| - 1].snapshot)
    ensures InsertsOk(steps)
  {
    var a := new int[|arr|](k requires 0 <= k < |arr| => arr[k]);
    assert a[..] == arr;
    var n := a.Length;
    var cmp, shf := 0, 0;
    var start := Start(a[..], [0], cmp, shf);
    Record(arr, [], [], start);
    steps := [start];
    ghost var first := steps;
    assert steps[..1] == first;
    var i := 1;
    while i < n
      invariant 1 <= i <= (if n == 0 then 1 else n)
      invariant NonDecreasingBetween(a[..], 0, i)
      invariant Tracing(arr, first, steps, a[..], cmp, shf, i - 1, -1) == true
    {
      var p;
      p, steps, cmp, shf := Pass(a, i, arr, first, steps, cmp, shf);
      i := i + 1;
    }
    var done := Complete(a[..], Range(0, n), cmp, shf);
    Record(arr, first, steps, done);
    steps := steps + [done];
    assert steps[0] == first[0];
  }

  /** The final snapshot is the input sorted, and the shift counter equals the number of
      inversions of the input: each shift removes one. */
  lemma GeneratedSorts(arr: seq<int>, steps: seq<Step>)
    requires Replays(arr, steps) && steps != [] && steps[|steps| - 1].Complete?
    requires NonDecreasing(steps[|steps| - 1].snapshot)
    ensures multiset(steps[|steps| - 1].snapshot) == multiset(arr)
    ensures steps[|steps| - 1].shifts == Inversions(arr)
  {
    ReplaysConserves(arr, steps);
    ReplaysConserves(arr, steps[..|steps| - 1]);
    NonDecreasingNoInversions(steps[|steps| - 1].snapshot);
  }

  // ---------------------------------------------------------------------------
  // Playback
  // ---------------------------------------------------------------------------

  /** What the page displays: the bars, both counters, the picked index `current` and the
      inserted index `inserting` (-1 for none), the compared pair and the `sorted` list. */
  datatype View = View(values: seq<int>, comparisons: nat, shifts: nat, current: int,
                       comparing: seq<nat>, inserting: int, sorted: seq<nat>)

  /** The display before any step: `generateArray` declares index 0 sorted. */
  function Shown(input: seq<int>): View {
    View(input, 0, 0, -1, [], -1, [0])
  }

  /** One timer tick: show the step's snapshot and counters and replace `sorted` by the
      step's list; `pick` and `compare` show the picked index (and the compared pair),
      `insert` the inserted index, `shift` only clears the pair and the inserted index,
      and `start` and `complete` clear all three highlights. */
  function Apply(v: View, s: Step): View {
    var w := v.(values := s.snapshot, comparisons := s.comparisons, shifts := s.shifts, sorted := s.sorted);
    match s
    case Start(_, _, _, _) => w.(current := -1, comparing := [], inserting := -1)
    case Pick(i, _, _, _, _) => w.(current := i, comparing := [], inserting := -1)
    case Compare(i, ix, _, _, _, _) => w.(current := i, comparing := ix, inserting := -1)
    case Shift(_, _, _, _, _) => w.(comparing := [], inserting := -1)
    case Insert(p, _, _, _, _) => w.(current := -1, comparing := [], inserting := p)
    case Complete(_, _, _, _) => w.(current := -1, comparing := [], inserting := -1)
  }

  /** One tick shows the step's snapshot and counters and sets the highlights by the step's kind. */
  lemma ApplyShows(v: View, s: Step)
    ensures Apply(v, s).values == s.snapshot
    ensures Apply(v, s).comparisons == s.comparisons && Apply(v, s).shifts == s.shifts
    ensures Apply(v, s).sorted == s.sorted
    ensures Apply(v, s).current == if s.Pick? || s.Compare? then s.current as int else if s.Shift? then v.current else -1
    ensures Apply(v, s).comparing == (if s.Compare? then s.comparing else [])
    ensures Apply(v, s).inserting == if s.Insert? then s.inserting as int else -1
  {
  }

  /** The display after ticking through `steps` from a freshly generated array. */
  function Played(input: seq<int>, steps: seq<Step>): View {
    if steps == [] then Shown(input)
    else Apply(Played(input, steps[..|steps| - 1]), steps[|steps| - 1])
  }

  /** Ticking through a prefix of the trace shows the state the trace has reached, and the
      `sorted` list of the last step played: it is replaced, not accumulated. */
  lemma {:induction false} PlayedShows(input: seq<int>, steps: seq<Step>)
    ensures Played(input, steps).values == After(input, steps).snapshot
    ensures Played(input, steps).comparisons == After(input, steps).comparisons
    ensures Played(input, steps).shifts == After(input, steps).shifts
    ensures Played(input, steps).sorted == if steps == [] then [0] else steps[|steps| - 1].sorted
  {
    if steps != [] {
      PlayedShows(input, steps[..|steps| - 1]);
    }
  }

  /** Along a replayable trace (before `complete`) the `sorted` list is always a prefix of
      the indices: 0..i-1 while pass i shifts, 0..i between passes. */
  lemma ShownSorted(input: seq<int>, steps: seq<Step>)
    requires Replays(input, steps) && steps != [] && !steps[|steps| - 1].Complete?
    ensures var st := After(input, steps);
      Played(input, steps).sorted == Range(0, if 0 <= st.hole then st.current else st.current + 1)
  {
    PlayedShows(input, steps);
    var st := After(input, steps[..|steps| - 1]);
    assert Follows(st, steps[|steps| - 1]);
    if steps[|steps| - 1].Start? {
      assert Range(0, 1) == [0];
    }
  }

  /** Playing one more step applies that step to the display. */
  lemma PlayedNext(input: seq<int>, steps: seq<Step>, c: nat)
    requires c < |steps|
    ensures Played(input, steps[..c + 1]) == Apply(Played(input, steps[..c]), steps[c])
  {
    assert steps[..c + 1][..c] == steps[..c];
  }

  /** The trace of a freshly generated array, with what the controller relies on:
      nothing of it has been played yet, and it ends with a sorted `complete` step. */
  method Fresh(arr: seq<int>) returns (steps: seq<Step>)
    ensures Played(arr, steps[..0]) == Shown(arr)
    ensures Replays(arr, steps) && steps != [] && steps[|steps| - 1].Complete?
    ensures NonDecreasing(steps[|steps| - 1].snapshot)
  {
    steps := GenerateSteps(arr);
    assert steps[..0] == [];
  }

  /** The page's controller: the generated trace, how far it has been played, the speed
      slider, and in `shown` the seven state variables the page renders (`array`,
      `comparisons`, `shifts`, `current`, `comparing`, `inserting`, `sorted`). */
  class Player {
    var shown: View
    var isPlaying: bool
    var currentStep: nat
    var speed: int
    var steps: seq<Step>
    /** The array the trace was generated from. */
    ghost var input: seq<int>

    /** The display is the result of playing the first `currentStep` steps of a trace
        generated from `input`; that trace ends with a sorted `complete` step. */
    ghost predicate Valid()
      reads this
    {
      currentStep <= |steps| && shown == Played(input, steps[..currentStep])
      && Replays(input, steps) && steps != [] && steps[|steps| - 1].Complete?
      && NonDecreasing(steps[|steps| - 1].snapshot)
      && Playback.MinSpeed <= speed <= Playback.MaxSpeed
    }

    /** Mounting the page: `generateArray` with the initial speed 150. */
    constructor (arr: seq<int>)
      ensures Valid() && input == arr && currentStep == 0 && !isPlaying && speed == 150
      ensures shown == Shown(arr)
    {
      var s := Fresh(arr);
      shown, isPlaying, currentStep, speed := Shown(arr), false, 0, 150;
      steps, input := s, arr;
    }

    /** `generateArray` on the freshly drawn array `next`: show it unsorted with the
        counters and highlights cleared and index 0 declared sorted, stop, and generate its
        trace; the speed is kept. */
    method Load(next: seq<int>)
      requires Playback.MinSpeed <= speed <= Playback.MaxSpeed
      modifies this
      ensures Valid() && input == next && currentStep == 0 && !isPlaying && speed == old(speed)
      ensures shown == Shown(next)
    {
      var s := Fresh(next);
      shown, currentStep, isPlaying := Shown(next), 0, false;
      steps, input := s, next;
    }

    /** One firing of the timer, which is armed only while playing and not finished:
        apply `steps[currentStep]` to the display and advance by one. */
    method Tick()
      requires Valid() && isPlaying && currentStep < |steps|
      modifies this
      ensures Valid() && currentStep == old(currentStep) + 1
      ensures shown == Apply(old(shown), steps[old(currentStep)])
      ensures steps == old(steps) && input == old(input)
      ensures isPlaying && speed == old(speed)
    {
      var k := currentStep;
      var v := Apply(shown, steps[k]);
      PlayedNext(input, steps, k);
      assert v == Played(input, steps[..k + 1]);
      shown, currentStep := v, k + 1;
    }

    /** The play/pause button: once the trace is finished it regenerates from `next`
        (which leaves playback stopped); otherwise it flips between playing and paused. */
    method TogglePlay(next: seq<int>)
      requires Valid()
      modifies this
      ensures Valid() && speed == old(speed)
      ensures old(currentStep) >= |old(steps)| ==>
        input == next && currentStep == 0 && !isPlaying && shown == Shown(next)
      ensures old(currentStep) < |old(steps)| ==>
        isPlaying == !old(isPlaying) && currentStep == old(currentStep)
        && steps == old(steps) && input == old(input) && shown == old(shown)
    {
      if currentStep >= |steps| {
        Load(next);
      } else {
        isPlaying := !isPlaying;
      }
    }

    /** The reset button: `generateArray` on `next`. */
    method Reset(next: seq<int>)
      requires Valid()
      modifies this
      ensures Valid() && input == next && currentStep == 0 && !isPlaying && speed == old(speed)
      ensures shown == Shown(next)
    {
      Load(next);
    }

    /** The speed slider, whose range is 1..1000. */
    method SetSpeed(v: int)
      requires Valid() && Playback.MinSpeed <= v <= Playback.MaxSpeed
      modifies this
      ensures Valid() && speed == v
      ensures shown == old(shown) && steps == old(steps) && input == old(input)
      ensures currentStep == old(currentStep) && isPlaying == old(isPlaying)
    {
      speed := v;
    }

    /** Once every step has been played the bars show the input sorted, every index is
        declared sorted, nothing is highlighted, and the shift counter shows the number of
        inversions of the input. */
    lemma PlayedOut()
      requires Valid() && currentStep == |steps|
      ensures NonDecreasing(shown.values) && multiset(shown.values) == multiset(input)
      ensures shown.sorted == Range(0, |input|) && shown.shifts == Inversions(input)
      ensures shown.current == -1 && shown.comparing == [] && shown.inserting == -1
    {
      assert steps[..currentStep] == steps;
      PlayedShows(input, steps);
      GeneratedSorts(input, steps);
      ReplaysConserves(input, steps);
      assert Follows(After(input, steps[..|steps| - 1]), steps[|steps| - 1]);
    }
  }
}
