# SortVisualizer trace generators and playback, in Dafny

SortVisualizer is a React application with one page per sorting algorithm: bubble, quick,
merge, heap, insertion and selection sort. Each page works in two stages:

- **Trace generation.** `generateSteps` copies the input array into `tempArray` and sorts the
  copy in place. For every comparison, swap, shift, write and milestone it appends a step
  record. A record holds the step's `type`, the indices involved, a snapshot of the whole
  array and the running counters.
- **Playback.** A timer plays the trace back one step per tick. Play/pause, reset and a speed
  slider control it.

This project models both stages for all six pages. There is one module per page:
`BubbleSort`, `QuickSort`, `MergeSort`, `HeapSort`, `InsertionSort` and `SelectionSort`.
They share two modules:

- `SortSpec`: sortedness, swaps, index ranges, inversion counts and multiset facts;
- `Playback`: the speed slider range and the timer delay.

Every page module follows the same layout:

- **Steps.** A `Step` datatype has one constructor per step `type`, and a `State` records
  what the generator has reached: array, counters, and pass or hole where relevant.
- **Replaying.** `Follows(st, s)` says what step `s` may record after state `st`: which
  indices, which snapshot and which counter values the source computes at that point.
  `Replays(input, steps)` says every step of a trace follows from the state the steps
  before it leave.
- **Generation.** `generateSteps` and its inner functions are methods working on an
  `array<int>`, with the source's loops, recursion and counters. Each method is specified by
  predicates on the array before and after (sorted, partitioned, merged, heap-ordered) and
  by `Replays` for the steps it appends.
- **Trace lemmas.** These cover the whole trace: every snapshot is a permutation of the
  input, the counters never go down, and the final counts are the closed forms the
  algorithm promises.
- **Playback.** `Apply(view, step)` is one tick applied to the displayed state. `Played`
  folds it over a trace prefix. The class `Player` holds the page's state: the displayed
  `shown`, `isPlaying`, `currentStep`, `speed` and `steps`. Its invariant `Valid()` says the
  display is exactly `Played(input, steps[..currentStep])` for a trace generated from
  `input`.

The input array is a parameter of the constructor and of every regeneration, standing in for
the random draw. Because the model works on a copy, the caller's array is never modified.

## Model

| member | source | states |
|---|---|---|
| SortSpec.SwapAt | src/pages/BubbleSort.tsx:49 | the destructuring swap exchanges exactly positions i and j, keeps every other position and the multiset |
| SortSpec.RangeAt | src/pages/InsertionSort.tsx:55 | `Array.from({length: hi-lo}, (_, idx) => lo + idx)` has hi-lo elements, the k-th being lo+k |
| SortSpec.CountdownCounts | src/pages/HeapSort.tsx:104-121 | the marks n-1 down to 1 name each index of 1..n-1 exactly once and nothing else |
| SortSpec.AdjacentSwapInversions | src/pages/BubbleSort.tsx:47-49 | exchanging neighbours that are strictly out of order removes exactly one inversion |
| SortSpec.NonDecreasingNoInversions | src/pages/BubbleSort.tsx:67-73 | a sorted array has no inversions, which is what pins the final swap count |
| SortSpec.CountBelowAdjacentSwap | src/pages/BubbleSort.tsx:49 | exchanging two neighbours does not change how many elements lie below a value |
| SortSpec.SegmentPermutes | src/pages/QuickSort.tsx:46-105 | a permutation that leaves everything outside lo..hi-1 in place permutes lo..hi-1 |
| SortSpec.MultisetBelow | src/pages/QuickSort.tsx:41-42 | a strict upper bound on a range carries over to any permutation of that range |
| SortSpec.MultisetAtLeast | src/pages/QuickSort.tsx:41-42 | a lower bound on a range carries over to any permutation of that range |
| SortSpec.MultisetAtMost | src/pages/HeapSort.tsx:104-123 | an upper bound on a range carries over to any permutation of that range, as re-heapifying 0..i-1 keeps it at most the extracted maximum |
| Playback.Delay | src/pages/BubbleSort.tsx:104 | on the slider's range 1..1000 the delay `1100 - speed` stays within 100..1099 ms |
| BubbleSort.Exchange | src/pages/BubbleSort.tsx:49 | the new array is the old one with j and j+1 exchanged |
| BubbleSort.CompareNeighbours | src/pages/BubbleSort.tsx:38-57 | records a `compare` and, only when a[j] > a[j+1] strictly, swaps the pair and records a `swap`; counts one comparison and that swap |
| BubbleSort.InnerStep | src/pages/BubbleSort.tsx:37-58 | one inner iteration keeps the trace replayable, leaves n-i..n-1 alone and moves the maximum of a[..j+2] to j+1 |
| BubbleSort.Pass | src/pages/BubbleSort.tsx:37-58 | pass i compares j = 0..n-i-2 in order, carries the maximum of a[..n-i] to n-i-1 and leaves n-i..n-1 as it was, extending a replayable trace |
| BubbleSort.PassDone | src/pages/BubbleSort.tsx:59-65 | the pass and its `sorted` step for n-i-1 re-establish the outer loop's invariant: marked positions hold their final values |
| BubbleSort.OuterPass | src/pages/BubbleSort.tsx:36-66 | pass i and its `sorted` step extend the sorted suffix, each element of it at least everything before it, to n-i-1..n-1; marked positions are final and never compared again |
| BubbleSort.OuterLoop | src/pages/BubbleSort.tsx:36-66 | all n-1 passes establish the outer invariant for n-1 rounds |
| BubbleSort.Finished | src/pages/BubbleSort.tsx:67-73 | the final `sorted` [0] step completes a trace with every fact `GenerateSteps` promises |
| BubbleSort.GenerateSteps | src/pages/BubbleSort.tsx:30-76 | the trace replays from the input and ends in a `sorted` step whose snapshot is a sorted permutation of the input; it has n(n-1)/2 comparisons and exactly the input's inversions as swaps; the compared indices are exactly those of the n-1 passes, and the marks are n-1, …, 0 |
| BubbleSort.ReplaysPermutes | src/pages/BubbleSort.tsx:38-73 | every snapshot of a replayable trace is a permutation of the input with its length, and each step names one or two indices |
| BubbleSort.ReplaysCounters | src/pages/BubbleSort.tsx:38-73 | no step shows a counter above the final one, and the final comparison count is the number of `compare` steps |
| BubbleSort.CountersMonotone | src/pages/BubbleSort.tsx:38-73 | both counters never decrease from one step to a later one |
| BubbleSort.SwapsAreInversions | src/pages/BubbleSort.tsx:47-57 | a replayable trace that ends sorted has swapped exactly the input's inversions, so equal elements never cross |
| BubbleSort.PassesLength | src/pages/BubbleSort.tsx:36-37 | after i passes, i(2n-i-1)/2 pairs have been compared |
| BubbleSort.PassesTotal | src/pages/BubbleSort.tsx:36-45 | the n-1 passes compare n(n-1)/2 pairs in total |
| BubbleSort.MarksCoverAll | src/pages/BubbleSort.tsx:59-73 | for a non-empty array the `sorted` marks name every index exactly once |
| BubbleSort.PlayedShows | src/pages/BubbleSort.tsx:86-101 | after a played prefix the display shows that prefix's snapshot and counters, the accumulated marks, and the last step's indices as `comparing` or `swapping` |
| BubbleSort.ApplyShows | src/pages/BubbleSort.tsx:86-101 | a tick shows the step's snapshot and counters, appends a `sorted` step's marks, and highlights exactly the compared or swapped pair |
| BubbleSort.PlayedNext | src/pages/BubbleSort.tsx:86-103 | playing one more step is applying that step to the display |
| BubbleSort.Fresh | src/pages/BubbleSort.tsx:17-28 | a fresh trace shows the unsorted input with counters and highlights cleared and ends sorted with every index marked |
| BubbleSort.Player.constructor | src/pages/BubbleSort.tsx:5-16 | mounting shows the input unsorted, stopped, at step 0, with speed 100 |
| BubbleSort.Player.Load | src/pages/BubbleSort.tsx:17-28 | `generateArray` shows the new input with every count and highlight cleared, stops, rewinds and regenerates; the speed is kept |
| BubbleSort.Player.Tick | src/pages/BubbleSort.tsx:83-103 | only while playing and unfinished: applies `steps[currentStep]` to the display and advances by one, keeping `Valid` |
| BubbleSort.Player.TogglePlay | src/pages/BubbleSort.tsx:109-115 | when finished, regenerates and stays stopped; otherwise flips `isPlaying` and changes nothing else |
| BubbleSort.Player.Reset | src/pages/BubbleSort.tsx:117-119 | regenerates from the new input, stopped at step 0 |
| BubbleSort.Player.SetSpeed | src/pages/BubbleSort.tsx:167-171 | sets the speed within 1..1000 and changes nothing else |
| BubbleSort.Player.PlayedOut | src/pages/BubbleSort.tsx:83-103 | after the last tick the bars show the input sorted and every index has been marked exactly once |
| QuickSort.Exchange | src/pages/QuickSort.tsx:73 | the new array is the old one with the two positions exchanged |
| QuickSort.ComparePivot | src/pages/QuickSort.tsx:59-83 | records the `compare` [j, high]; when a[j] is below the pivot advances i and, only if i != j, swaps, counts and records the swap |
| QuickSort.LomutoStep | src/pages/QuickSort.tsx:58-84 | one loop iteration keeps low..i below the pivot and i+1..j at least it, and keeps the trace replayable |
| QuickSort.LomutoArray | src/pages/QuickSort.tsx:69-83 | the array part of the loop invariant survives the loop body at j |
| QuickSort.Scan | src/pages/QuickSort.tsx:56-84 | the loop over j = low..high-1 ends with low..i strictly below the pivot and i+1..high-1 at least it |
| QuickSort.PlacePivot | src/pages/QuickSort.tsx:86-105 | the final swap of i+1 with high is always counted and recorded, followed by `sorted` [i+1] |
| QuickSort.PlacedArray | src/pages/QuickSort.tsx:86-87 | placing the pivot at i+1 partitions low..high around it |
| QuickSort.Partition | src/pages/QuickSort.tsx:46-105 | returns p in low..high holding the old a[high]: low..p-1 strictly below it, p+1..high at least it; only low..high is permuted; the trace gains `pivot`, `compare` steps for low..high-1 in order, the pivot swap and `sorted` [p] |
| QuickSort.PartitionCompares | src/pages/QuickSort.tsx:58-67 | each partition counts exactly high-low comparisons |
| QuickSort.SortNothing | src/pages/QuickSort.tsx:39 | a range of at most one element records nothing and changes nothing |
| QuickSort.SortedAround | src/pages/QuickSort.tsx:40-42 | partitioning at p and sorting both sides sorts low..high and permutes only that range |
| QuickSort.Sort | src/pages/QuickSort.tsx:38-44 | `quickSort(low, high)` sorts low..high and permutes that range and nothing else, extending a replayable trace; a range of two or more elements opens with the `pivot` step choosing high, and the `sorted` marks it appends lie in low..high and come pivot first, then the left part's (all below the pivot), then the right part's (all above it) |
| QuickSort.SortSides | src/pages/QuickSort.tsx:40-42 | after `partition` places the pivot at p, sorting the left part and then the right part gives the whole call's effect |
| QuickSort.SortRight | src/pages/QuickSort.tsx:42 | once the left part is sorted, sorting p+1..high completes the call's effect |
| QuickSort.SortNode | src/pages/QuickSort.tsx:39-43 | partitioning at p, then sorting low..p-1, then p+1..high sorts low..high, opens with the partition's `pivot` step, and marks p, then the left part, then the right part |
| QuickSort.MarkOrderJoin | src/pages/QuickSort.tsx:40-42 | the pivot's mark followed by the marks of the left and the right part are in the order a range's marks must have |
| QuickSort.MarksJoin | src/pages/QuickSort.tsx:40-42 | the marks of the partition and the two calls, appended in turn, are the marks of the whole call |
| QuickSort.WithinMeans | src/pages/QuickSort.tsx:38-44 | every mark of a range lies in that range |
| QuickSort.PartedMeans | src/pages/QuickSort.tsx:40-42 | after the pivot's mark no mark names the pivot again, and every mark below the pivot comes before every mark above it |
| QuickSort.AboveMeans | src/pages/QuickSort.tsx:42 | every mark of the right part lies above the pivot |

| QuickSort.GenerateSteps | src/pages/QuickSort.tsx:32-119 | every snapshot is a permutation of the input with its length, and the trace ends with a `complete` step whose snapshot is sorted |
| QuickSort.ReplaysPermutes | src/pages/QuickSort.tsx:48-116 | every snapshot of a replayable trace is a permutation of the input with its length |
| QuickSort.ReplaysCounters | src/pages/QuickSort.tsx:59-86 | no step shows a counter above the final one, and the final comparison count is the number of `compare` steps |
| QuickSort.CountersMonotone | src/pages/QuickSort.tsx:59-86 | both counters never decrease from one step to a later one |
| QuickSort.PlayedShows | src/pages/QuickSort.tsx:129-156 | after a played prefix the display shows its snapshot and counters and, before `complete`, exactly the marks of its `sorted` steps |
| QuickSort.ApplyShows | src/pages/QuickSort.tsx:129-156 | a tick shows the step's snapshot and counters, appends a `sorted` step's marks, sets every index sorted on `complete`, shows the pivot only on `pivot`, `compare` and `swap` steps, and highlights exactly the compared or swapped pair |
| QuickSort.PlayedNext | src/pages/QuickSort.tsx:129-158 | playing one more step is applying that step to the display |
| QuickSort.Fresh | src/pages/QuickSort.tsx:18-30 | a fresh trace shows the unsorted input with pivot -1 and cleared highlights, and ends with a sorted `complete` step |
| QuickSort.Player.constructor | src/pages/QuickSort.tsx:5-16 | mounting shows the input unsorted, stopped, at step 0, with speed 200 |
| QuickSort.Player.Load | src/pages/QuickSort.tsx:18-30 | `generateArray` clears pivot, highlights and counters, stops, rewinds and regenerates; the speed is kept |
| QuickSort.Player.Tick | src/pages/QuickSort.tsx:126-158 | only while playing and unfinished: applies `steps[currentStep]` and advances by one, keeping `Valid` |
| QuickSort.Player.TogglePlay | src/pages/QuickSort.tsx:164-170 | when finished, regenerates and stays stopped; otherwise flips `isPlaying` only |
| QuickSort.Player.Reset | src/pages/QuickSort.tsx:172-174 | regenerates from the new input, stopped at step 0 |
| QuickSort.Player.SetSpeed | src/pages/QuickSort.tsx:224-227 | sets the speed within 1..1000 and changes nothing else |
| QuickSort.Player.PlayedOut | src/pages/QuickSort.tsx:151-156 | after the last tick the bars show the input sorted, every index is marked and nothing else is highlighted |
| MergeSort.MergedPermutes | src/pages/MergeSort.tsx:63-113 | merging keeps every element of both runs and nothing else |
| MergeSort.MergedSorted | src/pages/MergeSort.tsx:63-113 | merging two sorted runs gives a sorted run |
| MergeSort.MergedTakesLeft | src/pages/MergeSort.tsx:73-75 | on a tie or when the left head is smaller, the merge takes the left element first, which keeps equal values in order |
| MergeSort.MergedTakesRight | src/pages/MergeSort.tsx:76-78 | when the right head is strictly smaller, the merge takes it first |
| MergeSort.MergeSortedSpec | src/pages/MergeSort.tsx:33-48 | splitting at floor((left+right)/2) and merging returns a sorted permutation of the input |
| MergeSort.MergeSortedSplit | src/pages/MergeSort.tsx:35-46 | the merge sort of left..right is the merge of the merge sorts of left..mid and mid+1..right |
| MergeSort.Write | src/pages/MergeSort.tsx:74 | the new array is the old one with position k overwritten |
| MergeSort.MergeBegins | src/pages/MergeSort.tsx:51-61 | the two runs are copied out and the `merge_start` step [left, mid, right] is recorded |
| MergeSort.MergeNext | src/pages/MergeSort.tsx:64-88 | one round of the first loop appends exactly two steps: the `compare` [left+i, mid+1+j] with the counter raised by one, then `merge` [k] after writing the smaller head (the left one on ties) to k |
| MergeSort.CopyLeft | src/pages/MergeSort.tsx:91-101 | one round of the second loop copies the next left element to k and records `merge` [k] |
| MergeSort.CopyRight | src/pages/MergeSort.tsx:103-113 | one round of the third loop copies the next right element to k and records `merge` [k] |
| MergeSort.MergeFront | src/pages/MergeSort.tsx:63-89 | the first loop stops when one run is used up, having compared at most right-left times |
| MergeSort.MergeRestLeft | src/pages/MergeSort.tsx:91-101 | the second loop copies the rest of the left run |
| MergeSort.MergeRestRight | src/pages/MergeSort.tsx:103-113 | the third loop copies the rest of the right run |
| MergeSort.MergeEnds | src/pages/MergeSort.tsx:115-120 | after the three loops left..right holds the merge of the runs, and `merge_complete` names exactly left..right |
| MergeSort.MergeRuns | src/pages/MergeSort.tsx:50-121 | `merge` leaves the merge of the two runs in left..right and changes nothing else; the trace gains `merge_start`, one `merge` per position left..right in increasing order, at most right-left comparisons and `merge_complete` |
| MergeSort.Combine | src/pages/MergeSort.tsx:34-47 | the `divide` step, both recursive calls and the merge compose to the effect of the whole call |
| MergeSort.Divides | src/pages/MergeSort.tsx:37-42 | recording `divide` [left, mid, right] keeps the trace replayable |
| MergeSort.MergeSortRange | src/pages/MergeSort.tsx:33-48 | `mergeSort(left, right)` leaves the merge sort of left..right there and changes nothing else; a range of at most one element records nothing; a longer one opens with its `divide` step, closes with the `merge_complete` of its final merge, and writes positions in WriteOrder |
| MergeSort.SortRightHalf | src/pages/MergeSort.tsx:46-47 | once the left half is sorted, sorting the right half and merging complete the call's effect |
| MergeSort.WriteOrderWithin | src/pages/MergeSort.tsx:33-48 | every position `mergeSort(left, right)` writes lies in left..right |
| MergeSort.CombineOrder | src/pages/MergeSort.tsx:45-47 | the writes of the left half, then the right half, then the merge are the writes of the whole call |

| MergeSort.SortedWhole | src/pages/MergeSort.tsx:123 | sorting 0..n-1 leaves the merge sort of the whole array |
| MergeSort.GenerateSteps | src/pages/MergeSort.tsx:28-132 | the trace replays from the input and ends with a `complete` step whose snapshot is the merge sort of the input, a sorted permutation of it |
| MergeSort.ReplaysLength | src/pages/MergeSort.tsx:37-129 | every snapshot of a replayable trace has the input's length |
| MergeSort.ReplaysCounters | src/pages/MergeSort.tsx:64 | no step shows a comparison count above the final one |
| MergeSort.CountersMonotone | src/pages/MergeSort.tsx:64 | the comparison counter never decreases from one step to a later one |
| MergeSort.DedupSpec | src/pages/MergeSort.tsx:157 | `[...new Set(s)]` keeps exactly the elements of s, has no repeats, and changes nothing in a list without repeats |
| MergeSort.MergesShown | src/pages/MergeSort.tsx:275 | the "Merges" figure is half the comparisons rounded down |
| MergeSort.PlayedShows | src/pages/MergeSort.tsx:142-163 | after a played prefix the display shows its snapshot and counter; `sorted` never repeats an index and, before `complete`, holds exactly the indices of the `merge_complete` steps played |
| MergeSort.ApplyShows | src/pages/MergeSort.tsx:142-163 | a tick shows the step's snapshot and counter; `merge_complete` adds its indices to `sorted` without repeating any, `complete` sets every index sorted, and the `dividing` and `merging` highlights follow the step's kind |
| MergeSort.PlayedNext | src/pages/MergeSort.tsx:142-166 | playing one more step is applying that step to the display |
| MergeSort.Fresh | src/pages/MergeSort.tsx:16-26 | a fresh trace shows the unsorted input with cleared highlights and ends with a `complete` step showing its merge sort |
| MergeSort.Player.constructor | src/pages/MergeSort.tsx:5-14 | mounting shows the input unsorted, stopped, at step 0, with speed 200 |
| MergeSort.Player.Load | src/pages/MergeSort.tsx:16-26 | `generateArray` clears highlights and counter, stops, rewinds and regenerates; the speed is kept |
| MergeSort.Player.Tick | src/pages/MergeSort.tsx:139-166 | only while playing and unfinished: applies `steps[currentStep]` and advances by one, keeping `Valid` |
| MergeSort.Player.TogglePlay | src/pages/MergeSort.tsx:172-178 | when finished, regenerates and stays stopped; otherwise flips `isPlaying` only |
| MergeSort.Player.Reset | src/pages/MergeSort.tsx:180-182 | regenerates from the new input, stopped at step 0 |
| MergeSort.Player.SetSpeed | src/pages/MergeSort.tsx:231-234 | sets the speed within 1..1000 and changes nothing else |
| MergeSort.Player.PlayedOut | src/pages/MergeSort.tsx:160-163 | after the last tick the bars show the merge sort of the input, every index is marked and nothing is highlighted |
| HeapSort.Largest | src/pages/HeapSort.tsx:37-75 | `largest` is i or a child of i inside n, at least i and both its children, and strictly larger than i when it is not i |
| HeapSort.Choose | src/pages/HeapSort.tsx:49-75 | the child tests find `largest`, count one comparison per child inside n, and append exactly ChildCompares: `compare` [left, i] and then `compare` [right, largest so far] |
| HeapSort.ChildComparesNameChildren | src/pages/HeapSort.tsx:49-75 | there is one comparison per child inside n; each names that child and i or the left child, and the counter rises by one per comparison |
| HeapSort.Frame | src/pages/HeapSort.tsx:36-86 | one frame of `heapify` finds `largest`, swaps i with it when it is not i, counts one comparison per child inside n and one swap when it swaps, and appends exactly FrameSteps: `heapify_start`, the child comparisons and the swap |
| HeapSort.FrameShape | src/pages/HeapSort.tsx:41-86 | the steps a frame appends, whether or not it swaps, are FrameSteps |

| HeapSort.Exchange | src/pages/HeapSort.tsx:79 | the new array is the old one with the two positions exchanged |
| HeapSort.SiftStep | src/pages/HeapSort.tsx:77-87 | swapping i with its strictly larger child moves the one heap-order violation down to that child |
| HeapSort.SiftDone | src/pages/HeapSort.tsx:77 | when i already dominates its children the range is a heap |
| HeapSort.Heapify | src/pages/HeapSort.tsx:36-89 | `heapify(n, i)` permutes the array, moves nothing outside i..n-1 and restores heap order; it keeps the trace replayable with no `sorted` step and at most two comparisons per frame, one frame more than swaps |
| HeapSort.LeavesHeap | src/pages/HeapSort.tsx:92 | every node from n/2 on has no child inside n, so it is trivially in heap order |
| HeapSort.BuildHeap | src/pages/HeapSort.tsx:92-94 | the loop from floor(n/2)-1 down to 0 leaves the whole array a max-heap, recording no `sorted` step |
| HeapSort.HeapRootMax | src/pages/HeapSort.tsx:104-106 | the root of a heap is its maximum |
| HeapSort.ExtractArray | src/pages/HeapSort.tsx:105-106 | swapping the root to i extends the sorted suffix by i, each element of it at least everything before it |
| HeapSort.ExtractMax | src/pages/HeapSort.tsx:105-123 | one round counts and records the `extract` swap of 0 and i, records `sorted` [i] and re-heapifies 0..i-1 |
| HeapSort.ExtractAll | src/pages/HeapSort.tsx:104-124 | the extraction loop sorts the array and marks n-1 down to 1 |
| HeapSort.GenerateSteps | src/pages/HeapSort.tsx:30-134 | the trace ends with a `complete` step whose snapshot is a sorted permutation of the input; its `heap_built` step shows a max-heap; the marks are n-1 down to 1, so index 0 is covered only by `complete` |
| HeapSort.ReplaysPermutes | src/pages/HeapSort.tsx:41-131 | every snapshot of a replayable trace is a permutation of the input with its length |
| HeapSort.ReplaysCounters | src/pages/HeapSort.tsx:50-105 | no step shows a counter above the final one |
| HeapSort.CountersMonotone | src/pages/HeapSort.tsx:50-105 | both counters never decrease from one step to a later one |
| HeapSort.PlayedShows | src/pages/HeapSort.tsx:144-168 | after a played prefix the display shows its snapshot and counters and, before `complete`, exactly the marks of its `sorted` steps |
| HeapSort.ApplyShows | src/pages/HeapSort.tsx:144-168 | a tick shows the step's snapshot and counters, appends a `sorted` step's marks, sets every index sorted on `complete`, and sets the `heapifying` and `extracting` highlights by the step's kind |
| HeapSort.PlayedNext | src/pages/HeapSort.tsx:144-170 | playing one more step is applying that step to the display |
| HeapSort.Fresh | src/pages/HeapSort.tsx:17-28 | a fresh trace shows the unsorted input with cleared highlights and ends with a sorted `complete` step |
| HeapSort.Player.constructor | src/pages/HeapSort.tsx:5-15 | mounting shows the input unsorted, stopped, at step 0, with speed 200 |
| HeapSort.Player.Load | src/pages/HeapSort.tsx:17-28 | `generateArray` clears highlights and counters, stops, rewinds and regenerates; the speed is kept |
| HeapSort.Player.Tick | src/pages/HeapSort.tsx:141-170 | only while playing and unfinished: applies `steps[currentStep]` and advances by one, keeping `Valid` |
| HeapSort.Player.TogglePlay | src/pages/HeapSort.tsx:176-182 | when finished, regenerates and stays stopped; otherwise flips `isPlaying` only |
| HeapSort.Player.Reset | src/pages/HeapSort.tsx:184-186 | regenerates from the new input, stopped at step 0 |
| HeapSort.Player.SetSpeed | src/pages/HeapSort.tsx:235-238 | sets the speed within 1..1000 and changes nothing else |
| HeapSort.Player.PlayedOut | src/pages/HeapSort.tsx:164-167 | after the last tick the bars show the input sorted, every index is marked and nothing is highlighted |
| InsertionSort.StepConserves | src/pages/InsertionSort.tsx:47-101 | with the held key written back into the hole, every step keeps the array a permutation of the input, and inversions plus shifts equal the input's inversions |
| InsertionSort.ShiftConserves | src/pages/InsertionSort.tsx:73-84 | a shift exchanges the key with its strictly larger left neighbour and removes one inversion |
| InsertionSort.ReplaysConserves | src/pages/InsertionSort.tsx:39-110 | conservation holds for the state every replayable trace reaches |
| InsertionSort.PermutesAt | src/pages/InsertionSort.tsx:39-110 | every `start`, `pick`, `insert` and `complete` snapshot is a permutation of the input |
| InsertionSort.ShiftDuplicates | src/pages/InsertionSort.tsx:75-84 | a `shift` snapshot shows the shifted element twice, at j and j+1 |
| InsertionSort.ReplaysCounters | src/pages/InsertionSort.tsx:61-110 | no step shows a counter above the final one |
| InsertionSort.CountersMonotone | src/pages/InsertionSort.tsx:61-110 | both counters never decrease from one step to a later one |
| InsertionSort.ShiftStep | src/pages/InsertionSort.tsx:61-89 | one round counts and records a comparison; only when a[j] > key strictly does it copy a[j] to j+1, count and record the shift |
| InsertionSort.Shifting | src/pages/InsertionSort.tsx:60-90 | the hole moves left past every element larger than the key and stops behind the first one at most it, or at the front |
| InsertionSort.Inserted | src/pages/InsertionSort.tsx:92 | the key belongs where the shifting stopped: 0..i is then sorted |
| InsertionSort.Pass | src/pages/InsertionSort.tsx:47-101 | pass i writes the key a[i] to p with 0..i sorted, the elements after p strictly larger and the one before it at most the key; it counts i-p shifts and i-p comparisons, plus one unless p = 0 |
| InsertionSort.GenerateSteps | src/pages/InsertionSort.tsx:32-113 | the trace starts with `start` showing the input and [0], and ends with a `complete` step whose snapshot is sorted |
| InsertionSort.GeneratedSorts | src/pages/InsertionSort.tsx:104-110 | the final snapshot is a permutation of the input, and the shift count equals the input's inversions |
| InsertionSort.PlayedShows | src/pages/InsertionSort.tsx:123-152 | after a played prefix the display shows its snapshot and counters, and `sorted` is the last step's list: replaced, not accumulated |
| InsertionSort.ApplyShows | src/pages/InsertionSort.tsx:123-152 | a tick shows the step's snapshot, counters and `sorted` list, replacing the old list; the picked index stays through shifts, and the compared pair and inserted index show only on their own steps |
| InsertionSort.ShownSorted | src/pages/InsertionSort.tsx:55-98 | before `complete` the shown `sorted` list is 0..i-1 during pass i and 0..i between passes |
| InsertionSort.PlayedNext | src/pages/InsertionSort.tsx:123-154 | playing one more step is applying that step to the display |
| InsertionSort.Fresh | src/pages/InsertionSort.tsx:18-30 | a fresh trace shows the unsorted input with index 0 sorted and ends with a sorted `complete` step |
| InsertionSort.Player.constructor | src/pages/InsertionSort.tsx:5-16 | mounting shows the input unsorted with [0] sorted, stopped, at step 0, with speed 150 |
| InsertionSort.Player.Load | src/pages/InsertionSort.tsx:18-30 | `generateArray` clears highlights and counters, declares [0] sorted, stops, rewinds and regenerates; the speed is kept |
| InsertionSort.Player.Tick | src/pages/InsertionSort.tsx:120-154 | only while playing and unfinished: applies `steps[currentStep]` and advances by one, keeping `Valid` |
| InsertionSort.Player.TogglePlay | src/pages/InsertionSort.tsx:160-166 | when finished, regenerates and stays stopped; otherwise flips `isPlaying` only |
| InsertionSort.Player.Reset | src/pages/InsertionSort.tsx:168-170 | regenerates from the new input, stopped at step 0 |
| InsertionSort.Player.SetSpeed | src/pages/InsertionSort.tsx:220-223 | sets the speed within 1..1000 and changes nothing else |
| InsertionSort.Player.PlayedOut | src/pages/InsertionSort.tsx:104-110 | after the last tick the bars show the input sorted, every index is declared sorted, nothing is highlighted and the shift counter equals the input's inversions |
| SelectionSort.MinStep | src/pages/SelectionSort.tsx:63-64 | the minimum moves to j only when a[j] is strictly smaller, so it stays the leftmost minimum |
| SelectionSort.ScanStep | src/pages/SelectionSort.tsx:51-73 | one round counts and records the comparison of the minimum with j and, only when a[j] is strictly smaller, records `new_min` |
| SelectionSort.FindMin | src/pages/SelectionSort.tsx:50-74 | the inner loop ends with `minIndex` the leftmost minimum of i..n-1, after n-1-i comparisons |
| SelectionSort.Exchange | src/pages/SelectionSort.tsx:78 | the new array is the old one with the two positions exchanged |
| SelectionSort.Placed | src/pages/SelectionSort.tsx:76-96 | moving the leftmost minimum to i extends the sorted prefix to 0..i, each element of it at most everything after it |
| SelectionSort.Pass | src/pages/SelectionSort.tsx:39-96 | pass i swaps, and counts the swap, only if the minimum is not already at i; afterwards 0..i is sorted and at most everything after i; it compares n-1-i times |
| SelectionSort.PairsSum | src/pages/SelectionSort.tsx:38-61 | the first i passes compare i(2n-i-1)/2 times |
| SelectionSort.AllPairs | src/pages/SelectionSort.tsx:38-61 | the n-1 passes compare n(n-1)/2 times |
| SelectionSort.SortedWhole | src/pages/SelectionSort.tsx:97-102 | a sorted prefix 0..n-2 with nothing exceeding the last element makes the whole array sorted |
| SelectionSort.Passes | src/pages/SelectionSort.tsx:38-97 | the outer loop sorts the array with n(n-1)/2 comparisons and at most n-1 swaps |
| SelectionSort.GenerateSteps | src/pages/SelectionSort.tsx:32-108 | the trace ends with a `complete` step whose snapshot is sorted, with n(n-1)/2 comparisons and at most n-1 swaps; every `sorted` step lists a sorted prefix bounded by the rest |
| SelectionSort.PermutesAt | src/pages/SelectionSort.tsx:41-104 | every snapshot of a replayable trace is a permutation of the input |
| SelectionSort.ReplaysConserves | src/pages/SelectionSort.tsx:41-104 | the state every replayable trace reaches holds a permutation of the input with its length |
| SelectionSort.ReplaysCounters | src/pages/SelectionSort.tsx:51-77 | no step shows a counter above the final one |
| SelectionSort.CountersMonotone | src/pages/SelectionSort.tsx:51-77 | both counters never decrease from one step to a later one |
| SelectionSort.PlayedShows | src/pages/SelectionSort.tsx:118-148 | after a played prefix the display shows its snapshot and counters, and `sorted` is the last step's list: replaced, not accumulated |
| SelectionSort.ApplyShows | src/pages/SelectionSort.tsx:118-148 | a tick shows the step's snapshot, counters and `sorted` list, replacing the old list; the minimum shows on `start_pass`, `compare` and `new_min` steps, and the compared or swapped pair only on its own step |
| SelectionSort.ShownPass | src/pages/SelectionSort.tsx:122-139 | before `complete` the shown `sorted` list is the finished passes' prefix, and the shown minimum is the generator's `minIndex` except right after a swap, which resets it to -1 |
| SelectionSort.PlayedNext | src/pages/SelectionSort.tsx:118-150 | playing one more step is applying that step to the display |
| SelectionSort.Fresh | src/pages/SelectionSort.tsx:18-30 | a fresh trace shows the unsorted input with cleared highlights and ends with a sorted `complete` step |
| SelectionSort.Player.constructor | src/pages/SelectionSort.tsx:5-16 | mounting shows the input unsorted, stopped, at step 0, with speed 150 |
| SelectionSort.Player.Load | src/pages/SelectionSort.tsx:18-30 | `generateArray` clears highlights and counters, stops, rewinds and regenerates; the speed is kept |
| SelectionSort.Player.Tick | src/pages/SelectionSort.tsx:115-150 | only while playing and unfinished: applies `steps[currentStep]` and advances by one, keeping `Valid` |
| SelectionSort.Player.TogglePlay | src/pages/SelectionSort.tsx:156-162 | when finished, regenerates and stays stopped; otherwise flips `isPlaying` only |
| SelectionSort.Player.Reset | src/pages/SelectionSort.tsx:164-166 | regenerates from the new input, stopped at step 0 |
| SelectionSort.Player.SetSpeed | src/pages/SelectionSort.tsx:216-219 | sets the speed within 1..1000 and changes nothing else |
| SelectionSort.Player.PlayedOut | src/pages/SelectionSort.tsx:99-105 | after the last tick the bars show the input sorted, every index is declared sorted and nothing is highlighted |

## Left out

- Random input generation (`Math.random`, values 10..309): the input array is a parameter of the constructor, `Load`, `TogglePlay` and `Reset`.
- The array-size slider and its bounds (5..50, 4..32, …): it only chooses the length of the random array, so it has no model.
- `setTimeout`, `clearTimeout`, `useEffect` and `useCallback` scheduling. The timer firing is the method `Tick`, whose precondition is the guard `isPlaying && currentStep < steps.length`. `Playback.Delay` models only the delay value.
- All JSX rendering: bar colours (`getBarColor`), heights and widths, icons and labels. The one displayed derived figure that is an integer, the "Merges" count, is modelled as `MergeSort.MergesShown`.
- The progress percentage, which is floating point.
- Pressing play on a finished trace: the design description of the system says it regenerates and starts playing. The code calls `generateArray`, which sets `isPlaying` to false, so playback stays stopped. The model follows the code.
- React state updates are batched and asynchronous. The model applies the whole of one tick, or one `generateArray`, as a single method call. The displayed state is grouped into one `shown` value per page.
- Stability is not stated as a relation on element identities, because the model's elements are plain integers. Bubble, insertion and merge sort are stable, and the model states the rules that make them so: bubble swaps only strictly out-of-order neighbours, insertion shifts only strictly larger elements, and merge takes the left element on ties. Selection, quick and heap sort are not stable. Selection sort picks the leftmost minimum, but its long-distance swap can still move equal elements past each other: [2a, 2b, 1] becomes [1, 2b, 2a].
- BubbleSort.GenerateSteps: for an empty input the final `sorted` step still names index 0, as the code does. `MarksCoverAll` and `Player.PlayedOut` therefore require a non-empty input.
- InsertionSort.GenerateSteps: the `start` step declares index 0 sorted even for an empty input, as the code does.
- InsertionSort.PermutesAt: states the permutation property only for `start`, `pick`, `insert` and `complete` snapshots. `compare` and `shift` snapshots hold the key aside and duplicate an element, as `ShiftDuplicates` states.
- HeapSort.Heapify: each frame's exact steps and counts are stated by `Frame`. For the whole recursive call, the trace is not written as one function of the input; the call states only that it adds no `sorted` step and at most two comparisons per frame, with one frame more than the swaps.
- MergeSort.MergeRuns: states that at most right-left comparisons are counted. It does not state the exact number, which depends on the data.
