# Algorithm Visualizer, modelled in Dafny

This project models the engine and the playback controller of the Algorithm Visualizer.

The engine, `lib/algorithms.ts`, holds seven step generators: bubble, selection, insertion, merge and quick sort, and linear and binary search. Each one copies its input into a private working array and runs a textbook algorithm in place. At every `yield` it emits an `AlgorithmStep` record. A record holds the array and four optional index lists: `compared`, `swapped`, `sorted` and `highlight`.

The controller, `components/AlgorithmVisualizer.tsx`, picks a generator from its registry and drains it into a list. It then plays the list back on a timer or one record at a time, and adds up the lengths of the `compared` and `swapped` lists it passes.

Layout:

- `steps.dfy` (module `Steps`) holds the shared vocabulary:
  - the `Step` record;
  - index ranges and the swap;
  - `Mid`, which is `Math.floor((lo + hi) / 2)`;
  - ascending order and the ascending copy of an array.
- `bubble.dfy`, `selection.dfy`, `insertion.dfy`, `merge.dfy`, `quick.dfy`, `linear.dfy` and `binary.dfy` hold one module per generator. Each generator is modelled twice:
  - a pure function (`BubbleTrace`, …) gives the records the generator emits for an input. Lemmas about it state what the records and the final array are;
  - a method over an `array<int>` copy runs the source's loops. Its `ensures` says it emits exactly the records of that function.
  - The input array is never in a `modifies` clause, so the caller's array is unchanged.
- `registry.dfy` (module `Registry`) holds the `ALGORITHMS` table.
- `visualizer.dfy` (module `Visualizer`) holds the rest of the controller:
  - the dispatch on the registry key;
  - the drain loop;
  - `isSorting`;
  - the class `VisualizerState`. Its methods are the state updaters of the component.

The counters are modelled as written:

- A counter adds the length of an index list, so one comparison adds 2 and one exchange adds 2.
- Playback starts on the first record and only counts the records it moves onto. The first record's lists are therefore never counted.

## Model

| member | source | states |
|---|---|---|
| Steps.SwapPermutes | lib/algorithms.ts:36 | exchanging two elements keeps the multiset of the array |
| Steps.Mid | lib/algorithms.ts:152 | the midpoint lies in [lo, hi] and is the floor of (lo + hi) / 2, stated by two linear inequalities |
| Steps.MidIsFloor | lib/algorithms.ts:323 | for non-negative bounds the midpoint equals `Math.floor((lo + hi) / 2)` |
| Steps.SortedCopy | lib/algorithms.ts:318 | the copy sorted by `(a, b) => a - b` has the input's length, is ascending and is a permutation of the input |
| Steps.InsertionSorts | lib/algorithms.ts:318 | the functional insertion sort used to compute the ascending copy returns an ascending permutation |
| Steps.SortedPermutationUnique | lib/algorithms.ts:318 | two ascending permutations of the same elements are equal, so any correct library sort gives the same copy |
| Steps.AscendingIsSortedCopy | lib/algorithms.ts:46-49 | an ascending permutation of the input is the sorted copy, which is what every sort's last record shows |
| Steps.MiddlePermutes | lib/algorithms.ts:150-197 | when an array keeps everything outside [lo, hi) and is a permutation, the slice [lo, hi) is a permutation of the old slice |
| Bubble.BubbleSort | lib/algorithms.ts:23-50 | emits exactly `BubbleTrace` of the input, and the last record shows the ascending copy of the input with every index marked sorted |
| Bubble.BubbleLoop | lib/algorithms.ts:27-44 | the nested passes emit `Passes(input, 0)` and leave the working array as that run's final array |
| Bubble.BubblePass | lib/algorithms.ts:28-43 | inner pass i emits the records of `Pass(s, i, 0)` and leaves the array that pass computes |
| Bubble.BubbleTraceSorts | lib/algorithms.ts:46-49 | the last record shows the ascending copy of the input with sorted = [0, n) |
| Bubble.PassSteps | lib/algorithms.ts:29-41 | every record of pass i carries sorted = [n-1, ..., i] and exactly one of compared or swapped, an adjacent pair inside [0, n - i) |
| Bubble.PassSwapsOutOfOrder | lib/algorithms.ts:29-42 | a swapped = [j, j+1] record follows the compared = [j, j+1] record exactly when arr[j] > arr[j+1], and shows the exchanged array; every swap record follows its comparison |
| Bubble.PassCarriesMax | lib/algorithms.ts:28-43 | when arr[j] is at least every element before it, the rest of pass i leaves at position n - 1 - i an element at least every element before it, and leaves positions from n - i on alone |
| Bubble.PassSettles | lib/algorithms.ts:27-43 | after pass i the suffix from n - 1 - i holds the largest elements in order and is above everything before it |
| Bubble.PassesSort | lib/algorithms.ts:27-44 | all passes leave the whole array ascending |
| Bubble.PassesPermute | lib/algorithms.ts:27-44 | the passes only exchange elements |
| Selection.SelectionSort | lib/algorithms.ts:56-94 | emits exactly `SelectionTrace` of the input; the last record shows the ascending copy with every index marked |
| Selection.SelectionLoop | lib/algorithms.ts:60-88 | the outer loop emits `SelectionPasses(input, 0)` and leaves that run's final array |
| Selection.SelectionStep | lib/algorithms.ts:61-87 | one outer iteration emits the records of `SelectionPass` and leaves the array it computes |
| Selection.SelectionScan | lib/algorithms.ts:61-73 | the inner loop emits the comparison records of `ScanFrom` and returns its minimum index |
| Selection.ScanFindsMin | lib/algorithms.ts:63-73 | the scan returns the first index of a minimum of arr[i..n) |
| Selection.ScanSteps | lib/algorithms.ts:63-72 | the scan emits one record per j, in order, comparing [minIdx, j], where minIdx is the leftmost minimum of arr[i..j): nothing in [i, j) is below arr[minIdx] and everything in [i, minIdx) is above it. Each record shows the array unchanged, with sorted = [0, i) and nothing else |
| Selection.PassSteps | lib/algorithms.ts:60-88 | pass i emits the n-1-i comparison records of the scan, each comparing the running leftmost minimum with j, then one record with sorted = [0, i] that carries swapped = [i, minIdx] exactly when minIdx differs from i |
| Selection.PassPlaces | lib/algorithms.ts:75-87 | when [0, i) is already ascending and below the rest, after pass i the same holds for [0, i] |
| Selection.PassesSort | lib/algorithms.ts:60-88 | all passes leave the array ascending |
| Selection.PassesPermute | lib/algorithms.ts:60-88 | the passes only exchange elements |
| Selection.SelectionTraceSorts | lib/algorithms.ts:90-93 | the last record shows the ascending copy of the input with sorted = [0, n) |
| Insertion.InsertionSort | lib/algorithms.ts:100-136 | emits exactly `InsertionTrace` of the input; the last record shows the ascending copy with every index marked |
| Insertion.InsertionLoop | lib/algorithms.ts:103-130 | the outer loop emits `InsertionPasses(input, 1)` and leaves that run's final array |
| Insertion.InsertionStep | lib/algorithms.ts:104-129 | one pass, with its shifting `while` loop, emits the records of `InsertionPass` and leaves the array it computes |
| Insertion.StopBounds | lib/algorithms.ts:113 | the shifting loop stops at the largest k <= j with arr[k] <= key, or at -1, and every element it passes is above key |
| Insertion.ShiftResult | lib/algorithms.ts:113-124 | the shifts move arr[k+1..j] one place right and drop key at k+1, emitting one record per shift |
| Insertion.ShiftSteps | lib/algorithms.ts:114-118 | shift records compare [j, j+1], [j-1, j], ... in turn and mark [0, i) sorted |
| Insertion.StopCounts | lib/algorithms.ts:113 | on an ascending prefix the number of shifts is the number of its elements above key |
| Insertion.PassSteps | lib/algorithms.ts:103-130 | when arr[0..i) is ascending, pass i emits highlight = [i], then one comparison per element of arr[0..i) above key, then the array it leaves with sorted = [0, i] |
| Insertion.PassInserts | lib/algorithms.ts:103-130 | pass i permutes arr[0..i], leaves arr[i+1..) alone, and leaves arr[0..i] ascending when arr[0..i) was |
| Insertion.PassesSort | lib/algorithms.ts:103-130 | all passes leave the array an ascending permutation of the input |
| Insertion.InsertionTraceSorts | lib/algorithms.ts:132-135 | the last record shows the ascending copy of the input with sorted = [0, n) |
| Merge.MergeSort | lib/algorithms.ts:142-204 | emits exactly `MergeTrace` of the input; the last record shows the ascending copy with every index marked |
| Merge.MergeSortHelper | lib/algorithms.ts:145-197 | `mergeSortHelper(start, end)` emits the records of `MergeHelper` and leaves its array |
| Merge.SortHalves | lib/algorithms.ts:152-196 | a range of two or more elements sorts both halves, then merges them |
| Merge.MergeHalves | lib/algorithms.ts:157-196 | the merge phase emits the records of `MergePhase` and leaves its array |
| Merge.MergeStep | lib/algorithms.ts:159-196 | the three merge loops together emit `MergeFrom` and write its result |
| Merge.MergeBoth | lib/algorithms.ts:163-180 | the two-sided loop runs until one side is used up, emitting a prefix of the merge records |
| Merge.MergeRest | lib/algorithms.ts:182-196 | the tail loops emit the rest of the merge records |
| Merge.MergedAscending | lib/algorithms.ts:163-196 | merging two ascending halves gives an ascending sequence |
| Merge.MergedPermutes | lib/algorithms.ts:163-196 | the merge is a permutation of the two halves together |
| Merge.MergeFromResult | lib/algorithms.ts:159-196 | the merge loops write the merged sequence into [start, end] and nothing else |
| Merge.MergeFromOrder | lib/algorithms.ts:163-196 | in order: while both sides remain, the comparison [start + i, mid + 1 + j] of the current heads, then one record without a comparison for the write; once a side is used up, one record without a comparison per element left. So there is one comparison per two-sided iteration, each directly followed by its write record |
| Merge.MergeFromSteps | lib/algorithms.ts:163-196 | the loops emit one record without a `compared` pair per element written; every record has sorted = [] and no swap, and a comparison pairs a position of the left half with one of the right half |
| Merge.HelperSorts | lib/algorithms.ts:145-197 | `mergeSortHelper(start, end)` leaves arr[start..end] an ascending permutation of its old contents and changes nothing outside |
| Merge.SplitSorts | lib/algorithms.ts:150-196 | the same for a range of two or more elements |
| Merge.HelperMarksNothing | lib/algorithms.ts:145-199 | every record the helper emits carries sorted = [], swaps nothing and compares positions inside its range |
| Merge.MergeTraceSorts | lib/algorithms.ts:199-203 | the last record shows the ascending copy of the input with sorted = [0, n) |
| Quick.QuickSort | lib/algorithms.ts:210-277 | emits exactly `QuickTrace` of the input; the last record shows the ascending copy with every index marked |
| Quick.QuickSortHelper | lib/algorithms.ts:213-228 | `quickSortHelper(low, high)` emits the records of `QuickHelper` and leaves its array |
| Quick.PartitionAndSortRange | lib/algorithms.ts:218-221 | a range of two or more elements is partitioned, then both sides are sorted |
| Quick.PartitionStep | lib/algorithms.ts:230-270 | `partition(low, high)` emits the records of `Partition`, leaves its array and returns its pivot index |
| Quick.ScanLoop | lib/algorithms.ts:244-260 | the scanning loop emits the records of `ScanFrom` and returns the final i |
| Quick.ScanSplits | lib/algorithms.ts:244-260 | the scan keeps [low, i] below the pivot and (i, j) at or above it |
| Quick.ScanFrame | lib/algorithms.ts:244-260 | the scan changes nothing outside [low, high) |
| Quick.ScanMultiset | lib/algorithms.ts:244-260 | the scan only exchanges elements |
| Quick.ScanCounts | lib/algorithms.ts:251-253 | i advances once per element of arr[j..high) below the pivot |
| Quick.ScanLength | lib/algorithms.ts:244-260 | the scan emits one record per j plus one per element below the pivot |
| Quick.ScanCompares | lib/algorithms.ts:244-250 | exactly one record per j carries a `compared` pair |
| Quick.ScanSteps | lib/algorithms.ts:244-259 | in order, for each j from the start of the scan up to high - 1: the comparison [j, high], then, directly after it, the exchange [i + 1, j] exactly when arr[j] (still the input's value there) is below the pivot, and no exchange otherwise; i is the boundary the loop carries, moved on by one at each exchange (so the exchange is [i + 1, j] even when i + 1 = j); no scan record marks anything sorted or highlights anything |
| Quick.PartitionPlaces | lib/algorithms.ts:230-270 | partition returns p in [low, high] with arr[p] the old arr[high], [low, p) below it and (p, high] at or above it |
| Quick.PartitionKeeps | lib/algorithms.ts:230-270 | partition changes only [low, high], and permutes that range |
| Quick.PartitionSteps | lib/algorithms.ts:238-267 | partition emits highlight = [high], then the scan records with the pivot arr[high] and the boundary starting at low - 1: the comparisons [low, high], ..., [high - 1, high] in turn, each followed directly by the exchange [i + 1, j] exactly when arr[j] is below the pivot, where i + 1 is low plus the number of elements before j that are below it; it ends with swapped = [p, high], where p is low plus the number of elements of [low, high) below the pivot; every record has sorted = [] |
| Quick.ShapedCounted | lib/algorithms.ts:236-259 | the boundary `i` that the loop carries from low - 1 is, at each j, low - 1 plus the number of elements of [low, j) below the pivot, so the exchange after comparison j is [low + that count, j] |
| Quick.HelperSorts | lib/algorithms.ts:213-228 | `quickSortHelper(low, high)` leaves arr[low..high] an ascending permutation of its old contents and changes nothing outside |
| Quick.PartitionSorts | lib/algorithms.ts:218-221 | the same for a range of two or more elements |
| Quick.HelperMarks | lib/algorithms.ts:213-228 | the accumulator never grows: every record marks at most one index sorted, and a record that marks one marks an index of its range and carries no other list |
| Quick.ShortInputs | lib/algorithms.ts:218-227 | an empty input yields one record, and a one-element input yields two: sorted = [0], then the final record |
| Quick.QuickTraceSorts | lib/algorithms.ts:272-276 | the last record shows the ascending copy of the input with sorted = [0, n) |
| Linear.LinearSearch | lib/algorithms.ts:283-308 | emits exactly `LinearTrace` of the input and target |
| Linear.FirstIndex | lib/algorithms.ts:289-295 | the first index holding an element that occurs |
| Linear.LinearFindsFirst | lib/algorithms.ts:289-302 | with k the first index holding the target, the search highlights 0, ..., k in order, then reports k with sorted = [k]: k + 2 records |
| Linear.LinearMisses | lib/algorithms.ts:289-307 | without the target it highlights every index, then ends with a bare record: n + 1 records |
| Linear.LinearReports | lib/algorithms.ts:295-307 | the last record marks an index exactly when the target occurs, and that index is the first one holding it |
| Binary.BinarySearch | lib/algorithms.ts:314-353 | emits exactly `BinaryTrace` of the input and target, searching the ascending copy |
| Binary.SearchSorted | lib/algorithms.ts:319-352 | the `while` loop on the sorted copy emits exactly `SearchLoop` from the whole range |
| Binary.LoopReports | lib/algorithms.ts:322-352 | on an ascending array whose target can only lie in [left, right], the search ends with every index marked, highlighting an index exactly when the target occurs, and that index holds it |
| Binary.BinaryReports | lib/algorithms.ts:314-353 | the last record marks every index, compares and exchanges nothing, and highlights an index iff the target occurs in the input |
| Binary.GoRight | lib/algorithms.ts:342-343 | when arr[mid] < target, nothing up to mid holds the target |
| Binary.GoLeft | lib/algorithms.ts:344-345 | when arr[mid] > target, nothing from mid on holds the target |
| Binary.NothingLeft | lib/algorithms.ts:322 | an empty range means the target does not occur |
| Binary.LoopProbes | lib/algorithms.ts:325-331 | every record before the last highlights one index that it does not mark sorted, and no index it marks sorted holds the target |
| Binary.BinaryProbes | lib/algorithms.ts:314-353 | the same for the whole search on the ascending copy |
| Binary.LoopLength | lib/algorithms.ts:322-347 | the search emits one record per probe plus the final one |
| Binary.ProbesBound | lib/algorithms.ts:322-347 | a range narrower than 2^d is settled within d probes |
| Binary.BinaryBound | lib/algorithms.ts:314-353 | an input shorter than 2^d yields at most d + 1 records, so at most floor(log2 n) + 1 probes |
| Registry.RegistryKeys | lib/algorithms.ts:355-394 | `Algorithms`, the constant holding the seven entries (display name, category, best, average and worst complexity strings), has exactly the five sort keys and the two search keys, and the category is searching exactly for linearSearch and binarySearch |
| Visualizer.GenerateEndsQuiet | components/AlgorithmVisualizer.tsx:76-85 | every generator yields at least one record, and its last record compares and exchanges nothing |
| Visualizer.SortsIgnoreTarget | components/AlgorithmVisualizer.tsx:76-79 | a sort is not handed the target, so its records do not depend on it |
| Visualizer.RunGenerator | components/AlgorithmVisualizer.tsx:20-28 | the registry key selects its generator, and only the two searches receive the target |
| Visualizer.Drain | components/AlgorithmVisualizer.tsx:81-85 | the drain loop pushes every yielded record, in order (the model has the generator's output in hand already, so the loop copies it) |
| Visualizer.Record | components/AlgorithmVisualizer.tsx:73-85 | initialization starts the selected generator on a copy of the array and keeps its whole output, which is non-empty and ends quiet |
| Visualizer.IncludesWitness | components/AlgorithmVisualizer.tsx:206 | when `includes` holds, the part sits at some offset |
| Visualizer.AtIncludes | components/AlgorithmVisualizer.tsx:206 | wherever the part sits, `includes` holds |
| Visualizer.IsSortingAgrees | components/AlgorithmVisualizer.tsx:206 | `isSorting` agrees with the registry category for all seven keys |
| Visualizer.CountersAdvance | components/AlgorithmVisualizer.tsx:125-127 | moving the index one record on adds that record's list lengths to the totals |
| Visualizer.VisualizerState.constructor | components/AlgorithmVisualizer.tsx:45-57 | the initial state is bubble sort with target 50, followed by the initialization the mount effect runs |
| Visualizer.VisualizerState.Initialize | components/AlgorithmVisualizer.tsx:73-96 | the new records are the selected generator's output, showing the first one at index 0, stopped, with both counters 0 |
| Visualizer.VisualizerState.Tick | components/AlgorithmVisualizer.tsx:105-137 | nothing changes unless running and not paused; otherwise the next record becomes current and its counts are added, or past the end playback stops on the last index with the counters kept; the counters never decrease |
| Visualizer.VisualizerState.HandleStart | components/AlgorithmVisualizer.tsx:142-151 | running, not paused, index 0, counters 0, with the displayed record left as it was |
| Visualizer.VisualizerState.HandlePause | components/AlgorithmVisualizer.tsx:153-158 | only the paused flag changes, to true |
| Visualizer.VisualizerState.HandleResume | components/AlgorithmVisualizer.tsx:160-165 | only the paused flag changes, to false |
| Visualizer.VisualizerState.HandleNext | components/AlgorithmVisualizer.tsx:167-182 | the index moves one on but never past the last record, and the landing record's counts are added, which is nothing on the last record |
| Visualizer.VisualizerState.HandleReset | components/AlgorithmVisualizer.tsx:184-194 | stopped, index 0 showing the first record, counters 0 |
| Visualizer.VisualizerState.HandleAlgorithmChange | components/AlgorithmVisualizer.tsx:196-203 | the key changes, playback stops and is unpaused; the records stay until `Initialize` runs for the new key |

`VisualizerState.Valid()` is kept by every method. It says:

- the key is registered;
- the record list is non-empty and its last record is quiet;
- the index is in range;
- each counter is the total of its list lengths over records 1 to the index.

## Left out

- Generator suspension (`yield`, `yield*`, `.next()`) is not modelled. Each generator produces its whole list of records at once, which is also how the controller consumes it.
- The records do not share the working array. In the source every record holds a reference to the one working array, so after the drain each stored record shows the array as the generator left it. The model gives each record the array's contents at the moment of the `yield`.
- Random array generation (`Math.random`) is not modelled: the array is a parameter of `Initialize` and of the constructor.
- Timers, `useEffect` re-runs, the `201 - speed` delay, `speed` and `arraySize` are not modelled. The tick is an explicit method. Changing the size re-runs `Initialize`, which is modelled.
- The library sort in `binarySearch` is modelled by `SortedCopy`, the unique ascending permutation. The method computes it with a functional insertion sort, `InsertionSorted`.
- Binary.SearchSorted: the sorted copy is held as a sequence value, not as a mutable array, because the search never writes to it.
- The complexity strings in `ALGORITHMS` are display text. Their asymptotic claims are not stated. Bubble sort's "O(n)" best case is not realised, because the source has no early exit.
- Merge.MergedPermutes: the left half wins ties (`TakesLeft` uses `<=`). Stability in the sense of equal elements keeping their identities is not stated, because the array holds plain integers.
- The order of the entries in `ALGORITHMS` is not kept: `Registry.Algorithms` is a map, while the source lists the selector options in the object literal's insertion order (`Object.keys`). The order only affects the display.
- Rendering, the control panel, the statistics panel and the complexity panel are not modelled.
- JavaScript numbers are modelled as unbounded integers. The generators only compare and move elements, so no arithmetic on elements can overflow.
- Two behaviours of the code are modelled as written:
  - quick sort on a one-element array emits two records: `sorted = [0]`, then the final record (lib/algorithms.ts:222-226, 273-276);
  - during pass i, bubble sort's `sorted` list is [n-1, ..., i] (lib/algorithms.ts:29-40), which includes indices that are not settled yet.
