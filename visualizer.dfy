/** The `AlgorithmVisualizer` component (components/AlgorithmVisualizer.tsx): it runs the
    selected generator to completion, keeps every record it yields, and then plays the records
    back one at a time, on a timer or by hand, adding up how many indices the records compare
    and exchange. The React state becomes the fields of `VisualizerState`; each `setState`
    updater becomes a method that reassigns them. */
module Visualizer {
  import opened Steps
  import opened Registry
  import Bubble
  import Selection
  import Insertion
  import Merge
  import Quick
  import Linear
  import Binary

  // ---------------------------------------------------------------------------------------
  // Which generator runs

  /** Only the two searches are handed the target. */
  predicate TakesTarget(algo: string)
  {
    algo == "linearSearch" || algo == "binarySearch"
  }

  /** The records the generator registered under `algo` yields for `input` and `target`. */
  ghost function Generate(algo: string, input: seq<int>, target: int): seq<Step>
    requires algo in Algorithms
  {
    if algo == "bubbleSort" then Bubble.BubbleTrace(input)
    else if algo == "selectionSort" then Selection.SelectionTrace(input)
    else if algo == "insertionSort" then Insertion.InsertionTrace(input)
    else if algo == "mergeSort" then Merge.MergeTrace(input)
    else if algo == "quickSort" then Quick.QuickTrace(input)
    else if algo == "linearSearch" then Linear.LinearTrace(input, target)
    else Binary.BinaryTrace(input, target)
  }

  /** The last record neither compares nor exchanges anything. */
  ghost predicate EndsQuiet(steps: seq<Step>)
  {
    |steps| > 0 && steps[|steps| - 1].compared == None && steps[|steps| - 1].swapped == None
  }

  /** Every generator yields at least one record, and its last record is quiet: a sort ends
      with the sorted array all marked, a search with its report. */
  lemma GenerateEndsQuiet(algo: string, input: seq<int>, target: int)
    requires algo in Algorithms
    ensures EndsQuiet(Generate(algo, input, target))
  {
    if algo == "bubbleSort" {
      Bubble.BubbleTraceSorts(input);
    } else if algo == "selectionSort" {
      Selection.SelectionTraceSorts(input);
    } else if algo == "insertionSort" {
      Insertion.InsertionTraceSorts(input);
    } else if algo == "mergeSort" {
      Merge.MergeTraceSorts(input);
    } else if algo == "quickSort" {
      Quick.QuickTraceSorts(input);
    } else if algo == "linearSearch" {
      if target in input {
        Linear.LinearFindsFirst(input, target, Linear.FirstIndex(input, target));
      } else {
        Linear.LinearMisses(input, target);
      }
    } else {
      Binary.BinaryReports(input, target);
    }
  }

  /** A sort is not handed the target, so what it yields does not depend on it. */
  lemma SortsIgnoreTarget(algo: string, input: seq<int>, target: int, other: int)
    requires algo in Algorithms && !TakesTarget(algo)
    ensures Generate(algo, input, target) == Generate(algo, input, other)
  {
  }

  /** Looks up the generator and starts it on the array, with the target for a search. */
  method RunGenerator(algo: string, a: array<int>, target: int) returns (trace: seq<Step>)
    requires algo in Algorithms
    ensures trace == Generate(algo, a[..], target)
  {
    if algo == "bubbleSort" {
      trace := Bubble.BubbleSort(a);
    } else if algo == "selectionSort" {
      trace := Selection.SelectionSort(a);
    } else if algo == "insertionSort" {
      trace := Insertion.InsertionSort(a);
    } else if algo == "mergeSort" {
      trace := Merge.MergeSort(a);
    } else if algo == "quickSort" {
      trace := Quick.QuickSort(a);
    } else if algo == "linearSearch" {
      trace := Linear.LinearSearch(a, target);
    } else {
      trace := Binary.BinarySearch(a, target);
    }
  }

  /** Pulls records from the generator until it is done, pushing each onto the list: the
      list holds everything yielded, in order. The generator's whole output is already in
      hand here (suspension is not modelled), so the loop copies it record by record. */
  method Drain(yielded: seq<Step>) returns (steps: seq<Step>)
    ensures steps == yielded
  {
    steps := [];
    var next := 0;
    while next < |yielded|
      invariant 0 <= next <= |yielded|
      invariant steps == yielded[..next]
    {
      steps := steps + [yielded[next]];
      next := next + 1;
    }
  }

  /** The body of `initializeAlgorithm` up to `setState`: copy the array, start the selected
      generator and drain it. The list it returns is never empty and ends quiet. */
  method Record(algo: string, input: seq<int>, target: int) returns (steps: seq<Step>)
    requires algo in Algorithms
    ensures steps == Generate(algo, input, target)
    ensures EndsQuiet(steps)
  {
    var a := new int[|input|](k requires 0 <= k < |input| => input[k]);
    assert a[..] == input;
    var trace := RunGenerator(algo, a, target);
    steps := Drain(trace);
    GenerateEndsQuiet(algo, input, target);
  }

  // ---------------------------------------------------------------------------------------
  // `isSorting`

  /** `s.includes(part)`: `part` occurs somewhere in `s`. */
  predicate Includes(s: string, part: string)
    decreases |s|
  {
    if |s| < |part| then false
    else s[..|part|] == part || Includes(s[1..], part)
  }

  /** `part` sits in `s` at offset i. */
  predicate At(s: string, part: string, i: int)
  {
    0 <= i <= |s| - |part| && s[i..i + |part|] == part
  }

  /** When `part` is included, the search stops at an offset where it sits. */
  lemma {:induction false} IncludesWitness(s: string, part: string) returns (i: int)
    requires Includes(s, part)
    ensures At(s, part, i)
    decreases |s|
  {
    if s[..|part|] == part {
      i := 0;
      assert s[0..|part|] == s[..|part|];
    } else {
      assert |s| > 0;
      var k := IncludesWitness(s[1..], part);
      i := k + 1;
      assert s[i..i + |part|] == s[1..][k..k + |part|];
    }
  }

  /** Wherever `part` sits in `s`, the search finds it there or earlier. */
  lemma {:induction false} AtIncludes(s: string, part: string, i: int)
    requires At(s, part, i)
    ensures Includes(s, part)
    decreases i
  {
    if i == 0 {
      assert s[..|part|] == s[0..|part|];
    } else {
      assert s[1..][i - 1..i - 1 + |part|] == s[i..i + |part|];
      AtIncludes(s[1..], part, i - 1);
    }
  }

  /** `selectedAlgorithm.includes('Sort')`. */
  predicate IsSorting(algo: string)
  {
    Includes(algo, "Sort")
  }

  /** "Sort" can only start where an 'S' is followed by an 'o'. */
  lemma NoSortWithout(s: string)
    requires forall i :: 0 <= i < |s| - 1 && s[i] == 'S' ==> s[i + 1] != 'o'
    ensures !IsSorting(s)
  {
    forall i | 0 <= i <= |s| - 4
      ensures !At(s, "Sort", i)
    {
      assert s[i..i + 4][0] == s[i] && s[i..i + 4][1] == s[i + 1];
    }
    if IsSorting(s) {
      var i := IncludesWitness(s, "Sort");
      assert false;
    }
  }

  /** A key spelled with a "Sort" suffix counts as a sort. */
  lemma EndsWithSort(prefix: string)
    ensures IsSorting(prefix + "Sort")
  {
    var s := prefix + "Sort";
    assert s[|prefix|..|prefix| + 4] == "Sort";
    AtIncludes(s, "Sort", |prefix|);
  }

  /** The component tells sorts from searches by the key's spelling; over the registry this
      agrees with the category each entry declares. */
  lemma IsSortingAgrees(algo: string)
    requires algo in Algorithms
    ensures IsSorting(algo) <==> Algorithms[algo].category == Sorting
  {
    if algo == "linearSearch" || algo == "binarySearch" {
      NoSortWithout(algo);
    } else if algo == "bubbleSort" {
      assert algo == "bubble" + "Sort";
      EndsWithSort("bubble");
    } else if algo == "selectionSort" {
      assert algo == "selection" + "Sort";
      EndsWithSort("selection");
    } else if algo == "insertionSort" {
      assert algo == "insertion" + "Sort";
      EndsWithSort("insertion");
    } else if algo == "mergeSort" {
      assert algo == "merge" + "Sort";
      EndsWithSort("merge");
    } else {
      assert algo == "quick" + "Sort";
      EndsWithSort("quick");
    }
  }

  // ---------------------------------------------------------------------------------------
  // The counters

  /** How many indices the records compare, in total. */
  function Comparisons(steps: seq<Step>): nat
  {
    if steps == [] then 0
    else Comparisons(steps[..|steps| - 1]) + Count(steps[|steps| - 1].compared)
  }

  /** How many indices the records exchange, in total. */
  function Swaps(steps: seq<Step>): nat
  {
    if steps == [] then 0
    else Swaps(steps[..|steps| - 1]) + Count(steps[|steps| - 1].swapped)
  }

  /** Moving the index one record on adds that record's counts. */
  lemma CountersAdvance(steps: seq<Step>, k: nat)
    requires k + 1 < |steps|
    ensures Comparisons(steps[1..k + 2]) == Comparisons(steps[1..k + 1]) + Count(steps[k + 1].compared)
    ensures Swaps(steps[1..k + 2]) == Swaps(steps[1..k + 1]) + Count(steps[k + 1].swapped)
  {
    assert steps[1..k + 2][..k] == steps[1..k + 1];
  }

  // ---------------------------------------------------------------------------------------
  // The component's state

  class VisualizerState {
    var currentStep: Step
    var steps: seq<Step>
    var currentStepIndex: int
    var isRunning: bool
    var isPaused: bool
    var selectedAlgorithm: string
    var searchTarget: int
    var comparisons: int
    var swaps: int

    /** The key names a registered generator, the index points into the non-empty record
        list, the last record is quiet, and the counters hold the totals of the records after
        the first up to and including the current one. */
    ghost predicate Valid()
      reads this
    {
      && selectedAlgorithm in Algorithms
      && EndsQuiet(steps)
      && 0 <= currentStepIndex < |steps|
      && comparisons == Comparisons(steps[1..currentStepIndex + 1])
      && swaps == Swaps(steps[1..currentStepIndex + 1])
    }

    /** The initial state, followed by the initialization the mount effect runs. */
    constructor(input: seq<int>)
      ensures Valid()
      ensures selectedAlgorithm == "bubbleSort" && searchTarget == 50
      ensures steps == Generate("bubbleSort", input, 50)
      ensures currentStep == steps[0] && currentStepIndex == 0
      ensures !isRunning && !isPaused && comparisons == 0 && swaps == 0
    {
      currentStep := Step([], None, None, None, None);
      steps := [];
      currentStepIndex := 0;
      isRunning := false;
      isPaused := false;
      selectedAlgorithm := "bubbleSort";
      searchTarget := 50;
      comparisons := 0;
      swaps := 0;
      new;
      Initialize(input);
    }

    /** `initializeAlgorithm`: runs the selected generator on `input` (the freshly generated
        array) and rewinds to its first record. */
    method Initialize(input: seq<int>)
      requires selectedAlgorithm in Algorithms
      modifies this
      ensures Valid()
      ensures steps == Generate(selectedAlgorithm, input, searchTarget)
      ensures currentStep == steps[0] && currentStepIndex == 0
      ensures !isRunning && !isPaused && comparisons == 0 && swaps == 0
      ensures selectedAlgorithm == old(selectedAlgorithm) && searchTarget == old(searchTarget)
    {
      var drained := Record(selectedAlgorithm, input, searchTarget);
      steps := drained;
      currentStep := drained[0];
      currentStepIndex := 0;
      isRunning := false;
      isPaused := false;
      comparisons := 0;
      swaps := 0;
    }

    /** One timer tick. Nothing happens unless the playback runs unpaused; then either the
        next record becomes current and its counts are added, or, past the last record,
        playback stops on the last index. */
    method Tick()
      requires Valid()
      modifies this
      ensures Valid()
      ensures steps == old(steps) && isPaused == old(isPaused)
      ensures selectedAlgorithm == old(selectedAlgorithm) && searchTarget == old(searchTarget)
      ensures !old(isRunning) || old(isPaused) ==>
        && currentStep == old(currentStep) && currentStepIndex == old(currentStepIndex)
        && isRunning == old(isRunning) && comparisons == old(comparisons) && swaps == old(swaps)
      ensures old(isRunning) && !old(isPaused) && old(currentStepIndex) + 1 >= |steps| ==>
        && !isRunning && currentStepIndex == |steps| - 1 && currentStep == old(currentStep)
        && comparisons == old(comparisons) && swaps == old(swaps)
      ensures old(isRunning) && !old(isPaused) && old(currentStepIndex) + 1 < |steps| ==>
        && isRunning && currentStepIndex == old(currentStepIndex) + 1
        && currentStep == steps[currentStepIndex]
        && comparisons == old(comparisons) + Count(currentStep.compared)
        && swaps == old(swaps) + Count(currentStep.swapped)
      ensures comparisons >= old(comparisons) && swaps >= old(swaps)
    {
      if !isRunning || isPaused {
        return;
      }
      var nextIndex := currentStepIndex + 1;
      if nextIndex >= |steps| {
        isRunning := false;
        currentStepIndex := |steps| - 1;
        return;
      }
      var nextStep := steps[nextIndex];
      CountersAdvance(steps, currentStepIndex);
      comparisons := comparisons + Count(nextStep.compared);
      swaps := swaps + Count(nextStep.swapped);
      currentStep := nextStep;
      currentStepIndex := nextIndex;
    }

    /** Start: play from the first index with the counters cleared. The displayed record is
        left as it was until the first tick. */
    method HandleStart()
      requires Valid()
      modifies this
      ensures Valid()
      ensures isRunning && !isPaused && currentStepIndex == 0 && comparisons == 0 && swaps == 0
      ensures steps == old(steps) && currentStep == old(currentStep)
      ensures selectedAlgorithm == old(selectedAlgorithm) && searchTarget == old(searchTarget)
    {
      isRunning := true;
      isPaused := false;
      currentStepIndex := 0;
      comparisons := 0;
      swaps := 0;
    }

    /** Pause: only the paused flag changes. */
    method HandlePause()
      requires Valid()
      modifies this`isPaused
      ensures Valid() && isPaused
    {
      isPaused := true;
    }

    /** Resume: only the paused flag changes. */
    method HandleResume()
      requires Valid()
      modifies this`isPaused
      ensures Valid() && !isPaused
    {
      isPaused := false;
    }

    /** Next: step one record on, but never past the last; the landing record's counts are
        added, and on the last record, which is quiet, that adds nothing. */
    method HandleNext()
      requires Valid()
      modifies this`currentStep, this`currentStepIndex, this`comparisons, this`swaps
      ensures Valid()
      ensures currentStepIndex == if old(currentStepIndex) + 1 < |steps|
                                  then old(currentStepIndex) + 1 else |steps| - 1
      ensures currentStep == steps[currentStepIndex]
      ensures comparisons == old(comparisons) + Count(currentStep.compared)
      ensures swaps == old(swaps) + Count(currentStep.swapped)
    {
      var nextIndex := if currentStepIndex + 1 < |steps| then currentStepIndex + 1 else |steps| - 1;
      var nextStep := steps[nextIndex];
      if nextIndex == currentStepIndex + 1 {
        CountersAdvance(steps, currentStepIndex);
      }
      comparisons := comparisons + Count(nextStep.compared);
      swaps := swaps + Count(nextStep.swapped);
      currentStep := nextStep;
      currentStepIndex := nextIndex;
    }

    /** Reset: stop, go back to the first record and clear the counters. */
    method HandleReset()
      requires Valid()
      modifies this`isRunning, this`isPaused, this`currentStepIndex, this`currentStep,
               this`comparisons, this`swaps
      ensures Valid()
      ensures !isRunning && !isPaused && currentStepIndex == 0 && currentStep == steps[0]
      ensures comparisons == 0 && swaps == 0
    {
      isRunning := false;
      isPaused := false;
      currentStepIndex := 0;
      currentStep := steps[0];
      comparisons := 0;
      swaps := 0;
    }

    /** Choosing another algorithm stops playback; the effect that watches the key then runs
        `Initialize` for it. */
    method HandleAlgorithmChange(algo: string)
      requires Valid() && algo in Algorithms
      modifies this`selectedAlgorithm, this`isRunning, this`isPaused
      ensures Valid()
      ensures selectedAlgorithm == algo && !isRunning && !isPaused
    {
      selectedAlgorithm := algo;
      isRunning := false;
      isPaused := false;
    }
  }
}
