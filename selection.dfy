/** `selectionSort` (lib/algorithms.ts:56-94): for each position i < n - 1, scan the rest for
    the leftmost minimum and exchange it into position i. */
module Selection {
  import opened Steps

  /** What the inner scan of pass i yields from index j on, with `minIdx` at m, and the
      `minIdx` it ends with. */
  datatype Scan = Scan(steps: seq<Step>, minIdx: nat)

  function ScanFrom(s: seq<int>, i: nat, j: nat, m: nat): (r: Scan)
    requires i < j <= |s| && i <= m < |s|
    ensures i <= r.minIdx < |s|
    decreases |s| - j
  {
    if j == |s| then Scan([], m)
    else
      var next := if s[j] < s[m] then j else m;
      var rest := ScanFrom(s, i, j + 1, next);
      Scan([Step(s, Some([m, j]), None, Some(Range(0, i)), None)] + rest.steps, rest.minIdx)
  }

  /** Pass i: the scan, then the exchange of positions i and `minIdx` (a `swapped` step), or,
      when the minimum already sits at i, a plain step; both mark [0, i] sorted. */
  function SelectionPass(s: seq<int>, i: nat): (r: Run)
    requires i + 1 < |s|
    ensures |r.after| == |s|
  {
    var scan := ScanFrom(s, i, i + 1, i);
    var m := scan.minIdx;
    if m != i then
      var t := Swap(s, i, m);
      Run(scan.steps + [Step(t, None, Some([i, m]), Some(Range(0, i + 1)), None)], t)
    else
      Run(scan.steps + [Marked(s, Range(0, i + 1))], s)
  }

  /** Passes i, i + 1, ..., n - 2. */
  function SelectionPasses(s: seq<int>, i: nat): (r: Run)
    requires i <= |s|
    ensures |r.after| == |s|
    decreases |s| - i
  {
    if i + 1 >= |s| then Run([], s)
    else
      var p := SelectionPass(s, i);
      var rest := SelectionPasses(p.after, i + 1);
      Run(p.steps + rest.steps, rest.after)
  }

  /** Everything `selectionSort` yields for the input `s`. */
  function SelectionTrace(s: seq<int>): seq<Step>
  {
    var r := SelectionPasses(s, 0);
    r.steps + [Marked(r.after, Range(0, |s|))]
  }

  // ---------------------------------------------------------------------------------------
  // The scan

  /** The scan ends at the leftmost minimum of {m} together with [j, n): nothing there is
      smaller, everything in [j, minIdx) is larger, and it moves off m only for a strictly
      smaller element. */
  lemma {:induction false} ScanFindsMin(s: seq<int>, i: nat, j: nat, m: nat)
    requires i < j <= |s| && i <= m < j
    ensures var r := ScanFrom(s, i, j, m).minIdx;
      && (r == m || j <= r)
      && s[r] <= s[m]
      && (r != m ==> s[r] < s[m])
      && (forall k :: j <= k < |s| ==> s[r] <= s[k])
      && (forall k :: j <= k < r ==> s[r] < s[k])
    decreases |s| - j
  {
    if j < |s| {
      var next := if s[j] < s[m] then j else m;
      ScanFindsMin(s, i, j + 1, next);
      var r := ScanFrom(s, i, j + 1, next).minIdx;
      assert r != next ==> s[r] < s[next];
      assert s[next] <= s[j];
    }
  }

  /** c is the leftmost minimum of s[i..hi): nothing in [i, hi) is smaller, and everything in
      [i, c) is larger. */
  ghost predicate FirstMin(s: seq<int>, i: nat, hi: nat, c: int)
    requires hi <= |s|
  {
    && i <= c < hi
    && (forall x :: i <= x < hi ==> s[c] <= s[x])
    && (forall x :: i <= x < c ==> s[x] > s[c])
  }

  /** Every scan step shows the unchanged array, compares [minIdx, k] for k = j, j + 1, ...,
      where minIdx is the leftmost minimum of s[i..k), and marks [0, i) sorted. */
  ghost predicate ScanShaped(steps: seq<Step>, s: seq<int>, i: nat, j: nat)
    requires i <= j <= |s|
  {
    && |steps| == |s| - j
    && forall k :: 0 <= k < |steps| ==>
         && steps[k].arr == s
         && steps[k].sorted == Some(Range(0, i))
         && steps[k].swapped == None && steps[k].highlight == None
         && steps[k].compared.Some? && |steps[k].compared.value| == 2
         && steps[k].compared.value[1] == j + k
         && FirstMin(s, i, j + k, steps[k].compared.value[0])
  }

  /** Moving `minIdx` only to a strictly smaller element keeps it the leftmost minimum. */
  lemma NextMin(s: seq<int>, i: nat, j: nat, m: nat)
    requires i < j < |s| && FirstMin(s, i, j, m)
    ensures FirstMin(s, i, j + 1, if s[j] < s[m] then j else m)
  {
  }

  lemma {:induction false} ScanSteps(s: seq<int>, i: nat, j: nat, m: nat)
    requires i < j <= |s| && FirstMin(s, i, j, m)
    ensures ScanShaped(ScanFrom(s, i, j, m).steps, s, i, j)
    decreases |s| - j
  {
    if j < |s| {
      var next := if s[j] < s[m] then j else m;
      NextMin(s, i, j, m);
      ScanSteps(s, i, j + 1, next);
      var head := Step(s, Some([m, j]), None, Some(Range(0, i)), None);
      var rest := ScanFrom(s, i, j + 1, next).steps;
      forall k | 0 <= k < |[head] + rest|
        ensures ([head] + rest)[k] == if k == 0 then head else rest[k - 1]
      {
      }
    }
  }

  // ---------------------------------------------------------------------------------------
  // A pass

  /** The pass exchanges positions i and minIdx when they differ, so its result is a
      permutation of its input. */
  lemma PassPermutes(s: seq<int>, i: nat)
    requires i + 1 < |s|
    ensures multiset(SelectionPass(s, i).after) == multiset(s)
  {
    var m := ScanFrom(s, i, i + 1, i).minIdx;
    if m != i {
      SwapPermutes(s, i, m);
    }
  }

  /** Pass i emits n - 1 - i comparisons with `sorted = [0, i)`, then one step with
      `sorted = [0, i]` that carries `swapped = [i, minIdx]` exactly when minIdx differs from
      i, and shows the array after that exchange. */
  lemma PassSteps(s: seq<int>, i: nat)
    requires i + 1 < |s|
    ensures var scan := ScanFrom(s, i, i + 1, i);
      var steps := SelectionPass(s, i).steps;
      && |steps| == |s| - i
      && steps[..|s| - i - 1] == scan.steps
      && ScanShaped(steps[..|s| - i - 1], s, i, i + 1)
      && var last := steps[|s| - i - 1];
         && last.sorted == Some(Range(0, i + 1))
         && last.compared == None && last.highlight == None
         && (last.swapped.Some? <==> scan.minIdx != i)
         && (scan.minIdx != i ==> last.swapped == Some([i, scan.minIdx]))
         && last.arr == SelectionPass(s, i).after
  {
    var scan := ScanFrom(s, i, i + 1, i);
    assert FirstMin(s, i, i + 1, i);
    ScanSteps(s, i, i + 1, i);
    var steps := SelectionPass(s, i).steps;
    assert steps[..|s| - i - 1] == scan.steps;
  }

  /** The prefix [0, i) holds the i smallest elements in ascending order. */
  ghost predicate Placed(s: seq<int>, i: nat)
  {
    forall a, b :: 0 <= a < b < |s| && a < i ==> s[a] <= s[b]
  }

  /** Pass i puts the smallest remaining element at position i. */
  lemma PassPlaces(s: seq<int>, i: nat)
    requires i + 1 < |s| && Placed(s, i)
    ensures Placed(SelectionPass(s, i).after, i + 1)
  {
    var m := ScanFrom(s, i, i + 1, i).minIdx;
    ScanFindsMin(s, i, i + 1, i);
    var t := SelectionPass(s, i).after;
    forall a, b | 0 <= a < b < |t| && a < i + 1
      ensures t[a] <= t[b]
    {
      if a == i {
        assert t[a] == s[m];
      }
    }
  }

  /** Passes i .. n - 2 finish sorting an array whose prefix [0, i) is placed. */
  lemma {:induction false} PassesSort(s: seq<int>, i: nat)
    requires i <= |s| && Placed(s, i)
    ensures IsAscending(SelectionPasses(s, i).after)
    decreases |s| - i
  {
    if i + 1 < |s| {
      var t := SelectionPass(s, i).after;
      assert IsAscending(SelectionPasses(t, i + 1).after) by {
        PassPlaces(s, i);
        PassesSort(t, i + 1);
      }
      PassesUnfold(s, i);
    } else {
      PassesDone(s, i);
    }
  }

  /** The passes only exchange elements. */
  lemma {:induction false} PassesPermute(s: seq<int>, i: nat)
    requires i <= |s|
    ensures multiset(SelectionPasses(s, i).after) == multiset(s)
    decreases |s| - i
  {
    if i + 1 < |s| {
      PassPermutes(s, i);
      PassesPermute(SelectionPass(s, i).after, i + 1);
      PassesUnfold(s, i);
    } else {
      PassesDone(s, i);
    }
  }

  lemma PassesUnfold(s: seq<int>, i: nat)
    requires i + 1 < |s|
    ensures SelectionPasses(s, i).steps == SelectionPass(s, i).steps + SelectionPasses(SelectionPass(s, i).after, i + 1).steps
    ensures SelectionPasses(s, i).after == SelectionPasses(SelectionPass(s, i).after, i + 1).after
  {
  }

  /** The trace ends with the ascending permutation of the input, every index marked sorted. */
  lemma SelectionTraceSorts(s: seq<int>)
    ensures EndsSorted(SelectionTrace(s), s)
  {
    var sorted := SelectionPasses(s, 0).after;
    PassesSort(s, 0);
    PassesPermute(s, 0);
    AscendingIsSortedCopy(sorted, s);
  }

  // ---------------------------------------------------------------------------------------
  // The generator

  /** The inner loop of pass i: reads the array, yields a comparison per j, tracks minIdx. */
  method SelectionScan(arr: array<int>, i: nat) returns (emitted: seq<Step>, minIdx: nat)
    requires i + 1 < arr.Length
    ensures emitted == ScanFrom(arr[..], i, i + 1, i).steps
    ensures minIdx == ScanFrom(arr[..], i, i + 1, i).minIdx
  {
    ghost var whole := ScanFrom(arr[..], i, i + 1, i);
    var n := arr.Length;
    var marks := Range(0, i);
    minIdx := i;
    emitted := [];
    for j := i + 1 to n
      invariant i <= minIdx < j
      invariant emitted + ScanFrom(arr[..], i, j, minIdx).steps == whole.steps
      invariant ScanFrom(arr[..], i, j, minIdx).minIdx == whole.minIdx
    {
      ghost var previous, m := emitted, minIdx;
      var comparison := Step(arr[..], Some([minIdx, j]), None, Some(marks), None);
      emitted := emitted + [comparison];
      if arr[j] < arr[minIdx] {
        minIdx := j;
      }
      Regroup3(previous, [comparison], ScanFrom(arr[..], i, j + 1, minIdx).steps);
    }
    assert emitted + [] == emitted;
  }

  /** One pass of the outer loop: the scan, then the exchange into position i. */
  method SelectionStep(arr: array<int>, i: nat) returns (emitted: seq<Step>)
    requires i + 1 < arr.Length
    modifies arr
    ensures emitted == SelectionPass(old(arr[..]), i).steps
    ensures arr[..] == SelectionPass(old(arr[..]), i).after
  {
    ghost var before := arr[..];
    var minIdx;
    emitted, minIdx := SelectionScan(arr, i);
    if minIdx != i {
      arr[i], arr[minIdx] := arr[minIdx], arr[i];
      assert arr[..] == Swap(before, i, minIdx);
      emitted := emitted + [Step(arr[..], None, Some([i, minIdx]), Some(Range(0, i + 1)), None)];
    } else {
      emitted := emitted + [Marked(arr[..], Range(0, i + 1))];
    }
  }

  /** The outer loop of `selectionSort`, on the working array. */
  method SelectionLoop(arr: array<int>) returns (steps: seq<Step>)
    modifies arr
    ensures steps == SelectionPasses(old(arr[..]), 0).steps
    ensures arr[..] == SelectionPasses(old(arr[..]), 0).after
  {
    ghost var total := SelectionPasses(arr[..], 0);
    var n := arr.Length;
    steps := [];
    var i := 0;
    while i < n - 1
      invariant 0 <= i <= n
      invariant steps + SelectionPasses(arr[..], i).steps == total.steps
      invariant SelectionPasses(arr[..], i).after == total.after
    {
      ghost var before := arr[..];
      PassesStepAhead(before, i, steps, total);
      var emitted := SelectionStep(arr, i);
      assert arr[..] == SelectionPass(before, i).after;
      steps := steps + emitted;
      i := i + 1;
    }
    PassesDone(arr[..], i);
    AppendEmpty(steps);
  }

  /** `selectionSort`: the caller's array is only read; the sort runs on a fresh copy. */
  method SelectionSort(a: array<int>) returns (steps: seq<Step>)
    ensures steps == SelectionTrace(a[..])
    ensures EndsSorted(steps, a[..])
  {
    var arr := new int[a.Length](k requires 0 <= k < a.Length reads a => a[k]);
    assert arr[..] == a[..];
    steps := SelectionLoop(arr);
    TraceCompletes(a[..], steps, arr[..]);
    steps := steps + [Marked(arr[..], Range(0, arr.Length))];
  }

  /** After the outer loop, the final record completes the trace. */
  lemma TraceCompletes(s: seq<int>, emitted: seq<Step>, after: seq<int>)
    requires emitted == SelectionPasses(s, 0).steps && after == SelectionPasses(s, 0).after
    ensures emitted + [Marked(after, Range(0, |s|))] == SelectionTrace(s)
    ensures EndsSorted(SelectionTrace(s), s)
  {
    SelectionTraceSorts(s);
  }

  /** The outer loop stops once i + 1 reaches n. */
  lemma PassesDone(s: seq<int>, i: nat)
    requires i <= |s| && i + 1 >= |s|
    ensures SelectionPasses(s, i) == Run([], s)
  {
  }

  /** One outer iteration keeps the loop's "emitted + still to come == whole trace" balance. */
  lemma PassesStepAhead(s: seq<int>, i: nat, emitted: seq<Step>, total: Run)
    requires i + 1 < |s|
    requires emitted + SelectionPasses(s, i).steps == total.steps && SelectionPasses(s, i).after == total.after
    ensures emitted + SelectionPass(s, i).steps + SelectionPasses(SelectionPass(s, i).after, i + 1).steps == total.steps
    ensures SelectionPasses(SelectionPass(s, i).after, i + 1).after == total.after
  {
    PassesUnfold(s, i);
    Regroup3(emitted, SelectionPass(s, i).steps, SelectionPasses(SelectionPass(s, i).after, i + 1).steps);
  }
}
