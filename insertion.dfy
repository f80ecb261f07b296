/** `insertionSort` (lib/algorithms.ts:100-136): for i = 1, 2, ..., take key = arr[i], shift
    the larger elements of arr[0 .. i) one place right, and drop key into the gap. */
module Insertion {
  import opened Steps

  /** Where the shifting loop stops when it starts at j: the largest k <= j with t[k] <= key,
      or -1 when there is none. */
  function Stop(t: seq<int>, key: int, j: int): (k: int)
    requires -1 <= j < |t|
    ensures -1 <= k <= j
    decreases j + 1
  {
    if j >= 0 && t[j] > key then Stop(t, key, j - 1) else j
  }

  /** The shifting loop of pass i from index j on, with the working array t: a comparison
      step for each element larger than key, each followed by the shift; when it stops, the
      write of key into the gap at j + 1. */
  function Shift(t: seq<int>, i: nat, key: int, j: int): (r: Run)
    requires -1 <= j < i < |t|
    ensures |r.after| == |t|
    decreases j + 1
  {
    if j >= 0 && t[j] > key then
      var rest := Shift(t[j + 1 := t[j]], i, key, j - 1);
      Run([Step(t, Some([j, j + 1]), None, Some(Range(0, i)), None)] + rest.steps, rest.after)
    else
      Run([], t[j + 1 := key])
  }

  /** Pass i: the `highlight = [i]` step, the shifts, and the step marking [0, i] sorted. */
  function InsertionPass(s: seq<int>, i: nat): (r: Run)
    requires 1 <= i < |s|
    ensures |r.after| == |s|
  {
    var shift := Shift(s, i, s[i], i - 1);
    Run([Step(s, None, None, Some(Range(0, i)), Some([i]))] + shift.steps + [Marked(shift.after, Range(0, i + 1))],
        shift.after)
  }

  /** Passes i, i + 1, ..., n - 1. */
  function InsertionPasses(s: seq<int>, i: nat): (r: Run)
    requires 1 <= i
    ensures |r.after| == |s|
    decreases |s| - i
  {
    if i >= |s| then Run([], s)
    else
      var p := InsertionPass(s, i);
      var rest := InsertionPasses(p.after, i + 1);
      Run(p.steps + rest.steps, rest.after)
  }

  /** Everything `insertionSort` yields for the input `s`. */
  function InsertionTrace(s: seq<int>): seq<Step>
  {
    var r := InsertionPasses(s, 1);
    r.steps + [Marked(r.after, Range(0, |s|))]
  }

  // ---------------------------------------------------------------------------------------
  // The shifting loop

  /** The loop stops at an element not larger than key (or runs off the front), and every
      element it passes over is larger than key. */
  lemma {:induction false} StopBounds(t: seq<int>, key: int, j: int)
    requires -1 <= j < |t|
    ensures var k := Stop(t, key, j);
      && (k >= 0 ==> t[k] <= key)
      && (forall y :: k < y <= j ==> t[y] > key)
    decreases j + 1
  {
    if j >= 0 && t[j] > key {
      StopBounds(t, key, j - 1);
    }
  }

  /** Stop only reads positions up to j. */
  lemma {:induction false} StopReadsPrefix(t: seq<int>, u: seq<int>, key: int, j: int)
    requires -1 <= j < |t| && j < |u|
    requires forall y :: 0 <= y <= j ==> t[y] == u[y]
    ensures Stop(t, key, j) == Stop(u, key, j)
    decreases j + 1
  {
    if j >= 0 && t[j] > key {
      StopReadsPrefix(t, u, key, j - 1);
    }
  }

  /** What the loop leaves behind, relative to the array t it starts from at j: positions up
      to the stop k are untouched, key lands at k + 1, the elements in (k, j] move one place
      right, and everything after j + 1 is untouched. */
  ghost predicate ShiftedFrom(r: seq<int>, t: seq<int>, key: int, j: int, k: int)
    requires |r| == |t| && -1 <= k <= j && j + 1 < |t|
  {
    && (forall x :: 0 <= x <= k ==> r[x] == t[x])
    && r[k + 1] == key
    && (forall x :: k + 1 < x <= j + 1 ==> r[x] == t[x - 1])
    && (forall x :: j + 1 < x < |t| ==> r[x] == t[x])
  }

  lemma {:induction false} ShiftResult(t: seq<int>, i: nat, key: int, j: int)
    requires -1 <= j < i < |t|
    ensures ShiftedFrom(Shift(t, i, key, j).after, t, key, j, Stop(t, key, j))
    ensures |Shift(t, i, key, j).steps| == j - Stop(t, key, j)
    decreases j + 1
  {
    if j >= 0 && t[j] > key {
      var u := t[j + 1 := t[j]];
      ShiftResult(u, i, key, j - 1);
      StopReadsPrefix(t, u, key, j - 1);
      ShiftUnfold(t, i, key, j);
    } else {
      ShiftDone(t, i, key, j);
    }
  }

  lemma ShiftUnfold(t: seq<int>, i: nat, key: int, j: int)
    requires 0 <= j < i < |t| && t[j] > key
    ensures Shift(t, i, key, j).steps ==
      [Step(t, Some([j, j + 1]), None, Some(Range(0, i)), None)] + Shift(t[j + 1 := t[j]], i, key, j - 1).steps
    ensures Shift(t, i, key, j).after == Shift(t[j + 1 := t[j]], i, key, j - 1).after
    ensures Stop(t, key, j) == Stop(t, key, j - 1)
  {
  }

  lemma ShiftDone(t: seq<int>, i: nat, key: int, j: int)
    requires -1 <= j < i < |t| && !(j >= 0 && t[j] > key)
    ensures Shift(t, i, key, j) == Run([], t[j + 1 := key])
    ensures Stop(t, key, j) == j
  {
  }

  /** Every shifting step compares [y, y + 1] for y = j, j - 1, ... and marks [0, i) sorted. */
  ghost predicate ShiftShaped(steps: seq<Step>, i: nat, j: int)
  {
    forall k :: 0 <= k < |steps| ==>
      && steps[k].compared == Some([j - k, j - k + 1])
      && steps[k].swapped == None && steps[k].highlight == None
      && steps[k].sorted == Some(Range(0, i))
  }

  lemma {:induction false} ShiftSteps(t: seq<int>, i: nat, key: int, j: int)
    requires -1 <= j < i < |t|
    ensures ShiftShaped(Shift(t, i, key, j).steps, i, j)
    decreases j + 1
  {
    if j >= 0 && t[j] > key {
      var head := Step(t, Some([j, j + 1]), None, Some(Range(0, i)), None);
      var rest := Shift(t[j + 1 := t[j]], i, key, j - 1).steps;
      ShiftSteps(t[j + 1 := t[j]], i, key, j - 1);
      ShiftUnfold(t, i, key, j);
      forall k | 0 <= k < |[head] + rest|
        ensures ([head] + rest)[k] == if k == 0 then head else rest[k - 1]
      {
      }
    } else {
      ShiftDone(t, i, key, j);
    }
  }

  // ---------------------------------------------------------------------------------------
  // Counting the shifts

  /** How many elements of p are larger than key. */
  function CountAbove(p: seq<int>, key: int): nat
  {
    if p == [] then 0
    else CountAbove(p[..|p| - 1], key) + (if p[|p| - 1] > key then 1 else 0)
  }

  /** An ascending sequence whose last element is at most key has nothing above key. */
  lemma {:induction false} NoneAbove(p: seq<int>, key: int)
    requires IsAscending(p) && (p == [] || p[|p| - 1] <= key)
    ensures CountAbove(p, key) == 0
  {
    if p != [] {
      var q := p[..|p| - 1];
      assert IsAscending(q);
      assert q == [] || q[|q| - 1] <= p[|p| - 1];
      NoneAbove(q, key);
    }
  }

  /** With t[0 .. j] ascending, the loop makes one shift per element of t[0 .. j] larger
      than key. */
  lemma {:induction false} StopCounts(t: seq<int>, key: int, j: int)
    requires -1 <= j < |t| && IsAscending(t[..j + 1])
    ensures CountAbove(t[..j + 1], key) == j - Stop(t, key, j)
    decreases j + 1
  {
    if j >= 0 && t[j] > key {
      assert t[..j + 1][..j] == t[..j];
      assert IsAscending(t[..j]);
      StopCounts(t, key, j - 1);
    } else if j >= 0 {
      NoneAbove(t[..j + 1], key);
    }
  }

  // ---------------------------------------------------------------------------------------
  // A pass

  /** Pass i: the prefix [0, i] ends up holding key and the old prefix, in order when the old
      prefix was in order; nothing after i moves. */
  lemma PassInserts(s: seq<int>, i: nat)
    requires 1 <= i < |s|
    ensures var r := InsertionPass(s, i).after;
      && multiset(r[..i + 1]) == multiset(s[..i + 1])
      && r[i + 1..] == s[i + 1..]
      && (IsAscending(s[..i]) ==> IsAscending(r[..i + 1]))
  {
    var key := s[i];
    var r := InsertionPass(s, i).after;
    var k := Stop(s, key, i - 1);
    ShiftResult(s, i, key, i - 1);
    StopBounds(s, key, i - 1);
    assert r[i + 1..] == s[i + 1..];
    PassLayout(s, r, i, k);
    InsertedPermutes(s, i, k);
    if IsAscending(s[..i]) {
      InsertedAscending(s, r, i, k);
    }
  }

  /** The prefix [0, i] after the pass: s[0 .. k], then key, then s(k .. i). */
  lemma PassLayout(s: seq<int>, r: seq<int>, i: nat, k: int)
    requires 1 <= i < |s| && |r| == |s| && -1 <= k <= i - 1
    requires ShiftedFrom(r, s, s[i], i - 1, k)
    ensures r[..i + 1] == s[..k + 1] + [s[i]] + s[k + 1..i]
  {
    var w := s[..k + 1] + [s[i]] + s[k + 1..i];
    forall x | 0 <= x <= i
      ensures r[x] == w[x]
    {
      if x > k + 1 {
        assert w[x] == s[k + 1..i][x - k - 2];
      }
    }
  }

  lemma InsertedPermutes(s: seq<int>, i: nat, k: int)
    requires 1 <= i < |s| && -1 <= k <= i - 1
    ensures multiset(s[..k + 1] + [s[i]] + s[k + 1..i]) == multiset(s[..i + 1])
  {
    calc {
      multiset(s[..k + 1] + [s[i]] + s[k + 1..i]);
      multiset(s[..k + 1]) + multiset{s[i]} + multiset(s[k + 1..i]);
      == { assert s[..i] == s[..k + 1] + s[k + 1..i]; }
      multiset(s[..i]) + multiset{s[i]};
      == { assert s[..i + 1] == s[..i] + [s[i]]; }
      multiset(s[..i + 1]);
    }
  }

  lemma InsertedAscending(s: seq<int>, r: seq<int>, i: nat, k: int)
    requires 1 <= i < |s| && |r| == |s| && -1 <= k <= i - 1
    requires ShiftedFrom(r, s, s[i], i - 1, k)
    requires k >= 0 ==> s[k] <= s[i]
    requires forall y :: k < y <= i - 1 ==> s[y] > s[i]
    requires IsAscending(s[..i])
    ensures IsAscending(r[..i + 1])
  {
    forall a, b | 0 <= a < b <= i
      ensures r[a] <= r[b]
    {
      if b <= k {
        assert s[..i][a] <= s[..i][b];
      } else if b == k + 1 {
        assert s[..i][a] <= s[..i][k];
      } else if a <= k {
        assert s[..i][a] <= s[..i][b - 1];
      } else if a == k + 1 {
        assert s[b - 1] > s[i];
      } else {
        assert s[..i][a - 1] <= s[..i][b - 1];
      }
    }
  }

  /** Pass i emits `highlight = [i]`, then one `compared = [j, j + 1]` step for each element
      of arr[0 .. i) larger than key (j = i - 1, i - 2, ...), then the step marking [0, i]
      sorted; all but the last mark [0, i) sorted. */
  lemma PassSteps(s: seq<int>, i: nat)
    requires 1 <= i < |s| && IsAscending(s[..i])
    ensures var steps := InsertionPass(s, i).steps;
      var shifts := CountAbove(s[..i], s[i]);
      && |steps| == shifts + 2
      && steps[0] == Step(s, None, None, Some(Range(0, i)), Some([i]))
      && ShiftShaped(steps[1..shifts + 1], i, i - 1)
      && steps[shifts + 1] == Marked(InsertionPass(s, i).after, Range(0, i + 1))
  {
    var key := s[i];
    var shift := Shift(s, i, key, i - 1);
    ShiftResult(s, i, key, i - 1);
    ShiftSteps(s, i, key, i - 1);
    assert s[..i - 1 + 1] == s[..i];
    StopCounts(s, key, i - 1);
    var steps := InsertionPass(s, i).steps;
    assert steps[1..|shift.steps| + 1] == shift.steps;
  }

  /** Every position before i is in ascending order. */
  lemma {:induction false} PassesSort(s: seq<int>, i: nat)
    requires 1 <= i && (|s| == 0 || (i <= |s| && IsAscending(s[..i])))
    ensures IsAscending(InsertionPasses(s, i).after)
    ensures multiset(InsertionPasses(s, i).after) == multiset(s)
    decreases |s| - i
  {
    if i < |s| {
      var t := InsertionPass(s, i).after;
      assert IsAscending(t[..i + 1]) && multiset(t) == multiset(s) by {
        PassInserts(s, i);
        assert s == s[..i + 1] + s[i + 1..];
        assert t == t[..i + 1] + t[i + 1..];
      }
      PassesSort(t, i + 1);
      PassesUnfold(s, i);
    } else {
      PassesDone(s, i);
      assert |s| > 0 ==> s[..i] == s;
    }
  }

  lemma PassesUnfold(s: seq<int>, i: nat)
    requires 1 <= i < |s|
    ensures InsertionPasses(s, i).steps == InsertionPass(s, i).steps + InsertionPasses(InsertionPass(s, i).after, i + 1).steps
    ensures InsertionPasses(s, i).after == InsertionPasses(InsertionPass(s, i).after, i + 1).after
  {
  }

  lemma PassesDone(s: seq<int>, i: nat)
    requires 1 <= i && i >= |s|
    ensures InsertionPasses(s, i) == Run([], s)
  {
  }

  /** The trace ends with the ascending permutation of the input, every index marked sorted. */
  lemma InsertionTraceSorts(s: seq<int>)
    ensures EndsSorted(InsertionTrace(s), s)
  {
    var sorted := InsertionPasses(s, 1).after;
    assert |s| >= 1 ==> IsAscending(s[..1]);
    PassesSort(s, 1);
    AscendingIsSortedCopy(sorted, s);
  }

  // ---------------------------------------------------------------------------------------
  // The generator

  /** One pass of the outer loop: highlight i, shift the larger elements right, place key. */
  method InsertionStep(arr: array<int>, i: nat) returns (emitted: seq<Step>)
    requires 1 <= i < arr.Length
    modifies arr
    ensures emitted == InsertionPass(old(arr[..]), i).steps
    ensures arr[..] == InsertionPass(old(arr[..]), i).after
  {
    ghost var start := arr[..];
    ghost var whole := Shift(start, i, start[i], i - 1);
    var key := arr[i];
    var j := i - 1;
    var marks := Range(0, i);
    var highlight := Step(arr[..], None, None, Some(marks), Some([i]));
    var shifts := [];
    while j >= 0 && arr[j] > key
      invariant -1 <= j < i
      invariant shifts + Shift(arr[..], i, key, j).steps == whole.steps
      invariant Shift(arr[..], i, key, j).after == whole.after
      decreases j + 1
    {
      ghost var before, previous := arr[..], shifts;
      ShiftUnfold(before, i, key, j);
      var comparison := Step(arr[..], Some([j, j + 1]), None, Some(marks), None);
      shifts := shifts + [comparison];
      arr[j + 1] := arr[j];
      assert arr[..] == before[j + 1 := before[j]];
      Regroup3(previous, [comparison], Shift(arr[..], i, key, j - 1).steps);
      j := j - 1;
    }
    ShiftDone(arr[..], i, key, j);
    AppendEmpty(shifts);
    arr[j + 1] := key;
    emitted := [highlight] + shifts + [Marked(arr[..], Range(0, i + 1))];
  }

  /** The outer loop of `insertionSort`, on the working array. */
  method InsertionLoop(arr: array<int>) returns (steps: seq<Step>)
    modifies arr
    ensures steps == InsertionPasses(old(arr[..]), 1).steps
    ensures arr[..] == InsertionPasses(old(arr[..]), 1).after
  {
    ghost var total := InsertionPasses(arr[..], 1);
    steps := [];
    var i := 1;
    while i < arr.Length
      invariant 1 <= i
      invariant steps + InsertionPasses(arr[..], i).steps == total.steps
      invariant InsertionPasses(arr[..], i).after == total.after
      decreases arr.Length - i
    {
      ghost var before := arr[..];
      PassesStepAhead(before, i, steps, total);
      var emitted := InsertionStep(arr, i);
      steps := steps + emitted;
      i := i + 1;
    }
    PassesDone(arr[..], i);
    AppendEmpty(steps);
  }

  /** `insertionSort`: the caller's array is only read; the sort runs on a fresh copy. */
  method InsertionSort(a: array<int>) returns (steps: seq<Step>)
    ensures steps == InsertionTrace(a[..])
    ensures EndsSorted(steps, a[..])
  {
    var arr := new int[a.Length](k requires 0 <= k < a.Length reads a => a[k]);
    assert arr[..] == a[..];
    steps := InsertionLoop(arr);
    TraceCompletes(a[..], steps, arr[..]);
    steps := steps + [Marked(arr[..], Range(0, arr.Length))];
  }

  /** After the outer loop, the final record completes the trace. */
  lemma TraceCompletes(s: seq<int>, emitted: seq<Step>, after: seq<int>)
    requires emitted == InsertionPasses(s, 1).steps && after == InsertionPasses(s, 1).after
    ensures emitted + [Marked(after, Range(0, |s|))] == InsertionTrace(s)
    ensures EndsSorted(InsertionTrace(s), s)
  {
    InsertionTraceSorts(s);
  }

  /** One outer iteration keeps the loop's "emitted + still to come == whole trace" balance. */
  lemma PassesStepAhead(s: seq<int>, i: nat, emitted: seq<Step>, total: Run)
    requires 1 <= i < |s|
    requires emitted + InsertionPasses(s, i).steps == total.steps && InsertionPasses(s, i).after == total.after
    ensures emitted + InsertionPass(s, i).steps + InsertionPasses(InsertionPass(s, i).after, i + 1).steps == total.steps
    ensures InsertionPasses(InsertionPass(s, i).after, i + 1).after == total.after
  {
    PassesUnfold(s, i);
    Regroup3(emitted, InsertionPass(s, i).steps, InsertionPasses(InsertionPass(s, i).after, i + 1).steps);
  }
}
