/** `bubbleSort` (lib/algorithms.ts:23-50): adjacent-pair passes over a private copy. */
module Bubble {
  import opened Steps

  /** The `sorted` list attached to every step of pass i: the n - i indices n - 1 down to i
      (so all of them at pass 0, and fewer as the run goes on). */
  function PassMarks(n: nat, i: nat): seq<int>
    requires i <= n
  {
    Desc(n, n - i)
  }

  /** The array after inner iteration j: the pair [j, j + 1] exchanged when out of order. */
  function Exchange(s: seq<int>, j: nat): seq<int>
    requires j + 1 < |s|
  {
    if s[j] > s[j + 1] then Swap(s, j, j + 1) else s
  }

  /** What inner iteration j of pass i yields: the comparison of [j, j + 1], then the swap
      of that pair when it was out of order. */
  function IterationSteps(s: seq<int>, i: nat, j: nat): seq<Step>
    requires i < |s| && j + 1 < |s|
  {
    var marks := Some(PassMarks(|s|, i));
    [Step(s, Some([j, j + 1]), None, marks, None)] +
    if s[j] > s[j + 1] then [Step(Swap(s, j, j + 1), None, Some([j, j + 1]), marks, None)] else []
  }

  /** Pass i from inner index j on: the steps it emits and the array after it. */
  function Pass(s: seq<int>, i: nat, j: nat): (r: Run)
    requires i < |s| && j <= |s| - i - 1
    ensures |r.after| == |s|
    decreases |s| - i - 1 - j
  {
    if j == |s| - i - 1 then Run([], s)
    else
      var rest := Pass(Exchange(s, j), i, j + 1);
      Run(IterationSteps(s, i, j) + rest.steps, rest.after)
  }

  /** Passes i, i + 1, ..., n - 1. */
  function Passes(s: seq<int>, i: nat): (r: Run)
    requires i <= |s|
    ensures |r.after| == |s|
    decreases |s| - i
  {
    if i == |s| then Run([], s)
    else
      var p := Pass(s, i, 0);
      var rest := Passes(p.after, i + 1);
      Run(p.steps + rest.steps, rest.after)
  }

  /** Everything `bubbleSort` yields for the input `s`. */
  function BubbleTrace(s: seq<int>): seq<Step>
  {
    var r := Passes(s, 0);
    r.steps + [Marked(r.after, Range(0, |s|))]
  }

  /** One inner iteration only exchanges two elements. */
  lemma ExchangePermutes(s: seq<int>, j: nat)
    requires j + 1 < |s|
    ensures multiset(Exchange(s, j)) == multiset(s)
  {
    if s[j] > s[j + 1] {
      SwapPermutes(s, j, j + 1);
    }
  }

  /** A pass only exchanges elements: its result is a permutation of its input. */
  lemma {:induction false} PassPermutes(s: seq<int>, i: nat, j: nat)
    requires i < |s| && j <= |s| - i - 1
    ensures multiset(Pass(s, i, j).after) == multiset(s)
    decreases |s| - i - 1 - j
  {
    if j < |s| - i - 1 {
      ExchangePermutes(s, j);
      PassPermutes(Exchange(s, j), i, j + 1);
      PassUnfold(s, i, j);
    }
  }

  /** So are all the passes from i on. */
  lemma {:induction false} PassesPermute(s: seq<int>, i: nat)
    requires i <= |s|
    ensures multiset(Passes(s, i).after) == multiset(s)
    decreases |s| - i
  {
    if i < |s| {
      PassPermutes(s, i, 0);
      PassesPermute(Pass(s, i, 0).after, i + 1);
      PassesUnfold(s, i);
    } else {
      PassesNone(s, i);
    }
  }

  /** Every position from m on holds a value at least as large as everything before it:
      the tail from m is in its final place. */
  ghost predicate Settled(s: seq<int>, m: nat)
  {
    forall a, b :: 0 <= a < b < |s| && m <= b ==> s[a] <= s[b]
  }

  /** A step of pass i: `sorted` is PassMarks(n, i), and it carries exactly one of `compared`
      and `swapped`, an adjacent pair [j, j + 1] inside the unsettled prefix [0, n - i). */
  ghost predicate IsPassStep(st: Step, n: nat, i: nat)
    requires i <= n
  {
    && st.sorted == Some(PassMarks(n, i))
    && st.highlight == None
    && |st.arr| == n
    && st.compared.Some? != st.swapped.Some?
    && var pair := if st.compared.Some? then st.compared.value else st.swapped.value;
       |pair| == 2 && 0 <= pair[0] && pair[1] == pair[0] + 1 && pair[1] < n - i
  }

  /** Step k compares an adjacent pair, and the next step swaps that pair exactly when it
      was out of order, showing the swapped array. */
  ghost predicate SwapFollowsIffOutOfOrder(steps: seq<Step>, k: nat)
    requires k < |steps|
  {
    var st := steps[k];
    && st.compared.Some? && |st.compared.value| == 2
    && var p := st.compared.value[0];
       var q := st.compared.value[1];
       && 0 <= p < q < |st.arr|
       && ((k + 1 < |steps| && steps[k + 1].swapped == st.compared) <==> st.arr[p] > st.arr[q])
       && (k + 1 < |steps| && steps[k + 1].swapped == st.compared ==>
             steps[k + 1].arr == Swap(st.arr, p, q))
  }

  /** Every step of pass i carries `sorted = [n-1, ..., i]` and one adjacent pair. */
  ghost predicate PassShaped(steps: seq<Step>, s: seq<int>, i: nat)
    requires i <= |s|
  {
    forall k :: 0 <= k < |steps| ==> IsPassStep(steps[k], |s|, i)
  }

  lemma {:induction false} PassSteps(s: seq<int>, i: nat, j: nat)
    requires i < |s| && j <= |s| - i - 1
    ensures PassShaped(Pass(s, i, j).steps, s, i)
    decreases |s| - i - 1 - j
  {
    if j < |s| - i - 1 {
      var head := IterationSteps(s, i, j);
      IterationShaped(s, i, j);
      PassSteps(Exchange(s, j), i, j + 1);
      PrependPassSteps(head, Pass(Exchange(s, j), i, j + 1).steps, s, i);
    }
  }

  lemma IterationShaped(s: seq<int>, i: nat, j: nat)
    requires i < |s| && j + 1 < |s| - i
    ensures forall k :: 0 <= k < |IterationSteps(s, i, j)| ==> IsPassStep(IterationSteps(s, i, j)[k], |s|, i)
  {
    var head := IterationSteps(s, i, j);
    assert IsPassStep(head[0], |s|, i);
    if s[j] > s[j + 1] {
      assert IsPassStep(head[1], |s|, i);
    }
  }

  lemma PrependPassSteps(head: seq<Step>, rest: seq<Step>, s: seq<int>, i: nat)
    requires i <= |s|
    requires forall k :: 0 <= k < |head| ==> IsPassStep(head[k], |s|, i)
    requires PassShaped(rest, s, i)
    ensures PassShaped(head + rest, s, i)
  {
    forall k | 0 <= k < |head + rest|
      ensures IsPassStep((head + rest)[k], |s|, i)
    {
      if k >= |head| {
        assert (head + rest)[k] == rest[k - |head|];
      } else {
        assert (head + rest)[k] == head[k];
      }
    }
  }

  /** Every comparison is followed by the swap of its pair exactly when the pair was out of
      order, and every swap directly follows the comparison of its pair. */
  ghost predicate SwapsMatchComparisons(steps: seq<Step>)
  {
    && (forall k :: 0 <= k < |steps| && steps[k].compared.Some? ==> SwapFollowsIffOutOfOrder(steps, k))
    && (forall k :: 0 <= k < |steps| && steps[k].swapped.Some? ==>
          k > 0 && steps[k - 1].compared == steps[k].swapped)
  }

  /** Prepending a comparison step (and the swap it causes, if any) keeps the matching. */
  lemma PrependComparison(head: seq<Step>, rest: seq<Step>)
    requires SwapsMatchComparisons(rest)
    requires 1 <= |head| <= 2 && head[0].compared.Some? && head[0].swapped == None
    requires SwapFollowsIffOutOfOrder(head + rest, 0)
    requires |head| == 2 ==> head[1].compared == None && head[1].swapped == head[0].compared
    ensures SwapsMatchComparisons(head + rest)
  {
    var steps := head + rest;
    forall k | 0 <= k < |steps| && steps[k].compared.Some?
      ensures SwapFollowsIffOutOfOrder(steps, k)
    {
      if k > 0 {
        assert k >= |head|;
        assert steps[k] == rest[k - |head|];
        assert SwapFollowsIffOutOfOrder(rest, k - |head|);
        assert k + 1 < |steps| ==> steps[k + 1] == rest[k + 1 - |head|];
      }
    }
    forall k | 0 <= k < |steps| && steps[k].swapped.Some?
      ensures k > 0 && steps[k - 1].compared == steps[k].swapped
    {
      if k >= |head| {
        assert steps[k] == rest[k - |head|];
        if k > |head| {
          assert steps[k - 1] == rest[k - 1 - |head|];
        }
      }
    }
  }

  /** Within a pass, a `swapped=[j, j+1]` step follows the `compared=[j, j+1]` step exactly
      when arr[j] > arr[j+1], and every swap step is preceded by the comparison of its pair. */
  lemma {:induction false} PassSwapsOutOfOrder(s: seq<int>, i: nat, j: nat)
    requires i < |s| && j <= |s| - i - 1
    ensures SwapsMatchComparisons(Pass(s, i, j).steps)
    decreases |s| - i - 1 - j
  {
    if j < |s| - i - 1 {
      var head := IterationSteps(s, i, j);
      var rest := Pass(Exchange(s, j), i, j + 1).steps;
      PassSwapsOutOfOrder(Exchange(s, j), i, j + 1);
      assert rest != [] ==> rest[0].swapped == None;
      assert |head + rest| > 1 ==> (head + rest)[1] == if |head| == 2 then head[1] else rest[0];
      PrependComparison(head, rest);
    }
  }

  /** Position m holds a maximum of t[0 .. m]. */
  ghost predicate MaxAt(t: seq<int>, m: nat)
    requires m < |t|
  {
    forall k :: 0 <= k < m ==> t[k] <= t[m]
  }

  /** t and s agree from position m on. */
  ghost predicate SameFrom(t: seq<int>, s: seq<int>, m: nat)
  {
    |t| == |s| && forall k :: m <= k < |s| ==> t[k] == s[k]
  }

  /** The inner loop carries the largest element of [0, j] to position n - i - 1 and does
      not touch positions from n - i on. */
  lemma {:induction false} PassCarriesMax(s: seq<int>, i: nat, j: nat)
    requires i < |s| && j <= |s| - i - 1
    requires MaxAt(s, j)
    ensures MaxAt(Pass(s, i, j).after, |s| - i - 1)
    ensures SameFrom(Pass(s, i, j).after, s, |s| - i)
    decreases |s| - i - 1 - j
  {
    if j < |s| - i - 1 {
      assert MaxAt(Exchange(s, j), j + 1);
      PassCarriesMax(Exchange(s, j), i, j + 1);
    }
  }

  /** A permutation that keeps the settled tail from m in place keeps it settled against the
      prefix: every element of the prefix is still below the tail. */
  lemma PrefixStaysBelow(s: seq<int>, t: seq<int>, m: nat)
    requires m <= |s| && multiset(t) == multiset(s) && SameFrom(t, s, m)
    requires Settled(s, m)
    ensures forall a, b :: 0 <= a < m <= b < |t| ==> t[a] <= t[b]
  {
    PrefixPermutes(s, t, m);
    forall a, b | 0 <= a < m <= b < |t|
      ensures t[a] <= t[b]
    {
      assert t[a] in multiset(t[..m]);
      var c :| 0 <= c < m && s[c] == t[a];
    }
  }

  /** Permutations that agree from m on are permutations of each other before m. */
  lemma PrefixPermutes(s: seq<int>, t: seq<int>, m: nat)
    requires m <= |s| && multiset(t) == multiset(s) && SameFrom(t, s, m)
    ensures multiset(t[..m]) == multiset(s[..m])
  {
    assert t[m..] == s[m..];
    calc {
      multiset(t[..m]);
      == { assert t == t[..m] + t[m..]; }
      multiset(t) - multiset(t[m..]);
      ==
      multiset(s) - multiset(s[m..]);
      == { assert s == s[..m] + s[m..]; }
      multiset(s[..m]);
    }
  }

  /** After pass i, arr[n-1-i .. n) holds the i + 1 largest elements in ascending order. */
  lemma PassSettles(s: seq<int>, i: nat)
    requires i < |s| && Settled(s, |s| - i)
    ensures Settled(Pass(s, i, 0).after, |s| - i - 1)
  {
    var t := Pass(s, i, 0).after;
    var m := |s| - i;
    PassCarriesMax(s, i, 0);
    PassPermutes(s, i, 0);
    PrefixStaysBelow(s, t, m);
  }

  /** Passes i .. n - 1 sort an array whose tail from n - i is already settled: the
      whole result is settled, that is, ascending. */
  lemma {:induction false} PassesSort(s: seq<int>, i: nat)
    requires i <= |s| && Settled(s, |s| - i)
    ensures Settled(Passes(s, i).after, 0)
    decreases |s| - i
  {
    if i < |s| {
      var t := Pass(s, i, 0).after;
      assert Settled(t, |t| - (i + 1)) by { PassSettles(s, i); }
      PassesSort(t, i + 1);
      assert Passes(s, i).after == Passes(t, i + 1).after by { PassesUnfold(s, i); }
    } else {
      PassesNone(s, i);
    }
  }

  lemma PassesUnfold(s: seq<int>, i: nat)
    requires i < |s|
    ensures Passes(s, i).after == Passes(Pass(s, i, 0).after, i + 1).after
  {
  }

  /** The outer loop stops at i = n. */
  lemma PassesNone(s: seq<int>, i: nat)
    requires i == |s|
    ensures Passes(s, i) == Run([], s)
  {
  }

  /** The inner loop stops at j = n - i - 1. */
  lemma PassDone(s: seq<int>, i: nat)
    requires i < |s|
    ensures Pass(s, i, |s| - i - 1) == Run([], s)
  {
  }

  lemma PassUnfold(s: seq<int>, i: nat, j: nat)
    requires i < |s| && j < |s| - i - 1
    ensures Pass(s, i, j).steps == IterationSteps(s, i, j) + Pass(Exchange(s, j), i, j + 1).steps
    ensures Pass(s, i, j).after == Pass(Exchange(s, j), i, j + 1).after
  {
  }

  lemma PassesStep(s: seq<int>, i: nat)
    requires i < |s|
    ensures Passes(s, i).steps == Pass(s, i, 0).steps + Passes(Pass(s, i, 0).after, i + 1).steps
    ensures Passes(s, i).after == Passes(Pass(s, i, 0).after, i + 1).after
  {
  }

  /** One inner iteration keeps the loop's "emitted + still to come == whole pass" balance. */
  lemma PassStepAhead(s: seq<int>, i: nat, j: nat, emitted: seq<Step>, whole: Run)
    requires i < |s| && j < |s| - i - 1
    requires emitted + Pass(s, i, j).steps == whole.steps && Pass(s, i, j).after == whole.after
    ensures emitted + IterationSteps(s, i, j) + Pass(Exchange(s, j), i, j + 1).steps == whole.steps
    ensures Pass(Exchange(s, j), i, j + 1).after == whole.after
  {
    PassUnfold(s, i, j);
    Regroup3(emitted, IterationSteps(s, i, j), Pass(Exchange(s, j), i, j + 1).steps);
  }

  /** One outer iteration keeps the loop's "emitted + still to come == whole trace" balance. */
  lemma PassesStepAhead(s: seq<int>, i: nat, emitted: seq<Step>, total: Run)
    requires i < |s|
    requires emitted + Passes(s, i).steps == total.steps && Passes(s, i).after == total.after
    ensures emitted + Pass(s, i, 0).steps + Passes(Pass(s, i, 0).after, i + 1).steps == total.steps
    ensures Passes(Pass(s, i, 0).after, i + 1).after == total.after
  {
    PassesStep(s, i);
    Regroup3(emitted, Pass(s, i, 0).steps, Passes(Pass(s, i, 0).after, i + 1).steps);
  }

  /** The trace ends with the ascending permutation of the input, with every index marked sorted. */
  lemma BubbleTraceSorts(s: seq<int>)
    ensures EndsSorted(BubbleTrace(s), s)
  {
    var sorted := Passes(s, 0).after;
    assert IsAscending(sorted) by { PassesSort(s, 0); }
    PassesPermute(s, 0);
    AscendingIsSortedCopy(sorted, s);
  }

  /** The inner loop of `bubbleSort` (pass i): compares each adjacent pair of the unsettled
      prefix, exchanging it when out of order. */
  method BubblePass(arr: array<int>, i: nat) returns (emitted: seq<Step>)
    requires i < arr.Length
    modifies arr
    ensures emitted == Pass(old(arr[..]), i, 0).steps
    ensures arr[..] == Pass(old(arr[..]), i, 0).after
  {
    ghost var whole := Pass(arr[..], i, 0);
    var n := arr.Length;
    var marks := PassMarks(n, i);
    emitted := [];
    for j := 0 to n - i - 1
      invariant emitted + Pass(arr[..], i, j).steps == whole.steps
      invariant Pass(arr[..], i, j).after == whole.after
    {
      ghost var before, previous := arr[..], emitted;
      PassStepAhead(before, i, j, previous, whole);
      var comparison := Step(arr[..], Some([j, j + 1]), None, Some(marks), None);
      emitted := emitted + [comparison];
      if arr[j] > arr[j + 1] {
        arr[j], arr[j + 1] := arr[j + 1], arr[j];
        var exchange := Step(arr[..], None, Some([j, j + 1]), Some(marks), None);
        emitted := emitted + [exchange];
        assert arr[..] == Exchange(before, j) && emitted == previous + IterationSteps(before, i, j) by {
          assert arr[..] == Swap(before, j, j + 1);
          Regroup3(previous, [comparison], [exchange]);
        }
      } else {
        assert arr[..] == Exchange(before, j) && emitted == previous + IterationSteps(before, i, j) by {
          assert IterationSteps(before, i, j) == [comparison];
        }
      }
    }
    PassDone(arr[..], i);
    AppendEmpty(emitted);
  }

  /** The outer loop of `bubbleSort`, on the working array. */
  method BubbleLoop(arr: array<int>) returns (steps: seq<Step>)
    modifies arr
    ensures steps == Passes(old(arr[..]), 0).steps
    ensures arr[..] == Passes(old(arr[..]), 0).after
  {
    ghost var total := Passes(arr[..], 0);
    var n := arr.Length;
    steps := [];
    for i := 0 to n
      invariant steps + Passes(arr[..], i).steps == total.steps
      invariant Passes(arr[..], i).after == total.after
    {
      ghost var before := arr[..];
      PassesStepAhead(before, i, steps, total);
      var emitted := BubblePass(arr, i);
      steps := steps + emitted;
    }
    PassesNone(arr[..], n);
    AppendEmpty(steps);
  }

  /** `bubbleSort`: the caller's array is only read; the sort runs on a fresh copy. */
  method BubbleSort(a: array<int>) returns (steps: seq<Step>)
    ensures steps == BubbleTrace(a[..])
    ensures EndsSorted(steps, a[..])
  {
    var arr := new int[a.Length](k requires 0 <= k < a.Length reads a => a[k]);
    assert arr[..] == a[..];
    steps := BubbleLoop(arr);
    TraceCompletes(a[..], steps, arr[..]);
    steps := steps + [Marked(arr[..], Range(0, arr.Length))];
  }

  /** After the outer loop, the final record completes the trace. */
  lemma TraceCompletes(s: seq<int>, emitted: seq<Step>, after: seq<int>)
    requires emitted == Passes(s, 0).steps && after == Passes(s, 0).after
    ensures emitted + [Marked(after, Range(0, |s|))] == BubbleTrace(s)
    ensures EndsSorted(BubbleTrace(s), s)
  {
    BubbleTraceSorts(s);
  }
}
