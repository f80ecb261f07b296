/** `binarySearch` (lib/algorithms.ts:314-353): search an ascending copy of the input between
    `left` and `right`. Each probe highlights `mid` and marks sorted the indices already ruled
    out, [0, left) and (right, n); a match ends with the whole range marked and `mid`
    highlighted, an empty range with the whole range marked and nothing highlighted. The
    library sort is the ascending copy `SortedCopy`; `SortedPermutationUnique` shows that any
    ascending permutation is that copy. */
module Binary {
  import opened Steps

  /** The record the loop yields before testing arr[mid]. */
  function Probe(s: seq<int>, left: int, right: int, mid: int): Step
    requires 0 <= left <= right + 1 <= |s|
  {
    Step(s, None, None, Some(Range(0, left) + Range(right + 1, |s|)), Some([mid]))
  }

  /** The record that ends the search: everything marked, `mid` highlighted on a match. */
  function Done(s: seq<int>, highlight: Option<seq<int>>): Step
  {
    Step(s, None, None, Some(Range(0, |s|)), highlight)
  }

  /** What the loop yields while searching [left, right] of the ascending array s. */
  function SearchLoop(s: seq<int>, target: int, left: int, right: int): seq<Step>
    requires 0 <= left <= right + 1 <= |s|
    decreases right - left
  {
    if left > right then [Done(s, None)]
    else
      var mid := Mid(left, right);
      var probe := Probe(s, left, right, mid);
      if s[mid] == target then [probe, Done(s, Some([mid]))]
      else if s[mid] < target then [probe] + SearchLoop(s, target, mid + 1, right)
      else [probe] + SearchLoop(s, target, left, mid - 1)
  }

  /** Everything `binarySearch` yields for the input `s` and the target. */
  ghost function BinaryTrace(s: seq<int>, target: int): seq<Step>
  {
    var sorted := SortedCopy(s);
    SearchLoop(sorted, target, 0, |sorted| - 1)
  }

  /** The loop's invariant: no index ruled out holds the target. */
  ghost predicate RuledOut(s: seq<int>, target: int, left: int, right: int)
  {
    forall k :: 0 <= k < |s| && (k < left || right < k) ==> s[k] != target
  }

  /** The last record marks every index sorted and compares and exchanges nothing; it
      highlights an index exactly when the target occurs in s, and the index it highlights
      holds the target. */
  ghost predicate Reports(r: seq<Step>, s: seq<int>, target: int)
  {
    && |r| > 0 && r[|r| - 1].sorted == Some(Range(0, |s|))
    && r[|r| - 1].compared == None && r[|r| - 1].swapped == None
    && (r[|r| - 1].highlight.Some? <==> target in s)
    && (r[|r| - 1].highlight.Some? ==>
          exists m :: 0 <= m < |s| && s[m] == target && r[|r| - 1].highlight == Some([m]))
  }

  /** On an ascending array, the search reports a match exactly when the target occurs. */
  lemma {:induction false} LoopReports(s: seq<int>, target: int, left: int, right: int)
    requires 0 <= left <= right + 1 <= |s|
    requires IsAscending(s) && RuledOut(s, target, left, right)
    ensures Reports(SearchLoop(s, target, left, right), s, target)
    decreases right - left
  {
    if left <= right {
      var mid := Mid(left, right);
      var probe := Probe(s, left, right, mid);
      if s[mid] == target {
        assert SearchLoop(s, target, left, right) == [probe, Done(s, Some([mid]))];
      } else if s[mid] < target {
        var rest := SearchLoop(s, target, mid + 1, right);
        assert SearchLoop(s, target, left, right) == [probe] + rest;
        GoRight(s, target, left, right, mid);
        LoopReports(s, target, mid + 1, right);
        ReportsPrepend(probe, rest, s, target);
      } else {
        var rest := SearchLoop(s, target, left, mid - 1);
        assert SearchLoop(s, target, left, right) == [probe] + rest;
        GoLeft(s, target, left, right, mid);
        LoopReports(s, target, left, mid - 1);
        ReportsPrepend(probe, rest, s, target);
      }
    } else {
      assert SearchLoop(s, target, left, right) == [Done(s, None)];
      NothingLeft(s, target, left, right);
    }
  }

  lemma ReportsPrepend(head: Step, rest: seq<Step>, s: seq<int>, target: int)
    requires Reports(rest, s, target)
    ensures Reports([head] + rest, s, target)
  {
    assert ([head] + rest)[|rest|] == rest[|rest| - 1];
  }

  /** When arr[mid] is below the target, nothing in [0, mid] can hold it. */
  lemma GoRight(s: seq<int>, target: int, left: int, right: int, mid: int)
    requires 0 <= left <= mid <= right < |s| && s[mid] < target
    requires IsAscending(s) && RuledOut(s, target, left, right)
    ensures RuledOut(s, target, mid + 1, right)
  {
    forall k | 0 <= k <= mid
      ensures s[k] != target
    {
      assert s[k] <= s[mid];
    }
  }

  /** When arr[mid] is above the target, nothing in [mid, n) can hold it. */
  lemma GoLeft(s: seq<int>, target: int, left: int, right: int, mid: int)
    requires 0 <= left <= mid <= right < |s| && s[mid] > target
    requires IsAscending(s) && RuledOut(s, target, left, right)
    ensures RuledOut(s, target, left, mid - 1)
  {
    forall k | mid <= k < |s|
      ensures s[k] != target
    {
      assert s[mid] <= s[k];
    }
  }

  /** Once the range is empty, every index is ruled out. */
  lemma NothingLeft(s: seq<int>, target: int, left: int, right: int)
    requires left > right && RuledOut(s, target, left, right)
    ensures target !in s
  {
    forall k | 0 <= k < |s|
      ensures s[k] != target
    {
    }
  }

  /** `binarySearch` reports a match exactly when the target occurs in the input: the last
      record then highlights an index of the ascending copy that holds the target, and
      otherwise highlights nothing; it marks every index sorted either way. */
  lemma BinaryReports(s: seq<int>, target: int)
    ensures var r := BinaryTrace(s, target);
      && Reports(r, SortedCopy(s), target)
      && (r[|r| - 1].highlight.Some? <==> target in s)
  {
    AscendingReports(SortedCopy(s), s, target);
  }

  /** The same, for any ascending arrangement of the input. */
  lemma AscendingReports(sorted: seq<int>, s: seq<int>, target: int)
    requires IsAscending(sorted) && multiset(sorted) == multiset(s)
    ensures var r := SearchLoop(sorted, target, 0, |sorted| - 1);
      && Reports(r, sorted, target)
      && (r[|r| - 1].highlight.Some? <==> target in s)
  {
    SameMembers(sorted, s, target);
    LoopReports(sorted, target, 0, |sorted| - 1);
  }

  /** Two arrangements of the same elements hold the same values. */
  lemma SameMembers(a: seq<int>, b: seq<int>, x: int)
    requires multiset(a) == multiset(b)
    ensures x in a <==> x in b
  {
    assert x in a <==> x in multiset(a);
    assert x in b <==> x in multiset(b);
  }

  /** A probe highlights one index and marks sorted only indices that are not that one and
      do not hold the target. */
  ghost predicate ProbeExcludes(st: Step, s: seq<int>, target: int)
  {
    && st.arr == s && st.compared == None && st.swapped == None
    && st.highlight.Some? && |st.highlight.value| == 1
    && 0 <= st.highlight.value[0] < |s|
    && st.sorted.Some?
    && st.highlight.value[0] !in st.sorted.value
    && forall x :: x in st.sorted.value ==> 0 <= x < |s| && s[x] != target
  }

  /** Every record before the last is such a probe. */
  ghost predicate ProbesExclude(steps: seq<Step>, s: seq<int>, target: int)
  {
    forall k :: 0 <= k < |steps| - 1 ==> ProbeExcludes(steps[k], s, target)
  }

  lemma {:induction false} LoopProbes(s: seq<int>, target: int, left: int, right: int)
    requires 0 <= left <= right + 1 <= |s|
    requires IsAscending(s) && RuledOut(s, target, left, right)
    ensures ProbesExclude(SearchLoop(s, target, left, right), s, target)
    decreases right - left
  {
    if left <= right {
      var mid := Mid(left, right);
      var probe := Probe(s, left, right, mid);
      ProbeMarks(s, target, left, right, mid);
      if s[mid] < target {
        GoRight(s, target, left, right, mid);
        LoopProbes(s, target, mid + 1, right);
        PrependProbe(probe, SearchLoop(s, target, mid + 1, right), s, target);
      } else if s[mid] > target {
        GoLeft(s, target, left, right, mid);
        LoopProbes(s, target, left, mid - 1);
        PrependProbe(probe, SearchLoop(s, target, left, mid - 1), s, target);
      }
    }
  }

  /** A probe highlights an index of [left, right] and marks only ruled-out indices. */
  lemma ProbeMarks(s: seq<int>, target: int, left: int, right: int, mid: int)
    requires 0 <= left <= mid <= right < |s| && RuledOut(s, target, left, right)
    ensures ProbeExcludes(Probe(s, left, right, mid), s, target)
  {
    var marks := Range(0, left) + Range(right + 1, |s|);
    forall x | x in marks
      ensures 0 <= x < |s| && (x < left || right < x)
    {
      var p :| 0 <= p < |marks| && marks[p] == x;
      if p >= left {
        assert marks[p] == Range(right + 1, |s|)[p - left];
      }
    }
  }

  lemma PrependProbe(probe: Step, rest: seq<Step>, s: seq<int>, target: int)
    requires ProbeExcludes(probe, s, target) && ProbesExclude(rest, s, target)
    ensures ProbesExclude([probe] + rest, s, target)
  {
    var r := [probe] + rest;
    forall k | 0 <= k < |r| - 1
      ensures r[k] == if k == 0 then probe else rest[k - 1]
    {
    }
  }

  /** Every record of `binarySearch` but the last is a probe of the ascending copy that marks
      only indices ruled out. */
  lemma BinaryProbes(s: seq<int>, target: int)
    ensures ProbesExclude(BinaryTrace(s, target), SortedCopy(s), target)
  {
    var sorted := SortedCopy(s);
    LoopProbes(sorted, target, 0, |s| - 1);
  }

  // ---------------------------------------------------------------------------------------
  // Termination within floor(log2 n) + 1 runs of the loop

  function Pow2(d: nat): (p: nat)
    ensures p >= 1
  {
    if d == 0 then 1 else 2 * Pow2(d - 1)
  }

  /** How many times the loop runs on [left, right]. */
  function Probes(s: seq<int>, target: int, left: int, right: int): nat
    requires 0 <= left <= right + 1 <= |s|
    decreases right - left
  {
    if left > right then 0
    else
      var mid := Mid(left, right);
      if s[mid] == target then 1
      else if s[mid] < target then 1 + Probes(s, target, mid + 1, right)
      else 1 + Probes(s, target, left, mid - 1)
  }

  /** The loop yields one record per run and one final record. */
  lemma {:induction false} LoopLength(s: seq<int>, target: int, left: int, right: int)
    requires 0 <= left <= right + 1 <= |s|
    ensures |SearchLoop(s, target, left, right)| == Probes(s, target, left, right) + 1
    decreases right - left
  {
    if left <= right {
      var mid := Mid(left, right);
      if s[mid] < target {
        LoopLength(s, target, mid + 1, right);
      } else if s[mid] > target {
        LoopLength(s, target, left, mid - 1);
      }
    }
  }

  /** Each run leaves at most half of the range, so a range of fewer than 2^d indices is
      searched in at most d runs. */
  lemma {:induction false} ProbesBound(s: seq<int>, target: int, left: int, right: int, d: nat)
    requires 0 <= left <= right + 1 <= |s|
    requires right - left + 1 < Pow2(d)
    ensures Probes(s, target, left, right) <= d
    decreases right - left
  {
    if left <= right {
      var mid := Mid(left, right);
      assert d > 0 && Pow2(d) == 2 * Pow2(d - 1);
      if s[mid] < target {
        ProbesBound(s, target, mid + 1, right, d - 1);
      } else if s[mid] > target {
        ProbesBound(s, target, left, mid - 1, d - 1);
      }
    }
  }

  /** With n < 2^d, `binarySearch` yields at most d + 1 records: at most d runs of the loop
      (d = floor(log2 n) + 1 at best) and the final record. */
  lemma BinaryBound(s: seq<int>, target: int, d: nat)
    requires |s| < Pow2(d)
    ensures |BinaryTrace(s, target)| <= d + 1
  {
    var sorted := SortedCopy(s);
    LoopLength(sorted, target, 0, |s| - 1);
    ProbesBound(sorted, target, 0, |s| - 1, d);
  }

  // ---------------------------------------------------------------------------------------
  // The generator

  /** `binarySearch`: the caller's array is only read; the search runs on an ascending copy. */
  method BinarySearch(a: array<int>, target: int) returns (steps: seq<Step>)
    ensures steps == BinaryTrace(a[..], target)
  {
    var sorted := InsertionSorted(a[..]);
    InsertionSorts(a[..]);
    AscendingIsSortedCopy(sorted, a[..]);
    steps := SearchSorted(sorted, target);
  }

  /** The loop of `binarySearch` over the ascending copy `arr`, which it only reads. */
  method SearchSorted(arr: seq<int>, target: int) returns (steps: seq<Step>)
    ensures steps == SearchLoop(arr, target, 0, |arr| - 1)
  {
    var n := |arr|;
    ghost var whole := SearchLoop(arr, target, 0, n - 1);
    var left, right := 0, n - 1;
    steps := [];
    while left <= right
      invariant 0 <= left <= right + 1 <= n
      invariant steps + SearchLoop(arr, target, left, right) == whole
      decreases right - left
    {
      var mid := Mid(left, right);
      var probe := Probe(arr, left, right, mid);
      ProbeAhead(arr, target, left, right, steps, whole);
      if arr[mid] == target {
        steps := steps + [probe, Done(arr, Some([mid]))];
        return;
      }
      if arr[mid] < target {
        left := mid + 1;
      } else {
        right := mid - 1;
      }
      steps := steps + [probe];
    }
    steps := steps + [Done(arr, None)];
  }

  /** One run of the loop keeps its "emitted + still to come == whole search" balance. */
  lemma ProbeAhead(s: seq<int>, target: int, left: int, right: int, emitted: seq<Step>, whole: seq<Step>)
    requires 0 <= left <= right < |s|
    requires emitted + SearchLoop(s, target, left, right) == whole
    ensures var mid := Mid(left, right);
      var probe := Probe(s, left, right, mid);
      && (s[mid] == target ==> emitted + [probe, Done(s, Some([mid]))] == whole)
      && (s[mid] < target ==> emitted + [probe] + SearchLoop(s, target, mid + 1, right) == whole)
      && (s[mid] > target ==> emitted + [probe] + SearchLoop(s, target, left, mid - 1) == whole)
  {
    var mid := Mid(left, right);
    var probe := Probe(s, left, right, mid);
    if s[mid] < target {
      Regroup3(emitted, [probe], SearchLoop(s, target, mid + 1, right));
    } else if s[mid] > target {
      Regroup3(emitted, [probe], SearchLoop(s, target, left, mid - 1));
    }
  }
}
