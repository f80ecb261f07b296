/** `mergeSort` (lib/algorithms.ts:142-204): `mergeSortHelper(start, end)` sorts the two halves
    of [start, end] recursively, then merges copies of them back into the working array.
    The helper's `sortedIndices` is the empty list the root call passes, and no call adds to
    it, so every record the helper emits carries `sorted = []`. */
module Merge {
  import opened Steps

  /** A record of the merge phase: the array and the (always empty) sorted list. */
  function Plain(t: seq<int>): Step
  {
    Marked(t, [])
  }

  /** Whether the merge loops write the left head next: it is not larger than the right head
      (the left side wins ties), or the right side is used up. */
  predicate TakesLeft(left: seq<int>, right: seq<int>, i: nat, j: nat)
    requires i <= |left| && j <= |right|
  {
    i < |left| && (j == |right| || left[i] <= right[j])
  }

  /** The element the merge loops write next, and the state (i, j) after it. */
  function Next(left: seq<int>, right: seq<int>, i: nat, j: nat): int
    requires i <= |left| && j <= |right| && (i < |left| || j < |right|)
  {
    if TakesLeft(left, right, i, j) then left[i] else right[j]
  }

  function NextI(left: seq<int>, right: seq<int>, i: nat, j: nat): (r: nat)
    requires i <= |left| && j <= |right|
    ensures r <= |left|
  {
    if TakesLeft(left, right, i, j) then i + 1 else i
  }

  function NextJ(left: seq<int>, right: seq<int>, i: nat, j: nat): (r: nat)
    requires i <= |left| && j <= |right| && (i < |left| || j < |right|)
    ensures r <= |right|
  {
    if TakesLeft(left, right, i, j) then j else j + 1
  }

  /** The merge loops from the state (i, j): `left` and `right` are the copies of
      arr[start .. mid] and arr[mid + 1 .. end], so right[j] sits at start + |left| + j.
      While both sides remain, a comparison record, the write of the next element at
      k = start + i + j, and a record of the array; once one side is used up, one write and
      one record per element of the other. */
  function MergeFrom(t: seq<int>, start: nat, left: seq<int>, right: seq<int>, i: nat, j: nat): (r: Run)
    requires i <= |left| && j <= |right| && start + |left| + |right| <= |t|
    ensures |r.after| == |t|
    decreases |left| - i + |right| - j
  {
    if i == |left| && j == |right| then Run([], t)
    else
      var u := t[start + i + j := Next(left, right, i, j)];
      var rest := MergeFrom(u, start, left, right, NextI(left, right, i, j), NextJ(left, right, i, j));
      Run(Compared(t, start, left, right, i, j) + [Plain(u)] + rest.steps, rest.after)
  }

  /** The comparison record of the two-sided loop, when both sides remain. */
  function Compared(t: seq<int>, start: nat, left: seq<int>, right: seq<int>, i: nat, j: nat): (r: seq<Step>)
    requires i <= |left| && j <= |right|
    ensures |r| <= 1
  {
    if i < |left| && j < |right| then [Step(t, Some([start + i, start + |left| + j]), None, Some([]), None)]
    else []
  }

  /** The merge phase of `mergeSortHelper(start, end)` on the array r: merge copies of
      r[start .. mid] and r[mid + 1 .. end] back into [start, end]. */
  function MergePhase(r: seq<int>, start: int, mid: int, end: int): Run
    requires 0 <= start <= mid < end < |r|
  {
    MergeFrom(r, start, r[start..mid + 1], r[mid + 1..end + 1], 0, 0)
  }

  /** `mergeSortHelper(start, end)` on the working array t: nothing for a range of at most
      one element. */
  function MergeHelper(t: seq<int>, start: int, end: int): (r: Run)
    requires 0 <= start <= end + 1 <= |t|
    ensures |r.after| == |t|
    decreases end - start + 1, 1
  {
    if start >= end then Run([], t) else SplitMerge(t, start, end)
  }

  /** A longer range: sort [start, mid], then [mid + 1, end], then merge them. */
  function SplitMerge(t: seq<int>, start: int, end: int): (r: Run)
    requires 0 <= start < end < |t|
    ensures |r.after| == |t|
    decreases end - start + 1, 0
  {
    var mid := Mid(start, end);
    var l := MergeHelper(t, start, mid);
    var r := MergeHelper(l.after, mid + 1, end);
    var m := MergePhase(r.after, start, mid, end);
    Run(l.steps + r.steps + m.steps, m.after)
  }

  /** Everything `mergeSort` yields for the input `s`. */
  function MergeTrace(s: seq<int>): seq<Step>
  {
    var r := MergeHelper(s, 0, |s| - 1);
    r.steps + [Marked(r.after, Range(0, |s|))]
  }

  // ---------------------------------------------------------------------------------------
  // The merged sequence

  /** The merge of left[i ..] and right[j ..], taking the left head on a tie. */
  function Merged(left: seq<int>, right: seq<int>, i: nat, j: nat): (r: seq<int>)
    requires i <= |left| && j <= |right|
    ensures |r| == |left| - i + |right| - j
    decreases |left| - i + |right| - j
  {
    if i == |left| && j == |right| then []
    else [Next(left, right, i, j)] + Merged(left, right, NextI(left, right, i, j), NextJ(left, right, i, j))
  }

  lemma MergedUnfold(left: seq<int>, right: seq<int>, i: nat, j: nat)
    requires i <= |left| && j <= |right| && (i < |left| || j < |right|)
    ensures Merged(left, right, i, j) ==
      [Next(left, right, i, j)] + Merged(left, right, NextI(left, right, i, j), NextJ(left, right, i, j))
  {
  }

  /** With both sides ascending, each element the loops write is at most the next one. */
  lemma NextAscends(left: seq<int>, right: seq<int>, i: nat, j: nat)
    requires i <= |left| && j <= |right| && (i < |left| || j < |right|)
    requires IsAscending(left) && IsAscending(right)
    requires NextI(left, right, i, j) < |left| || NextJ(left, right, i, j) < |right|
    ensures Next(left, right, i, j) <= Next(left, right, NextI(left, right, i, j), NextJ(left, right, i, j))
  {
  }

  /** Merging two ascending sequences gives an ascending sequence. */
  lemma {:induction false} MergedAscending(left: seq<int>, right: seq<int>, i: nat, j: nat)
    requires i <= |left| && j <= |right| && IsAscending(left) && IsAscending(right)
    ensures IsAscending(Merged(left, right, i, j))
    decreases |left| - i + |right| - j
  {
    if i < |left| || j < |right| {
      var i', j' := NextI(left, right, i, j), NextJ(left, right, i, j);
      MergedAscending(left, right, i', j');
      MergedUnfold(left, right, i, j);
      if i' < |left| || j' < |right| {
        MergedUnfold(left, right, i', j');
        NextAscends(left, right, i, j);
      }
      ConsAscending(Next(left, right, i, j), Merged(left, right, i', j'));
    }
  }

  /** Taking the next element off the two sides. */
  lemma NextPermutes(left: seq<int>, right: seq<int>, i: nat, j: nat)
    requires i <= |left| && j <= |right| && (i < |left| || j < |right|)
    ensures multiset(left[i..]) + multiset(right[j..]) ==
      multiset{Next(left, right, i, j)} + multiset(left[NextI(left, right, i, j)..]) + multiset(right[NextJ(left, right, i, j)..])
  {
    if TakesLeft(left, right, i, j) {
      assert left[i..] == [left[i]] + left[i + 1..];
    } else {
      assert right[j..] == [right[j]] + right[j + 1..];
    }
  }

  /** The merge holds exactly the elements of the two sides. */
  lemma {:induction false} MergedPermutes(left: seq<int>, right: seq<int>, i: nat, j: nat)
    requires i <= |left| && j <= |right|
    ensures multiset(Merged(left, right, i, j)) == multiset(left[i..]) + multiset(right[j..])
    decreases |left| - i + |right| - j
  {
    if i < |left| || j < |right| {
      MergedPermutes(left, right, NextI(left, right, i, j), NextJ(left, right, i, j));
      MergedUnfold(left, right, i, j);
      NextPermutes(left, right, i, j);
    }
  }

  // ---------------------------------------------------------------------------------------
  // The merge loops

  /** What the merge loops leave in the array: everything before k = start + i + j and from
      end + 1 on is untouched, and [k, end] holds the merge of what remains of the sides. */
  ghost predicate MergedInto(a: seq<int>, t: seq<int>, start: nat, left: seq<int>, right: seq<int>, i: nat, j: nat)
    requires i <= |left| && j <= |right| && start + |left| + |right| <= |t|
  {
    var k := start + i + j;
    var e := start + |left| + |right|;
    && |a| == |t|
    && (forall x :: 0 <= x < k ==> a[x] == t[x])
    && (forall x :: k <= x < e ==> a[x] == Merged(left, right, i, j)[x - k])
    && (forall x :: e <= x < |t| ==> a[x] == t[x])
  }

  lemma {:induction false} MergeFromResult(t: seq<int>, start: nat, left: seq<int>, right: seq<int>, i: nat, j: nat)
    requires i <= |left| && j <= |right| && start + |left| + |right| <= |t|
    ensures MergedInto(MergeFrom(t, start, left, right, i, j).after, t, start, left, right, i, j)
    decreases |left| - i + |right| - j
  {
    if i < |left| || j < |right| {
      var u := t[start + i + j := Next(left, right, i, j)];
      var i', j' := NextI(left, right, i, j), NextJ(left, right, i, j);
      MergeFromResult(u, start, left, right, i', j');
      MergeUnfold(t, start, left, right, i, j);
      MergedUnfold(left, right, i, j);
      MergedIntoStep(MergeFrom(u, start, left, right, i', j').after, t, start, left, right, i, j);
    } else {
      MergeDone(t, start, left, right, i, j);
    }
  }

  /** One write, seen from the array before it. */
  lemma MergedIntoStep(a: seq<int>, t: seq<int>, start: nat, left: seq<int>, right: seq<int>, i: nat, j: nat)
    requires i <= |left| && j <= |right| && (i < |left| || j < |right|) && start + |left| + |right| <= |t|
    requires MergedInto(a, t[start + i + j := Next(left, right, i, j)], start, left, right,
                        NextI(left, right, i, j), NextJ(left, right, i, j))
    requires Merged(left, right, i, j) ==
      [Next(left, right, i, j)] + Merged(left, right, NextI(left, right, i, j), NextJ(left, right, i, j))
    ensures MergedInto(a, t, start, left, right, i, j)
  {
    var k := start + i + j;
    var m := Merged(left, right, i, j);
    var m' := Merged(left, right, NextI(left, right, i, j), NextJ(left, right, i, j));
    forall x | k < x < start + |left| + |right|
      ensures a[x] == m[x - k]
    {
      assert a[x] == m'[x - k - 1];
    }
  }

  lemma MergeUnfold(t: seq<int>, start: nat, left: seq<int>, right: seq<int>, i: nat, j: nat)
    requires i <= |left| && j <= |right| && (i < |left| || j < |right|) && start + |left| + |right| <= |t|
    ensures var u := t[start + i + j := Next(left, right, i, j)];
      var rest := MergeFrom(u, start, left, right, NextI(left, right, i, j), NextJ(left, right, i, j));
      MergeFrom(t, start, left, right, i, j) == Run(Compared(t, start, left, right, i, j) + [Plain(u)] + rest.steps, rest.after)
  {
  }

  lemma MergeDone(t: seq<int>, start: nat, left: seq<int>, right: seq<int>, i: nat, j: nat)
    requires i == |left| && j == |right| && start + |left| + |right| <= |t|
    ensures MergeFrom(t, start, left, right, i, j) == Run([], t)
    ensures Merged(left, right, i, j) == []
  {
  }

  /** How many records of a merge carry no comparison: one per element written. */
  function Writes(steps: seq<Step>): nat
  {
    if steps == [] then 0
    else (if steps[0].compared == None then 1 else 0) + Writes(steps[1..])
  }

  /** Every record of the merge loops marks nothing sorted and swaps nothing; a comparison
      record pairs a left position with a right one. */
  ghost predicate MergeShaped(steps: seq<Step>, start: int, mid: int, end: int)
  {
    forall k :: 0 <= k < |steps| ==>
      && steps[k].sorted == Some([]) && steps[k].swapped == None && steps[k].highlight == None
      && (steps[k].compared.Some? ==>
            |steps[k].compared.value| == 2
            && start <= steps[k].compared.value[0] <= mid < steps[k].compared.value[1] <= end)
  }

  /** The merge loops write each remaining element once, with one record per write, and every
      record has the merge shape. */
  lemma {:induction false} MergeFromSteps(t: seq<int>, start: nat, left: seq<int>, right: seq<int>, i: nat, j: nat)
    requires i <= |left| && j <= |right| && start + |left| + |right| <= |t|
    ensures var steps := MergeFrom(t, start, left, right, i, j).steps;
      && Writes(steps) == |left| - i + |right| - j
      && MergeShaped(steps, start, start + |left| - 1, start + |left| + |right| - 1)
    decreases |left| - i + |right| - j
  {
    if i < |left| || j < |right| {
      var u := t[start + i + j := Next(left, right, i, j)];
      var i', j' := NextI(left, right, i, j), NextJ(left, right, i, j);
      MergeFromSteps(u, start, left, right, i', j');
      MergeUnfold(t, start, left, right, i, j);
      PrependWrite(Compared(t, start, left, right, i, j), Plain(u), MergeFrom(u, start, left, right, i', j').steps,
                   start, start + |left| - 1, start + |left| + |right| - 1);
    } else {
      MergeDone(t, start, left, right, i, j);
    }
  }

  /** The records of the merge loops from the state (i, j), in order: while both sides
      remain, the comparison [start + i, start + |left| + j] of the two heads and then one
      record without a comparison for the write; once one side is used up, one record
      without a comparison per element left. (i, j) moves on as the loops move it. */
  ghost predicate MergeOrder(steps: seq<Step>, start: int, left: seq<int>, right: seq<int>, i: nat, j: nat)
    requires i <= |left| && j <= |right|
    decreases |left| - i + |right| - j
  {
    if i == |left| && j == |right| then steps == []
    else
      var i', j' := NextI(left, right, i, j), NextJ(left, right, i, j);
      if i < |left| && j < |right| then
        && |steps| >= 2
        && steps[0].compared == Some([start + i, start + |left| + j])
        && steps[1].compared == None
        && MergeOrder(steps[2..], start, left, right, i', j')
      else
        && |steps| >= 1
        && steps[0].compared == None
        && MergeOrder(steps[1..], start, left, right, i', j')
  }

  /** The merge loops compare the two current heads before every write while both sides
      remain, and write the rest of the other side without comparing. */
  lemma {:induction false} MergeFromOrder(t: seq<int>, start: nat, left: seq<int>, right: seq<int>, i: nat, j: nat)
    requires i <= |left| && j <= |right| && start + |left| + |right| <= |t|
    ensures MergeOrder(MergeFrom(t, start, left, right, i, j).steps, start, left, right, i, j)
    decreases |left| - i + |right| - j
  {
    if i < |left| || j < |right| {
      var u := t[start + i + j := Next(left, right, i, j)];
      var i', j' := NextI(left, right, i, j), NextJ(left, right, i, j);
      var rest := MergeFrom(u, start, left, right, i', j').steps;
      MergeFromOrder(u, start, left, right, i', j');
      MergeUnfold(t, start, left, right, i, j);
      var cmp := Compared(t, start, left, right, i, j);
      if i < |left| && j < |right| {
        assert (cmp + [Plain(u)] + rest)[2..] == rest;
      } else {
        assert (cmp + [Plain(u)] + rest)[1..] == rest;
      }
    } else {
      MergeDone(t, start, left, right, i, j);
    }
  }

  /** Prepending an optional comparison record and one write record to a shaped tail. */
  lemma PrependWrite(cmp: seq<Step>, w: Step, rest: seq<Step>, start: int, mid: int, end: int)
    requires |cmp| <= 1 && w.compared == None
    requires forall k :: 0 <= k < |cmp| ==> cmp[k].compared != None
    requires MergeShaped(cmp, start, mid, end) && MergeShaped([w], start, mid, end) && MergeShaped(rest, start, mid, end)
    ensures Writes(cmp + [w] + rest) == Writes(rest) + 1
    ensures MergeShaped(cmp + [w] + rest, start, mid, end)
  {
    var all := cmp + [w] + rest;
    if cmp == [] {
      assert all[1..] == rest;
    } else {
      assert all[1..] == [w] + rest;
      assert all[1..][1..] == rest;
    }
    forall k | 0 <= k < |all|
      ensures all[k] == if k < |cmp| then cmp[k] else if k == |cmp| then w else rest[k - |cmp| - 1]
    {
    }
  }

  // ---------------------------------------------------------------------------------------
  // The recursion

  /** `mergeSortHelper(start, end)` sorts [start, end] and moves nothing outside it. */
  lemma {:induction false} HelperSorts(t: seq<int>, start: int, end: int)
    requires 0 <= start <= end + 1 <= |t|
    ensures SortedRange(MergeHelper(t, start, end).after, t, start, end + 1)
    decreases end - start + 1, 1
  {
    if start >= end {
      HelperDone(t, start, end);
      ShortRangeSorted(t, start, end + 1);
    } else {
      SplitSorts(t, start, end);
      HelperSplits(t, start, end);
    }
  }

  /** Sorting both halves and merging them sorts [start, end]. */
  lemma {:induction false} SplitSorts(t: seq<int>, start: int, end: int)
    requires 0 <= start < end < |t|
    ensures SortedRange(SplitMerge(t, start, end).after, t, start, end + 1)
    decreases end - start + 1, 0
  {
    var mid := Mid(start, end);
    var l := MergeHelper(t, start, mid);
    var r := MergeHelper(l.after, mid + 1, end);
    HelperSorts(t, start, mid);
    HelperSorts(l.after, mid + 1, end);
    MergeOfHalves(t, l.after, r.after, start, mid, end);
    SplitUnfold(t, start, end);
  }

  /** With both halves sorted by the recursive calls, the merge sorts [start, end]. */
  lemma MergeOfHalves(t: seq<int>, l: seq<int>, r: seq<int>, start: int, mid: int, end: int)
    requires 0 <= start <= mid < end < |t|
    requires SortedRange(l, t, start, mid + 1) && SortedRange(r, l, mid + 1, end + 1)
    ensures SortedRange(MergePhase(r, start, mid, end).after, t, start, end + 1)
  {
    var left, right := r[start..mid + 1], r[mid + 1..end + 1];
    assert start + |left| + |right| == end + 1;
    MergeFromWhole(r, start, left, right);
    Halves(t, l, r, start, mid, end);
    MergeSorts(MergeFrom(r, start, left, right, 0, 0).after, t, left, right, start, end);
  }

  /** After both recursive calls, [start, mid] and [mid + 1, end] each hold their old
      elements in ascending order, and nothing outside [start, end] has moved. */
  lemma Halves(t: seq<int>, l: seq<int>, r: seq<int>, start: int, mid: int, end: int)
    requires 0 <= start <= mid < end < |t|
    requires SortedRange(l, t, start, mid + 1) && SortedRange(r, l, mid + 1, end + 1)
    ensures |r| == |t| && r[..start] == t[..start] && r[end + 1..] == t[end + 1..]
    ensures IsAscending(r[start..mid + 1]) && IsAscending(r[mid + 1..end + 1])
    ensures multiset(r[start..mid + 1]) == multiset(t[start..mid + 1])
    ensures multiset(r[mid + 1..end + 1]) == multiset(t[mid + 1..end + 1])
  {
    PrefixParts(r, l, mid + 1, start);
    SuffixParts(l, t, mid + 1, end + 1);
  }

  /** Merging the ascending arrangements of the two halves of [start, end] sorts that range
      of t. */
  lemma MergeSorts(a: seq<int>, t: seq<int>, left: seq<int>, right: seq<int>, start: int, end: int)
    requires 0 <= start && start + |left| + |right| == end + 1 <= |t| == |a|
    requires a[..start] == t[..start] && a[end + 1..] == t[end + 1..]
    requires IsAscending(left) && IsAscending(right)
    requires multiset(left) == multiset(t[start..start + |left|])
    requires multiset(right) == multiset(t[start + |left|..end + 1])
    requires a[start..end + 1] == Merged(left, right, 0, 0)
    ensures SortedRange(a, t, start, end + 1)
  {
    MergedSorts(left, right, t, start, start + |left|, end + 1);
  }

  /** Merging the ascending arrangements of t[lo .. m) and t[m .. hi) gives the ascending
      arrangement of t[lo .. hi). */
  lemma MergedSorts(left: seq<int>, right: seq<int>, t: seq<int>, lo: int, m: int, hi: int)
    requires 0 <= lo <= m <= hi <= |t|
    requires IsAscending(left) && IsAscending(right)
    requires multiset(left) == multiset(t[lo..m]) && multiset(right) == multiset(t[m..hi])
    ensures IsAscending(Merged(left, right, 0, 0))
    ensures multiset(Merged(left, right, 0, 0)) == multiset(t[lo..hi])
  {
    MergedAscending(left, right, 0, 0);
    MergedPermutes(left, right, 0, 0);
    assert left[0..] == left && right[0..] == right;
    SplitMultiset(t, lo, m, hi);
  }

  /** The whole merge, from the state (0, 0): [start, end] holds the merge and nothing else
      changes. */
  lemma MergeFromWhole(u: seq<int>, start: nat, left: seq<int>, right: seq<int>)
    requires start + |left| + |right| <= |u|
    ensures var a := MergeFrom(u, start, left, right, 0, 0).after;
      && |a| == |u| && a[..start] == u[..start]
      && a[start..start + |left| + |right|] == Merged(left, right, 0, 0)
      && a[start + |left| + |right|..] == u[start + |left| + |right|..]
  {
    MergeFromResult(u, start, left, right, 0, 0);
    MergedWhole(MergeFrom(u, start, left, right, 0, 0).after, u, start, left, right);
  }

  lemma MergedWhole(a: seq<int>, u: seq<int>, start: nat, left: seq<int>, right: seq<int>)
    requires start + |left| + |right| <= |u| && MergedInto(a, u, start, left, right, 0, 0)
    ensures |a| == |u| && a[..start] == u[..start]
    ensures a[start..start + |left| + |right|] == Merged(left, right, 0, 0)
    ensures a[start + |left| + |right|..] == u[start + |left| + |right|..]
  {
  }

  lemma HelperSplits(t: seq<int>, start: int, end: int)
    requires 0 <= start < end < |t|
    ensures MergeHelper(t, start, end) == SplitMerge(t, start, end)
  {
  }

  lemma SplitUnfold(t: seq<int>, start: int, end: int)
    requires 0 <= start < end < |t|
    ensures var mid := Mid(start, end);
      var l := MergeHelper(t, start, mid);
      var r := MergeHelper(l.after, mid + 1, end);
      var m := MergePhase(r.after, start, mid, end);
      SplitMerge(t, start, end) == Run(l.steps + r.steps + m.steps, m.after)
  {
  }

  /** The recursion's result, phase by phase. */
  lemma HelperSplit(t: seq<int>, start: int, mid: int, end: int, first: seq<Step>, l: seq<int>,
                    second: seq<Step>, r: seq<int>, merging: seq<Step>, m: seq<int>)
    requires 0 <= start < end < |t| && mid == Mid(start, end)
    requires MergeHelper(t, start, mid) == Run(first, l)
    requires MergeHelper(l, mid + 1, end) == Run(second, r)
    requires MergePhase(r, start, mid, end) == Run(merging, m)
    ensures SplitMerge(t, start, end) == Run(first + second + merging, m)
  {
  }

  lemma HelperDone(t: seq<int>, start: int, end: int)
    requires 0 <= start <= end + 1 <= |t| && start >= end
    ensures MergeHelper(t, start, end) == Run([], t)
  {
  }

  /** Every record of the recursion marks nothing sorted and swaps nothing, and compares
      two positions of [start, end], the left one first. */
  ghost predicate HelperShaped(steps: seq<Step>, start: int, end: int)
  {
    forall k :: 0 <= k < |steps| ==>
      && steps[k].sorted == Some([]) && steps[k].swapped == None && steps[k].highlight == None
      && (steps[k].compared.Some? ==>
            |steps[k].compared.value| == 2
            && start <= steps[k].compared.value[0] < steps[k].compared.value[1] <= end)
  }

  /** Every record `mergeSortHelper` emits marks nothing sorted: the root's empty
      `sortedIndices` is the list every level passes on. */
  lemma {:induction false} HelperMarksNothing(t: seq<int>, start: int, end: int)
    requires 0 <= start <= end + 1 <= |t|
    ensures HelperShaped(MergeHelper(t, start, end).steps, start, end)
    decreases end - start + 1, 1
  {
    if start < end {
      SplitMarksNothing(t, start, end);
      HelperSplits(t, start, end);
    } else {
      HelperDone(t, start, end);
    }
  }

  lemma {:induction false} SplitMarksNothing(t: seq<int>, start: int, end: int)
    requires 0 <= start < end < |t|
    ensures HelperShaped(SplitMerge(t, start, end).steps, start, end)
    decreases end - start + 1, 0
  {
    var mid := Mid(start, end);
    var l := MergeHelper(t, start, mid);
    var r := MergeHelper(l.after, mid + 1, end);
    HelperMarksNothing(t, start, mid);
    HelperMarksNothing(l.after, mid + 1, end);
    MergePhaseShaped(r.after, start, mid, end);
    ShapedConcat(l.steps, r.steps, MergePhase(r.after, start, mid, end).steps, start, mid, end);
    SplitUnfold(t, start, end);
  }

  /** The merge phase of [start, end] has the merge shape. */
  lemma MergePhaseShaped(r: seq<int>, start: int, mid: int, end: int)
    requires 0 <= start <= mid < end < |r|
    ensures MergeShaped(MergePhase(r, start, mid, end).steps, start, mid, end)
  {
    MergeFromSteps(r, start, r[start..mid + 1], r[mid + 1..end + 1], 0, 0);
  }

  lemma ShapedConcat(a: seq<Step>, b: seq<Step>, c: seq<Step>, start: int, mid: int, end: int)
    requires start <= mid < end
    requires HelperShaped(a, start, mid) && HelperShaped(b, mid + 1, end) && MergeShaped(c, start, mid, end)
    ensures HelperShaped(a + b + c, start, end)
  {
    var all := a + b + c;
    forall k | 0 <= k < |a|
      ensures all[k] == a[k]
    {
    }
    forall k | |a| <= k < |a| + |b|
      ensures all[k] == b[k - |a|]
    {
    }
    forall k | |a| + |b| <= k < |all|
      ensures all[k] == c[k - |a| - |b|]
    {
    }
  }

  /** The trace ends with the ascending permutation of the input, every index marked sorted. */
  lemma MergeTraceSorts(s: seq<int>)
    ensures EndsSorted(MergeTrace(s), s)
  {
    var sorted := MergeHelper(s, 0, |s| - 1).after;
    HelperSorts(s, 0, |s| - 1);
    assert sorted[0..|s|] == sorted && s[0..|s|] == s;
    AscendingIsSortedCopy(sorted, s);
  }

  // ---------------------------------------------------------------------------------------
  // The generator

  /** The three merge loops of `mergeSortHelper`, writing from arr[start] on. */
  method MergeStep(arr: array<int>, start: nat, left: seq<int>, right: seq<int>) returns (emitted: seq<Step>)
    requires start + |left| + |right| <= arr.Length
    modifies arr
    ensures emitted == MergeFrom(old(arr[..]), start, left, right, 0, 0).steps
    ensures arr[..] == MergeFrom(old(arr[..]), start, left, right, 0, 0).after
  {
    var i, j;
    i, j, emitted := MergeBoth(arr, start, left, right);
    var rest := MergeRest(arr, start, left, right, i, j);
    emitted := emitted + rest;
  }

  /** The first merge loop, while both sides remain: compare the heads, write the smaller (the
      left one on a tie). */
  method MergeBoth(arr: array<int>, start: nat, left: seq<int>, right: seq<int>)
    returns (i: nat, j: nat, emitted: seq<Step>)
    requires start + |left| + |right| <= arr.Length
    modifies arr
    ensures i <= |left| && j <= |right| && (i == |left| || j == |right|)
    ensures emitted + MergeFrom(arr[..], start, left, right, i, j).steps == MergeFrom(old(arr[..]), start, left, right, 0, 0).steps
    ensures MergeFrom(arr[..], start, left, right, i, j).after == MergeFrom(old(arr[..]), start, left, right, 0, 0).after
  {
    ghost var whole := MergeFrom(arr[..], start, left, right, 0, 0);
    var k := start;
    i, j, emitted := 0, 0, [];
    while i < |left| && j < |right|
      invariant i <= |left| && j <= |right| && k == start + i + j
      invariant emitted + MergeFrom(arr[..], start, left, right, i, j).steps == whole.steps
      invariant MergeFrom(arr[..], start, left, right, i, j).after == whole.after
      decreases |left| - i + |right| - j
    {
      WriteAhead(arr[..], start, left, right, i, j, emitted, whole);
      var comparison := Step(arr[..], Some([start + i, start + |left| + j]), None, Some([]), None);
      emitted := emitted + [comparison];
      if left[i] <= right[j] {
        arr[k] := left[i];
        i, k := i + 1, k + 1;
      } else {
        arr[k] := right[j];
        j, k := j + 1, k + 1;
      }
      emitted := emitted + [Plain(arr[..])];
    }
  }

  /** The last two merge loops: copy what is left of one side, one record per element. */
  method MergeRest(arr: array<int>, start: nat, left: seq<int>, right: seq<int>, i0: nat, j0: nat)
    returns (emitted: seq<Step>)
    requires i0 <= |left| && j0 <= |right| && (i0 == |left| || j0 == |right|)
    requires start + |left| + |right| <= arr.Length
    modifies arr
    ensures emitted == MergeFrom(old(arr[..]), start, left, right, i0, j0).steps
    ensures arr[..] == MergeFrom(old(arr[..]), start, left, right, i0, j0).after
  {
    ghost var whole := MergeFrom(arr[..], start, left, right, i0, j0);
    var i, j, k := i0, j0, start + i0 + j0;
    emitted := [];
    while i < |left|
      invariant i <= |left| && j <= |right| && k == start + i + j
      invariant j == |right| || i == |left|
      invariant emitted + MergeFrom(arr[..], start, left, right, i, j).steps == whole.steps
      invariant MergeFrom(arr[..], start, left, right, i, j).after == whole.after
      decreases |left| - i
    {
      ghost var before := arr[..];
      WriteAhead(before, start, left, right, i, j, emitted, whole);
      arr[k] := left[i];
      assert arr[..] == before[k := Next(left, right, i, j)];
      i, k := i + 1, k + 1;
      emitted := emitted + [Plain(arr[..])];
    }
    while j < |right|
      invariant i == |left| && j <= |right| && k == start + i + j
      invariant emitted + MergeFrom(arr[..], start, left, right, i, j).steps == whole.steps
      invariant MergeFrom(arr[..], start, left, right, i, j).after == whole.after
      decreases |right| - j
    {
      ghost var before := arr[..];
      WriteAhead(before, start, left, right, i, j, emitted, whole);
      arr[k] := right[j];
      assert arr[..] == before[k := Next(left, right, i, j)];
      j, k := j + 1, k + 1;
      emitted := emitted + [Plain(arr[..])];
    }
    MergeDone(arr[..], start, left, right, i, j);
    AppendEmpty(emitted);
  }

  /** One write of the merge loops keeps their "emitted + still to come == whole merge"
      balance. */
  lemma WriteAhead(t: seq<int>, start: nat, left: seq<int>, right: seq<int>, i: nat, j: nat,
                   emitted: seq<Step>, whole: Run)
    requires i <= |left| && j <= |right| && (i < |left| || j < |right|) && start + |left| + |right| <= |t|
    requires emitted + MergeFrom(t, start, left, right, i, j).steps == whole.steps
    requires MergeFrom(t, start, left, right, i, j).after == whole.after
    ensures var u := t[start + i + j := Next(left, right, i, j)];
      var rest := MergeFrom(u, start, left, right, NextI(left, right, i, j), NextJ(left, right, i, j));
      && emitted + Compared(t, start, left, right, i, j) + [Plain(u)] + rest.steps == whole.steps
      && (!(i < |left| && j < |right|) ==> emitted + [Plain(u)] + rest.steps == whole.steps)
      && rest.after == whole.after
  {
    var u := t[start + i + j := Next(left, right, i, j)];
    var rest := MergeFrom(u, start, left, right, NextI(left, right, i, j), NextJ(left, right, i, j));
    MergeUnfold(t, start, left, right, i, j);
    Regroup3(emitted, Compared(t, start, left, right, i, j) + [Plain(u)], rest.steps);
    Regroup3(emitted, Compared(t, start, left, right, i, j), [Plain(u)]);
    if Compared(t, start, left, right, i, j) == [] {
      AppendEmpty(emitted);
    }
  }

  /** `mergeSortHelper(start, end)`: a range of at most one element is left as it is;
      a longer one is split at its midpoint. */
  method MergeSortHelper(arr: array<int>, start: int, end: int) returns (steps: seq<Step>)
    requires 0 <= start <= end + 1 <= arr.Length
    modifies arr
    ensures MergeHelper(old(arr[..]), start, end) == Run(steps, arr[..])
    decreases end - start + 1, 1
  {
    if start >= end {
      HelperDone(arr[..], start, end);
      return [];
    }
    steps := SortHalves(arr, start, end);
    HelperSplits(old(arr[..]), start, end);
  }

  /** Sort both halves of [start, end] in place, then merge copies of them. */
  method SortHalves(arr: array<int>, start: int, end: int) returns (steps: seq<Step>)
    requires 0 <= start < end < arr.Length
    modifies arr
    ensures SplitMerge(old(arr[..]), start, end) == Run(steps, arr[..])
    decreases end - start + 1, 0
  {
    ghost var t := arr[..];
    var mid := Mid(start, end);
    var first := MergeSortHelper(arr, start, mid);
    ghost var halfSorted := arr[..];
    var second := MergeSortHelper(arr, mid + 1, end);
    ghost var bothSorted := arr[..];
    var merging := MergeHalves(arr, start, mid, end);
    HelperSplit(t, start, mid, end, first, halfSorted, second, bothSorted, merging, arr[..]);
    steps := first + second + merging;
  }

  /** The merge phase of `mergeSortHelper(start, end)`: copy both halves, then merge the
      copies back into [start, end]. */
  method MergeHalves(arr: array<int>, start: int, mid: int, end: int) returns (merging: seq<Step>)
    requires 0 <= start <= mid < end < arr.Length
    modifies arr
    ensures MergePhase(old(arr[..]), start, mid, end) == Run(merging, arr[..])
  {
    var left := arr[start..mid + 1];
    var right := arr[mid + 1..end + 1];
    merging := MergeStep(arr, start, left, right);
  }

  /** `mergeSort`: the caller's array is only read; the sort runs on a fresh copy. */
  method MergeSort(a: array<int>) returns (steps: seq<Step>)
    ensures steps == MergeTrace(a[..])
    ensures EndsSorted(steps, a[..])
  {
    var arr := new int[a.Length](k requires 0 <= k < a.Length reads a => a[k]);
    assert arr[..] == a[..];
    steps := MergeSortHelper(arr, 0, arr.Length - 1);
    MergeTraceSorts(a[..]);
    steps := steps + [Marked(arr[..], Range(0, arr.Length))];
  }
}
