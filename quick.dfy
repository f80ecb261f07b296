/** `quickSort` (lib/algorithms.ts:210-277): `partition(low, high)` moves every element below
    the pivot arr[high] to the front of [low, high] and puts the pivot right after them;
    `quickSortHelper` then sorts both sides. The helper's `sortedIndices` is the empty list
    the root call passes, and no call adds to it: the singleton record sends a fresh list
    `[...sortedIndices, low]` and the recursive calls pass the old one on. */
module Quick {
  import opened Steps

  /** What a phase of `partition` yields, the array it leaves, and an index: the boundary i
      for the loop, the pivot's final place for the whole partition. */
  datatype Parted = Parted(steps: seq<Step>, after: seq<int>, at: int)

  /** The loop of `partition` from j on, with the boundary at i: compare arr[j] with the
      pivot; when it is smaller, move the boundary up and exchange arr[i] and arr[j]. */
  function ScanFrom(t: seq<int>, low: int, high: int, pivot: int, i: int, j: int): (r: Parted)
    requires 0 <= low <= high < |t| && low - 1 <= i < j <= high
    ensures |r.after| == |t| && i <= r.at < high
    decreases high - j
  {
    if j == high then Parted([], t, i)
    else
      var comparison := Step(t, Some([j, high]), None, Some([]), None);
      if t[j] < pivot then
        var u := Swap(t, i + 1, j);
        var rest := ScanFrom(u, low, high, pivot, i + 1, j + 1);
        Parted([comparison, Step(u, None, Some([i + 1, j]), Some([]), None)] + rest.steps, rest.after, rest.at)
      else
        var rest := ScanFrom(t, low, high, pivot, i, j + 1);
        Parted([comparison] + rest.steps, rest.after, rest.at)
  }

  /** `partition(low, high)`: highlight the pivot arr[high], run the loop, then exchange
      arr[i + 1] and arr[high]; it returns i + 1. */
  function Partition(t: seq<int>, low: int, high: int): (r: Parted)
    requires 0 <= low < high < |t|
    ensures |r.after| == |t| && low <= r.at <= high
  {
    var scan := ScanFrom(t, low, high, t[high], low - 1, low);
    var p := scan.at + 1;
    var u := Swap(scan.after, p, high);
    var first := Step(t, None, None, Some([]), Some([high]));
    Parted([first] + scan.steps + [Step(u, None, Some([p, high]), Some([]), None)], u, p)
  }

  /** `quickSortHelper(low, high)` on the working array t: a singleton range emits one
      record marking `[low]` sorted, an empty one nothing. */
  function QuickHelper(t: seq<int>, low: int, high: int): (r: Run)
    requires 0 <= low <= high + 1 <= |t|
    ensures |r.after| == |t|
    decreases high - low + 1, 1
  {
    if low < high then PartitionAndSort(t, low, high)
    else if low == high then Run([Marked(t, [low])], t)
    else Run([], t)
  }

  /** A longer range: partition it, then sort [low, p - 1] and [p + 1, high]. */
  function PartitionAndSort(t: seq<int>, low: int, high: int): (r: Run)
    requires 0 <= low < high < |t|
    ensures |r.after| == |t|
    decreases high - low + 1, 0
  {
    var p := Partition(t, low, high);
    var l := QuickHelper(p.after, low, p.at - 1);
    var r := QuickHelper(l.after, p.at + 1, high);
    Run(p.steps + l.steps + r.steps, r.after)
  }

  /** Everything `quickSort` yields for the input `s`. */
  function QuickTrace(s: seq<int>): seq<Step>
  {
    var r := QuickHelper(s, 0, |s| - 1);
    r.steps + [Marked(r.after, Range(0, |s|))]
  }

  /** How many elements of s are below p. */
  function Below(s: seq<int>, p: int): (r: nat)
    ensures r <= |s|
  {
    if s == [] then 0 else (if s[0] < p then 1 else 0) + Below(s[1..], p)
  }

  // ---------------------------------------------------------------------------------------
  // The partition loop

  /** [low, i] holds elements below the pivot and (i, j) elements not below it. */
  ghost predicate Split(s: seq<int>, low: int, i: int, j: int, pivot: int)
    requires 0 <= low && j <= |s|
  {
    && (forall k :: low <= k <= i && k < |s| ==> s[k] < pivot)
    && (forall k :: i < k < j && 0 <= k ==> s[k] >= pivot)
  }

  /** The loop keeps [low, i] below the pivot and (i, j) not below it, so it ends with
      [low, at] below the pivot and (at, high) not below it. */
  lemma {:induction false} ScanSplits(t: seq<int>, low: int, high: int, pivot: int, i: int, j: int)
    requires 0 <= low <= high < |t| && low - 1 <= i < j <= high
    requires Split(t, low, i, j, pivot)
    ensures var r := ScanFrom(t, low, high, pivot, i, j);
      Split(r.after, low, r.at, high, pivot)
    decreases high - j
  {
    if j < high {
      if t[j] < pivot {
        var u := Swap(t, i + 1, j);
        assert Split(u, low, i + 1, j + 1, pivot);
        ScanSplits(u, low, high, pivot, i + 1, j + 1);
        ScanLess(t, low, high, pivot, i, j);
      } else {
        ScanSplits(t, low, high, pivot, i, j + 1);
        ScanNotLess(t, low, high, pivot, i, j);
      }
    }
  }

  /** The array and the boundary the loop goes on with after looking at t[j]. */
  lemma ScanNext(t: seq<int>, low: int, high: int, pivot: int, i: int, j: int)
    requires 0 <= low <= high < |t| && low - 1 <= i < j < high
    ensures t[j] < pivot ==>
      var rest := ScanFrom(Swap(t, i + 1, j), low, high, pivot, i + 1, j + 1);
      ScanFrom(t, low, high, pivot, i, j).after == rest.after && ScanFrom(t, low, high, pivot, i, j).at == rest.at
    ensures t[j] >= pivot ==>
      var rest := ScanFrom(t, low, high, pivot, i, j + 1);
      ScanFrom(t, low, high, pivot, i, j).after == rest.after && ScanFrom(t, low, high, pivot, i, j).at == rest.at
  {
  }

  /** The loop leaves everything outside [low, high) in place. */
  lemma {:induction false} ScanFrame(t: seq<int>, low: int, high: int, pivot: int, i: int, j: int)
    requires 0 <= low <= high < |t| && low - 1 <= i < j <= high
    ensures ScanFrom(t, low, high, pivot, i, j).after[..low] == t[..low]
    ensures ScanFrom(t, low, high, pivot, i, j).after[high..] == t[high..]
    decreases high - j
  {
    if j < high {
      ScanNext(t, low, high, pivot, i, j);
      if t[j] < pivot {
        SwapOutside(t, i + 1, j, low, high);
        ScanFrame(Swap(t, i + 1, j), low, high, pivot, i + 1, j + 1);
      } else {
        ScanFrame(t, low, high, pivot, i, j + 1);
      }
    }
  }

  /** The loop only exchanges elements. */
  lemma {:induction false} ScanMultiset(t: seq<int>, low: int, high: int, pivot: int, i: int, j: int)
    requires 0 <= low <= high < |t| && low - 1 <= i < j <= high
    ensures multiset(ScanFrom(t, low, high, pivot, i, j).after) == multiset(t)
    decreases high - j, 1
  {
    if j < high {
      ScanNext(t, low, high, pivot, i, j);
      if t[j] < pivot {
        ScanMultisetSwapped(t, low, high, pivot, i, j);
      } else {
        ScanMultiset(t, low, high, pivot, i, j + 1);
      }
    }
  }

  /** After exchanging arr[i + 1] and arr[j] the rest of the loop still only exchanges. */
  lemma {:induction false} ScanMultisetSwapped(t: seq<int>, low: int, high: int, pivot: int, i: int, j: int)
    requires 0 <= low <= high < |t| && low - 1 <= i < j < high
    ensures multiset(ScanFrom(Swap(t, i + 1, j), low, high, pivot, i + 1, j + 1).after) == multiset(t)
    decreases high - j, 0
  {
    SwapPermutes(t, i + 1, j);
    ScanMultiset(Swap(t, i + 1, j), low, high, pivot, i + 1, j + 1);
  }

  /** Below on a slice counts its first element, then the rest. */
  lemma BelowHead(t: seq<int>, j: int, high: int, p: int)
    requires 0 <= j < high <= |t|
    ensures Below(t[j..high], p) == (if t[j] < p then 1 else 0) + Below(t[j + 1..high], p)
  {
    assert t[j..high][1..] == t[j + 1..high];
  }

  /** The loop moves the boundary once per element of [j, high) below the pivot. */
  lemma {:induction false} ScanCounts(t: seq<int>, low: int, high: int, pivot: int, i: int, j: int)
    requires 0 <= low <= high < |t| && low - 1 <= i < j <= high
    ensures ScanFrom(t, low, high, pivot, i, j).at - i == Below(t[j..high], pivot)
    decreases high - j
  {
    if j < high {
      BelowHead(t, j, high, pivot);
      ScanNext(t, low, high, pivot, i, j);
      if t[j] < pivot {
        var u := Swap(t, i + 1, j);
        assert u[j + 1..high] == t[j + 1..high];
        ScanCounts(u, low, high, pivot, i + 1, j + 1);
      } else {
        ScanCounts(t, low, high, pivot, i, j + 1);
      }
    }
  }

  /** The loop emits one comparison per j and one exchange per move of the boundary. */
  lemma {:induction false} ScanLength(t: seq<int>, low: int, high: int, pivot: int, i: int, j: int)
    requires 0 <= low <= high < |t| && low - 1 <= i < j <= high
    ensures var r := ScanFrom(t, low, high, pivot, i, j);
      |r.steps| == (high - j) + (r.at - i)
    decreases high - j
  {
    if j < high {
      if t[j] < pivot {
        ScanLength(Swap(t, i + 1, j), low, high, pivot, i + 1, j + 1);
        ScanLess(t, low, high, pivot, i, j);
      } else {
        ScanLength(t, low, high, pivot, i, j + 1);
        ScanNotLess(t, low, high, pivot, i, j);
      }
    }
  }

  /** Exactly one record per j carries a `compared` pair. */
  lemma {:induction false} ScanCompares(t: seq<int>, low: int, high: int, pivot: int, i: int, j: int)
    requires 0 <= low <= high < |t| && low - 1 <= i < j <= high
    ensures Compares(ScanFrom(t, low, high, pivot, i, j).steps) == high - j
    decreases high - j
  {
    if j < high {
      var u, k := if t[j] < pivot then Swap(t, i + 1, j) else t, if t[j] < pivot then i + 1 else i;
      ScanCompares(u, low, high, pivot, k, j + 1);
      ComparesStep(t, low, high, pivot, i, j);
    }
  }

  /** Each j adds one comparison, whichever way the element compares with the pivot. */
  lemma ComparesStep(t: seq<int>, low: int, high: int, pivot: int, i: int, j: int)
    requires 0 <= low <= high < |t| && low - 1 <= i < j < high
    ensures var u, k := if t[j] < pivot then Swap(t, i + 1, j) else t, if t[j] < pivot then i + 1 else i;
      Compares(ScanFrom(t, low, high, pivot, i, j).steps) == 1 + Compares(ScanFrom(u, low, high, pivot, k, j + 1).steps)
  {
    if t[j] < pivot {
      ComparesLess(t, low, high, pivot, i, j);
    } else {
      ComparesNotLess(t, low, high, pivot, i, j);
    }
  }

  /** An element below the pivot adds a comparison and an exchange: one more comparison. */
  lemma ComparesLess(t: seq<int>, low: int, high: int, pivot: int, i: int, j: int)
    requires 0 <= low <= high < |t| && low - 1 <= i < j < high && t[j] < pivot
    ensures Compares(ScanFrom(t, low, high, pivot, i, j).steps)
      == 1 + Compares(ScanFrom(Swap(t, i + 1, j), low, high, pivot, i + 1, j + 1).steps)
  {
    var u := Swap(t, i + 1, j);
    var comparison := Step(t, Some([j, high]), None, Some([]), None);
    var exchange := Step(u, None, Some([i + 1, j]), Some([]), None);
    var rest := ScanFrom(u, low, high, pivot, i + 1, j + 1).steps;
    ScanLess(t, low, high, pivot, i, j);
    ComparesCons(exchange, rest);
    ComparesCons(comparison, [exchange] + rest);
    assert [comparison, exchange] + rest == [comparison] + ([exchange] + rest);
  }

  /** An element at or above the pivot adds one comparison. */
  lemma ComparesNotLess(t: seq<int>, low: int, high: int, pivot: int, i: int, j: int)
    requires 0 <= low <= high < |t| && low - 1 <= i < j < high && t[j] >= pivot
    ensures Compares(ScanFrom(t, low, high, pivot, i, j).steps)
      == 1 + Compares(ScanFrom(t, low, high, pivot, i, j + 1).steps)
  {
    ScanNotLess(t, low, high, pivot, i, j);
    ComparesCons(Step(t, Some([j, high]), None, Some([]), None), ScanFrom(t, low, high, pivot, i, j + 1).steps);
  }

  /** How many records carry a `compared` pair. */
  function Compares(steps: seq<Step>): (r: nat)
    ensures r <= |steps|
  {
    if steps == [] then 0 else (if steps[0].compared.Some? then 1 else 0) + Compares(steps[1..])
  }

  /** A comparison and an exchange, then the rest of the loop. */
  lemma ScanLess(t: seq<int>, low: int, high: int, pivot: int, i: int, j: int)
    requires 0 <= low <= high < |t| && low - 1 <= i < j < high && t[j] < pivot
    ensures var u := Swap(t, i + 1, j);
      var rest := ScanFrom(u, low, high, pivot, i + 1, j + 1);
      ScanFrom(t, low, high, pivot, i, j)
        == Parted([Step(t, Some([j, high]), None, Some([]), None), Step(u, None, Some([i + 1, j]), Some([]), None)] + rest.steps,
                  rest.after, rest.at)
  {
  }

  /** A comparison, then the rest of the loop. */
  lemma ScanNotLess(t: seq<int>, low: int, high: int, pivot: int, i: int, j: int)
    requires 0 <= low <= high < |t| && low - 1 <= i < j < high && t[j] >= pivot
    ensures var rest := ScanFrom(t, low, high, pivot, i, j + 1);
      ScanFrom(t, low, high, pivot, i, j) == Parted([Step(t, Some([j, high]), None, Some([]), None)] + rest.steps, rest.after, rest.at)
  {
  }

  /** Compares counts the head record, then the rest. */
  lemma ComparesCons(head: Step, rest: seq<Step>)
    ensures Compares([head] + rest) == (if head.compared.Some? then 1 else 0) + Compares(rest)
  {
    assert ([head] + rest)[1..] == rest;
  }

  /** Compares adds up over a concatenation. */
  lemma {:induction false} ComparesConcat(a: seq<Step>, b: seq<Step>)
    ensures Compares(a + b) == Compares(a) + Compares(b)
  {
    if a != [] {
      assert (a + b)[1..] == a[1..] + b;
      ComparesConcat(a[1..], b);
    } else {
      assert a + b == b;
    }
  }

  /** The record comparing arr[j] with the pivot at high. */
  ghost predicate IsComparison(st: Step, j: int, high: int)
  {
    st.compared == Some([j, high]) && st.swapped == None && st.sorted == Some([]) && st.highlight == None
  }

  /** The record exchanging arr[a] and arr[j]. */
  ghost predicate IsExchange(st: Step, a: int, j: int)
  {
    st.swapped == Some([a, j]) && st.compared == None && st.sorted == Some([]) && st.highlight == None
  }

  /** The records of the loop from j on, with the boundary at i, when `vals` are the elements
      it is still to compare, t[j..high] (the loop exchanges only positions up to j, so these
      are the input's own): for each j in turn, the comparison [j, high], followed directly by
      the exchange [i + 1, j] exactly when the element at j is below the pivot, which also
      moves the boundary on. */
  ghost predicate ScanShaped(steps: seq<Step>, vals: seq<int>, pivot: int, high: int, i: int, j: int)
    decreases |vals|
  {
    if vals == [] then steps == []
    else
      && |steps| >= 1 && IsComparison(steps[0], j, high)
      && if vals[0] < pivot then
           |steps| >= 2 && IsExchange(steps[1], i + 1, j) && ScanShaped(steps[2..], vals[1..], pivot, high, i + 1, j + 1)
         else
           ScanShaped(steps[1..], vals[1..], pivot, high, i, j + 1)
  }

  lemma {:induction false} ScanSteps(t: seq<int>, low: int, high: int, pivot: int, i: int, j: int)
    requires 0 <= low <= high < |t| && low - 1 <= i < j <= high
    ensures ScanShaped(ScanFrom(t, low, high, pivot, i, j).steps, t[j..high], pivot, high, i, j)
    decreases high - j
  {
    if j < high {
      var comparison := Step(t, Some([j, high]), None, Some([]), None);
      assert t[j..high][0] == t[j] && t[j..high][1..] == t[j + 1..high];
      if t[j] < pivot {
        var u := Swap(t, i + 1, j);
        ScanSteps(u, low, high, pivot, i + 1, j + 1);
        ScanLess(t, low, high, pivot, i, j);
        assert u[j + 1..high] == t[j + 1..high];
        PrependExchange(comparison, Step(u, None, Some([i + 1, j]), Some([]), None),
                        ScanFrom(u, low, high, pivot, i + 1, j + 1).steps, t[j..high], pivot, high, i, j);
      } else {
        ScanSteps(t, low, high, pivot, i, j + 1);
        ScanNotLess(t, low, high, pivot, i, j);
        PrependComparison(comparison, ScanFrom(t, low, high, pivot, i, j + 1).steps, t[j..high], pivot, high, i, j);
      }
    }
  }

  /** A comparison followed by its exchange, then the records from j + 1 on. */
  lemma PrependExchange(comparison: Step, exchange: Step, rest: seq<Step>, vals: seq<int>, pivot: int, high: int,
                        i: int, j: int)
    requires vals != [] && vals[0] < pivot
    requires IsComparison(comparison, j, high) && IsExchange(exchange, i + 1, j)
    requires ScanShaped(rest, vals[1..], pivot, high, i + 1, j + 1)
    ensures ScanShaped([comparison, exchange] + rest, vals, pivot, high, i, j)
  {
    assert ([comparison, exchange] + rest)[2..] == rest;
  }

  /** A comparison alone, then the records from j + 1 on. */
  lemma PrependComparison(comparison: Step, rest: seq<Step>, vals: seq<int>, pivot: int, high: int, i: int, j: int)
    requires vals != [] && vals[0] >= pivot
    requires IsComparison(comparison, j, high)
    requires ScanShaped(rest, vals[1..], pivot, high, i, j + 1)
    ensures ScanShaped([comparison] + rest, vals, pivot, high, i, j)
  {
    assert ([comparison] + rest)[1..] == rest;
  }

  /** Counting from the back: one more element below p adds one. */
  lemma {:induction false} BelowSnoc(s: seq<int>, x: int, p: int)
    ensures Below(s + [x], p) == Below(s, p) + (if x < p then 1 else 0)
    decreases |s|
  {
    if s != [] {
      assert (s + [x])[1..] == s[1..] + [x];
      BelowSnoc(s[1..], x, p);
    }
  }

  /** The records of partition's loop from j on, with the exchange for j stated by position:
      its first index is low plus the number of elements of [low, j) below the pivot. */
  ghost predicate ScanCounted(steps: seq<Step>, t: seq<int>, low: int, high: int, j: int)
    requires 0 <= low <= j <= high < |t|
    decreases high - j
  {
    if j == high then steps == []
    else
      && |steps| >= 1 && IsComparison(steps[0], j, high)
      && if t[j] < t[high] then
           |steps| >= 2 && IsExchange(steps[1], low + Below(t[low..j], t[high]), j)
           && ScanCounted(steps[2..], t, low, high, j + 1)
         else
           ScanCounted(steps[1..], t, low, high, j + 1)
  }

  /** The boundary the loop carries is low - 1 plus the count of elements below the pivot
      seen so far. */
  lemma {:induction false} ShapedCounted(steps: seq<Step>, t: seq<int>, low: int, high: int, j: int)
    requires 0 <= low <= j <= high < |t|
    requires ScanShaped(steps, t[j..high], t[high], high, low - 1 + Below(t[low..j], t[high]), j)
    ensures ScanCounted(steps, t, low, high, j)
    decreases high - j
  {
    if j < high {
      assert t[j..high][0] == t[j] && t[j..high][1..] == t[j + 1..high];
      assert t[low..j + 1] == t[low..j] + [t[j]];
      BelowSnoc(t[low..j], t[j], t[high]);
      if t[j] < t[high] {
        ShapedCounted(steps[2..], t, low, high, j + 1);
      } else {
        ShapedCounted(steps[1..], t, low, high, j + 1);
      }
    }
  }

  /** Every record of the loop marks nothing sorted and highlights nothing. */
  lemma {:induction false} ShapedQuiet(steps: seq<Step>, vals: seq<int>, pivot: int, high: int, i: int, j: int)
    requires ScanShaped(steps, vals, pivot, high, i, j)
    ensures forall k :: 0 <= k < |steps| ==> steps[k].sorted == Some([]) && steps[k].highlight == None
    decreases |vals|
  {
    if vals != [] {
      if vals[0] < pivot {
        ShapedQuiet(steps[2..], vals[1..], pivot, high, i + 1, j + 1);
        forall k | 2 <= k < |steps|
          ensures steps[k] == steps[2..][k - 2]
        {
        }
      } else {
        ShapedQuiet(steps[1..], vals[1..], pivot, high, i, j + 1);
        forall k | 1 <= k < |steps|
          ensures steps[k] == steps[1..][k - 1]
        {
        }
      }
    }
  }

  // ---------------------------------------------------------------------------------------
  // Partition

  /** `partition(low, high)` puts the old arr[high] at the returned p, everything in [low, p)
      below it and everything in (p, high] not below it. */
  lemma PartitionPlaces(t: seq<int>, low: int, high: int)
    requires 0 <= low < high < |t|
    ensures var r := Partition(t, low, high);
      && r.after[r.at] == t[high]
      && (forall k :: low <= k < r.at ==> r.after[k] < t[high])
      && (forall k :: r.at < k <= high ==> r.after[k] >= t[high])
  {
    var scan := ScanFrom(t, low, high, t[high], low - 1, low);
    ScanSplits(t, low, high, t[high], low - 1, low);
    ScanFrame(t, low, high, t[high], low - 1, low);
    assert scan.after[high] == scan.after[high..][0];
    PivotPlaced(scan.after, low, high, scan.at, t[high]);
  }

  /** `partition(low, high)` only permutes [low, high]. */
  lemma PartitionKeeps(t: seq<int>, low: int, high: int)
    requires 0 <= low < high < |t|
    ensures var r := Partition(t, low, high);
      && r.after[..low] == t[..low] && r.after[high + 1..] == t[high + 1..]
      && multiset(r.after[low..high + 1]) == multiset(t[low..high + 1])
  {
    var scan := ScanFrom(t, low, high, t[high], low - 1, low);
    ScanFrame(t, low, high, t[high], low - 1, low);
    ScanMultiset(t, low, high, t[high], low - 1, low);
    var r := Partition(t, low, high);
    assert r.at == scan.at + 1 && r.after == Swap(scan.after, r.at, high);
    PartitionFrame(t, scan.after, low, high, r.at);
  }

  /** The final exchange of the scanned array s with the pivot still at high. */
  lemma PivotPlaced(s: seq<int>, low: int, high: int, at: int, pivot: int)
    requires 0 <= low && low - 1 <= at < high < |s| && s[high] == pivot
    requires Split(s, low, at, high, pivot)
    ensures var u := Swap(s, at + 1, high);
      && u[at + 1] == pivot
      && (forall k :: low <= k < at + 1 ==> u[k] < pivot)
      && (forall k :: at + 1 < k <= high ==> u[k] >= pivot)
  {
  }

  /** The final exchange, like the loop, only permutes [low, high]. */
  lemma PartitionFrame(t: seq<int>, s: seq<int>, low: int, high: int, p: int)
    requires 0 <= low <= p <= high < |t| == |s|
    requires s[..low] == t[..low] && s[high..] == t[high..] && multiset(s) == multiset(t)
    ensures var u := Swap(s, p, high);
      && u[..low] == t[..low] && u[high + 1..] == t[high + 1..]
      && multiset(u[low..high + 1]) == multiset(t[low..high + 1])
  {
    var u := Swap(s, p, high);
    SwapOutside(s, p, high, low, high + 1);
    SwapPermutes(s, p, high);
    SuffixParts(s, t, high, high + 1);
    MiddlePermutes(u, t, low, high + 1);
  }

  /** `partition(low, high)` highlights the pivot, compares each j of [low, high) with it in
      turn, exchanges [i + 1, j] right after the comparison exactly when the element is below
      it (the boundary i starts at low - 1), and ends with the exchange [p, high]; p is low
      plus the number of elements of [low, high) below the pivot. Every record marks nothing
      sorted. */
  lemma PartitionSteps(t: seq<int>, low: int, high: int)
    requires 0 <= low < high < |t|
    ensures var r := Partition(t, low, high);
      && r.at == low + Below(t[low..high], t[high])
      && |r.steps| == (high - low) + (r.at - low) + 2
      && Compares(r.steps) == high - low
      && r.steps[0] == Step(t, None, None, Some([]), Some([high]))
      && r.steps[|r.steps| - 1] == Step(r.after, None, Some([r.at, high]), Some([]), None)
      && ScanShaped(r.steps[1..|r.steps| - 1], t[low..high], t[high], high, low - 1, low)
      && ScanCounted(r.steps[1..|r.steps| - 1], t, low, high, low)
      && forall k :: 0 <= k < |r.steps| ==> r.steps[k].sorted == Some([])
  {
    var r := Partition(t, low, high);
    var scan := ScanFrom(t, low, high, t[high], low - 1, low);
    var first := Step(t, None, None, Some([]), Some([high]));
    var last := Step(r.after, None, Some([r.at, high]), Some([]), None);
    ScanCounts(t, low, high, t[high], low - 1, low);
    ScanLength(t, low, high, t[high], low - 1, low);
    ScanCompares(t, low, high, t[high], low - 1, low);
    ScanSteps(t, low, high, t[high], low - 1, low);
    assert r.steps == [first] + scan.steps + [last];
    ComparesConcat([first] + scan.steps, [last]);
    ComparesConcat([first], scan.steps);
    assert r.steps[1..|r.steps| - 1] == scan.steps;
    ShapedQuiet(scan.steps, t[low..high], t[high], high, low - 1, low);
    assert t[low..low] == [];
    ShapedCounted(scan.steps, t, low, high, low);
    forall k | 0 <= k < |r.steps|
      ensures r.steps[k].sorted == Some([])
    {
      if 0 < k < |r.steps| - 1 {
        assert r.steps[k] == scan.steps[k - 1];
      }
    }
  }

  // ---------------------------------------------------------------------------------------
  // The recursion

  /** `quickSortHelper(low, high)` sorts [low, high] and moves nothing outside it. */
  lemma {:induction false} HelperSorts(t: seq<int>, low: int, high: int)
    requires 0 <= low <= high + 1 <= |t|
    ensures SortedRange(QuickHelper(t, low, high).after, t, low, high + 1)
    decreases high - low + 1, 1
  {
    if low < high {
      PartitionSorts(t, low, high);
      HelperPartitions(t, low, high);
    } else {
      HelperShort(t, low, high);
      ShortRangeSorted(t, low, high + 1);
    }
  }

  /** Partitioning and sorting both sides sorts [low, high]. */
  lemma {:induction false} PartitionSorts(t: seq<int>, low: int, high: int)
    requires 0 <= low < high < |t|
    ensures SortedRange(PartitionAndSort(t, low, high).after, t, low, high + 1)
    decreases high - low + 1, 0
  {
    var p := Partition(t, low, high);
    var l := QuickHelper(p.after, low, p.at - 1);
    var r := QuickHelper(l.after, p.at + 1, high);
    HelperSorts(p.after, low, p.at - 1);
    HelperSorts(l.after, p.at + 1, high);
    SortedAfterPartition(t, p, l.after, r.after, low, high);
    PartitionAndSortUnfold(t, low, high);
  }

  /** Sorting both sides of a partitioned range in place sorts the range. */
  lemma SortedAfterPartition(t: seq<int>, p: Parted, l: seq<int>, r: seq<int>, low: int, high: int)
    requires 0 <= low < high < |t| && p == Partition(t, low, high)
    requires SortedRange(l, p.after, low, p.at) && SortedRange(r, l, p.at + 1, high + 1)
    ensures SortedRange(r, t, low, high + 1)
  {
    PartitionPlaces(t, low, high);
    PartitionKeeps(t, low, high);
    SidesSorted(t, p.after, l, r, low, p.at, high);
  }

  /** With [low, high] partitioned around u[at] and both sides sorted, the range is sorted. */
  lemma SidesSorted(t: seq<int>, u: seq<int>, l: seq<int>, r: seq<int>, low: int, at: int, high: int)
    requires 0 <= low <= at <= high < |t| == |u|
    requires u[..low] == t[..low] && u[high + 1..] == t[high + 1..]
    requires multiset(u[low..high + 1]) == multiset(t[low..high + 1])
    requires forall k :: low <= k < at ==> u[k] < u[at]
    requires forall k :: at < k <= high ==> u[k] >= u[at]
    requires SortedRange(l, u, low, at) && SortedRange(r, l, at + 1, high + 1)
    ensures SortedRange(r, t, low, high + 1)
  {
    SidesFrame(t, u, l, r, low, at, high);
    SplitAround(r, low, at, high + 1);
    SidesJoin(l[low..at], r[at + 1..high + 1], u, low, at, high);
  }

  /** The sorted sides joined around the pivot are ascending and hold the range's elements. */
  lemma SidesJoin(left: seq<int>, right: seq<int>, u: seq<int>, low: int, at: int, high: int)
    requires 0 <= low <= at <= high < |u|
    requires IsAscending(left) && IsAscending(right)
    requires multiset(left) == multiset(u[low..at]) && multiset(right) == multiset(u[at + 1..high + 1])
    requires forall k :: low <= k < at ==> u[k] < u[at]
    requires forall k :: at < k <= high ==> u[k] >= u[at]
    ensures IsAscending(left + [u[at]] + right)
    ensures multiset(left + [u[at]] + right) == multiset(u[low..high + 1])
  {
    LessPermute(left, u, low, at, u[at]);
    AtLeastPermute(right, u, at + 1, high + 1, u[at]);
    JoinAscending(left, u[at], right);
    SplitAround(u, low, at, high + 1);
  }

  /** Where the two recursive calls leave the prefix, the suffix, the pivot and both sides. */
  lemma SidesFrame(t: seq<int>, u: seq<int>, l: seq<int>, r: seq<int>, low: int, at: int, high: int)
    requires 0 <= low <= at <= high < |t| == |u|
    requires u[..low] == t[..low] && u[high + 1..] == t[high + 1..]
    requires |l| == |u| && l[..low] == u[..low] && l[at..] == u[at..]
    requires |r| == |l| && r[..at + 1] == l[..at + 1] && r[high + 1..] == l[high + 1..]
    ensures r[..low] == t[..low] && r[high + 1..] == t[high + 1..]
    ensures r[low..at] == l[low..at] && r[at] == u[at]
    ensures l[at + 1..high + 1] == u[at + 1..high + 1]
  {
    PrefixParts(r, l, at + 1, at);
    PrefixParts(r, l, at, low);
    assert r[at] == r[at..at + 1][0] && l[at] == l[at..at + 1][0] && l[at] == l[at..][0];
    SuffixParts(l, u, at, at + 1);
    SuffixParts(l, u, at + 1, high + 1);
  }

  lemma SplitAround(s: seq<int>, lo: int, at: int, hi: int)
    requires 0 <= lo <= at < hi <= |s|
    ensures s[lo..hi] == s[lo..at] + [s[at]] + s[at + 1..hi]
  {
  }

  /** Rearranging elements below x keeps them below x. */
  lemma LessPermute(a: seq<int>, u: seq<int>, lo: int, hi: int, x: int)
    requires 0 <= lo <= hi <= |u| && multiset(a) == multiset(u[lo..hi])
    requires forall k :: lo <= k < hi ==> u[k] < x
    ensures forall k :: 0 <= k < |a| ==> a[k] < x
  {
    forall k | 0 <= k < |a|
      ensures a[k] < x
    {
      assert a[k] in multiset(u[lo..hi]);
      var m :| 0 <= m < hi - lo && u[lo..hi][m] == a[k];
      assert u[lo + m] == a[k];
    }
  }

  /** Rearranging elements not below x keeps them not below x. */
  lemma AtLeastPermute(a: seq<int>, u: seq<int>, lo: int, hi: int, x: int)
    requires 0 <= lo <= hi <= |u| && multiset(a) == multiset(u[lo..hi])
    requires forall k :: lo <= k < hi ==> u[k] >= x
    ensures forall k :: 0 <= k < |a| ==> a[k] >= x
  {
    forall k | 0 <= k < |a|
      ensures a[k] >= x
    {
      assert a[k] in multiset(u[lo..hi]);
      var m :| 0 <= m < hi - lo && u[lo..hi][m] == a[k];
      assert u[lo + m] == a[k];
    }
  }

  /** An ascending run below x, then x, then an ascending run not below x, is ascending. */
  lemma JoinAscending(a: seq<int>, x: int, b: seq<int>)
    requires IsAscending(a) && IsAscending(b)
    requires forall k :: 0 <= k < |a| ==> a[k] < x
    requires forall k :: 0 <= k < |b| ==> b[k] >= x
    ensures IsAscending(a + [x] + b)
  {
    var s := a + [x] + b;
    forall p, q | 0 <= p < q < |s|
      ensures s[p] <= s[q]
    {
      if q < |a| {
      } else if p < |a| {
        assert s[q] >= x by {
          if q > |a| {
            assert s[q] == b[q - |a| - 1];
          }
        }
      } else if p == |a| {
        assert s[q] == b[q - |a| - 1];
      } else {
        assert s[p] == b[p - |a| - 1] && s[q] == b[q - |a| - 1];
      }
    }
  }

  lemma HelperPartitions(t: seq<int>, low: int, high: int)
    requires 0 <= low < high < |t|
    ensures QuickHelper(t, low, high) == PartitionAndSort(t, low, high)
  {
  }

  lemma HelperShort(t: seq<int>, low: int, high: int)
    requires 0 <= low <= high + 1 <= |t| && high <= low
    ensures QuickHelper(t, low, high) == if low == high then Run([Marked(t, [low])], t) else Run([], t)
  {
  }

  lemma PartitionAndSortUnfold(t: seq<int>, low: int, high: int)
    requires 0 <= low < high < |t|
    ensures var p := Partition(t, low, high);
      var l := QuickHelper(p.after, low, p.at - 1);
      var r := QuickHelper(l.after, p.at + 1, high);
      PartitionAndSort(t, low, high) == Run(p.steps + l.steps + r.steps, r.after)
  {
  }

  /** Every record of the recursion marks nothing sorted, except the one record of a
      singleton range, which marks just that index and carries nothing else: the list the
      root passes never grows. */
  ghost predicate MarksAtMostOne(steps: seq<Step>, low: int, high: int)
  {
    forall k :: 0 <= k < |steps| ==>
      && steps[k].sorted.Some? && |steps[k].sorted.value| <= 1
      && (|steps[k].sorted.value| == 1 ==>
            && low <= steps[k].sorted.value[0] <= high
            && steps[k].compared == None && steps[k].swapped == None && steps[k].highlight == None)
  }

  lemma {:induction false} HelperMarks(t: seq<int>, low: int, high: int)
    requires 0 <= low <= high + 1 <= |t|
    ensures MarksAtMostOne(QuickHelper(t, low, high).steps, low, high)
    decreases high - low + 1, 1
  {
    if low < high {
      PartitionAndSortMarks(t, low, high);
      HelperPartitions(t, low, high);
    } else {
      HelperShort(t, low, high);
    }
  }

  lemma {:induction false} PartitionAndSortMarks(t: seq<int>, low: int, high: int)
    requires 0 <= low < high < |t|
    ensures MarksAtMostOne(PartitionAndSort(t, low, high).steps, low, high)
    decreases high - low + 1, 0
  {
    var p := Partition(t, low, high);
    var l := QuickHelper(p.after, low, p.at - 1);
    var r := QuickHelper(l.after, p.at + 1, high);
    PartitionMarksNothing(t, low, high);
    HelperMarks(p.after, low, p.at - 1);
    HelperMarks(l.after, p.at + 1, high);
    MarksConcat(p.steps, l.steps, r.steps, low, p.at, high);
    PartitionAndSortUnfold(t, low, high);
  }

  lemma PartitionMarksNothing(t: seq<int>, low: int, high: int)
    requires 0 <= low < high < |t|
    ensures forall k :: 0 <= k < |Partition(t, low, high).steps| ==> Partition(t, low, high).steps[k].sorted == Some([])
  {
    PartitionSteps(t, low, high);
  }

  lemma MarksConcat(a: seq<Step>, b: seq<Step>, c: seq<Step>, low: int, at: int, high: int)
    requires low <= at <= high
    requires forall k :: 0 <= k < |a| ==> a[k].sorted == Some([])
    requires MarksAtMostOne(b, low, at - 1) && MarksAtMostOne(c, at + 1, high)
    ensures MarksAtMostOne(a + b + c, low, high)
  {
    var all := a + b + c;
    forall k | 0 <= k < |a|
      ensures all[k] == a[k]
    {
    }
    forall k | |a| <= k < |a| + |b|
      ensures all[k] == b[k - |a|]
    {
    }
    forall k | |a| + |b| <= k < |all|
      ensures all[k] == c[k - |a| - |b|]
    {
    }
  }

  /** An empty input yields the final record alone; a one-element input yields the
      singleton record and then the final record, two records that are the same. */
  lemma ShortInputs(s: seq<int>)
    requires |s| <= 1
    ensures |QuickTrace(s)| == |s| + 1
    ensures |s| == 0 ==> QuickTrace(s) == [Marked(s, [])]
    ensures |s| == 1 ==> QuickTrace(s) == [Marked(s, [0]), Marked(s, [0])]
  {
    HelperShort(s, 0, |s| - 1);
    assert Range(0, |s|) == if |s| == 0 then [] else [0];
  }

  /** The trace ends with the ascending permutation of the input, every index marked sorted. */
  lemma QuickTraceSorts(s: seq<int>)
    ensures EndsSorted(QuickTrace(s), s)
  {
    var sorted := QuickHelper(s, 0, |s| - 1).after;
    HelperSorts(s, 0, |s| - 1);
    assert sorted[0..|s|] == sorted && s[0..|s|] == s;
    AscendingIsSortedCopy(sorted, s);
  }

  // ---------------------------------------------------------------------------------------
  // The generator

  /** The loop of `partition`: j runs over [low, high); elements below the pivot are
      exchanged to the front. */
  method ScanLoop(arr: array<int>, low: int, high: int, pivot: int) returns (i: int, emitted: seq<Step>)
    requires 0 <= low <= high < arr.Length
    modifies arr
    ensures ScanFrom(old(arr[..]), low, high, pivot, low - 1, low) == Parted(emitted, arr[..], i)
  {
    ghost var whole := ScanFrom(arr[..], low, high, pivot, low - 1, low);
    i, emitted := low - 1, [];
    for j := low to high
      invariant low - 1 <= i < j
      invariant emitted + ScanFrom(arr[..], low, high, pivot, i, j).steps == whole.steps
      invariant ScanFrom(arr[..], low, high, pivot, i, j).after == whole.after
      invariant ScanFrom(arr[..], low, high, pivot, i, j).at == whole.at
    {
      ghost var before := arr[..];
      ScanAhead(before, low, high, pivot, i, j, emitted, whole);
      emitted := emitted + [Step(arr[..], Some([j, high]), None, Some([]), None)];
      if arr[j] < pivot {
        i := i + 1;
        arr[i], arr[j] := arr[j], arr[i];
        assert arr[..] == Swap(before, i, j);
        emitted := emitted + [Step(arr[..], None, Some([i, j]), Some([]), None)];
      }
    }
    ScanDone(arr[..], low, high, pivot, i);
    AppendEmpty(emitted);
  }

  /** One iteration keeps the loop's "emitted + still to come == whole loop" balance. */
  lemma ScanAhead(t: seq<int>, low: int, high: int, pivot: int, i: int, j: int, emitted: seq<Step>, whole: Parted)
    requires 0 <= low <= high < |t| && low - 1 <= i < j < high
    requires emitted + ScanFrom(t, low, high, pivot, i, j).steps == whole.steps
    requires ScanFrom(t, low, high, pivot, i, j).after == whole.after && ScanFrom(t, low, high, pivot, i, j).at == whole.at
    ensures var comparison := Step(t, Some([j, high]), None, Some([]), None);
      && (t[j] < pivot ==>
            var u := Swap(t, i + 1, j);
            var rest := ScanFrom(u, low, high, pivot, i + 1, j + 1);
            && emitted + [comparison] + [Step(u, None, Some([i + 1, j]), Some([]), None)] + rest.steps == whole.steps
            && rest.after == whole.after && rest.at == whole.at)
      && (t[j] >= pivot ==>
            var rest := ScanFrom(t, low, high, pivot, i, j + 1);
            && emitted + [comparison] + rest.steps == whole.steps
            && rest.after == whole.after && rest.at == whole.at)
  {
    var comparison := Step(t, Some([j, high]), None, Some([]), None);
    if t[j] < pivot {
      var u := Swap(t, i + 1, j);
      var exchange := Step(u, None, Some([i + 1, j]), Some([]), None);
      ScanLess(t, low, high, pivot, i, j);
      var rest := ScanFrom(u, low, high, pivot, i + 1, j + 1).steps;
      assert [comparison, exchange] + rest == [comparison] + [exchange] + rest;
      Regroup3(emitted, [comparison] + [exchange], rest);
      Regroup3(emitted, [comparison], [exchange]);
    } else {
      ScanNotLess(t, low, high, pivot, i, j);
      Regroup3(emitted, [comparison], ScanFrom(t, low, high, pivot, i, j + 1).steps);
    }
  }

  lemma ScanDone(t: seq<int>, low: int, high: int, pivot: int, i: int)
    requires 0 <= low <= high < |t| && low - 1 <= i < high
    ensures ScanFrom(t, low, high, pivot, i, high) == Parted([], t, i)
  {
  }

  /** `partition(low, high)` on the working array; returns the pivot's final place. */
  method PartitionStep(arr: array<int>, low: int, high: int) returns (p: int, steps: seq<Step>)
    requires 0 <= low < high < arr.Length
    modifies arr
    ensures Partition(old(arr[..]), low, high) == Parted(steps, arr[..], p)
  {
    var pivot := arr[high];
    var first := Step(arr[..], None, None, Some([]), Some([high]));
    var i, scanned := ScanLoop(arr, low, high, pivot);
    ghost var scannedArr := arr[..];
    arr[i + 1], arr[high] := arr[high], arr[i + 1];
    assert arr[..] == Swap(scannedArr, i + 1, high);
    steps := [first] + scanned + [Step(arr[..], None, Some([i + 1, high]), Some([]), None)];
    p := i + 1;
  }

  /** `quickSortHelper(low, high)` on the working array. */
  method QuickSortHelper(arr: array<int>, low: int, high: int) returns (steps: seq<Step>)
    requires 0 <= low <= high + 1 <= arr.Length
    modifies arr
    ensures QuickHelper(old(arr[..]), low, high) == Run(steps, arr[..])
    decreases high - low + 1, 1
  {
    if low < high {
      steps := PartitionAndSortRange(arr, low, high);
      HelperPartitions(old(arr[..]), low, high);
    } else if low == high {
      steps := [Marked(arr[..], [low])];
    } else {
      steps := [];
    }
  }

  /** Partition [low, high], then sort both sides in place. */
  method PartitionAndSortRange(arr: array<int>, low: int, high: int) returns (steps: seq<Step>)
    requires 0 <= low < high < arr.Length
    modifies arr
    ensures PartitionAndSort(old(arr[..]), low, high) == Run(steps, arr[..])
    decreases high - low + 1, 0
  {
    ghost var t := arr[..];
    var pi, parting := PartitionStep(arr, low, high);
    ghost var parted := arr[..];
    var left := QuickSortHelper(arr, low, pi - 1);
    ghost var leftSorted := arr[..];
    var right := QuickSortHelper(arr, pi + 1, high);
    PartitionAndSortSplit(t, low, high, parting, parted, pi, left, leftSorted, right, arr[..]);
    steps := parting + left + right;
  }

  /** The recursion's result, phase by phase. */
  lemma PartitionAndSortSplit(t: seq<int>, low: int, high: int, parting: seq<Step>, parted: seq<int>, pi: int,
                              left: seq<Step>, leftSorted: seq<int>, right: seq<Step>, after: seq<int>)
    requires 0 <= low < high < |t|
    requires Partition(t, low, high) == Parted(parting, parted, pi)
    requires QuickHelper(parted, low, pi - 1) == Run(left, leftSorted)
    requires QuickHelper(leftSorted, pi + 1, high) == Run(right, after)
    ensures PartitionAndSort(t, low, high) == Run(parting + left + right, after)
  {
  }

  /** `quickSort`: the caller's array is only read; the sort runs on a fresh copy. */
  method QuickSort(a: array<int>) returns (steps: seq<Step>)
    ensures steps == QuickTrace(a[..])
    ensures EndsSorted(steps, a[..])
  {
    var arr := new int[a.Length](k requires 0 <= k < a.Length reads a => a[k]);
    assert arr[..] == a[..];
    steps := QuickSortHelper(arr, 0, arr.Length - 1);
    QuickTraceSorts(a[..]);
    steps := steps + [Marked(arr[..], Range(0, arr.Length))];
  }
}
