/** The step record every generator emits (`AlgorithmStep`), and the vocabulary the
    generators share: index lists, swaps, ascending order and the ascending copy. */
module Steps {

  datatype Option<T> = None | Some(value: T)

  /** One emitted record: the array at the moment of the yield, and the optional
      index lists `compared`, `swapped`, `sorted` and `highlight`. */
  datatype Step = Step(
    arr: seq<int>,
    compared: Option<seq<int>>,
    swapped: Option<seq<int>>,
    sorted: Option<seq<int>>,
    highlight: Option<seq<int>>)

  /** What one phase of a generator emits, with the working array it leaves behind. */
  datatype Run = Run(steps: seq<Step>, after: seq<int>)

  /** `Array.from({length: hi - lo}, (_, k) => lo + k)`: the indices lo, ..., hi - 1. */
  function Range(lo: int, hi: int): seq<int>
    requires lo <= hi
  {
    seq(hi - lo, k => lo + k)
  }

  /** `Array.from({length: len}, (_, k) => n - 1 - k)`: the indices n - 1, n - 2, ..., n - len. */
  function Desc(n: int, len: nat): seq<int>
  {
    seq(len, k => n - 1 - k)
  }

  /** `[arr[i], arr[j]] = [arr[j], arr[i]]` on a value. */
  function Swap(s: seq<int>, i: int, j: int): (r: seq<int>)
    requires 0 <= i < |s| && 0 <= j < |s|
    ensures |r| == |s|
  {
    s[i := s[j]][j := s[i]]
  }

  /** An exchange only moves elements: the result is a permutation of its input. */
  lemma SwapPermutes(s: seq<int>, i: int, j: int)
    requires 0 <= i < |s| && 0 <= j < |s|
    ensures multiset(Swap(s, i, j)) == multiset(s)
  {
  }

  /** `Math.floor((lo + hi) / 2)` for lo <= hi, given by the two inequalities that define
      it (integer division kept out of the recursive definitions that use it). */
  function Mid(lo: int, hi: int): (mid: int)
    requires lo <= hi
    ensures lo <= mid <= hi && 2 * mid <= lo + hi < 2 * mid + 2
  {
    assert 2 * ((lo + hi) / 2) <= lo + hi;
    var mid :| 2 * mid <= lo + hi < 2 * mid + 2;
    mid
  }

  /** Mid is `Math.floor((lo + hi) / 2)` for the non-negative indices the generators use. */
  lemma MidIsFloor(lo: int, hi: int)
    requires 0 <= lo <= hi
    ensures Mid(lo, hi) == (lo + hi) / 2
  {
  }

  /** `o?.length || 0`: how much a step adds to a counter. */
  function Count(o: Option<seq<int>>): nat
  {
    match o
    case None => 0
    case Some(xs) => |xs|
  }

  /** A record that carries only an array and a `sorted` list. */
  function Marked(arr: seq<int>, sorted: seq<int>): Step
  {
    Step(arr, None, None, Some(sorted), None)
  }

  predicate IsAscending(s: seq<int>)
  {
    forall i, j :: 0 <= i < j < |s| ==> s[i] <= s[j]
  }

  /** x inserted into s before the first element not smaller than x. */
  function Insert(x: int, s: seq<int>): (r: seq<int>)
    ensures |r| == |s| + 1
  {
    if s == [] || x <= s[0] then [x] + s
    else [s[0]] + Insert(x, s[1..])
  }

  lemma {:induction false} InsertPermutes(x: int, s: seq<int>)
    ensures multiset(Insert(x, s)) == multiset(s) + multiset{x}
  {
    if s != [] && x > s[0] {
      InsertPermutes(x, s[1..]);
      assert s == [s[0]] + s[1..];
    }
  }

  /** Inserting into an ascending sequence keeps it ascending. */
  lemma {:induction false} InsertAscending(x: int, s: seq<int>)
    requires IsAscending(s)
    ensures IsAscending(Insert(x, s))
  {
    if s == [] || x <= s[0] {
      ConsAscending(x, s);
    } else {
      var t := Insert(x, s[1..]);
      InsertAscending(x, s[1..]);
      assert t[0] == x || t[0] == s[1];
      ConsAscending(s[0], t);
    }
  }

  /** Putting h in front of an ascending sequence that starts at h or above keeps it ascending. */
  lemma ConsAscending(h: int, t: seq<int>)
    requires IsAscending(t) && (t == [] || h <= t[0])
    ensures IsAscending([h] + t)
  {
    var r := [h] + t;
    forall a, b | 0 <= a < b < |r|
      ensures r[a] <= r[b]
    {
      if a == 0 {
        assert r[b] == t[b - 1];
        assert t[0] <= t[b - 1];
      } else {
        assert r[a] == t[a - 1] && r[b] == t[b - 1];
      }
    }
  }

  /** Insertion sort by value. */
  function InsertionSorted(s: seq<int>): seq<int>
  {
    if s == [] then [] else Insert(s[0], InsertionSorted(s[1..]))
  }

  /** Insertion sort yields an ascending permutation of its input. */
  lemma {:induction false} InsertionSorts(s: seq<int>)
    ensures IsAscending(InsertionSorted(s)) && multiset(InsertionSorted(s)) == multiset(s)
  {
    if s != [] {
      var t := InsertionSorted(s[1..]);
      InsertionSorts(s[1..]);
      InsertAscending(s[0], t);
      InsertPermutes(s[0], t);
      assert s == [s[0]] + s[1..];
    }
  }

  /** The ascending arrangement of an integer sequence, what `[...array].sort((a, b) => a - b)`
      yields; SortedPermutationUnique shows there is only one. */
  ghost function SortedCopy(s: seq<int>): (r: seq<int>)
    ensures |r| == |s|
    ensures IsAscending(r)
    ensures multiset(r) == multiset(s)
  {
    var insertion := InsertionSorted(s);
    InsertionSorts(s);
    assert |insertion| == |multiset(insertion)| == |s|;
    var r :| IsAscending(r) && multiset(r) == multiset(s);
    assert |r| == |multiset(r)|;
    r
  }

  /** There is only one ascending arrangement of a multiset of integers, so every sort
      (the library's, or any of the generators') produces the same array. */
  lemma {:induction false} SortedPermutationUnique(a: seq<int>, b: seq<int>)
    requires IsAscending(a) && IsAscending(b)
    requires multiset(a) == multiset(b)
    ensures a == b
  {
    if a != [] {
      SameFirst(a, b);
      SameRest(a, b);
      SortedPermutationUnique(a[1..], b[1..]);
      SameFirstAndRest(a, b);
    }
  }

  /** Two ascending permutations of a non-empty multiset start with its minimum. */
  lemma SameFirst(a: seq<int>, b: seq<int>)
    requires IsAscending(a) && IsAscending(b)
    requires multiset(a) == multiset(b) && a != []
    ensures b != [] && a[0] == b[0]
  {
    assert a[0] in multiset(b);
    assert b[0] in multiset(a);
    var i :| 0 <= i < |b| && b[i] == a[0];
    var j :| 0 <= j < |a| && a[j] == b[0];
  }

  lemma SameRest(a: seq<int>, b: seq<int>)
    requires a != [] && b != [] && a[0] == b[0]
    requires multiset(a) == multiset(b)
    ensures multiset(a[1..]) == multiset(b[1..])
  {
    calc {
      multiset(a[1..]);
      == { assert a == [a[0]] + a[1..]; }
      multiset(a) - multiset{a[0]};
      ==
      multiset(b) - multiset{b[0]};
      == { assert b == [b[0]] + b[1..]; }
      multiset(b[1..]);
    }
  }

  lemma SameFirstAndRest(a: seq<int>, b: seq<int>)
    requires a != [] && b != [] && a[0] == b[0] && a[1..] == b[1..]
    ensures a == b
  {
    assert a == [a[0]] + a[1..];
    assert b == [b[0]] + b[1..];
  }

  lemma AppendEmpty<T>(a: seq<T>)
    ensures a + [] == a
  {
  }

  /** Regrouping a concatenation of three traces. */
  lemma Regroup3<T>(a: seq<T>, b: seq<T>, c: seq<T>)
    ensures a + (b + c) == a + b + c
  {
  }

  /** The record every sort ends with: the ascending input and `sorted = [0 .. n)`. */
  ghost function SortedStep(input: seq<int>): Step
  {
    Marked(SortedCopy(input), Range(0, |input|))
  }

  /** The ascending arrangement of `input` is its sorted copy. */
  lemma AscendingIsSortedCopy(arr: seq<int>, input: seq<int>)
    requires IsAscending(arr) && multiset(arr) == multiset(input)
    ensures arr == SortedCopy(input)
  {
    SortedPermutationUnique(arr, SortedCopy(input));
  }

  /** A trace of a sort is complete: it ends with the ascending permutation of the
      input, every index marked sorted, and no compared or swapped pair. */
  ghost predicate EndsSorted(steps: seq<Step>, input: seq<int>)
  {
    |steps| > 0 && steps[|steps| - 1] == SortedStep(input)
  }

  // ---------------------------------------------------------------------------------------
  // Sorting a range in place

  /** r agrees with t before lo and from hi on, and holds the elements of t[lo .. hi) there
      in ascending order. */
  ghost predicate SortedRange(r: seq<int>, t: seq<int>, lo: int, hi: int)
    requires 0 <= lo <= hi <= |t|
  {
    && |r| == |t| && r[..lo] == t[..lo] && r[hi..] == t[hi..]
    && IsAscending(r[lo..hi])
    && multiset(r[lo..hi]) == multiset(t[lo..hi])
  }

  /** A range of at most one element is sorted as it stands. */
  lemma ShortRangeSorted(t: seq<int>, lo: int, hi: int)
    requires 0 <= lo <= hi <= lo + 1 && hi <= |t|
    ensures SortedRange(t, t, lo, hi)
  {
  }

  /** Sequences that agree before n agree on every slice that ends by n. */
  lemma PrefixParts(a: seq<int>, b: seq<int>, n: int, m: int)
    requires 0 <= m <= n <= |a| && n <= |b| && a[..n] == b[..n]
    ensures a[..m] == b[..m] && a[m..n] == b[m..n]
  {
    assert a[..m] == a[..n][..m] && b[..m] == b[..n][..m];
    assert a[m..n] == a[..n][m..] && b[m..n] == b[..n][m..];
  }

  /** Sequences of one length that agree from n on agree on every slice that starts at or
      after n. */
  lemma SuffixParts(a: seq<int>, b: seq<int>, n: int, m: int)
    requires 0 <= n <= m <= |a| == |b| && a[n..] == b[n..]
    ensures a[m..] == b[m..] && a[n..m] == b[n..m]
  {
    assert a[m..] == a[n..][m - n..] && b[m..] == b[n..][m - n..];
    assert a[n..m] == a[n..][..m - n] && b[n..m] == b[n..][..m - n];
  }

  /** A slice splits into two at any point in between. */
  lemma SplitMultiset(t: seq<int>, a: int, b: int, c: int)
    requires 0 <= a <= b <= c <= |t|
    ensures multiset(t[a..c]) == multiset(t[a..b]) + multiset(t[b..c])
  {
    assert t[a..c] == t[a..b] + t[b..c];
  }

  /** When a and t agree outside [lo, hi) and hold the same elements, they hold the same
      elements inside it. */
  lemma MiddlePermutes(a: seq<int>, t: seq<int>, lo: int, hi: int)
    requires 0 <= lo <= hi <= |a| == |t|
    requires a[..lo] == t[..lo] && a[hi..] == t[hi..] && multiset(a) == multiset(t)
    ensures multiset(a[lo..hi]) == multiset(t[lo..hi])
  {
    ThreeParts(a, lo, hi);
    ThreeParts(t, lo, hi);
    Cancel(multiset(a[lo..hi]), multiset(t[lo..hi]), multiset(t[..lo]) + multiset(t[hi..]));
  }

  /** The elements of s are those before lo, those of [lo, hi) and those from hi on. */
  lemma ThreeParts(s: seq<int>, lo: int, hi: int)
    requires 0 <= lo <= hi <= |s|
    ensures multiset(s) == multiset(s[lo..hi]) + (multiset(s[..lo]) + multiset(s[hi..]))
  {
    assert s == s[..lo] + s[lo..hi] + s[hi..];
  }

  lemma Cancel(x: multiset<int>, y: multiset<int>, z: multiset<int>)
    requires x + z == y + z
    ensures x == y
  {
    forall e
      ensures x[e] == y[e]
    {
      assert (x + z)[e] == (y + z)[e];
    }
  }

  /** An exchange inside [lo, hi) leaves everything outside it in place. */
  lemma SwapOutside(s: seq<int>, x: int, y: int, lo: int, hi: int)
    requires 0 <= lo <= x < hi <= |s| && lo <= y < hi
    ensures Swap(s, x, y)[..lo] == s[..lo] && Swap(s, x, y)[hi..] == s[hi..]
  {
  }
}
