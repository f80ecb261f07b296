/** `linearSearch` (lib/algorithms.ts:283-308): highlight each index in turn; at the first
    element equal to the target emit a record that also marks it sorted and stop; when no
    element matches, end with a bare record. */
module Linear {
  import opened Steps

  /** The record that looks at index i. */
  function Look(s: seq<int>, i: int): Step
  {
    Step(s, None, None, None, Some([i]))
  }

  /** The record that reports a match at index i. */
  function Hit(s: seq<int>, i: int): Step
  {
    Step(s, None, None, Some([i]), Some([i]))
  }

  /** The record that ends an unsuccessful search. */
  function Miss(s: seq<int>): Step
  {
    Step(s, None, None, None, None)
  }

  /** What the loop yields from index i on. */
  function SearchFrom(s: seq<int>, target: int, i: nat): seq<Step>
    requires i <= |s|
    decreases |s| - i
  {
    if i == |s| then [Miss(s)]
    else if s[i] == target then [Look(s, i), Hit(s, i)]
    else [Look(s, i)] + SearchFrom(s, target, i + 1)
  }

  /** Everything `linearSearch` yields for the input `s` and the target. */
  function LinearTrace(s: seq<int>, target: int): seq<Step>
  {
    SearchFrom(s, target, 0)
  }

  /** From i on, when k is the first index at or after i holding the target, the loop looks at
      i, ..., k in order and then reports the match at k. */
  lemma {:induction false} FoundFrom(s: seq<int>, target: int, i: nat, k: nat)
    requires i <= k < |s| && s[k] == target
    requires forall m :: i <= m < k ==> s[m] != target
    ensures var r := SearchFrom(s, target, i);
      && |r| == k - i + 2
      && (forall m :: 0 <= m <= k - i ==> r[m] == Look(s, i + m))
      && r[k - i + 1] == Hit(s, k)
    decreases k - i
  {
    if i < k {
      FoundFrom(s, target, i + 1, k);
      var rest := SearchFrom(s, target, i + 1);
      var r := [Look(s, i)] + rest;
      forall m | 0 <= m <= k - i
        ensures r[m] == Look(s, i + m)
      {
        if m > 0 {
          assert r[m] == rest[m - 1];
        }
      }
      assert r[k - i + 1] == rest[k - i];
    }
  }

  /** From i on, when the target does not occur in [i, n), the loop looks at i, ..., n - 1 and
      ends with the bare record. */
  lemma {:induction false} MissingFrom(s: seq<int>, target: int, i: nat)
    requires i <= |s|
    requires forall m :: i <= m < |s| ==> s[m] != target
    ensures var r := SearchFrom(s, target, i);
      && |r| == |s| - i + 1
      && (forall m :: 0 <= m < |s| - i ==> r[m] == Look(s, i + m))
      && r[|s| - i] == Miss(s)
    decreases |s| - i
  {
    if i < |s| {
      MissingFrom(s, target, i + 1);
      var rest := SearchFrom(s, target, i + 1);
      var r := [Look(s, i)] + rest;
      forall m | 0 <= m < |s| - i
        ensures r[m] == Look(s, i + m)
      {
        if m > 0 {
          assert r[m] == rest[m - 1];
        }
      }
      assert r[|s| - i] == rest[|s| - i - 1];
    }
  }

  /** At the first index k holding the target, the search has looked at 0, ..., k and stops
      after reporting k: k + 2 records. */
  lemma LinearFindsFirst(s: seq<int>, target: int, k: nat)
    requires k < |s| && s[k] == target
    requires forall m :: 0 <= m < k ==> s[m] != target
    ensures |LinearTrace(s, target)| == k + 2
    ensures forall m :: 0 <= m <= k ==> LinearTrace(s, target)[m] == Look(s, m)
    ensures LinearTrace(s, target)[k + 1] == Hit(s, k)
  {
    FoundFrom(s, target, 0, k);
  }

  /** When the target is absent, the search looks at every index and ends bare: n + 1 records. */
  lemma LinearMisses(s: seq<int>, target: int)
    requires target !in s
    ensures |LinearTrace(s, target)| == |s| + 1
    ensures forall m :: 0 <= m < |s| ==> LinearTrace(s, target)[m] == Look(s, m)
    ensures LinearTrace(s, target)[|s|] == Miss(s)
  {
    MissingFrom(s, target, 0);
  }

  /** The last record marks an index sorted exactly when the target occurs, and then the index
      it marks holds the target and no earlier index does. */
  lemma LinearReports(s: seq<int>, target: int)
    ensures var r := LinearTrace(s, target);
      && |r| > 0
      && (r[|r| - 1].sorted.Some? <==> target in s)
      && (r[|r| - 1].sorted.Some? ==>
            exists k :: 0 <= k < |s| && s[k] == target && r[|r| - 1] == Hit(s, k)
              && forall m :: 0 <= m < k ==> s[m] != target)
  {
    if target in s {
      var k := FirstIndex(s, target);
      LinearFindsFirst(s, target, k);
    } else {
      LinearMisses(s, target);
    }
  }

  /** The first index of an element that occurs. */
  function FirstIndex(s: seq<int>, x: int): (k: nat)
    requires x in s
    ensures k < |s| && s[k] == x
    ensures forall m :: 0 <= m < k ==> s[m] != x
  {
    if s[0] == x then 0
    else
      assert x in s[1..] by {
        assert s == [s[0]] + s[1..];
      }
      1 + FirstIndex(s[1..], x)
  }

  // ---------------------------------------------------------------------------------------
  // The generator

  /** `linearSearch`: the caller's array is only read; the search looks at a fresh copy. */
  method LinearSearch(a: array<int>, target: int) returns (steps: seq<Step>)
    ensures steps == LinearTrace(a[..], target)
  {
    var arr := new int[a.Length](k requires 0 <= k < a.Length reads a => a[k]);
    assert arr[..] == a[..];
    ghost var whole := SearchFrom(arr[..], target, 0);
    steps := [];
    for i := 0 to arr.Length
      invariant steps + SearchFrom(arr[..], target, i) == whole
    {
      var look := Look(arr[..], i);
      if arr[i] == target {
        steps := steps + [look, Hit(arr[..], i)];
        return;
      }
      Regroup3(steps, [look], SearchFrom(arr[..], target, i + 1));
      steps := steps + [look];
    }
    steps := steps + [Miss(arr[..])];
  }
}
