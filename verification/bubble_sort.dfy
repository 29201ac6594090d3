/**
  Bubble sort (`bubbleSort`): repeated passes of adjacent compare-and-swap over a copy of
  the input, with no early exit.
 */
module BubbleSort {
  import opened SortSpec

  /**
    One inner iteration: compare `arr[j]` with `arr[j + 1]` and exchange them only when
    they form a strict inversion.
   */
  method BubbleStep(a: seq<int>, j: nat) returns (arr: seq<int>, step: seq<SortEvent>)
    requires j + 1 < |a|
    ensures |arr| == |a| && multiset(arr) == multiset(a)
    ensures forall k :: 0 <= k < |a| && k != j && k != j + 1 ==> arr[k] == a[k]
    ensures arr[j] <= arr[j + 1] && (arr[j + 1] == a[j] || arr[j + 1] == a[j + 1])
    ensures arr[j + 1] >= a[j] && arr[j + 1] >= a[j + 1]
    ensures |step| > 0 && step[0] == Compare(j, j + 1) && CompareCount(step) == 1
    ensures SwapCount(step) == (if a[j] > a[j + 1] then 1 else 0)
    ensures AdjacentComparesBelow(step, j + 2)
    ensures SwapsFixInversions(step)
  {
    arr := a;
    var exchange := [];
    if arr[j] > arr[j + 1] {
      arr := SwapAt(arr, j, j + 1);
      exchange := [Swap(j, j + 1), Update(arr), ClearSwap];
      CountsOfThree(Swap(j, j + 1), Update(arr), ClearSwap);
    }
    step := [Compare(j, j + 1)] + exchange + [ClearCompare];
    CountsOfOne(Compare(j, j + 1));
    CountsOfOne(ClearCompare);
    CountsOfOne(Swap(j, j + 1));
    CountsAppend([Compare(j, j + 1)], exchange);
    CountsAppend([Compare(j, j + 1)] + exchange, [ClearCompare]);
    var bound := j + 2;
    forall k | 0 <= k < |step| ensures AdjacentCompareAt(step, k, bound) {
      if 0 < k { assert !step[k].Compare?; }
    }
    forall k | 0 <= k < |step| ensures SwapFixesInversionAt(step, k) {
      if k != 1 { assert !step[k].Swap?; }
    }
  }

  /**
    Outer iteration `i`: the inner `for j` loop over `0 .. n-i-2`. On entry the last `i`
    positions already hold the largest values in final order; on exit the last `i + 1` do.
   */
  method BubblePass(a: seq<int>, i: nat) returns (arr: seq<int>, events: seq<SortEvent>)
    requires i + 1 < |a|
    requires SortedRange(a, |a| - i, |a|) && Partitioned(a, |a| - i)
    ensures |arr| == |a| && multiset(arr) == multiset(a)
    ensures SortedRange(arr, |a| - i - 1, |a|) && Partitioned(arr, |a| - i - 1)
    ensures CompareCount(events) == |a| - i - 1
    ensures AdjacentComparesBelow(events, |a| - i)
    ensures SwapsFixInversions(events)
  {
    var n := |a|;
    arr := a;
    events := [];
    var j := 0;
    while j < n - i - 1
      invariant 0 <= j <= n - i - 1
      invariant |arr| == n && multiset(arr) == multiset(a)
      invariant forall k :: 0 <= k <= j ==> arr[k] <= arr[j]
      invariant SortedRange(arr, n - i, n) && Partitioned(arr, n - i)
      invariant CompareCount(events) == j
      invariant AdjacentComparesBelow(events, n - i)
      invariant SwapsFixInversions(events)
    {
      var step;
      arr, step := BubbleStep(arr, j);
      CountsAppend(events, step);
      AdjacentComparesAppend(events, step, n - i, j + 2);
      SwapsFixInversionsAppend(events, step);
      events := events + step;
      j := j + 1;
    }
  }

  /** `bubbleSort`: the sorted copy and every hook call made on the way. */
  method BubbleSort(input: seq<int>) returns (arr: seq<int>, trace: seq<SortEvent>)
    ensures Sorted(arr) && multiset(arr) == multiset(input)
    ensures CompareCount(trace) == |input| * (|input| - 1) / 2
    ensures AdjacentComparesBelow(trace, |input|)
    ensures SwapsFixInversions(trace)
  {
    var n := |input|;
    arr := input;
    trace := [];
    var i := 0;
    while i < n - 1
      invariant 0 <= i <= (if n == 0 then 0 else n - 1)
      invariant |arr| == n && multiset(arr) == multiset(input)
      invariant SortedRange(arr, n - i, n) && Partitioned(arr, n - i)
      invariant 2 * CompareCount(trace) == i * (2 * n - i - 1)
      invariant AdjacentComparesBelow(trace, n)
      invariant SwapsFixInversions(trace)
    {
      var pass;
      arr, pass := BubblePass(arr, i);
      CountsAppend(trace, pass);
      AdjacentComparesAppend(trace, pass, n, n - i);
      SwapsFixInversionsAppend(trace, pass);
      TriangleStep(i, n);
      trace := trace + pass;
      i := i + 1;
    }
    assert 2 * CompareCount(trace) == n * (n - 1);
  }
}
