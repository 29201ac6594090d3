/**
  Selection sort (`selectionSort`): for each position `i`, scan the rest of the array for
  its leftmost minimum and exchange it into place when it is not already there.
 */
module SelectionSort {
  import opened SortSpec

  /**
    The inner `for j` loop: `minIdx` starts at `i` and moves to `j` only when `arr[j]` is
    strictly smaller, so it ends on the LEFTMOST minimum of `a[i..]`.
   */
  method ScanMin(a: seq<int>, i: nat) returns (minIdx: nat, events: seq<SortEvent>)
    requires i < |a|
    ensures i <= minIdx < |a|
    ensures forall k :: i <= k < |a| ==> a[minIdx] <= a[k]
    ensures forall k :: i <= k < minIdx ==> a[minIdx] < a[k]
    ensures CompareCount(events) == |a| - i - 1 && SwapCount(events) == 0
    ensures ComparesWithin(events, i, |a|)
    ensures SwapsFixInversions(events)
  {
    minIdx := i;
    events := [];
    var j := i + 1;
    while j < |a|
      invariant i + 1 <= j <= |a|
      invariant i <= minIdx < j
      invariant forall k :: i <= k < j ==> a[minIdx] <= a[k]
      invariant forall k :: i <= k < minIdx ==> a[minIdx] < a[k]
      invariant CompareCount(events) == j - i - 1 && SwapCount(events) == 0
      invariant ComparesWithin(events, i, |a|)
      invariant SwapsFixInversions(events)
    {
      var step := [Compare(minIdx, j)];
      CountsOfOne(Compare(minIdx, j));
      CountsAppend(events, step);
      assert CompareWithinAt(step, 0, i, |a|);
      ComparesWithinAppend(events, step, i, |a|, i, |a|);
      assert SwapFixesInversionAt(step, 0);
      SwapsFixInversionsAppend(events, step);
      events := events + step;
      if a[j] < a[minIdx] {
        minIdx := j;
      }
      j := j + 1;
    }
  }

  /**
    Outer iteration `i`. On entry `a[..i]` is sorted and below everything after it; on exit
    the same holds of `arr[..i + 1]`. An exchange happens, and is reported, only when a
    strictly smaller element was found to the right of `i`.
   */
  method SelectionPass(a: seq<int>, i: nat) returns (arr: seq<int>, events: seq<SortEvent>)
    requires i + 1 < |a|
    requires SortedRange(a, 0, i) && Partitioned(a, i)
    ensures |arr| == |a| && multiset(arr) == multiset(a)
    ensures SortedRange(arr, 0, i + 1) && Partitioned(arr, i + 1)
    ensures SwapCount(events) <= 1
    ensures SwapCount(events) == 0 <==> arr == a
    ensures SwapCount(events) == 1 ==> arr[i] < a[i]
    ensures CompareCount(events) == |a| - i - 1
    ensures ComparesWithin(events, i, |a|)
    ensures SwapsFixInversions(events)
  {
    var minIdx;
    minIdx, events := ScanMin(a, i);
    arr := a;
    if minIdx != i {
      arr := SwapAt(arr, i, minIdx);
      var exchange := [Swap(i, minIdx), Update(arr), ClearSwap];
      CountsOfThree(Swap(i, minIdx), Update(arr), ClearSwap);
      CountsOfOne(Swap(i, minIdx));
      forall k | 0 <= k < |exchange| ensures SwapFixesInversionAt(exchange, k) {
        if k != 0 { assert !exchange[k].Swap?; }
      }
      forall k | 0 <= k < |exchange| ensures CompareWithinAt(exchange, k, i, |a|) {
      }
      CountsAppend(events, exchange);
      ComparesWithinAppend(events, exchange, i, |a|, i, |a|);
      SwapsFixInversionsAppend(events, exchange);
      events := events + exchange;
    }
    CountsOfOne(ClearCompare);
    CountsAppend(events, [ClearCompare]);
    assert CompareWithinAt([ClearCompare], 0, i, |a|);
    ComparesWithinAppend(events, [ClearCompare], i, |a|, i, |a|);
    assert SwapFixesInversionAt([ClearCompare], 0);
    SwapsFixInversionsAppend(events, [ClearCompare]);
    events := events + [ClearCompare];
  }

  /** `selectionSort`: the sorted copy and every hook call made on the way. */
  method SelectionSort(input: seq<int>) returns (arr: seq<int>, trace: seq<SortEvent>)
    ensures Sorted(arr) && multiset(arr) == multiset(input)
    ensures SwapCount(trace) <= (if |input| == 0 then 0 else |input| - 1)
    ensures CompareCount(trace) == |input| * (|input| - 1) / 2
    ensures ComparesWithin(trace, 0, |input|)
    ensures SwapsFixInversions(trace)
  {
    var n := |input|;
    arr := input;
    trace := [];
    var i := 0;
    while i < n - 1
      invariant 0 <= i <= (if n == 0 then 0 else n - 1)
      invariant |arr| == n && multiset(arr) == multiset(input)
      invariant SortedRange(arr, 0, i) && Partitioned(arr, i)
      invariant SwapCount(trace) <= i
      invariant 2 * CompareCount(trace) == i * (2 * n - i - 1)
      invariant ComparesWithin(trace, 0, n)
      invariant SwapsFixInversions(trace)
    {
      var pass;
      arr, pass := SelectionPass(arr, i);
      CountsAppend(trace, pass);
      ComparesWithinAppend(trace, pass, 0, n, i, n);
      SwapsFixInversionsAppend(trace, pass);
      TriangleStep(i, n);
      trace := trace + pass;
      i := i + 1;
    }
    assert 2 * CompareCount(trace) == n * (n - 1);
  }
}
