/**
  Quick sort (`quickSort`): Lomuto partition around the last element of the slice, then
  the two sides of the pivot are sorted recursively.
 */
module QuickSort {
  import opened SortSpec

  /**
    Event `k` of `t`, if a compare event, pairs a scanned position `j` of `[low, high)`
    with the pivot position `high`.
   */
  ghost predicate PivotCompareAt(t: seq<SortEvent>, k: int, low: int, high: int)
    requires 0 <= k < |t|
  {
    t[k].Compare? ==> low <= t[k].i < high && t[k].j == high
  }

  /** Every compare event of `t` pairs a scanned position with the pivot position. */
  ghost predicate PivotCompares(t: seq<SortEvent>, low: int, high: int) {
    forall k | 0 <= k < |t| :: PivotCompareAt(t, k, low, high)
  }

  lemma PivotComparesAppend(a: seq<SortEvent>, b: seq<SortEvent>, low: int, high: int)
    requires PivotCompares(a, low, high) && PivotCompares(b, low, high)
    ensures PivotCompares(a + b, low, high)
  {
    forall k | 0 <= k < |a + b|
      ensures PivotCompareAt(a + b, k, low, high)
    {
      if k < |a| {
        assert PivotCompareAt(a, k, low, high);
      } else {
        assert PivotCompareAt(b, k - |a|, low, high);
      }
    }
  }

  lemma PivotComparesWithin(t: seq<SortEvent>, low: int, high: int)
    requires PivotCompares(t, low, high)
    ensures ComparesWithin(t, low, high + 1)
  {
    var hi := high + 1;
    forall k | 0 <= k < |t| ensures CompareWithinAt(t, k, low, hi) {
      assert PivotCompareAt(t, k, low, high);
    }
  }

  /**
    The exchange inside the `for j` loop: `a[j]`, below the pivot, trades places with
    `a[b]`, which is not. The update that follows shows the pair in increasing order.
   */
  method ExchangeBelow(a: seq<int>, low: nat, b: nat, j: nat, high: nat) returns (arr: seq<int>, exchange: seq<SortEvent>)
    requires low <= b < j < high < |a|
    requires a[j] < a[high] <= a[b]
    ensures arr == SwapAt(a, b, j) && PermutedIn(a, arr, low, high)
    ensures CompareCount(exchange) == 0 && SwapCount(exchange) == 1
    ensures PivotCompares(exchange, low, high)
    ensures SwapsFixInversions(exchange)
  {
    arr := SwapAt(a, b, j);
    SwapInside(a, b, j, low, high);
    exchange := [Swap(b, j), Update(arr), ClearSwap];
    CountsOfThree(Swap(b, j), Update(arr), ClearSwap);
    CountsOfOne(Swap(b, j));
    forall k | 0 <= k < |exchange| ensures SwapFixesInversionAt(exchange, k) {
      if k != 0 { assert !exchange[k].Swap?; }
    }
    forall k | 0 <= k < |exchange| ensures PivotCompareAt(exchange, k, low, high) {
    }
  }

  /**
    One iteration of the `for j` loop of `partition`. `b` is the boundary `i + 1`: on
    entry `a[low..b]` is below the pivot `a[high]` and `a[b..j]` is not. When `a[j]` is
    below the pivot it joins the lower side, by an exchange with `a[b]` unless `b == j`.
   */
  method PartitionStep(a: seq<int>, low: nat, b: nat, j: nat, high: nat)
    returns (arr: seq<int>, b': nat, step: seq<SortEvent>)
    requires low <= b <= j < high < |a|
    requires SliceBelow(a, low, b, a[high]) && SliceAtLeast(a, b, j, a[high])
    ensures b' == (if a[j] < a[high] then b + 1 else b)
    ensures |arr| == |a| && arr[high] == a[high]
    ensures SliceBelow(arr, low, b', a[high]) && SliceAtLeast(arr, b', j + 1, a[high])
    ensures PermutedIn(a, arr, low, high)
    ensures CompareCount(step) == 1 && SwapCount(step) <= b' - b
    ensures PivotCompares(step, low, high)
    ensures SwapsFixInversions(step)
  {
    var compare := [Compare(j, high)];
    CountsOfOne(Compare(j, high));
    assert PivotCompareAt(compare, 0, low, high);
    assert SwapFixesInversionAt(compare, 0);
    arr, b', step := a, b, compare;
    PermutedInRefl(a, low, high);
    if a[j] < a[high] {
      b' := b + 1;
      if b != j {
        var exchange;
        arr, exchange := ExchangeBelow(a, low, b, j, high);
        CountsAppend(compare, exchange);
        PivotComparesAppend(compare, exchange, low, high);
        SwapsFixInversionsAppend(compare, exchange);
        step := compare + exchange;
      }
    }
  }

  /**
    The end of `partition`: exchange the pivot `a[high]` with the first element not below
    it, at `b`, so that the pivot lands between the two sides. The exchange and its events
    happen even when `b == high`.
   */
  method PlacePivot(a: seq<int>, low: nat, b: nat, high: nat) returns (arr: seq<int>, tail: seq<SortEvent>)
    requires low <= b <= high < |a|
    requires SliceBelow(a, low, b, a[high]) && SliceAtLeast(a, b, high, a[high])
    ensures |arr| == |a| && arr[b] == a[high]
    ensures SliceBelow(arr, low, b, a[high]) && SliceAtLeast(arr, b + 1, high + 1, a[high])
    ensures PermutedIn(a, arr, low, high + 1)
    ensures tail == [Swap(b, high), Update(arr), ClearSwap, ClearCompare]
    ensures CompareCount(tail) == 0 && SwapCount(tail) == 1
    ensures PivotCompares(tail, low, high)
  {
    arr := SwapAt(a, b, high);
    SwapInside(a, b, high, low, high + 1);
    tail := [Swap(b, high), Update(arr), ClearSwap, ClearCompare];
    assert tail == [Swap(b, high), Update(arr), ClearSwap] + [ClearCompare];
    CountsOfThree(Swap(b, high), Update(arr), ClearSwap);
    CountsOfOne(Swap(b, high));
    CountsOfOne(ClearCompare);
    CountsAppend([Swap(b, high), Update(arr), ClearSwap], [ClearCompare]);
    forall k | 0 <= k < |tail| ensures PivotCompareAt(tail, k, low, high) {
    }
  }

  /**
    `partition(arr, low, high)`: returns `p`, with the pivot `a[high]` at `p`, everything
    of `[low, p)` strictly below it and everything of `(p, high]` not below it, and the
    slice `[low..high]` only rearranged. Each scanned position is compared with the pivot
    once; the exchanges of the scan each move an element below the pivot past one that is
    not, and the final exchange places the pivot.
   */
  method Partition(a: seq<int>, low: nat, high: nat) returns (arr: seq<int>, p: nat, events: seq<SortEvent>)
    requires low < high < |a|
    ensures low <= p <= high && |arr| == |a|
    ensures PermutedIn(a, arr, low, high + 1)
    ensures arr[p] == a[high]
    ensures SliceBelow(arr, low, p, a[high]) && SliceAtLeast(arr, p + 1, high + 1, a[high])
    ensures CompareCount(events) == high - low
    ensures 1 <= SwapCount(events) <= p - low + 1
    ensures PivotCompares(events, low, high)
    ensures |events| >= 4 && SwapsFixInversions(events[..|events| - 4])
    ensures events[|events| - 4..] == [Swap(p, high), Update(arr), ClearSwap, ClearCompare]
  {
    var pivot := a[high];
    arr := a;
    var b := low;
    var scan := [];
    PermutedInRefl(a, low, high);
    var j := low;
    while j < high
      invariant low <= b <= j <= high && |arr| == |a| && arr[high] == pivot
      invariant SliceBelow(arr, low, b, pivot) && SliceAtLeast(arr, b, j, pivot)
      invariant PermutedIn(a, arr, low, high)
      invariant CompareCount(scan) == j - low && SwapCount(scan) <= b - low
      invariant PivotCompares(scan, low, high)
      invariant SwapsFixInversions(scan)
    {
      var arr', b', step := PartitionStep(arr, low, b, j, high);
      PermutedInTrans(a, arr, arr', low, high);
      CountsAppend(scan, step);
      PivotComparesAppend(scan, step, low, high);
      SwapsFixInversionsAppend(scan, step);
      arr, b, scan := arr', b', scan + step;
      j := j + 1;
    }
    var placed, tail := PlacePivot(arr, low, b, high);
    PermutedInWiden(a, arr, low, high + 1, low, high);
    PermutedInTrans(a, arr, placed, low, high + 1);
    CountsAppend(scan, tail);
    PivotComparesAppend(scan, tail, low, high);
    arr, p, events := placed, b, scan + tail;
    assert events[..|events| - 4] == scan;
  }

  /**
    `quickSortHelper(arr, low, high)`: sorts the slice `[low..high]` in place and touches
    nothing outside it. An empty or one-element slice (`low >= high`, including the
    `high == low - 1` and `low == high + 1` calls around a pivot at an end) is left alone.
    At most `n (n - 1) / 2` comparisons are made on a slice of `n` elements.
   */
  method QuickSortRange(a: seq<int>, low: nat, high: int) returns (arr: seq<int>, events: seq<SortEvent>)
    requires low <= high + 1 <= |a|
    ensures |arr| == |a| && PermutedIn(a, arr, low, high + 1)
    ensures SortedRange(arr, low, high + 1)
    ensures ComparesWithin(events, low, high + 1)
    ensures CompareCount(events) <= Pairs(high + 1 - low)
    decreases high + 1 - low
  {
    arr := a;
    events := [];
    PermutedInRefl(a, low, high + 1);
    if low < high {
      var arr1, p, e1 := Partition(a, low, high);
      var below := p as int - 1;
      var arr2, e2 := QuickSortRange(arr1, low, below);
      var arr3, e3 := QuickSortRange(arr2, p + 1, high);
      QuickSortPermutes(a, arr1, arr2, arr3, low, p, high);
      QuickSortSorted(a[high], arr1, arr2, arr3, low, p, high);
      PivotComparesWithin(e1, low, high);
      QuickSortEvents(e1, e2, e3, low, p, high);
      arr, events := arr3, e1 + e2 + e3;
    }
  }

  /** Partitioning and sorting both sides in place permutes the whole slice. */
  lemma QuickSortPermutes(a: seq<int>, arr1: seq<int>, arr2: seq<int>, arr3: seq<int>, low: nat, p: nat, high: nat)
    requires low <= p <= high < |a|
    requires |arr1| == |a| && PermutedIn(a, arr1, low, high + 1)
    requires |arr2| == |a| && PermutedIn(arr1, arr2, low, p)
    requires |arr3| == |a| && PermutedIn(arr2, arr3, p + 1, high + 1)
    ensures PermutedIn(a, arr3, low, high + 1)
  {
    PermutedInWiden(arr1, arr2, low, high + 1, low, p);
    PermutedInWiden(arr2, arr3, low, high + 1, p + 1, high + 1);
    PermutedInTrans(a, arr1, arr2, low, high + 1);
    PermutedInTrans(a, arr2, arr3, low, high + 1);
  }

  /** Sorting both sides of a placed pivot in place sorts the whole slice. */
  lemma QuickSortSorted(pivot: int, arr1: seq<int>, arr2: seq<int>, arr3: seq<int>, low: nat, p: nat, high: nat)
    requires low <= p <= high < |arr1|
    requires arr1[p] == pivot
    requires SliceBelow(arr1, low, p, pivot) && SliceAtLeast(arr1, p + 1, high + 1, pivot)
    requires |arr2| == |arr1| && PermutedIn(arr1, arr2, low, p) && SortedRange(arr2, low, p)
    requires |arr3| == |arr1| && PermutedIn(arr2, arr3, p + 1, high + 1) && SortedRange(arr3, p + 1, high + 1)
    ensures SortedRange(arr3, low, high + 1)
  {
    BoundsSurvivePermutation(arr1, arr2, low, p, pivot);
    SameOutsideKeeps(arr1, arr2, low, p, p, high + 1);
    BoundsSurvivePermutation(arr2, arr3, p + 1, high + 1, pivot);
    SameOutsideKeeps(arr2, arr3, p + 1, high + 1, low, p + 1);
    forall x, y | low <= x < y < high + 1
      ensures arr3[x] <= arr3[y]
    {
      if y < p {
        assert arr3[x] == arr2[x] && arr3[y] == arr2[y];
      }
    }
  }

  /** Positions of `[from, to)` outside the permuted slice `[lo, hi)` keep their values. */
  lemma SameOutsideKeeps(s: seq<int>, t: seq<int>, lo: nat, hi: nat, from: nat, to: nat)
    requires lo <= hi <= |s| && from <= to <= |s|
    requires SameOutside(s, t, lo, hi)
    requires to <= lo || hi <= from
    ensures forall k :: from <= k < to ==> t[k] == s[k]
  {
    forall k | from <= k < to ensures t[k] == s[k] {
      if k < lo {
        assert s[k] == s[..lo][k] && t[k] == t[..lo][k];
      } else {
        assert s[k] == s[hi..][k - hi] && t[k] == t[hi..][k - hi];
      }
    }
  }

  /**
    The partition's `n - 1` comparisons and the two recursive calls together stay inside
    the slice and within `n (n - 1) / 2`.
   */
  lemma QuickSortEvents(e1: seq<SortEvent>, e2: seq<SortEvent>, e3: seq<SortEvent>, low: nat, p: nat, high: nat)
    requires low <= p <= high
    requires ComparesWithin(e1, low, high + 1) && CompareCount(e1) == high - low
    requires ComparesWithin(e2, low, p) && CompareCount(e2) <= Pairs(p - low)
    requires ComparesWithin(e3, p + 1, high + 1) && CompareCount(e3) <= Pairs(high - p)
    ensures ComparesWithin(e1 + e2 + e3, low, high + 1)
    ensures CompareCount(e1 + e2 + e3) <= Pairs(high + 1 - low)
  {
    ComparesWithinAppend(e1, e2, low, high + 1, low, p);
    ComparesWithinAppend(e1 + e2, e3, low, high + 1, p + 1, high + 1);
    CountsAppend(e1, e2);
    CountsAppend(e1 + e2, e3);
    QuadraticSplit(p - low, high - p);
  }

  /** The number `n (n - 1) / 2` of unordered pairs of `n` elements. */
  function Pairs(n: int): int {
    n * (n - 1) / 2
  }

  /**
    Splitting `n - 1` elements into parts `x` and `y`: the `n - 1` comparisons with the
    pivot plus the pairs within each part never exceed the pairs of all `n`.
   */
  lemma QuadraticSplit(x: nat, y: nat)
    ensures (x + y) + Pairs(x) + Pairs(y) <= Pairs(x + y + 1)
  {
    assert (x + y + 1) * (x + y) == x * x + 2 * x * y + y * y + x + y;
    assert x * (x - 1) == x * x - x && y * (y - 1) == y * y - y;
    assert 0 <= x * y;
  }

  /** `quickSort`: the sorted copy and every hook call made on the way. */
  method QuickSort(input: seq<int>) returns (arr: seq<int>, trace: seq<SortEvent>)
    ensures Sorted(arr) && multiset(arr) == multiset(input)
    ensures ComparesWithin(trace, 0, |input|)
    ensures CompareCount(trace) <= Pairs(|input|)
  {
    arr, trace := QuickSortRange(input, 0, |input| - 1);
    PermutedInWhole(input, arr, 0, |input|);
  }
}
