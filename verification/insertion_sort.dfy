/**
  Insertion sort (`insertionSort`): for each `i`, shift the elements of the sorted prefix
  that are strictly greater than `key = arr[i]` one place right, then write `key` into the
  gap.
 */
module InsertionSort {
  import opened SortSpec

  /**
    Event `k` of `t`, if a swap event, announces a shift of a value greater than `key`
    from position `x` to `x + 1`: the update that follows holds that value at both places.
   */
  ghost predicate ShiftExceedsKeyAt(t: seq<SortEvent>, k: int, key: int)
    requires 0 <= k < |t|
  {
    t[k].Swap? ==>
      k + 1 < |t| && t[k + 1].Update? && t[k].j == t[k].i + 1
      && 0 <= t[k].i && t[k].j < |t[k + 1].snapshot|
      && t[k + 1].snapshot[t[k].i] == t[k + 1].snapshot[t[k].j] > key
  }

  /** Every swap event of `t` announces the shift of an element strictly greater than `key`. */
  ghost predicate ShiftsExceedKey(t: seq<SortEvent>, key: int) {
    forall k | 0 <= k < |t| :: ShiftExceedsKeyAt(t, k, key)
  }

  lemma ShiftsExceedKeyAppend(a: seq<SortEvent>, b: seq<SortEvent>, key: int)
    requires ShiftsExceedKey(a, key) && ShiftsExceedKey(b, key)
    ensures ShiftsExceedKey(a + b, key)
  {
    forall k | 0 <= k < |a + b|
      ensures ShiftExceedsKeyAt(a + b, k, key)
    {
      if k < |a| {
        assert ShiftExceedsKeyAt(a, k, key);
        if k + 1 < |a| {
          assert (a + b)[k + 1] == a[k + 1];
        }
      } else {
        assert ShiftExceedsKeyAt(b, k - |a|, key);
        if k + 1 < |a + b| {
          assert (a + b)[k + 1] == b[k - |a| + 1];
        }
      }
    }
  }

  /**
    One inner iteration: compare `arr[j]` with `key` (reported as the pair `[j, j + 1]`)
    and, only when `arr[j]` is strictly greater, copy it one place right.
   */
  method InsertStep(a: seq<int>, j: nat, key: int) returns (arr: seq<int>, step: seq<SortEvent>, shifted: bool)
    requires j + 1 < |a|
    ensures shifted <==> a[j] > key
    ensures shifted ==> arr == a[j + 1 := a[j]]
    ensures !shifted ==> arr == a
    ensures CompareCount(step) == 1 && SwapCount(step) == (if shifted then 1 else 0)
    ensures AdjacentComparesBelow(step, j + 2)
    ensures ShiftsExceedKey(step, key)
  {
    shifted := a[j] > key;
    arr := a;
    var shift := [];
    if shifted {
      arr := a[j + 1 := a[j]];
      shift := [Swap(j, j + 1), Update(arr), ClearSwap];
      CountsOfThree(Swap(j, j + 1), Update(arr), ClearSwap);
      CountsOfOne(Swap(j, j + 1));
    }
    step := [Compare(j, j + 1)] + shift;
    CountsOfOne(Compare(j, j + 1));
    CountsAppend([Compare(j, j + 1)], shift);
    var bound := j + 2;
    forall k | 0 <= k < |step| ensures AdjacentCompareAt(step, k, bound) {
      if k != 0 { assert !step[k].Compare?; }
    }
    forall k | 0 <= k < |step| ensures ShiftExceedsKeyAt(step, k, key) {
      if k != 1 { assert !step[k].Swap?; }
    }
  }

  /** `arr[j + 1] = key` after the scan, announced by one array update. */
  method WriteKey(a: seq<int>, pos: nat, key: int, bound: int) returns (arr: seq<int>, tail: seq<SortEvent>)
    requires pos < |a|
    ensures arr == a[pos := key]
    ensures CompareCount(tail) == 0 && SwapCount(tail) == 0
    ensures AdjacentComparesBelow(tail, bound) && ShiftsExceedKey(tail, key)
  {
    arr := a[pos := key];
    tail := [Update(arr), ClearCompare];
    assert tail == [Update(arr)] + [ClearCompare];
    CountsOfOne(Update(arr));
    CountsOfOne(ClearCompare);
    CountsAppend([Update(arr)], [ClearCompare]);
    forall k | 0 <= k < |tail| ensures ShiftExceedsKeyAt(tail, k, key) && AdjacentCompareAt(tail, k, bound) {
    }
  }

  /**
    `arr` is `a` part way through inserting `a[i]`: `a[..j + 1]` untouched, `a[j + 1..i]`
    copied one place right, everything after `i` untouched.
   */
  ghost predicate ShiftedUpTo(a: seq<int>, arr: seq<int>, j: int, i: int)
    requires -1 <= j < i < |a|
  {
    && |arr| == |a|
    && (forall k :: 0 <= k <= j ==> arr[k] == a[k])
    && (forall k :: j + 2 <= k <= i ==> arr[k] == a[k - 1])
    && (forall k :: i < k < |a| ==> arr[k] == a[k])
  }

  lemma ShiftOneMore(a: seq<int>, arr: seq<int>, j: nat, i: nat)
    requires j < i < |a| && ShiftedUpTo(a, arr, j, i)
    ensures ShiftedUpTo(a, arr[j + 1 := arr[j]], j - 1, i)
  {
  }

  /**
    The `while (j >= 0)` loop of outer iteration `i`: shift right every element of the
    sorted prefix that is strictly greater than `key = a[i]`, scanning down from `i - 1`
    and stopping at the first one that is not. On exit `j` is `-1` or the index of that
    element.
   */
  method ShiftGreater(a: seq<int>, i: nat) returns (arr: seq<int>, j: int, events: seq<SortEvent>)
    requires 1 <= i < |a|
    ensures -1 <= j <= i - 1 && ShiftedUpTo(a, arr, j, i)
    ensures j == -1 || a[j] <= a[i]
    ensures forall k :: j + 1 <= k < i ==> a[k] > a[i]
    ensures CompareCount(events) == i - 1 - j + (if j >= 0 then 1 else 0)
    ensures SwapCount(events) == i - 1 - j
    ensures AdjacentComparesBelow(events, i + 1)
    ensures ShiftsExceedKey(events, a[i])
  {
    var key := a[i];
    arr := a;
    events := [];
    j := i - 1;
    while j >= 0
      invariant -1 <= j <= i - 1 && ShiftedUpTo(a, arr, j, i)
      invariant forall k :: j + 1 <= k < i ==> a[k] > key
      invariant CompareCount(events) == i - 1 - j && SwapCount(events) == i - 1 - j
      invariant AdjacentComparesBelow(events, i + 1)
      invariant ShiftsExceedKey(events, key)
    {
      assert arr[j] == a[j];
      var arr', step, shifted := InsertStep(arr, j, key);
      CountsAppend(events, step);
      AdjacentComparesAppend(events, step, i + 1, j + 2);
      ShiftsExceedKeyAppend(events, step, key);
      events := events + step;
      if shifted {
        ShiftOneMore(a, arr, j, i);
        arr := arr';
        j := j - 1;
      } else {
        return;
      }
    }
  }

  /**
    Outer iteration `i` (`i >= 1`): `key = a[i]` lands at `pos`, the elements of `a[pos..i]`
    (exactly those of the sorted prefix that are greater than `key`) move one place right,
    `a[..pos]` and everything after `i` stay where they are. The scan stops at the first
    element not greater than `key`, so equal elements keep their order.
   */
  method InsertKey(a: seq<int>, i: nat) returns (arr: seq<int>, pos: nat, events: seq<SortEvent>)
    requires 1 <= i < |a|
    requires SortedRange(a, 0, i)
    ensures pos <= i && |arr| == |a|
    ensures forall k :: 0 <= k < pos ==> arr[k] == a[k]
    ensures arr[pos] == a[i]
    ensures forall k :: pos < k <= i ==> arr[k] == a[k - 1]
    ensures forall k :: i < k < |a| ==> arr[k] == a[k]
    ensures pos == 0 || a[pos - 1] <= a[i]
    ensures forall k :: pos <= k < i ==> a[k] > a[i]
    ensures CompareCount(events) == i - pos + (if pos > 0 then 1 else 0)
    ensures SwapCount(events) == i - pos
    ensures AdjacentComparesBelow(events, i + 1)
    ensures ShiftsExceedKey(events, a[i])
  {
    var shifted, j, scan := ShiftGreater(a, i);
    pos := j + 1;
    var tail;
    arr, tail := WriteKey(shifted, pos, a[i], i + 1);
    CountsAppend(scan, tail);
    AdjacentComparesAppend(scan, tail, i + 1, i + 1);
    ShiftsExceedKeyAppend(scan, tail, a[i]);
    events := scan + tail;
  }

  /** Inserting `a[i]` into the sorted `a[..i]` leaves a sorted permutation of `a[..i + 1]`. */
  lemma InsertKeySorts(a: seq<int>, arr: seq<int>, i: nat, pos: nat)
    requires 1 <= i < |a| && SortedRange(a, 0, i)
    requires pos <= i && |arr| == |a|
    requires forall k :: 0 <= k < pos ==> arr[k] == a[k]
    requires arr[pos] == a[i]
    requires forall k :: pos < k <= i ==> arr[k] == a[k - 1]
    requires pos == 0 || a[pos - 1] <= a[i]
    requires forall k :: pos <= k < i ==> a[k] > a[i]
    ensures SortedRange(arr, 0, i + 1)
    ensures multiset(arr[..i + 1]) == multiset(a[..i + 1])
  {
    assert arr[..i + 1] == a[..pos] + [a[i]] + a[pos..i];
    assert a[..i + 1] == a[..pos] + a[pos..i] + [a[i]];
  }

  /** `insertionSort`: the sorted copy and every hook call made on the way. */
  method InsertionSort(input: seq<int>) returns (arr: seq<int>, trace: seq<SortEvent>)
    ensures Sorted(arr) && multiset(arr) == multiset(input)
    ensures AdjacentComparesBelow(trace, |input|)
  {
    var n := |input|;
    arr := input;
    trace := [];
    if n == 0 {
      return;
    }
    var i := 1;
    while i < n
      invariant 1 <= i <= n && |arr| == n
      invariant SortedRange(arr, 0, i)
      invariant multiset(arr[..i]) == multiset(input[..i])
      invariant arr[i..] == input[i..]
      invariant AdjacentComparesBelow(trace, n)
    {
      var arr', pos, pass := InsertKey(arr, i);
      InsertKeySorts(arr, arr', i, pos);
      assert arr[..i + 1] == arr[..i] + [arr[i]];
      assert input[..i + 1] == input[..i] + [input[i]];
      assert arr[i] == input[i];
      AdjacentComparesAppend(trace, pass, n, i + 1);
      arr := arr';
      trace := trace + pass;
      i := i + 1;
    }
    assert arr[..n] == arr && input[..n] == input;
  }
}
