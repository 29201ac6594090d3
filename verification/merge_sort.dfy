/**
  Top-down merge sort (`mergeSort`, `mergeSortHelper`, `merge`) on a copy of the input.
 */
module MergeSort {
  import opened SortSpec
  import opened Wrappers

  /**
    Reference merge of what is left of two runs, `l[i..]` and `r[j..]`: repeatedly take the
    smaller head, and on a tie the head of the LEFT run (the `L[i] <= R[j]` test), which is
    what makes the sort stable. Once one run is used up, the rest of the other follows.
   */
  function MergeFrom(l: seq<int>, r: seq<int>, i: nat, j: nat): (m: seq<int>)
    requires i <= |l| && j <= |r|
    ensures |m| == |l| - i + |r| - j
    decreases |l| - i + |r| - j
  {
    if i == |l| then r[j..]
    else if j == |r| then l[i..]
    else if l[i] <= r[j] then [l[i]] + MergeFrom(l, r, i + 1, j)
    else [r[j]] + MergeFrom(l, r, i, j + 1)
  }

  /** The merge of two whole runs. */
  function MergeRef(l: seq<int>, r: seq<int>): seq<int> {
    MergeFrom(l, r, 0, 0)
  }

  /** The reference merge loses and invents nothing. */
  lemma {:induction false} MergeFromPermutes(l: seq<int>, r: seq<int>, i: nat, j: nat)
    requires i <= |l| && j <= |r|
    ensures multiset(MergeFrom(l, r, i, j)) == multiset(l[i..]) + multiset(r[j..])
    decreases |l| - i + |r| - j
  {
    if i == |l| {
      assert l[i..] == [];
    } else if j == |r| {
      assert r[j..] == [];
    } else if l[i] <= r[j] {
      MergeFromPermutes(l, r, i + 1, j);
      ConsMultiset(l, i);
    } else {
      MergeFromPermutes(l, r, i, j + 1);
      ConsMultiset(r, j);
    }
  }

  lemma ConsMultiset(s: seq<int>, i: nat)
    requires i < |s|
    ensures multiset(s[i..]) == multiset{s[i]} + multiset(s[i + 1..])
  {
    assert s[i..] == [s[i]] + s[i + 1..];
  }

  /** Merging two sorted runs gives a sorted run. */
  lemma {:induction false} MergeFromSorted(l: seq<int>, r: seq<int>, i: nat, j: nat)
    requires i <= |l| && j <= |r|
    requires Sorted(l) && Sorted(r)
    ensures Sorted(MergeFrom(l, r, i, j))
    decreases |l| - i + |r| - j
  {
    if i == |l| || j == |r| {
    } else if l[i] <= r[j] {
      MergeFromSorted(l, r, i + 1, j);
      MergeFromAtLeast(l, r, i + 1, j, l[i]);
    } else {
      MergeFromSorted(l, r, i, j + 1);
      MergeFromAtLeast(l, r, i, j + 1, r[j]);
    }
  }

  /** A value no greater than either (sorted) run's head is no greater than anything in their merge. */
  lemma MergeFromAtLeast(l: seq<int>, r: seq<int>, i: nat, j: nat, x: int)
    requires i <= |l| && j <= |r|
    requires Sorted(l) && Sorted(r)
    requires i < |l| ==> x <= l[i]
    requires j < |r| ==> x <= r[j]
    requires Sorted(MergeFrom(l, r, i, j))
    ensures Sorted([x] + MergeFrom(l, r, i, j))
  {
    var m := MergeFrom(l, r, i, j);
    MergeFromPermutes(l, r, i, j);
    if |m| > 0 {
      assert m[0] in multiset(m);
      if m[0] in multiset(l[i..]) {
        var k :| 0 <= k < |l[i..]| && l[i..][k] == m[0];
        assert l[i + k] == m[0];
      } else {
        var k :| 0 <= k < |r[j..]| && r[j..][k] == m[0];
        assert r[j + k] == m[0];
      }
    }
  }

  /**
    Event `k` of `t` stays inside the window of one `merge(arr, left, mid, right)`: a
    compare pairs a position `left + i <= mid` of the left run with a position
    `mid + 1 + j <= right` of the right run, and a one-index write names a position of
    `[left..right]`.
   */
  ghost predicate MergeEventAt(t: seq<SortEvent>, k: int, left: int, mid: int, right: int)
    requires 0 <= k < |t|
  {
    && (t[k].Compare? ==> left <= t[k].i <= mid < t[k].j <= right)
    && (t[k].Write? ==> left <= t[k].k <= right)
  }

  /** Every event of `t` stays inside the window of one merge. */
  ghost predicate InMergeWindow(t: seq<SortEvent>, left: int, mid: int, right: int) {
    forall k | 0 <= k < |t| :: MergeEventAt(t, k, left, mid, right)
  }

  lemma InMergeWindowAppend(a: seq<SortEvent>, b: seq<SortEvent>, left: int, mid: int, right: int)
    requires InMergeWindow(a, left, mid, right) && InMergeWindow(b, left, mid, right)
    ensures InMergeWindow(a + b, left, mid, right)
  {
    forall k | 0 <= k < |a + b|
      ensures MergeEventAt(a + b, k, left, mid, right)
    {
      if k < |a| {
        assert MergeEventAt(a, k, left, mid, right);
      } else {
        assert MergeEventAt(b, k - |a|, left, mid, right);
      }
    }
  }

  /**
    The write events of `t` in order, checked against consecutive positions starting at
    `next`: the position after the last one written when they are `next, next + 1, ...`,
    and `None` as soon as one write names any other position.
   */
  function WriteRun(t: seq<SortEvent>, next: int): Option<int>
    decreases |t|
  {
    if |t| == 0 then Some(next)
    else if !t[0].Write? then WriteRun(t[1..], next)
    else if t[0].k == next then WriteRun(t[1..], next + 1)
    else None
  }

  /** Consecutive runs of writes join into one. */
  lemma {:induction false} WriteRunAppend(a: seq<SortEvent>, b: seq<SortEvent>, from: int, via: int)
    requires WriteRun(a, from) == Some(via)
    ensures WriteRun(a + b, from) == WriteRun(b, via)
    decreases |a|
  {
    if |a| > 0 {
      assert (a + b)[1..] == a[1..] + b;
      var next := if a[0].Write? then from + 1 else from;
      WriteRunAppend(a[1..], b, next, via);
    } else {
      assert a + b == b;
    }
  }

  /** Events without a write leave the run where it is. */
  lemma WriteRunOne(e: SortEvent, next: int)
    ensures WriteRun([e], next) == if e.Write? && e.k != next then None
                                    else if e.Write? then Some(next + 1) else Some(next)
  {
    assert [e][1..] == [];
  }

  /**
    One copy `arr[k] = x` followed by its announcement: a one-index write event, the array
    update and the clearing of the highlight.
   */
  method WriteAt(a: seq<int>, k: nat, x: int, left: int, mid: int, right: int)
    returns (arr: seq<int>, step: seq<SortEvent>)
    requires k < |a| && left <= k <= right
    ensures arr == a[k := x]
    ensures WriteRun(step, k) == Some(k + 1)
    ensures CompareCount(step) == 0
    ensures InMergeWindow(step, left, mid, right)
  {
    arr := a[k := x];
    step := [Write(k), Update(arr), ClearSwap];
    CountsOfThree(Write(k), Update(arr), ClearSwap);
    CountsOfOne(Write(k));
    forall e | 0 <= e < |step| ensures MergeEventAt(step, e, left, mid, right) {
    }
    assert step == [Write(k)] + [Update(arr)] + [ClearSwap];
    WriteRunOne(Write(k), k);
    WriteRunOne(Update(arr), k + 1);
    WriteRunOne(ClearSwap, k + 1);
    WriteRunAppend([Write(k)], [Update(arr)], k, k + 1);
    WriteRunAppend([Write(k)] + [Update(arr)], [ClearSwap], k, k + 1);
  }

  /**
    One more step's events keep the run of writes consecutive and the running counts, and
    stay inside the window.
   */
  lemma StepExtend(events: seq<SortEvent>, step: seq<SortEvent>, left: int, mid: int, right: int,
                   from: int, via: int, to: int)
    requires InMergeWindow(events, left, mid, right) && InMergeWindow(step, left, mid, right)
    requires WriteRun(events, from) == Some(via) && WriteRun(step, via) == Some(to)
    ensures InMergeWindow(events + step, left, mid, right)
    ensures WriteRun(events + step, from) == Some(to)
    ensures CompareCount(events + step) == CompareCount(events) + CompareCount(step)
  {
    InMergeWindowAppend(events, step, left, mid, right);
    WriteRunAppend(events, step, from, via);
    CountsAppend(events, step);
  }

  /**
    `arr` is `a` with the positions from `left` on overwritten by `out`, and nothing else
    changed.
   */
  ghost predicate Filled(a: seq<int>, arr: seq<int>, left: int, out: seq<int>) {
    0 <= left && left + |out| <= |a| && arr == a[..left] + out + a[left + |out|..]
  }

  /** Writing `x` at the first position not yet overwritten extends `out` by `x`. */
  lemma FillNext(a: seq<int>, arr: seq<int>, left: int, out: seq<int>, x: int)
    requires Filled(a, arr, left, out) && left + |out| < |a|
    ensures Filled(a, arr[left + |out| := x], left, out + [x])
  {
    var n := left + |out|;
    assert a[n..] == [a[n]] + a[n + 1..];
    assert arr[n := x] == a[..left] + (out + [x]) + a[n + 1..];
  }

  lemma FilledStart(a: seq<int>, left: int)
    requires 0 <= left <= |a|
    ensures Filled(a, a, left, [])
  {
    assert a == a[..left] + [] + a[left..];
  }

  /** A filled slice reads back as `out`, and the rest is untouched. */
  lemma FilledRead(a: seq<int>, arr: seq<int>, left: int, out: seq<int>)
    requires Filled(a, arr, left, out)
    ensures SameOutside(a, arr, left, left + |out|)
    ensures arr[left..left + |out|] == out
  {
    var hi := left + |out|;
    assert arr[..left] == a[..left];
    assert arr[hi..] == a[hi..];
  }

  /** Moving one element from the front of what remains to the back of what is done. */
  lemma ShiftOne(out: seq<int>, x: int, rest: seq<int>, m: seq<int>)
    requires out + ([x] + rest) == m
    ensures (out + [x]) + rest == m
  {
    assert out + ([x] + rest) == (out + [x]) + rest;
  }

  /**
    One iteration of the first loop of `merge`: compare the heads `l[i]` and `r[j]`
    (reported as the pair `[left + i, mid + 1 + j]`) and copy the smaller one, the left
    head on a tie, to position `k`. It is the next element of the merge of what remains.
   */
  method TakeHead(a: seq<int>, k: nat, l: seq<int>, r: seq<int>, i: nat, j: nat, left: nat, mid: nat, right: nat)
    returns (arr: seq<int>, step: seq<SortEvent>, i': nat, j': nat, x: int)
    requires i < |l| && j < |r| && k < |a| && left <= k <= right
    requires left + i <= mid < mid + 1 + j <= right
    ensures i' + j' == i + j + 1 && i <= i' <= |l| && j <= j' <= |r|
    ensures arr == a[k := x]
    ensures MergeFrom(l, r, i, j) == [x] + MergeFrom(l, r, i', j')
    ensures WriteRun(step, k) == Some(k + 1)
    ensures CompareCount(step) == 1
    ensures InMergeWindow(step, left, mid, right)
  {
    var compare := [Compare(left + i, mid + 1 + j)];
    WriteRunOne(Compare(left + i, mid + 1 + j), k);
    assert MergeEventAt(compare, 0, left, mid, right);
    CountsOfOne(Compare(left + i, mid + 1 + j));
    if l[i] <= r[j] {
      x := l[i];
      i', j' := i + 1, j;
    } else {
      x := r[j];
      i', j' := i, j + 1;
    }
    var write;
    arr, write := WriteAt(a, k, x, left, mid, right);
    StepExtend(compare, write, left, mid, right, k, k, k + 1);
    step := compare + write;
  }

  /**
    The state of the first loop of `merge` after `i + j` iterations: the positions from
    `left` on hold `out`, the first `i + j` elements of the merge, and the writes so far
    went to `left, left + 1, ...` in that order, one per comparison.
   */
  ghost predicate HeadsMerged(a: seq<int>, l: seq<int>, r: seq<int>, left: nat, mid: nat, right: nat,
                              arr: seq<int>, events: seq<SortEvent>, i: nat, j: nat, out: seq<int>)
  {
    && i <= |l| && j <= |r| && |out| == i + j && i + j < |l| + |r|
    && Filled(a, arr, left, out)
    && out + MergeFrom(l, r, i, j) == MergeRef(l, r)
    && WriteRun(events, left) == Some(left + i + j)
    && CompareCount(events) == i + j
    && InMergeWindow(events, left, mid, right)
  }

  /** One iteration of the first loop of `merge` keeps its state. */
  method MergeHeadStep(a: seq<int>, l: seq<int>, r: seq<int>, left: nat, mid: nat, right: nat,
                       arr: seq<int>, events: seq<SortEvent>, i: nat, j: nat, out: seq<int>)
    returns (arr': seq<int>, events': seq<SortEvent>, i': nat, j': nat, out': seq<int>)
    requires left <= mid < right < |a|
    requires |l| == mid + 1 - left && |r| == right - mid
    requires i < |l| && j < |r|
    requires HeadsMerged(a, l, r, left, mid, right, arr, events, i, j, out)
    ensures i' + j' == i + j + 1
    ensures HeadsMerged(a, l, r, left, mid, right, arr', events', i', j', out')
  {
    var k := left + i + j;
    var step, x;
    arr', step, i', j', x := TakeHead(arr, k, l, r, i, j, left, mid, right);
    FillNext(a, arr, left, out, x);
    ShiftOne(out, x, MergeFrom(l, r, i', j'), MergeRef(l, r));
    StepExtend(events, step, left, mid, right, left, k, k + 1);
    events', out' := events + step, out + [x];
  }

  /**
    The first loop of `merge`: while both runs have elements left, merge their heads, one
    comparison and one write per element. On exit one of the runs is used up, the
    positions from `left` on hold `out`, the first `i + j` elements of the merge, and the
    rest of the merge is what is left of the runs.
   */
  method MergeHeads(a: seq<int>, l: seq<int>, r: seq<int>, left: nat, mid: nat, right: nat)
    returns (arr: seq<int>, events: seq<SortEvent>, i: nat, j: nat, out: seq<int>)
    requires left <= mid < right < |a|
    requires |l| == mid + 1 - left && |r| == right - mid
    ensures i <= |l| && j <= |r| && (i == |l| || j == |r|) && |out| == i + j
    ensures i + j < |l| + |r|
    ensures Filled(a, arr, left, out)
    ensures out + l[i..] + r[j..] == MergeRef(l, r)
    ensures WriteRun(events, left) == Some(left + i + j)
    ensures CompareCount(events) == i + j
    ensures InMergeWindow(events, left, mid, right)
  {
    arr := a;
    events := [];
    i, j := 0, 0;
    out := [];
    FilledStart(a, left);
    assert [] + MergeFrom(l, r, 0, 0) == MergeRef(l, r);
    while i < |l| && j < |r|
      invariant HeadsMerged(a, l, r, left, mid, right, arr, events, i, j, out)
      decreases |l| + |r| - i - j
    {
      arr, events, i, j, out := MergeHeadStep(a, l, r, left, mid, right, arr, events, i, j, out);
    }
    MergeTailIsRest(l, r, i, j);
    assert out + (l[i..] + r[j..]) == out + l[i..] + r[j..];
  }

  /**
    The second and third loops of `merge`: copy what is left of one run, `run[from..]`,
    to the positions after `out`, one write event and no comparison per position.
   */
  method CopyRest(a: seq<int>, arr0: seq<int>, prior: seq<SortEvent>, left: nat, out0: seq<int>,
                  run: seq<int>, from: nat, mid: int, right: int)
    returns (arr: seq<int>, events: seq<SortEvent>, out: seq<int>)
    requires from <= |run| && left + |out0| + |run| - from <= right + 1 <= |a|
    requires Filled(a, arr0, left, out0)
    requires InMergeWindow(prior, left, mid, right)
    requires WriteRun(prior, left) == Some(left + |out0|)
    ensures out == out0 + run[from..]
    ensures WriteRun(events, left) == Some(left + |out|)
    ensures Filled(a, arr, left, out)
    ensures CompareCount(events) == CompareCount(prior)
    ensures InMergeWindow(events, left, mid, right)
  {
    arr, events, out := arr0, prior, out0;
    var i := from;
    assert out0 + run[from..from] == out0;
    while i < |run|
      invariant from <= i <= |run| && out == out0 + run[from..i]
      invariant Filled(a, arr, left, out)
      invariant CompareCount(events) == CompareCount(prior)
      invariant WriteRun(events, left) == Some(left + |out|)
      invariant InMergeWindow(events, left, mid, right)
    {
      var k := left + |out|;
      var arr', step := WriteAt(arr, k, run[i], left, mid, right);
      FillNext(a, arr, left, out, run[i]);
      StepExtend(events, step, left, mid, right, left, k, k + 1);
      SnocSlice(out0, run, from, i);
      arr, events, out := arr', events + step, out + [run[i]];
      i := i + 1;
    }
    assert run[from..i] == run[from..];
  }

  lemma SnocSlice(out0: seq<int>, run: seq<int>, from: nat, i: nat)
    requires from <= i < |run|
    ensures out0 + run[from..i] + [run[i]] == out0 + run[from..i + 1]
  {
    assert run[from..i + 1] == run[from..i] + [run[i]];
  }

  /** Once one run is used up, the merge of what remains is the rest of the other run. */
  lemma MergeTailIsRest(l: seq<int>, r: seq<int>, i: nat, j: nat)
    requires i <= |l| && j <= |r| && (i == |l| || j == |r|)
    ensures MergeFrom(l, r, i, j) == l[i..] + r[j..]
  {
    if i == |l| {
      assert l[i..] + r[j..] == r[j..];
    } else {
      assert l[i..] + r[j..] == l[i..];
    }
  }

  /**
    `merge(arr, left, mid, right)`: the sorted runs `a[left..mid]` and `a[mid+1..right]`
    become their merge in `[left..right]`; every other position is unchanged. Every
    position of the window is written once (`right - left + 1` writes); the heads are
    compared at most `right - left` times and at least as often as the shorter run is long.
   */
  method Merge(a: seq<int>, left: nat, mid: nat, right: nat) returns (arr: seq<int>, events: seq<SortEvent>)
    requires left <= mid < right < |a|
    ensures SameOutside(a, arr, left, right + 1)
    ensures arr[left..right + 1] == MergeRef(a[left..mid + 1], a[mid + 1..right + 1])
    ensures WriteRun(events, left) == Some(right + 1)
    ensures CompareCount(events) <= right - left
    ensures CompareCount(events) >= mid + 1 - left || CompareCount(events) >= right - mid
    ensures InMergeWindow(events, left, mid, right)
  {
    var l := a[left..mid + 1];
    var r := a[mid + 1..right + 1];
    var arr1, e1, i, j, out1 := MergeHeads(a, l, r, left, mid, right);
    var arr2, e2, out2 := CopyRest(a, arr1, e1, left, out1, l, i, mid, right);
    var arr3, e3, out3 := CopyRest(a, arr2, e2, left, out2, r, j, mid, right);
    FilledRead(a, arr3, left, out3);
    var clear := [ClearCompare];
    assert MergeEventAt(clear, 0, left, mid, right);
    CountsOfOne(ClearCompare);
    WriteRunOne(ClearCompare, right + 1);
    StepExtend(e3, clear, left, mid, right, left, right + 1, right + 1);
    arr, events := arr3, e3 + clear;
  }

  /**
    `mergeSortHelper(arr, left, right)`: sorts the slice `[left..right]` in place and
    touches nothing outside it. When `left < right`, `mid = floor((left + right) / 2)`
    splits the slice into two strictly smaller non-empty halves.
   */
  method MergeSortRange(a: seq<int>, left: nat, right: int) returns (arr: seq<int>, events: seq<SortEvent>)
    requires left <= right + 1 <= |a|
    ensures |arr| == |a| && PermutedIn(a, arr, left, right + 1)
    ensures SortedRange(arr, left, right + 1)
    ensures ComparesWithin(events, left, right + 1)
    decreases right - left
  {
    arr := a;
    events := [];
    if left < right {
      var mid := (left + right) / 2;
      assert left <= mid < right;
      var arr1, e1 := MergeSortRange(a, left, mid);
      var arr2, e2 := MergeSortRange(arr1, mid + 1, right);
      var arr3, e3 := Merge(arr2, left, mid, right);
      MergeSortCombine(a, arr1, arr2, arr3, e1, e2, e3, left, mid, right);
      arr, events := arr3, e1 + e2 + e3;
    }
  }

  /** Sorting both halves and merging them sorts and permutes the whole slice, comparing only inside it. */
  lemma MergeSortCombine(a: seq<int>, arr1: seq<int>, arr2: seq<int>, arr3: seq<int>,
                         e1: seq<SortEvent>, e2: seq<SortEvent>, e3: seq<SortEvent>, left: nat, mid: nat, right: nat)
    requires left <= mid < right < |a|
    requires |arr1| == |a| && PermutedIn(a, arr1, left, mid + 1) && SortedRange(arr1, left, mid + 1)
    requires |arr2| == |arr1| && PermutedIn(arr1, arr2, mid + 1, right + 1) && SortedRange(arr2, mid + 1, right + 1)
    requires SameOutside(arr2, arr3, left, right + 1)
    requires arr3[left..right + 1] == MergeRef(arr2[left..mid + 1], arr2[mid + 1..right + 1])
    requires ComparesWithin(e1, left, mid + 1) && ComparesWithin(e2, mid + 1, right + 1)
    requires InMergeWindow(e3, left, mid, right)
    ensures PermutedIn(a, arr3, left, right + 1) && SortedRange(arr3, left, right + 1)
    ensures ComparesWithin(e1 + e2 + e3, left, right + 1)
  {
    SortedKept(arr1, arr2, left, mid, right);
    MergeHalvesSorted(arr2, arr3, left, mid, right);
    MergedPermutes(arr2, arr3, left, mid, right);
    MergeHalvesPermute(a, arr1, arr2, arr3, left, mid, right);
    MergeWindowWithin(e3, left, mid, right);
    ComparesWithinAppend([], e1, left, right + 1, left, mid + 1);
    assert [] + e1 == e1;
    ComparesWithinAppend(e1, e2, left, right + 1, mid + 1, right + 1);
    ComparesWithinAppend(e1 + e2, e3, left, right + 1, left, right + 1);
  }

  /** The merged slice holds exactly the elements of the two runs. */
  lemma MergedPermutes(arr2: seq<int>, arr3: seq<int>, left: nat, mid: nat, right: nat)
    requires left <= mid < right < |arr2| && right < |arr3|
    requires arr3[left..right + 1] == MergeRef(arr2[left..mid + 1], arr2[mid + 1..right + 1])
    ensures multiset(arr3[left..right + 1]) == multiset(arr2[left..mid + 1]) + multiset(arr2[mid + 1..right + 1])
  {
    MergeFromPermutes(arr2[left..mid + 1], arr2[mid + 1..right + 1], 0, 0);
    assert arr2[left..mid + 1][0..] == arr2[left..mid + 1];
    assert arr2[mid + 1..right + 1][0..] == arr2[mid + 1..right + 1];
  }

  /** Sorting the two halves in place and then merging them permutes the whole slice `[left..right]`. */
  lemma MergeHalvesPermute(a: seq<int>, arr1: seq<int>, arr2: seq<int>, arr3: seq<int>, left: nat, mid: nat, right: nat)
    requires left <= mid < right < |a|
    requires |arr1| == |a| && PermutedIn(a, arr1, left, mid + 1)
    requires |arr2| == |a| && PermutedIn(arr1, arr2, mid + 1, right + 1)
    requires SameOutside(arr2, arr3, left, right + 1)
    requires multiset(arr3[left..right + 1]) == multiset(arr2[left..mid + 1]) + multiset(arr2[mid + 1..right + 1])
    ensures PermutedIn(a, arr3, left, right + 1)
  {
    PermutedInWiden(a, arr1, left, right + 1, left, mid + 1);
    PermutedInWiden(arr1, arr2, left, right + 1, mid + 1, right + 1);
    PermutedInTrans(a, arr1, arr2, left, right + 1);
    assert arr2[left..right + 1] == arr2[left..mid + 1] + arr2[mid + 1..right + 1];
    PermutedInOfSlice(arr2, arr3, left, right + 1);
    PermutedInTrans(a, arr2, arr3, left, right + 1);
  }

  /** Merging the two sorted halves sorts the whole slice `[left..right]`. */
  lemma MergeHalvesSorted(arr2: seq<int>, arr3: seq<int>, left: nat, mid: nat, right: nat)
    requires left <= mid < right < |arr2| == |arr3|
    requires SortedRange(arr2, left, mid + 1) && SortedRange(arr2, mid + 1, right + 1)
    requires arr3[left..right + 1] == MergeRef(arr2[left..mid + 1], arr2[mid + 1..right + 1])
    ensures SortedRange(arr3, left, right + 1)
  {
    SortedSlice(arr2, left, mid + 1);
    SortedSlice(arr2, mid + 1, right + 1);
    MergeFromSorted(arr2[left..mid + 1], arr2[mid + 1..right + 1], 0, 0);
    SortedSliceBack(arr3, left, right + 1);
  }

  /** Sorting the right half in place leaves the sorted left half alone. */
  lemma SortedKept(arr1: seq<int>, arr2: seq<int>, left: nat, mid: nat, right: nat)
    requires left <= mid < right < |arr1| == |arr2|
    requires SortedRange(arr1, left, mid + 1)
    requires SameOutside(arr1, arr2, mid + 1, right + 1)
    ensures SortedRange(arr2, left, mid + 1)
  {
    forall x, y | left <= x < y < mid + 1
      ensures arr2[x] <= arr2[y]
    {
      assert arr2[x] == arr1[x] && arr2[y] == arr1[y];
    }
  }

  lemma MergeWindowWithin(t: seq<SortEvent>, left: int, mid: int, right: int)
    requires InMergeWindow(t, left, mid, right)
    ensures ComparesWithin(t, left, right + 1)
  {
    var hi := right + 1;
    forall k | 0 <= k < |t| ensures CompareWithinAt(t, k, left, hi) {
      assert MergeEventAt(t, k, left, mid, right);
    }
  }

  lemma SortedSlice(s: seq<int>, lo: int, hi: int)
    requires 0 <= lo <= hi <= |s| && SortedRange(s, lo, hi)
    ensures Sorted(s[lo..hi])
  {
  }

  lemma SortedSliceBack(s: seq<int>, lo: int, hi: int)
    requires 0 <= lo <= hi <= |s| && Sorted(s[lo..hi])
    ensures SortedRange(s, lo, hi)
  {
    forall x, y | lo <= x < y < hi
      ensures s[x] <= s[y]
    {
      assert s[x] == s[lo..hi][x - lo] && s[y] == s[lo..hi][y - lo];
    }
  }

  /** `mergeSort`: the sorted copy and every hook call made on the way. */
  method MergeSort(input: seq<int>) returns (arr: seq<int>, trace: seq<SortEvent>)
    ensures Sorted(arr) && multiset(arr) == multiset(input)
    ensures ComparesWithin(trace, 0, |input|)
  {
    arr, trace := MergeSortRange(input, 0, |input| - 1);
    PermutedInWhole(input, arr, 0, |input|);
  }
}
