/**
  Vocabulary shared by the five comparison sorts: the events a sort reports to its
  caller-supplied hooks, and the order predicates their contracts use.

  Every sort receives the hooks `updateArray`, `setComparingIndices` and
  `setSwappingIndices`; each hook call becomes one event appended to a trace, and the
  awaited `setTimeout` between two hook calls is dropped.
 */
module SortSpec {

  datatype SortEvent =
    | Compare(i: int, j: int)      // setComparingIndices([i, j])
    | ClearCompare                 // setComparingIndices([])
    | Swap(i: int, j: int)         // setSwappingIndices([i, j])
    | Write(k: int)                // setSwappingIndices([k])
    | ClearSwap                    // setSwappingIndices([])
    | Update(snapshot: seq<int>)   // updateArray([...arr])

  /** Non-decreasing order. */
  ghost predicate Sorted(s: seq<int>) {
    forall i, j :: 0 <= i < j < |s| ==> s[i] <= s[j]
  }

  /** Non-decreasing order on the slice `s[lo..hi]`. */
  ghost predicate SortedRange(s: seq<int>, lo: int, hi: int) {
    forall i, j :: lo <= i < j < hi && 0 <= i && j < |s| ==> s[i] <= s[j]
  }

  /** Nothing in `s[..m]` exceeds anything in `s[m..]`. */
  ghost predicate Partitioned(s: seq<int>, m: int) {
    forall i, j :: 0 <= i < m <= j < |s| ==> s[i] <= s[j]
  }

  /** `s` and `t` agree outside the slice `[lo, hi)`. */
  ghost predicate SameOutside(s: seq<int>, t: seq<int>, lo: int, hi: int)
    requires 0 <= lo <= hi <= |s|
  {
    |s| == |t| && s[..lo] == t[..lo] && s[hi..] == t[hi..]
  }

  /** `t` is `s` with the elements of `[lo, hi)` permuted and nothing else touched. */
  ghost predicate PermutedIn(s: seq<int>, t: seq<int>, lo: int, hi: int)
    requires 0 <= lo <= hi <= |s|
  {
    SameOutside(s, t, lo, hi) && multiset(s) == multiset(t)
  }

  /** Exchange two positions (`[arr[i], arr[j]] = [arr[j], arr[i]]`). */
  function SwapAt(s: seq<int>, i: int, j: int): (r: seq<int>)
    requires 0 <= i < |s| && 0 <= j < |s|
    ensures |r| == |s| && r[i] == s[j] && r[j] == s[i]
    ensures forall k :: 0 <= k < |s| && k != i && k != j ==> r[k] == s[k]
    ensures multiset(r) == multiset(s)
  {
    s[i := s[j]][j := s[i]]
  }

  /** Number of compare events. */
  function CompareCount(t: seq<SortEvent>): nat {
    if |t| == 0 then 0
    else CompareCount(t[..|t| - 1]) + (if t[|t| - 1].Compare? then 1 else 0)
  }

  /** Number of two-index swap events. */
  function SwapCount(t: seq<SortEvent>): nat {
    if |t| == 0 then 0
    else SwapCount(t[..|t| - 1]) + (if t[|t| - 1].Swap? then 1 else 0)
  }

  /** Number of single-index write events. */
  function WriteCount(t: seq<SortEvent>): nat {
    if |t| == 0 then 0
    else WriteCount(t[..|t| - 1]) + (if t[|t| - 1].Write? then 1 else 0)
  }

  lemma {:induction false} CountsAppend(a: seq<SortEvent>, b: seq<SortEvent>)
    ensures CompareCount(a + b) == CompareCount(a) + CompareCount(b)
    ensures SwapCount(a + b) == SwapCount(a) + SwapCount(b)
    ensures WriteCount(a + b) == WriteCount(a) + WriteCount(b)
    decreases |b|
  {
    if |b| == 0 {
      assert a + b == a;
    } else {
      var b' := b[..|b| - 1];
      assert (a + b)[..|a + b| - 1] == a + b';
      CountsAppend(a, b');
    }
  }

  lemma CountsOfOne(e: SortEvent)
    ensures CompareCount([e]) == (if e.Compare? then 1 else 0)
    ensures SwapCount([e]) == (if e.Swap? then 1 else 0)
    ensures WriteCount([e]) == (if e.Write? then 1 else 0)
  {
    assert [e][..0] == [];
  }

  lemma CountsOfThree(a: SortEvent, b: SortEvent, c: SortEvent)
    ensures CompareCount([a, b, c]) == CompareCount([a]) + CompareCount([b]) + CompareCount([c])
    ensures SwapCount([a, b, c]) == SwapCount([a]) + SwapCount([b]) + SwapCount([c])
    ensures WriteCount([a, b, c]) == WriteCount([a]) + WriteCount([b]) + WriteCount([c])
  {
    assert [a, b, c] == [a] + [b] + [c];
    CountsAppend([a], [b]);
    CountsAppend([a] + [b], [c]);
  }

  /** Event `k` of `t`, if a compare event, names a valid pair `[i, i + 1]` with `i + 1 < bound`. */
  ghost predicate AdjacentCompareAt(t: seq<SortEvent>, k: int, bound: int)
    requires 0 <= k < |t|
  {
    t[k].Compare? ==> 0 <= t[k].i && t[k].j == t[k].i + 1 && t[k].j < bound
  }

  /** Every compare event names a valid index pair `[i, i + 1]` with `i + 1 < bound`. */
  ghost predicate AdjacentComparesBelow(t: seq<SortEvent>, bound: int) {
    forall k | 0 <= k < |t| :: AdjacentCompareAt(t, k, bound)
  }

  /**
    Event `k` of `t`, if a swap event, is directly followed by the array update it
    announces, and in that update the two positions are in strictly increasing order.
   */
  ghost predicate SwapFixesInversionAt(t: seq<SortEvent>, k: int)
    requires 0 <= k < |t|
  {
    t[k].Swap? ==>
      k + 1 < |t| && t[k + 1].Update?
      && 0 <= t[k].i < |t[k + 1].snapshot| && 0 <= t[k].j < |t[k + 1].snapshot|
      && t[k + 1].snapshot[t[k].i] < t[k + 1].snapshot[t[k].j]
  }

  /**
    Every swap event is directly followed by the array update it announces, and in that
    update the two positions are in strictly increasing order: the pair was a strict
    inversion before the exchange, so equal elements are never exchanged.
   */
  ghost predicate SwapsFixInversions(t: seq<SortEvent>) {
    forall k | 0 <= k < |t| :: SwapFixesInversionAt(t, k)
  }

  lemma SwapsFixInversionsAppend(a: seq<SortEvent>, b: seq<SortEvent>)
    requires SwapsFixInversions(a) && SwapsFixInversions(b)
    ensures SwapsFixInversions(a + b)
  {
    forall k | 0 <= k < |a + b|
      ensures SwapFixesInversionAt(a + b, k)
    {
      if k < |a| {
        assert SwapFixesInversionAt(a, k);
        if k + 1 < |a| {
          assert (a + b)[k + 1] == a[k + 1];
        }
      } else {
        assert SwapFixesInversionAt(b, k - |a|);
        if k + 1 < |a + b| {
          assert (a + b)[k + 1] == b[k - |a| + 1];
        }
      }
    }
  }

  lemma AdjacentComparesAppend(a: seq<SortEvent>, b: seq<SortEvent>, bound: int, bound': int)
    requires AdjacentComparesBelow(a, bound) && AdjacentComparesBelow(b, bound')
    requires bound' <= bound
    ensures AdjacentComparesBelow(a + b, bound)
  {
    forall k | 0 <= k < |a + b|
      ensures AdjacentCompareAt(a + b, k, bound)
    {
      if k < |a| {
        assert AdjacentCompareAt(a, k, bound);
      } else {
        assert AdjacentCompareAt(b, k - |a|, bound');
      }
    }
  }

  /** Event `k` of `t`, if a compare event, names a pair `x < y` inside `[lo, hi)`. */
  ghost predicate CompareWithinAt(t: seq<SortEvent>, k: int, lo: int, hi: int)
    requires 0 <= k < |t|
  {
    t[k].Compare? ==> lo <= t[k].i < t[k].j < hi
  }

  /** Every compare event names a pair `x < y` inside `[lo, hi)`. */
  ghost predicate ComparesWithin(t: seq<SortEvent>, lo: int, hi: int) {
    forall k | 0 <= k < |t| :: CompareWithinAt(t, k, lo, hi)
  }

  lemma ComparesWithinAppend(a: seq<SortEvent>, b: seq<SortEvent>, lo: int, hi: int, lo': int, hi': int)
    requires ComparesWithin(a, lo, hi) && ComparesWithin(b, lo', hi')
    requires lo <= lo' && hi' <= hi
    ensures ComparesWithin(a + b, lo, hi)
  {
    forall k | 0 <= k < |a + b|
      ensures CompareWithinAt(a + b, k, lo, hi)
    {
      if k < |a| {
        assert CompareWithinAt(a, k, lo, hi);
      } else {
        assert CompareWithinAt(b, k - |a|, lo', hi');
      }
    }
  }

  /** The running total `i * (2n - i - 1) / 2` of `n - 1 + n - 2 + ...` grows by `n - i - 1`. */
  lemma TriangleStep(i: int, n: int)
    ensures (i + 1) * (2 * n - i - 2) == i * (2 * n - i - 1) + 2 * (n - i - 1)
  {
  }

  lemma PermutedInRefl(s: seq<int>, lo: int, hi: int)
    requires 0 <= lo <= hi <= |s|
    ensures PermutedIn(s, s, lo, hi)
  {
  }

  lemma PermutedInTrans(a: seq<int>, b: seq<int>, c: seq<int>, lo: int, hi: int)
    requires 0 <= lo <= hi <= |a|
    requires PermutedIn(a, b, lo, hi) && PermutedIn(b, c, lo, hi)
    ensures PermutedIn(a, c, lo, hi)
  {
  }

  /** A permutation of a sub-slice is a permutation of every slice around it. */
  lemma PermutedInWiden(a: seq<int>, b: seq<int>, lo: int, hi: int, lo': int, hi': int)
    requires 0 <= lo <= lo' <= hi' <= hi <= |a|
    requires PermutedIn(a, b, lo', hi')
    ensures PermutedIn(a, b, lo, hi)
  {
    assert a[..lo] == a[..lo'][..lo] && b[..lo] == b[..lo'][..lo];
    assert a[hi..] == a[hi'..][hi - hi'..] && b[hi..] == b[hi'..][hi - hi'..];
  }

  /** Permuting a slice in place keeps the multiset of the whole sequence. */
  lemma PermutedInWhole(a: seq<int>, b: seq<int>, lo: int, hi: int)
    requires 0 <= lo <= hi <= |a|
    requires PermutedIn(a, b, lo, hi)
    ensures multiset(a) == multiset(b)
  {
  }

  /** The slice itself is rearranged: it keeps its multiset. */
  lemma PermutedInSlice(a: seq<int>, b: seq<int>, lo: int, hi: int)
    requires 0 <= lo <= hi <= |a|
    requires PermutedIn(a, b, lo, hi)
    ensures multiset(a[lo..hi]) == multiset(b[lo..hi])
  {
    assert a == a[..lo] + a[lo..hi] + a[hi..];
    assert b == b[..lo] + b[lo..hi] + b[hi..];
    var rest := multiset(a[..lo]) + multiset(a[hi..]);
    assert multiset(a) == rest + multiset(a[lo..hi]);
    assert multiset(b) == rest + multiset(b[lo..hi]);
    assert multiset(a[lo..hi]) == multiset(a) - rest;
  }

  /** Rearranging a slice and touching nothing else is a permutation in that slice. */
  lemma PermutedInOfSlice(a: seq<int>, b: seq<int>, lo: int, hi: int)
    requires 0 <= lo <= hi <= |a|
    requires SameOutside(a, b, lo, hi) && multiset(a[lo..hi]) == multiset(b[lo..hi])
    ensures PermutedIn(a, b, lo, hi)
  {
    assert a == a[..lo] + a[lo..hi] + a[hi..];
    assert b == b[..lo] + b[lo..hi] + b[hi..];
  }

  /** Exchanging two positions of a slice permutes that slice. */
  lemma SwapInside(s: seq<int>, i: int, j: int, lo: int, hi: int)
    requires 0 <= lo <= i < hi <= |s| && lo <= j < hi
    ensures PermutedIn(s, SwapAt(s, i, j), lo, hi)
  {
    var t := SwapAt(s, i, j);
    assert s[..lo] == t[..lo];
    assert s[hi..] == t[hi..];
  }

  /** Every element of the slice `s[lo..hi]` is below `v`. */
  ghost predicate SliceBelow(s: seq<int>, lo: int, hi: int, v: int)
    requires 0 <= lo <= hi <= |s|
  {
    forall k :: lo <= k < hi ==> s[k] < v
  }

  /** No element of the slice `s[lo..hi]` is below `v`. */
  ghost predicate SliceAtLeast(s: seq<int>, lo: int, hi: int, v: int)
    requires 0 <= lo <= hi <= |s|
  {
    forall k :: lo <= k < hi ==> v <= s[k]
  }

  /** Each element of a permuted slice comes from the original slice. */
  lemma PermutedElement(a: seq<int>, b: seq<int>, lo: int, hi: int, k: int) returns (m: int)
    requires 0 <= lo <= hi <= |a|
    requires PermutedIn(a, b, lo, hi)
    requires lo <= k < hi
    ensures lo <= m < hi && a[m] == b[k]
  {
    PermutedInSlice(a, b, lo, hi);
    assert b[k] == b[lo..hi][k - lo];
    assert b[k] in multiset(b[lo..hi]);
    assert b[k] in multiset(a[lo..hi]);
    var i :| 0 <= i < |a[lo..hi]| && a[lo..hi][i] == b[k];
    m := lo + i;
  }

  /** Bounds on the elements of a slice survive any permutation of that slice. */
  lemma BoundsSurvivePermutation(a: seq<int>, b: seq<int>, lo: int, hi: int, v: int)
    requires 0 <= lo <= hi <= |a|
    requires PermutedIn(a, b, lo, hi)
    ensures SliceBelow(a, lo, hi, v) ==> SliceBelow(b, lo, hi, v)
    ensures SliceAtLeast(a, lo, hi, v) ==> SliceAtLeast(b, lo, hi, v)
  {
    forall k | lo <= k < hi
      ensures exists m :: lo <= m < hi && a[m] == b[k]
    {
      var m := PermutedElement(a, b, lo, hi, k);
    }
  }
}
