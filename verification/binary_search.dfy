/**
  Binary search (`binarySearch`): probe the middle of the window `[left, right]` and drop
  the half that cannot hold the target, until a hit or an empty window.
 */
module BinarySearch {
  import opened SearchTrace
  import opened SortSpec

  /** The number of binary digits of `w`: `floor(log2 w) + 1` for `w >= 1`, and 0 below. */
  function BitLength(w: int): nat
    decreases w
  {
    if w <= 0 then 0 else 1 + BitLength(w / 2)
  }

  function Pow2(k: nat): nat {
    if k == 0 then 1 else 2 * Pow2(k - 1)
  }

  /** `BitLength(n) - 1` is the base-2 logarithm of `n`, rounded down. */
  lemma {:induction false} BitLengthIsLog(n: int)
    requires n >= 1
    ensures BitLength(n) >= 1
    ensures Pow2(BitLength(n) - 1) <= n < Pow2(BitLength(n))
    decreases n
  {
    if n >= 2 {
      BitLengthIsLog(n / 2);
    }
  }

  lemma {:induction false} BitLengthMonotone(x: int, y: int)
    requires x <= y
    ensures BitLength(x) <= BitLength(y)
    decreases y
  {
    if x > 0 {
      BitLengthMonotone(x / 2, y / 2);
    }
  }

  /** Announced probes: the current-index events naming a real position. */
  function ProbeCount(t: seq<SearchEvent>): nat
    decreases |t|
  {
    if |t| == 0 then 0
    else ProbeCount(t[..|t| - 1]) + (if t[|t| - 1].Current? && t[|t| - 1].i >= 0 then 1 else 0)
  }

  lemma {:induction false} ProbeCountAppend(a: seq<SearchEvent>, b: seq<SearchEvent>)
    ensures ProbeCount(a + b) == ProbeCount(a) + ProbeCount(b)
    decreases |b|
  {
    if |b| == 0 {
      assert a + b == a;
    } else {
      assert (a + b)[..|a + b| - 1] == a + b[..|b| - 1];
      ProbeCountAppend(a, b[..|b| - 1]);
    }
  }

  /**
    Event `k` of `t` is not a hit, and, if a range event, names a non-empty window
    `0 <= lo <= hi < n` and is directly followed by the probe of its middle
    `floor((lo + hi) / 2)`.
   */
  ghost predicate ProbeAt(t: seq<SearchEvent>, k: int, n: int)
    requires 0 <= k < |t|
  {
    && !t[k].Found?
    && (t[k].Current? ==> 0 <= t[k].i < n)
    && (t[k].SearchRange? ==>
          0 <= t[k].lo <= t[k].hi < n && k + 1 < |t| && t[k + 1] == Current((t[k].lo + t[k].hi) / 2))
  }

  /** Every event of `t` is part of a well-formed probe of an array of length `n`. */
  ghost predicate WellProbed(t: seq<SearchEvent>, n: int) {
    forall k | 0 <= k < |t| :: ProbeAt(t, k, n)
  }

  lemma WellProbedAppend(a: seq<SearchEvent>, b: seq<SearchEvent>, n: int)
    requires WellProbed(a, n) && WellProbed(b, n)
    ensures WellProbed(a + b, n)
  {
    forall k | 0 <= k < |a + b|
      ensures ProbeAt(a + b, k, n)
    {
      if k < |a| {
        assert ProbeAt(a, k, n);
        if k + 1 < |a| {
          assert (a + b)[k + 1] == a[k + 1];
        }
      } else {
        assert ProbeAt(b, k - |a|, n);
        if k + 1 < |a + b| {
          assert (a + b)[k + 1] == b[k - |a| + 1];
        }
      }
    }
  }

  /**
    The state of the `while (left <= right)` loop: the window lies inside the array (it may
    be empty, `left == right + 1`); on a sorted array every occurrence of the target lies
    inside it; and the probes made so far plus the bit length of the window never exceed
    the bit length of the array.
   */
  ghost predicate Searching(a: seq<int>, target: int, left: int, right: int, trace: seq<SearchEvent>) {
    && 0 <= left <= right + 1 <= |a|
    && (Sorted(a) ==> forall k :: 0 <= k < |a| && a[k] == target ==> left <= k <= right)
    && ProbeCount(trace) + BitLength(right + 1 - left) <= BitLength(|a|)
    && WellProbed(trace, |a|)
  }

  /** On a sorted array a strictly smaller element lies strictly to the left. */
  lemma SortedOrder(a: seq<int>, i: int, j: int)
    requires Sorted(a) && 0 <= i < |a| && 0 <= j < |a| && a[i] < a[j]
    ensures i < j
  {
  }

  /** Either half left after a miss is at most half the window. */
  lemma HalfWindow(left: int, right: int, mid: int, left': int, right': int)
    requires 0 <= left <= right && mid == (left + right) / 2
    requires (left' == mid + 1 && right' == right) || (left' == left && right' == mid - 1)
    ensures left <= left' <= right' + 1 <= right + 1
    ensures BitLength(right' + 1 - left') + 1 <= BitLength(right + 1 - left)
  {
    var w := right + 1 - left;
    assert right' + 1 - left' <= w / 2;
    BitLengthMonotone(right' + 1 - left', w / 2);
  }

  /**
    After the probe of `mid` misses, the half that cannot hold the target on a sorted array
    is dropped: every occurrence stays inside the new window.
   */
  lemma DropHalf(a: seq<int>, target: int, left: int, right: int, mid: int, left': int, right': int)
    requires 0 <= left <= mid <= right < |a| && a[mid] != target
    requires if a[mid] < target then left' == mid + 1 && right' == right else left' == left && right' == mid - 1
    requires Sorted(a) ==> forall k :: 0 <= k < |a| && a[k] == target ==> left <= k <= right
    ensures Sorted(a) ==> forall k :: 0 <= k < |a| && a[k] == target ==> left' <= k <= right'
  {
    if Sorted(a) {
      forall k | 0 <= k < |a| && a[k] == target
        ensures left' <= k <= right'
      {
        if a[mid] < target {
          SortedOrder(a, mid, k);
        } else {
          SortedOrder(a, k, mid);
        }
      }
    }
  }

  /** A window event and the middle it names count as one probe. */
  lemma OneProbe(left: int, right: int, mid: int)
    requires mid >= 0
    ensures ProbeCount([SearchRange(left, right), Current(mid)]) == 1
  {
    var t := [SearchRange(left, right), Current(mid)];
    assert t[..1] == [SearchRange(left, right)];
    assert t[..1][..0] == [];
    assert ProbeCount(t[..1]) == 0;
  }

  /**
    One iteration: announce the window and its middle, then either report the hit or
    shrink the window.
   */
  method Probe(a: seq<int>, target: int, left: int, right: int, trace: seq<SearchEvent>)
    returns (hit: bool, mid: int, left': int, right': int, trace': seq<SearchEvent>)
    requires left <= right && Searching(a, target, left, right, trace)
    ensures hit ==> 0 <= mid < |a| && a[mid] == target
    ensures hit ==> WellProbed(trace', |a|) && ProbeCount(trace') <= BitLength(|a|)
    ensures hit ==> |trace'| > 0 && trace'[|trace'| - 1] == Current(mid)
    ensures !hit ==> Searching(a, target, left', right', trace') && right' - left' < right - left
  {
    mid := (left + right) / 2;
    var probe := [SearchRange(left, right), Current(mid)];
    assert ProbeAt(probe, 0, |a|) && ProbeAt(probe, 1, |a|);
    WellProbedAppend(trace, probe, |a|);
    ProbeCountAppend(trace, probe);
    OneProbe(left, right, mid);
    trace' := trace + probe;
    left', right' := left, right;
    BitLengthMonotone(1, right + 1 - left);
    hit := a[mid] == target;
    if !hit {
      if a[mid] < target {
        left' := mid + 1;
      } else {
        right' := mid - 1;
      }
      HalfWindow(left, right, mid, left', right');
      DropHalf(a, target, left, right, mid, left', right');
    }
  }

  /**
    `binarySearch(array, target)`: a returned index always holds the target, sorted or
    not; on a sorted array a miss means the target is absent. At most
    `floor(log2 n) + 1` positions are probed, each announced as the middle of its window. A
    hit ends with the found event for it, a miss with the current index `-1` and the
    window `[-1, -1]`.
   */
  method BinarySearch(a: seq<int>, target: int) returns (r: int, trace: seq<SearchEvent>)
    ensures -1 <= r < |a|
    ensures r >= 0 ==> a[r] == target
    ensures r == -1 && Sorted(a) ==> target !in a
    ensures ProbeCount(trace) <= BitLength(|a|)
    ensures ProbeCount(trace) == 0 || Pow2(ProbeCount(trace) - 1) <= |a|
    ensures r >= 0 ==> |trace| >= 2 && trace[|trace| - 2..] == [Current(r), Found(r)]
                       && WellProbed(trace[..|trace| - 1], |a|)
    ensures r == -1 ==> |trace| >= 2 && trace[|trace| - 2..] == [Current(-1), SearchRange(-1, -1)]
                        && WellProbed(trace[..|trace| - 2], |a|)
  {
    var left, right := 0, |a| - 1;
    var probes := [];
    while left <= right
      invariant Searching(a, target, left, right, probes)
      decreases right - left
    {
      var hit, mid, left', right', probes' := Probe(a, target, left, right, probes);
      if hit {
        FoundTail(probes', mid);
        trace, r := probes' + [Found(mid)], mid;
        ProbeBound(|a|, ProbeCount(trace));
        return;
      }
      left, right, probes := left', right', probes';
    }
    MissTail(probes);
    trace, r := probes + [Current(-1), SearchRange(-1, -1)], -1;
    if |a| >= 1 {
      ProbeBound(|a|, ProbeCount(trace));
    }
  }

  lemma FoundTail(probes: seq<SearchEvent>, mid: int)
    requires |probes| > 0 && probes[|probes| - 1] == Current(mid)
    ensures var t := probes + [Found(mid)];
            t[..|t| - 1] == probes && t[|t| - 2..] == [Current(mid), Found(mid)]
            && ProbeCount(t) == ProbeCount(probes)
  {
    ProbeCountAppend(probes, [Found(mid)]);
    assert [Found(mid)][..0] == [];
  }

  lemma MissTail(probes: seq<SearchEvent>)
    ensures var t := probes + [Current(-1), SearchRange(-1, -1)];
            t[..|t| - 2] == probes && ProbeCount(t) == ProbeCount(probes)
  {
    var tail := [Current(-1), SearchRange(-1, -1)];
    ProbeCountAppend(probes, tail);
    assert tail[..1] == [Current(-1)] && [Current(-1)][..0] == [];
  }

  /** The probe bound in logarithmic form: at most `floor(log2 n) + 1` probes. */
  lemma ProbeBound(n: int, probes: nat)
    requires n >= 1 && probes <= BitLength(n)
    ensures probes == 0 || Pow2(probes - 1) <= n
  {
    BitLengthIsLog(n);
    if probes > 0 {
      Pow2Monotone(probes - 1, BitLength(n) - 1);
    }
  }

  lemma {:induction false} Pow2Monotone(i: nat, j: nat)
    requires i <= j
    ensures Pow2(i) <= Pow2(j)
    decreases j
  {
    if i < j {
      Pow2Monotone(i, j - 1);
    }
  }
}
