/** Linear search (`linearSearch`): scan from the left and stop at the first match. */
module LinearSearch {
  import opened SearchTrace

  /**
    `linearSearch(array, target)`: the index of the leftmost element equal to `target`, or
    `-1`. Every position up to the answer is announced in order as the current index; a
    hit is announced once more as found, a miss ends with the current index `-1`.
   */
  method LinearSearch(a: seq<int>, target: int) returns (r: int, trace: seq<SearchEvent>)
    ensures r == IndexOf(a, target)
    ensures r >= 0 ==> |trace| == r + 2 && trace[r + 1] == Found(r)
    ensures r == -1 ==> |trace| == |a| + 1 && trace[|a|] == Current(-1)
    ensures forall k :: 0 <= k < |trace| - 1 ==> trace[k] == Current(k)
  {
    IndexOfSpec(a, target);
    trace := [];
    var i := 0;
    while i < |a|
      invariant 0 <= i <= |a| && |trace| == i
      invariant forall k :: 0 <= k < i ==> a[k] != target
      invariant forall k :: 0 <= k < i ==> trace[k] == Current(k)
    {
      trace := trace + [Current(i)];
      if a[i] == target {
        trace := trace + [Found(i)];
        r := i;
        LeftmostIsIndexOf(a, target, r);
        return;
      }
      i := i + 1;
    }
    trace := trace + [Current(-1)];
    r := -1;
  }

  /** A match with no match to its left is the first occurrence. */
  lemma LeftmostIsIndexOf(a: seq<int>, target: int, r: nat)
    requires r < |a| && a[r] == target
    requires forall k :: 0 <= k < r ==> a[k] != target
    ensures IndexOf(a, target) == r
  {
    IndexOfSpec(a, target);
  }
}
