/**
  The events the two searches report to their caller-supplied hooks `setCurrentIndex`,
  `setFoundIndex` and (binary search only) `setSearchRange`; the awaited `setTimeout`
  between hook calls is dropped.
 */
module SearchTrace {

  datatype SearchEvent =
    | Current(i: int)                 // setCurrentIndex(i)
    | Found(i: int)                   // setFoundIndex(i)
    | SearchRange(lo: int, hi: int)   // setSearchRange([lo, hi])

  /** The index of the first occurrence of `x` in `s`, or `-1`: the reference answer. */
  function IndexOf(s: seq<int>, x: int): (r: int)
    ensures -1 <= r < |s|
    decreases |s|
  {
    if |s| == 0 then -1
    else if s[0] == x then 0
    else
      var r := IndexOf(s[1..], x);
      if r == -1 then -1 else r + 1
  }

  /** `IndexOf` is the leftmost match, and `-1` exactly when there is none. */
  lemma {:induction false} IndexOfSpec(s: seq<int>, x: int)
    ensures IndexOf(s, x) == -1 <==> x !in s
    ensures IndexOf(s, x) >= 0 ==> s[IndexOf(s, x)] == x
    ensures forall k :: 0 <= k < IndexOf(s, x) ==> s[k] != x
    decreases |s|
  {
    if |s| > 0 && s[0] != x {
      IndexOfSpec(s[1..], x);
      assert s == [s[0]] + s[1..];
      forall k | 1 <= k < IndexOf(s, x) ensures s[k] != x {
        assert s[k] == s[1..][k - 1];
      }
    }
  }
}
