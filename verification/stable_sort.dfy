/**
  `Array.prototype.sort` with a comparator `(a, b) => key(a) - key(b)`: a stable sort by
  key. Kruskal sorts the edges by weight, Prim its frontier by weight, and Dijkstra its
  unvisited nodes by distance; all three comparators are consistent, so the stable sorted
  order is the only possible result.
 */
module StableSort {
  import opened Distance

  /** Non-decreasing by key. */
  ghost predicate SortedBy<T>(s: seq<T>, key: T -> Dist) {
    forall i, j :: 0 <= i < j < |s| ==> DistLe(key(s[i]), key(s[j]))
  }

  /** The elements of `s` whose key is `k`, in their order in `s`. */
  function KeyRun<T>(s: seq<T>, key: T -> Dist, k: Dist): seq<T>
    decreases |s|
  {
    if |s| == 0 then []
    else KeyRun(s[..|s| - 1], key, k) + (if key(s[|s| - 1]) == k then [s[|s| - 1]] else [])
  }

  /** Insert `x` after every element of `t` whose key is not above its own. */
  function InsertBy<T>(t: seq<T>, x: T, key: T -> Dist): seq<T>
    decreases |t|
  {
    if |t| == 0 || DistLe(key(t[|t| - 1]), key(x)) then t + [x]
    else InsertBy(t[..|t| - 1], x, key) + [t[|t| - 1]]
  }

  /** Insertion sort by key: each element goes after the earlier ones with an equal key. */
  function SortBy<T>(s: seq<T>, key: T -> Dist): (r: seq<T>)
    ensures |r| == |s| && multiset(r) == multiset(s)
    ensures SortedBy(r, key)
    decreases |s|
  {
    if |s| == 0 then []
    else
      var t := SortBy(s[..|s| - 1], key);
      InsertByFacts(t, s[|s| - 1], key);
      assert s == s[..|s| - 1] + [s[|s| - 1]];
      InsertBy(t, s[|s| - 1], key)
  }

  lemma {:induction false} InsertByFacts<T>(t: seq<T>, x: T, key: T -> Dist)
    requires SortedBy(t, key)
    ensures var r := InsertBy(t, x, key);
            |r| == |t| + 1 && multiset(r) == multiset(t) + multiset{x} && SortedBy(r, key)
    ensures forall y :: y in InsertBy(t, x, key) ==> y == x || y in t
    decreases |t|
  {
    if |t| == 0 || DistLe(key(t[|t| - 1]), key(x)) {
      var r := t + [x];
      forall i, j | 0 <= i < j < |r| ensures DistLe(key(r[i]), key(r[j])) {
        if j == |t| && i < |t| - 1 {
          DistLeTotal(key(r[i]), key(t[|t| - 1]), key(x));
        }
      }
    } else {
      var init, last := t[..|t| - 1], t[|t| - 1];
      assert t == init + [last];
      InsertByFacts(init, x, key);
      var m := InsertBy(init, x, key);
      var r := m + [last];
      DistLeTotal(key(last), key(x), key(last));
      forall i, j | 0 <= i < j < |r| ensures DistLe(key(r[i]), key(r[j])) {
        if j == |m| {
          if r[i] == x {
          } else {
            assert r[i] in init;
            var p :| 0 <= p < |init| && init[p] == r[i];
            assert DistLe(key(t[p]), key(t[|t| - 1]));
          }
        }
      }
    }
  }

  /** Filtering by one key commutes with the stable insertion. */
  lemma {:induction false} InsertByKeyRun<T>(t: seq<T>, x: T, key: T -> Dist, k: Dist)
    ensures KeyRun(InsertBy(t, x, key), key, k) == KeyRun(t, key, k) + (if key(x) == k then [x] else [])
    decreases |t|
  {
    if |t| == 0 || DistLe(key(t[|t| - 1]), key(x)) {
      KeyRunSnoc(t, x, key, k);
    } else {
      var init, last := t[..|t| - 1], t[|t| - 1];
      InsertByKeyRun(init, x, key, k);
      KeyRunSnoc(InsertBy(init, x, key), last, key, k);
      DistLeTotal(key(last), key(x), key(x));
    }
  }

  lemma KeyRunSnoc<T>(t: seq<T>, x: T, key: T -> Dist, k: Dist)
    ensures KeyRun(t + [x], key, k) == KeyRun(t, key, k) + (if key(x) == k then [x] else [])
  {
    assert (t + [x])[..|t + [x]| - 1] == t;
  }

  /**
    Stability: the elements with any one key come out of the sort in the order they went
    in.
   */
  lemma {:induction false} SortByStable<T>(s: seq<T>, key: T -> Dist, k: Dist)
    ensures KeyRun(SortBy(s, key), key, k) == KeyRun(s, key, k)
    decreases |s|
  {
    if |s| > 0 {
      var init, last := s[..|s| - 1], s[|s| - 1];
      SortByStable(init, key, k);
      InsertByKeyRun(SortBy(init, key), last, key, k);
    }
  }
}
