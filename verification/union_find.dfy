/**
  The disjoint-set forest inside Kruskal's algorithm: `parent` and `rank` arrays, `find`
  with path compression and `union` by rank. `Root` follows parent links without
  compressing them; it is the reference `Find` is stated against.
 */
module UnionFind {
  datatype Forest = Forest(parent: seq<nat>, rank: seq<nat>)

  function MaxOf(s: seq<nat>): (m: nat)
    ensures forall i :: 0 <= i < |s| ==> s[i] <= m
  {
    if |s| == 0 then 0
    else
      var t := MaxOf(s[1..]);
      assert forall i :: 1 <= i < |s| ==> s[i] == s[1..][i - 1];
      if s[0] > t then s[0] else t
  }

  /** Parents are vertices, and every non-root has a strictly smaller rank than its parent. */
  predicate Valid(f: Forest) {
    && |f.parent| == |f.rank|
    && (forall i :: 0 <= i < |f.parent| ==> f.parent[i] < |f.parent|)
    && (forall i :: 0 <= i < |f.parent| && f.parent[i] != i ==> f.rank[i] < f.rank[f.parent[i]])
  }

  /** `parent[i] = i` and `rank[i] = 0` for each of the `n` vertices. */
  function Init(n: nat): (f: Forest)
    ensures Valid(f) && |f.parent| == n
    ensures forall i :: 0 <= i < n ==> f.parent[i] == i && f.rank[i] == 0
  {
    Forest(seq(n, i => i), seq(n, i => 0))
  }

  /** The root reached by following parent links from `x`. */
  function Root(f: Forest, x: nat): (r: nat)
    requires Valid(f) && x < |f.parent|
    ensures r < |f.parent| && f.parent[r] == r && f.rank[x] <= f.rank[r]
    decreases MaxOf(f.rank) - f.rank[x]
  {
    if f.parent[x] == x then x else Root(f, f.parent[x])
  }

  /** `x` and `y` are in the same set. */
  predicate Same(f: Forest, x: nat, y: nat)
    requires Valid(f) && x < |f.parent| && y < |f.parent|
  {
    Root(f, x) == Root(f, y)
  }

  function Roots(f: Forest): set<nat> {
    set i | 0 <= i < |f.parent| && f.parent[i] == i
  }

  lemma {:induction false} InitRoots(n: nat)
    ensures forall i :: 0 <= i < n ==> Root(Init(n), i) == i
    ensures |Roots(Init(n))| == n
  {
    if n > 0 {
      InitRoots(n - 1);
      assert Roots(Init(n)) == Roots(Init(n - 1)) + {n - 1};
    }
  }

  /** Pointing the non-root `x` straight at its root changes no vertex's root. */
  lemma Redirect(f: Forest, x: nat, r: nat)
    requires Valid(f) && x < |f.parent| && f.parent[x] != x && r == Root(f, x)
    ensures Valid(f.(parent := f.parent[x := r]))
    ensures forall y :: 0 <= y < |f.parent| ==> Root(f.(parent := f.parent[x := r]), y) == Root(f, y)
  {
    var g := f.(parent := f.parent[x := r]);
    assert f.rank[x] < f.rank[f.parent[x]] <= f.rank[r];
    forall y | 0 <= y < |f.parent| ensures Root(g, y) == Root(f, y) {
      RedirectAt(f, x, r, y);
    }
  }

  lemma {:induction false} RedirectAt(f: Forest, x: nat, r: nat, y: nat)
    requires Valid(f) && x < |f.parent| && f.parent[x] != x && r == Root(f, x) && y < |f.parent|
    requires Valid(f.(parent := f.parent[x := r]))
    ensures Root(f.(parent := f.parent[x := r]), y) == Root(f, y)
    decreases MaxOf(f.rank) - f.rank[y]
  {
    var g := f.(parent := f.parent[x := r]);
    if y == x {
      assert g.parent[r] == r;
    } else if f.parent[y] != y {
      RedirectAt(f, x, r, f.parent[y]);
    }
  }

  /** `g` keeps `f`'s ranks and roots, and every vertex reaches the same root in both. */
  ghost predicate SameSets(f: Forest, g: Forest) {
    && Valid(f) && Valid(g) && |g.parent| == |f.parent| && g.rank == f.rank
    && (forall y :: 0 <= y < |f.parent| ==> Root(g, y) == Root(f, y))
    && Roots(g) == Roots(f)
  }

  /**
    `g` merges the sets of `x` and `y` in `f`: two vertices share a set in `g` exactly when
    they did in `f`, or one was with `x` and the other with `y`.
   */
  ghost predicate Merged(f: Forest, x: nat, y: nat, g: Forest)
    requires Valid(f) && Valid(g) && |g.parent| == |f.parent| && x < |f.parent| && y < |f.parent|
  {
    forall a, b :: 0 <= a < |f.parent| && 0 <= b < |f.parent| ==>
      (Same(g, a, b) <==> Same(f, a, b) || (Same(f, a, x) && Same(f, b, y)) || (Same(f, a, y) && Same(f, b, x)))
  }

  lemma SameSetsTrans(f: Forest, g: Forest, h: Forest)
    requires SameSets(f, g) && SameSets(g, h)
    ensures SameSets(f, h)
  {
  }

  lemma Compress(f: Forest, x: nat, r: nat, f1: Forest)
    requires Valid(f) && x < |f.parent| && f.parent[x] != x
    requires SameSets(f, f1) && r == Root(f, f.parent[x])
    ensures SameSets(f, f1.(parent := f1.parent[x := r]))
  {
    assert f1.parent[x] != x by {
      assert x !in Roots(f);
    }
    assert Root(f1, x) == r;
    Redirect(f1, x, r);
    var f2 := f1.(parent := f1.parent[x := r]);
    assert Roots(f2) == Roots(f1) by {
      assert r in Roots(f1);
    }
  }

  /**
    `find(x)`: the root of `x`'s set. Path compression leaves the ranks, the roots and
    the root every vertex reaches unchanged.
   */
  function Find(f: Forest, x: nat): (res: (nat, Forest))
    requires Valid(f) && x < |f.parent|
    ensures res.0 == Root(f, x) && res.0 < |f.parent| && f.parent[res.0] == res.0
    ensures SameSets(f, res.1)
    decreases MaxOf(f.rank) - f.rank[x]
  {
    if f.parent[x] == x then (x, f)
    else
      var (r, f1) := Find(f, f.parent[x]);
      Compress(f, x, r, f1);
      (r, f1.(parent := f1.parent[x := r]))
  }

  /** Hanging the root `c` under the root `r`, whose rank becomes `k`. */
  function Link(f: Forest, c: nat, r: nat, k: nat): Forest
    requires |f.parent| == |f.rank| && c < |f.parent| && r < |f.parent|
  {
    Forest(f.parent[c := r], f.rank[r := k])
  }

  lemma Linked(f: Forest, c: nat, r: nat, k: nat)
    requires Valid(f) && c < |f.parent| && r < |f.parent| && c != r
    requires f.parent[c] == c && f.parent[r] == r && f.rank[r] <= k && f.rank[c] < k
    ensures Valid(Link(f, c, r, k))
    ensures Merged(f, c, r, Link(f, c, r, k))
    ensures |Roots(Link(f, c, r, k))| == |Roots(f)| - 1
  {
    var g := Link(f, c, r, k);
    forall a | 0 <= a < |f.parent|
      ensures Root(g, a) == if Root(f, a) == c then r else Root(f, a)
    {
      LinkedAt(f, c, r, k, a);
    }
    assert Roots(g) == Roots(f) - {c};
    assert Root(f, c) == c && Root(f, r) == r;
  }

  lemma {:induction false} LinkedAt(f: Forest, c: nat, r: nat, k: nat, a: nat)
    requires Valid(f) && c < |f.parent| && r < |f.parent| && c != r && a < |f.parent|
    requires f.parent[c] == c && f.parent[r] == r && f.rank[r] <= k && f.rank[c] < k
    requires Valid(Link(f, c, r, k))
    ensures Root(Link(f, c, r, k), a) == if Root(f, a) == c then r else Root(f, a)
    decreases MaxOf(f.rank) - f.rank[a]
  {
    var g := Link(f, c, r, k);
    if f.parent[a] != a {
      LinkedAt(f, c, r, k, f.parent[a]);
    } else if a == c {
      assert g.parent[r] == r;
    }
  }

  /**
    The rank rule of `union`: the root of lower rank goes under the other; on a tie `ry`
    goes under `rx` and `rx`'s rank grows by one.
   */
  function LinkByRank(f: Forest, rx: nat, ry: nat): (g: Forest)
    requires Valid(f) && rx < |f.parent| && ry < |f.parent| && rx != ry
    requires f.parent[rx] == rx && f.parent[ry] == ry
    ensures Valid(g) && |g.parent| == |f.parent|
  {
    if f.rank[rx] < f.rank[ry] then
      Linked(f, rx, ry, f.rank[ry]);
      Link(f, rx, ry, f.rank[ry])
    else if f.rank[rx] > f.rank[ry] then
      Linked(f, ry, rx, f.rank[rx]);
      Link(f, ry, rx, f.rank[rx])
    else
      Linked(f, ry, rx, f.rank[rx] + 1);
      Link(f, ry, rx, f.rank[rx] + 1)
  }

  /** Linking two roots by rank merges their sets and leaves one set fewer. */
  lemma LinkByRankMerges(f: Forest, rx: nat, ry: nat)
    requires Valid(f) && rx < |f.parent| && ry < |f.parent| && rx != ry
    requires f.parent[rx] == rx && f.parent[ry] == ry
    ensures Merged(f, rx, ry, LinkByRank(f, rx, ry))
    ensures |Roots(LinkByRank(f, rx, ry))| == |Roots(f)| - 1
  {
    var k := if f.rank[rx] == f.rank[ry] then f.rank[rx] + 1 else f.rank[rx];
    if f.rank[rx] < f.rank[ry] {
      Linked(f, rx, ry, f.rank[ry]);
    } else {
      Linked(f, ry, rx, k);
      assert LinkByRank(f, rx, ry) == Link(f, ry, rx, k);
      MergedSym(f, ry, rx, Link(f, ry, rx, k));
    }
  }

  /** Only `rx`'s rank can change, by exactly one, and only when the two ranks are equal. */
  lemma LinkByRankRanks(f: Forest, rx: nat, ry: nat)
    requires Valid(f) && rx < |f.parent| && ry < |f.parent| && rx != ry
    requires f.parent[rx] == rx && f.parent[ry] == ry
    ensures forall i :: 0 <= i < |f.parent| ==>
      LinkByRank(f, rx, ry).rank[i] == f.rank[i]
      || (i == rx && f.rank[rx] == f.rank[ry] && LinkByRank(f, rx, ry).rank[i] == f.rank[i] + 1)
  {
  }

  lemma MergedSym(f: Forest, x: nat, y: nat, g: Forest)
    requires Valid(f) && Valid(g) && |g.parent| == |f.parent| && x < |f.parent| && y < |f.parent|
    requires Merged(f, x, y, g)
    ensures Merged(f, y, x, g)
  {
  }

  /** Merging the roots found in a compressed copy merges the original vertices' sets. */
  lemma MergedRoots(f: Forest, x: nat, y: nat, f2: Forest, g: Forest)
    requires Valid(f) && x < |f.parent| && y < |f.parent| && SameSets(f, f2)
    requires Valid(g) && |g.parent| == |f.parent| && Merged(f2, Root(f, x), Root(f, y), g)
    ensures Merged(f, x, y, g)
  {
    var rx, ry := Root(f, x), Root(f, y);
    assert Root(f2, rx) == rx && Root(f2, ry) == ry;
    forall a | 0 <= a < |f.parent|
      ensures Same(f2, a, rx) == Same(f, a, x) && Same(f2, a, ry) == Same(f, a, y)
    {
    }
    forall a, b | 0 <= a < |f.parent| && 0 <= b < |f.parent|
      ensures Same(g, a, b) <==> Same(f, a, b) || (Same(f, a, x) && Same(f, b, y)) || (Same(f, a, y) && Same(f, b, x))
    {
      assert Same(f2, a, b) == Same(f, a, b);
      assert Same(f2, b, rx) == Same(f, b, x) && Same(f2, b, ry) == Same(f, b, y);
    }
  }

  /** `union(x, y)`: finds both roots, and links them by rank unless they coincide. */
  function Union(f: Forest, x: nat, y: nat): (res: (bool, Forest))
    requires Valid(f) && x < |f.parent| && y < |f.parent|
    ensures Valid(res.1) && |res.1.parent| == |f.parent|
  {
    var (rx, f1) := Find(f, x);
    var (ry, f2) := Find(f1, y);
    if rx == ry then (false, f2) else (true, LinkByRank(f2, rx, ry))
  }

  /**
    `union(x, y)` reports whether `x` and `y` were in different sets, and merges the two
    sets; the number of sets drops by one exactly when it reports success.
   */
  lemma UnionMerges(f: Forest, x: nat, y: nat)
    requires Valid(f) && x < |f.parent| && y < |f.parent|
    ensures Union(f, x, y).0 <==> !Same(f, x, y)
    ensures Merged(f, x, y, Union(f, x, y).1)
    ensures |Roots(Union(f, x, y).1)| == |Roots(f)| - (if Union(f, x, y).0 then 1 else 0)
  {
    var (rx, f1) := Find(f, x);
    var (ry, f2) := Find(f1, y);
    SameSetsTrans(f, f1, f2);
    if rx != ry {
      LinkByRankMerges(f2, rx, ry);
      MergedRoots(f, x, y, f2, LinkByRank(f2, rx, ry));
    } else {
      MergedSame(f, x, y);
    }
  }

  /** When `x` and `y` already share a set, the unchanged forest counts as merged. */
  lemma MergedSame(f: Forest, x: nat, y: nat)
    requires Valid(f) && x < |f.parent| && y < |f.parent| && Same(f, x, y)
    ensures Merged(f, x, y, f)
  {
  }

  /**
    Union by rank: only the root of `x`'s set can gain rank, by exactly one, and only
    when the two roots had equal rank.
   */
  lemma UnionRanks(f: Forest, x: nat, y: nat)
    requires Valid(f) && x < |f.parent| && y < |f.parent|
    ensures forall i :: 0 <= i < |f.parent| ==>
      Union(f, x, y).1.rank[i] == f.rank[i]
      || (i == Root(f, x) && f.rank[i] == f.rank[Root(f, y)] && Union(f, x, y).1.rank[i] == f.rank[i] + 1)
  {
    var (rx, f1) := Find(f, x);
    var (ry, f2) := Find(f1, y);
    if rx != ry {
      LinkByRankRanks(f2, rx, ry);
    }
  }
}
