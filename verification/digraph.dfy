/**
  The directed reading of the graph visualiser's edges, used by topological sort: arcs
  `from -> to`, directed walks, acyclicity, and `buildAdjacencyList`.
 */
module Digraph {
  import opened Graph

  /** Some edge runs from `u` to `v`. */
  ghost predicate Arc(edges: seq<Edge>, u: nat, v: nat) {
    exists e :: e in edges && e.from == u && e.to == v
  }

  /** `p` follows arcs. */
  ghost predicate DWalk(edges: seq<Edge>, p: seq<nat>) {
    |p| > 0 && forall i :: 0 <= i < |p| - 1 ==> Arc(edges, p[i], p[i + 1])
  }

  /** No walk of one arc or more returns to its first vertex. */
  ghost predicate Dag(edges: seq<Edge>) {
    forall p :: DWalk(edges, p) && |p| > 1 ==> p[0] != p[|p| - 1]
  }

  /** `order` lists the source of every arc before its target. */
  ghost predicate Respects(edges: seq<Edge>, order: seq<nat>) {
    forall i, j :: 0 <= i < |order| && 0 <= j < |order| && Arc(edges, order[i], order[j]) ==> i < j
  }

  predicate Distinct(s: seq<nat>) {
    forall i, j :: 0 <= i < j < |s| ==> s[i] != s[j]
  }

  lemma DistinctSnoc(s: seq<nat>, x: nat)
    requires Distinct(s) && x !in s
    ensures Distinct(s + [x])
  {
    forall i, j | 0 <= i < j < |s + [x]| ensures (s + [x])[i] != (s + [x])[j] {
      assert (s + [x])[i] == s[i];
    }
  }

  /** `s` lists each of the vertices `0 .. n - 1` exactly once. */
  predicate Permutation(s: seq<nat>, n: nat) {
    |s| == n && Distinct(s) && (forall v :: v in s ==> v < n) && (forall v :: 0 <= v < n ==> v in s)
  }

  /** The targets of the edges leaving `u`, in input order. */
  function Targets(edges: seq<Edge>, u: nat): (r: seq<nat>)
    ensures forall v :: v in r <==> Arc(edges, u, v)
    decreases |edges|
  {
    if |edges| == 0 then []
    else
      var e := edges[|edges| - 1];
      var r := Targets(edges[..|edges| - 1], u) + (if e.from == u then [e.to] else []);
      assert forall d :: d in edges <==> d in edges[..|edges| - 1] || d == e;
      r
  }

  /** The number of edges from `u` to `v`. */
  function ArcCount(edges: seq<Edge>, u: nat, v: nat): nat
    decreases |edges|
  {
    if |edges| == 0 then 0
    else
      var e := edges[|edges| - 1];
      ArcCount(edges[..|edges| - 1], u, v) + (if e.from == u && e.to == v then 1 else 0)
  }

  /** `Targets(edges, u)` lists `v` once per edge from `u` to `v`. */
  lemma {:induction false} TargetsCount(edges: seq<Edge>, u: nat, v: nat)
    ensures multiset(Targets(edges, u))[v] == ArcCount(edges, u, v)
    decreases |edges|
  {
    if |edges| > 0 {
      TargetsCount(edges[..|edges| - 1], u, v);
    }
  }

  /**
    `buildAdjacencyList(vertexCount, edges)`: one list per vertex, each edge appending its
    target to its source's list. Every vertex's list is its targets in input order.
   */
  method BuildAdjacency(n: nat, edges: seq<Edge>) returns (adj: seq<seq<nat>>)
    requires EdgesIn(n, edges)
    ensures |adj| == n
    ensures forall u :: 0 <= u < n ==> adj[u] == Targets(edges, u)
  {
    adj := seq(n, _ => []);
    var k := 0;
    while k < |edges|
      invariant k <= |edges| && |adj| == n
      invariant forall u :: 0 <= u < n ==> adj[u] == Targets(edges[..k], u)
    {
      var e := edges[k];
      assert e in edges;
      assert edges[..k + 1][..k] == edges[..k] && edges[..k + 1][k] == e;
      adj := adj[e.from := adj[e.from] + [e.to]];
      k := k + 1;
    }
    assert edges[..k] == edges;
  }

  /** `adj` is the adjacency list of `edges` on `n` vertices. */
  ghost predicate AdjOf(n: nat, edges: seq<Edge>, adj: seq<seq<nat>>) {
    && EdgesIn(n, edges) && |adj| == n
    && forall u :: 0 <= u < n ==> adj[u] == Targets(edges, u)
  }

  /** An arc leads to a vertex, and is listed in its source's adjacency list. */
  lemma ArcIn(n: nat, edges: seq<Edge>, adj: seq<seq<nat>>, u: nat, v: nat)
    requires AdjOf(n, edges, adj) && u < n
    ensures v in adj[u] <==> Arc(edges, u, v)
    ensures Arc(edges, u, v) ==> v < n
  {
    if Arc(edges, u, v) {
      var e :| e in edges && e.from == u && e.to == v;
    }
  }

  /** An order that respects every arc rules out cycles. */
  lemma RespectsDag(edges: seq<Edge>, order: seq<nat>)
    requires Respects(edges, order)
    requires forall e :: e in edges ==> e.from in order && e.to in order
    ensures Dag(edges)
  {
    forall p | DWalk(edges, p) && |p| > 1 ensures p[0] != p[|p| - 1] {
      WalkForward(edges, order, p);
      assert Arc(edges, p[0], p[1]);
      var i :| 0 <= i < |order| && order[i] == p[0];
    }
  }

  lemma {:induction false} WalkForward(edges: seq<Edge>, order: seq<nat>, p: seq<nat>)
    requires Respects(edges, order)
    requires forall e :: e in edges ==> e.from in order && e.to in order
    requires DWalk(edges, p) && |p| > 1
    ensures forall i, j :: 0 <= i < |order| && 0 <= j < |order| && order[i] == p[0] && order[j] == p[|p| - 1] ==> i < j
    decreases |p|
  {
    var m := p[|p| - 2];
    assert Arc(edges, m, p[|p| - 1]);
    var e :| e in edges && e.from == m && e.to == p[|p| - 1];
    var k :| 0 <= k < |order| && order[k] == m;
    if |p| > 2 {
      var q := p[..|p| - 1];
      assert DWalk(edges, q) by {
        forall i | 0 <= i < |q| - 1 ensures Arc(edges, q[i], q[i + 1]) {
          assert q[i] == p[i] && q[i + 1] == p[i + 1];
        }
      }
      WalkForward(edges, order, q);
    }
  }

  function Elements(s: seq<nat>): set<nat> {
    set x | x in s
  }

  lemma {:induction false} DistinctElements(s: seq<nat>)
    requires Distinct(s)
    ensures |Elements(s)| == |s|
    decreases |s|
  {
    if |s| > 0 {
      var t := s[..|s| - 1];
      DistinctElements(t);
      assert Elements(s) == Elements(t) + {s[|s| - 1]};
    }
  }

  /** A list of distinct vertices below `n` is at most `n` long, and lists all of them exactly when `n` long. */
  lemma DistinctBound(s: seq<nat>, n: nat)
    requires Distinct(s) && forall x :: x in s ==> x < n
    ensures |s| <= n
    ensures |s| == n <==> forall v :: 0 <= v < n ==> v in s
  {
    DistinctElements(s);
    assert Elements(s) <= Range(n);
    SubsetSize(Elements(s), Range(n));
    if forall v :: 0 <= v < n ==> v in s {
      assert Range(n) <= Elements(s);
      SubsetSize(Range(n), Elements(s));
    }
    if |s| == n {
      forall v | 0 <= v < n ensures v in s {
        if v !in s {
          SubsetSize(Elements(s), Range(n) - {v});
        }
      }
    }
  }

  /** More than `n` entries below `n` include a repeat. */
  lemma Pigeonhole(s: seq<nat>, n: nat) returns (i: nat, j: nat)
    requires |s| > n && forall x :: x in s ==> x < n
    ensures i < j < |s| && s[i] == s[j]
  {
    if Distinct(s) {
      DistinctBound(s, n);
      assert false;
    }
    i, j :| 0 <= i < j < |s| && s[i] == s[j];
  }
}
