/**
  `kruskal(vertices, edges, updateEdges, ...)`: scans a copy of the edges sorted by weight
  and keeps an edge exactly when union-find reports that its endpoints lie in different
  sets, stopping once `|V| - 1` edges are kept. The union-find run is stated against the
  textbook description `Greedy`: keep an edge exactly when the edges kept so far do not
  connect its endpoints.
 */
module Kruskal {
  import opened Distance
  import opened StableSort
  import opened Graph
  import opened UnionFind

  /** `updateEdges({ ...edge, status })`. */
  datatype Event = EdgeEvent(edge: Edge, status: Status)

  /** The edges of `es`, in order, that do not close a cycle with the ones kept before them. */
  ghost function Greedy(es: seq<Edge>): seq<Edge>
    decreases |es|
  {
    if |es| == 0 then []
    else
      var m := Greedy(es[..|es| - 1]);
      var e := es[|es| - 1];
      if Connected(m, e.from, e.to) then m else m + [e]
  }

  /** The events of scanning `es` that way: each edge is considered, then accepted or rejected. */
  ghost function GreedyTrace(es: seq<Edge>): seq<Event>
    decreases |es|
  {
    if |es| == 0 then []
    else
      var m := Greedy(es[..|es| - 1]);
      var e := es[|es| - 1];
      GreedyTrace(es[..|es| - 1])
        + [EdgeEvent(e, Considering), EdgeEvent(e, if Connected(m, e.from, e.to) then Rejected else Accepted)]
  }

  /** The kept edges form a forest. */
  lemma {:induction false} GreedyAcyclic(es: seq<Edge>)
    ensures Acyclic(Greedy(es))
    decreases |es|
  {
    if |es| > 0 {
      var m := Greedy(es[..|es| - 1]);
      var e := es[|es| - 1];
      GreedyAcyclic(es[..|es| - 1]);
      if !Connected(m, e.from, e.to) {
        var t := m + [e];
        forall i | 0 <= i < |t| ensures !Connected(t[..i], t[i].from, t[i].to) {
          if i < |m| {
            assert t[..i] == m[..i];
          } else {
            assert t[..i] == m;
          }
        }
      }
    }
  }

  /** The kept edges connect the endpoints of every scanned edge, and are scanned edges. */
  lemma {:induction false} GreedySpans(es: seq<Edge>)
    ensures forall e :: e in es ==> Connected(Greedy(es), e.from, e.to)
    ensures forall e :: e in Greedy(es) ==> e in es
    decreases |es|
  {
    if |es| > 0 {
      var s := es[..|es| - 1];
      var m := Greedy(s);
      var e := es[|es| - 1];
      GreedySpans(s);
      assert es == s + [e];
      if !Connected(m, e.from, e.to) {
        forall d | d in es ensures Connected(m + [e], d.from, d.to) {
          if d in s {
            ConnectedGrow(m, e, d.from, d.to);
          } else {
            ConnectedEdge(m + [e], e);
          }
        }
      }
    }
  }

  /** Between steps: union-find sets are exactly the vertex sets the kept edges connect. */
  ghost predicate Scanning(n: nat, sorted: seq<Edge>, k: nat, f: Forest, mst: seq<Edge>, events: seq<Event>) {
    && EdgesIn(n, sorted) && k <= |sorted|
    && Valid(f) && |f.parent| == n
    && mst == Greedy(sorted[..k]) && events == GreedyTrace(sorted[..k])
    && (forall a, b :: 0 <= a < n && 0 <= b < n ==> (Same(f, a, b) <==> Connected(mst, a, b)))
    && |Roots(f)| + |mst| == n
  }

  lemma Start(n: nat, sorted: seq<Edge>)
    requires EdgesIn(n, sorted)
    ensures Scanning(n, sorted, 0, Init(n), [], [])
  {
    InitRoots(n);
    assert sorted[..0] == [];
    forall a, b | 0 <= a < n && 0 <= b < n ensures Same(Init(n), a, b) <==> Connected([], a, b) {
      ConnectedNone(a, b);
    }
  }

  /** One iteration: `union(edge.from, edge.to)` decides, and the edge is accepted or rejected. */
  method Step(n: nat, sorted: seq<Edge>, k: nat, f: Forest, mst: seq<Edge>, events: seq<Event>)
    returns (f': Forest, mst': seq<Edge>, events': seq<Event>)
    requires Scanning(n, sorted, k, f, mst, events) && k < |sorted|
    ensures Scanning(n, sorted, k + 1, f', mst', events')
    ensures mst' == mst || mst' == mst + [sorted[k]]
  {
    var e := sorted[k];
    assert e in sorted;
    var (merged, g) := Union(f, e.from, e.to);
    UnionMerges(f, e.from, e.to);
    assert sorted[..k + 1][..k] == sorted[..k] && sorted[..k + 1][k] == e;
    f' := g;
    if merged {
      mst' := mst + [e];
      events' := events + [EdgeEvent(e, Considering), EdgeEvent(e, Accepted)];
    } else {
      mst' := mst;
      events' := events + [EdgeEvent(e, Considering), EdgeEvent(e, Rejected)];
    }
    StepSets(n, f, e, merged, g, mst);
  }

  lemma StepSets(n: nat, f: Forest, e: Edge, merged: bool, g: Forest, mst: seq<Edge>)
    requires Valid(f) && Valid(g) && |f.parent| == |g.parent| == n && e.from < n && e.to < n
    requires forall a, b :: 0 <= a < n && 0 <= b < n ==> (Same(f, a, b) <==> Connected(mst, a, b))
    requires Merged(f, e.from, e.to, g) && (merged <==> !Same(f, e.from, e.to))
    ensures forall a, b :: 0 <= a < n && 0 <= b < n ==>
      (Same(g, a, b) <==> Connected(if merged then mst + [e] else mst, a, b))
  {
    forall a, b | 0 <= a < n && 0 <= b < n
      ensures Same(g, a, b) <==> Connected(if merged then mst + [e] else mst, a, b)
    {
      if merged {
        ConnectedSnoc(mst, e, a, b);
      }
    }
  }

  /** A single remaining set puts every pair of vertices together. */
  lemma OneSet(f: Forest, a: nat, b: nat)
    requires Valid(f) && a < |f.parent| && b < |f.parent| && |Roots(f)| == 1
    ensures Same(f, a, b)
  {
    var ra, rb := Root(f, a), Root(f, b);
    assert ra in Roots(f) && rb in Roots(f);
    if ra != rb {
      assert {ra, rb} <= Roots(f);
      assert |{ra, rb}| == 2;
      SubsetSize({ra, rb}, Roots(f));
    }
  }

  /** When every vertex is in the set of vertex 0, a single set remains. */
  lemma AllSame(f: Forest)
    requires Valid(f) && |f.parent| > 0
    requires forall v: nat :: v < |f.parent| ==> Same(f, 0, v)
    ensures |Roots(f)| == 1
  {
    var r := Root(f, 0);
    forall i | i in Roots(f) ensures i == r {
      assert Same(f, 0, i);
    }
    assert Roots(f) == {r};
  }

  /** Kept edges that connect the ends of every input edge span a connected input with one set left. */
  lemma Spanning(n: nat, edges: seq<Edge>, f: Forest, mst: seq<Edge>)
    requires Valid(f) && |f.parent| == n > 0
    requires forall a, b :: 0 <= a < n && 0 <= b < n ==> (Same(f, a, b) <==> Connected(mst, a, b))
    requires |Roots(f)| + |mst| == n
    requires forall e :: e in edges ==> Connected(mst, e.from, e.to)
    requires forall v: nat :: v < n ==> Connected(edges, 0, v)
    ensures |mst| == n - 1
  {
    forall v: nat | v < n ensures Same(f, 0, v) {
      assert Connected(edges, 0, v);
      var p :| UWalk(edges, p) && p[0] == 0 && p[|p| - 1] == v;
      WalkCovered(edges, mst, p);
    }
    AllSame(f);
  }

  /**
    `kruskal`: the edges kept and the events reported, scanning the edges in non-decreasing
    weight order (`considered` of them). The kept edges are exactly what `Greedy` keeps of
    the scanned prefix; they contain no cycle, number at most `|V| - 1` (exactly that
    many when the input edges connect every vertex to vertex 0), and connect the
    endpoints of every input edge. The scan stops early only once `|V| - 1` edges are kept.
   */
  method Kruskal(n: nat, edges: seq<Edge>) returns (mst: seq<Edge>, events: seq<Event>, considered: nat)
    requires EdgesIn(n, edges)
    ensures considered <= |edges|
    ensures mst == Greedy(SortBy(edges, Weight)[..considered])
    ensures events == GreedyTrace(SortBy(edges, Weight)[..considered])
    ensures considered < |edges| ==> |mst| == n - 1
    ensures Acyclic(mst)
    ensures if n == 0 then mst == [] else |mst| <= n - 1
    ensures forall e :: e in edges ==> Connected(mst, e.from, e.to)
    ensures forall e :: e in mst ==> e in edges
    ensures n > 0 && (forall v: nat :: v < n ==> Connected(edges, 0, v)) ==> |mst| == n - 1
  {
    var sorted := SortBy(edges, Weight);
    assert forall e :: e in sorted <==> e in edges by {
      assert forall e :: e in sorted <==> e in multiset(sorted);
    }
    var f;
    f, mst, events, considered := Scan(n, sorted);
    Finish(n, edges, sorted, considered, f, mst, events);
  }

  /** The `for` loop over the sorted edges, with its `break` once `|V| - 1` edges are kept. */
  method Scan(n: nat, sorted: seq<Edge>) returns (f: Forest, mst: seq<Edge>, events: seq<Event>, k: nat)
    requires EdgesIn(n, sorted)
    ensures Scanning(n, sorted, k, f, mst, events)
    ensures k == |sorted| || |mst| == n - 1
  {
    f := Init(n);
    mst, events := [], [];
    k := 0;
    Start(n, sorted);
    while k < |sorted|
      invariant Scanning(n, sorted, k, f, mst, events)
      decreases |sorted| - k
    {
      f, mst, events := Step(n, sorted, k, f, mst, events);
      k := k + 1;
      if |mst| == n - 1 {
        break;
      }
    }
  }

  lemma Finish(n: nat, edges: seq<Edge>, sorted: seq<Edge>, k: nat, f: Forest, mst: seq<Edge>, events: seq<Event>)
    requires Scanning(n, sorted, k, f, mst, events)
    requires forall e :: e in sorted <==> e in edges
    requires k == |sorted| || |mst| == n - 1
    ensures Acyclic(mst)
    ensures if n == 0 then mst == [] else |mst| <= n - 1
    ensures forall e :: e in edges ==> Connected(mst, e.from, e.to)
    ensures forall e :: e in mst ==> e in edges
    ensures n > 0 && (forall v: nat :: v < n ==> Connected(edges, 0, v)) ==> |mst| == n - 1
  {
    GreedyAcyclic(sorted[..k]);
    GreedySpans(sorted[..k]);
    forall e | e in mst ensures e in edges {
      assert e in sorted[..k];
    }
    FinishBound(f, mst);
    FinishSpans(n, edges, sorted, k, f, mst, events);
    if n > 0 && forall v: nat :: v < n ==> Connected(edges, 0, v) {
      Spanning(n, edges, f, mst);
    }
  }

  lemma FinishBound(f: Forest, mst: seq<Edge>)
    requires Valid(f) && |Roots(f)| + |mst| == |f.parent|
    ensures if |f.parent| == 0 then mst == [] else |mst| <= |f.parent| - 1
  {
    if |f.parent| > 0 {
      assert Root(f, 0) in Roots(f);
    }
  }

  lemma FinishSpans(n: nat, edges: seq<Edge>, sorted: seq<Edge>, k: nat, f: Forest, mst: seq<Edge>, events: seq<Event>)
    requires Scanning(n, sorted, k, f, mst, events)
    requires forall e :: e in sorted <==> e in edges
    requires k == |sorted| || |mst| == n - 1
    ensures forall e :: e in edges ==> Connected(mst, e.from, e.to)
  {
    if k == |sorted| {
      GreedySpans(sorted[..k]);
      assert sorted[..k] == sorted;
    } else {
      forall e | e in edges ensures Connected(mst, e.from, e.to) {
        assert e in sorted;
        OneSet(f, e.from, e.to);
      }
    }
  }
}
