/**
  `prim(vertices, edges, updateEdges, updateVertices, ...)`: grows a tree from vertex 0.
  The frontier (`minHeap`) is a list re-sorted by weight before each extraction. An
  extracted edge whose endpoints are both visited is rejected; otherwise it is accepted,
  its unvisited endpoint is visited, and the edges from that vertex to unvisited vertices
  are pushed.
 */
module Prim {
  import opened Distance
  import opened StableSort
  import opened Graph

  /** `updateVertices({ index, status: 'visited' })` and `updateEdges({ ...edge, status })`. */
  datatype Event = VertexVisited(vertex: nat) | EdgeEvent(edge: Edge, status: Status)

  /** The edges pushed at the start: those with an endpoint at `v`, in input order. */
  function Touching(edges: seq<Edge>, v: nat): (r: seq<Edge>)
    ensures forall e :: e in r <==> e in edges && (e.from == v || e.to == v)
  {
    if |edges| == 0 then []
    else (if edges[0].from == v || edges[0].to == v then [edges[0]] else []) + Touching(edges[1..], v)
  }

  /** The edges pushed after visiting `v`: those from `v` to a vertex not yet visited, in input order. */
  function Outgoing(edges: seq<Edge>, v: nat, visited: set<nat>): (r: seq<Edge>)
    ensures forall e :: e in r <==>
      e in edges && ((e.from == v && e.to !in visited) || (e.to == v && e.from !in visited))
  {
    if |edges| == 0 then []
    else
      var e := edges[0];
      (if (e.from == v && e.to !in visited) || (e.to == v && e.from !in visited) then [e] else [])
        + Outgoing(edges[1..], v, visited)
  }

  /** `e` has exactly one visited endpoint. */
  predicate Crossing(e: Edge, visited: set<nat>) {
    (e.from in visited) != (e.to in visited)
  }

  /** Vertex 0 is visited, every visited vertex is a vertex, and one more than the accepted edges. */
  predicate VisitedOk(n: nat, visited: set<nat>, mst: seq<Edge>) {
    && 0 in visited && (forall v :: v in visited ==> v < n)
    && |visited| == |mst| + 1
  }

  /** Each frontier edge has a visited endpoint, and every edge leaving the visited set is on the frontier. */
  predicate FrontierOk(edges: seq<Edge>, visited: set<nat>, heap: seq<Edge>) {
    && (forall e :: e in heap ==> e in edges && (e.from in visited || e.to in visited))
    && (forall e :: e in edges && Crossing(e, visited) ==> e in heap)
  }

  /** The accepted edges form a tree on the visited vertices that contains vertex 0. */
  ghost predicate TreeOk(edges: seq<Edge>, visited: set<nat>, mst: seq<Edge>) {
    && (forall e :: e in mst ==> e in edges && e.from in visited && e.to in visited)
    && Acyclic(mst)
    && (forall v :: v in visited ==> Connected(mst, 0, v))
    && (forall a, b :: Connected(mst, a, b) && a != b ==> a in visited && b in visited)
  }

  /** The state between extractions. */
  ghost predicate Growing(n: nat, edges: seq<Edge>, visited: set<nat>, heap: seq<Edge>, mst: seq<Edge>) {
    && n > 0 && EdgesIn(n, edges)
    && VisitedOk(n, visited, mst)
    && FrontierOk(edges, visited, heap)
    && TreeOk(edges, visited, mst)
  }

  lemma Start(n: nat, edges: seq<Edge>)
    requires n > 0 && EdgesIn(n, edges)
    ensures Growing(n, edges, {0}, Touching(edges, 0), [])
  {
    ConnectedRefl([], 0);
    forall a, b | Connected([], a, b) ensures a == b {
      ConnectedNone(a, b);
    }
  }

  /** The sorted frontier's head is a frontier edge of least weight, and the rest is the remaining frontier. */
  lemma Extracted(heap: seq<Edge>)
    requires |heap| > 0
    ensures var s := SortBy(heap, Weight);
      && s[0] in heap
      && (forall d :: d in heap ==> s[0].weight <= d.weight)
      && (forall d :: d in heap && d != s[0] ==> d in s[1..])
      && (forall d :: d in s[1..] ==> d in heap)
      && |s[1..]| == |heap| - 1
  {
    var s := SortBy(heap, Weight);
    assert s == [s[0]] + s[1..];
    assert multiset(s) == multiset{s[0]} + multiset(s[1..]);
    assert s[0] in multiset(heap);
    forall d | d in heap ensures s[0].weight <= d.weight {
      assert d in multiset(s);
      var j :| 0 <= j < |s| && s[j] == d;
      if j > 0 {
        assert DistLe(Weight(s[0]), Weight(s[j]));
      }
    }
    forall d | d in heap && d != s[0] ensures d in s[1..] {
      assert d in multiset(s);
    }
    forall d | d in s[1..] ensures d in heap {
      assert d in multiset(s);
    }
  }

  lemma Reject(n: nat, edges: seq<Edge>, visited: set<nat>, heap: seq<Edge>, mst: seq<Edge>)
    requires Growing(n, edges, visited, heap, mst) && |heap| > 0
    requires SortBy(heap, Weight)[0].from in visited && SortBy(heap, Weight)[0].to in visited
    ensures Growing(n, edges, visited, SortBy(heap, Weight)[1..], mst)
  {
    Extracted(heap);
  }

  /** Accepting `e` with visited endpoint `u` and unvisited endpoint `next` keeps the tree a tree. */
  lemma AcceptTree(visited: set<nat>, mst: seq<Edge>, e: Edge, u: nat, next: nat)
    requires Joins(e, u, next) && u in visited && next !in visited
    requires Acyclic(mst)
    requires forall v :: v in visited ==> Connected(mst, 0, v)
    requires forall a, b :: Connected(mst, a, b) && a != b ==> a in visited && b in visited
    ensures Acyclic(mst + [e])
    ensures forall v :: v in visited + {next} ==> Connected(mst + [e], 0, v)
    ensures forall a, b :: Connected(mst + [e], a, b) && a != b ==> a in visited + {next} && b in visited + {next}
  {
    var t := mst + [e];
    forall i | 0 <= i < |t| ensures !Connected(t[..i], t[i].from, t[i].to) {
      if i < |mst| {
        assert t[..i] == mst[..i];
      } else {
        assert t[..i] == mst;
      }
    }
    ConnectedEdge(t, e);
    forall v | v in visited + {next} ensures Connected(t, 0, v) {
      ConnectedGrow(mst, e, 0, u);
      if v == next {
        ConnectedTrans(t, 0, u, next);
      } else {
        ConnectedGrow(mst, e, 0, v);
      }
    }
    forall a, b | Connected(t, a, b) && a != b ensures a in visited + {next} && b in visited + {next} {
      ConnectedSnoc(mst, e, a, b);
      ConnectedRefl(mst, a);
    }
  }

  lemma AcceptFrontier(edges: seq<Edge>, visited: set<nat>, heap: seq<Edge>, e: Edge, next: nat)
    requires FrontierOk(edges, visited, heap) && |heap| > 0
    requires e == SortBy(heap, Weight)[0] && (e.from == next || e.to == next)
    ensures FrontierOk(edges, visited + {next}, SortBy(heap, Weight)[1..] + Outgoing(edges, next, visited + {next}))
  {
    Extracted(heap);
    var visited', heap' := visited + {next}, SortBy(heap, Weight)[1..] + Outgoing(edges, next, visited + {next});
    forall d | d in edges && Crossing(d, visited') ensures d in heap' {
      if d.from != next && d.to != next {
        assert Crossing(d, visited);
      }
    }
  }

  lemma Accept(n: nat, edges: seq<Edge>, visited: set<nat>, heap: seq<Edge>, mst: seq<Edge>, e: Edge, next: nat)
    requires Growing(n, edges, visited, heap, mst) && |heap| > 0
    requires e == SortBy(heap, Weight)[0] && !(e.from in visited && e.to in visited)
    requires next == if e.from in visited then e.to else e.from
    ensures next !in visited
    ensures Growing(n, edges, visited + {next}, SortBy(heap, Weight)[1..] + Outgoing(edges, next, visited + {next}), mst + [e])
  {
    Extracted(heap);
    assert e in edges && (e.from in visited || e.to in visited);
    var u := if e.from in visited then e.from else e.to;
    AcceptTree(visited, mst, e, u, next);
    AcceptFrontier(edges, visited, heap, e, next);
    AcceptMembers(edges, visited, mst, e, u, next);
    AcceptCount(n, visited, mst, e, next);
    GrowingOf(n, edges, visited + {next}, SortBy(heap, Weight)[1..] + Outgoing(edges, next, visited + {next}), mst + [e]);
  }

  lemma AcceptMembers(edges: seq<Edge>, visited: set<nat>, mst: seq<Edge>, e: Edge, u: nat, next: nat)
    requires forall d :: d in mst ==> d in edges && d.from in visited && d.to in visited
    requires e in edges && Joins(e, u, next) && u in visited
    ensures forall d :: d in mst + [e] ==> d in edges && d.from in visited + {next} && d.to in visited + {next}
  {
  }

  lemma AcceptCount(n: nat, visited: set<nat>, mst: seq<Edge>, e: Edge, next: nat)
    requires VisitedOk(n, visited, mst) && next !in visited && next < n
    ensures VisitedOk(n, visited + {next}, mst + [e])
  {
  }

  lemma GrowingOf(n: nat, edges: seq<Edge>, visited: set<nat>, heap: seq<Edge>, mst: seq<Edge>)
    requires n > 0 && EdgesIn(n, edges) && VisitedOk(n, visited, mst) && FrontierOk(edges, visited, heap)
    requires forall e :: e in mst ==> e in edges && e.from in visited && e.to in visited
    requires Acyclic(mst)
    requires forall v :: v in visited ==> Connected(mst, 0, v)
    requires forall a, b :: Connected(mst, a, b) && a != b ==> a in visited && b in visited
    ensures Growing(n, edges, visited, heap, mst)
  {
  }

  /** One pass of the loop: sort the frontier, `shift` its head, and reject or accept it. */
  method Step(n: nat, edges: seq<Edge>, visited: set<nat>, heap: seq<Edge>, mst: seq<Edge>)
    returns (edge: Edge, visited': set<nat>, heap': seq<Edge>, mst': seq<Edge>, emitted: seq<Event>)
    requires Growing(n, edges, visited, heap, mst) && |heap| > 0
    ensures Growing(n, edges, visited', heap', mst')
    ensures edge in heap && forall d :: d in heap ==> edge.weight <= d.weight
    ensures edge.from in visited && edge.to in visited ==>
      mst' == mst && visited' == visited && |heap'| == |heap| - 1 && emitted == [EdgeEvent(edge, Rejected)]
    ensures !(edge.from in visited && edge.to in visited) ==>
      var next := if edge.from in visited then edge.to else edge.from;
      && next !in visited && visited' == visited + {next} && mst' == mst + [edge]
      && emitted == [EdgeEvent(edge, Considering), EdgeEvent(edge, Accepted), VertexVisited(next)]
  {
    Extracted(heap);
    var sorted := SortBy(heap, Weight);
    edge := sorted[0];
    if edge.from in visited && edge.to in visited {
      Reject(n, edges, visited, heap, mst);
      visited', heap', mst' := visited, sorted[1..], mst;
      emitted := [EdgeEvent(edge, Rejected)];
    } else {
      var next := if edge.from in visited then edge.to else edge.from;
      Accept(n, edges, visited, heap, mst, edge, next);
      visited' := visited + {next};
      heap' := sorted[1..] + Outgoing(edges, next, visited');
      mst' := mst + [edge];
      emitted := [EdgeEvent(edge, Considering), EdgeEvent(edge, Accepted), VertexVisited(next)];
    }
  }

  /** A walk that starts in a set no edge leaves stays in it. */
  lemma {:induction false} WalkStays(edges: seq<Edge>, visited: set<nat>, p: seq<nat>)
    requires UWalk(edges, p) && p[0] in visited
    requires forall e :: e in edges ==> !Crossing(e, visited)
    ensures p[|p| - 1] in visited
    decreases |p|
  {
    if |p| > 1 {
      var q := p[..|p| - 1];
      assert UWalk(edges, q) by {
        forall i | 0 <= i < |q| - 1 ensures Link(edges, q[i], q[i + 1]) {
          assert q[i] == p[i] && q[i + 1] == p[i + 1];
        }
      }
      WalkStays(edges, visited, q);
      assert Link(edges, p[|p| - 2], p[|p| - 1]);
    }
  }

  /** Once the frontier is empty, or `|V| - 1` edges are accepted, every vertex connected to 0 is visited. */
  lemma AllVisited(n: nat, edges: seq<Edge>, visited: set<nat>, heap: seq<Edge>, mst: seq<Edge>)
    requires n > 0 && VisitedOk(n, visited, mst) && FrontierOk(edges, visited, heap)
    requires |heap| == 0 || |mst| >= n - 1
    ensures forall v: nat :: v < n && Connected(edges, 0, v) ==> v in visited
  {
    if |heap| == 0 {
      forall v: nat | v < n && Connected(edges, 0, v) ensures v in visited {
        var p :| UWalk(edges, p) && p[0] == 0 && p[|p| - 1] == v;
        WalkStays(edges, visited, p);
      }
    } else {
      forall v: nat | v < n ensures v in visited {
        if v !in visited {
          SubsetSize(visited, Range(n) - {v});
        }
      }
    }
  }

  lemma Finish(n: nat, edges: seq<Edge>, visited: set<nat>, heap: seq<Edge>, mst: seq<Edge>)
    requires Growing(n, edges, visited, heap, mst)
    requires |heap| == 0 || |mst| >= n - 1
    ensures |mst| <= n - 1
    ensures forall v: nat :: v < n && Connected(edges, 0, v) ==> Connected(mst, 0, v)
    ensures (forall v: nat :: v < n ==> Connected(edges, 0, v)) ==> |mst| == n - 1
  {
    SubsetSize(visited, Range(n));
    AllVisited(n, edges, visited, heap, mst);
    if forall v: nat :: v < n ==> Connected(edges, 0, v) {
      SubsetSize(Range(n), visited);
    }
  }

  /**
    `prim`: the accepted edges and the events reported. The accepted edges contain no
    cycle, lie on a tree with vertex 0, number at most `|V| - 1`, and connect vertex 0 to
    every vertex the input edges connect it to; so on input edges that connect every
    vertex to vertex 0 they are a spanning tree of exactly `|V| - 1` edges.
   */
  method Prim(n: nat, edges: seq<Edge>) returns (mst: seq<Edge>, events: seq<Event>)
    requires EdgesIn(n, edges)
    ensures forall e :: e in mst ==> e in edges
    ensures Acyclic(mst)
    ensures if n == 0 then mst == [] else |mst| <= n - 1
    ensures forall e :: e in mst ==> Connected(mst, 0, e.from) && Connected(mst, 0, e.to)
    ensures forall v: nat :: v < n && Connected(edges, 0, v) ==> Connected(mst, 0, v)
    ensures n > 0 && (forall v: nat :: v < n ==> Connected(edges, 0, v)) ==> |mst| == n - 1
    ensures |events| > 0 && events[0] == VertexVisited(0)
  {
    var visited: set<nat> := {0};
    events := [VertexVisited(0)];
    var heap := Touching(edges, 0);
    mst := [];
    if n > 0 {
      Start(n, edges);
    }
    while |heap| > 0 && |mst| < n - 1
      invariant n > 0 ==> Growing(n, edges, visited, heap, mst)
      invariant n == 0 ==> mst == []
      invariant |events| > 0 && events[0] == VertexVisited(0)
      decreases n - |mst|, |heap|
    {
      var edge, emitted;
      edge, visited, heap, mst, emitted := Step(n, edges, visited, heap, mst);
      events := events + emitted;
    }
    if n > 0 {
      Finish(n, edges, visited, heap, mst);
    }
  }
}
