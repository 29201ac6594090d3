/**
  Weighted graphs of the graph visualiser: `n` vertices numbered `0 .. n - 1` and a list
  of `{ from, to, weight }` edges. Kruskal's and Prim's algorithms treat an edge as
  undirected; this module defines undirected connectivity by walks, the reference
  against which both are stated.
 */
module Graph {
  import opened Distance

  datatype Edge = Edge(from: nat, to: nat, weight: int)

  /** The `status` an edge is drawn with while an algorithm examines it. */
  datatype Status = Considering | Accepted | Rejected

  /** The vertices `0 .. n - 1`. */
  function Range(n: nat): (r: set<nat>)
    ensures forall i :: i in r <==> 0 <= i < n
    ensures |r| == n
  {
    if n == 0 then {} else Range(n - 1) + {n - 1}
  }

  lemma SubsetSize(s: set<nat>, t: set<nat>)
    requires s <= t
    ensures |s| <= |t|
  {
    assert t == s + (t - s);
  }

  /** Every endpoint names one of the `n` vertices. */
  predicate EdgesIn(n: nat, edges: seq<Edge>) {
    forall e :: e in edges ==> e.from < n && e.to < n
  }

  /** The sort key of `(a, b) => a.weight - b.weight`. */
  function Weight(e: Edge): Dist {
    Fin(e.weight)
  }

  /** `e` joins `a` and `b`, in either direction. */
  predicate Joins(e: Edge, a: nat, b: nat) {
    (e.from == a && e.to == b) || (e.from == b && e.to == a)
  }

  ghost predicate Link(es: seq<Edge>, a: nat, b: nat) {
    exists e :: e in es && Joins(e, a, b)
  }

  /** `p` is an undirected walk along edges of `es`. */
  ghost predicate UWalk(es: seq<Edge>, p: seq<nat>) {
    |p| > 0 && forall i :: 0 <= i < |p| - 1 ==> Link(es, p[i], p[i + 1])
  }

  /** The edges `es` connect `a` to `b`. */
  ghost predicate Connected(es: seq<Edge>, a: nat, b: nat) {
    exists p :: UWalk(es, p) && p[0] == a && p[|p| - 1] == b
  }

  /**
    Each edge of `es` joins two vertices that the edges before it do not connect: `es`
    contains no cycle.
   */
  ghost predicate Acyclic(es: seq<Edge>) {
    forall i :: 0 <= i < |es| ==> !Connected(es[..i], es[i].from, es[i].to)
  }

  /**
    The ways `es + [e]` can connect `a` to `b`: already through `es`, or through `es` to
    one end of `e` and from its other end.
   */
  ghost predicate Via(es: seq<Edge>, x: nat, y: nat, a: nat, b: nat) {
    || Connected(es, a, b)
    || (Connected(es, a, x) && Connected(es, b, y))
    || (Connected(es, a, y) && Connected(es, b, x))
  }

  lemma ConnectedRefl(es: seq<Edge>, a: nat)
    ensures Connected(es, a, a)
  {
    assert UWalk(es, [a]);
  }

  lemma ConnectedEdge(es: seq<Edge>, e: Edge)
    requires e in es
    ensures Connected(es, e.from, e.to) && Connected(es, e.to, e.from)
  {
    assert Link(es, e.from, e.to) && Link(es, e.to, e.from);
    assert UWalk(es, [e.from, e.to]);
    assert UWalk(es, [e.to, e.from]);
  }

  function Reverse(p: seq<nat>): (r: seq<nat>)
    ensures |r| == |p| && forall i :: 0 <= i < |p| ==> r[i] == p[|p| - 1 - i]
  {
    if |p| == 0 then [] else Reverse(p[1..]) + [p[0]]
  }

  lemma ConnectedSym(es: seq<Edge>, a: nat, b: nat)
    requires Connected(es, a, b)
    ensures Connected(es, b, a)
  {
    var p :| UWalk(es, p) && p[0] == a && p[|p| - 1] == b;
    var r := Reverse(p);
    forall i | 0 <= i < |r| - 1 ensures Link(es, r[i], r[i + 1]) {
      var j := |p| - 2 - i;
      assert Link(es, p[j], p[j + 1]);
      var e :| e in es && Joins(e, p[j], p[j + 1]);
      assert Joins(e, r[i], r[i + 1]);
    }
    assert UWalk(es, r);
  }

  lemma ConnectedTrans(es: seq<Edge>, a: nat, b: nat, c: nat)
    requires Connected(es, a, b) && Connected(es, b, c)
    ensures Connected(es, a, c)
  {
    var p :| UWalk(es, p) && p[0] == a && p[|p| - 1] == b;
    var q :| UWalk(es, q) && q[0] == b && q[|q| - 1] == c;
    var r := p + q[1..];
    forall i | 0 <= i < |r| - 1 ensures Link(es, r[i], r[i + 1]) {
      if i < |p| - 1 {
        assert r[i] == p[i] && r[i + 1] == p[i + 1];
      } else {
        assert r[i] == q[i - |p| + 1] && r[i + 1] == q[i - |p| + 2];
      }
    }
    assert UWalk(es, r);
  }

  /** Adding an edge keeps every connection. */
  lemma ConnectedGrow(es: seq<Edge>, e: Edge, a: nat, b: nat)
    requires Connected(es, a, b)
    ensures Connected(es + [e], a, b)
  {
    var p :| UWalk(es, p) && p[0] == a && p[|p| - 1] == b;
    forall i | 0 <= i < |p| - 1 ensures Link(es + [e], p[i], p[i + 1]) {
      assert Link(es, p[i], p[i + 1]);
      var d :| d in es && Joins(d, p[i], p[i + 1]);
      assert d in es + [e];
    }
    assert UWalk(es + [e], p);
  }

  /** A connection through `es` and the ends of `e` is a connection through `es + [e]`. */
  lemma ViaConnected(es: seq<Edge>, e: Edge, a: nat, b: nat)
    requires Via(es, e.from, e.to, a, b)
    ensures Connected(es + [e], a, b)
  {
    var t := es + [e];
    ConnectedEdge(t, e);
    if Connected(es, a, b) {
      ConnectedGrow(es, e, a, b);
    } else if Connected(es, a, e.from) && Connected(es, b, e.to) {
      ConnectedGrow(es, e, a, e.from);
      ConnectedGrow(es, e, b, e.to);
      ConnectedSym(t, b, e.to);
      ConnectedTrans(t, a, e.from, e.to);
      ConnectedTrans(t, a, e.to, b);
    } else {
      ConnectedGrow(es, e, a, e.to);
      ConnectedGrow(es, e, b, e.from);
      ConnectedSym(t, b, e.from);
      ConnectedTrans(t, a, e.to, e.from);
      ConnectedTrans(t, a, e.from, b);
    }
  }

  /** Extending a connection `Via(es, x, y, a, m)` by a step of `es` from `m` to `b`. */
  lemma ViaStep(es: seq<Edge>, x: nat, y: nat, a: nat, m: nat, b: nat)
    requires Via(es, x, y, a, m) && Connected(es, m, b)
    ensures Via(es, x, y, a, b)
  {
    if Connected(es, a, m) {
      ConnectedTrans(es, a, m, b);
    } else if Connected(es, a, x) && Connected(es, m, y) {
      ConnectedSym(es, m, b);
      ConnectedTrans(es, b, m, y);
    } else {
      ConnectedSym(es, m, b);
      ConnectedTrans(es, b, m, x);
    }
  }

  /** Extending a connection `Via(es, x, y, a, m)` across the new edge from `m` to `b`. */
  lemma ViaCross(es: seq<Edge>, x: nat, y: nat, a: nat, m: nat, b: nat)
    requires Via(es, x, y, a, m) && ((m == x && b == y) || (m == y && b == x))
    ensures Via(es, x, y, a, b)
  {
    ConnectedRefl(es, b);
    if Connected(es, a, m) {
    } else if Connected(es, a, x) && Connected(es, m, y) {
      if m == x {
        ConnectedSym(es, m, y);
        ConnectedTrans(es, a, x, y);
      }
    } else {
      if m == y {
        ConnectedSym(es, m, x);
        ConnectedTrans(es, a, y, x);
      }
    }
  }

  lemma {:induction false} WalkVia(es: seq<Edge>, e: Edge, p: seq<nat>)
    requires UWalk(es + [e], p)
    ensures Via(es, e.from, e.to, p[0], p[|p| - 1])
    decreases |p|
  {
    if |p| == 1 {
      ConnectedRefl(es, p[0]);
    } else {
      var q := p[..|p| - 1];
      assert UWalk(es + [e], q) by {
        forall i | 0 <= i < |q| - 1 ensures Link(es + [e], q[i], q[i + 1]) {
          assert q[i] == p[i] && q[i + 1] == p[i + 1];
        }
      }
      WalkVia(es, e, q);
      var m, b := p[|p| - 2], p[|p| - 1];
      assert Link(es + [e], m, b);
      var d :| d in es + [e] && Joins(d, m, b);
      if d in es {
        ConnectedEdge(es, d);
        ViaStep(es, e.from, e.to, p[0], m, b);
      } else {
        ViaCross(es, e.from, e.to, p[0], m, b);
      }
    }
  }

  /** Adding the edge `e` connects exactly the pairs `Via` describes. */
  lemma ConnectedSnoc(es: seq<Edge>, e: Edge, a: nat, b: nat)
    ensures Connected(es + [e], a, b) <==> Via(es, e.from, e.to, a, b)
  {
    if Connected(es + [e], a, b) {
      var p :| UWalk(es + [e], p) && p[0] == a && p[|p| - 1] == b;
      WalkVia(es, e, p);
    }
    if Via(es, e.from, e.to, a, b) {
      ViaConnected(es, e, a, b);
    }
  }

  /** Without edges, a vertex is connected only to itself. */
  lemma ConnectedNone(a: nat, b: nat)
    ensures Connected([], a, b) <==> a == b
  {
    if Connected([], a, b) {
      var p :| UWalk([], p) && p[0] == a && p[|p| - 1] == b;
      assert |p| == 1 || Link([], p[0], p[1]);
      assert forall x, y :: !Link([], x, y);
    }
    if a == b {
      ConnectedRefl([], a);
    }
  }

  /** Edges `m` that connect the ends of every edge of `es` connect whatever `es` connects. */
  lemma {:induction false} WalkCovered(es: seq<Edge>, m: seq<Edge>, p: seq<nat>)
    requires forall e :: e in es ==> Connected(m, e.from, e.to)
    requires UWalk(es, p)
    ensures Connected(m, p[0], p[|p| - 1])
    decreases |p|
  {
    if |p| == 1 {
      ConnectedRefl(m, p[0]);
    } else {
      var q := p[..|p| - 1];
      assert UWalk(es, q) by {
        forall i | 0 <= i < |q| - 1 ensures Link(es, q[i], q[i + 1]) {
          assert q[i] == p[i] && q[i + 1] == p[i + 1];
        }
      }
      WalkCovered(es, m, q);
      var x, y := p[|p| - 2], p[|p| - 1];
      assert Link(es, x, y);
      var e :| e in es && Joins(e, x, y);
      if e.from != x {
        ConnectedSym(m, e.from, e.to);
      }
      ConnectedTrans(m, p[0], x, y);
    }
  }
}
