/**
  `topologicalSort(vertices, edges, ...)`: depth-first search from every unvisited vertex
  in turn, each vertex prepended to the result (`stack.unshift`) once all its targets are
  done. There is no cycle check: on any input the result lists every vertex once, and it
  puts every arc's source first exactly when the graph is acyclic.
 */
module TopologicalDfs {
  import opened Graph
  import opened Digraph

  /** The number of unvisited vertices. */
  function Unvisited(visited: seq<bool>): nat {
    if |visited| == 0 then 0 else (if visited[0] then 0 else 1) + Unvisited(visited[1..])
  }

  lemma {:induction false} MarkOne(visited: seq<bool>, v: nat)
    requires v < |visited| && !visited[v]
    ensures Unvisited(visited[v := true]) == Unvisited(visited) - 1
    decreases v
  {
    if v > 0 {
      MarkOne(visited[1..], v - 1);
      assert visited[v := true][1..] == visited[1..][v - 1 := true];
    } else {
      assert visited[v := true][1..] == visited[1..];
    }
  }

  /** `later` keeps every visit of `earlier`. */
  predicate Grew(earlier: seq<bool>, later: seq<bool>) {
    |earlier| == |later| && forall i :: 0 <= i < |earlier| && earlier[i] ==> later[i]
  }

  lemma {:induction false} GrewFewer(earlier: seq<bool>, later: seq<bool>)
    requires Grew(earlier, later)
    ensures Unvisited(later) <= Unvisited(earlier)
    decreases |earlier|
  {
    if |earlier| > 0 {
      GrewFewer(earlier[1..], later[1..]);
    }
  }

  /** Every arc out of a listed vertex leads to a vertex listed after it. */
  ghost predicate Finished(edges: seq<Edge>, stack: seq<nat>) {
    forall i, w :: 0 <= i < |stack| && Arc(edges, stack[i], w) ==> w in stack[i + 1..]
  }

  /**
    The search state: `stack` holds the finished vertices, `path` the vertices whose
    visit is still running (each an arc away from the one before), and a visited vertex
    is one or the other. On an acyclic graph finished vertices precede their targets.
   */
  ghost predicate Gray(n: nat, edges: seq<Edge>, adj: seq<seq<nat>>, visited: seq<bool>, stack: seq<nat>, path: seq<nat>) {
    && AdjOf(n, edges, adj) && |visited| == n
    && Distinct(stack) && (forall x :: x in stack ==> x < n && visited[x])
    && Distinct(path) && (forall x :: x in path ==> x < n && visited[x] && x !in stack)
    && (forall x :: 0 <= x < n && visited[x] ==> x in stack || x in path)
    && (forall i :: 0 <= i < |path| - 1 ==> Arc(edges, path[i], path[i + 1]))
    && (Dag(edges) ==> Finished(edges, stack))
  }

  /** A vertex still being visited is never an arc away from the newest one, on an acyclic graph. */
  lemma NoBackArc(edges: seq<Edge>, path: seq<nat>, w: nat)
    requires |path| > 0 && forall i :: 0 <= i < |path| - 1 ==> Arc(edges, path[i], path[i + 1])
    requires Arc(edges, path[|path| - 1], w)
    ensures Dag(edges) ==> w !in path
  {
    if w in path {
      var i :| 0 <= i < |path| && path[i] == w;
      var p := path[i..] + [w];
      assert DWalk(edges, p) by {
        forall k | 0 <= k < |p| - 1 ensures Arc(edges, p[k], p[k + 1]) {
          if k < |path| - i - 1 {
            assert p[k] == path[i + k] && p[k + 1] == path[i + k + 1];
          }
        }
      }
      assert |p| > 1 && p[0] == p[|p| - 1];
    }
  }

  lemma Enter(n: nat, edges: seq<Edge>, adj: seq<seq<nat>>, v: nat, visited: seq<bool>, stack: seq<nat>, path: seq<nat>)
    requires Gray(n, edges, adj, visited, stack, path) && v < n && !visited[v]
    requires |path| > 0 ==> Arc(edges, path[|path| - 1], v)
    ensures Gray(n, edges, adj, visited[v := true], stack, path + [v])
  {
    var p := path + [v];
    forall i | 0 <= i < |p| - 1 ensures Arc(edges, p[i], p[i + 1]) {
      if i < |path| - 1 {
        assert p[i] == path[i] && p[i + 1] == path[i + 1];
      }
    }
  }

  lemma Leave(n: nat, edges: seq<Edge>, adj: seq<seq<nat>>, v: nat, visited: seq<bool>, stack: seq<nat>, path: seq<nat>)
    requires Gray(n, edges, adj, visited, stack, path + [v]) && v < n
    requires Dag(edges) ==> forall w :: w in adj[v] ==> w in stack
    ensures Gray(n, edges, adj, visited, [v] + stack, path)
  {
    assert v in path + [v];
    PathPrefix(edges, path, v);
    if Dag(edges) {
      FinishPrepend(n, edges, adj, v, stack);
    }
  }

  lemma PathPrefix(edges: seq<Edge>, path: seq<nat>, v: nat)
    requires Distinct(path + [v])
    requires forall i :: 0 <= i < |path + [v]| - 1 ==> Arc(edges, (path + [v])[i], (path + [v])[i + 1])
    ensures Distinct(path) && v !in path
    ensures forall i :: 0 <= i < |path| - 1 ==> Arc(edges, path[i], path[i + 1])
  {
    var p := path + [v];
    forall i | 0 <= i < |path| - 1 ensures Arc(edges, path[i], path[i + 1]) {
      assert p[i] == path[i] && p[i + 1] == path[i + 1];
    }
    forall i, j | 0 <= i < j < |path| ensures path[i] != path[j] {
      assert p[i] == path[i] && p[j] == path[j];
    }
    forall i | 0 <= i < |path| ensures path[i] != v {
      assert p[i] == path[i] && p[|path|] == v;
    }
  }

  lemma FinishPrepend(n: nat, edges: seq<Edge>, adj: seq<seq<nat>>, v: nat, stack: seq<nat>)
    requires AdjOf(n, edges, adj) && v < n && Finished(edges, stack)
    requires forall w :: w in adj[v] ==> w in stack
    ensures Finished(edges, [v] + stack)
  {
    var s := [v] + stack;
    forall i, w | 0 <= i < |s| && Arc(edges, s[i], w) ensures w in s[i + 1..] {
      if i == 0 {
        ArcIn(n, edges, adj, v, w);
        assert s[1..] == stack;
      } else {
        assert s[i] == stack[i - 1] && s[i + 1..] == stack[i..];
      }
    }
  }

  /** `dfsVisit(vertex)`: visits `v` and everything reachable from it that is unvisited, then lists `v` first. */
  method Visit(n: nat, edges: seq<Edge>, adj: seq<seq<nat>>, v: nat, visited: seq<bool>, stack: seq<nat>, ghost path: seq<nat>)
    returns (visited': seq<bool>, stack': seq<nat>)
    requires Gray(n, edges, adj, visited, stack, path) && v < n && !visited[v]
    requires |path| > 0 ==> Arc(edges, path[|path| - 1], v)
    ensures Gray(n, edges, adj, visited', stack', path)
    ensures Grew(visited, visited') && visited'[v] && Unvisited(visited') < Unvisited(visited)
    ensures forall x :: x in stack' <==> x in stack || (0 <= x < n && visited'[x] && !visited[x])
    ensures |stack'| > 0 && stack'[0] == v
    decreases Unvisited(visited), 0
  {
    var marked := visited[v := true];
    MarkOne(visited, v);
    Enter(n, edges, adj, v, visited, stack, path);
    visited', stack' := VisitAll(n, edges, adj, v, 0, marked, stack, path + [v]);
    GrewFewer(marked, visited');
    Leave(n, edges, adj, v, visited', stack', path);
    stack' := [v] + stack';
  }

  /** The loop over `adjList[vertex]` from position `k`: visits each target still unvisited. */
  method VisitAll(n: nat, edges: seq<Edge>, adj: seq<seq<nat>>, u: nat, k: nat, visited: seq<bool>, stack: seq<nat>, ghost path: seq<nat>)
    returns (visited': seq<bool>, stack': seq<nat>)
    requires Gray(n, edges, adj, visited, stack, path) && |path| > 0 && path[|path| - 1] == u
    requires u < n && k <= |adj[u]|
    requires Dag(edges) ==> forall j :: 0 <= j < k ==> adj[u][j] in stack
    ensures Gray(n, edges, adj, visited', stack', path)
    ensures Grew(visited, visited') && Unvisited(visited') <= Unvisited(visited)
    ensures forall x :: x in stack' <==> x in stack || (0 <= x < n && visited'[x] && !visited[x])
    ensures Dag(edges) ==> forall w :: w in adj[u] ==> w in stack'
    decreases Unvisited(visited), 1, |adj[u]| - k
  {
    if k == |adj[u]| {
      return visited, stack;
    }
    var w := adj[u][k];
    ArcIn(n, edges, adj, u, w);
    var visited1, stack1 := visited, stack;
    if !visited[w] {
      visited1, stack1 := Visit(n, edges, adj, w, visited, stack, path);
    } else {
      NoBackArc(edges, path, w);
    }
    visited', stack' := VisitAll(n, edges, adj, u, k + 1, visited1, stack1, path);
    GrewFewer(visited1, visited');
  }

  /** Finished lists on an acyclic graph respect every arc. */
  lemma FinishedRespects(edges: seq<Edge>, order: seq<nat>)
    requires Distinct(order) && Finished(edges, order)
    ensures Respects(edges, order)
  {
    forall i, j | 0 <= i < |order| && 0 <= j < |order| && Arc(edges, order[i], order[j]) ensures i < j {
      assert order[j] in order[i + 1..];
      var k :| i + 1 <= k < |order| && order[k] == order[j];
    }
  }

  /**
    `topologicalSort`: every vertex exactly once, and every arc's source before its target
    exactly when the graph has no cycle.
   */
  method TopologicalSort(n: nat, edges: seq<Edge>) returns (order: seq<nat>)
    requires EdgesIn(n, edges)
    ensures Permutation(order, n)
    ensures Dag(edges) <==> Respects(edges, order)
  {
    var adj := BuildAdjacency(n, edges);
    var visited := seq(n, _ => false);
    order := [];
    var i := 0;
    while i < n
      invariant i <= n && Gray(n, edges, adj, visited, order, [])
      invariant forall j :: 0 <= j < i ==> visited[j]
    {
      if !visited[i] {
        visited, order := Visit(n, edges, adj, i, visited, order, []);
      }
      i := i + 1;
    }
    assert forall v :: 0 <= v < n ==> v in order;
    DistinctBound(order, n);
    if Dag(edges) {
      FinishedRespects(edges, order);
    }
    if Respects(edges, order) {
      RespectsDag(edges, order);
    }
  }
}
