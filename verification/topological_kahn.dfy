/**
  `topologicalSortKahn(vertices, edges, ...)`: counts in-degrees, queues the vertices of
  in-degree 0 in increasing order, then repeatedly emits the head of the queue and lowers
  the in-degree of each of its targets, queueing a target when its count reaches 0. When
  fewer than `|V|` vertices come out the graph has a cycle and the result is an error.
 */
module TopologicalKahn {
  import opened Wrappers
  import opened Graph
  import opened Digraph

  const CycleMessage := "Graph has a cycle! Topological sort not possible."

  /** The number of edges into `v` whose source is not in `done`. */
  function Pending(edges: seq<Edge>, done: set<nat>, v: nat): nat
    decreases |edges|
  {
    if |edges| == 0 then 0
    else
      var e := edges[|edges| - 1];
      Pending(edges[..|edges| - 1], done, v) + (if e.to == v && e.from !in done then 1 else 0)
  }

  /** Finishing `u` retires its edges into `v`. */
  lemma {:induction false} PendingAdd(edges: seq<Edge>, done: set<nat>, u: nat, v: nat)
    requires u !in done
    ensures Pending(edges, done + {u}, v) == Pending(edges, done, v) - ArcCount(edges, u, v)
    decreases |edges|
  {
    if |edges| > 0 {
      PendingAdd(edges[..|edges| - 1], done, u, v);
    }
  }

  /** No pending edge into `v` means every source of an arc into `v` is done. */
  lemma {:induction false} PendingZero(edges: seq<Edge>, done: set<nat>, v: nat, w: nat)
    requires Pending(edges, done, v) == 0 && Arc(edges, w, v)
    ensures w in done
    decreases |edges|
  {
    var e := edges[|edges| - 1];
    var s := edges[..|edges| - 1];
    assert edges == s + [e];
    if !(e.from == w && e.to == v) {
      var d :| d in edges && d.from == w && d.to == v;
      assert d in s;
      PendingZero(s, done, v, w);
    }
  }

  /** A pending edge into `v` has a source that is not done. */
  lemma {:induction false} PendingSource(edges: seq<Edge>, done: set<nat>, v: nat) returns (w: nat)
    requires Pending(edges, done, v) > 0
    ensures w !in done && Arc(edges, w, v)
    decreases |edges|
  {
    var e := edges[|edges| - 1];
    var s := edges[..|edges| - 1];
    if e.to == v && e.from !in done {
      w := e.from;
      assert e in edges;
    } else {
      w := PendingSource(s, done, v);
      var d :| d in s && d.from == w && d.to == v;
      assert d in edges;
    }
  }

  /** `inDegree[edge.to]++` for every edge. */
  method InDegrees(n: nat, edges: seq<Edge>) returns (deg: seq<int>)
    requires EdgesIn(n, edges)
    ensures |deg| == n && forall v :: 0 <= v < n ==> deg[v] == Pending(edges, {}, v)
  {
    deg := seq(n, _ => 0);
    var k := 0;
    while k < |edges|
      invariant k <= |edges| && |deg| == n
      invariant forall v :: 0 <= v < n ==> deg[v] == Pending(edges[..k], {}, v)
    {
      var e := edges[k];
      assert e in edges;
      assert edges[..k + 1][..k] == edges[..k] && edges[..k + 1][k] == e;
      deg := deg[e.to := deg[e.to] + 1];
      k := k + 1;
    }
    assert edges[..k] == edges;
  }

  /** The vertices of in-degree 0, in increasing order. */
  method Sources(deg: seq<int>) returns (queue: seq<nat>)
    ensures forall v: nat :: v in queue <==> v < |deg| && deg[v] == 0
    ensures forall i, j :: 0 <= i < j < |queue| ==> queue[i] < queue[j]
  {
    queue := [];
    var i := 0;
    while i < |deg|
      invariant i <= |deg|
      invariant forall v: nat :: v in queue <==> v < i && deg[v] == 0
      invariant forall i, j :: 0 <= i < j < |queue| ==> queue[i] < queue[j]
      invariant forall k :: 0 <= k < |queue| ==> queue[k] < i
    {
      if deg[i] == 0 {
        queue := queue + [i];
      }
      i := i + 1;
    }
  }

  /** `v`'s count was positive in `deg` and is 0 in `deg'`. */
  predicate Released(deg: seq<int>, deg': seq<int>, v: nat) {
    v < |deg| && v < |deg'| && deg[v] > 0 && deg'[v] == 0
  }

  /**
    The loop over `adjList[vertex]`: each target's in-degree drops by one per listing, and
    the targets whose count reaches 0 join the queue, once each.
   */
  method Release(deg: seq<int>, queue: seq<nat>, targets: seq<nat>) returns (deg': seq<int>, queue': seq<nat>)
    requires forall v :: v in targets ==> v < |deg|
    requires forall v :: 0 <= v < |deg| ==> multiset(targets)[v] <= deg[v]
    ensures |deg'| == |deg| && forall v :: 0 <= v < |deg| ==> deg'[v] == deg[v] - multiset(targets)[v]
    ensures |queue'| >= |queue| && queue'[..|queue|] == queue && Distinct(queue'[|queue|..])
    ensures forall v: nat :: v in queue'[|queue|..] <==> Released(deg, deg', v)
  {
    deg', queue' := deg, queue;
    var j := 0;
    while j < |targets|
      invariant j <= |targets| && |deg'| == |deg|
      invariant forall v :: 0 <= v < |deg| ==> deg'[v] == deg[v] - multiset(targets[..j])[v]
      invariant |queue'| >= |queue| && queue'[..|queue|] == queue && Distinct(queue'[|queue|..])
      invariant forall v: nat :: v in queue'[|queue|..] <==> Released(deg, deg', v)
    {
      var x := targets[j];
      assert x in targets;
      assert targets == targets[..j + 1] + targets[j + 1..];
      assert targets[..j + 1] == targets[..j] + [x];
      ghost var before := deg';
      deg' := deg'[x := deg'[x] - 1];
      if deg'[x] == 0 {
        ghost var pushed := queue'[|queue|..];
        assert x !in pushed by {
          assert !Released(deg, before, x);
        }
        DistinctSnoc(pushed, x);
        queue' := queue' + [x];
        assert queue'[|queue|..] == pushed + [x];
      }
      j := j + 1;
    }
    assert targets[..j] == targets;
  }

  /** Every arc into an emitted vertex comes from a vertex emitted before it. */
  ghost predicate Ordered(edges: seq<Edge>, result: seq<nat>) {
    forall i, u :: 0 <= i < |result| && Arc(edges, u, result[i]) ==> u in result[..i]
  }

  /**
    Between iterations: each count is the number of edges from vertices not yet emitted,
    and a vertex has been emitted or is queued exactly when its count is 0, once.
   */
  ghost predicate Draining(n: nat, edges: seq<Edge>, adj: seq<seq<nat>>, deg: seq<int>, queue: seq<nat>, result: seq<nat>) {
    && AdjOf(n, edges, adj) && |deg| == n
    && (forall v :: 0 <= v < n ==> deg[v] == Pending(edges, Elements(result), v))
    && Distinct(result + queue) && (forall x :: x in result + queue ==> x < n)
    && (forall i :: 0 <= i < |queue| ==> queue[i] < n)
    && (forall v :: 0 <= v < n ==> (v in result + queue <==> deg[v] == 0))
    && Ordered(edges, result)
  }

  lemma Start(n: nat, edges: seq<Edge>, adj: seq<seq<nat>>, deg: seq<int>, queue: seq<nat>)
    requires AdjOf(n, edges, adj) && |deg| == n
    requires forall v :: 0 <= v < n ==> deg[v] == Pending(edges, {}, v)
    requires forall v: nat :: v in queue <==> v < |deg| && deg[v] == 0
    requires forall i, j :: 0 <= i < j < |queue| ==> queue[i] < queue[j]
    ensures Draining(n, edges, adj, deg, queue, [])
  {
    assert Elements([]) == {};
    assert [] + queue == queue;
    forall i | 0 <= i < |queue| ensures queue[i] < n {
      assert queue[i] in queue;
    }
  }

  /** The counts the inner loop leaves are those of the longer result. */
  lemma Retire(n: nat, edges: seq<Edge>, adj: seq<seq<nat>>, deg: seq<int>, queue: seq<nat>, result: seq<nat>)
    requires Draining(n, edges, adj, deg, queue, result) && |queue| > 0
    ensures forall v :: v in adj[queue[0]] ==> v < n
    ensures forall v :: 0 <= v < n ==> multiset(adj[queue[0]])[v] <= deg[v]
    ensures forall v :: 0 <= v < n ==>
      deg[v] - multiset(adj[queue[0]])[v] == Pending(edges, Elements(result + [queue[0]]), v)
  {
    var u := queue[0];
    assert u in result + queue;
    assert u !in result by {
      forall k | 0 <= k < |result| ensures result[k] != u {
        assert (result + queue)[k] == result[k] && (result + queue)[|result|] == u;
      }
    }
    assert Elements(result + [u]) == Elements(result) + {u};
    forall v | v in adj[u] ensures v < n {
      ArcIn(n, edges, adj, u, v);
    }
    forall v | 0 <= v < n
      ensures deg[v] - multiset(adj[u])[v] == Pending(edges, Elements(result + [u]), v)
    {
      TargetsCount(edges, u, v);
      PendingAdd(edges, Elements(result), u, v);
    }
  }

  /** The queue after the inner loop, with the emitted vertex moved to the result. */
  lemma Requeue(n: nat, deg: seq<int>, queue: seq<nat>, result: seq<nat>, deg': seq<int>, queue': seq<nat>)
    requires |deg| == |deg'| == n && |queue| > 0
    requires Distinct(result + queue) && (forall x :: x in result + queue ==> x < n)
    requires forall v :: 0 <= v < n ==> (v in result + queue <==> deg[v] == 0)
    requires forall v :: 0 <= v < n ==> 0 <= deg'[v] <= deg[v]
    requires |queue'| >= |queue| - 1 && queue'[..|queue| - 1] == queue[1..] && Distinct(queue'[|queue| - 1..])
    requires forall v: nat :: v in queue'[|queue| - 1..] <==> Released(deg, deg', v)
    ensures Distinct((result + [queue[0]]) + queue') && forall x :: x in (result + [queue[0]]) + queue' ==> x < n
    ensures forall i :: 0 <= i < |queue'| ==> queue'[i] < n
    ensures forall v :: 0 <= v < n && v in result + queue ==> v in (result + [queue[0]]) + queue'
    ensures forall v :: 0 <= v < n && v !in result + queue ==> (v in (result + [queue[0]]) + queue' <==> deg'[v] == 0)
  {
    var old_ := result + queue;
    var pushed := queue'[|queue| - 1..];
    var s := (result + [queue[0]]) + queue';
    assert s == old_ + pushed by {
      assert queue' == queue'[..|queue| - 1] + pushed;
      assert queue == [queue[0]] + queue[1..];
    }
    forall x | x in pushed ensures x < n && x !in old_ && deg'[x] == 0 {
      assert Released(deg, deg', x);
    }
    forall x | x in s ensures x < n {
      assert x in old_ || x in pushed;
    }
    forall i | 0 <= i < |queue'| ensures queue'[i] < n {
      assert queue'[i] == s[|result| + 1 + i];
      assert s[|result| + 1 + i] in s;
    }
    forall i, j | 0 <= i < j < |s| ensures s[i] != s[j] {
      if j >= |old_| && i < |old_| {
        assert s[j] == pushed[j - |old_|] && s[i] == old_[i];
        assert s[j] in pushed && s[i] in old_;
      } else if i >= |old_| {
        assert s[i] == pushed[i - |old_|] && s[j] == pushed[j - |old_|];
      } else {
        assert s[i] == old_[i] && s[j] == old_[j];
      }
    }
    forall v | 0 <= v < n && v !in old_ ensures v in s <==> deg'[v] == 0 {
      if deg'[v] == 0 {
        assert Released(deg, deg', v);
      }
      if v in s {
        assert v in pushed;
      }
    }
  }

  /** One iteration of the outer loop. */
  method Step(n: nat, edges: seq<Edge>, adj: seq<seq<nat>>, deg: seq<int>, queue: seq<nat>, result: seq<nat>)
    returns (deg': seq<int>, queue': seq<nat>, result': seq<nat>)
    requires Draining(n, edges, adj, deg, queue, result) && |queue| > 0
    ensures Draining(n, edges, adj, deg', queue', result') && |result'| == |result| + 1
  {
    var vertex := queue[0];
    Retire(n, edges, adj, deg, queue, result);
    deg', queue' := Release(deg, queue[1..], adj[vertex]);
    result' := result + [vertex];
    Requeue(n, deg, queue, result, deg', queue');
    Emitted(n, edges, adj, deg, queue, result);
  }

  /** The emitted vertex has no pending edge, so every arc into it comes from the result. */
  lemma Emitted(n: nat, edges: seq<Edge>, adj: seq<seq<nat>>, deg: seq<int>, queue: seq<nat>, result: seq<nat>)
    requires Draining(n, edges, adj, deg, queue, result) && |queue| > 0
    ensures Ordered(edges, result + [queue[0]])
  {
    var u := queue[0];
    var r := result + [u];
    assert u in result + queue;
    forall i, w | 0 <= i < |r| && Arc(edges, w, r[i]) ensures w in r[..i] {
      if i < |result| {
        assert r[i] == result[i] && r[..i] == result[..i];
      } else {
        assert r[..i] == result;
        PendingZero(edges, Elements(result), u, w);
      }
    }
  }

  /** A vertex left over when the queue runs dry closes a cycle. */
  lemma Stuck(n: nat, edges: seq<Edge>, result: seq<nat>)
    requires EdgesIn(n, edges) && Distinct(result) && (forall x :: x in result ==> x < n) && |result| != n
    requires forall v :: 0 <= v < n && v !in result ==> Pending(edges, Elements(result), v) > 0
    ensures !Dag(edges)
  {
    DistinctBound(result, n);
    var v :| 0 <= v < n && v !in result;
    var q := Backwards(n, edges, result, v, n);
    var i, j := Pigeonhole(q, n);
    var r := Reverse(q[i..j + 1]);
    forall t | 0 <= t < |r| - 1 ensures Arc(edges, r[t], r[t + 1]) {
      assert r[t] == q[j - t] && r[t + 1] == q[j - t - 1];
    }
    assert DWalk(edges, r) && |r| > 1 && r[0] == r[|r| - 1];
  }

  /** `k` steps backwards along arcs from `v`, never reaching an emitted vertex. */
  lemma {:induction false} Backwards(n: nat, edges: seq<Edge>, result: seq<nat>, v: nat, k: nat) returns (q: seq<nat>)
    requires EdgesIn(n, edges) && v < n && v !in result
    requires forall v :: 0 <= v < n && v !in result ==> Pending(edges, Elements(result), v) > 0
    ensures |q| == k + 1 && q[0] == v
    ensures forall x :: x in q ==> x < n && x !in result
    ensures forall i :: 0 <= i < k ==> Arc(edges, q[i + 1], q[i])
    decreases k
  {
    if k == 0 {
      q := [v];
    } else {
      var p := Backwards(n, edges, result, v, k - 1);
      var last := p[k - 1];
      var w := PendingSource(edges, Elements(result), last);
      var e :| e in edges && e.from == w && e.to == last;
      q := p + [w];
      forall i | 0 <= i < k ensures Arc(edges, q[i + 1], q[i]) {
        if i < k - 1 {
          assert q[i] == p[i] && q[i + 1] == p[i + 1];
        }
      }
    }
  }

  /**
    `topologicalSortKahn`: on an acyclic graph, every vertex exactly once with every arc's
    source first; on a graph with a cycle, the error.
   */
  method TopologicalSortKahn(n: nat, edges: seq<Edge>) returns (r: Result<seq<nat>>)
    requires EdgesIn(n, edges)
    ensures r.Ok? <==> Dag(edges)
    ensures r.Ok? ==> Permutation(r.value, n) && Respects(edges, r.value)
    ensures r.Err? ==> r.message == CycleMessage
  {
    var deg := InDegrees(n, edges);
    var adj := BuildAdjacency(n, edges);
    var result := [];
    var queue := Sources(deg);
    Start(n, edges, adj, deg, queue);
    while |queue| > 0
      invariant Draining(n, edges, adj, deg, queue, result)
      decreases n - |result|
    {
      DistinctBound(result + queue, n);
      deg, queue, result := Step(n, edges, adj, deg, queue, result);
    }
    assert result + queue == result;
    if |result| != n {
      Stuck(n, edges, result);
      return Err(CycleMessage);
    }
    DistinctBound(result, n);
    Listed(edges, result);
    return Ok(result);
  }

  /** A complete ordered result respects every arc. */
  lemma Listed(edges: seq<Edge>, result: seq<nat>)
    requires Distinct(result) && Ordered(edges, result)
    requires forall e :: e in edges ==> e.from in result && e.to in result
    ensures Respects(edges, result) && Dag(edges)
  {
    forall i, j | 0 <= i < |result| && 0 <= j < |result| && Arc(edges, result[i], result[j]) ensures i < j {
      assert result[i] in result[..j];
      var k :| 0 <= k < j && result[k] == result[i];
    }
    RespectsDag(edges, result);
  }
}
