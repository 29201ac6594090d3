/**
  Breadth-first (`bfs`) and depth-first (`dfs`) search on the grid. The two functions
  are the same loop and differ only in which end of the frontier the next node is taken
  from: `queue.shift()` for BFS, `stack.pop()` for DFS; both push at the back. A node is
  marked visited, and its predecessor set, when it is pushed, so walls are pushed too and
  only skipped when they are taken off the frontier.
 */
module FrontierSearch {
  import opened Wrappers
  import opened Grid
  import opened Chains

  /** Which end of the frontier the next node comes from. */
  datatype Discipline = Fifo | Lifo

  /** `queue.shift()` or `stack.pop()`: the node taken and the frontier left. */
  function Pop(d: Discipline, frontier: seq<Coord>): (r: (Coord, seq<Coord>))
    requires |frontier| > 0
    ensures d.Fifo? ==> frontier == [r.0] + r.1
    ensures d.Lifo? ==> frontier == r.1 + [r.0]
  {
    match d
    case Fifo => (frontier[0], frontier[1..])
    case Lifo => (frontier[|frontier| - 1], frontier[..|frontier| - 1])
  }

  /** `neighbor.isVisited = true; neighbor.previousNode = currentNode`. */
  function Mark(g: Grid, c: Coord, from: Coord): Grid
    requires InBounds(g, c)
  {
    Set(g, c, At(g, c).(isVisited := true, previous := Some(from)))
  }

  /**
    The `for (const neighbor of neighbors)` loop, without the pushes: every listed node is
    marked visited with predecessor `from`, every other node is unchanged.
   */
  function MarkAll(g: Grid, ns: seq<Coord>, from: Coord): (r: Grid)
    requires forall d :: d in ns ==> InBounds(g, d)
    ensures SameLayout(g, r)
    ensures forall d :: InBounds(g, d) ==>
      (InBounds(r, d) && At(r, d) == if d in ns then At(g, d).(isVisited := true, previous := Some(from)) else At(g, d))
    decreases |ns|
  {
    if |ns| == 0 then g
    else
      var g1 := Mark(g, ns[0], from);
      SetSameLayout(g, ns[0], At(g, ns[0]).(isVisited := true, previous := Some(from)));
      var r := MarkAll(g1, ns[1..], from);
      SameLayoutTrans(g, g1, r);
      r
  }

  /** Marking `k` distinct unvisited nodes lowers the unvisited count by `k`. */
  lemma {:induction false} MarkAllCount(g: Grid, ns: seq<Coord>, from: Coord)
    requires forall d :: d in ns ==> InBounds(g, d) && !At(g, d).isVisited
    requires Distinct(ns)
    ensures UnvisitedCount(MarkAll(g, ns, from)) + |ns| == UnvisitedCount(g)
    decreases |ns|
  {
    if |ns| > 0 {
      var g1 := Mark(g, ns[0], from);
      VisitCount(g, ns[0], At(g, ns[0]).(isVisited := true, previous := Some(from)));
      forall d | d in ns[1..] ensures InBounds(g1, d) && !At(g1, d).isVisited {
        assert d != ns[0];
      }
      MarkAllCount(g1, ns[1..], from);
    }
  }

  lemma OrderedDistinct(c: Coord, s: seq<Coord>)
    requires DirectionOrdered(c, s)
    ensures Distinct(s)
  {
  }

  // The loop state is the grid, the frontier and the visited order. A node that is
  // visited but on neither list has been taken off the frontier as a wall.

  /** Frontier nodes are visited grid nodes, each listed once. */
  ghost predicate FrontierOk(g: Grid, frontier: seq<Coord>) {
    && (forall x :: x in frontier ==> InBounds(g, x) && At(g, x).isVisited)
    && Distinct(frontier)
  }

  /** Nodes of the visited order are visited, not walls, listed once, and off the frontier. */
  ghost predicate OrderOk(g: Grid, frontier: seq<Coord>, order: seq<Coord>) {
    && (forall x :: x in order ==> InBounds(g, x) && At(g, x).isVisited && !At(g, x).isWall && x !in frontier)
    && Distinct(order)
  }

  /** A visited node that is not a wall is in the visited order or still on the frontier. */
  ghost predicate Covered(g: Grid, frontier: seq<Coord>, order: seq<Coord>) {
    forall c :: InBounds(g, c) && At(g, c).isVisited && !At(g, c).isWall ==> c in order || c in frontier
  }

  /** The start node is visited, has no predecessor, and is the first node of the visited order. */
  ghost predicate StartOk(g: Grid, start: Coord, frontier: seq<Coord>, order: seq<Coord>) {
    && InBounds(g, start) && At(g, start).isVisited && At(g, start).previous == None
    && (|order| > 0 ==> order[0] == start)
    && (|order| == 0 ==> forall x :: x in frontier ==> x == start)
  }

  /** A frontier node other than the start has a predecessor. */
  ghost predicate FrontierLinked(g: Grid, start: Coord, frontier: seq<Coord>) {
    forall x :: x in frontier && x != start && InBounds(g, x) ==> At(g, x).previous.Some?
  }

  /** Every neighbour of a node of the visited order has been pushed. */
  ghost predicate Closed(g: Grid, order: seq<Coord>) {
    forall x, y :: x in order && InBounds(g, y) && Adjacent(x, y) ==> At(g, y).isVisited
  }

  ghost predicate Invariant(g0: Grid, start: Coord, g: Grid, frontier: seq<Coord>, order: seq<Coord>) {
    && WellFormed(g0) && SameLayout(g0, g) && WellFormed(g)
    && FrontierOk(g, frontier) && OrderOk(g, frontier, order) && Covered(g, frontier, order)
    && StartOk(g, start, frontier, order) && LinksOk(g, order)
    && OrderLinked(g, start, order) && FrontierLinked(g, start, frontier)
  }

  /** `frontier` less its node `c` is `rest`. */
  ghost predicate Without(frontier: seq<Coord>, c: Coord, rest: seq<Coord>) {
    && Distinct(rest) && c !in rest && |rest| == |frontier| - 1
    && forall x :: x in frontier <==> x == c || x in rest
  }

  lemma PopSplit(frontier: seq<Coord>, pre: seq<Coord>, c: Coord, post: seq<Coord>)
    requires frontier == pre + [c] + post && Distinct(frontier)
    ensures Without(frontier, c, pre + post)
  {
    var rest := pre + post;
    forall i, j | 0 <= i < j < |rest| ensures rest[i] != rest[j] {
      var i' := if i < |pre| then i else i + 1;
      var j' := if j < |pre| then j else j + 1;
      assert rest[i] == frontier[i'] && rest[j] == frontier[j'];
    }
    forall k | 0 <= k < |rest| ensures rest[k] != c {
      var k' := if k < |pre| then k else k + 1;
      assert rest[k] == frontier[k'] && c == frontier[|pre|];
    }
  }

  lemma PopFacts(d: Discipline, frontier: seq<Coord>)
    requires |frontier| > 0 && Distinct(frontier)
    ensures Without(frontier, Pop(d, frontier).0, Pop(d, frontier).1)
  {
    var (c, rest) := Pop(d, frontier);
    if d.Fifo? {
      assert frontier == [] + [c] + rest;
      PopSplit(frontier, [], c, rest);
      assert [] + rest == rest;
    } else {
      assert frontier == rest + [c] + [];
      PopSplit(frontier, rest, c, []);
      assert rest + [] == rest;
    }
  }

  /** A wall taken off the frontier is dropped. */
  lemma SkipWall(g0: Grid, start: Coord, g: Grid, frontier: seq<Coord>, order: seq<Coord>, c: Coord, rest: seq<Coord>)
    requires Invariant(g0, start, g, frontier, order) && Without(frontier, c, rest)
    requires InBounds(g, c) && At(g, c).isWall
    ensures Invariant(g0, start, g, rest, order)
  {
  }

  /** A node that is not a wall, taken off the frontier, joins the visited order. */
  lemma Visit(g0: Grid, start: Coord, g: Grid, frontier: seq<Coord>, order: seq<Coord>, c: Coord, rest: seq<Coord>)
    requires Invariant(g0, start, g, frontier, order) && Without(frontier, c, rest)
    requires InBounds(g, c) && !At(g, c).isWall
    ensures Invariant(g0, start, g, rest, order + [c])
  {
    VisitFrontier(g, frontier, c, rest);
    VisitOrder(g, frontier, order, c, rest);
    VisitCovered(g, frontier, order, c, rest);
    VisitStart(g, start, frontier, order, c, rest);
    VisitLinks(g, order, c);
    VisitLinked(g, start, frontier, order, c);
    VisitFrontierLinked(g, start, frontier, c, rest);
  }

  lemma VisitFrontier(g: Grid, frontier: seq<Coord>, c: Coord, rest: seq<Coord>)
    requires FrontierOk(g, frontier) && Without(frontier, c, rest)
    ensures FrontierOk(g, rest)
  {
  }

  lemma VisitOrder(g: Grid, frontier: seq<Coord>, order: seq<Coord>, c: Coord, rest: seq<Coord>)
    requires FrontierOk(g, frontier) && OrderOk(g, frontier, order) && Without(frontier, c, rest)
    requires InBounds(g, c) && !At(g, c).isWall
    ensures OrderOk(g, rest, order + [c])
  {
    var order' := order + [c];
    assert forall x :: x in order' <==> x in order || x == c;
    forall i, j | 0 <= i < j < |order'| ensures order'[i] != order'[j] {
      if j == |order| {
        assert order'[i] in order;
      }
    }
  }

  lemma VisitCovered(g: Grid, frontier: seq<Coord>, order: seq<Coord>, c: Coord, rest: seq<Coord>)
    requires Covered(g, frontier, order) && Without(frontier, c, rest)
    ensures Covered(g, rest, order + [c])
  {
    var order' := order + [c];
    assert forall x :: x in order' <==> x in order || x == c;
  }

  lemma VisitStart(g: Grid, start: Coord, frontier: seq<Coord>, order: seq<Coord>, c: Coord, rest: seq<Coord>)
    requires StartOk(g, start, frontier, order) && Without(frontier, c, rest)
    ensures StartOk(g, start, rest, order + [c])
  {
    if |order| == 0 {
      assert c in frontier;
    }
  }

  lemma VisitLinks(g: Grid, order: seq<Coord>, c: Coord)
    requires LinksOk(g, order)
    ensures LinksOk(g, order + [c])
  {
    assert forall x :: x in order ==> x in order + [c];
  }

  lemma VisitFrontierLinked(g: Grid, start: Coord, frontier: seq<Coord>, c: Coord, rest: seq<Coord>)
    requires FrontierLinked(g, start, frontier) && Without(frontier, c, rest)
    ensures FrontierLinked(g, start, rest)
  {
  }

  lemma VisitLinked(g: Grid, start: Coord, frontier: seq<Coord>, order: seq<Coord>, c: Coord)
    requires OrderLinked(g, start, order) && FrontierLinked(g, start, frontier) && LinksOk(g, order)
    requires c in frontier && InBounds(g, c)
    ensures OrderLinked(g, start, order + [c])
  {
    var order' := order + [c];
    forall i | 0 <= i < |order'| && order'[i] != start && InBounds(g, order'[i])
      ensures At(g, order'[i]).previous.Some? && At(g, order'[i]).previous.value in order'[..i]
    {
      if i < |order| {
        assert order'[..i] == order[..i];
      } else {
        assert order'[..i] == order;
      }
    }
  }

  // Pushing the unvisited neighbours `ns` of the last visited node `c`, one invariant at a time.

  /** What the push lemmas share: `ns` lists the unvisited neighbours of `c`, and `g'` has them marked. */
  ghost predicate Pushed(g: Grid, c: Coord, ns: seq<Coord>, g': Grid) {
    && WellFormed(g) && InBounds(g, c)
    && (forall d :: d in ns <==> InBounds(g, d) && Adjacent(c, d) && !At(g, d).isVisited)
    && Distinct(ns)
    && g' == MarkAll(g, ns, c)
  }

  lemma PushFrontier(g: Grid, c: Coord, ns: seq<Coord>, g': Grid, rest: seq<Coord>)
    requires Pushed(g, c, ns, g') && FrontierOk(g, rest)
    ensures FrontierOk(g', rest + ns)
  {
    var f := rest + ns;
    forall i, j | 0 <= i < j < |f| ensures f[i] != f[j] {
      if i < |rest| && j >= |rest| {
        assert f[i] in rest && f[j] == ns[j - |rest|];
      } else if i >= |rest| {
        assert f[i] == ns[i - |rest|] && f[j] == ns[j - |rest|];
      }
    }
  }

  lemma PushOrder(g: Grid, c: Coord, ns: seq<Coord>, g': Grid, rest: seq<Coord>, order: seq<Coord>)
    requires Pushed(g, c, ns, g') && OrderOk(g, rest, order)
    ensures OrderOk(g', rest + ns, order)
  {
    forall x | x in order ensures x !in rest + ns {
      assert At(g, x).isVisited;
    }
  }

  lemma PushCovered(g: Grid, c: Coord, ns: seq<Coord>, g': Grid, rest: seq<Coord>, order: seq<Coord>)
    requires Pushed(g, c, ns, g') && Covered(g, rest, order)
    ensures Covered(g', rest + ns, order)
  {
    forall x | InBounds(g', x) && At(g', x).isVisited && !At(g', x).isWall ensures x in order || x in rest + ns {
      assert InBounds(g, x);
    }
  }

  lemma PushStart(g: Grid, start: Coord, c: Coord, ns: seq<Coord>, g': Grid, rest: seq<Coord>, order: seq<Coord>)
    requires Pushed(g, c, ns, g') && StartOk(g, start, rest, order) && |order| > 0
    ensures StartOk(g', start, rest + ns, order)
  {
    assert start !in ns;
  }

  lemma PushLinks(g: Grid, c: Coord, ns: seq<Coord>, g': Grid, order: seq<Coord>)
    requires Pushed(g, c, ns, g') && LinksOk(g, order) && c in order
    ensures LinksOk(g', order)
  {
    forall x | InBounds(g', x) && At(g', x).previous.Some?
      ensures Adjacent(x, At(g', x).previous.value) && At(g', x).previous.value in order
    {
      assert InBounds(g, x);
    }
  }

  lemma PushOrderLinked(g: Grid, start: Coord, c: Coord, ns: seq<Coord>, g': Grid, order: seq<Coord>)
    requires Pushed(g, c, ns, g') && OrderLinked(g, start, order)
    requires forall x :: x in order ==> InBounds(g, x) && At(g, x).isVisited
    ensures OrderLinked(g', start, order)
  {
    forall i | 0 <= i < |order| && order[i] != start && InBounds(g', order[i])
      ensures At(g', order[i]).previous.Some? && At(g', order[i]).previous.value in order[..i]
    {
      assert order[i] in order;
      assert At(g', order[i]) == At(g, order[i]);
    }
  }

  lemma PushFrontierLinked(g: Grid, start: Coord, c: Coord, ns: seq<Coord>, g': Grid, rest: seq<Coord>)
    requires Pushed(g, c, ns, g') && FrontierLinked(g, start, rest)
    requires forall x :: x in rest ==> InBounds(g, x) && At(g, x).isVisited
    ensures FrontierLinked(g', start, rest + ns)
  {
    forall x | x in rest + ns && x != start && InBounds(g', x) ensures At(g', x).previous.Some? {
      assert InBounds(g, x);
    }
  }

  lemma PushClosed(g: Grid, c: Coord, ns: seq<Coord>, g': Grid, order: seq<Coord>)
    requires Pushed(g, c, ns, g') && Closed(g, order)
    ensures Closed(g', order + [c])
  {
    forall x, y | x in order + [c] && InBounds(g', y) && Adjacent(x, y) ensures At(g', y).isVisited {
      assert InBounds(g, y);
      if x != c {
        assert x in order;
      }
    }
  }

  /** Pushing the neighbours of the last visited node restores the invariant and closes it. */
  lemma Push(g0: Grid, start: Coord, g: Grid, rest: seq<Coord>, order: seq<Coord>, c: Coord)
    requires Invariant(g0, start, g, rest, order + [c]) && Closed(g, order)
    ensures InBounds(g, c)
    ensures var ns := UnvisitedNeighbors(g, c);
            var g' := MarkAll(g, ns, c);
            && Invariant(g0, start, g', rest + ns, order + [c])
            && Closed(g', order + [c])
            && UnvisitedCount(g') + |ns| == UnvisitedCount(g)
  {
    var order' := order + [c];
    assert c in order';
    var ns := UnvisitedNeighbors(g, c);
    var g' := MarkAll(g, ns, c);
    OrderedDistinct(c, ns);
    MarkAllCount(g, ns, c);
    SameLayoutTrans(g0, g, g');
    SameLayoutWellFormed(g0, g');
    PushFrontier(g, c, ns, g', rest);
    PushOrder(g, c, ns, g', rest, order');
    PushCovered(g, c, ns, g', rest, order');
    PushStart(g, start, c, ns, g', rest, order');
    PushLinks(g, c, ns, g', order');
    PushOrderLinked(g, start, c, ns, g', order');
    PushFrontierLinked(g, start, c, ns, g', rest);
    PushClosed(g, c, ns, g', order);
  }

  // Breadth-first levels. `depth` is ghost bookkeeping: the number of steps from the start
  // at which each visited node was first reached. `level` is the depth of the node taken
  // off the queue last: the queue holds nodes of that level followed by nodes one deeper,
  // which is what makes every predecessor link a shortest one.

  /** `depth` with every node of `ns` given depth `v`. */
  ghost function Assign(depth: map<Coord, nat>, ns: seq<Coord>, v: nat): (r: map<Coord, nat>)
    ensures forall x :: x in r <==> x in depth || x in ns
    ensures forall x :: x in r ==> r[x] == if x in ns then v else depth[x]
  {
    map x | x in depth.Keys + (set n | n in ns) :: if x in ns then v else depth[x]
  }

  /** Every visited node has a depth; the start's is 0, any other is its predecessor's plus one. */
  ghost predicate Depths(g: Grid, start: Coord, depth: map<Coord, nat>) {
    && InBounds(g, start) && At(g, start).isVisited && start in depth && depth[start] == 0
    && (forall x :: InBounds(g, x) && At(g, x).isVisited ==> x in depth)
    && (forall x :: InBounds(g, x) && At(g, x).isVisited && At(g, x).previous.Some? ==>
          var q := At(g, x).previous.value;
          InBounds(g, q) && At(g, q).isVisited && x in depth && q in depth && depth[x] == depth[q] + 1)
  }

  /** The queue is in non-decreasing depth. */
  ghost predicate Sorted(depth: map<Coord, nat>, frontier: seq<Coord>) {
    forall i, j :: 0 <= i < j < |frontier| ==> frontier[i] in depth && frontier[j] in depth && depth[frontier[i]] <= depth[frontier[j]]
  }

  /**
    Queued nodes are at `level` or one deeper, in non-decreasing depth; listed nodes are at
    most at `level`, and visited nodes at most one deeper.
   */
  ghost predicate Layered(g: Grid, depth: map<Coord, nat>, level: nat, frontier: seq<Coord>, order: seq<Coord>) {
    && (forall x :: x in frontier ==> x in depth && level <= depth[x] <= level + 1)
    && Sorted(depth, frontier)
    && (forall x :: x in order ==> x in depth && depth[x] <= level)
    && (forall x :: InBounds(g, x) && At(g, x).isVisited && x in depth ==> depth[x] <= level + 1)
  }

  /** Every neighbour of a node of `done` is at most one deeper than it. */
  ghost predicate LevelClosed(g: Grid, depth: map<Coord, nat>, done: seq<Coord>) {
    forall x, y :: x in done && InBounds(g, y) && Adjacent(x, y) ==> x in depth && y in depth && depth[y] <= depth[x] + 1
  }

  /** The breadth-first loop invariant; depth-first search keeps no levels. */
  ghost predicate Levels(d: Discipline, g: Grid, start: Coord, depth: map<Coord, nat>, level: nat,
                         frontier: seq<Coord>, order: seq<Coord>) {
    d.Fifo? ==> Depths(g, start, depth) && Layered(g, depth, level, frontier, order) && LevelClosed(g, depth, order)
  }

  /**
    Breadth-first search has just taken the end node off the queue: the nodes visited
    before it are closed, and no node still queued is shallower than it.
   */
  ghost predicate Found(g: Grid, start: Coord, end: Coord, depth: map<Coord, nat>, rest: seq<Coord>, before: seq<Coord>) {
    && Depths(g, start, depth) && Closed(g, before) && LevelClosed(g, depth, before)
    && end in depth && forall y :: y in rest ==> y in depth && depth[end] <= depth[y]
  }

  lemma LevelsInit(g: Grid, start: Coord)
    requires InBounds(g, start) && At(g, start).isVisited && At(g, start).previous == None
    requires forall x :: InBounds(g, x) && At(g, x).isVisited ==> x == start
    ensures Depths(g, start, map[start := 0]) && Layered(g, map[start := 0], 0, [start], [])
    ensures LevelClosed(g, map[start := 0], [])
  {
  }

  /** Taking the head off the queue makes its depth the level, whether it is dropped or listed. */
  lemma LevelsPop(g: Grid, depth: map<Coord, nat>, level: nat, c: Coord, rest: seq<Coord>, order: seq<Coord>)
    requires Layered(g, depth, level, [c] + rest, order)
    ensures c in depth && level <= depth[c]
    ensures forall y :: y in rest ==> y in depth && depth[c] <= depth[y]
    ensures Layered(g, depth, depth[c], rest, order)
    ensures Layered(g, depth, depth[c], rest, order + [c])
  {
    var f := [c] + rest;
    assert f[0] == c && c in f;
    forall i, j | 0 <= i < j < |rest| ensures rest[i] in depth && rest[j] in depth && depth[rest[i]] <= depth[rest[j]] {
      assert rest[i] == f[i + 1] && rest[j] == f[j + 1];
    }
    forall y | y in rest ensures y in depth && depth[c] <= depth[y] <= depth[c] + 1 {
      var j :| 0 <= j < |rest| && rest[j] == y;
      assert f[j + 1] == y;
    }
    assert forall x :: x in order + [c] <==> x in order || x == c;
  }

  /** Pushing the unvisited neighbours of the head one level deeper keeps the levels. */
  lemma LevelsPush(g: Grid, start: Coord, depth: map<Coord, nat>, c: Coord, ns: seq<Coord>, g': Grid,
                   rest: seq<Coord>, order: seq<Coord>)
    requires Pushed(g, c, ns, g') && At(g, c).isVisited && c in depth
    requires Depths(g, start, depth) && Layered(g, depth, depth[c], rest, order + [c]) && LevelClosed(g, depth, order)
    requires Closed(g, order) && forall x :: x in order ==> InBounds(g, x) && At(g, x).isVisited
    requires forall x :: x in rest ==> InBounds(g, x) && At(g, x).isVisited
    ensures var depth' := Assign(depth, ns, depth[c] + 1);
            && Depths(g', start, depth')
            && Layered(g', depth', depth[c], rest + ns, order + [c])
            && LevelClosed(g', depth', order + [c])
  {
    LevelsPushDepths(g, start, depth, c, ns, g');
    PushedVisited(g, c, ns, g');
    LevelsPushLayered(g, depth, c, ns, g', rest, order);
    LevelsPushClosed(g, start, depth, c, ns, g', order);
  }

  lemma LevelsPushDepths(g: Grid, start: Coord, depth: map<Coord, nat>, c: Coord, ns: seq<Coord>, g': Grid)
    requires Pushed(g, c, ns, g') && At(g, c).isVisited && Depths(g, start, depth)
    ensures c in depth && Depths(g', start, Assign(depth, ns, depth[c] + 1))
  {
    var depth' := Assign(depth, ns, depth[c] + 1);
    assert c !in ns && depth'[c] == depth[c];
    assert InBounds(g, start) && start !in ns;
    forall x | InBounds(g', x) && At(g', x).isVisited && At(g', x).previous.Some?
      ensures var q := At(g', x).previous.value;
              InBounds(g', q) && At(g', q).isVisited && x in depth' && q in depth' && depth'[x] == depth'[q] + 1
    {
      assert InBounds(g, x);
    }
    forall x | InBounds(g', x) && At(g', x).isVisited ensures x in depth' {
      assert InBounds(g, x);
    }
  }

  /** What marking the neighbours changes about visited nodes: exactly the listed ones become visited. */
  lemma PushedVisited(g: Grid, c: Coord, ns: seq<Coord>, g': Grid)
    requires Pushed(g, c, ns, g')
    ensures SameLayout(g, g') && |g| > 0
    ensures forall x :: InBounds(g', x) && At(g', x).isVisited ==> x in ns || (InBounds(g, x) && At(g, x).isVisited)
    ensures forall x :: InBounds(g, x) && At(g, x).isVisited ==> x !in ns
  {
    forall x | InBounds(g', x) && At(g', x).isVisited ensures x in ns || (InBounds(g, x) && At(g, x).isVisited) {
      assert InBounds(g, x);
    }
  }

  lemma LevelsPushLayered(g: Grid, depth: map<Coord, nat>, c: Coord, ns: seq<Coord>, g': Grid,
                          rest: seq<Coord>, order: seq<Coord>)
    requires SameLayout(g, g') && |g| > 0
    requires forall x :: InBounds(g', x) && At(g', x).isVisited ==> x in ns || (InBounds(g, x) && At(g, x).isVisited)
    requires forall x :: InBounds(g, x) && At(g, x).isVisited ==> x !in ns
    requires c in depth && Layered(g, depth, depth[c], rest, order + [c])
    requires forall x :: x in order + [c] ==> InBounds(g, x) && At(g, x).isVisited
    requires forall x :: x in rest ==> InBounds(g, x) && At(g, x).isVisited
    ensures Layered(g', Assign(depth, ns, depth[c] + 1), depth[c], rest + ns, order + [c])
  {
    var v := depth[c] + 1;
    var depth' := Assign(depth, ns, v);
    assert forall y :: y in rest ==> y !in ns;
    PushSorted(depth, ns, v, rest);
    assert forall x :: x in rest + ns <==> x in rest || x in ns;
    forall x | InBounds(g', x) && At(g', x).isVisited && x in depth' ensures depth'[x] <= v {
      if x !in ns {
        assert InBounds(g, x) && At(g, x).isVisited;
      }
    }
  }

  /** A queue of levels `v - 1` and `v`, followed by new nodes of level `v`, stays sorted. */
  lemma PushSorted(depth: map<Coord, nat>, ns: seq<Coord>, v: nat, rest: seq<Coord>)
    requires forall y :: y in rest ==> y in depth && y !in ns && depth[y] <= v
    requires Sorted(depth, rest)
    ensures Sorted(Assign(depth, ns, v), rest + ns)
  {
    var depth', f := Assign(depth, ns, v), rest + ns;
    forall i, j | 0 <= i < j < |f| ensures f[i] in depth' && f[j] in depth' && depth'[f[i]] <= depth'[f[j]] {
      if j < |rest| {
        assert f[i] == rest[i] && f[j] == rest[j];
      } else if i < |rest| {
        assert f[i] in rest && f[j] == ns[j - |rest|];
      } else {
        assert f[i] == ns[i - |rest|] && f[j] == ns[j - |rest|];
      }
    }
  }

  lemma LevelsPushClosed(g: Grid, start: Coord, depth: map<Coord, nat>, c: Coord, ns: seq<Coord>, g': Grid, order: seq<Coord>)
    requires Pushed(g, c, ns, g') && At(g, c).isVisited && c in depth
    requires Depths(g, start, depth) && Layered(g, depth, depth[c], [], order) && LevelClosed(g, depth, order)
    requires Closed(g, order) && forall x :: x in order ==> InBounds(g, x) && At(g, x).isVisited
    ensures LevelClosed(g', Assign(depth, ns, depth[c] + 1), order + [c])
  {
    var v := depth[c] + 1;
    var depth' := Assign(depth, ns, v);
    forall x, y | x in order + [c] && InBounds(g', y) && Adjacent(x, y)
      ensures x in depth' && y in depth' && depth'[y] <= depth'[x] + 1
    {
      assert InBounds(g, y) && x !in ns;
      if x != c {
        assert x in order && At(g, y).isVisited;
      } else if y !in ns {
        assert At(g, y).isVisited;
      }
    }
  }

  /** The search has not stopped: the end node is not reached and the visited order is closed. */
  ghost predicate Searching(g0: Grid, start: Coord, end: Coord, g: Grid, frontier: seq<Coord>, order: seq<Coord>) {
    Invariant(g0, start, g, frontier, order) && end !in order && Closed(g, order)
  }

  /**
    One iteration of the `while` loop: take the next node off the frontier; drop it if it
    is a wall, stop if it is the end node, otherwise push its unvisited neighbours.
   */
  method Step(d: Discipline, g0: Grid, start: Coord, end: Coord, g: Grid, frontier: seq<Coord>, order: seq<Coord>,
              ghost depth: map<Coord, nat>, ghost level: nat)
    returns (done: bool, g': Grid, frontier': seq<Coord>, order': seq<Coord>,
             ghost depth': map<Coord, nat>, ghost level': nat)
    requires |frontier| > 0 && Searching(g0, start, end, g, frontier, order)
    requires Levels(d, g, start, depth, level, frontier, order)
    ensures Invariant(g0, start, g', frontier', order')
    ensures done ==> order' == order + [end]
    ensures done && d.Fifo? ==> Found(g', start, end, depth', frontier', order)
    ensures !done ==> Searching(g0, start, end, g', frontier', order')
    ensures !done ==> Levels(d, g', start, depth', level', frontier', order')
    ensures !done ==> UnvisitedCount(g') < UnvisitedCount(g)
                      || (UnvisitedCount(g') == UnvisitedCount(g) && |frontier'| < |frontier|)
  {
    PopFacts(d, frontier);
    var (c, rest) := Pop(d, frontier);
    level' := level;
    if d.Fifo? {
      assert frontier == [c] + rest;
      LevelsPop(g, depth, level, c, rest, order);
      level' := depth[c];
    }
    done := false;
    g', depth' := g, depth;
    if At(g, c).isWall {
      SkipWall(g0, start, g, frontier, order, c, rest);
      frontier', order' := rest, order;
    } else {
      Visit(g0, start, g, frontier, order, c, rest);
      order' := order + [c];
      if c == end {
        done := true;
        frontier' := rest;
      } else {
        Push(g0, start, g, rest, order, c);
        var ns := UnvisitedNeighbors(g, c);
        g', frontier' := MarkAll(g, ns, c), rest + ns;
        if d.Fifo? {
          PushedNeighbors(g, c);
          LevelsPush(g, start, depth, c, ns, g', rest, order);
          depth' := Assign(depth, ns, depth[c] + 1);
        }
      }
    }
  }

  lemma PushedNeighbors(g: Grid, c: Coord)
    requires WellFormed(g) && InBounds(g, c)
    ensures Pushed(g, c, UnvisitedNeighbors(g, c), MarkAll(g, UnvisitedNeighbors(g, c), c))
  {
    OrderedDistinct(c, UnvisitedNeighbors(g, c));
  }

  /** `const queue = [startNode]; startNode.isVisited = true` on a grid fresh from `resetGrid`. */
  lemma Init(g0: Grid, start: Coord, end: Coord)
    requires WellFormed(g0) && Cleared(g0) && InBounds(g0, start)
    ensures Searching(g0, start, end, Set(g0, start, At(g0, start).(isVisited := true)), [start], [])
    ensures var g := Set(g0, start, At(g0, start).(isVisited := true));
            Depths(g, start, map[start := 0]) && Layered(g, map[start := 0], 0, [start], [])
            && LevelClosed(g, map[start := 0], [])
  {
    var g := Set(g0, start, At(g0, start).(isVisited := true));
    SetSameLayout(g0, start, At(g0, start).(isVisited := true));
    SameLayoutWellFormed(g0, g);
    forall c | InBounds(g, c) ensures At(g, c).previous == None && (At(g, c).isVisited ==> c == start) {
      assert InBounds(g0, c);
    }
    LevelsInit(g, start);
  }

  lemma InvariantLinked(g0: Grid, start: Coord, g: Grid, frontier: seq<Coord>, order: seq<Coord>)
    requires Invariant(g0, start, g, frontier, order)
    ensures Linked(g, start, order)
  {
  }

  /**
    When the frontier runs out, the visited order holds every node reachable from the
    start, and the start itself unless it is a wall.
   */
  lemma Exhausted(g0: Grid, start: Coord, g: Grid, order: seq<Coord>)
    requires Invariant(g0, start, g, [], order) && Closed(g, order)
    ensures !At(g0, start).isWall ==> start in order
    ensures forall y :: Reachable(g0, start, y) ==> y in order
  {
    SameLayoutWellFormed(g0, g);
    forall x, y | x in order && InBounds(g0, y) && Adjacent(x, y) && !At(g0, y).isWall ensures y in order {
      assert InBounds(g, y) && At(g, y).isVisited;
    }
    forall y | Reachable(g0, start, y) ensures y in order {
      var p :| Walk(g0, p) && p[0] == start && p[|p| - 1] == y;
      ClosedHoldsWalk(g0, order, p);
    }
  }

  /**
    `bfs` (`Fifo`) and `dfs` (`Lifo`): the visited order, and the grid with its visited
    marks and predecessor links, as `getNodesInShortestPathOrder` then reads them.
    Breadth-first search finds the end node along a shortest walk; depth-first search
    promises only some walk.
   */
  method Search(d: Discipline, g0: Grid, start: Coord, end: Coord) returns (order: seq<Coord>, g: Grid)
    requires WellFormed(g0) && Cleared(g0) && InBounds(g0, start) && InBounds(g0, end)
    ensures SameLayout(g0, g) && PreviousInBounds(g)
    ensures Distinct(order)
    ensures forall x :: x in order ==> InBounds(g0, x) && !At(g0, x).isWall && Reachable(g0, start, x)
    ensures |order| > 0 <==> !At(g0, start).isWall
    ensures |order| > 0 ==> order[0] == start
    ensures end in order <==> Reachable(g0, start, end)
    ensures end in order ==> order[|order| - 1] == end
    ensures end !in order ==> forall y :: Reachable(g0, start, y) ==> y in order
    ensures end in order ==>
      var p := PathTo(g, end, |order|);
      p.Some? && p.value[0] == start && Walk(g0, p.value) && forall y :: y in p.value ==> y in order
    ensures d.Fifo? && end in order ==>
      forall p :: Walk(g0, p) && p[0] == start && p[|p| - 1] == end ==> |PathTo(g, end, |order|).value| <= |p|
  {
    g := Set(g0, start, At(g0, start).(isVisited := true));
    Init(g0, start, end);
    var frontier := [start];
    order := [];
    ghost var depth: map<Coord, nat> := map[start := 0];
    ghost var level: nat := 0;
    while |frontier| > 0
      invariant Searching(g0, start, end, g, frontier, order)
      invariant Levels(d, g, start, depth, level, frontier, order)
      decreases UnvisitedCount(g), |frontier|
    {
      var done;
      ghost var before := order;
      done, g, frontier, order, depth, level := Step(d, g0, start, end, g, frontier, order, depth, level);
      if done {
        Conclude(d, g0, start, end, g, depth, frontier, order, before);
        return;
      }
    }
    Conclude(d, g0, start, end, g, depth, frontier, order, order);
  }

  /** The search ends either at the end node or with the frontier empty. */
  lemma Conclude(d: Discipline, g0: Grid, start: Coord, end: Coord, g: Grid, depth: map<Coord, nat>,
                 frontier: seq<Coord>, order: seq<Coord>, before: seq<Coord>)
    requires Invariant(g0, start, g, frontier, order)
    requires || (order == before + [end] && end !in before && (d.Fifo? ==> Found(g, start, end, depth, frontier, before)))
             || (frontier == [] && end !in order && Closed(g, order))
    ensures SameLayout(g0, g) && PreviousInBounds(g)
    ensures Distinct(order)
    ensures forall x :: x in order ==> InBounds(g0, x) && !At(g0, x).isWall && Reachable(g0, start, x)
    ensures |order| > 0 <==> !At(g0, start).isWall
    ensures |order| > 0 ==> order[0] == start
    ensures end in order <==> Reachable(g0, start, end)
    ensures end in order ==> order[|order| - 1] == end
    ensures end !in order ==> forall y :: Reachable(g0, start, y) ==> y in order
    ensures end in order ==>
      var p := PathTo(g, end, |order|);
      p.Some? && p.value[0] == start && Walk(g0, p.value) && forall y :: y in p.value ==> y in order
    ensures d.Fifo? && end in order ==>
      forall p :: Walk(g0, p) && p[0] == start && p[|p| - 1] == end ==> |PathTo(g, end, |order|).value| <= |p|
  {
    InvariantLinked(g0, start, g, frontier, order);
    ChainsFromStart(g0, g, start, order);
    if end !in order {
      Exhausted(g0, start, g, order);
    } else {
      assert end in before + [end];
      if d.Fifo? {
        BfsShortest(g0, start, end, g, depth, frontier, before);
      }
    }
  }

  /** Following predecessors back from a visited node to the start takes exactly its depth in steps. */
  lemma {:induction false} LevelChain(g: Grid, start: Coord, depth: map<Coord, nat>, c: Coord, fuel: nat)
    requires PreviousInBounds(g) && InBounds(g, c) && At(g, c).isVisited && Depths(g, start, depth)
    requires PathTo(g, c, fuel).Some? && PathTo(g, c, fuel).value[0] == start
    ensures c in depth && |PathTo(g, c, fuel).value| == depth[c] + 1
    decreases fuel
  {
    match At(g, c).previous
    case None =>
    case Some(q) =>
      var pq := PathTo(g, q, fuel - 1).value;
      assert (pq + [c])[0] == pq[0];
      LevelChain(g, start, depth, q, fuel - 1);
  }

  /** Along a walk from the start whose first `k` nodes are closed, the `k`-th is visited within depth `k`. */
  lemma {:induction false} LevelPrefix(g: Grid, start: Coord, depth: map<Coord, nat>, done: seq<Coord>, p: seq<Coord>, k: nat)
    requires Depths(g, start, depth) && Closed(g, done) && LevelClosed(g, depth, done)
    requires Walk(g, p) && p[0] == start && k < |p|
    requires forall i :: 0 <= i < k ==> p[i] in done
    ensures At(g, p[k]).isVisited && p[k] in depth && depth[p[k]] <= k
    decreases k
  {
    if k > 0 {
      LevelPrefix(g, start, depth, done, p, k - 1);
      assert p[k - 1] in done && Adjacent(p[k - 1], p[k]);
    }
  }

  /**
    A node outside the closed set `done` that is no deeper than any visited wall-free
    node outside `done` is at most as deep as the length of any walk to it.
   */
  lemma LevelWalk(g: Grid, start: Coord, depth: map<Coord, nat>, done: seq<Coord>, x: Coord, p: seq<Coord>)
    requires Depths(g, start, depth) && Closed(g, done) && LevelClosed(g, depth, done)
    requires Walk(g, p) && p[0] == start && p[|p| - 1] == x && x !in done && x in depth
    requires forall y :: InBounds(g, y) && At(g, y).isVisited && !At(g, y).isWall && y !in done ==>
      y in depth && depth[x] <= depth[y]
    ensures depth[x] + 1 <= |p|
  {
    var k := 0;
    while p[k] in done
      invariant 0 <= k < |p| && forall i :: 0 <= i < k ==> p[i] in done
      decreases |p| - k
    {
      k := k + 1;
    }
    LevelPrefix(g, start, depth, done, p, k);
  }

  /**
    When breadth-first search takes the end node off the queue, its predecessor chain
    is no longer than any walk from the start to it.
   */
  lemma BfsShortest(g0: Grid, start: Coord, end: Coord, g: Grid, depth: map<Coord, nat>, rest: seq<Coord>, before: seq<Coord>)
    requires Invariant(g0, start, g, rest, before + [end]) && end !in before
    requires Found(g, start, end, depth, rest, before)
    ensures PreviousInBounds(g) && InBounds(g, end)
    ensures PathTo(g, end, |before| + 1).Some?
    ensures forall p :: Walk(g0, p) && p[0] == start && p[|p| - 1] == end ==> |PathTo(g, end, |before| + 1).value| <= |p|
  {
    var order := before + [end];
    assert end in order;
    InvariantLinked(g0, start, g, rest, order);
    ChainFrom(g0, g, start, order, end);
    LevelChain(g, start, depth, end, |order|);
    forall y | InBounds(g, y) && At(g, y).isVisited && !At(g, y).isWall && y !in before
      ensures y in depth && depth[end] <= depth[y]
    {
      assert y in order || y in rest;
    }
    SameLayoutSym(g0, g);
    forall p | Walk(g0, p) && p[0] == start && p[|p| - 1] == end
      ensures |PathTo(g, end, |order|).value| <= |p|
    {
      SameLayoutWalk(g, g0, p);
      LevelWalk(g, start, depth, before, end, p);
    }
  }
}
