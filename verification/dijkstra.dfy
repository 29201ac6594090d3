/**
  `dijkstra` on the grid: every node starts on an unvisited list; each round the list is
  stably sorted by distance and its head taken off. Walls are dropped, a head at distance
  `Infinity` ends the search, anything else is settled (marked visited and appended to
  the visited order) and every unvisited neighbour gets distance `d + 1` and the settled
  node as predecessor, whatever distance it had before.
 */
module Dijkstra {
  import opened Wrappers
  import opened Distance
  import opened StableSort
  import opened Grid
  import opened Chains

  /** The distance recorded on `c`, or `Infinity` off the grid. */
  function Label(g: Grid, c: Coord): Dist {
    if InBounds(g, c) then At(g, c).distance else Inf
  }

  /** No coordinate occurs twice, counted by multiplicity. */
  ghost predicate Once(s: seq<Coord>) {
    forall x :: multiset(s)[x] <= 1
  }

  lemma OnceAppend(a: seq<Coord>, b: seq<Coord>)
    requires Once(a) && Once(b) && forall x :: x in a ==> x !in b
    ensures Once(a + b)
  {
    assert multiset(a + b) == multiset(a) + multiset(b);
    forall x ensures multiset(a + b)[x] <= 1 {
      if x in a {
        assert x !in b;
      }
    }
  }

  /** Strictly increasing row by row, and by column within a row. */
  ghost predicate RowMajor(s: seq<Coord>) {
    forall i, j :: 0 <= i < j < |s| ==> s[i].row < s[j].row || (s[i].row == s[j].row && s[i].col < s[j].col)
  }

  /** The coordinates of row `r` from column `c` up to `w`. */
  function RowNodes(r: int, c: nat, w: nat): (s: seq<Coord>)
    ensures forall x :: x in s <==> x.row == r && c <= x.col < w
    ensures Once(s) && RowMajor(s)
    decreases w - c
  {
    if c >= w then []
    else
      var rest := RowNodes(r, c + 1, w);
      OnceAppend([Coord(r, c)], rest);
      [Coord(r, c)] + rest
  }

  /** `getAllNodes(grid)`: every node of the grid from row `r` on, row by row. */
  function AllNodes(g: Grid, r: nat): (s: seq<Coord>)
    ensures forall x :: x in s <==> r <= x.row && InBounds(g, x)
    ensures Once(s) && RowMajor(s)
    decreases |g| - r
  {
    if r >= |g| then []
    else
      var row := RowNodes(r, 0, |g[r]|);
      var rest := AllNodes(g, r + 1);
      OnceAppend(row, rest);
      AppendRowMajor(row, rest);
      row + rest
  }

  lemma AppendRowMajor(a: seq<Coord>, b: seq<Coord>)
    requires RowMajor(a) && RowMajor(b)
    requires forall x, y :: x in a && y in b ==> x.row < y.row
    ensures RowMajor(a + b)
  {
    var s := a + b;
    forall i, j | 0 <= i < j < |s| ensures s[i].row < s[j].row || (s[i].row == s[j].row && s[i].col < s[j].col) {
      if j < |a| {
        assert s[i] == a[i] && s[j] == a[j];
      } else if i >= |a| {
        assert s[i] == b[i - |a|] && s[j] == b[j - |a|];
      } else {
        assert s[i] in a && s[j] in b;
      }
    }
  }

  /** `sortNodesByDistance`: a stable sort under the comparator `nodeA.distance - nodeB.distance`. */
  function SortByDistance(g: Grid, s: seq<Coord>): (r: seq<Coord>)
    ensures |r| == |s| && multiset(r) == multiset(s)
    ensures forall i, j :: 0 <= i < j < |r| ==> DistLe(Label(g, r[i]), Label(g, r[j]))
  {
    var key := (c: Coord) => Label(g, c);
    var r := SortBy(s, key);
    assert SortedBy(r, key);
    r
  }

  /** The first element of a sequence heads the run of its own key. */
  lemma {:induction false} KeyRunHead<T>(s: seq<T>, key: T -> Dist)
    requires |s| > 0
    ensures |KeyRun(s, key, key(s[0]))| > 0 && KeyRun(s, key, key(s[0]))[0] == s[0]
    decreases |s|
  {
    if |s| > 1 {
      var t := s[..|s| - 1];
      KeyRunHead(t, key);
      assert t[0] == s[0];
    }
  }

  /**
    The node `unvisitedNodes.shift()` returns after sorting: it has the least distance on
    the list and, the sort being stable, it is the first such node in list order.
   */
  lemma ClosestFirst(g: Grid, s: seq<Coord>)
    requires |s| > 0
    ensures var c := SortByDistance(g, s)[0];
            && c in s
            && (forall x :: x in s ==> DistLe(Label(g, c), Label(g, x)))
            && |KeyRun(s, (x: Coord) => Label(g, x), Label(g, c))| > 0
            && KeyRun(s, (x: Coord) => Label(g, x), Label(g, c))[0] == c
  {
    var key := (x: Coord) => Label(g, x);
    var r := SortByDistance(g, s);
    assert r == SortBy(s, key);
    var c := r[0];
    assert c in multiset(r);
    MinOfSorted(g, r);
    KeyRunHead(r, key);
    SortByStable(s, key, key(c));
  }

  lemma MinOfSorted(g: Grid, r: seq<Coord>)
    requires |r| > 0
    requires forall i, j :: 0 <= i < j < |r| ==> DistLe(Label(g, r[i]), Label(g, r[j]))
    ensures forall x :: x in multiset(r) ==> DistLe(Label(g, r[0]), Label(g, x))
  {
    forall x | x in multiset(r) ensures DistLe(Label(g, r[0]), Label(g, x)) {
      assert x in r;
      var i :| 0 <= i < |r| && r[i] == x;
      DistLeTotal(Label(g, r[0]), Label(g, x), Label(g, x));
    }
  }

  /** `unvisitedNodes.shift()` after sorting: the closest node, and the list without it. */
  function Closest(g: Grid, s: seq<Coord>): (r: (Coord, seq<Coord>))
    requires |s| > 0
  {
    var sorted := SortByDistance(g, s);
    (sorted[0], sorted[1..])
  }

  lemma ClosestFacts(g: Grid, s: seq<Coord>)
    requires |s| > 0 && Once(s)
    ensures var (c, rest) := Closest(g, s);
            && Once(rest) && c in s && c !in rest && |rest| == |s| - 1
            && (forall x :: x in s <==> x == c || x in rest)
            && (forall x :: x in s ==> DistLe(Label(g, c), Label(g, x)))
  {
    var sorted := SortByDistance(g, s);
    var (c, rest) := Closest(g, s);
    assert Once(sorted) by {
      forall x ensures multiset(sorted)[x] <= 1 {
        assert multiset(sorted)[x] == multiset(s)[x];
      }
    }
    HeadSplit(sorted, c, rest);
    assert c in multiset(sorted);
    MinOfSorted(g, sorted);
  }

  /** Taking the head off a sequence whose multiset is that of a `Once` sequence. */
  lemma HeadSplit(sorted: seq<Coord>, c: Coord, rest: seq<Coord>)
    requires |sorted| > 0 && c == sorted[0] && rest == sorted[1..] && Once(sorted)
    ensures Once(rest) && c !in rest
    ensures forall x :: x in multiset(sorted) <==> x == c || x in rest
  {
    assert sorted == [c] + rest;
    assert multiset(sorted) == multiset{c} + multiset(rest);
    forall x ensures multiset(rest)[x] <= 1 {
      assert multiset(rest)[x] <= multiset(sorted)[x];
    }
    assert multiset(sorted)[c] == 1 + multiset(rest)[c] <= 1;
    assert multiset(rest)[c] == 0;
  }

  /** `neighbor.distance = node.distance + 1; neighbor.previousNode = node` for each listed node. */
  function RelaxAll(g: Grid, ns: seq<Coord>, from: Coord, d: Dist): (r: Grid)
    requires forall x :: x in ns ==> InBounds(g, x)
    ensures SameLayout(g, r)
    ensures forall x :: InBounds(g, x) ==>
      (InBounds(r, x) && At(r, x) == if x in ns then At(g, x).(distance := Succ(d), previous := Some(from)) else At(g, x))
    decreases |ns|
  {
    if |ns| == 0 then g
    else
      var n := At(g, ns[0]).(distance := Succ(d), previous := Some(from));
      SetSameLayout(g, ns[0], n);
      var r := RelaxAll(Set(g, ns[0], n), ns[1..], from, d);
      SameLayoutTrans(g, Set(g, ns[0], n), r);
      r
  }

  /** `closestNode.isVisited = true`. */
  function Settle(g: Grid, c: Coord): (r: Grid)
    requires InBounds(g, c)
    ensures SameLayout(g, r)
    ensures forall x :: InBounds(g, x) ==>
      (InBounds(r, x) && At(r, x) == if x == c then At(g, x).(isVisited := true) else At(g, x))
  {
    SetSameLayout(g, c, At(g, c).(isVisited := true));
    Set(g, c, At(g, c).(isVisited := true))
  }

  // The loop state is the grid, the unvisited list and the visited order.

  /** The unvisited list holds unvisited grid nodes, each once. */
  ghost predicate ListOk(g: Grid, unvisited: seq<Coord>) {
    && Once(unvisited)
    && forall x :: x in unvisited ==> InBounds(g, x) && !At(g, x).isVisited
  }

  /** Settled nodes are visited, not walls, at a finite distance, each listed once. */
  ghost predicate SettledOk(g: Grid, order: seq<Coord>) {
    && Distinct(order)
    && forall x :: x in order ==> InBounds(g, x) && At(g, x).isVisited && !At(g, x).isWall && Label(g, x).Fin?
  }

  /** Visited nodes are settled; a node that is not a wall is settled or still on the list. */
  ghost predicate Partition(g: Grid, unvisited: seq<Coord>, order: seq<Coord>) {
    forall c :: InBounds(g, c) ==>
      && (At(g, c).isVisited ==> c in order)
      && (!At(g, c).isWall ==> c in order || c in unvisited)
  }

  /** Nodes are settled in non-decreasing distance. */
  ghost predicate Monotone(g: Grid, order: seq<Coord>) {
    forall i, j :: 0 <= i < j < |order| ==> DistLe(Label(g, order[i]), Label(g, order[j]))
  }

  /**
    Every node on the list is at least as far as the last settled node, and a finite one
    at most one step further.
   */
  ghost predicate Bounded(g: Grid, unvisited: seq<Coord>, order: seq<Coord>) {
    |order| > 0 ==>
      forall x :: x in unvisited ==>
        && DistLe(Label(g, order[|order| - 1]), Label(g, x))
        && (Label(g, x).Fin? ==> DistLe(Label(g, x), Succ(Label(g, order[|order| - 1]))))
  }

  /** The start is at distance 0; any other node at a finite distance has a predecessor. */
  ghost predicate Origin(g: Grid, start: Coord) {
    && InBounds(g, start) && Label(g, start) == Fin(0) && At(g, start).previous == None
    && forall c :: InBounds(g, c) && Label(g, c).Fin? && c != start ==> At(g, c).previous.Some?
  }

  /** A node with a predecessor is one step further than it. */
  ghost predicate LabelsOk(g: Grid) {
    forall c :: InBounds(g, c) && At(g, c).previous.Some? ==>
      Label(g, c) == Succ(Label(g, At(g, c).previous.value))
  }

  /**
    A finite distance has the parity of the node's Manhattan offset from the start: the
    grid is bipartite and every step adds one.
   */
  ghost predicate Parity(g: Grid, start: Coord) {
    forall c :: InBounds(g, c) && Label(g, c).Fin? ==>
      (Label(g, c).n + c.row + c.col) % 2 == (start.row + start.col) % 2
  }

  /** Every wall-free neighbour of a settled node is at most one step further than it. */
  ghost predicate Closure(g: Grid, order: seq<Coord>) {
    forall x, y :: x in order && InBounds(g, y) && Adjacent(x, y) && !At(g, y).isWall ==>
      Label(g, y).Fin? && DistLe(Label(g, y), Succ(Label(g, x)))
  }

  ghost predicate Invariant(g0: Grid, start: Coord, g: Grid, unvisited: seq<Coord>, order: seq<Coord>) {
    && WellFormed(g0) && SameLayout(g0, g) && WellFormed(g)
    && ListOk(g, unvisited) && SettledOk(g, order) && Partition(g, unvisited, order)
    && Monotone(g, order) && Bounded(g, unvisited, order)
    && Origin(g, start) && LabelsOk(g) && Parity(g, start)
    && Linked(g, start, order)
  }

  ghost predicate Settling(g0: Grid, start: Coord, end: Coord, g: Grid, unvisited: seq<Coord>, order: seq<Coord>) {
    Invariant(g0, start, g, unvisited, order) && Closure(g, order) && end !in order
  }

  /** `startNode.distance = 0; const unvisitedNodes = getAllNodes(grid)` on a grid fresh from `resetGrid`. */
  lemma Init(g0: Grid, start: Coord, end: Coord)
    requires WellFormed(g0) && Cleared(g0) && InBounds(g0, start)
    ensures var g := Set(g0, start, At(g0, start).(distance := Fin(0)));
            Settling(g0, start, end, g, AllNodes(g, 0), [])
  {
    var g := Set(g0, start, At(g0, start).(distance := Fin(0)));
    SetSameLayout(g0, start, At(g0, start).(distance := Fin(0)));
    SameLayoutWellFormed(g0, g);
    InitNodes(g0, start, g);
    var all := AllNodes(g, 0);
    assert forall x :: x in all <==> InBounds(g, x);
    InitPredicates(g, start, all);
  }

  lemma InitNodes(g0: Grid, start: Coord, g: Grid)
    requires WellFormed(g0) && Cleared(g0) && InBounds(g0, start)
    requires g == Set(g0, start, At(g0, start).(distance := Fin(0)))
    ensures InBounds(g, start) && Label(g, start) == Fin(0)
    ensures forall c :: InBounds(g, c) ==> !At(g, c).isVisited && At(g, c).previous == None
    ensures forall c :: InBounds(g, c) && c != start ==> Label(g, c) == Inf
  {
    forall c | InBounds(g, c)
      ensures !At(g, c).isVisited && At(g, c).previous == None
      ensures c != start ==> Label(g, c) == Inf
    {
      assert InBounds(g0, c);
    }
  }

  lemma InitPredicates(g: Grid, start: Coord, all: seq<Coord>)
    requires InBounds(g, start) && Label(g, start) == Fin(0)
    requires forall c :: InBounds(g, c) ==> !At(g, c).isVisited && At(g, c).previous == None
    requires forall c :: InBounds(g, c) && c != start ==> Label(g, c) == Inf
    requires Once(all) && forall x :: x in all <==> InBounds(g, x)
    ensures ListOk(g, all) && SettledOk(g, []) && Partition(g, all, [])
    ensures Monotone(g, []) && Bounded(g, all, [])
    ensures Origin(g, start) && LabelsOk(g) && Parity(g, start)
    ensures Linked(g, start, []) && Closure(g, [])
  {
  }

  // One round: the closest node `c` comes off the list, leaving `rest`.

  ghost predicate Popped(g: Grid, unvisited: seq<Coord>, c: Coord, rest: seq<Coord>) {
    && Once(rest) && c in unvisited && c !in rest
    && (forall x :: x in unvisited <==> x == c || x in rest)
    && (forall x :: x in unvisited ==> DistLe(Label(g, c), Label(g, x)))
  }

  /** A wall that comes off the list is dropped. */
  lemma SkipWall(g0: Grid, start: Coord, g: Grid, unvisited: seq<Coord>, order: seq<Coord>, c: Coord, rest: seq<Coord>)
    requires Invariant(g0, start, g, unvisited, order) && Popped(g, unvisited, c, rest)
    requires InBounds(g, c) && At(g, c).isWall
    ensures Invariant(g0, start, g, rest, order)
  {
  }

  /** While nothing is settled, only the start is at a finite distance. */
  lemma OnlyStartFinite(g0: Grid, start: Coord, g: Grid, unvisited: seq<Coord>, c: Coord)
    requires Invariant(g0, start, g, unvisited, []) && InBounds(g, c) && Label(g, c).Fin?
    ensures c == start
  {
  }

  /** A node that is not a wall and is at a finite distance is settled. */
  lemma SettleKeeps(g0: Grid, start: Coord, g: Grid, unvisited: seq<Coord>, order: seq<Coord>, c: Coord, rest: seq<Coord>)
    requires Invariant(g0, start, g, unvisited, order) && Popped(g, unvisited, c, rest)
    requires InBounds(g, c) && !At(g, c).isWall && Label(g, c).Fin?
    ensures Invariant(g0, start, Settle(g, c), rest, order + [c])
    ensures forall x :: Label(Settle(g, c), x) == Label(g, x)
  {
    var g' := Settle(g, c);
    var order' := order + [c];
    SameLayoutTrans(g0, g, g');
    SameLayoutWellFormed(g0, g');
    if |order| == 0 {
      OnlyStartFinite(g0, start, g, unvisited, c);
    }
    SettleList(g, c, unvisited, rest);
    SettleOrder(g, c, order);
    SettlePartition(g, c, unvisited, order, rest);
    SettleMonotone(g, c, unvisited, order);
    SettleBounded(g0, start, g, c, unvisited, order, rest);
    SettleLinked(g, start, c, order);
    KeepLabels(g, g', start);
  }

  /** Changing only visited marks keeps every fact about distances and predecessors. */
  lemma KeepLabels(g: Grid, g': Grid, start: Coord)
    requires forall x :: InBounds(g, x) <==> InBounds(g', x)
    requires forall x :: InBounds(g, x) ==> At(g', x).distance == At(g, x).distance && At(g', x).previous == At(g, x).previous
    requires Origin(g, start) && LabelsOk(g) && Parity(g, start)
    ensures Origin(g', start) && LabelsOk(g') && Parity(g', start)
    ensures forall x :: Label(g', x) == Label(g, x)
  {
    assert forall x :: Label(g', x) == Label(g, x);
  }

  lemma SettleList(g: Grid, c: Coord, unvisited: seq<Coord>, rest: seq<Coord>)
    requires ListOk(g, unvisited) && Popped(g, unvisited, c, rest) && InBounds(g, c)
    ensures ListOk(Settle(g, c), rest)
  {
  }

  lemma SettleOrder(g: Grid, c: Coord, order: seq<Coord>)
    requires SettledOk(g, order) && InBounds(g, c) && !At(g, c).isVisited && !At(g, c).isWall && Label(g, c).Fin?
    ensures SettledOk(Settle(g, c), order + [c])
  {
    var g' := Settle(g, c);
    var order' := order + [c];
    forall x | x in order' ensures InBounds(g', x) && At(g', x).isVisited && !At(g', x).isWall && Label(g', x).Fin? {
      assert x in order || x == c;
    }
    forall i, j | 0 <= i < j < |order'| ensures order'[i] != order'[j] {
      if j == |order| {
        assert order'[i] in order;
      }
    }
  }

  lemma SettlePartition(g: Grid, c: Coord, unvisited: seq<Coord>, order: seq<Coord>, rest: seq<Coord>)
    requires Partition(g, unvisited, order) && Popped(g, unvisited, c, rest) && InBounds(g, c)
    ensures Partition(Settle(g, c), rest, order + [c])
  {
    var g' := Settle(g, c);
    forall x | InBounds(g', x)
      ensures At(g', x).isVisited ==> x in order + [c]
      ensures !At(g', x).isWall ==> x in order + [c] || x in rest
    {
      assert InBounds(g, x);
    }
  }

  lemma SettleMonotone(g: Grid, c: Coord, unvisited: seq<Coord>, order: seq<Coord>)
    requires Monotone(g, order) && Bounded(g, unvisited, order) && c in unvisited && InBounds(g, c)
    ensures Monotone(Settle(g, c), order + [c])
  {
    var g' := Settle(g, c);
    var order' := order + [c];
    forall i, j | 0 <= i < j < |order'| ensures DistLe(Label(g', order'[i]), Label(g', order'[j])) {
      assert Label(g', order'[i]) == Label(g, order'[i]) && Label(g', order'[j]) == Label(g, order'[j]);
      if j == |order| {
        var last := order[|order| - 1];
        DistLeTotal(Label(g, order[i]), Label(g, last), Label(g, c));
      }
    }
  }

  lemma SettleBounded(g0: Grid, start: Coord, g: Grid, c: Coord, unvisited: seq<Coord>, order: seq<Coord>, rest: seq<Coord>)
    requires Invariant(g0, start, g, unvisited, order) && Popped(g, unvisited, c, rest)
    requires InBounds(g, c) && Label(g, c).Fin?
    ensures Bounded(Settle(g, c), rest, order + [c])
  {
    var g' := Settle(g, c);
    forall x | x in rest
      ensures DistLe(Label(g', c), Label(g', x))
      ensures Label(g', x).Fin? ==> DistLe(Label(g', x), Succ(Label(g', c)))
    {
      assert Label(g', x) == Label(g, x) && Label(g', c) == Label(g, c);
      if Label(g, x).Fin? {
        if |order| == 0 {
          OnlyStartFinite(g0, start, g, unvisited, x);
          OnlyStartFinite(g0, start, g, unvisited, c);
        }
      }
    }
  }

  lemma SettleLinked(g: Grid, start: Coord, c: Coord, order: seq<Coord>)
    requires Linked(g, start, order) && Origin(g, start) && InBounds(g, c) && !At(g, c).isWall && Label(g, c).Fin?
    requires |order| == 0 ==> c == start
    ensures Linked(Settle(g, c), start, order + [c])
  {
    var g' := Settle(g, c);
    var order' := order + [c];
    assert forall x :: x in order' <==> x in order || x == c;
    forall x | InBounds(g', x) && At(g', x).previous.Some?
      ensures Adjacent(x, At(g', x).previous.value) && At(g', x).previous.value in order'
    {
      assert InBounds(g, x);
    }
    forall i | 0 <= i < |order'| && order'[i] != start && InBounds(g', order'[i])
      ensures At(g', order'[i]).previous.Some? && At(g', order'[i]).previous.value in order'[..i]
    {
      if i < |order| {
        assert order'[..i] == order[..i];
      } else {
        assert order'[..i] == order;
      }
    }
  }

  // Relaxing the unvisited neighbours `ns` of the node `c` just settled.

  ghost predicate Relaxed(g: Grid, c: Coord, ns: seq<Coord>, g': Grid) {
    && WellFormed(g) && InBounds(g, c) && Label(g, c).Fin?
    && (forall d :: d in ns <==> InBounds(g, d) && Adjacent(c, d) && !At(g, d).isVisited)
    && (forall d :: d in ns ==> InBounds(g, d))
    && g' == RelaxAll(g, ns, c, Label(g, c))
  }

  lemma RelaxList(g: Grid, c: Coord, ns: seq<Coord>, g': Grid, rest: seq<Coord>, order: seq<Coord>)
    requires Relaxed(g, c, ns, g')
    requires ListOk(g, rest) && SettledOk(g, order) && Partition(g, rest, order)
    ensures ListOk(g', rest) && SettledOk(g', order) && Partition(g', rest, order)
  {
    forall x | x in order ensures x !in ns {
      assert At(g, x).isVisited;
    }
    forall x | InBounds(g', x)
      ensures At(g', x).isVisited ==> x in order
      ensures !At(g', x).isWall ==> x in order || x in rest
    {
      assert InBounds(g, x);
    }
  }

  lemma RelaxOrdered(g: Grid, c: Coord, ns: seq<Coord>, g': Grid, rest: seq<Coord>, order: seq<Coord>)
    requires Relaxed(g, c, ns, g') && SettledOk(g, order)
    requires Monotone(g, order) && Bounded(g, rest, order) && |order| > 0 && order[|order| - 1] == c
    ensures Monotone(g', order) && Bounded(g', rest, order)
  {
    forall x | x in order ensures Label(g', x) == Label(g, x) {
      assert At(g, x).isVisited;
    }
    forall i, j | 0 <= i < j < |order| ensures DistLe(Label(g', order[i]), Label(g', order[j])) {
      assert order[i] in order && order[j] in order;
    }
    forall x | x in rest
      ensures DistLe(Label(g', c), Label(g', x))
      ensures Label(g', x).Fin? ==> DistLe(Label(g', x), Succ(Label(g', c)))
    {
      assert c in order;
    }
  }

  lemma RelaxOrigin(g: Grid, start: Coord, c: Coord, ns: seq<Coord>, g': Grid, order: seq<Coord>)
    requires Relaxed(g, c, ns, g') && Origin(g, start) && SettledOk(g, order) && start in order
    ensures Origin(g', start)
  {
    assert At(g, start).isVisited;
    forall x | InBounds(g', x) && Label(g', x).Fin? && x != start ensures At(g', x).previous.Some? {
      assert InBounds(g, x);
    }
  }

  lemma RelaxLabels(g: Grid, c: Coord, ns: seq<Coord>, g': Grid, order: seq<Coord>)
    requires Relaxed(g, c, ns, g') && LabelsOk(g) && LinksOk(g, order) && SettledOk(g, order) && c in order
    ensures LabelsOk(g')
  {
    forall x | InBounds(g', x) && At(g', x).previous.Some?
      ensures Label(g', x) == Succ(Label(g', At(g', x).previous.value))
    {
      assert InBounds(g, x);
      var p := At(g', x).previous.value;
      if x in ns {
        assert p == c && At(g, c).isVisited;
      } else {
        assert p in order && At(g, p).isVisited;
      }
    }
  }

  lemma AdjacentParity(c: Coord, d: Coord, n: int)
    requires Adjacent(c, d)
    ensures (n + 1 + d.row + d.col) % 2 == (n + c.row + c.col) % 2
  {
  }

  lemma RelaxParity(g: Grid, start: Coord, c: Coord, ns: seq<Coord>, g': Grid)
    requires Relaxed(g, c, ns, g') && Parity(g, start)
    ensures Parity(g', start)
  {
    forall x | InBounds(g', x) && Label(g', x).Fin?
      ensures (Label(g', x).n + x.row + x.col) % 2 == (start.row + start.col) % 2
    {
      RelaxParityAt(g, start, c, ns, g', x);
    }
  }

  lemma RelaxParityAt(g: Grid, start: Coord, c: Coord, ns: seq<Coord>, g': Grid, x: Coord)
    requires Relaxed(g, c, ns, g') && Parity(g, start) && InBounds(g', x) && Label(g', x).Fin?
    ensures (Label(g', x).n + x.row + x.col) % 2 == (start.row + start.col) % 2
  {
    assert InBounds(g, x);
    if x in ns {
      AdjacentParity(c, x, Label(g, c).n);
    }
  }

  lemma RelaxLinked(g: Grid, start: Coord, c: Coord, ns: seq<Coord>, g': Grid, order: seq<Coord>)
    requires Relaxed(g, c, ns, g') && Linked(g, start, order) && SettledOk(g, order) && c in order
    ensures Linked(g', start, order)
  {
    assert start in order ==> At(g, start).isVisited;
    forall x | InBounds(g', x) && At(g', x).previous.Some?
      ensures Adjacent(x, At(g', x).previous.value) && At(g', x).previous.value in order
    {
      assert InBounds(g, x);
    }
    forall i | 0 <= i < |order| && order[i] != start && InBounds(g', order[i])
      ensures At(g', order[i]).previous.Some? && At(g', order[i]).previous.value in order[..i]
    {
      assert order[i] in order && At(g, order[i]).isVisited;
    }
  }

  /** Two adjacent nodes at finite distances never tie, so a node no nearer than `c` is further. */
  lemma ParityGap(g: Grid, start: Coord, c: Coord, y: Coord)
    requires Parity(g, start) && InBounds(g, c) && InBounds(g, y) && Adjacent(c, y)
    requires Label(g, c).Fin? && Label(g, y).Fin? && DistLe(Label(g, c), Label(g, y))
    ensures Label(g, c).n + 1 <= Label(g, y).n
  {
    if Label(g, y).n == Label(g, c).n {
      AdjacentParity(c, y, Label(g, c).n);
    }
  }

  lemma RelaxClosure(g: Grid, start: Coord, c: Coord, ns: seq<Coord>, g': Grid, rest: seq<Coord>, order: seq<Coord>)
    requires Relaxed(g, c, ns, g')
    requires SettledOk(g, order + [c]) && Partition(g, rest, order + [c]) && Monotone(g, order + [c])
    requires Bounded(g, rest, order + [c]) && Parity(g, start) && Closure(g, order)
    ensures Closure(g', order + [c])
  {
    var order' := order + [c];
    assert order'[|order'| - 1] == c;
    forall x | x in order' ensures Label(g', x) == Label(g, x) {
      assert At(g, x).isVisited;
    }
    forall x, y | x in order' && InBounds(g', y) && Adjacent(x, y) && !At(g', y).isWall
      ensures Label(g', y).Fin? && DistLe(Label(g', y), Succ(Label(g', x)))
    {
      assert InBounds(g, y);
      if y in ns {
        if x != c {
          assert x in order;
          assert y in rest;
          ParityGap(g, start, c, y);
        }
      } else if x == c {
        assert y in order';
        var i :| 0 <= i < |order'| && order'[i] == y;
        assert i < |order|;
        DistLeTotal(Label(g, y), Label(g, c), Succ(Label(g, c)));
      } else {
        assert x in order;
      }
    }
  }

  /** Relaxing the neighbours of the node just settled restores the invariant and closes it. */
  lemma Relax(g0: Grid, start: Coord, g: Grid, rest: seq<Coord>, order: seq<Coord>, c: Coord)
    requires Invariant(g0, start, g, rest, order + [c]) && Closure(g, order)
    ensures InBounds(g, c)
    ensures var ns := UnvisitedNeighbors(g, c);
            var g' := RelaxAll(g, ns, c, Label(g, c));
            Invariant(g0, start, g', rest, order + [c]) && Closure(g', order + [c])
  {
    var order' := order + [c];
    assert c in order' && order'[|order'| - 1] == c && start in order';
    var ns := UnvisitedNeighbors(g, c);
    var g' := RelaxAll(g, ns, c, Label(g, c));
    SameLayoutTrans(g0, g, g');
    SameLayoutWellFormed(g0, g');
    RelaxList(g, c, ns, g', rest, order');
    RelaxOrdered(g, c, ns, g', rest, order');
    RelaxOrigin(g, start, c, ns, g', order');
    RelaxLabels(g, c, ns, g', order');
    RelaxParity(g, start, c, ns, g');
    RelaxLinked(g, start, c, ns, g', order');
    RelaxClosure(g, start, c, ns, g', rest, order);
  }

  /** `closestNode.isVisited = true` leaves distances and walls, so the closure of the earlier nodes stands. */
  lemma SettleClosure(g: Grid, c: Coord, order: seq<Coord>)
    requires InBounds(g, c) && Closure(g, order)
    ensures Closure(Settle(g, c), order)
  {
    var g' := Settle(g, c);
    forall x, y | x in order && InBounds(g', y) && Adjacent(x, y) && !At(g', y).isWall
      ensures Label(g', y).Fin? && DistLe(Label(g', y), Succ(Label(g', x)))
    {
      assert InBounds(g, y);
      assert Label(g', x) == Label(g, x);
    }
  }

  /**
    The search has stopped: either the end node was just settled, closing every earlier
    node, or every settled node is closed and the list holds only nodes at `Infinity`.
   */
  ghost predicate Stopped(g0: Grid, start: Coord, end: Coord, g: Grid, unvisited: seq<Coord>, order: seq<Coord>) {
    && Invariant(g0, start, g, unvisited, order)
    && (|| (|order| > 0 && order[|order| - 1] == end && Closure(g, order[..|order| - 1]) && end !in order[..|order| - 1])
        || (end !in order && Closure(g, order) && forall x :: x in unvisited ==> Label(g, x) == Inf))
  }

  /**
    One round of the `while` loop: sort, take the closest node, drop a wall, stop at
    `Infinity`, otherwise settle it, stop at the end node, or relax its neighbours.
   */
  method Step(g0: Grid, start: Coord, end: Coord, g: Grid, unvisited: seq<Coord>, order: seq<Coord>)
    returns (done: bool, g': Grid, unvisited': seq<Coord>, order': seq<Coord>)
    requires |unvisited| > 0 && Settling(g0, start, end, g, unvisited, order)
    ensures !done ==> Settling(g0, start, end, g', unvisited', order') && |unvisited'| < |unvisited|
    ensures done ==> Stopped(g0, start, end, g', unvisited', order')
  {
    ClosestFacts(g, unvisited);
    var (c, rest) := Closest(g, unvisited);
    if At(g, c).isWall {
      SkipWall(g0, start, g, unvisited, order, c, rest);
      done, g', unvisited', order' := false, g, rest, order;
    } else if At(g, c).distance.Inf? {
      done, g', unvisited', order' := true, g, unvisited, order;
    } else {
      SettleKeeps(g0, start, g, unvisited, order, c, rest);
      SettleClosure(g, c, order);
      var g1 := Settle(g, c);
      if c == end {
        assert (order + [c])[..|order|] == order;
        done, g', unvisited', order' := true, g1, rest, order + [c];
      } else {
        Relax(g0, start, g1, rest, order, c);
        var ns := UnvisitedNeighbors(g1, c);
        done, g', unvisited', order' := false, RelaxAll(g1, ns, c, Label(g1, c)), rest, order + [c];
      }
    }
  }

  /** Following predecessors from a node back to the start takes exactly its distance in steps. */
  lemma {:induction false} ChainLength(g: Grid, start: Coord, c: Coord, fuel: nat)
    requires PreviousInBounds(g) && InBounds(g, c) && LabelsOk(g) && Origin(g, start)
    requires PathTo(g, c, fuel).Some? && PathTo(g, c, fuel).value[0] == start
    ensures Label(g, c) == Fin(|PathTo(g, c, fuel).value| - 1)
    decreases fuel
  {
    match At(g, c).previous
    case None =>
    case Some(q) =>
      var pq := PathTo(g, q, fuel - 1).value;
      assert (pq + [c])[0] == pq[0];
      ChainLength(g, start, q, fuel - 1);
  }

  /** Along a walk from the start whose first `k` nodes are closed, the `k`-th is within `k` steps. */
  lemma {:induction false} PrefixBound(g: Grid, start: Coord, done: seq<Coord>, p: seq<Coord>, k: nat)
    requires Closure(g, done) && (forall x :: x in done ==> Label(g, x).Fin?)
    requires Walk(g, p) && p[0] == start && Label(g, start) == Fin(0) && k < |p|
    requires forall i :: 0 <= i < k ==> p[i] in done
    ensures Label(g, p[k]).Fin? && Label(g, p[k]).n <= k
    decreases k
  {
    if k > 0 {
      PrefixBound(g, start, done, p, k - 1);
      assert p[k - 1] in done && Adjacent(p[k - 1], p[k]);
    }
  }

  /**
    A node no further than any wall-free node outside the closed set `done` is at most
    as far as the length of any walk to it.
   */
  lemma Shortest(g: Grid, start: Coord, done: seq<Coord>, x: Coord, p: seq<Coord>)
    requires Closure(g, done) && (forall y :: y in done ==> Label(g, y).Fin?)
    requires Walk(g, p) && p[0] == start && Label(g, start) == Fin(0) && p[|p| - 1] == x
    requires Label(g, x).Fin?
    requires forall y :: InBounds(g, y) && !At(g, y).isWall && y !in done ==> DistLe(Label(g, x), Label(g, y))
    ensures Label(g, x).n + 1 <= |p|
  {
    var k := 0;
    while k < |p| && p[k] in done
      invariant 0 <= k <= |p| && forall i :: 0 <= i < k ==> p[i] in done
    {
      k := k + 1;
    }
    if k < |p| {
      PrefixBound(g, start, done, p, k);
    } else {
      PrefixBound(g, start, done, p, |p| - 1);
    }
  }

  /** The settled nodes whose neighbours have been relaxed: all of them, or all but the end node. */
  function Closed(end: Coord, order: seq<Coord>): seq<Coord> {
    if |order| > 0 && order[|order| - 1] == end then order[..|order| - 1] else order
  }

  lemma StoppedClosed(g: Grid, end: Coord, order: seq<Coord>)
    requires || (|order| > 0 && order[|order| - 1] == end && Closure(g, order[..|order| - 1]))
             || (end !in order && Closure(g, order))
    ensures Closure(g, Closed(end, order))
    ensures forall y :: y in Closed(end, order) ==> y in order
    ensures forall y :: y in order && y !in Closed(end, order) ==> y == end
  {
    if |order| > 0 && order[|order| - 1] == end {
      var d := order[..|order| - 1];
      assert order == d + [end];
    }
  }

  lemma UpToLast(g: Grid, order: seq<Coord>, x: Coord)
    requires Monotone(g, order) && x in order
    ensures DistLe(Label(g, x), Label(g, order[|order| - 1]))
  {
    var i :| 0 <= i < |order| && order[i] == x;
    DistLeTotal(Label(g, x), Label(g, x), Label(g, x));
  }

  /** No wall-free node outside the closed set is nearer than a settled node. */
  lemma Minimal(g0: Grid, start: Coord, end: Coord, g: Grid, unvisited: seq<Coord>, order: seq<Coord>, x: Coord)
    requires Stopped(g0, start, end, g, unvisited, order) && x in order
    ensures forall y :: InBounds(g, y) && !At(g, y).isWall && y !in Closed(end, order) ==> DistLe(Label(g, x), Label(g, y))
  {
    StoppedClosed(g, end, order);
    var last := order[|order| - 1];
    UpToLast(g, order, x);
    forall y | InBounds(g, y) && !At(g, y).isWall && y !in Closed(end, order) ensures DistLe(Label(g, x), Label(g, y)) {
      if y in order {
        assert y == end && last == end;
      } else {
        assert y in unvisited;
        DistLeTotal(Label(g, x), Label(g, last), Label(g, y));
      }
    }
  }

  /** Every walk from the start to a settled node is at least as long as its distance. */
  lemma FinishShortest(g0: Grid, start: Coord, end: Coord, g: Grid, unvisited: seq<Coord>, order: seq<Coord>)
    requires Stopped(g0, start, end, g, unvisited, order)
    ensures NoShorter(g0, start, g, order)
  {
    StoppedClosed(g, end, order);
    SameLayoutSym(g0, g);
    forall x, p | x in order && Walk(g0, p) && p[0] == start && p[|p| - 1] == x
      ensures Label(g, x).Fin? && Label(g, x).n + 1 <= |p|
    {
      SameLayoutWalk(g, g0, p);
      Minimal(g0, start, end, g, unvisited, order, x);
      Shortest(g, start, Closed(end, order), x, p);
    }
  }

  /** The predecessor chain of a settled node is a walk from the start one longer than its distance. */
  lemma FinishPaths(g0: Grid, start: Coord, g: Grid, unvisited: seq<Coord>, order: seq<Coord>)
    requires Invariant(g0, start, g, unvisited, order)
    ensures forall x :: x in order ==> Reachable(g0, start, x)
    ensures ChainsOk(g0, start, g, order)
  {
    ChainsFromStart(g0, g, start, order);
    forall x | x in order
      ensures var p := PathTo(g, x, |order|);
              p.Some? && p.value[0] == start && Walk(g0, p.value) && Label(g, x) == Fin(|p.value| - 1)
    {
      ChainLength(g, start, x, |order|);
    }
  }

  /**
    Unless the end node was found, every node reachable from the start is settled; the
    start is settled unless it is a wall.
   */
  lemma FinishReach(g0: Grid, start: Coord, end: Coord, g: Grid, unvisited: seq<Coord>, order: seq<Coord>)
    requires Stopped(g0, start, end, g, unvisited, order)
    requires forall x :: x in order ==> Reachable(g0, start, x)
    ensures !At(g0, start).isWall ==> |order| > 0
    ensures Outcome(g0, start, end, order)
  {
    SameLayoutWellFormed(g0, g);
    if end !in order {
      assert start !in unvisited;
      forall x, y | x in order && InBounds(g0, y) && Adjacent(x, y) && !At(g0, y).isWall ensures y in order {
        assert InBounds(g, y) && Label(g, y).Fin?;
      }
      forall y | Reachable(g0, start, y) ensures y in order {
        var p :| Walk(g0, p) && p[0] == start && p[|p| - 1] == y;
        ClosedHoldsWalk(g0, order, p);
      }
    }
  }

  /**
    What the settled list holds: distinct wall-free nodes reachable from the start, each
    with a finite distance, starting at the start (distance 0) unless it is a wall, and in
    non-decreasing order of distance.
   */
  ghost predicate SettledList(g0: Grid, start: Coord, g: Grid, order: seq<Coord>) {
    && InBounds(g0, start) && Distinct(order)
    && (forall x :: x in order ==>
          InBounds(g0, x) && !At(g0, x).isWall && Reachable(g0, start, x) && Label(g, x).Fin?)
    && (|order| > 0 <==> !At(g0, start).isWall)
    && (|order| > 0 ==> order[0] == start && Label(g, start) == Fin(0))
    && Monotone(g, order)
  }

  /**
    The search stops at the end node exactly when it is reachable; otherwise it settles
    every reachable node.
   */
  ghost predicate Outcome(g0: Grid, start: Coord, end: Coord, order: seq<Coord>) {
    && (end in order <==> Reachable(g0, start, end))
    && (end in order ==> order[|order| - 1] == end)
    && (end !in order ==> forall y :: Reachable(g0, start, y) ==> y in order)
  }

  /** Following predecessors back from a settled node is a walk from the start as long as its distance. */
  ghost predicate ChainsOk(g0: Grid, start: Coord, g: Grid, order: seq<Coord>) {
    && PreviousInBounds(g)
    && forall x :: x in order ==>
         InBounds(g, x) &&
         var p := PathTo(g, x, |order|);
         p.Some? && p.value[0] == start && Walk(g0, p.value) && Label(g, x) == Fin(|p.value| - 1)
  }

  /** No walk from the start to a settled node is shorter than its distance. */
  ghost predicate NoShorter(g0: Grid, start: Coord, g: Grid, order: seq<Coord>) {
    forall x, p :: x in order && Walk(g0, p) && p[0] == start && p[|p| - 1] == x ==>
      Label(g, x).Fin? && Label(g, x).n + 1 <= |p|
  }

  /**
    `dijkstra(grid, startNode, endNode)`: the settled nodes in order, and the grid with
    the distances and predecessor links `getNodesInShortestPathOrder` then reads.
   */
  method Search(g0: Grid, start: Coord, end: Coord) returns (order: seq<Coord>, g: Grid)
    requires WellFormed(g0) && Cleared(g0) && InBounds(g0, start) && InBounds(g0, end)
    ensures SameLayout(g0, g)
    ensures SettledList(g0, start, g, order)
    ensures Outcome(g0, start, end, order)
    ensures ChainsOk(g0, start, g, order)
    ensures NoShorter(g0, start, g, order)
  {
    g := Set(g0, start, At(g0, start).(distance := Fin(0)));
    Init(g0, start, end);
    var unvisited := AllNodes(g, 0);
    order := [];
    while |unvisited| > 0
      invariant Settling(g0, start, end, g, unvisited, order)
      decreases |unvisited|
    {
      var done;
      done, g, unvisited, order := Step(g0, start, end, g, unvisited, order);
      if done {
        Finish(g0, start, end, g, unvisited, order);
        return;
      }
    }
    Finish(g0, start, end, g, unvisited, order);
  }

  lemma Finish(g0: Grid, start: Coord, end: Coord, g: Grid, unvisited: seq<Coord>, order: seq<Coord>)
    requires Stopped(g0, start, end, g, unvisited, order)
    ensures SameLayout(g0, g)
    ensures SettledList(g0, start, g, order)
    ensures Outcome(g0, start, end, order)
    ensures ChainsOk(g0, start, g, order)
    ensures NoShorter(g0, start, g, order)
  {
    FinishPaths(g0, start, g, unvisited, order);
    FinishReach(g0, start, end, g, unvisited, order);
    FinishShortest(g0, start, end, g, unvisited, order);
    FinishList(g0, start, end, g, unvisited, order);
  }

  lemma FinishList(g0: Grid, start: Coord, end: Coord, g: Grid, unvisited: seq<Coord>, order: seq<Coord>)
    requires Stopped(g0, start, end, g, unvisited, order)
    requires forall x :: x in order ==> Reachable(g0, start, x)
    requires !At(g0, start).isWall ==> |order| > 0
    ensures SettledList(g0, start, g, order)
  {
    SameLayoutWellFormed(g0, g);
    forall x | x in order ensures InBounds(g0, x) && !At(g0, x).isWall {
      assert InBounds(g, x);
    }
  }
}
