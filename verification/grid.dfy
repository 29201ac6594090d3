/**
  The pathfinding grid: `createInitialGrid`, `resetGrid`, the neighbour lookup shared by
  the three searches (`getUnvisitedNeighbors`, identical in all of them) and the
  predecessor-chain walk `getNodesInShortestPathOrder`.

  A node is identified by its coordinates instead of by object identity: the searches
  only ever reach a node through `grid[row][col]`, and on a well-formed grid the node
  found there carries those same coordinates.
 */
module Grid {
  import opened Wrappers
  import opened Distance

  datatype Coord = Coord(row: int, col: int)

  /** One cell; `isPath` is set by the caller to mark the reconstructed path. */
  datatype Node = Node(
    row: int, col: int,
    isStart: bool, isEnd: bool, isWall: bool,
    isVisited: bool, distance: Dist, previous: Option<Coord>,
    isPath: bool)

  type Grid = seq<seq<Node>>

  /** A non-empty rectangle whose node at `[r][c]` has coordinates `(r, c)`. */
  ghost predicate WellFormed(g: Grid) {
    && |g| > 0 && |g[0]| > 0
    && (forall r :: 0 <= r < |g| ==> |g[r]| == |g[0]|)
    && (forall r, c :: 0 <= r < |g| && 0 <= c < |g[r]| ==> g[r][c].row == r && g[r][c].col == c)
  }

  predicate InBounds(g: Grid, c: Coord) {
    0 <= c.row < |g| && 0 <= c.col < |g[c.row]|
  }

  function At(g: Grid, c: Coord): Node
    requires InBounds(g, c)
  {
    g[c.row][c.col]
  }

  /** `grid[c.row][c.col] = n`, every other node unchanged. */
  function Set(g: Grid, c: Coord, n: Node): (r: Grid)
    requires InBounds(g, c)
    ensures |r| == |g| && forall i :: 0 <= i < |g| ==> |r[i]| == |g[i]|
    ensures forall d :: InBounds(g, d) ==> InBounds(r, d) && At(r, d) == if d == c then n else At(g, d)
  {
    g[c.row := g[c.row][c.col := n]]
  }

  /** Every search state, distance and predecessor is as `resetGrid` leaves it. */
  ghost predicate Cleared(g: Grid) {
    forall r, c :: 0 <= r < |g| && 0 <= c < |g[r]| ==>
      !g[r][c].isVisited && g[r][c].distance == Inf && g[r][c].previous == None
  }

  /** Where `createInitialGrid(rows, cols)` puts the start node. */
  function StartCoord(rows: int): Coord {
    Coord(rows / 2, 5)
  }

  /** Where `createInitialGrid(rows, cols)` puts the end node. */
  function EndCoord(rows: int, cols: int): Coord {
    Coord(rows / 2, cols - 6)
  }

  function InitialNode(rows: int, cols: int, r: int, c: int): Node {
    Node(r, c, r == rows / 2 && c == 5, r == rows / 2 && c == cols - 6, false, false, Inf, None, false)
  }

  /**
    `createInitialGrid(rows, cols)`: a `rows x cols` grid (no rows or no columns for a
    non-positive count) of cleared, wall-free nodes with their own coordinates; exactly
    the node at `StartCoord` is the start and exactly the one at `EndCoord` is the end.
   */
  function CreateInitialGrid(rows: int, cols: int): (g: Grid)
    ensures |g| == if rows > 0 then rows else 0
    ensures forall r :: 0 <= r < |g| ==> |g[r]| == if cols > 0 then cols else 0
    ensures rows > 0 && cols > 0 ==> WellFormed(g)
    ensures Cleared(g)
    ensures forall r, c :: 0 <= r < |g| && 0 <= c < |g[r]| ==>
      && !g[r][c].isWall && !g[r][c].isPath
      && (g[r][c].isStart <==> Coord(r, c) == StartCoord(rows))
      && (g[r][c].isEnd <==> Coord(r, c) == EndCoord(rows, cols))
  {
    var n := if rows > 0 then rows else 0;
    var m := if cols > 0 then cols else 0;
    seq(n, r => seq(m, c => InitialNode(rows, cols, r, c)))
  }

  /**
    `createInitialGrid()` with its default arguments `rows = 20, cols = 50`: a 20 x 50
    grid whose start is at row 10, column 5 and whose end is at row 10, column 44.
   */
  function CreateDefaultGrid(): (g: Grid)
    ensures |g| == 20 && forall r :: 0 <= r < |g| ==> |g[r]| == 50
    ensures WellFormed(g) && Cleared(g)
    ensures InBounds(g, Coord(10, 5)) && At(g, Coord(10, 5)).isStart && !At(g, Coord(10, 5)).isEnd
    ensures InBounds(g, Coord(10, 44)) && At(g, Coord(10, 44)).isEnd && !At(g, Coord(10, 44)).isStart
    ensures forall r, c :: 0 <= r < |g| && 0 <= c < |g[r]| && g[r][c].isStart ==> Coord(r, c) == Coord(10, 5)
    ensures forall r, c :: 0 <= r < |g| && 0 <= c < |g[r]| && g[r][c].isEnd ==> Coord(r, c) == Coord(10, 44)
  {
    CreateInitialGrid(20, 50)
  }

  /**
    Where the start and end land: both exist when there are rows and `cols >= 6`, and
    they are the same node exactly when `cols == 11`.
   */
  lemma StartEndPlacement(rows: int, cols: int)
    requires rows > 0 && cols >= 6
    ensures InBounds(CreateInitialGrid(rows, cols), StartCoord(rows))
    ensures InBounds(CreateInitialGrid(rows, cols), EndCoord(rows, cols))
    ensures StartCoord(rows) == EndCoord(rows, cols) <==> cols == 11
  {
  }

  function ResetNode(n: Node): Node {
    n.(isVisited := false, distance := Inf, previous := None)
  }

  /**
    `resetGrid(grid)`: the same shape, every node cleared, and every other field
    (coordinates, start, end, wall, path mark) carried over.
   */
  function ResetGrid(g: Grid): (r: Grid)
    ensures |r| == |g| && forall i :: 0 <= i < |g| ==> |r[i]| == |g[i]|
    ensures Cleared(r)
    ensures forall i, j :: 0 <= i < |g| && 0 <= j < |g[i]| ==>
      var a, b := g[i][j], r[i][j];
      a.row == b.row && a.col == b.col && a.isStart == b.isStart && a.isEnd == b.isEnd
      && a.isWall == b.isWall && a.isPath == b.isPath
  {
    seq(|g|, i requires 0 <= i < |g| => seq(|g[i]|, j requires 0 <= j < |g[i]| => ResetNode(g[i][j])))
  }

  /** Resetting twice is resetting once. */
  lemma ResetIdempotent(g: Grid)
    ensures ResetGrid(ResetGrid(g)) == ResetGrid(g)
  {
    var once := ResetGrid(g);
    var twice := ResetGrid(once);
    assert forall i :: 0 <= i < |g| ==> twice[i] == once[i];
  }

  /** A reset grid is still well formed. */
  lemma ResetWellFormed(g: Grid)
    requires WellFormed(g)
    ensures WellFormed(ResetGrid(g))
  {
  }

  /** 4-adjacency. */
  predicate Adjacent(a: Coord, b: Coord) {
    (a.row == b.row && (a.col == b.col + 1 || a.col + 1 == b.col))
    || (a.col == b.col && (a.row == b.row + 1 || a.row + 1 == b.row))
  }

  /** 0 for up, 1 for down, 2 for left, 3 for right: the order neighbours are listed in. */
  function Direction(c: Coord, d: Coord): int {
    if d == Coord(c.row - 1, c.col) then 0
    else if d == Coord(c.row + 1, c.col) then 1
    else if d == Coord(c.row, c.col - 1) then 2
    else 3
  }

  /**
    The in-bounds up, down, left and right neighbours of `c`, in that order, with the
    bounds checks of `getUnvisitedNeighbors` (`grid[0].length` for the width).
   */
  function Around(g: Grid, c: Coord): (r: seq<Coord>)
    requires |g| > 0
  {
    (if c.row > 0 then [Coord(c.row - 1, c.col)] else [])
    + (if c.row < |g| - 1 then [Coord(c.row + 1, c.col)] else [])
    + (if c.col > 0 then [Coord(c.row, c.col - 1)] else [])
    + (if c.col < |g[0]| - 1 then [Coord(c.row, c.col + 1)] else [])
  }

  /** On a well-formed grid `Around` lists exactly the in-bounds 4-neighbours, by direction. */
  lemma AroundSpec(g: Grid, c: Coord)
    requires WellFormed(g) && InBounds(g, c)
    ensures forall d :: d in Around(g, c) <==> InBounds(g, d) && Adjacent(c, d)
    ensures DirectionOrdered(c, Around(g, c))
  {
    var r := Around(g, c);
    forall d | InBounds(g, d) && Adjacent(c, d) ensures d in r {
      assert |g[c.row]| == |g[0]| && |g[d.row]| == |g[0]|;
    }
    forall d | d in r ensures InBounds(g, d) && Adjacent(c, d) {
      assert |g[c.row]| == |g[0]|;
    }
  }

  /** The elements of `s` whose node is not visited, in order. */
  function Unvisited(g: Grid, s: seq<Coord>): (r: seq<Coord>)
    requires forall d :: d in s ==> InBounds(g, d)
    ensures forall d :: d in r <==> d in s && !At(g, d).isVisited
    decreases |s|
  {
    if |s| == 0 then []
    else (if At(g, s[0]).isVisited then [] else [s[0]]) + Unvisited(g, s[1..])
  }

  /** Listed in strictly increasing direction from `c`: up, down, left, right. */
  ghost predicate DirectionOrdered(c: Coord, s: seq<Coord>) {
    forall i, j :: 0 <= i < j < |s| ==> Direction(c, s[i]) < Direction(c, s[j])
  }

  /** Filtering keeps a strictly increasing direction order. */
  lemma {:induction false} UnvisitedOrdered(g: Grid, s: seq<Coord>, c: Coord)
    requires forall d :: d in s ==> InBounds(g, d)
    requires DirectionOrdered(c, s)
    ensures DirectionOrdered(c, Unvisited(g, s))
    decreases |s|
  {
    if |s| > 0 {
      var rest := Unvisited(g, s[1..]);
      UnvisitedOrdered(g, s[1..], c);
      if !At(g, s[0]).isVisited {
        forall d | d in rest ensures Direction(c, s[0]) < Direction(c, d) {
          var k :| 0 <= k < |s[1..]| && s[1..][k] == d;
          assert s[k + 1] == d;
        }
        OrderedCons(c, s[0], rest);
      }
    }
  }

  lemma OrderedCons(c: Coord, x: Coord, rest: seq<Coord>)
    requires DirectionOrdered(c, rest)
    requires forall d :: d in rest ==> Direction(c, x) < Direction(c, d)
    ensures DirectionOrdered(c, [x] + rest)
  {
    var r := [x] + rest;
    forall i, j | 0 <= i < j < |r| ensures Direction(c, r[i]) < Direction(c, r[j]) {
      assert r[j] == rest[j - 1];
      if i > 0 {
        assert r[i] == rest[i - 1];
      } else {
        assert r[j] in rest;
      }
    }
  }

  /**
    `getUnvisitedNeighbors(node, grid)`: the in-bounds up, down, left and right neighbours
    of `c` that are not yet visited, in that order. Walls are not filtered out.
   */
  function UnvisitedNeighbors(g: Grid, c: Coord): (r: seq<Coord>)
    requires WellFormed(g) && InBounds(g, c)
    ensures forall d :: d in r <==> InBounds(g, d) && Adjacent(c, d) && !At(g, d).isVisited
    ensures DirectionOrdered(c, r)
  {
    AroundSpec(g, c);
    UnvisitedOrdered(g, Around(g, c), c);
    Unvisited(g, Around(g, c))
  }

  /** Every recorded predecessor names a node of the grid. */
  ghost predicate PreviousInBounds(g: Grid) {
    forall r, c :: 0 <= r < |g| && 0 <= c < |g[r]| && g[r][c].previous.Some? ==>
      InBounds(g, g[r][c].previous.value)
  }

  /**
    `getNodesInShortestPathOrder(node)`: follow the predecessors back from `c` and list the
    chain from its first node to `c`. The loop has no bound of its own, so a cyclic chain
    would never end; `fuel` bounds the number of predecessor steps and `None` stands for a
    chain longer than that.
   */
  function PathTo(g: Grid, c: Coord, fuel: nat): (r: Option<seq<Coord>>)
    requires PreviousInBounds(g) && InBounds(g, c)
    ensures r.Some? ==> |r.value| >= 1 && r.value[|r.value| - 1] == c
    ensures r.Some? ==> forall i :: 0 <= i < |r.value| ==> InBounds(g, r.value[i])
    ensures r.Some? ==> At(g, r.value[0]).previous == None
    ensures r.Some? ==> forall i :: 0 <= i < |r.value| - 1 ==> At(g, r.value[i + 1]).previous == Some(r.value[i])
    ensures At(g, c).previous == None ==> r == Some([c])
    decreases fuel
  {
    match At(g, c).previous
    case None => Some([c])
    case Some(p) =>
      if fuel == 0 then None
      else
        match PathTo(g, p, fuel - 1)
        case None => None
        case Some(path) => Some(path + [c])
  }

  /** No coordinate occurs twice. */
  ghost predicate Distinct(s: seq<Coord>) {
    forall i, j :: 0 <= i < j < |s| ==> s[i] != s[j]
  }

  /**
    `g` is `g0` with only the search state changed: same shape, and every node keeps its
    coordinates, start, end, wall and path marks.
   */
  ghost predicate SameLayout(g0: Grid, g: Grid) {
    && |g| == |g0| && (forall r :: 0 <= r < |g0| ==> |g[r]| == |g0[r]|)
    && forall r, c :: 0 <= r < |g0| && 0 <= c < |g0[r]| ==>
         g[r][c] == g0[r][c].(isVisited := g[r][c].isVisited, distance := g[r][c].distance,
                              previous := g[r][c].previous)
  }

  lemma SameLayoutWellFormed(g0: Grid, g: Grid)
    requires WellFormed(g0) && SameLayout(g0, g)
    ensures WellFormed(g)
    ensures forall c :: InBounds(g0, c) <==> InBounds(g, c)
  {
    assert |g[0]| == |g0[0]|;
  }

  lemma SameLayoutTrans(g0: Grid, g1: Grid, g2: Grid)
    requires SameLayout(g0, g1) && SameLayout(g1, g2)
    ensures SameLayout(g0, g2)
  {
  }

  /** `Set` with a node that differs only in search state keeps the layout. */
  lemma SetSameLayout(g: Grid, c: Coord, n: Node)
    requires InBounds(g, c)
    requires n == At(g, c).(isVisited := n.isVisited, distance := n.distance, previous := n.previous)
    ensures SameLayout(g, Set(g, c, n))
  {
    var r: Grid := Set(g, c, n);
    forall i: int, j: int | 0 <= i < |g| && 0 <= j < |g[i]|
      ensures r[i][j] == g[i][j].(isVisited := r[i][j].isVisited, distance := r[i][j].distance,
                                   previous := r[i][j].previous)
    {
      assert At(r, Coord(i, j)) == if Coord(i, j) == c then n else At(g, Coord(i, j));
    }
  }

  function Sum<T>(s: seq<T>, f: T -> nat): nat
    decreases |s|
  {
    if |s| == 0 then 0 else Sum(s[..|s| - 1], f) + f(s[|s| - 1])
  }

  /** Replacing one element changes the sum by the difference of the two terms. */
  lemma {:induction false} SumUpdate<T>(s: seq<T>, i: nat, x: T, f: T -> nat)
    requires i < |s|
    ensures Sum(s[i := x], f) + f(s[i]) == Sum(s, f) + f(x)
    decreases |s|
  {
    var t := s[i := x];
    if i < |s| - 1 {
      assert t[..|t| - 1] == s[..|s| - 1][i := x];
      SumUpdate(s[..|s| - 1], i, x, f);
    } else {
      assert t[..|t| - 1] == s[..|s| - 1];
    }
  }

  function UnvisitedInRow(row: seq<Node>): nat {
    Sum(row, (n: Node) => if n.isVisited then 0 else 1)
  }

  /** The number of nodes not yet visited. */
  function UnvisitedCount(g: Grid): nat {
    Sum(g, UnvisitedInRow)
  }

  /** Visiting an unvisited node lowers the count by one. */
  lemma VisitCount(g: Grid, c: Coord, n: Node)
    requires InBounds(g, c) && !At(g, c).isVisited && n.isVisited
    ensures UnvisitedCount(Set(g, c, n)) + 1 == UnvisitedCount(g)
  {
    var f := (n: Node) => if n.isVisited then 0 else 1;
    SumUpdate(g[c.row], c.col, n, f);
    SumUpdate(g, c.row, g[c.row][c.col := n], UnvisitedInRow);
  }

  /**
    A walk through the grid: in-bounds, wall-free nodes, each 4-adjacent to the one
    before.
   */
  ghost predicate Walk(g: Grid, p: seq<Coord>) {
    && |p| > 0
    && (forall i :: 0 <= i < |p| ==> InBounds(g, p[i]) && !At(g, p[i]).isWall)
    && (forall i :: 0 <= i < |p| - 1 ==> Adjacent(p[i], p[i + 1]))
  }

  /** A set closed under stepping to wall-free neighbours holds every walk that starts in it. */
  lemma {:induction false} ClosedHoldsWalk(g: Grid, s: seq<Coord>, p: seq<Coord>)
    requires Walk(g, p) && p[0] in s
    requires forall x, y :: x in s && InBounds(g, y) && Adjacent(x, y) && !At(g, y).isWall ==> y in s
    ensures forall i :: 0 <= i < |p| ==> p[i] in s
    decreases |p|
  {
    if |p| > 1 {
      ClosedHoldsWalk(g, s, p[..|p| - 1]);
      assert p[|p| - 2] in s;
    }
  }

  /** `b` can be reached from `a` by a walk of wall-free, 4-adjacent steps. */
  ghost predicate Reachable(g: Grid, a: Coord, b: Coord) {
    exists p :: Walk(g, p) && p[0] == a && p[|p| - 1] == b
  }

  /** Walls and bounds are layout, so a walk stays a walk when only search state changes. */
  lemma SameLayoutWalk(g0: Grid, g: Grid, p: seq<Coord>)
    requires SameLayout(g0, g) && Walk(g, p)
    ensures Walk(g0, p)
  {
    forall i | 0 <= i < |p| ensures InBounds(g0, p[i]) && !At(g0, p[i]).isWall {
      assert InBounds(g, p[i]);
    }
  }

  /** More fuel does not change a predecessor chain that already ended. */
  lemma {:induction false} PathToFuel(g: Grid, c: Coord, fuel: nat, more: nat)
    requires PreviousInBounds(g) && InBounds(g, c)
    requires fuel <= more && PathTo(g, c, fuel).Some?
    ensures PathTo(g, c, more) == PathTo(g, c, fuel)
    decreases fuel
  {
    match At(g, c).previous
    case None =>
    case Some(p) =>
      PathToFuel(g, p, fuel - 1, more - 1);
  }

  /** A node whose predecessor's chain ends extends that chain by itself. */
  lemma PathToStep(g: Grid, c: Coord, q: Coord, fuel: nat, more: nat)
    requires PreviousInBounds(g) && InBounds(g, c) && At(g, c).previous == Some(q)
    requires fuel < more && InBounds(g, q) && PathTo(g, q, fuel).Some?
    ensures PathTo(g, c, more) == Some(PathTo(g, q, fuel).value + [c])
  {
    PathToFuel(g, q, fuel, more - 1);
  }

  lemma SameLayoutSym(g0: Grid, g: Grid)
    requires SameLayout(g0, g)
    ensures SameLayout(g, g0)
  {
  }
}
