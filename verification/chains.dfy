/**
  Predecessor chains on the grid. The searches record, for every node they list, the
  node it was reached from (`previousNode`); `getNodesInShortestPathOrder` follows these
  links back from the end node. This module states when the links form a chain back to
  the start, and proves that following them then yields a walk from the start.
 */
module Chains {
  import opened Wrappers
  import opened Grid

  /** Every predecessor link points to a 4-adjacent node of `order`. */
  ghost predicate LinksOk(g: Grid, order: seq<Coord>) {
    forall c :: InBounds(g, c) && At(g, c).previous.Some? ==>
      Adjacent(c, At(g, c).previous.value) && At(g, c).previous.value in order
  }

  /** A node of `order` other than the start links to an earlier one. */
  ghost predicate OrderLinked(g: Grid, start: Coord, order: seq<Coord>) {
    forall i :: 0 <= i < |order| && order[i] != start && InBounds(g, order[i]) ==>
      At(g, order[i]).previous.Some? && At(g, order[i]).previous.value in order[..i]
  }

  /**
    `order` lists wall-free nodes, begins with the start, which has no predecessor, and
    every other node of it links to an earlier one.
   */
  ghost predicate Linked(g: Grid, start: Coord, order: seq<Coord>) {
    && InBounds(g, start) && At(g, start).previous == None
    && (|order| > 0 ==> order[0] == start)
    && (forall x :: x in order ==> InBounds(g, x) && !At(g, x).isWall)
    && LinksOk(g, order) && OrderLinked(g, start, order)
  }

  lemma LinkedInBounds(g: Grid, start: Coord, order: seq<Coord>)
    requires Linked(g, start, order)
    ensures PreviousInBounds(g)
  {
    forall r, c | 0 <= r < |g| && 0 <= c < |g[r]| && g[r][c].previous.Some?
      ensures InBounds(g, g[r][c].previous.value)
    {
      assert At(g, Coord(r, c)) == g[r][c];
    }
  }

  /** The predecessor of a node of `order` other than the start sits earlier in it. */
  lemma Predecessor(g: Grid, start: Coord, order: seq<Coord>, i: nat) returns (j: nat)
    requires Linked(g, start, order) && i < |order| && order[i] != start
    ensures j < i && InBounds(g, order[i]) && !At(g, order[i]).isWall
    ensures At(g, order[i]).previous == Some(order[j]) && Adjacent(order[j], order[i])
    ensures InBounds(g, order[j]) && order[j] in order
  {
    assert order[i] in order;
    var q := At(g, order[i]).previous.value;
    assert q in order[..i];
    j :| 0 <= j < i && order[j] == q;
  }

  lemma WalkSnoc(g: Grid, p: seq<Coord>, c: Coord)
    requires Walk(g, p) && InBounds(g, c) && !At(g, c).isWall && Adjacent(p[|p| - 1], c)
    ensures Walk(g, p + [c]) && (p + [c])[0] == p[0]
    ensures forall x :: x in p + [c] <==> x in p || x == c
  {
    var q := p + [c];
    assert forall k :: 0 <= k < |p| ==> q[k] == p[k];
  }

  /**
    Following predecessors back from the `i`-th node of `order` reaches the start within
    `i` steps, along a walk through nodes of `order`.
   */
  lemma {:induction false} OrderPath(g: Grid, start: Coord, order: seq<Coord>, i: nat)
    requires Linked(g, start, order) && i < |order|
    ensures PreviousInBounds(g)
    ensures var p := PathTo(g, order[i], i);
            p.Some? && p.value[0] == start && Walk(g, p.value) && forall x :: x in p.value ==> x in order
    decreases i
  {
    LinkedInBounds(g, start, order);
    if order[i] != start {
      var j := Predecessor(g, start, order, i);
      OrderPath(g, start, order, j);
      PathToStep(g, order[i], order[j], j, i);
      WalkSnoc(g, PathTo(g, order[j], j).value, order[i]);
    } else {
      assert At(g, order[i]).previous == None;
    }
  }

  /**
    Every node of `order` leads back to the start within `|order|` steps, by a walk
    through nodes of `order`; so every node of `order` is reachable from the start.
   */
  lemma ChainsFromStart(g0: Grid, g: Grid, start: Coord, order: seq<Coord>)
    requires Linked(g, start, order) && SameLayout(g0, g)
    ensures PreviousInBounds(g)
    ensures forall x :: x in order ==> InBounds(g0, x) && !At(g0, x).isWall
    ensures forall x :: x in order ==>
      var p := PathTo(g, x, |order|);
      p.Some? && p.value[0] == start && Walk(g0, p.value) && forall y :: y in p.value ==> y in order
    ensures forall x :: x in order ==> Reachable(g0, start, x)
  {
    LinkedInBounds(g, start, order);
    forall x | x in order
      ensures InBounds(g0, x) && !At(g0, x).isWall
      ensures var p := PathTo(g, x, |order|);
              p.Some? && p.value[0] == start && Walk(g0, p.value) && forall y :: y in p.value ==> y in order
      ensures Reachable(g0, start, x)
    {
      ChainFrom(g0, g, start, order, x);
    }
  }

  lemma ChainFrom(g0: Grid, g: Grid, start: Coord, order: seq<Coord>, x: Coord)
    requires Linked(g, start, order) && SameLayout(g0, g) && x in order
    ensures PreviousInBounds(g)
    ensures InBounds(g0, x) && !At(g0, x).isWall
    ensures var p := PathTo(g, x, |order|);
            p.Some? && p.value[0] == start && Walk(g0, p.value) && forall y :: y in p.value ==> y in order
    ensures Reachable(g0, start, x)
  {
    var i :| 0 <= i < |order| && order[i] == x;
    OrderPath(g, start, order, i);
    PathToFuel(g, x, i, |order|);
    var p := PathTo(g, x, |order|).value;
    SameLayoutWalk(g0, g, p);
  }
}
