/**
  `towerOfHanoi(n, source, destination, auxiliary, updateState, ...)`: the recursive
  `moveDisks` records one move per disk moved and reports each with the running move
  count. Replaying the moves on three pegs shows them legal and the tower moved whole.
 */
module Hanoi {
  import opened Wrappers

  /** `{ disk, from, to }`; `P` is the type of the caller's peg labels. */
  datatype Move<P> = Move(disk: nat, from: P, to: P)

  /** `updateState({ move, totalMoves, ... })`. */
  datatype Update<P> = Update(move: Move<P>, totalMoves: nat)

  function Pow2(n: nat): nat {
    if n == 0 then 1 else 2 * Pow2(n - 1)
  }

  /** `calculateMinMoves(n)`: `2^n - 1`. */
  function MinMoves(n: nat): int {
    Pow2(n) - 1
  }

  /**
    The moves `moveDisks(n, from, to, aux)` records. The base case is `n === 1` only, so
    the recursion ends only from `n >= 1`.
   */
  function Moves<P>(n: nat, from: P, to: P, aux: P): (ms: seq<Move<P>>)
    requires n >= 1
    ensures |ms| == MinMoves(n)
    decreases n
  {
    if n == 1 then [Move(1, from, to)]
    else Moves(n - 1, from, aux, to) + [Move(n, from, to)] + Moves(n - 1, aux, to, from)
  }

  /**
    Every move takes one of the disks `1 .. n` between two of the three pegs, never onto
    its own peg.
   */
  lemma {:induction false} MovesPegs<P>(n: nat, a: P, b: P, c: P)
    requires n >= 1 && a != b && b != c && a != c
    ensures forall m :: m in Moves(n, a, b, c) ==>
      1 <= m.disk <= n && m.from in {a, b, c} && m.to in {a, b, c} && m.from != m.to
    decreases n
  {
    if n > 1 {
      MovesPegs(n - 1, a, c, b);
      MovesPegs(n - 1, c, b, a);
    }
  }

  /** The `k`-th update reports the `k`-th move and a count of `k`. */
  ghost predicate Reported<P>(moves: seq<Move<P>>, updates: seq<Update<P>>) {
    |updates| == |moves| && forall k :: 0 <= k < |moves| ==> updates[k] == Update(moves[k], k + 1)
  }

  /** `moveDisks`, pushing onto `moves` and reporting each push. */
  method MoveDisks<P>(n: nat, from: P, to: P, aux: P, moves: seq<Move<P>>, updates: seq<Update<P>>)
    returns (moves': seq<Move<P>>, updates': seq<Update<P>>)
    requires n >= 1 && Reported(moves, updates)
    ensures moves' == moves + Moves(n, from, to, aux)
    ensures Reported(moves', updates')
    decreases n
  {
    if n == 1 {
      var move := Move(n, from, to);
      Push(moves, updates, move);
      moves' := moves + [move];
      updates' := updates + [Update(move, |moves'|)];
      return;
    }
    moves', updates' := MoveDisks(n - 1, from, aux, to, moves, updates);
    var move := Move(n, from, to);
    Push(moves', updates', move);
    moves' := moves' + [move];
    updates' := updates' + [Update(move, |moves'|)];
    moves', updates' := MoveDisks(n - 1, aux, to, from, moves', updates');
    Split(n, from, to, aux, moves);
  }

  lemma Split<P>(n: nat, from: P, to: P, aux: P, moves: seq<Move<P>>)
    requires n > 1
    ensures moves + Moves(n - 1, from, aux, to) + [Move(n, from, to)] + Moves(n - 1, aux, to, from)
         == moves + Moves(n, from, to, aux)
  {
  }

  lemma Push<P>(moves: seq<Move<P>>, updates: seq<Update<P>>, move: Move<P>)
    requires Reported(moves, updates)
    ensures Reported(moves + [move], updates + [Update(move, |moves| + 1)])
  {
  }

  /**
    `towerOfHanoi`: the moves, `calculateMinMoves(n)` of them, each reported with its
    position in the list.
   */
  method TowerOfHanoi<P>(n: nat, source: P, destination: P, auxiliary: P)
    returns (moves: seq<Move<P>>, updates: seq<Update<P>>)
    requires n >= 1
    ensures moves == Moves(n, source, destination, auxiliary)
    ensures |moves| == MinMoves(n)
    ensures Reported(moves, updates)
  {
    moves, updates := MoveDisks(n, source, destination, auxiliary, [], []);
  }

  /** Peg contents, bottom first. */
  type Towers<P> = map<P, seq<nat>>

  /** The disks `n, n - 1, .., 1`, bottom first. */
  function Tower(n: nat): (s: seq<nat>)
    ensures |s| == n
  {
    if n == 0 then [] else [n] + Tower(n - 1)
  }

  /** The top of `s`, if any, is larger than `n`. */
  predicate Above(s: seq<nat>, n: nat) {
    |s| == 0 || s[|s| - 1] > n
  }

  /** The disk is the top of its peg and lands on an empty peg or a larger disk. */
  predicate Legal<P(==)>(t: Towers<P>, m: Move<P>) {
    && m.from in t && m.to in t && |t[m.from]| > 0
    && t[m.from][|t[m.from]| - 1] == m.disk && Above(t[m.to], m.disk)
  }

  function Apply<P(==)>(t: Towers<P>, m: Move<P>): Towers<P>
    requires Legal(t, m)
  {
    var s := t[m.from];
    var t' := t[m.from := s[..|s| - 1]];
    t'[m.to := t'[m.to] + [m.disk]]
  }

  /** The pegs after playing `ms`, or `None` at the first illegal move. */
  function Replay<P(==)>(t: Towers<P>, ms: seq<Move<P>>): Option<Towers<P>>
    decreases |ms|
  {
    if |ms| == 0 then Some(t)
    else if Legal(t, ms[0]) then Replay(Apply(t, ms[0]), ms[1..])
    else None
  }

  lemma {:induction false} ReplayAppend<P>(t: Towers<P>, ms: seq<Move<P>>, ns: seq<Move<P>>)
    ensures Replay(t, ms + ns) == match Replay(t, ms) case None => None case Some(u) => Replay(u, ns)
    decreases |ms|
  {
    if |ms| > 0 {
      assert (ms + ns)[0] == ms[0] && (ms + ns)[1..] == ms[1..] + ns;
      if Legal(t, ms[0]) {
        ReplayAppend(Apply(t, ms[0]), ms[1..], ns);
      }
    } else {
      assert ms + ns == ns;
    }
  }

  lemma ReplayCons<P>(t: Towers<P>, m: Move<P>, ms: seq<Move<P>>)
    requires Legal(t, m)
    ensures Replay(t, [m] + ms) == Replay(Apply(t, m), ms)
  {
    assert ([m] + ms)[0] == m && ([m] + ms)[1..] == ms;
  }

  /** The top `n` disks of peg `a` are `Tower(n)`, sitting on disks larger than `n`. */
  predicate Holds<P>(t: Towers<P>, a: P, n: nat) {
    a in t && |t[a]| >= n && t[a][|t[a]| - n..] == Tower(n) && Above(t[a][..|t[a]| - n], n)
  }

  /** `t` with the top `n` disks of `a` moved onto `b`. */
  function Shift<P>(t: Towers<P>, a: P, b: P, n: nat): Towers<P>
    requires a in t && b in t && |t[a]| >= n
  {
    t[a := t[a][..|t[a]| - n]][b := t[b] + Tower(n)]
  }

  /**
    Moving the top `n` disks of peg `a` to peg `b` over `c` is legal whenever the disks
    they meet are larger, and leaves them on top of `b` in order.
   */
  lemma {:induction false} MovesReplay<P>(n: nat, a: P, b: P, c: P, t: Towers<P>)
    requires n >= 1 && a != b && b != c && a != c && b in t && c in t
    requires Holds(t, a, n) && Above(t[b], n) && Above(t[c], n)
    ensures Replay(t, Moves(n, a, b, c)) == Some(Shift(t, a, b, n))
    decreases n
  {
    if n == 1 {
      OneDisk(a, b, c, t);
      return;
    }
    var m := Move(n, a, b);
    var first, rest := Moves(n - 1, a, c, b), Moves(n - 1, c, b, a);
    assert Moves(n, a, b, c) == first + ([m] + rest);
    var t1 := Shift(t, a, c, n - 1);
    Phase1(n, a, b, c, t);
    MovesReplay(n - 1, a, c, b, t);
    var t2 := Apply(t1, m);
    Phase2(n, a, b, c, t);
    MovesReplay(n - 1, c, b, a, t2);
    Phase3(n, a, b, c, t);
    ReplayAppend(t, first, [m] + rest);
    ReplayCons(t1, m, rest);
  }

  lemma Phase1<P>(n: nat, a: P, b: P, c: P, t: Towers<P>)
    requires n > 1 && a != b && b != c && a != c && b in t && c in t
    requires Holds(t, a, n) && Above(t[b], n) && Above(t[c], n)
    ensures Holds(t, a, n - 1) && Above(t[b], n - 1) && Above(t[c], n - 1)
    ensures Legal(Shift(t, a, c, n - 1), Move(n, a, b))
  {
    var x := t[a][..|t[a]| - n];
    assert t[a] == x + ([n] + Tower(n - 1)) by {
      assert t[a] == t[a][..|t[a]| - n] + t[a][|t[a]| - n..];
    }
    assert t[a][..|t[a]| - (n - 1)] == x + [n];
    assert t[a][|t[a]| - (n - 1)..] == Tower(n - 1);
  }

  lemma Phase2<P>(n: nat, a: P, b: P, c: P, t: Towers<P>)
    requires n > 1 && a != b && b != c && a != c && b in t && c in t
    requires Holds(t, a, n) && Above(t[b], n) && Above(t[c], n)
    requires Legal(Shift(t, a, c, n - 1), Move(n, a, b))
    ensures var t2 := Apply(Shift(t, a, c, n - 1), Move(n, a, b));
      Holds(t2, c, n - 1) && Above(t2[b], n - 1) && Above(t2[a], n - 1)
  {
    var x := t[a][..|t[a]| - n];
    var t2 := Apply(Shift(t, a, c, n - 1), Move(n, a, b));
    assert t[a][..|t[a]| - (n - 1)] == x + [n];
    assert t2[a] == x && t2[b] == t[b] + [n] && t2[c] == t[c] + Tower(n - 1);
    assert t2[c][..|t2[c]| - (n - 1)] == t[c];
    assert t2[c][|t2[c]| - (n - 1)..] == Tower(n - 1);
  }

  lemma Phase3<P>(n: nat, a: P, b: P, c: P, t: Towers<P>)
    requires n > 1 && a != b && b != c && a != c && a in t && b in t && c in t && |t[a]| >= n
    requires Legal(Shift(t, a, c, n - 1), Move(n, a, b))
    ensures Shift(Apply(Shift(t, a, c, n - 1), Move(n, a, b)), c, b, n - 1) == Shift(t, a, b, n)
  {
    var x := t[a][..|t[a]| - n];
    var xn := t[a][..|t[a]| - (n - 1)];
    var tc1 := t[c] + Tower(n - 1);
    var t1 := t[a := xn][c := tc1];
    var t2 := t1[a := x][b := t[b] + [n]];
    assert Apply(t1, Move(n, a, b)) == t2 by {
      assert xn[..|xn| - 1] == x;
    }
    assert Shift(t2, c, b, n - 1) == t2[c := t[c]][b := t[b] + Tower(n)] by {
      assert tc1[..|tc1| - (n - 1)] == t[c];
      assert t[b] + [n] + Tower(n - 1) == t[b] + Tower(n);
    }
    Reassemble(t, a, b, c, xn, tc1, x, t[b] + [n], t[b] + Tower(n));
  }

  /** Overwriting the three pegs in turn, `c` restored to its old contents. */
  lemma Reassemble<P>(t: Towers<P>, a: P, b: P, c: P, xn: seq<nat>, tc1: seq<nat>, x: seq<nat>, tb1: seq<nat>, tbn: seq<nat>)
    requires a != b && b != c && a != c && c in t
    ensures t[a := xn][c := tc1][a := x][b := tb1][c := t[c]][b := tbn] == t[a := x][b := tbn]
  {
    var l := t[a := xn][c := tc1][a := x][b := tb1][c := t[c]][b := tbn];
    var r := t[a := x][b := tbn];
    assert l.Keys == r.Keys;
  }

  lemma OneDisk<P>(a: P, b: P, c: P, t: Towers<P>)
    requires a != b && a in t && b in t && |t[a]| >= 1 && t[a][|t[a]| - 1] == 1 && Above(t[b], 1)
    ensures Replay(t, Moves(1, a, b, c)) == Some(Shift(t, a, b, 1))
  {
    var m := Move(1, a, b);
    assert Moves(1, a, b, c) == [m] && [m][1..] == [];
    assert Legal(t, m);
    assert Tower(1) == [1];
  }

  lemma Restack<P>(source: P, destination: P, auxiliary: P, tower: seq<nat>)
    requires source != destination && destination != auxiliary && source != auxiliary
    ensures map[source := tower, destination := [], auxiliary := []][source := []][destination := tower]
         == map[source := [], destination := tower, auxiliary := []]
  {
    var l := map[source := tower, destination := [], auxiliary := []][source := []][destination := tower];
    var r := map[source := [], destination := tower, auxiliary := []];
    assert l.Keys == r.Keys;
  }

  /**
    Replayed from the whole tower on `source`, the moves are all legal and finish with the
    whole tower on `destination` and the other pegs empty.
   */
  lemma Solves<P>(n: nat, source: P, destination: P, auxiliary: P)
    requires n >= 1 && source != destination && destination != auxiliary && source != auxiliary
    ensures Replay(map[source := Tower(n), destination := [], auxiliary := []], Moves(n, source, destination, auxiliary))
         == Some(map[source := [], destination := Tower(n), auxiliary := []])
  {
    var t := map[source := Tower(n), destination := [], auxiliary := []];
    assert t[source][..|t[source]| - n] == [] && t[source][|t[source]| - n..] == Tower(n);
    MovesReplay(n, source, destination, auxiliary, t);
    assert [] + Tower(n) == Tower(n);
    assert Shift(t, source, destination, n) == t[source := []][destination := Tower(n)];
    Restack(source, destination, auxiliary, Tower(n));
  }
}
