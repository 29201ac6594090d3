/**
  `solveNQueens(n, updateBoard, speed, findAllSolutions)`: backtracking row by row, with a
  queen placed only where its column and both diagonals are free according to the `cols`,
  `diag1` (`row - col + n - 1`) and `diag2` (`row + col`) tracks. The search is stated
  against `Completions`, the list of all non-attacking completions in column order, and
  `Solution`, what a solved board looks like.
 */
module NQueens {

  /** `n` rows of `n` cells, `1` for a queen and `0` for an empty square. */
  type Board = seq<seq<int>>

  /** The `updateBoard` calls, by `status`. */
  datatype Event =
    | Trying(row: nat, col: nat, steps: nat)
    | Placing(row: nat, col: nat, steps: nat)
    | Backtracking(row: nat, col: nat, steps: nat)
    | Unsafe(row: nat, col: nat, steps: nat)
    | Found(board: Board, solutionCount: nat, steps: nat)
    | NoSolution(board: Board, steps: nat)

  /** The variables `solveNQueensUtil` shares. */
  datatype Search = Search(
    board: Board, cols: seq<bool>, diag1: seq<bool>, diag2: seq<bool>,
    solutions: seq<Board>, steps: nat, events: seq<Event>)

  /** The object `solveNQueens` returns, with the reported events. */
  datatype Outcome = Outcome(
    solved: bool, board: Board, solutions: seq<Board>, totalSolutions: nat, steps: nat, events: seq<Event>)

  /** Queens at `(r1, c1)` and `(r2, c2)` share a column or a diagonal. */
  predicate Attacks(r1: int, c1: int, r2: int, c2: int) {
    c1 == c2 || r1 - c1 == r2 - c2 || r1 + c1 == r2 + c2
  }

  /** A queen in column `c` of row `|q|` is attacked by none of the queens `q`. */
  predicate Safe(q: seq<nat>, c: nat) {
    forall r :: 0 <= r < |q| ==> !Attacks(r, q[r], |q|, c)
  }

  /** Queens in rows `0 .. |q| - 1`, row `r`'s in column `q[r]`, no two attacking. */
  predicate Placement(n: nat, q: seq<nat>) {
    && |q| <= n && (forall r :: 0 <= r < |q| ==> q[r] < n)
    && forall r1, r2 :: 0 <= r1 < r2 < |q| ==> !Attacks(r1, q[r1], r2, q[r2])
  }

  /** The board holding the queens `q`. */
  function BoardOf(n: nat, q: seq<nat>): (b: Board)
    ensures |b| == n && forall r :: 0 <= r < n ==> |b[r]| == n
  {
    seq(n, r => seq(n, c => if 0 <= r < |q| && q[r] == c then 1 else 0))
  }

  /** Row `r` of `b` holds a queen. */
  ghost predicate QueenInRow(b: Board, r: int) {
    0 <= r < |b| && exists c :: 0 <= c < |b[r]| && b[r][c] == 1
  }

  /** A solved board: one queen per row, no two sharing a column or a diagonal. */
  ghost predicate Solution(n: nat, b: Board) {
    && |b| == n && (forall r :: 0 <= r < n ==> |b[r]| == n)
    && (forall r, c :: 0 <= r < n && 0 <= c < n ==> b[r][c] == 0 || b[r][c] == 1)
    && (forall r :: 0 <= r < n ==> QueenInRow(b, r))
    && forall r1, c1, r2, c2 ::
         (0 <= r1 < n && 0 <= c1 < n && 0 <= r2 < n && 0 <= c2 < n && b[r1][c1] == 1 && b[r2][c2] == 1
          && (r1 != r2 || c1 != c2)) ==> r1 != r2 && !Attacks(r1, c1, r2, c2)
  }

  /** Every complete placement extending `q`, ordered by the columns chosen row by row. */
  function Completions(n: nat, q: seq<nat>): seq<seq<nat>>
    requires |q| <= n
    decreases n - |q|, n + 1
  {
    if |q| == n then [q] else CompletionsBelow(n, q, n)
  }

  /** The completions of `q` whose queen in row `|q|` is in a column below `c`. */
  function CompletionsBelow(n: nat, q: seq<nat>, c: nat): seq<seq<nat>>
    requires |q| < n && c <= n
    decreases n - |q|, c
  {
    if c == 0 then []
    else CompletionsBelow(n, q, c - 1) + (if Safe(q, c - 1) then Completions(n, q + [c - 1]) else [])
  }

  function Boards(n: nat, ps: seq<seq<nat>>): (bs: seq<Board>)
    ensures |bs| == |ps| && forall i :: 0 <= i < |ps| ==> bs[i] == BoardOf(n, ps[i])
  {
    seq(|ps|, i requires 0 <= i < |ps| => BoardOf(n, ps[i]))
  }

  /** The board of the first completion, if there is one. */
  function First(n: nat, ps: seq<seq<nat>>): seq<Board> {
    if |ps| > 0 then [BoardOf(n, ps[0])] else []
  }

  // ---- Placements and completions -------------------------------------------------

  /** One more queen keeps a placement exactly when it is on the board and safe. */
  lemma PlacementSnoc(n: nat, q: seq<nat>, c: nat)
    requires |q| < n
    ensures Placement(n, q + [c]) <==> Placement(n, q) && c < n && Safe(q, c)
  {
    var p := q + [c];
    assert forall r :: 0 <= r < |q| ==> p[r] == q[r];
    assert p[|q|] == c;
    if Placement(n, p) {
      forall r | 0 <= r < |q| ensures !Attacks(r, q[r], |q|, c) {
        assert !Attacks(r, p[r], |q|, p[|q|]);
      }
      forall r1, r2 | 0 <= r1 < r2 < |q| ensures !Attacks(r1, q[r1], r2, q[r2]) {
        assert !Attacks(r1, p[r1], r2, p[r2]);
      }
      assert p[|q|] < n;
    }
    if Placement(n, q) && c < n && Safe(q, c) {
      forall r1, r2 | 0 <= r1 < r2 < |p| ensures !Attacks(r1, p[r1], r2, p[r2]) {
        if r2 == |q| {
          assert !Attacks(r1, q[r1], |q|, c);
        } else {
          assert !Attacks(r1, q[r1], r2, q[r2]);
        }
      }
    }
  }

  lemma PlacementPrefix(n: nat, p: seq<nat>, k: nat)
    requires Placement(n, p) && k <= |p|
    ensures Placement(n, p[..k])
  {
    var q := p[..k];
    forall r1, r2 | 0 <= r1 < r2 < |q| ensures !Attacks(r1, q[r1], r2, q[r2]) {
      assert q[r1] == p[r1] && q[r2] == p[r2];
    }
  }

  /** `Completions` lists exactly the complete placements extending `q`. */
  lemma {:induction false} CompletionsSpec(n: nat, q: seq<nat>, p: seq<nat>)
    requires Placement(n, q)
    ensures p in Completions(n, q) <==> |p| == n && Placement(n, p) && p[..|q|] == q
    decreases n - |q|, n + 1
  {
    if |q| == n {
      assert |p| == n ==> p[..|q|] == p;
    } else {
      BelowSpec(n, q, n, p);
    }
  }

  lemma {:induction false} BelowSpec(n: nat, q: seq<nat>, c: nat, p: seq<nat>)
    requires Placement(n, q) && |q| < n && c <= n
    ensures p in CompletionsBelow(n, q, c) <==> |p| == n && Placement(n, p) && p[..|q|] == q && p[|q|] < c
    decreases n - |q|, c
  {
    if c > 0 {
      var d := c - 1;
      var extended := q + [d];
      BelowSpec(n, q, d, p);
      PlacementSnoc(n, q, d);
      if Safe(q, d) {
        CompletionsSpec(n, extended, p);
        if p in Completions(n, extended) {
          assert p[..|q|] == p[..|extended|][..|q|];
          assert p[|q|] == p[..|extended|][|q|];
        }
      }
      if |p| == n && Placement(n, p) && p[..|q|] == q && p[|q|] == d {
        assert p[..|extended|] == extended;
        PlacementPrefix(n, p, |extended|);
        CompletionsSpec(n, extended, p);
      }
    }
  }

  lemma BoardsAppend(n: nat, a: seq<seq<nat>>, b: seq<seq<nat>>)
    ensures Boards(n, a + b) == Boards(n, a) + Boards(n, b)
  {
    assert forall i :: 0 <= i < |a + b| ==> (a + b)[i] == if i < |a| then a[i] else b[i - |a|];
  }

  /** Earlier columns' completions come first. */
  lemma {:induction false} BelowPrefix(n: nat, q: seq<nat>, c: nat, d: nat)
    requires |q| < n && c <= d <= n
    ensures |CompletionsBelow(n, q, c)| <= |CompletionsBelow(n, q, d)|
    ensures CompletionsBelow(n, q, d)[..|CompletionsBelow(n, q, c)|] == CompletionsBelow(n, q, c)
    decreases d - c
  {
    if c < d {
      BelowPrefix(n, q, c, d - 1);
      var a, b := CompletionsBelow(n, q, c), CompletionsBelow(n, q, d - 1);
      assert CompletionsBelow(n, q, d)[..|b|] == b;
    }
  }

  // ---- Boards and solutions -------------------------------------------------------

  /** A complete placement's board is a solution. */
  lemma PlacementSolution(n: nat, q: seq<nat>)
    requires |q| == n && Placement(n, q)
    ensures Solution(n, BoardOf(n, q))
  {
    var b := BoardOf(n, q);
    forall r, c | 0 <= r < n && 0 <= c < n ensures b[r][c] == if q[r] == c then 1 else 0 {
    }
    forall r | 0 <= r < n ensures QueenInRow(b, r) {
      assert b[r][q[r]] == 1;
    }
    forall r1, c1, r2, c2 |
      0 <= r1 < n && 0 <= c1 < n && 0 <= r2 < n && 0 <= c2 < n && b[r1][c1] == 1 && b[r2][c2] == 1 && (r1 != r2 || c1 != c2)
      ensures r1 != r2 && !Attacks(r1, c1, r2, c2)
    {
      assert q[r1] == c1 && q[r2] == c2;
      if r2 < r1 {
        assert !Attacks(r2, q[r2], r1, q[r1]);
      }
    }
  }

  /** The column of row `r`'s queen on a solved board. */
  ghost function QueenIn(n: nat, b: Board, r: nat): (c: nat)
    requires Solution(n, b) && r < n
    ensures c < n && b[r][c] == 1
  {
    assert QueenInRow(b, r);
    var c :| 0 <= c < n && b[r][c] == 1; c
  }

  /** Every solution is the board of a complete placement. */
  lemma SolutionPlacement(n: nat, b: Board) returns (q: seq<nat>)
    requires Solution(n, b)
    ensures |q| == n && Placement(n, q) && b == BoardOf(n, q)
  {
    q := seq(n, r requires 0 <= r < n && Solution(n, b) => QueenIn(n, b, r));
    forall r1, r2 | 0 <= r1 < r2 < n ensures !Attacks(r1, q[r1], r2, q[r2]) {
      assert b[r1][q[r1]] == 1 && b[r2][q[r2]] == 1;
    }
    var d := BoardOf(n, q);
    forall r | 0 <= r < n ensures b[r] == d[r] {
      forall c | 0 <= c < n ensures b[r][c] == d[r][c] {
        assert b[r][q[r]] == 1;
        assert b[r][c] == 1 ==> c == q[r];
      }
    }
  }

  /** The boards of all completions of the empty placement are exactly the solutions. */
  lemma AllSolutions(n: nat, b: Board)
    ensures b in Boards(n, Completions(n, [])) <==> Solution(n, b)
  {
    if b in Boards(n, Completions(n, [])) {
      var i :| 0 <= i < |Completions(n, [])| && Boards(n, Completions(n, []))[i] == b;
      CompletionsSpec(n, [], Completions(n, [])[i]);
      PlacementSolution(n, Completions(n, [])[i]);
    }
    if Solution(n, b) {
      var q := SolutionPlacement(n, b);
      assert q[..0] == [];
      CompletionsSpec(n, [], q);
      var i :| 0 <= i < |Completions(n, [])| && Completions(n, [])[i] == q;
      assert Boards(n, Completions(n, []))[i] == b;
    }
  }

  /** There are completions of the empty placement exactly when a solution exists. */
  lemma SomeSolution(n: nat)
    ensures |Completions(n, [])| > 0 <==> exists b :: Solution(n, b)
  {
    if |Completions(n, [])| > 0 {
      AllSolutions(n, BoardOf(n, Completions(n, [])[0]));
    }
    if exists b :: Solution(n, b) {
      var b :| Solution(n, b);
      AllSolutions(n, b);
    }
  }

  // ---- Tracks ---------------------------------------------------------------------

  /** `cols`, `diag1` and `diag2` mark exactly the lines the queens `q` occupy. */
  ghost predicate Tracks(n: nat, q: seq<nat>, s: Search) {
    && |s.cols| == n && |s.diag1| == 2 * n - 1 && |s.diag2| == 2 * n - 1
    && (forall c :: 0 <= c < n ==> (s.cols[c] <==> exists r :: 0 <= r < |q| && q[r] == c))
    && (forall d :: 0 <= d < 2 * n - 1 ==> (s.diag1[d] <==> exists r :: 0 <= r < |q| && r - q[r] + n - 1 == d))
    && (forall d :: 0 <= d < 2 * n - 1 ==> (s.diag2[d] <==> exists r :: 0 <= r < |q| && r + q[r] == d))
  }

  /** The three tracks are clear for a cell exactly when a queen there is safe. */
  lemma TracksSafe(n: nat, q: seq<nat>, s: Search, col: nat)
    requires Placement(n, q) && Tracks(n, q, s) && |q| < n && col < n
    ensures !s.cols[col] && !s.diag1[|q| - col + n - 1] && !s.diag2[|q| + col] <==> Safe(q, col)
  {
    var row := |q|;
    if !Safe(q, col) {
      var r :| 0 <= r < |q| && Attacks(r, q[r], row, col);
      if q[r] == col {
        assert s.cols[col];
      } else if r - q[r] == row - col {
        assert s.diag1[row - col + n - 1];
      } else {
        assert s.diag2[row + col];
      }
    }
  }

  /** `board[row][col] = 1` and the three tracks set, for the queen in row `row`. */
  function Place(n: nat, s: Search, row: nat, col: nat): Search
    requires row < n && col < n && |s.board| == n && |s.board[row]| == n
    requires |s.cols| == n && |s.diag1| == 2 * n - 1 && |s.diag2| == 2 * n - 1
  {
    s.(board := s.board[row := s.board[row][col := 1]],
       cols := s.cols[col := true], diag1 := s.diag1[row - col + n - 1 := true], diag2 := s.diag2[row + col := true])
  }

  /** `board[row][col] = 0` and the three tracks cleared: the backtracking step. */
  function Remove(n: nat, s: Search, row: nat, col: nat): Search
    requires row < n && col < n && |s.board| == n && |s.board[row]| == n
    requires |s.cols| == n && |s.diag1| == 2 * n - 1 && |s.diag2| == 2 * n - 1
  {
    s.(board := s.board[row := s.board[row][col := 0]],
       cols := s.cols[col := false], diag1 := s.diag1[row - col + n - 1 := false], diag2 := s.diag2[row + col := false])
  }

  /** The board and tracks hold exactly the queens `q`. */
  ghost predicate Holds(n: nat, q: seq<nat>, s: Search) {
    n >= 1 && Placement(n, q) && s.board == BoardOf(n, q) && Tracks(n, q, s)
  }

  /** Placing a safe queen gives the board and tracks of the longer placement. */
  lemma Placed(n: nat, q: seq<nat>, s: Search, col: nat)
    requires Holds(n, q, s) && |q| < n && col < n && Safe(q, col)
    ensures Holds(n, q + [col], Place(n, s, |q|, col))
  {
    var p := q + [col];
    var t := Place(n, s, |q|, col);
    PlacementSnoc(n, q, col);
    BoardPlace(n, q, col);
    assert forall r :: 0 <= r < |q| ==> p[r] == q[r];
    assert p[|q|] == col;
  }

  /** Removing the queen just placed restores the board and the tracks exactly. */
  lemma Removed(n: nat, q: seq<nat>, s: Search, col: nat, t: Search)
    requires Holds(n, q, s) && |q| < n && col < n && Safe(q, col)
    requires t.board == Place(n, s, |q|, col).board && t.cols == Place(n, s, |q|, col).cols
    requires t.diag1 == Place(n, s, |q|, col).diag1 && t.diag2 == Place(n, s, |q|, col).diag2
    ensures var u := Remove(n, t, |q|, col); u.board == s.board && u.cols == s.cols && u.diag1 == s.diag1 && u.diag2 == s.diag2
  {
    TracksSafe(n, q, s, col);
    var row := |q|;
    var x := s.board[row];
    assert x[col] == 0;
    assert x[col := 1][col := 0] == x;
    assert s.board[row := x[col := 1]][row := x] == s.board;
    assert s.cols[col := true][col := false] == s.cols;
    assert s.diag1[row - col + n - 1 := true][row - col + n - 1 := false] == s.diag1;
    assert s.diag2[row + col := true][row + col := false] == s.diag2;
  }

  /** `board[row][col] = 1` on the board of `q` is the board of `q + [col]`. */
  lemma BoardPlace(n: nat, q: seq<nat>, col: nat)
    requires |q| < n && col < n
    ensures var b := BoardOf(n, q); b[|q| := b[|q|][col := 1]] == BoardOf(n, q + [col])
  {
    var b, p := BoardOf(n, q), q + [col];
    var l, r := b[|q| := b[|q|][col := 1]], BoardOf(n, p);
    forall i | 0 <= i < n ensures l[i] == r[i] {
      if i < |q| {
        assert p[i] == q[i];
      } else if i == |q| {
        assert p[i] == col;
      }
    }
  }

  // ---- The search -----------------------------------------------------------------

  predicate NoVerdict(events: seq<Event>) {
    forall e :: e in events ==> !e.NoSolution?
  }

  /** What a call of `solveNQueensUtil` for row `|q|` leaves behind. */
  ghost predicate Answered(n: nat, all: bool, q: seq<nat>, s: Search, stop: bool, s': Search)
    requires |q| <= n
  {
    && s'.steps > s.steps && NoVerdict(s'.events)
    && (!stop ==> s'.board == s.board && s'.cols == s.cols && s'.diag1 == s.diag1 && s'.diag2 == s.diag2)
    && (all ==> !stop && s'.solutions == s.solutions + Boards(n, Completions(n, q)))
    && (!all ==> (stop <==> |Completions(n, q)| > 0) && s'.solutions == s.solutions + First(n, Completions(n, q)))
  }

  /** The column loop of a call for row `|q|`, before column `col`. */
  ghost predicate Scanning(n: nat, all: bool, q: seq<nat>, s: Search, col: nat, cur: Search) {
    && |q| < n && col <= n && Holds(n, q, cur) && NoVerdict(cur.events) && cur.steps > s.steps
    && cur.board == s.board && cur.cols == s.cols && cur.diag1 == s.diag1 && cur.diag2 == s.diag2
    && (all ==> cur.solutions == s.solutions + Boards(n, CompletionsBelow(n, q, col)))
    && (!all ==> cur.solutions == s.solutions && CompletionsBelow(n, q, col) == [])
  }

  /**
    `solveNQueensUtil(row)`: with the queens `q` on the board, adds the boards of all their
    completions (or, looking for one solution, of the first) and reports whether to stop;
    unless stopping it leaves the board and tracks as it found them.
   */
  method SolveUtil(n: nat, all: bool, row: nat, ghost q: seq<nat>, s: Search) returns (stop: bool, s': Search)
    requires Holds(n, q, s) && row == |q| && NoVerdict(s.events)
    ensures Answered(n, all, q, s, stop, s')
    decreases n - row, 2
  {
    s' := s.(steps := s.steps + 1);
    if row >= n {
      var solution := s'.board;
      s' := s'.(solutions := s'.solutions + [solution]);
      s' := s'.(events := s'.events + [Found(solution, |s'.solutions|, s'.steps)]);
      Complete(n, all, q, s, s');
      return !all, s';
    }
    Begin(n, all, q, s);
    var col := 0;
    while col < n
      invariant Scanning(n, all, q, s, col, s')
    {
      var found;
      found, s' := TryColumn(n, all, row, q, s, col, s');
      if found {
        return true, s';
      }
      col := col + 1;
    }
    stop := false;
  }

  /** All rows hold a queen: the board is the one completion, recorded as a solution. */
  lemma Complete(n: nat, all: bool, q: seq<nat>, s: Search, s': Search)
    requires Holds(n, q, s) && |q| == n && NoVerdict(s.events)
    requires s'.board == s.board && s'.cols == s.cols && s'.diag1 == s.diag1 && s'.diag2 == s.diag2
    requires s'.steps == s.steps + 1 && s'.solutions == s.solutions + [s.board]
    requires s'.events == s.events + [Found(s.board, |s'.solutions|, s'.steps)]
    ensures Answered(n, all, q, s, !all, s')
  {
    assert Boards(n, [q]) == [s.board];
  }

  lemma Begin(n: nat, all: bool, q: seq<nat>, s: Search)
    requires Holds(n, q, s) && |q| < n && NoVerdict(s.events)
    ensures Scanning(n, all, q, s, 0, s.(steps := s.steps + 1))
  {
    assert s.solutions + Boards(n, []) == s.solutions;
  }

  /** One turn of the column loop: try a queen at `(row, col)`. */
  method TryColumn(n: nat, all: bool, row: nat, ghost q: seq<nat>, ghost s: Search, col: nat, cur: Search)
    returns (stop: bool, cur': Search)
    requires Scanning(n, all, q, s, col, cur) && row == |q| && col < n
    ensures stop ==> Answered(n, all, q, s, true, cur')
    ensures !stop ==> Scanning(n, all, q, s, col + 1, cur')
    decreases n - row, 1
  {
    Logged(n, all, q, s, col, cur, Trying(row, col, cur.steps));
    cur' := cur.(events := cur.events + [Trying(row, col, cur.steps)]);
    TracksSafe(n, q, cur', col);
    if !cur'.cols[col] && !cur'.diag1[row - col + n - 1] && !cur'.diag2[row + col] {
      stop, cur' := Descend(n, all, row, q, s, col, cur');
    } else {
      Skipped(n, all, q, s, col, cur', Unsafe(row, col, cur'.steps));
      cur' := cur'.(events := cur'.events + [Unsafe(row, col, cur'.steps)]);
      stop := false;
    }
  }

  /** A safe cell: place the queen, solve the next row, and unless stopping take it back. */
  method Descend(n: nat, all: bool, row: nat, ghost q: seq<nat>, ghost s: Search, col: nat, cur: Search)
    returns (stop: bool, cur': Search)
    requires Scanning(n, all, q, s, col, cur) && row == |q| && col < n && Safe(q, col)
    ensures stop ==> Answered(n, all, q, s, true, cur')
    ensures !stop ==> Scanning(n, all, q, s, col + 1, cur')
    decreases n - row, 0
  {
    cur' := Place(n, cur, row, col);
    cur' := cur'.(events := cur'.events + [Placing(row, col, cur'.steps)]);
    Placed(n, q, cur, col);
    Advance(n, q, col);
    var found;
    found, cur' := SolveUtil(n, all, row + 1, q + [col], cur');
    if found {
      FirstFound(n, q, col);
      return true, cur';
    }
    ghost var placed := Place(n, cur, row, col);
    ghost var placedLogged := placed.(events := placed.events + [Placing(row, col, placed.steps)]);
    Backtracked(n, all, q, s, col, cur, placedLogged, cur');
    cur' := Remove(n, cur', row, col);
    cur' := cur'.(events := cur'.events + [Backtracking(row, col, cur'.steps)]);
    stop := false;
  }

  /** Taking the queen back after its row found nothing to stop for. */
  lemma Backtracked(n: nat, all: bool, q: seq<nat>, s: Search, col: nat, cur: Search, placed: Search, after: Search)
    requires Scanning(n, all, q, s, col, cur) && col < n && Safe(q, col)
    requires placed.board == Place(n, cur, |q|, col).board && placed.cols == Place(n, cur, |q|, col).cols
    requires placed.diag1 == Place(n, cur, |q|, col).diag1 && placed.diag2 == Place(n, cur, |q|, col).diag2
    requires placed.solutions == cur.solutions && placed.steps == cur.steps
    requires |q| + 1 <= n && Answered(n, all, q + [col], placed, false, after)
    ensures Scanning(n, all, q, s, col + 1, Remove(n, after, |q|, col).(events := Remove(n, after, |q|, col).events + [Backtracking(|q|, col, Remove(n, after, |q|, col).steps)]))
  {
    Removed(n, q, cur, col, after);
    Advance(n, q, col);
    BoardsAppend(n, CompletionsBelow(n, q, col), Completions(n, q + [col]));
  }

  lemma Logged(n: nat, all: bool, q: seq<nat>, s: Search, col: nat, cur: Search, e: Event)
    requires Scanning(n, all, q, s, col, cur) && !e.NoSolution?
    ensures Scanning(n, all, q, s, col, cur.(events := cur.events + [e]))
  {
  }

  /** An unsafe column has no completions, so the loop moves on with nothing to add. */
  lemma Skipped(n: nat, all: bool, q: seq<nat>, s: Search, col: nat, cur: Search, e: Event)
    requires Scanning(n, all, q, s, col, cur) && col < n && !Safe(q, col) && !e.NoSolution?
    ensures Scanning(n, all, q, s, col + 1, cur.(events := cur.events + [e]))
  {
    Advance(n, q, col);
    assert CompletionsBelow(n, q, col + 1) == CompletionsBelow(n, q, col) + [];
  }

  lemma Advance(n: nat, q: seq<nat>, col: nat)
    requires |q| < n && col < n
    ensures CompletionsBelow(n, q, col + 1)
         == CompletionsBelow(n, q, col) + (if Safe(q, col) then Completions(n, q + [col]) else [])
  {
  }

  /** With no completion in earlier columns, the first one through `col` comes first overall. */
  lemma FirstFound(n: nat, q: seq<nat>, col: nat)
    requires |q| < n && col < n && Safe(q, col) && CompletionsBelow(n, q, col) == []
    requires |Completions(n, q + [col])| > 0
    ensures |Completions(n, q)| > 0 && Completions(n, q)[0] == Completions(n, q + [col])[0]
  {
    BelowPrefix(n, q, col + 1, n);
    assert CompletionsBelow(n, q, col + 1) == Completions(n, q + [col]);
  }

  /** `Array(n).fill(null).map(() => Array(n).fill(0))`. */
  function EmptyBoard(n: nat): (b: Board)
    ensures b == BoardOf(n, [])
  {
    var b := seq(n, _ => seq(n, _ => 0));
    assert forall r :: 0 <= r < n ==> b[r] == BoardOf(n, [])[r];
    b
  }

  /**
    `solveNQueens`: looking for all solutions it returns exactly the solved boards;
    looking for one it returns the first, or none exactly when the puzzle has no solution.
    `solved` and `totalSolutions` agree with the list, and `no-solution` is reported last
    exactly when the list is empty. `Array(2 * n - 1)` rejects `n = 0`.
   */
  method SolveNQueens(n: nat, all: bool) returns (out: Outcome)
    requires n >= 1
    ensures all ==> forall b :: b in out.solutions <==> Solution(n, b)
    ensures !all ==> |out.solutions| <= 1 && forall b :: b in out.solutions ==> Solution(n, b)
    ensures !all ==> (|out.solutions| == 0 <==> forall b :: !Solution(n, b))
    ensures out.solved <==> |out.solutions| > 0
    ensures out.totalSolutions == |out.solutions|
    ensures |out.solutions| > 0 ==> out.board == out.solutions[0]
    ensures |out.solutions| == 0 ==> out.board == EmptyBoard(n)
    ensures (exists i :: 0 <= i < |out.events| && out.events[i].NoSolution?) <==> |out.solutions| == 0
  {
    var s := Search(EmptyBoard(n), seq(n, _ => false), seq(2 * n - 1, _ => false), seq(2 * n - 1, _ => false), [], 0, []);
    var solved;
    solved, s := SolveUtil(n, all, 0, [], s);
    if |s.solutions| == 0 {
      s := s.(events := s.events + [NoSolution(s.board, s.steps)]);
    }
    out := Outcome(solved || |s.solutions| > 0, if |s.solutions| > 0 then s.solutions[0] else s.board,
                   s.solutions, |s.solutions|, s.steps, s.events);
    if |s.solutions| > 0 {
      forall i | 0 <= i < |out.events| ensures !out.events[i].NoSolution? {
        assert out.events[i] in out.events;
      }
    } else {
      assert out.events[|out.events| - 1].NoSolution?;
    }
    Verdicts(n, all, out.solutions);
  }

  lemma Verdicts(n: nat, all: bool, solutions: seq<Board>)
    requires all ==> solutions == Boards(n, Completions(n, []))
    requires !all ==> solutions == First(n, Completions(n, []))
    ensures all ==> forall b :: b in solutions <==> Solution(n, b)
    ensures !all ==> forall b :: b in solutions ==> Solution(n, b)
    ensures !all ==> (|solutions| == 0 <==> forall b :: !Solution(n, b))
  {
    forall b ensures b in Boards(n, Completions(n, [])) <==> Solution(n, b) {
      AllSolutions(n, b);
    }
    SomeSolution(n);
    if |Completions(n, [])| > 0 {
      assert Boards(n, Completions(n, []))[0] == BoardOf(n, Completions(n, [])[0]);
    }
  }
}
