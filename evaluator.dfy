/**
 * The static evaluator: every 5-cell window that holds no stone of another
 * colour scores by the number of the player's stones in it and by how many
 * of its two ends are open; a player's total is the sum over every window,
 * and the evaluation is the player's total minus the opponent's.
 */
module Evaluator {
  import opened Wrappers
  import opened Board
  import opened Detector

  /** The score of one window holding `cnt` of the player's stones with `openEnds` open ends. */
  function LineScore(cnt: int, openEnds: int): (r: int)
    ensures r >= 0
    ensures r == 100000 <==> cnt >= WinLen
    ensures r > 0 <==> cnt >= 2
  {
    if cnt >= WinLen then 100000
    else if cnt == 4 then (if openEnds == 2 then 10000 else 1000)
    else if cnt == 3 then (if openEnds == 2 then 500 else 100)
    else if cnt == 2 then (if openEnds == 2 then 10 else 2)
    else 0
  }

  /** Only whether both ends are open matters: one open end scores as none. */
  lemma LineScoreTwoOpenEnds(c: int, e: int)
    requires e != 2
    ensures LineScore(c, e) == LineScore(c, 0)
    ensures 2 <= c < WinLen ==> LineScore(c, e) < LineScore(c, 2)
  {
  }

  /** More stones in a window, or more open ends, never lower its score. */
  lemma LineScoreMonotone(c: int, c': int, e: int, e': int)
    requires c <= c' && 0 <= e <= e' <= 2
    ensures LineScore(c, e) <= LineScore(c', e)
    ensures LineScore(c, e) <= LineScore(c, e')
  {
  }

  /** The five cells of the window, None for a cell off the board. */
  function WindowCells(g: Grid, x: int, y: int, dx: int, dy: int): (w: seq<Option<int>>)
    requires ValidGrid(g)
    ensures |w| == WinLen
  {
    seq(WinLen, i =>
      if InBounds(Along(x, dx, i), Along(y, dy, i)) then Some(g[Along(x, dx, i)][Along(y, dy, i)]) else None)
  }

  /** A window cell that disqualifies the window for player `p`. */
  predicate Blocks(c: Option<int>, p: int) {
    c != Some(p) && c != Some(EMPTY)
  }

  /**
   * The count of `p` stones among the cells `w`, walked in order, or None
   * as soon as a cell is off the board or holds something other than `p`
   * and EMPTY.
   */
  function CountIn(w: seq<Option<int>>, p: int): Option<nat> {
    if w == [] then Some(0)
    else if Blocks(w[0], p) then None
    else match CountIn(w[1..], p)
      case None => None
      case Some(c) => Some(if w[0] == Some(p) then c + 1 else c)
  }

  /** What the window loop of `evaluate_player` computes for the window at (x, y) along (dx, dy). */
  function WindowCount(g: Grid, x: int, y: int, dx: int, dy: int, p: int): Option<nat>
    requires ValidGrid(g)
  {
    CountIn(WindowCells(g, x, y, dx, dy), p)
  }

  lemma {:induction false} CountInMeaning(w: seq<Option<int>>, p: int)
    ensures CountIn(w, p).None? <==> exists j :: 0 <= j < |w| && Blocks(w[j], p)
    ensures CountIn(w, p).Some? ==> CountIn(w, p).value == multiset(w)[Some(p)]
  {
    if w != [] {
      CountInMeaning(w[1..], p);
      assert w == [w[0]] + w[1..];
      assert forall j :: 1 <= j < |w| ==> w[j] == w[1..][j - 1];
    }
  }

  /**
   * A window is skipped exactly when one of its five cells is off the board or
   * holds a stone of another colour; otherwise its count is the number of the
   * player's stones in it.
   */
  lemma WindowCountMeaning(g: Grid, x: int, y: int, dx: int, dy: int, p: int)
    requires ValidGrid(g)
    ensures var w := WindowCells(g, x, y, dx, dy);
      (WindowCount(g, x, y, dx, dy, p).None? <==> exists j :: 0 <= j < WinLen && Blocks(w[j], p)) &&
      (WindowCount(g, x, y, dx, dy, p).Some? ==> WindowCount(g, x, y, dx, dy, p).value == multiset(w)[Some(p)])
  {
    CountInMeaning(WindowCells(g, x, y, dx, dy), p);
  }

  /** The number of EMPTY cells just before the window and just after it (0, 1 or 2). */
  function OpenEnds(g: Grid, x: int, y: int, dx: int, dy: int): nat
    requires ValidGrid(g)
  {
    (if InBounds(x - dx, y - dy) && g[x - dx][y - dy] == EMPTY then 1 else 0) +
    (if InBounds(x + dx * WinLen, y + dy * WinLen) && g[x + dx * WinLen][y + dy * WinLen] == EMPTY then 1 else 0)
  }

  /** The contribution of the window at (x, y) in direction `k`. */
  function WindowScore(g: Grid, x: int, y: int, k: int, p: int): int
    requires ValidGrid(g) && 0 <= k < |Directions|
  {
    var (dx, dy) := Directions[k];
    match WindowCount(g, x, y, dx, dy, p)
    case None => 0
    case Some(c) => LineScore(c, OpenEnds(g, x, y, dx, dy))
  }

  /** The windows anchored at (x, y) in the first `k` directions. */
  function DirSum(g: Grid, p: int, x: int, y: int, k: nat): (r: int)
    requires ValidGrid(g) && k <= |Directions|
    ensures 0 <= r <= k * 100000
  {
    if k == 0 then 0 else DirSum(g, p, x, y, k - 1) + WindowScore(g, x, y, k - 1, p)
  }

  /** The windows anchored at the first `y` cells of row `x`. */
  function RowSum(g: Grid, p: int, x: int, y: nat): (r: int)
    requires ValidGrid(g) && y <= N
    ensures 0 <= r <= y * 400000
  {
    if y == 0 then 0 else RowSum(g, p, x, y - 1) + DirSum(g, p, x, y - 1, |Directions|)
  }

  /** The windows anchored in the first `x` rows. */
  function RowsSum(g: Grid, p: int, x: nat): (r: int)
    requires ValidGrid(g) && x <= N
    ensures 0 <= r <= x * N * 400000
  {
    if x == 0 then 0 else RowsSum(g, p, x - 1) + RowSum(g, p, x - 1, N)
  }

  /** What `evaluate_player` returns: the sum over every window of the board. */
  function PlayerScore(g: Grid, p: int): int
    requires ValidGrid(g)
  {
    RowsSum(g, p, N)
  }

  /** What `evaluate` returns. */
  function Score(g: Grid, p: int): int
    requires ValidGrid(g)
  {
    PlayerScore(g, p) - PlayerScore(g, Opponent(p))
  }

  /** A player's total is never negative and at most 100000 for each of the 900 windows. */
  lemma PlayerScoreBounds(g: Grid, p: int)
    requires ValidGrid(g)
    ensures 0 <= PlayerScore(g, p) <= N * N * |Directions| * 100000
  {
  }

  /** The evaluation is zero-sum between BLACK and WHITE. */
  lemma ScoreAntisymmetric(g: Grid)
    requires ValidGrid(g)
    ensures Score(g, BLACK) == -Score(g, WHITE)
    ensures Score(g, WHITE) == -Score(g, BLACK)
  {
  }

  lemma {:induction false} NoStoneCountsZero(w: seq<Option<int>>, p: int)
    requires forall j :: 0 <= j < |w| ==> w[j] != Some(p)
    ensures CountIn(w, p) in {None, Some(0)}
  {
    if w != [] {
      NoStoneCountsZero(w[1..], p);
    }
  }

  /** On the empty board the four windows anchored at any cell add to 0 for a player's stones. */
  lemma EmptyCell(p: int, x: int, y: int)
    requires p != EMPTY
    ensures DirSum(EmptyGrid(), p, x, y, |Directions|) == 0
  {
    var g := EmptyGrid();
    forall k | 0 <= k < |Directions|
      ensures WindowScore(g, x, y, k, p) == 0
    {
      NoStoneCountsZero(WindowCells(g, x, y, Directions[k].0, Directions[k].1), p);
    }
    assert DirSum(g, p, x, y, 1) == 0;
    assert DirSum(g, p, x, y, 2) == 0;
    assert DirSum(g, p, x, y, 3) == 0;
  }

  /** On the empty board the windows anchored at the first `y` cells of row `x` add to 0. */
  lemma {:induction false} EmptyRow(p: int, x: int, y: nat)
    requires p != EMPTY && y <= N
    ensures RowSum(EmptyGrid(), p, x, y) == 0
  {
    if y > 0 {
      EmptyCell(p, x, y - 1);
      EmptyRow(p, x, y - 1);
    }
  }

  /** On the empty board the windows anchored in the first `x` rows add to 0. */
  lemma {:induction false} EmptyRows(p: int, x: nat)
    requires p != EMPTY && x <= N
    ensures RowsSum(EmptyGrid(), p, x) == 0
  {
    if x > 0 {
      EmptyRow(p, x - 1, N);
      EmptyRows(p, x - 1);
    }
  }

  /** On the empty board every window has no stone of the player, so both totals and the evaluation are 0. */
  lemma EmptyBoardScoresZero(p: int)
    requires p != EMPTY
    ensures PlayerScore(EmptyGrid(), p) == 0
    ensures Score(EmptyGrid(), p) == 0
  {
    EmptyRows(p, N);
    EmptyRows(Opponent(p), N);
  }

  /** The window loop of `evaluate_player`: the count, or -1 for a skipped window. */
  method ScanWindow(b: array2<int>, x: int, y: int, dx: int, dy: int, player: int) returns (cnt: int)
    requires IsBoard(b) && UnitStep(dx, dy)
    ensures WindowCount(Snapshot(b), x, y, dx, dy, player) == if cnt == -1 then None else Some(cnt)
    ensures cnt >= -1
  {
    ghost var g := Snapshot(b);
    ghost var w := WindowCells(g, x, y, dx, dy);
    ghost var rest := w;
    cnt := 0;
    for i := 0 to WinLen
      invariant cnt >= 0
      invariant rest == w[i..]
      invariant CountIn(w, player) ==
        match CountIn(rest, player)
        case None => None
        case Some(c) => Some(c + cnt)
    {
      assert rest[0] == w[i];
      var nx, ny := Along(x, dx, i), Along(y, dy, i);
      if !InBounds(nx, ny) {
        return -1;
      }
      var cell := b[nx, ny];
      if cell == player {
        cnt := cnt + 1;
      } else if cell != EMPTY {
        return -1;
      }
      rest := rest[1..];
    }
  }

  /** One pass of the direction loop of `evaluate_player`: the score the window at (x, y) along direction `k` adds. */
  method WindowAt(b: array2<int>, x: int, y: int, k: int, player: int) returns (s: int)
    requires IsBoard(b) && 0 <= k < |Directions|
    ensures s == WindowScore(Snapshot(b), x, y, k, player)
  {
    ghost var g := Snapshot(b);
    var (dx, dy) := Directions[k];
    assert UnitStep(dx, dy) by { assert k == 0 || k == 1 || k == 2 || k == 3; }
    var cnt := ScanWindow(b, x, y, dx, dy, player);
    if cnt == -1 {
      return 0;
    }
    var openEnds := 0;
    var px, py := x - dx, y - dy;
    var ex, ey := x + dx * WinLen, y + dy * WinLen;
    if InBounds(px, py) && b[px, py] == EMPTY {
      openEnds := openEnds + 1;
    }
    if InBounds(ex, ey) && b[ex, ey] == EMPTY {
      openEnds := openEnds + 1;
    }
    assert openEnds == OpenEnds(g, x, y, dx, dy);
    s := LineScore(cnt, openEnds);
  }

  /** The direction loop of `evaluate_player`: the windows anchored at (x, y). */
  method CellScore(b: array2<int>, x: int, y: int, player: int) returns (score: int)
    requires IsBoard(b)
    ensures score == DirSum(Snapshot(b), player, x, y, |Directions|)
  {
    ghost var g := Snapshot(b);
    score := 0;
    for k := 0 to |Directions|
      invariant score == DirSum(g, player, x, y, k)
    {
      var s := WindowAt(b, x, y, k, player);
      score := score + s;
    }
  }

  /** `evaluate_player` as the program runs it on the board array. */
  method EvaluatePlayer(b: array2<int>, player: int) returns (score: int)
    requires IsBoard(b)
    ensures score == PlayerScore(Snapshot(b), player)
  {
    ghost var g := Snapshot(b);
    score := 0;
    for x := 0 to N
      invariant score == RowsSum(g, player, x)
    {
      for y := 0 to N
        invariant score == RowsSum(g, player, x) + RowSum(g, player, x, y)
      {
        var s := CellScore(b, x, y, player);
        score := score + s;
      }
    }
  }

  /** `evaluate` as the program runs it. */
  method Evaluate(b: array2<int>, player: int) returns (s: int)
    requires IsBoard(b)
    ensures s == Score(Snapshot(b), player)
  {
    var opponent := Opponent(player);
    var mine := EvaluatePlayer(b, player);
    var theirs := EvaluatePlayer(b, opponent);
    s := mine - theirs;
  }
}
