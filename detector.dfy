/**
 * Win and draw detection: `check_five` counts the stones in line with a cell
 * in each of the four directions, and `game_over` scans the board in
 * row-major order for the first stone that completes five in a row.
 */
module Detector {
  import opened Wrappers
  import opened Board

  /** The four line directions, in the order the program tries them. */
  const Directions: seq<(int, int)> := [(1, 0), (0, 1), (1, 1), (1, -1)]

  /** The two signs with which each direction is walked. */
  const Signs: seq<int> := [1, -1]

  datatype Outcome = Win(player: int) | Draw | InProgress

  predicate UnitStep(dx: int, dy: int) {
    -1 <= dx <= 1 && -1 <= dy <= 1 && (dx != 0 || dy != 0)
  }

  /** How many more steps of `dx` coordinate `x` can take inside the board. */
  function Room(x: int, dx: int): nat {
    if dx > 0 then (if x < N then N - x else 0)
    else if dx < 0 then (if x >= 0 then x + 1 else 0)
    else 0
  }

  /** A step that stays on the board leaves less room ahead. */
  lemma RoomShrinks(x: int, y: int, dx: int, dy: int)
    requires UnitStep(dx, dy) && InBounds(x + dx, y + dy)
    ensures Room(x + dx, dx) + Room(y + dy, dy) < Room(x, dx) + Room(y, dy)
  {
  }

  /** Coordinate `x` after `i` steps of `dx`, for a step of -1, 0 or 1 (that is, x + i * dx). */
  function Along(x: int, dx: int, i: int): int {
    if dx > 0 then x + i else if dx < 0 then x - i else x
  }

  /** The cell `i` steps from (x, y) in direction (dx, dy) is on the board and holds `p`. */
  predicate OnRay(g: Grid, x: int, y: int, dx: int, dy: int, p: int, i: int)
    requires ValidGrid(g)
  {
    InBounds(Along(x, dx, i), Along(y, dy, i)) && g[Along(x, dx, i)][Along(y, dy, i)] == p
  }

  /**
   * The number of consecutive cells holding `p` beyond (x, y) in direction
   * (dx, dy): the walk stops at the first cell that is off the board or
   * holds something else.
   */
  function Ray(g: Grid, x: int, y: int, dx: int, dy: int, p: int): nat
    requires ValidGrid(g) && UnitStep(dx, dy)
    decreases Room(x, dx) + Room(y, dy)
  {
    if InBounds(x + dx, y + dy) && g[x + dx][y + dy] == p then 1 + Ray(g, x + dx, y + dy, dx, dy, p)
    else 0
  }

  /** The count `check_five` forms for one direction: the cell itself plus both rays. */
  function Line(g: Grid, x: int, y: int, dx: int, dy: int, p: int): nat
    requires ValidGrid(g) && UnitStep(dx, dy)
  {
    1 + Ray(g, x, y, dx, dy, p) + Ray(g, x, y, -dx, -dy, p)
  }

  function LineIn(g: Grid, x: int, y: int, k: int, p: int): nat
    requires ValidGrid(g) && 0 <= k < |Directions|
  {
    Line(g, x, y, Directions[k].0, Directions[k].1, p)
  }

  /** What `check_five` decides: the line through (x, y) in some direction is at least five long. */
  predicate Five(g: Grid, x: int, y: int, p: int)
    requires ValidGrid(g)
  {
    exists k :: 0 <= k < |Directions| && LineIn(g, x, y, k, p) >= WinLen
  }

  /** Stepping once along (dx, dy) shifts the ray by one cell. */
  lemma OnRayShift(g: Grid, x: int, y: int, dx: int, dy: int, p: int, i: int)
    requires ValidGrid(g) && UnitStep(dx, dy)
    ensures OnRay(g, x, y, dx, dy, p, i) == OnRay(g, x + dx, y + dy, dx, dy, p, i - 1)
  {
  }

  /** `Ray` is the length of the maximal run: every cell of it holds `p`, and the next one does not. */
  lemma RayIsMaximalRun(g: Grid, x: int, y: int, dx: int, dy: int, p: int)
    requires ValidGrid(g) && UnitStep(dx, dy)
    ensures forall i :: 1 <= i <= Ray(g, x, y, dx, dy, p) ==> OnRay(g, x, y, dx, dy, p, i)
    ensures !OnRay(g, x, y, dx, dy, p, Ray(g, x, y, dx, dy, p) + 1)
  {
    forall i | 1 <= i <= Ray(g, x, y, dx, dy, p)
      ensures OnRay(g, x, y, dx, dy, p, i)
    {
      RayHolds(g, x, y, dx, dy, p, i);
    }
    RayStops(g, x, y, dx, dy, p);
  }

  lemma {:induction false} RayHolds(g: Grid, x: int, y: int, dx: int, dy: int, p: int, i: int)
    requires ValidGrid(g) && UnitStep(dx, dy)
    requires 1 <= i <= Ray(g, x, y, dx, dy, p)
    ensures OnRay(g, x, y, dx, dy, p, i)
    decreases i
  {
    OnRayShift(g, x, y, dx, dy, p, i);
    if i > 1 {
      RayHolds(g, x + dx, y + dy, dx, dy, p, i - 1);
    }
  }

  lemma {:induction false} RayStops(g: Grid, x: int, y: int, dx: int, dy: int, p: int)
    requires ValidGrid(g) && UnitStep(dx, dy)
    ensures !OnRay(g, x, y, dx, dy, p, Ray(g, x, y, dx, dy, p) + 1)
    decreases Room(x, dx) + Room(y, dy)
  {
    var n := Ray(g, x, y, dx, dy, p);
    OnRayShift(g, x, y, dx, dy, p, n + 1);
    if n > 0 {
      RoomShrinks(x, y, dx, dy);
      RayStops(g, x + dx, y + dy, dx, dy, p);
    }
  }

  /** A run of `k` cells holding `p` beyond (x, y) makes `Ray` at least `k`. */
  lemma {:induction false} RayAtLeast(g: Grid, x: int, y: int, dx: int, dy: int, p: int, k: nat)
    requires ValidGrid(g) && UnitStep(dx, dy)
    requires forall i :: 1 <= i <= k ==> OnRay(g, x, y, dx, dy, p, i)
    ensures Ray(g, x, y, dx, dy, p) >= k
    decreases k
  {
    if k > 0 {
      assert OnRay(g, x, y, dx, dy, p, 1);
      var x', y' := x + dx, y + dy;
      forall i | 1 <= i <= k - 1
        ensures OnRay(g, x', y', dx, dy, p, i)
      {
        assert OnRay(g, x, y, dx, dy, p, i + 1);
        OnRayShift(g, x, y, dx, dy, p, i + 1);
      }
      RayAtLeast(g, x', y', dx, dy, p, k - 1);
    }
  }

  /** The scanning order of `game_over`: cell (i, j) comes before cell (x, y). */
  predicate Before(i: int, j: int, x: int, y: int) {
    i < x || (i == x && j < y)
  }

  /** The cell (x, y) holds a stone that completes five for its own colour. */
  predicate WinningCell(g: Grid, x: int, y: int)
    requires ValidGrid(g)
  {
    InBounds(x, y) && g[x][y] != EMPTY && Five(g, x, y, g[x][y])
  }

  predicate Full(g: Grid)
    requires ValidGrid(g)
  {
    forall i, j :: 0 <= i < N && 0 <= j < N ==> g[i][j] != EMPTY
  }

  /**
   * What `game_over` returns: the colour of the first winning stone in
   * row-major order; with no winning stone, Draw on a full board and
   * InProgress otherwise.
   */
  ghost function OutcomeOf(g: Grid): Outcome
    requires ValidGrid(g)
  {
    if exists x, y :: WinningCell(g, x, y) then
      FirstWinningCellExists(g);
      var x, y :| FirstWinningCell(g, x, y);
      Win(g[x][y])
    else if Full(g) then Draw
    else InProgress
  }

  ghost predicate FirstWinningCell(g: Grid, x: int, y: int)
    requires ValidGrid(g)
  {
    WinningCell(g, x, y) && forall i, j :: Before(i, j, x, y) ==> !WinningCell(g, i, j)
  }

  ghost predicate NoWinningCell(g: Grid)
    requires ValidGrid(g)
  {
    forall i, j :: !WinningCell(g, i, j)
  }

  /** Below any winning cell (a, b) lies a first one in row-major order. */
  lemma {:induction false} FirstWinningCellBelow(g: Grid, a: int, b: int)
    requires ValidGrid(g) && WinningCell(g, a, b)
    ensures exists x, y :: FirstWinningCell(g, x, y) && !Before(a, b, x, y)
    decreases a, b
  {
    if !FirstWinningCell(g, a, b) {
      var i, j :| Before(i, j, a, b) && WinningCell(g, i, j);
      FirstWinningCellBelow(g, i, j);
    } else {
      assert !Before(a, b, a, b);
    }
  }

  /** Some winning cell is the first one in row-major order. */
  lemma FirstWinningCellExists(g: Grid)
    requires ValidGrid(g) && exists x, y :: WinningCell(g, x, y)
    ensures exists x, y :: FirstWinningCell(g, x, y)
  {
    var a, b :| WinningCell(g, a, b);
    FirstWinningCellBelow(g, a, b);
  }

  /** There is only one first winning cell. */
  lemma FirstWinningCellUnique(g: Grid, x: int, y: int, x': int, y': int)
    requires ValidGrid(g) && FirstWinningCell(g, x, y) && FirstWinningCell(g, x', y')
    ensures x == x' && y == y'
  {
  }

  /**
   * `game_over` returns the colour of the first winning stone in row-major
   * order; with no winning stone it returns Draw exactly when the board is
   * full, and InProgress otherwise.
   */
  lemma OutcomeOfCharacterized(g: Grid)
    requires ValidGrid(g)
    ensures forall x, y :: FirstWinningCell(g, x, y) ==> OutcomeOf(g) == Win(g[x][y])
    ensures NoWinningCell(g) ==> OutcomeOf(g) == (if Full(g) then Draw else InProgress)
    ensures OutcomeOf(g).Win? ==> !NoWinningCell(g)
  {
  }

  /**
   * Five stones of one colour in a row, starting at (x, y) in one of the four
   * directions, make (x, y) a winning cell, so `game_over` reports a win; the
   * win is for that colour when no other colour has a winning cell.
   */
  lemma FiveInARowWins(g: Grid, x: int, y: int, k: int, p: int)
    requires ValidGrid(g) && 0 <= k < |Directions| && p != EMPTY
    requires forall i :: 0 <= i < WinLen ==> OnRay(g, x, y, Directions[k].0, Directions[k].1, p, i)
    ensures WinningCell(g, x, y) && g[x][y] == p
    ensures OutcomeOf(g).Win?
    ensures (forall i, j :: WinningCell(g, i, j) ==> g[i][j] == p) ==> OutcomeOf(g) == Win(p)
  {
    var (dx, dy) := Directions[k];
    assert UnitStep(dx, dy) by { assert k == 0 || k == 1 || k == 2 || k == 3; }
    assert OnRay(g, x, y, dx, dy, p, 0);
    RayAtLeast(g, x, y, dx, dy, p, WinLen - 1);
    assert LineIn(g, x, y, k, p) >= WinLen;
    FirstWinningCellBelow(g, x, y);
    OutcomeOfCharacterized(g);
  }

  /** The inner walk of `check_five`: count the cells holding `p` beyond (x, y) along (sx, sy). */
  method WalkRay(b: array2<int>, x: int, y: int, sx: int, sy: int, p: int) returns (n: nat)
    requires IsBoard(b) && UnitStep(sx, sy)
    ensures n == Ray(Snapshot(b), x, y, sx, sy, p)
  {
    ghost var g := Snapshot(b);
    n := 0;
    var nx, ny := x + sx, y + sy;
    while InBounds(nx, ny) && b[nx, ny] == p
      invariant n + Ray(g, nx - sx, ny - sy, sx, sy, p) == Ray(g, x, y, sx, sy, p)
      decreases Room(nx, sx) + Room(ny, sy)
    {
      n := n + 1;
      nx := nx + sx;
      ny := ny + sy;
    }
  }

  /** `check_five` as the program runs it on the board array. */
  method CheckFive(b: array2<int>, x: int, y: int, p: int) returns (r: bool)
    requires IsBoard(b)
    ensures r == Five(Snapshot(b), x, y, p)
  {
    ghost var g := Snapshot(b);
    for k := 0 to |Directions|
      invariant forall k' :: 0 <= k' < k ==> LineIn(g, x, y, k', p) < WinLen
    {
      var (dx, dy) := Directions[k];
      assert UnitStep(dx, dy) by { assert k == 0 || k == 1 || k == 2 || k == 3; }
      var cnt := 1;
      for s := 0 to |Signs|
        invariant cnt == 1 + (if s > 0 then Ray(g, x, y, dx, dy, p) else 0)
                           + (if s > 1 then Ray(g, x, y, -dx, -dy, p) else 0)
      {
        var sign := Signs[s];
        assert sign == if s == 0 then 1 else -1;
        var run := WalkRay(b, x, y, dx * sign, dy * sign, p);
        cnt := cnt + run;
      }
      assert cnt == LineIn(g, x, y, k, p);
      if cnt >= WinLen {
        return true;
      }
    }
    return false;
  }

  /** The first loop of `game_over`: the first winning cell in row-major order, if any. */
  method FindWinningCell(b: array2<int>) returns (c: Option<Move>)
    requires IsBoard(b)
    ensures c.None? ==> NoWinningCell(Snapshot(b))
    ensures c.Some? ==> FirstWinningCell(Snapshot(b), c.value.0, c.value.1)
  {
    ghost var g := Snapshot(b);
    for x := 0 to N
      invariant forall i, j :: Before(i, j, x, 0) ==> !WinningCell(g, i, j)
    {
      for y := 0 to N
        invariant forall i, j :: Before(i, j, x, y) ==> !WinningCell(g, i, j)
      {
        var p := b[x, y];
        if p != EMPTY {
          var five := CheckFive(b, x, y, p);
          if five {
            return Some((x, y));
          }
        }
      }
    }
    return None;
  }

  /** The second loop of `game_over`: whether no cell is EMPTY. */
  method IsFull(b: array2<int>) returns (full: bool)
    requires IsBoard(b)
    ensures full == Full(Snapshot(b))
  {
    ghost var g := Snapshot(b);
    for x := 0 to N
      invariant forall i, j :: 0 <= i < x && 0 <= j < N ==> g[i][j] != EMPTY
    {
      for y := 0 to N
        invariant forall j :: 0 <= j < y ==> g[x][j] != EMPTY
      {
        if b[x, y] == EMPTY {
          return false;
        }
      }
    }
    return true;
  }

  /** `game_over` as the program runs it on the board array. */
  method GameOver(b: array2<int>) returns (o: Outcome)
    requires IsBoard(b)
    ensures o == OutcomeOf(Snapshot(b))
  {
    OutcomeOfCharacterized(Snapshot(b));
    var c := FindWinningCell(b);
    if c.Some? {
      return Win(b[c.value.0, c.value.1]);
    }
    var full := IsFull(b);
    return if full then Draw else InProgress;
  }
}
