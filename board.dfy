/**
 * The Gomoku board: a fixed 15 x 15 grid of cells, each EMPTY, BLACK or WHITE.
 *
 * The running program keeps the board in an `array2<int>`; the specifications
 * talk about its contents as a value of type `Grid` (row-major nested
 * sequences), obtained with `Snapshot`.
 */
module Board {
  const N: int := 15          // board size
  const WinLen: int := 5      // stones in a row needed to win
  const EMPTY: int := 0
  const BLACK: int := 1
  const WHITE: int := 2
  const Centre: int := N / 2

  type Grid = seq<seq<int>>
  type Move = (int, int)

  predicate ValidGrid(g: Grid) {
    |g| == N && forall i :: 0 <= i < N ==> |g[i]| == N
  }

  predicate InBounds(x: int, y: int) {
    0 <= x < N && 0 <= y < N
  }

  predicate IsBoard(b: array2<int>) {
    b.Length0 == N && b.Length1 == N
  }

  /** The opponent of `p`, as the program computes it: BLACK for WHITE, WHITE for anything else. */
  function Opponent(p: int): (q: int)
    ensures q == BLACK || q == WHITE
    ensures p == BLACK || p == WHITE ==> q != p
  {
    if p == WHITE then BLACK else WHITE
  }

  /** The contents of a board array, as a grid value. */
  ghost function Snapshot(b: array2<int>): (g: Grid)
    requires IsBoard(b)
    reads b
    ensures ValidGrid(g)
    ensures forall i, j :: InBounds(i, j) ==> g[i][j] == b[i, j]
  {
    seq(N, i requires 0 <= i < N reads b =>
      seq(N, j requires 0 <= j < N reads b => b[i, j]))
  }

  /** The grid with every cell EMPTY. */
  ghost function EmptyGrid(): (g: Grid)
    ensures ValidGrid(g)
    ensures forall i, j :: InBounds(i, j) ==> g[i][j] == EMPTY
  {
    seq(N, _ => seq(N, _ => EMPTY))
  }

  /** The grid `g` with cell (x, y) set to `v`. */
  function Place(g: Grid, x: int, y: int, v: int): (r: Grid)
    requires ValidGrid(g) && InBounds(x, y)
    ensures ValidGrid(r)
    ensures r[x][y] == v
    ensures forall i, j :: InBounds(i, j) && (i != x || j != y) ==> r[i][j] == g[i][j]
  {
    g[x := g[x][y := v]]
  }

  /** Two grids that agree on every cell are equal. */
  lemma GridsEqual(g: Grid, h: Grid)
    requires ValidGrid(g) && ValidGrid(h)
    requires forall i, j :: InBounds(i, j) ==> g[i][j] == h[i][j]
    ensures g == h
  {
    forall i | 0 <= i < N
      ensures g[i] == h[i]
    {
      assert forall j :: 0 <= j < N ==> g[i][j] == h[i][j];
    }
  }

  /** Placing a stone on an EMPTY cell and clearing it again gives back the grid. */
  lemma PlaceThenClear(g: Grid, x: int, y: int, v: int)
    requires ValidGrid(g) && InBounds(x, y) && g[x][y] == EMPTY
    ensures Place(Place(g, x, y, v), x, y, EMPTY) == g
  {
    GridsEqual(Place(Place(g, x, y, v), x, y, EMPTY), g);
  }

  /** `InBounds` accepts exactly the coordinates of a cell of the board. */
  lemma InBoundsIsCell(g: Grid, x: int, y: int)
    requires ValidGrid(g)
    ensures InBounds(x, y) <==> 0 <= x < |g| && 0 <= y < N && 0 <= y < |g[x]|
  {
  }

  /** A new board: a 15 x 15 array with every cell EMPTY. */
  method CreateBoard() returns (b: array2<int>)
    ensures fresh(b) && IsBoard(b)
    ensures Snapshot(b) == EmptyGrid()
  {
    b := new int[N, N]((_, _) => EMPTY);
    GridsEqual(Snapshot(b), EmptyGrid());
  }
}
