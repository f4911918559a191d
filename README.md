# Gomoku engine in Dafny

A verified model of a small Gomoku (five-in-a-row) engine on a fixed 15 x 15
board. The cells are 0 (EMPTY), 1 (BLACK) and 2 (WHITE). The engine consists of:

- bounds checking and board creation;
- win and draw detection: `check_five` counts the run through a cell in four
  directions, and `game_over` scans the board row by row;
- a static evaluator: every 5-cell window without a foreign stone scores by its
  stone count and its open ends;
- a candidate-move generator: the EMPTY Moore neighbours of the stones, or the
  centre when there are none;
- a depth-limited alpha-beta `minimax`, which places and removes stones on the
  board in place;
- the move chooser `ai_move`, built on `minimax`.

The program's loops are modelled as Dafny methods.

- The board is an `array2<int>`.
- Each method is proved against a value-level specification over
  `Grid = seq<seq<int>>`. The ghost function `Board.Snapshot` reads an array
  as a grid.
- The properties of the program are proved as lemmas about those
  specifications.

Modules:

| file | module | contents |
|---|---|---|
| `wrappers.dfy` | `Wrappers` | `Option` |
| `board.dfy` | `Board` | constants, grids, `in_bounds`, `create_board`, placing a stone |
| `detector.dfy` | `Detector` | `check_five`, `game_over`, and the outcome `Win(p) / Draw / InProgress` in place of the program's `p / 'draw' / None` |
| `evaluator.dfy` | `Evaluator` | `line_score`, `evaluate_player`, `evaluate` |
| `moves.dfy` | `Moves` | `get_valid_moves`, and the order in which the search tries the candidates |
| `search.dfy` | `Search` | `minimax`, `ai_move`, the extended integers `NegInf / Finite(n) / PosInf` in place of `math.inf` |
| `pruning.dfy` | `Pruning` | an unpruned minimax reference, and the proof that the alpha-beta search returns its value |

Design points:

- **The search specification.** `Search.AlphaBeta` is the value-level
  definition of what `minimax` returns. It mirrors the program branch by
  branch, including the `alpha >= beta` and `beta <= alpha` cut-offs.
  `Search.Minimax` runs on the array and is proved to return exactly
  `AlphaBeta` of the board it was given, and to leave the array as it found it.
- **The order of the candidates.** `get_valid_moves` returns `list(set)`, and
  the order of that list is not fixed by the language. The model lists the set
  in row-major order (`Moves.RowMajor`), then sorts stably by Manhattan
  distance to the centre (`Moves.SortByCentre`), as `moves.sort(key=...)`
  does. The search therefore tries candidates by increasing distance, and at
  equal distance in row-major order (`Moves.OrderedMeaning`).
- **Two behaviours of the code worth noting:**
  - `line_score` gives 1000, 100 and 2 to windows of 4, 3 and 2 stones with
    *no* open end, the same as with one open end (`Gomoku.py:43-47`).
  - `get_valid_moves` falls back to the centre whenever no EMPTY cell is next
    to a stone. This happens on an empty board, and also on a full board
    (`Gomoku.py:93-94`). The search never reaches the full-board case, since it
    stops at a draw first (`Moves.CandidatesAreEmpty`).

## Model

The specification functions that carry no contract of their own (`Board.InBounds`, `Search.AlphaBeta`, `Search.MaxLoop`, `Search.MinLoop`, `Moves.Insert`, `Moves.SortByCentre`) are covered by the rows of the lemmas about them: `Board.InBoundsIsCell`, `Search.AlphaBetaResult`, `Search.MaxLoopResult`, `Search.MinLoopResult`, `Moves.InsertPermutes`, `Moves.InsertSorted`, `Moves.SortPermutes`, `Moves.SortOrdersByCentre` and `Pruning.AlphaBetaIsMinimax`.

| member | source | states |
|---|---|---|
| Board.InBoundsIsCell | Gomoku.py:10-11 | `in_bounds(x, y)` holds exactly for the indices of a cell of the 15 x 15 board |
| Board.Opponent | Gomoku.py:80 | the opponent, computed the same way again at line 125, is always a stone colour, and the other colour when the player is one |
| Board.CreateBoard | Gomoku.py:13-14 | a new board is a fresh 15 x 15 array whose every cell is EMPTY |
| Board.Place | Gomoku.py:115 | putting a stone sets that one cell and leaves every other cell as it was |
| Board.PlaceThenClear | Gomoku.py:115-117 | putting a stone on an EMPTY cell and clearing it again gives back the same board |
| Detector.WalkRay | Gomoku.py:20-24 | the inner walk of `check_five` counts exactly the run of the player's stones beyond the cell in one direction |
| Detector.RayIsMaximalRun | Gomoku.py:21-24 | that count is a maximal run: each of the counted cells holds the player's stone, and the next cell is off the board or holds something else |
| Detector.RayAtLeast | Gomoku.py:21-24 | any run of k of the player's stones beyond the cell makes the count at least k |
| Detector.CheckFive | Gomoku.py:16-27 | `check_five` is true exactly when, in one of the four directions, the cell plus both runs counts at least five |
| Detector.FiveInARowWins | Gomoku.py:16-37 | five stones of one colour in a row make their first cell a winning cell, so `game_over` reports a win, for that colour when no other colour has a winning cell |
| Detector.FirstWinningCellBelow | Gomoku.py:30-34 | below any winning cell lies a first winning cell in row-major order |
| Detector.FirstWinningCellExists | Gomoku.py:30-34 | a board with a winning cell has a first one in row-major order |
| Detector.FirstWinningCellUnique | Gomoku.py:30-34 | there is only one first winning cell in row-major order |
| Detector.OutcomeOfCharacterized | Gomoku.py:29-37 | `game_over` reports the colour of the first winning stone in row-major order; without one it reports a draw exactly when no cell is EMPTY, otherwise that the game goes on |
| Detector.FindWinningCell | Gomoku.py:30-34 | the row-major scan returns the first winning cell, or none when no cell is winning |
| Detector.IsFull | Gomoku.py:35 | the draw test is true exactly when no cell is EMPTY |
| Detector.GameOver | Gomoku.py:29-37 | `game_over` on the array returns the outcome the characterization describes |
| Evaluator.LineScore | Gomoku.py:39-48 | a window's score is never negative; it is 100000 exactly when the count is at least five, and positive exactly when the count is at least two |
| Evaluator.LineScoreTwoOpenEnds | Gomoku.py:42-47 | only two open ends raise a score: one open end scores as none, and for 2 to 4 stones strictly less than two open ends |
| Evaluator.LineScoreMonotone | Gomoku.py:39-48 | more stones, or more open ends, never lower a window's score |
| Evaluator.CountInMeaning | Gomoku.py:57-67 | walking a window's cells gives none exactly when one cell is off the board or holds a foreign stone, and otherwise the number of the player's stones among them |
| Evaluator.WindowCountMeaning | Gomoku.py:55-69 | a window is skipped exactly when one of its five cells is off the board or holds another colour; otherwise its count is the number of the player's stones in it |
| Evaluator.ScanWindow | Gomoku.py:55-67 | the window loop returns -1 for a skipped window and otherwise its count |
| Evaluator.WindowAt | Gomoku.py:55-76 | one direction at one cell adds the window's line score with its open ends before the start and at offset 5, or 0 for a skipped window |
| Evaluator.DirSum | Gomoku.py:54-76 | the windows anchored at one cell add between 0 and 100000 each |
| Evaluator.RowSum | Gomoku.py:53-76 | the windows anchored in part of a row add between 0 and 400000 per cell |
| Evaluator.RowsSum | Gomoku.py:52-76 | the windows anchored in the first rows add between 0 and 400000 per cell |
| Evaluator.CellScore | Gomoku.py:54-76 | the direction loop adds the four windows anchored at the cell |
| Evaluator.EvaluatePlayer | Gomoku.py:50-77 | `evaluate_player` returns the sum over every anchor cell and direction of the window scores |
| Evaluator.Evaluate | Gomoku.py:79-81 | `evaluate` returns the player's total minus the opponent's |
| Evaluator.PlayerScoreBounds | Gomoku.py:50-77 | a player's total is at least 0 and at most 100000 for each of the 900 windows |
| Evaluator.ScoreAntisymmetric | Gomoku.py:79-81 | the evaluation for BLACK is the negation of the evaluation for WHITE |
| Evaluator.NoStoneCountsZero | Gomoku.py:57-67 | a window without the player's stones counts 0 or is skipped |
| Evaluator.EmptyRows | Gomoku.py:52-76 | on the empty board the windows of any number of rows add to 0 |
| Evaluator.EmptyCell | Gomoku.py:54-76 | on the empty board the four windows anchored at any cell add to 0 for a player's stones |
| Evaluator.EmptyRow | Gomoku.py:53-76 | on the empty board the windows anchored at any prefix of a row add to 0 |
| Evaluator.EmptyBoardScoresZero | Gomoku.py:50-81 | on the empty board the player's total and the evaluation are both 0 |
| Moves.FoundBeforeStep | Gomoku.py:85-92 | visiting one cell adds the EMPTY neighbours of the stone there, if there is one, and nothing else |
| Moves.FoundBeforeRow | Gomoku.py:85-86 | finishing a row is the same as starting the next one |
| Moves.FoundBeforeAll | Gomoku.py:84-92 | after the full scan the set holds exactly the EMPTY cells next to some stone |
| Moves.AddNeighbours | Gomoku.py:88-92 | the neighbour loops add exactly the in-bounds EMPTY cells within one step of the stone |
| Moves.GetValidMoves | Gomoku.py:83-95 | `get_valid_moves` returns the candidate set listed in row-major order |
| Moves.StoneNextToEmpty | Gomoku.py:83-95 | a board holding a stone and an EMPTY cell has an EMPTY cell next to a stone |
| Moves.CandidatesOfEmptyBoard | Gomoku.py:93-94 | on the empty board no cell is next to a stone and the candidates are exactly the centre |
| Moves.CandidatesOfMixedBoard | Gomoku.py:83-95 | on a board with a stone and an EMPTY cell, the candidates are exactly the in-bounds EMPTY cells 8-adjacent to some stone |
| Moves.CandidatesInBounds | Gomoku.py:83-95 | the candidate set is never empty, and every candidate is a cell of the board |
| Moves.CandidatesAreEmpty | Gomoku.py:109-117 | while the game is in progress every candidate is an EMPTY cell |
| Moves.RowMajor | Gomoku.py:95 | the listed set holds exactly the set's cells on the board, in row-major order |
| Moves.RowMajorFromMeaning | Gomoku.py:95 | the row-major listing from a cell on holds exactly the set's cells from there on, in row-major order |
| Moves.RowMajorUnique | Gomoku.py:95 | two row-major lists of the same cells are equal |
| Moves.RowMajorComputed | Gomoku.py:95 | the executable listing equals the row-major list of the set |
| Moves.InsertPermutes | Gomoku.py:110 | inserting a move into a list adds exactly that move |
| Moves.InsertSorted | Gomoku.py:110 | inserting a move that comes first in row-major order into a centre-sorted list keeps it centre-sorted |
| Moves.SortPermutes | Gomoku.py:110 | sorting by distance to the centre keeps exactly the elements of the list |
| Moves.SortOrdersByCentre | Gomoku.py:110 | stable sorting of a row-major list puts closer cells first and keeps row-major order at equal distance |
| Moves.OrderedMeaning | Gomoku.py:109-110 | the search tries every candidate exactly once, closest to the centre first, and tries at least one |
| Moves.ValidMovesMeaning | Gomoku.py:83-95 | `get_valid_moves` never returns an empty list, lists each candidate exactly once, and lists nothing else |
| Moves.ValidMovesOfEmptyBoard | Gomoku.py:93-95 | on the empty board `get_valid_moves` returns exactly `[(7, 7)]` |
| Moves.OrderedOfEmptyBoard | Gomoku.py:109-110 | on the empty board the search tries only the centre |
| Search.LtIsStrictTotalOrder | Gomoku.py:118 | the comparison of scores, with the two infinities, is a strict total order |
| Search.Max | Gomoku.py:120 | `max(alpha, value)` is one of its arguments and not below either |
| Search.Min | Gomoku.py:133 | `min(beta, value)` is one of its arguments and not above either |
| Search.TerminalScores | Gomoku.py:97-106 | a win for the root player scores 1000000, a win for anybody else -1000000, a draw 0, and an unfinished position at depth 0 its evaluation, each with no move |
| Search.FiveInARowScores | Gomoku.py:97-102 | five of the root player's stones in a row, with no other colour winning, score 1000000; five of another colour's score -1000000 |
| Search.AlphaBetaResult | Gomoku.py:97-136 | every search returns a finite score, and it proposes a move exactly when the game is in progress with depth left; that move is one of the candidates of `get_valid_moves` |
| Search.MaxLoopResult | Gomoku.py:112-123 | the maximizing loop returns a finite score and either the move it was given or one of the listed moves |
| Search.MinLoopResult | Gomoku.py:124-136 | the minimizing loop returns a finite score and either the move it was given or one of the listed moves |
| Search.TryMove | Gomoku.py:115-117 | one pass of the loop puts the stone, searches, and clears the cell: it returns the reply's score and restores the board |
| Search.SearchMax | Gomoku.py:112-123 | the maximizing loop over the array computes the specified loop, cut-off included, and restores the board |
| Search.SearchMin | Gomoku.py:124-136 | the minimizing loop over the array computes the specified loop, cut-off included, and restores the board |
| Search.Minimax | Gomoku.py:97-136 | `minimax` on the array returns exactly the specified search result of the board it was given, and leaves the board as it was on every path |
| Search.AiMove | Gomoku.py:138-140 | `ai_move` leaves the board as it was and returns a candidate of `get_valid_moves`: the root search's move when there is one, and otherwise the entry of `get_valid_moves` that `choice` selects |
| Search.EmptyBoardOpensInCentre | Gomoku.py:108-123 | on the empty board, at any depth of at least 1, the root search chooses the centre |
| Pruning.AlphaBetaBounds | Gomoku.py:97-136 | within a window alpha < beta the search returns the minimax value when it lies strictly inside the window, a score at or below alpha when it lies at or below alpha, and a score at or above beta when it lies at or above beta |
| Pruning.MaxLoopBounds | Gomoku.py:112-123 | the maximizing loop relates its score to the best reply over the remaining moves, as the search does to the minimax value |
| Pruning.MinLoopBounds | Gomoku.py:124-136 | the minimizing loop relates its score to the worst reply over the remaining moves, as the search does to the minimax value |
| Pruning.AlphaBetaIsMinimax | Gomoku.py:138-139 | searched with the window (-inf, +inf), as `ai_move` starts it, the search returns exactly the unpruned minimax value |

## Left out

- `random.choice` in `ai_move` (`Gomoku.py:140`) is modelled by the parameter `choice`, which picks an entry of `get_valid_moves`. The model states which entry is taken for a given `choice` and that it is always a candidate. It does not model randomness.
- `math.inf` (`Gomoku.py:113`, `126`, `139`) is modelled by the `Value` datatype with `NegInf` and `PosInf`, not by floating point.
- The unused `deepcopy` import (`Gomoku.py:3`) is left out; it has no effect.
- Search.Minimax: depth is a natural number, and so is the depth of Search.AiMove. With a negative depth the program's `depth == 0` test never holds, so its search would run on until the game ends in a win or a full board; this is not modelled, because no call in the program passes a negative depth.
- Moves.GetValidMoves: the order of `list(set)` is not fixed by the language. The model uses row-major order, so which of several equal-valued moves the search picks is a property of this choice.
- Node counts and the efficiency of pruning are not modelled; only the results of the search are.
- Board.CreateBoard: the board is a fixed 15 x 15 array. A board of another shape, and aliasing between rows of a list-of-lists, are not modelled, because `create_board` never builds either.
- Python integers are unbounded and so are Dafny's, so no overflow is modelled; none can occur.
