/**
 * The depth-limited alpha-beta search and the move chooser built on it.
 *
 * `AlphaBeta` is the value-level definition of what `minimax` returns (a
 * move, or none, and a score); `Minimax` is the program's in-place search
 * over the board array, which places a stone, searches, and clears the cell
 * again, and is proved to compute `AlphaBeta` and to leave the board as it
 * found it.
 */
module Search {
  import opened Wrappers
  import opened Board
  import opened Detector
  import opened Evaluator
  import opened Moves

  /** The score of a won (or, negated, a lost) position. */
  const WinScore: int := 1000000

  /** A search score: an integer, or one of the infinities the search starts from. */
  datatype Value = NegInf | Finite(n: int) | PosInf

  /** The order of the extended integers. */
  predicate Lt(a: Value, b: Value) {
    match a
    case NegInf => !b.NegInf?
    case Finite(m) => b.PosInf? || (b.Finite? && m < b.n)
    case PosInf => false
  }

  /** `Lt` is a strict total order. */
  lemma LtIsStrictTotalOrder(a: Value, b: Value, c: Value)
    ensures !Lt(a, a)
    ensures Lt(a, b) && Lt(b, c) ==> Lt(a, c)
    ensures a == b || Lt(a, b) || Lt(b, a)
    ensures !(Lt(a, b) && Lt(b, a))
  {
  }

  /** `max(a, b)`: the larger of the two, `a` when they are equal. */
  function Max(a: Value, b: Value): (r: Value)
    ensures r == a || r == b
    ensures !Lt(r, a) && !Lt(r, b)
  {
    if Lt(a, b) then b else a
  }

  /** `min(a, b)`: the smaller of the two, `a` when they are equal. */
  function Min(a: Value, b: Value): (r: Value)
    ensures r == a || r == b
    ensures !Lt(a, r) && !Lt(b, r)
  {
    if Lt(b, a) then b else a
  }

  /** Every move of the list is a cell of the board. */
  ghost predicate OnBoard(moves: seq<Move>) {
    forall m :: m in moves ==> InBounds(m.0, m.1)
  }

  /**
   * What `minimax(board, depth, alpha, beta, maximizing, player)` returns on
   * a board holding `g`: the terminal scores, the evaluation at depth 0, and
   * otherwise the loop over the candidates in centre-first order.
   */
  ghost function AlphaBeta(g: Grid, depth: nat, alpha: Value, beta: Value, maximizing: bool, player: int): (Option<Move>, Value)
    requires ValidGrid(g)
    decreases depth, 2, 0
  {
    var o := OutcomeOf(g);
    if o == Win(player) then (None, Finite(WinScore))
    else if o.Win? then (None, Finite(-WinScore))
    else if o == Draw then (None, Finite(0))
    else if depth == 0 then (None, Finite(Score(g, player)))
    else Expand(g, depth, alpha, beta, maximizing, player)
  }

  /** The search of an unfinished position with depth left: the loop over the candidates, closest to the centre first. */
  ghost function Expand(g: Grid, depth: nat, alpha: Value, beta: Value, maximizing: bool, player: int): (Option<Move>, Value)
    requires ValidGrid(g) && OutcomeOf(g) == InProgress && depth >= 1
    decreases depth, 1, 0
  {
    CandidatesAreEmpty(g);
    OrderedMeaning(g);
    if maximizing then MaxLoop(g, Ordered(g), depth, alpha, beta, NegInf, None, player)
    else MinLoop(g, Ordered(g), depth, alpha, beta, PosInf, None, player)
  }

  /** The score of the position after `stone` is put on cell `m`, searched to `depth`. */
  ghost function Reply(g: Grid, m: Move, stone: int, depth: nat, alpha: Value, beta: Value, maximizing: bool, player: int): Value
    requires ValidGrid(g) && InBounds(m.0, m.1)
    decreases depth, 3, 0
  {
    AlphaBeta(Place(g, m.0, m.1, stone), depth, alpha, beta, maximizing, player).1
  }

  /**
   * The maximizing loop over the moves still to try: `player` moves, the reply is
   * searched one level shallower, and the loop stops once alpha reaches beta.
   */
  ghost function MaxLoop(g: Grid, moves: seq<Move>, depth: nat, alpha: Value, beta: Value,
                         value: Value, best: Option<Move>, player: int): (Option<Move>, Value)
    requires ValidGrid(g) && 1 <= depth && OnBoard(moves)
    decreases depth, 0, |moves|
  {
    if moves == [] then (best, value)
    else
      var m := moves[0];
      var val := Reply(g, m, player, depth - 1, alpha, beta, false, player);
      var value' := if Lt(value, val) then val else value;
      var best' := if Lt(value, val) then Some(m) else best;
      var alpha' := Max(alpha, value');
      if !Lt(alpha', beta) then (best', value')
      else MaxLoop(g, moves[1..], depth, alpha', beta, value', best', player)
  }

  /**
   * The minimizing loop over the moves still to try: the opponent moves, the
   * reply is searched one level shallower, and the loop stops once beta
   * falls to alpha.
   */
  ghost function MinLoop(g: Grid, moves: seq<Move>, depth: nat, alpha: Value, beta: Value,
                         value: Value, best: Option<Move>, player: int): (Option<Move>, Value)
    requires ValidGrid(g) && 1 <= depth && OnBoard(moves)
    decreases depth, 0, |moves|
  {
    if moves == [] then (best, value)
    else
      var m := moves[0];
      var val := Reply(g, m, Opponent(player), depth - 1, alpha, beta, true, player);
      var value' := if Lt(val, value) then val else value;
      var best' := if Lt(val, value) then Some(m) else best;
      var beta' := Min(beta, value');
      if !Lt(alpha, beta') then (best', value')
      else MinLoop(g, moves[1..], depth, alpha, beta', value', best', player)
  }

  /**
   * The scores of the finished positions and of the search horizon: a win
   * for the root player scores WinScore, a win for anybody else -WinScore, a
   * draw 0, and an unfinished position at depth 0 its evaluation; none of
   * them proposes a move.
   */
  lemma TerminalScores(g: Grid, depth: nat, alpha: Value, beta: Value, maximizing: bool, player: int)
    requires ValidGrid(g)
    ensures forall x, y :: FirstWinningCell(g, x, y) ==>
      AlphaBeta(g, depth, alpha, beta, maximizing, player) ==
        (None, Finite(if g[x][y] == player then WinScore else -WinScore))
    ensures NoWinningCell(g) && Full(g) ==>
      AlphaBeta(g, depth, alpha, beta, maximizing, player) == (None, Finite(0))
    ensures NoWinningCell(g) && !Full(g) && depth == 0 ==>
      AlphaBeta(g, depth, alpha, beta, maximizing, player) == (None, Finite(Score(g, player)))
  {
  }

  /**
   * Five of the root player's stones in a row, with no winning line for the
   * other colour, score WinScore; five of the other colour's, with no
   * winning line for the root player, score -WinScore.
   */
  lemma FiveInARowScores(g: Grid, x: int, y: int, k: int, p: int,
                         depth: nat, alpha: Value, beta: Value, maximizing: bool, player: int)
    requires ValidGrid(g) && 0 <= k < |Directions| && p != EMPTY
    requires forall i :: 0 <= i < WinLen ==> OnRay(g, x, y, Directions[k].0, Directions[k].1, p, i)
    requires forall i, j :: WinningCell(g, i, j) ==> g[i][j] == p
    ensures AlphaBeta(g, depth, alpha, beta, maximizing, player) ==
      (None, Finite(if p == player then WinScore else -WinScore))
  {
    FiveInARowWins(g, x, y, k, p);
  }

  /**
   * Every search returns a finite score, and proposes a move exactly when
   * the game is still in progress and there is depth left; the move is then
   * one of the candidates of `get_valid_moves`.
   */
  lemma {:induction false} AlphaBetaResult(g: Grid, depth: nat, alpha: Value, beta: Value, maximizing: bool, player: int)
    requires ValidGrid(g)
    ensures AlphaBeta(g, depth, alpha, beta, maximizing, player).1.Finite?
    ensures AlphaBeta(g, depth, alpha, beta, maximizing, player).0.Some? <==>
      OutcomeOf(g) == InProgress && depth >= 1
    ensures AlphaBeta(g, depth, alpha, beta, maximizing, player).0.Some? ==>
      AlphaBeta(g, depth, alpha, beta, maximizing, player).0.value in Candidates(g)
    decreases depth, 2, 0
  {
    if OutcomeOf(g) == InProgress && depth >= 1 {
      CandidatesAreEmpty(g);
      OrderedMeaning(g);
      if maximizing {
        MaxLoopResult(g, Ordered(g), depth, alpha, beta, NegInf, None, player);
      } else {
        MinLoopResult(g, Ordered(g), depth, alpha, beta, PosInf, None, player);
      }
    }
  }

  /**
   * The maximizing loop, started on a nonempty list or after a move has been
   * recorded, returns a finite score and either the move it was given or
   * one of the listed moves.
   */
  lemma {:induction false} MaxLoopResult(g: Grid, moves: seq<Move>, depth: nat, alpha: Value, beta: Value,
                                         value: Value, best: Option<Move>, player: int)
    requires ValidGrid(g) && 1 <= depth && OnBoard(moves)
    requires (value == NegInf && best == None && moves != []) || (value.Finite? && best.Some?)
    ensures MaxLoop(g, moves, depth, alpha, beta, value, best, player).1.Finite?
    ensures MaxLoop(g, moves, depth, alpha, beta, value, best, player).0.Some?
    ensures MaxLoop(g, moves, depth, alpha, beta, value, best, player).0 == best ||
      MaxLoop(g, moves, depth, alpha, beta, value, best, player).0.value in moves
    decreases depth, 0, |moves|
  {
    if moves != [] {
      var m := moves[0];
      AlphaBetaResult(Place(g, m.0, m.1, player), depth - 1, alpha, beta, false, player);
      var val := Reply(g, m, player, depth - 1, alpha, beta, false, player);
      var value' := if Lt(value, val) then val else value;
      var best' := if Lt(value, val) then Some(m) else best;
      var alpha' := Max(alpha, value');
      if Lt(alpha', beta) {
        MaxLoopResult(g, moves[1..], depth, alpha', beta, value', best', player);
      }
    }
  }

  /**
   * The minimizing loop, started on a nonempty list or after a move has been
   * recorded, returns a finite score and either the move it was given or
   * one of the listed moves.
   */
  lemma {:induction false} MinLoopResult(g: Grid, moves: seq<Move>, depth: nat, alpha: Value, beta: Value,
                                         value: Value, best: Option<Move>, player: int)
    requires ValidGrid(g) && 1 <= depth && OnBoard(moves)
    requires (value == PosInf && best == None && moves != []) || (value.Finite? && best.Some?)
    ensures MinLoop(g, moves, depth, alpha, beta, value, best, player).1.Finite?
    ensures MinLoop(g, moves, depth, alpha, beta, value, best, player).0.Some?
    ensures MinLoop(g, moves, depth, alpha, beta, value, best, player).0 == best ||
      MinLoop(g, moves, depth, alpha, beta, value, best, player).0.value in moves
    decreases depth, 0, |moves|
  {
    if moves != [] {
      var m := moves[0];
      AlphaBetaResult(Place(g, m.0, m.1, Opponent(player)), depth - 1, alpha, beta, true, player);
      var val := Reply(g, m, Opponent(player), depth - 1, alpha, beta, true, player);
      var value' := if Lt(val, value) then val else value;
      var best' := if Lt(val, value) then Some(m) else best;
      var beta' := Min(beta, value');
      if Lt(alpha, beta') {
        MinLoopResult(g, moves[1..], depth, alpha, beta', value', best', player);
      }
    }
  }

  /** `minimax` as the program runs it: in place on the board array, which it restores. */
  method Minimax(b: array2<int>, depth: nat, alpha: Value, beta: Value, maximizing: bool, player: int)
    returns (move: Option<Move>, value: Value)
    requires IsBoard(b)
    modifies b
    ensures Snapshot(b) == old(Snapshot(b))
    ensures (move, value) == AlphaBeta(old(Snapshot(b)), depth, alpha, beta, maximizing, player)
    decreases depth, 1, 0
  {
    ghost var g := Snapshot(b);
    var winner := GameOver(b);
    if winner == Win(player) {
      return None, Finite(WinScore);
    }
    if winner.Win? {
      return None, Finite(-WinScore);
    }
    if winner == Draw {
      return None, Finite(0);
    }
    if depth == 0 {
      var s := Evaluate(b, player);
      return None, Finite(s);
    }
    var moves := GetValidMoves(b);
    moves := SortByCentre(moves);
    CandidatesAreEmpty(g);
    OrderedMeaning(g);
    if maximizing {
      move, value := SearchMax(b, moves, depth, alpha, beta, player);
    } else {
      move, value := SearchMin(b, moves, depth, alpha, beta, player);
    }
  }

  /** The maximizing loop of `minimax`, over the candidates `moves` of the board. */
  method SearchMax(b: array2<int>, moves: seq<Move>, depth: nat, alpha: Value, beta: Value, player: int)
    returns (move: Option<Move>, value: Value)
    requires IsBoard(b) && 1 <= depth
    requires OnBoard(moves) && forall m :: m in moves ==> Snapshot(b)[m.0][m.1] == EMPTY
    modifies b
    ensures Snapshot(b) == old(Snapshot(b))
    ensures (move, value) == MaxLoop(old(Snapshot(b)), moves, depth, alpha, beta, NegInf, None, player)
    decreases depth, 0
  {
    ghost var g := Snapshot(b);
    ghost var r := MaxLoop(g, moves, depth, alpha, beta, NegInf, None, player);
    ghost var rest := moves;
    move, value := None, NegInf;
    var a := alpha;
    var i := 0;
    while i < |moves|
      invariant i <= |moves|
      invariant Snapshot(b) == g
      invariant rest == moves[i..]
      invariant MaxLoop(g, rest, depth, a, beta, value, move, player) == r
    {
      var x, y := moves[i].0, moves[i].1;
      assert moves[i] in moves && rest[0] == moves[i];
      var val := TryMove(b, x, y, player, depth - 1, a, beta, false, player);
      if Lt(value, val) {
        value, move := val, Some((x, y));
      }
      a := Max(a, value);
      if !Lt(a, beta) {
        assert (move, value) == r;
        break;
      }
      i := i + 1;
      rest := rest[1..];
    }
  }

  /** The minimizing loop of `minimax`, over the candidates `moves` of the board. */
  method SearchMin(b: array2<int>, moves: seq<Move>, depth: nat, alpha: Value, beta: Value, player: int)
    returns (move: Option<Move>, value: Value)
    requires IsBoard(b) && 1 <= depth
    requires OnBoard(moves) && forall m :: m in moves ==> Snapshot(b)[m.0][m.1] == EMPTY
    modifies b
    ensures Snapshot(b) == old(Snapshot(b))
    ensures (move, value) == MinLoop(old(Snapshot(b)), moves, depth, alpha, beta, PosInf, None, player)
    decreases depth, 0
  {
    ghost var g := Snapshot(b);
    ghost var r := MinLoop(g, moves, depth, alpha, beta, PosInf, None, player);
    ghost var rest := moves;
    move, value := None, PosInf;
    var c := beta;
    var opponent := Opponent(player);
    var i := 0;
    while i < |moves|
      invariant i <= |moves|
      invariant Snapshot(b) == g
      invariant rest == moves[i..]
      invariant MinLoop(g, rest, depth, alpha, c, value, move, player) == r
    {
      var x, y := moves[i].0, moves[i].1;
      assert moves[i] in moves && rest[0] == moves[i];
      var val := TryMove(b, x, y, opponent, depth - 1, alpha, c, true, player);
      if Lt(val, value) {
        value, move := val, Some((x, y));
      }
      c := Min(c, value);
      if !Lt(alpha, c) {
        assert (move, value) == r;
        break;
      }
      i := i + 1;
      rest := rest[1..];
    }
  }

  /**
   * One step of the search loop: put `stone` on the EMPTY cell (x, y), search
   * the position, and clear the cell again.
   */
  method TryMove(b: array2<int>, x: int, y: int, stone: int, depth: nat, alpha: Value, beta: Value,
                 maximizing: bool, player: int) returns (val: Value)
    requires IsBoard(b) && InBounds(x, y) && b[x, y] == EMPTY
    modifies b
    ensures Snapshot(b) == old(Snapshot(b))
    ensures val == Reply(old(Snapshot(b)), (x, y), stone, depth, alpha, beta, maximizing, player)
    decreases depth, 4, 0
  {
    ghost var g := Snapshot(b);
    b[x, y] := stone;
    GridsEqual(Snapshot(b), Place(g, x, y, stone));
    var reply;
    reply, val := Minimax(b, depth, alpha, beta, maximizing, player);
    b[x, y] := EMPTY;
    GridsEqual(Snapshot(b), g);
  }

  /**
   * `ai_move`: the move of a full-width search from the root, or, when the
   * search proposes none, the candidate that `choice` selects (standing for
   * the program's random pick). The board is left as it was, and the move is
   * always one of the candidates of `get_valid_moves`.
   */
  method AiMove(b: array2<int>, player: int, choice: nat, depth: nat := 2) returns (m: Move)
    requires IsBoard(b)
    modifies b
    ensures Snapshot(b) == old(Snapshot(b))
    ensures m in Candidates(old(Snapshot(b)))
    ensures AlphaBeta(old(Snapshot(b)), depth, NegInf, PosInf, true, player).0.Some? ==>
      m == AlphaBeta(old(Snapshot(b)), depth, NegInf, PosInf, true, player).0.value
    ensures AlphaBeta(old(Snapshot(b)), depth, NegInf, PosInf, true, player).0.None? ==>
      m == RowMajor(Candidates(old(Snapshot(b))))[choice % |RowMajor(Candidates(old(Snapshot(b))))|]
  {
    ghost var g := Snapshot(b);
    ValidMovesMeaning(g);
    var move, score := Minimax(b, depth, NegInf, PosInf, true, player);
    AlphaBetaResult(g, depth, NegInf, PosInf, true, player);
    if move.Some? {
      m := move.value;
    } else {
      var moves := GetValidMoves(b);
      m := moves[choice % |moves|];
    }
  }

  /** On the empty board the chosen move is the centre, whatever the depth. */
  lemma EmptyBoardOpensInCentre(depth: nat, player: int)
    requires depth >= 1
    ensures AlphaBeta(EmptyGrid(), depth, NegInf, PosInf, true, player).0 == Some((Centre, Centre))
  {
    var g := EmptyGrid();
    assert NoWinningCell(g);
    assert !Full(g) by {
      assert g[0][0] == EMPTY;
    }
    OutcomeOfCharacterized(g);
    CandidatesOfEmptyBoard();
    AlphaBetaResult(g, depth, NegInf, PosInf, true, player);
  }
}
