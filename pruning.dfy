/**
 * Pruning does not change the result: a plain, unpruned minimax over the
 * same candidates in the same order, and the proof that the program's
 * alpha-beta search agrees with it. Started with the window (-inf, +inf),
 * as `ai_move` starts it, the search returns exactly the minimax value.
 */
module Pruning {
  import opened Wrappers
  import opened Board
  import opened Detector
  import opened Evaluator
  import opened Moves
  import opened Search

  /** The full minimax value of a position: the same leaves as the search, no cut-offs. */
  ghost function MinimaxValue(g: Grid, depth: nat, maximizing: bool, player: int): Value
    requires ValidGrid(g)
    decreases depth, 1, 0
  {
    var o := OutcomeOf(g);
    if o == Win(player) then Finite(WinScore)
    else if o.Win? then Finite(-WinScore)
    else if o == Draw then Finite(0)
    else if depth == 0 then Finite(Score(g, player))
    else
      CandidatesAreEmpty(g);
      OrderedMeaning(g);
      if maximizing then BestReply(g, Ordered(g), depth, player)
      else WorstReply(g, Ordered(g), depth, player)
  }

  /** The largest minimax value over the positions after `player` takes one of `moves`. */
  ghost function BestReply(g: Grid, moves: seq<Move>, depth: nat, player: int): Value
    requires ValidGrid(g) && 1 <= depth && OnBoard(moves)
    decreases depth, 0, |moves|
  {
    if moves == [] then NegInf
    else
      var m := moves[0];
      Max(MinimaxValue(Place(g, m.0, m.1, player), depth - 1, false, player),
          BestReply(g, moves[1..], depth, player))
  }

  /** The smallest minimax value over the positions after the opponent takes one of `moves`. */
  ghost function WorstReply(g: Grid, moves: seq<Move>, depth: nat, player: int): Value
    requires ValidGrid(g) && 1 <= depth && OnBoard(moves)
    decreases depth, 0, |moves|
  {
    if moves == [] then PosInf
    else
      var m := moves[0];
      Min(MinimaxValue(Place(g, m.0, m.1, Opponent(player)), depth - 1, true, player),
          WorstReply(g, moves[1..], depth, player))
  }

  /**
   * The alpha-beta property of the search: within a window alpha < beta, a
   * minimax value at or below alpha makes the search return a score at or
   * below alpha, one at or above beta a score at or above beta, and one
   * strictly inside the window is returned exactly.
   */
  lemma {:induction false} AlphaBetaBounds(g: Grid, depth: nat, alpha: Value, beta: Value, maximizing: bool, player: int)
    requires ValidGrid(g) && Lt(alpha, beta)
    ensures !Lt(alpha, MinimaxValue(g, depth, maximizing, player)) ==>
      !Lt(alpha, AlphaBeta(g, depth, alpha, beta, maximizing, player).1)
    ensures !Lt(MinimaxValue(g, depth, maximizing, player), beta) ==>
      !Lt(AlphaBeta(g, depth, alpha, beta, maximizing, player).1, beta)
    ensures Lt(alpha, MinimaxValue(g, depth, maximizing, player)) && Lt(MinimaxValue(g, depth, maximizing, player), beta) ==>
      AlphaBeta(g, depth, alpha, beta, maximizing, player).1 == MinimaxValue(g, depth, maximizing, player)
    decreases depth, 1, 0
  {
    if OutcomeOf(g) == InProgress && depth >= 1 {
      CandidatesAreEmpty(g);
      OrderedMeaning(g);
      if maximizing {
        MaxLoopBounds(g, Ordered(g), depth, alpha, beta, NegInf, None, player);
      } else {
        MinLoopBounds(g, Ordered(g), depth, alpha, beta, PosInf, None, player);
      }
    }
  }

  /**
   * The maximizing loop, entered with a best score `value` that does not
   * exceed the current alpha, returns at least `value`, and relates to the
   * best reply over the remaining moves as in `AlphaBetaBounds`.
   */
  lemma {:induction false} MaxLoopBounds(g: Grid, moves: seq<Move>, depth: nat, alpha: Value, beta: Value,
                                         value: Value, best: Option<Move>, player: int)
    requires ValidGrid(g) && 1 <= depth && OnBoard(moves)
    requires Lt(alpha, beta) && !Lt(alpha, value)
    ensures !Lt(MaxLoop(g, moves, depth, alpha, beta, value, best, player).1, value)
    ensures !Lt(alpha, BestReply(g, moves, depth, player)) ==>
      !Lt(alpha, MaxLoop(g, moves, depth, alpha, beta, value, best, player).1)
    ensures !Lt(BestReply(g, moves, depth, player), beta) ==>
      !Lt(MaxLoop(g, moves, depth, alpha, beta, value, best, player).1, beta)
    ensures Lt(alpha, BestReply(g, moves, depth, player)) && Lt(BestReply(g, moves, depth, player), beta) ==>
      MaxLoop(g, moves, depth, alpha, beta, value, best, player).1 == BestReply(g, moves, depth, player)
    decreases depth, 0, |moves|
  {
    if moves != [] {
      var m := moves[0];
      var child := Place(g, m.0, m.1, player);
      AlphaBetaBounds(child, depth - 1, alpha, beta, false, player);
      var val := Reply(g, m, player, depth - 1, alpha, beta, false, player);
      var value' := if Lt(value, val) then val else value;
      var best' := if Lt(value, val) then Some(m) else best;
      var alpha' := Max(alpha, value');
      if Lt(alpha', beta) {
        MaxLoopBounds(g, moves[1..], depth, alpha', beta, value', best', player);
      }
      MaxStep(alpha, beta, value, val, MinimaxValue(child, depth - 1, false, player),
              BestReply(g, moves[1..], depth, player), MaxLoop(g, moves, depth, alpha, beta, value, best, player).1);
    }
  }

  /**
   * The minimizing loop, entered with a best score `value` not below the
   * current beta, returns at most `value`, and relates to the worst reply
   * over the remaining moves as in `AlphaBetaBounds`.
   */
  lemma {:induction false} MinLoopBounds(g: Grid, moves: seq<Move>, depth: nat, alpha: Value, beta: Value,
                                         value: Value, best: Option<Move>, player: int)
    requires ValidGrid(g) && 1 <= depth && OnBoard(moves)
    requires Lt(alpha, beta) && !Lt(value, beta)
    ensures !Lt(value, MinLoop(g, moves, depth, alpha, beta, value, best, player).1)
    ensures !Lt(alpha, WorstReply(g, moves, depth, player)) ==>
      !Lt(alpha, MinLoop(g, moves, depth, alpha, beta, value, best, player).1)
    ensures !Lt(WorstReply(g, moves, depth, player), beta) ==>
      !Lt(MinLoop(g, moves, depth, alpha, beta, value, best, player).1, beta)
    ensures Lt(alpha, WorstReply(g, moves, depth, player)) && Lt(WorstReply(g, moves, depth, player), beta) ==>
      MinLoop(g, moves, depth, alpha, beta, value, best, player).1 == WorstReply(g, moves, depth, player)
    decreases depth, 0, |moves|
  {
    if moves != [] {
      var m := moves[0];
      var child := Place(g, m.0, m.1, Opponent(player));
      AlphaBetaBounds(child, depth - 1, alpha, beta, true, player);
      var val := Reply(g, m, Opponent(player), depth - 1, alpha, beta, true, player);
      var value' := if Lt(val, value) then val else value;
      var best' := if Lt(val, value) then Some(m) else best;
      var beta' := Min(beta, value');
      if Lt(alpha, beta') {
        MinLoopBounds(g, moves[1..], depth, alpha, beta', value', best', player);
      }
      MinStep(alpha, beta, value, val, MinimaxValue(child, depth - 1, true, player),
              WorstReply(g, moves[1..], depth, player), MinLoop(g, moves, depth, alpha, beta, value, best, player).1);
    }
  }

  /**
   * One pass of the maximizing loop, on scores alone: `val` is what the
   * search of the reply returned and `v` its minimax value, `rest` the best
   * reply over the remaining moves, and `r` what the loop returns.
   */
  lemma MaxStep(alpha: Value, beta: Value, value: Value, val: Value, v: Value, rest: Value, r: Value)
    requires Lt(alpha, beta) && !Lt(alpha, value)
    requires !Lt(alpha, v) ==> !Lt(alpha, val)
    requires !Lt(v, beta) ==> !Lt(val, beta)
    requires Lt(alpha, v) && Lt(v, beta) ==> val == v
    requires var value' := if Lt(value, val) then val else value;
      var alpha' := Max(alpha, value');
      if !Lt(alpha', beta) then r == value'
      else (!Lt(r, value') && (!Lt(alpha', rest) ==> !Lt(alpha', r)) &&
            (!Lt(rest, beta) ==> !Lt(r, beta)) && (Lt(alpha', rest) && Lt(rest, beta) ==> r == rest))
    ensures !Lt(r, value)
    ensures !Lt(alpha, Max(v, rest)) ==> !Lt(alpha, r)
    ensures !Lt(Max(v, rest), beta) ==> !Lt(r, beta)
    ensures Lt(alpha, Max(v, rest)) && Lt(Max(v, rest), beta) ==> r == Max(v, rest)
  {
  }

  /** One pass of the minimizing loop, on scores alone, as in `MaxStep`. */
  lemma MinStep(alpha: Value, beta: Value, value: Value, val: Value, v: Value, rest: Value, r: Value)
    requires Lt(alpha, beta) && !Lt(value, beta)
    requires !Lt(alpha, v) ==> !Lt(alpha, val)
    requires !Lt(v, beta) ==> !Lt(val, beta)
    requires Lt(alpha, v) && Lt(v, beta) ==> val == v
    requires var value' := if Lt(val, value) then val else value;
      var beta' := Min(beta, value');
      if !Lt(alpha, beta') then r == value'
      else (!Lt(value', r) && (!Lt(alpha, rest) ==> !Lt(alpha, r)) &&
            (!Lt(rest, beta') ==> !Lt(r, beta')) && (Lt(alpha, rest) && Lt(rest, beta') ==> r == rest))
    ensures !Lt(value, r)
    ensures !Lt(alpha, Min(v, rest)) ==> !Lt(alpha, r)
    ensures !Lt(Min(v, rest), beta) ==> !Lt(r, beta)
    ensures Lt(alpha, Min(v, rest)) && Lt(Min(v, rest), beta) ==> r == Min(v, rest)
  {
  }

  /** Searched with the window (-inf, +inf), as `ai_move` does, alpha-beta returns the plain minimax value. */
  lemma AlphaBetaIsMinimax(g: Grid, depth: nat, maximizing: bool, player: int)
    requires ValidGrid(g)
    ensures AlphaBeta(g, depth, NegInf, PosInf, maximizing, player).1 == MinimaxValue(g, depth, maximizing, player)
  {
    AlphaBetaBounds(g, depth, NegInf, PosInf, maximizing, player);
  }
}
