/**
 * The candidate-move generator: the EMPTY cells next to some stone (the
 * Moore neighbourhood), or the centre cell when there is none; and the order
 * in which the search tries them.
 */
module Moves {
  import opened Board
  import opened Detector

  /** Cells (a, b) and (c, d) are equal or 8-adjacent. */
  predicate Near(a: int, b: int, c: int, d: int) {
    -1 <= a - c <= 1 && -1 <= b - d <= 1
  }

  /** Cell m is on the board, EMPTY and next to (x, y). */
  predicate EmptyNear(g: Grid, x: int, y: int, m: Move)
    requires ValidGrid(g)
  {
    InBounds(m.0, m.1) && g[m.0][m.1] == EMPTY && Near(x, y, m.0, m.1)
  }

  ghost predicate NextToStone(g: Grid, x: int, y: int)
    requires ValidGrid(g)
  {
    exists i, j :: InBounds(i, j) && g[i][j] != EMPTY && Near(i, j, x, y)
  }

  /** The EMPTY cells next to some stone. */
  ghost function Neighbours(g: Grid): set<Move>
    requires ValidGrid(g)
  {
    set x, y | 0 <= x < N && 0 <= y < N && g[x][y] == EMPTY && NextToStone(g, x, y) :: (x, y)
  }

  /** The set `get_valid_moves` builds: the neighbours of the stones, or the centre when there are none. */
  ghost function Candidates(g: Grid): set<Move>
    requires ValidGrid(g)
  {
    if Neighbours(g) == {} then {(Centre, Centre)} else Neighbours(g)
  }

  /** Cell m has been added by the scan once it has reached (x, y): it is an EMPTY neighbour of an earlier stone. */
  ghost predicate FoundBefore(g: Grid, x: int, y: int, m: Move)
    requires ValidGrid(g)
  {
    InBounds(m.0, m.1) && g[m.0][m.1] == EMPTY &&
    exists i, j :: InBounds(i, j) && Before(i, j, x, y) && g[i][j] != EMPTY && Near(i, j, m.0, m.1)
  }

  lemma FoundBeforeStep(g: Grid, x: int, y: int)
    requires ValidGrid(g) && InBounds(x, y)
    ensures forall m :: FoundBefore(g, x, y + 1, m) <==>
      FoundBefore(g, x, y, m) || (g[x][y] != EMPTY && EmptyNear(g, x, y, m))
  {
  }

  lemma FoundBeforeRow(g: Grid, x: int)
    requires ValidGrid(g)
    ensures forall m :: FoundBefore(g, x, N, m) <==> FoundBefore(g, x + 1, 0, m)
  {
  }

  lemma FoundBeforeAll(g: Grid)
    requires ValidGrid(g)
    ensures forall m :: FoundBefore(g, N, 0, m) <==> m in Neighbours(g)
  {
  }

  function Toward(a: int, c: int): int {
    if a < c then a + 1 else if a > c then a - 1 else a
  }

  function Abs(a: int): nat {
    if a < 0 then -a else a
  }

  /**
   * A board with a stone and an EMPTY cell has an EMPTY cell next to a stone:
   * walk from the stone towards the EMPTY cell until the first EMPTY cell.
   */
  lemma {:induction false} StoneNextToEmpty(g: Grid, a: int, b: int, c: int, d: int)
    requires ValidGrid(g) && InBounds(a, b) && InBounds(c, d)
    requires g[a][b] != EMPTY && g[c][d] == EMPTY
    ensures Neighbours(g) != {}
    decreases Abs(a - c) + Abs(b - d)
  {
    var a', b' := Toward(a, c), Toward(b, d);
    if g[a'][b'] == EMPTY {
      assert NextToStone(g, a', b') by {
        assert Near(a, b, a', b');
      }
      assert (a', b') in Neighbours(g);
    } else {
      StoneNextToEmpty(g, a', b', c, d);
    }
  }

  /** With no stone on the board the scan finds nothing and `get_valid_moves` falls back to the centre. */
  lemma CandidatesOfEmptyBoard()
    ensures Neighbours(EmptyGrid()) == {}
    ensures Candidates(EmptyGrid()) == {(Centre, Centre)}
  {
  }

  /**
   * On a board holding at least one stone and at least one EMPTY cell, the
   * candidates are exactly the EMPTY cells next to a stone: there is no
   * fallback to the centre.
   */
  lemma CandidatesOfMixedBoard(g: Grid)
    requires ValidGrid(g)
    requires exists a, b :: InBounds(a, b) && g[a][b] != EMPTY
    requires exists c, d :: InBounds(c, d) && g[c][d] == EMPTY
    ensures Candidates(g) == Neighbours(g) != {}
    ensures forall m :: m in Candidates(g) <==>
      InBounds(m.0, m.1) && g[m.0][m.1] == EMPTY && NextToStone(g, m.0, m.1)
  {
    var a, b :| InBounds(a, b) && g[a][b] != EMPTY;
    var c, d :| InBounds(c, d) && g[c][d] == EMPTY;
    StoneNextToEmpty(g, a, b, c, d);
  }

  /** Every candidate is a cell of the board. */
  lemma CandidatesInBounds(g: Grid)
    requires ValidGrid(g)
    ensures Candidates(g) != {}
    ensures forall m :: m in Candidates(g) ==> InBounds(m.0, m.1)
  {
  }

  /**
   * While the game is in progress every candidate is an EMPTY cell, so the
   * search's place-and-clear of a candidate restores the board.
   */
  lemma CandidatesAreEmpty(g: Grid)
    requires ValidGrid(g) && OutcomeOf(g) == InProgress
    ensures forall m :: m in Candidates(g) ==> InBounds(m.0, m.1) && g[m.0][m.1] == EMPTY
  {
    if Neighbours(g) == {} {
      assert !Full(g);
      var c, d :| InBounds(c, d) && g[c][d] == EMPTY;
      if g[Centre][Centre] != EMPTY {
        StoneNextToEmpty(g, Centre, Centre, c, d);
      }
    }
  }

  // ----- From the set to the list the search walks through -----

  /** The cells of `s` at or after (x, y), in row-major order. */
  function RowMajorFrom(s: set<Move>, x: nat, y: nat): seq<Move>
    requires x <= N && y <= N
    decreases N - x, N - y
  {
    if x == N then []
    else if y == N then RowMajorFrom(s, x + 1, 0)
    else (if (x, y) in s then [(x, y)] else []) + RowMajorFrom(s, x, y + 1)
  }

  ghost predicate RowMajorSorted(r: seq<Move>) {
    forall a, b :: 0 <= a < b < |r| ==> Before(r[a].0, r[a].1, r[b].0, r[b].1)
  }

  /** `r` lists exactly the cells of `s` that are on the board, in row-major order. */
  ghost predicate ListsInRowMajor(r: seq<Move>, s: set<Move>) {
    (forall m :: m in r <==> m in s && InBounds(m.0, m.1)) && RowMajorSorted(r)
  }

  /**
   * `list(moves)`: the cells of the set in row-major order, which is the
   * order the program's set happens to be listed in by this model.
   */
  ghost function RowMajor(s: set<Move>): (r: seq<Move>)
    ensures ListsInRowMajor(r, s)
  {
    RowMajorFromMeaning(s, 0, 0);
    assert ListsInRowMajor(RowMajorFrom(s, 0, 0), s);
    var r :| ListsInRowMajor(r, s);
    r
  }

  lemma {:induction false} RowMajorFromMeaning(s: set<Move>, x: nat, y: nat)
    requires x <= N && y <= N
    ensures forall m :: m in RowMajorFrom(s, x, y) ==> m in s && InBounds(m.0, m.1) && !Before(m.0, m.1, x, y)
    ensures forall m :: m in s && InBounds(m.0, m.1) && !Before(m.0, m.1, x, y) ==> m in RowMajorFrom(s, x, y)
    ensures RowMajorSorted(RowMajorFrom(s, x, y))
    decreases N - x, N - y
  {
    if x == N {
    } else if y == N {
      RowMajorFromMeaning(s, x + 1, 0);
    } else {
      RowMajorFromMeaning(s, x, y + 1);
      var rest := RowMajorFrom(s, x, y + 1);
      if (x, y) in s {
        forall k | 0 <= k < |rest|
          ensures Before(x, y, rest[k].0, rest[k].1)
        {
          assert rest[k] in rest;
        }
        SortedCons((x, y), rest);
      }
    }
  }

  /** A cell before every cell of a row-major list can be put in front of it. */
  lemma SortedCons(m: Move, r: seq<Move>)
    requires RowMajorSorted(r)
    requires forall k :: 0 <= k < |r| ==> Before(m.0, m.1, r[k].0, r[k].1)
    ensures RowMajorSorted([m] + r)
  {
  }

  /** Dropping the first cell of a row-major list leaves a row-major list of the other cells. */
  lemma RowMajorTail(r: seq<Move>)
    requires RowMajorSorted(r) && |r| > 0
    ensures RowMajorSorted(r[1..])
    ensures forall m :: m in r[1..] <==> m in r && m != r[0]
  {
  }

  /** Two row-major lists of the same cells are equal. */
  lemma {:induction false} RowMajorUnique(r: seq<Move>, r': seq<Move>)
    requires RowMajorSorted(r) && RowMajorSorted(r')
    requires forall m :: m in r <==> m in r'
    ensures r == r'
    decreases |r|
  {
    if r != [] {
      assert r[0] in r';
    }
    if r' != [] {
      assert r'[0] in r;
    }
    if r != [] {
      var i :| 0 <= i < |r| && r[i] == r'[0];
      var j :| 0 <= j < |r'| && r'[j] == r[0];
      assert i == 0 || Before(r[0].0, r[0].1, r[i].0, r[i].1);
      assert j == 0 || Before(r'[0].0, r'[0].1, r'[j].0, r'[j].1);
      assert r[0] == r'[0];
      RowMajorTail(r);
      RowMajorTail(r');
      RowMajorUnique(r[1..], r'[1..]);
      assert r == [r[0]] + r[1..];
      assert r' == [r'[0]] + r'[1..];
    }
  }

  /** The row-major scan computes `RowMajor`. */
  lemma RowMajorComputed(s: set<Move>)
    ensures RowMajorFrom(s, 0, 0) == RowMajor(s)
  {
    RowMajorFromMeaning(s, 0, 0);
    RowMajorUnique(RowMajorFrom(s, 0, 0), RowMajor(s));
  }

  // ----- Ordering by distance to the centre -----

  /** The sort key of the search: Manhattan distance to the centre cell. */
  function Dist(m: Move): nat {
    Abs(m.0 - Centre) + Abs(m.1 - Centre)
  }

  /** `m` is inserted in front of the first element that is not closer to the centre. */
  function Insert(m: Move, t: seq<Move>): seq<Move> {
    if t == [] || Dist(m) <= Dist(t[0]) then [m] + t
    else [t[0]] + Insert(m, t[1..])
  }

  /** A stable insertion sort by `Dist`: the program's `moves.sort(key=...)`. */
  function SortByCentre(ms: seq<Move>): seq<Move> {
    if ms == [] then [] else Insert(ms[0], SortByCentre(ms[1..]))
  }

  /** Closer to the centre first; at equal distance, row-major order. */
  predicate CentreLess(a: Move, b: Move) {
    Dist(a) < Dist(b) || (Dist(a) == Dist(b) && Before(a.0, a.1, b.0, b.1))
  }

  ghost predicate CentreSorted(r: seq<Move>) {
    forall a, b :: 0 <= a < b < |r| ==> CentreLess(r[a], r[b])
  }

  lemma {:induction false} InsertPermutes(m: Move, t: seq<Move>)
    ensures multiset(Insert(m, t)) == multiset(t) + multiset{m}
  {
    if t != [] && Dist(m) > Dist(t[0]) {
      InsertPermutes(m, t[1..]);
      assert t == [t[0]] + t[1..];
    }
  }

  lemma {:induction false} InsertSorted(m: Move, t: seq<Move>)
    requires CentreSorted(t)
    requires forall k :: 0 <= k < |t| ==> Before(m.0, m.1, t[k].0, t[k].1)
    ensures CentreSorted(Insert(m, t))
  {
    if t == [] || Dist(m) <= Dist(t[0]) {
      var r := [m] + t;
      forall a, b | 0 <= a < b < |r|
        ensures CentreLess(r[a], r[b])
      {
        if a == 0 {
          assert CentreLess(m, t[0]);
          if b > 1 {
            assert CentreLess(t[0], t[b - 1]);
          }
        } else {
          assert CentreLess(t[a - 1], t[b - 1]);
        }
      }
    } else {
      InsertSorted(m, t[1..]);
      InsertPermutes(m, t[1..]);
      var rest := Insert(m, t[1..]);
      var r := [t[0]] + rest;
      forall k | 0 <= k < |rest|
        ensures CentreLess(t[0], rest[k])
      {
        assert rest[k] in multiset(rest);
        assert rest[k] == m || rest[k] in t[1..];
      }
      forall a, b | 0 <= a < b < |r|
        ensures CentreLess(r[a], r[b])
      {
        if a > 0 {
          assert r[a] == rest[a - 1] && r[b] == rest[b - 1];
        }
      }
    }
  }

  /** Sorting keeps exactly the elements of the list. */
  lemma {:induction false} SortPermutes(ms: seq<Move>)
    ensures multiset(SortByCentre(ms)) == multiset(ms)
  {
    if ms != [] {
      SortPermutes(ms[1..]);
      InsertPermutes(ms[0], SortByCentre(ms[1..]));
      assert ms == [ms[0]] + ms[1..];
    }
  }

  /**
   * Sorting a row-major list stably by distance orders it by distance to the
   * centre and, at equal distance, row-major.
   */
  lemma {:induction false} SortOrdersByCentre(ms: seq<Move>)
    requires RowMajorSorted(ms)
    ensures CentreSorted(SortByCentre(ms))
  {
    if ms != [] {
      var rest := ms[1..];
      assert RowMajorSorted(rest) by {
        forall a, b | 0 <= a < b < |rest|
          ensures Before(rest[a].0, rest[a].1, rest[b].0, rest[b].1)
        {
          assert rest[a] == ms[a + 1] && rest[b] == ms[b + 1];
        }
      }
      SortOrdersByCentre(rest);
      SortPermutes(rest);
      var sorted := SortByCentre(rest);
      forall k | 0 <= k < |sorted|
        ensures Before(ms[0].0, ms[0].1, sorted[k].0, sorted[k].1)
      {
        assert sorted[k] in multiset(sorted);
        var j :| 0 <= j < |rest| && rest[j] == sorted[k];
        assert ms[j + 1] == rest[j];
      }
      InsertSorted(ms[0], sorted);
    }
  }

  /** The candidates in the order the search tries them. */
  ghost function Ordered(g: Grid): seq<Move>
    requires ValidGrid(g)
  {
    SortByCentre(RowMajor(Candidates(g)))
  }

  /**
   * The search tries every candidate exactly once, closest to the centre
   * first, and tries at least one.
   */
  lemma OrderedMeaning(g: Grid)
    requires ValidGrid(g)
    ensures forall m :: m in Ordered(g) <==> m in Candidates(g)
    ensures CentreSorted(Ordered(g))
    ensures Distinct(Ordered(g))
    ensures |Ordered(g)| > 0
  {
    var s := Candidates(g);
    CandidatesInBounds(g);
    SortPermutes(RowMajor(s));
    SortOrdersByCentre(RowMajor(s));
    forall m
      ensures m in Ordered(g) <==> m in s
    {
      assert m in Ordered(g) <==> m in multiset(Ordered(g));
      assert m in RowMajor(s) <==> m in multiset(RowMajor(s));
    }
    var m :| m in s;
    assert m in Ordered(g);
  }

  /** No cell occurs twice. */
  ghost predicate Distinct(r: seq<Move>) {
    forall a, b :: 0 <= a < b < |r| ==> r[a] != r[b]
  }

  lemma DistinctFirstTwo(r: seq<Move>)
    requires Distinct(r) && |r| > 1
    ensures r[0] != r[1]
  {
  }

  /** A list without repetitions all of whose cells are `c` is `[c]`. */
  lemma DistinctConstant(r: seq<Move>, c: Move)
    requires Distinct(r) && |r| > 0
    requires forall k :: 0 <= k < |r| ==> r[k] == c
    ensures r == [c]
  {
    if |r| > 1 {
      DistinctFirstTwo(r);
    }
  }

  /** A list whose cells are exactly the one cell `c`, each once, is `[c]`. */
  lemma OnlyCell(r: seq<Move>, s: set<Move>, c: Move)
    requires s == {c} && Distinct(r) && |r| > 0
    requires forall m :: m in r <==> m in s
    ensures r == [c]
  {
    forall k | 0 <= k < |r|
      ensures r[k] == c
    {
      assert r[k] in r;
    }
    DistinctConstant(r, c);
  }

  /**
   * `get_valid_moves` never returns an empty list, lists each candidate
   * exactly once, and lists nothing else.
   */
  lemma ValidMovesMeaning(g: Grid)
    requires ValidGrid(g)
    ensures |RowMajor(Candidates(g))| > 0
    ensures Distinct(RowMajor(Candidates(g)))
    ensures forall m :: m in RowMajor(Candidates(g)) <==> m in Candidates(g)
  {
  }

  /** On the empty board `get_valid_moves` returns exactly the centre. */
  lemma ValidMovesOfEmptyBoard()
    ensures RowMajor(Candidates(EmptyGrid())) == [(Centre, Centre)]
  {
    CandidatesOfEmptyBoard();
    ValidMovesMeaning(EmptyGrid());
    OnlyCell(RowMajor(Candidates(EmptyGrid())), Candidates(EmptyGrid()), (Centre, Centre));
  }

  /** On the empty board the search tries only the centre. */
  lemma OrderedOfEmptyBoard()
    ensures Ordered(EmptyGrid()) == [(Centre, Centre)]
  {
  }

  /** Inner loops of `get_valid_moves`: add the EMPTY neighbours of the stone at (x, y). */
  method AddNeighbours(b: array2<int>, x: int, y: int, found: set<Move>) returns (found': set<Move>)
    requires IsBoard(b)
    ensures forall m :: m in found' <==> m in found || EmptyNear(Snapshot(b), x, y, m)
  {
    ghost var g := Snapshot(b);
    found' := found;
    for dx := -1 to 2
      invariant forall m :: m in found' <==> m in found || (EmptyNear(g, x, y, m) && m.0 - x < dx)
    {
      for dy := -1 to 2
        invariant forall m :: m in found' <==>
          (m in found || (EmptyNear(g, x, y, m) && (m.0 - x < dx || (m.0 - x == dx && m.1 - y < dy))))
      {
        var nx, ny := x + dx, y + dy;
        if InBounds(nx, ny) && b[nx, ny] == EMPTY {
          found' := found' + {(nx, ny)};
        }
      }
    }
  }

  /** `get_valid_moves` as the program runs it on the board array. */
  method GetValidMoves(b: array2<int>) returns (moves: seq<Move>)
    requires IsBoard(b)
    ensures moves == RowMajor(Candidates(Snapshot(b)))
  {
    ghost var g := Snapshot(b);
    var found: set<Move> := {};
    for x := 0 to N
      invariant forall m :: m in found <==> FoundBefore(g, x, 0, m)
    {
      for y := 0 to N
        invariant forall m :: m in found <==> FoundBefore(g, x, y, m)
      {
        FoundBeforeStep(g, x, y);
        if b[x, y] != EMPTY {
          found := AddNeighbours(b, x, y, found);
        }
      }
      FoundBeforeRow(g, x);
    }
    FoundBeforeAll(g);
    assert found == Neighbours(g);
    if found == {} {
      found := {(Centre, Centre)};
    }
    moves := RowMajorFrom(found, 0, 0);
    RowMajorComputed(found);
  }
}
