/** The reference the move engine is proved against: plain minimax over every
    empty cell (no pruning), with the same depth-adjusted leaf scores, and the
    difficulty-dependent choice between a random move and the searched one. */
module Engine {
  import opened Board

  /** Integer stand-ins for the source's float('-inf') and float('inf'): every
      score of a real position lies strictly between them. */
  const INF: int := 1000

  function Max(a: int, b: int): int {
    if a >= b then a else b
  }

  function Min(a: int, b: int): int {
    if a <= b then a else b
  }

  /** The mark placed by the side to move: the maximizing side is the AI. */
  function Mark(maximizing: bool): Cell {
    if maximizing then O else X
  }

  /** The minimax value of position g reached after `depth` hypothetical moves,
      with `maximizing` telling whether the AI is to move. A win for the AI
      scores 10 - depth, a win for the human -10 + depth, a full board 0. */
  function Score(g: Grid, depth: nat, maximizing: bool): int
    decreases CountEmpty(g), 1, 0
  {
    var e := Evaluate(g);
    if e == 10 then 10 - depth
    else if e == -10 then -10 + depth
    else if !MovesLeft(g) then 0
    else Best(g, depth, maximizing, 9)
  }

  /** The best child value over the empty cells with index below n: the
      maximum for the AI, the minimum for the human, and the sentinel (-INF or
      INF) when there is no such cell. */
  function Best(g: Grid, depth: nat, maximizing: bool, n: nat): int
    requires n <= 9
    decreases CountEmpty(g), 0, n
  {
    if n == 0 then (if maximizing then -INF else INF)
    else if g[n - 1] != Empty then Best(g, depth, maximizing, n - 1)
    else if maximizing then Max(Best(g, depth, maximizing, n - 1), ChildScore(g, depth, maximizing, n - 1))
    else Min(Best(g, depth, maximizing, n - 1), ChildScore(g, depth, maximizing, n - 1))
  }

  /** The value of the child reached by the side to move marking empty cell k. */
  function ChildScore(g: Grid, depth: nat, maximizing: bool, k: Square): int
    requires g[k] == Empty
    decreases CountEmpty(g), 0, 0
  {
    CountEmptyUpdate(g, k, Mark(maximizing));
    Score(g[k := Mark(maximizing)], depth + 1, !maximizing)
  }

  /** What an alpha-beta search may answer for a position of true value s when
      it is searched with window (alpha, beta): an answer at or below alpha
      shows that s is at most alpha, one at or above beta that s is at least
      beta, and one strictly inside the window is exact. */
  predicate WithinWindow(v: int, s: int, alpha: int, beta: int) {
    && (v <= alpha ==> s <= alpha)
    && (v >= beta ==> s >= beta)
    && (alpha < v < beta ==> v == s)
  }

  /** Within the search horizon (depth plus empty cells at most 10) every
      value lies in [depth - 10, 10 - depth], so never at a sentinel. */
  lemma {:induction false} ScoreBounds(g: Grid, depth: nat, maximizing: bool)
    requires depth + CountEmpty(g) <= 10
    ensures depth - 10 <= Score(g, depth, maximizing) <= 10 - depth
    decreases CountEmpty(g), 1, 0
  {
    var e := Evaluate(g);
    if e != 10 && e != -10 && MovesLeft(g) {
      var k :| 0 <= k < 9 && g[k] == Empty;
      BestBounds(g, depth, maximizing, 9);
    }
  }

  /** With the full window, as at the root call, an alpha-beta answer that
      respects the window is the exact minimax value. */
  lemma FullWindowExact(g: Grid, depth: nat, maximizing: bool, v: int)
    requires depth + CountEmpty(g) <= 10
    requires WithinWindow(v, Score(g, depth, maximizing), -INF, INF)
    ensures v == Score(g, depth, maximizing)
  {
    ScoreBounds(g, depth, maximizing);
  }

  /** A non-terminal position's value comes from a child one move deeper, so
      it lies in [depth - 9, 9 - depth]; with no empty cell below n the
      sentinel is returned. */
  lemma {:induction false} BestBounds(g: Grid, depth: nat, maximizing: bool, n: nat)
    requires n <= 9 && depth + CountEmpty(g) <= 10
    ensures (exists k :: 0 <= k < n && g[k] == Empty) ==>
              depth - 9 <= Best(g, depth, maximizing, n) <= 9 - depth
    ensures (forall k :: 0 <= k < n ==> g[k] != Empty) ==>
              Best(g, depth, maximizing, n) == (if maximizing then -INF else INF)
    decreases CountEmpty(g), 0, n
  {
    if n > 0 {
      BestBounds(g, depth, maximizing, n - 1);
      if g[n - 1] == Empty {
        CountEmptyUpdate(g, n - 1, Mark(maximizing));
        ScoreBounds(g[n - 1 := Mark(maximizing)], depth + 1, !maximizing);
      }
    }
  }

  /** Taking more cells into account can only improve the best value for the
      side to move. */
  lemma {:induction false} BestMonotone(g: Grid, depth: nat, maximizing: bool, n: nat, m: nat)
    requires n <= m <= 9
    ensures maximizing ==> Best(g, depth, maximizing, n) <= Best(g, depth, maximizing, m)
    ensures !maximizing ==> Best(g, depth, maximizing, n) >= Best(g, depth, maximizing, m)
    decreases m
  {
    if n < m {
      BestMonotone(g, depth, maximizing, n, m - 1);
    }
  }

  // ---------------------------------------------------------------------
  // The state of the alpha-beta scan over the cells
  // ---------------------------------------------------------------------

  /** The invariant of the AI's scan after the first k cells, row by row:
      alpha has been raised to `best`, the best answer seen; while there has
      been no cut-off, that answer agrees with the reference over the cells
      scanned, up to alpha; after a cut-off both are at least beta. Within
      the search horizon `best` is a real score once an empty cell has been
      searched. */
  ghost predicate MaxScan(g: Grid, depth: nat, alpha: int, beta: int, k: nat, best: int, a: int)
    requires k <= 9
  {
    && a == Max(alpha, best)
    && (alpha < beta && a < beta ==> Max(alpha, Best(g, depth, true, k)) == a)
    && (alpha < beta && a >= beta ==> best >= beta && Best(g, depth, true, 9) >= beta)
    && (depth + CountEmpty(g) <= 10 ==> best == -INF || depth - 9 <= best <= 9 - depth)
    && (depth + CountEmpty(g) <= 10 && (exists j :: 0 <= j < k && g[j] == Empty) ==> best != -INF)
  }

  lemma MaxScanStart(g: Grid, depth: nat, alpha: int, beta: int)
    requires -INF <= alpha
    ensures MaxScan(g, depth, alpha, beta, 0, -INF, alpha)
  {
  }

  /** A marked cell is passed over. */
  lemma MaxScanSkip(g: Grid, depth: nat, alpha: int, beta: int, k: nat, best: int, a: int)
    requires k < 9 && g[k] != Empty
    requires MaxScan(g, depth, alpha, beta, k, best, a)
    ensures MaxScan(g, depth, alpha, beta, k + 1, best, a)
  {
    assert Best(g, depth, true, k + 1) == Best(g, depth, true, k);
  }

  /** An empty cell is searched with window (a, beta) and its answer taken
      into `best` and alpha. */
  lemma MaxScanSearch(g: Grid, depth: nat, alpha: int, beta: int, k: nat, best: int, a: int, value: int)
    requires k < 9 && g[k] == Empty
    requires MaxScan(g, depth, alpha, beta, k, best, a)
    requires a < beta ==> WithinWindow(value, ChildScore(g, depth, true, k), a, beta)
    requires depth + CountEmpty(g) <= 10 ==> depth - 9 <= value <= 9 - depth
    ensures MaxScan(g, depth, alpha, beta, k + 1, Max(best, value), Max(a, Max(best, value)))
    ensures depth + CountEmpty(g) <= 10 ==> Max(best, value) != -INF
  {
    var s := ChildScore(g, depth, true, k);
    assert Best(g, depth, true, k + 1) == Max(Best(g, depth, true, k), s);
    BestMonotone(g, depth, true, k + 1, 9);
  }

  /** After a cut-off the rest of the row is skipped without breaking the
      invariant. */
  lemma MaxScanCut(g: Grid, depth: nat, alpha: int, beta: int, k: nat, m: nat, best: int, a: int)
    requires k <= m <= 9 && a >= beta
    requires MaxScan(g, depth, alpha, beta, k, best, a)
    requires depth + CountEmpty(g) <= 10 ==> best != -INF
    ensures MaxScan(g, depth, alpha, beta, m, best, a)
  {
  }

  /** At the end of the scan of a non-terminal position, the answer is sound
      for the window and, within the horizon, a real score. */
  lemma MaxScanDone(g: Grid, depth: nat, alpha: int, beta: int, best: int, a: int)
    requires MovesLeft(g)
    requires MaxScan(g, depth, alpha, beta, 9, best, a)
    ensures depth + CountEmpty(g) <= 10 ==> depth - 9 <= best <= 9 - depth
    ensures alpha < beta ==> WithinWindow(best, Best(g, depth, true, 9), alpha, beta)
  {
  }

  /** The human's scan, the mirror image: beta is lowered to `best`, and a
      cut-off leaves both at most alpha. */
  ghost predicate MinScan(g: Grid, depth: nat, alpha: int, beta: int, k: nat, best: int, b: int)
    requires k <= 9
  {
    && b == Min(beta, best)
    && (alpha < beta && alpha < b ==> Min(beta, Best(g, depth, false, k)) == b)
    && (alpha < beta && alpha >= b ==> best <= alpha && Best(g, depth, false, 9) <= alpha)
    && (depth + CountEmpty(g) <= 10 ==> best == INF || depth - 9 <= best <= 9 - depth)
    && (depth + CountEmpty(g) <= 10 && (exists j :: 0 <= j < k && g[j] == Empty) ==> best != INF)
  }

  lemma MinScanStart(g: Grid, depth: nat, alpha: int, beta: int)
    requires beta <= INF
    ensures MinScan(g, depth, alpha, beta, 0, INF, beta)
  {
  }

  lemma MinScanSkip(g: Grid, depth: nat, alpha: int, beta: int, k: nat, best: int, b: int)
    requires k < 9 && g[k] != Empty
    requires MinScan(g, depth, alpha, beta, k, best, b)
    ensures MinScan(g, depth, alpha, beta, k + 1, best, b)
  {
    assert Best(g, depth, false, k + 1) == Best(g, depth, false, k);
  }

  lemma MinScanSearch(g: Grid, depth: nat, alpha: int, beta: int, k: nat, best: int, b: int, value: int)
    requires k < 9 && g[k] == Empty
    requires MinScan(g, depth, alpha, beta, k, best, b)
    requires alpha < b ==> WithinWindow(value, ChildScore(g, depth, false, k), alpha, b)
    requires depth + CountEmpty(g) <= 10 ==> depth - 9 <= value <= 9 - depth
    ensures MinScan(g, depth, alpha, beta, k + 1, Min(best, value), Min(b, Min(best, value)))
    ensures depth + CountEmpty(g) <= 10 ==> Min(best, value) != INF
  {
    var s := ChildScore(g, depth, false, k);
    assert Best(g, depth, false, k + 1) == Min(Best(g, depth, false, k), s);
    BestMonotone(g, depth, false, k + 1, 9);
  }

  lemma MinScanCut(g: Grid, depth: nat, alpha: int, beta: int, k: nat, m: nat, best: int, b: int)
    requires k <= m <= 9 && b <= alpha
    requires MinScan(g, depth, alpha, beta, k, best, b)
    requires depth + CountEmpty(g) <= 10 ==> best != INF
    ensures MinScan(g, depth, alpha, beta, m, best, b)
  {
  }

  lemma MinScanDone(g: Grid, depth: nat, alpha: int, beta: int, best: int, b: int)
    requires MovesLeft(g)
    requires MinScan(g, depth, alpha, beta, 9, best, b)
    ensures depth + CountEmpty(g) <= 10 ==> depth - 9 <= best <= 9 - depth
    ensures alpha < beta ==> WithinWindow(best, Best(g, depth, false, 9), alpha, beta)
  {
  }

  // ---------------------------------------------------------------------
  // Move choice at the root
  // ---------------------------------------------------------------------

  /** The value the root search gives to the AI marking cell k: the human is
      then to move, at depth 0. */
  function MoveValue(g: Grid, k: Square): int {
    Score(g[k := O], 0, false)
  }

  /** Every candidate move has a value in [-10, 10]. */
  lemma MoveValueBounds(g: Grid, k: Square)
    requires g[k] == Empty
    ensures -10 <= MoveValue(g, k) <= 10
  {
    CountEmptyUpdate(g, k, O);
    ScoreBounds(g[k := O], 0, false);
  }

  /** Cell k is empty, its value is the maximum over all empty cells, and no
      earlier empty cell in row-major order reaches that value. */
  predicate FirstBestMove(g: Grid, k: Square) {
    && g[k] == Empty
    && (forall j :: 0 <= j < 9 && g[j] == Empty ==> MoveValue(g, j) <= MoveValue(g, k))
    && (forall j :: 0 <= j < k && g[j] == Empty ==> MoveValue(g, j) < MoveValue(g, k))
  }

  /** The invariant of the root scan after the first k cells: `best` is
      negative (no move yet, value at the sentinel) while no empty cell has
      been seen; afterwards it is an empty cell already scanned whose value
      is the largest seen, and strictly larger than every earlier one's. */
  ghost predicate RootScan(g: Grid, k: nat, best: int, bestVal: int)
    requires k <= 9
  {
    && (best < 0 ==> bestVal == -INF && forall j :: 0 <= j < k ==> g[j] != Empty)
    && (best >= 0 ==>
          && best < k && g[best] == Empty && bestVal == MoveValue(g, best)
          && (forall j :: 0 <= j < k && g[j] == Empty ==> MoveValue(g, j) <= bestVal)
          && (forall j :: 0 <= j < best && g[j] == Empty ==> MoveValue(g, j) < bestVal))
  }

  lemma RootScanStart(g: Grid)
    ensures RootScan(g, 0, -1, -INF)
  {
  }

  lemma RootScanSkip(g: Grid, k: nat, best: int, bestVal: int)
    requires k < 9 && g[k] != Empty
    requires RootScan(g, k, best, bestVal)
    ensures RootScan(g, k + 1, best, bestVal)
  {
  }

  /** An empty cell replaces the best move only when its value is strictly
      greater. */
  lemma RootScanSearch(g: Grid, k: nat, best: int, bestVal: int)
    requires k < 9 && g[k] == Empty
    requires RootScan(g, k, best, bestVal)
    ensures MoveValue(g, k) > bestVal ==> RootScan(g, k + 1, k, MoveValue(g, k))
    ensures MoveValue(g, k) <= bestVal ==> RootScan(g, k + 1, best, bestVal)
  {
    MoveValueBounds(g, k);
  }

  /** On a board with an empty cell the scan ends with the first best move. */
  lemma RootScanDone(g: Grid, best: int, bestVal: int)
    requires MovesLeft(g)
    requires RootScan(g, 9, best, bestVal)
    ensures 0 <= best < 9 && FirstBestMove(g, best)
  {
  }

  /** The four difficulty tiers. */
  datatype Difficulty = Easy | Medium | Hard | Impossible

  /** The source compares random.random() against the literals 0.7, 0.4 and
      0.1, which are IEEE-754 doubles: these are their exact values. The one
      for 0.7 lies just below 7/10, those for 0.4 and 0.1 just above. */
  const EasyThreshold: real := 3152519739159347.0 / 4503599627370496.0
  const MediumThreshold: real := 3602879701896397.0 / 9007199254740992.0
  const HardThreshold: real := 3602879701896397.0 / 36028797018963968.0

  /** random.random() returns k / 2^53 for some 0 <= k < 2^53. */
  const DrawDenominator: int := 9007199254740992

  /** Whether the difficulty's random shortcut is taken, given the value
      `draw` of random.random(): below the double nearest 0.7 on easy, 0.4 on
      medium, 0.1 on hard; the impossible tier makes no draw and never takes
      it. */
  function TakesRandomMove(d: Difficulty, draw: real): bool {
    match d
    case Easy => draw < EasyThreshold
    case Medium => draw < MediumThreshold
    case Hard => draw < HardThreshold
    case Impossible => false
  }

  /** Each threshold is within one unit of 2^-53 of the decimal it is
      written as, on the side the double rounds to. */
  lemma ThresholdsNearDecimals()
    ensures EasyThreshold < 0.7 < EasyThreshold + 1.0 / DrawDenominator as real
    ensures 0.4 < MediumThreshold < 0.4 + 1.0 / DrawDenominator as real
    ensures 0.1 < HardThreshold < 0.1 + 1.0 / DrawDenominator as real
  {
  }

  /** Over the 2^53 values random.random() can return, the shortcut is taken
      for the first 6305039478318694 on easy, 3602879701896397 on medium and
      900719925474100 on hard, and never on the impossible tier; so the draw
      equal to the double 0.7 does not take the easy shortcut. */
  lemma RandomDraws(k: nat)
    requires k < DrawDenominator
    ensures TakesRandomMove(Easy, k as real / DrawDenominator as real) <==> k < 6305039478318694
    ensures TakesRandomMove(Medium, k as real / DrawDenominator as real) <==> k < 3602879701896397
    ensures TakesRandomMove(Hard, k as real / DrawDenominator as real) <==> k < 900719925474100
    ensures !TakesRandomMove(Impossible, k as real / DrawDenominator as real)
  {
  }

  /** The tiers are ordered: every draw that makes a harder tier play
      randomly makes an easier one do so too, and the impossible tier always
      searches. */
  lemma DifficultyOrder(draw: real)
    ensures !TakesRandomMove(Impossible, draw)
    ensures TakesRandomMove(Hard, draw) ==> TakesRandomMove(Medium, draw)
    ensures TakesRandomMove(Medium, draw) ==> TakesRandomMove(Easy, draw)
  {
  }

  /** The cell the engine may return for board g: through the random shortcut
      the pick-th empty cell in row-major order, otherwise the first best
      move. */
  predicate EngineChoice(g: Grid, d: Difficulty, draw: real, pick: nat, k: Square) {
    && g[k] == Empty
    && (TakesRandomMove(d, draw) ==> pick < |EmptyCells(g)| && Index(EmptyCells(g)[pick]) == k)
    && (!TakesRandomMove(d, draw) ==> FirstBestMove(g, k))
  }

  /** Once the random outcome is fixed, the engine's answer is determined:
      in particular the search's tie-break leaves no freedom. */
  lemma EngineChoiceUnique(g: Grid, d: Difficulty, draw: real, pick: nat, k1: Square, k2: Square)
    requires EngineChoice(g, d, draw, pick, k1) && EngineChoice(g, d, draw, pick, k2)
    ensures k1 == k2
  {
  }

  /** A move that completes a line of 'O' is worth 10, the most any move
      can be worth. */
  lemma WinningMoveValue(g: Grid, k: Square)
    requires g[k] == Empty && Evaluate(g[k := O]) == 10
    ensures MoveValue(g, k) == 10
    ensures forall j :: 0 <= j < 9 && g[j] == Empty ==> MoveValue(g, j) <= MoveValue(g, k)
  {
    forall j | 0 <= j < 9 && g[j] == Empty
      ensures MoveValue(g, j) <= 10
    {
      MoveValueBounds(g, j);
    }
  }

  /** On the board X X . / O O . / . . . the search takes the immediate win at
      (1, 2), square 5, rather than any other cell. */
  lemma TakesImmediateWin(g: Grid)
    requires g == [X, X, Empty, O, O, Empty, Empty, Empty, Empty]
    ensures FirstBestMove(g, 5)
  {
    WinScores(g);
    WinningMoveValue(g, 5);
    NoWinAtTwo(g);
  }

  lemma WinScores(g: Grid)
    requires g == [X, X, Empty, O, O, Empty, Empty, Empty, Empty]
    ensures Evaluate(g[5 := O]) == 10
  {
    var won := g[5 := O];
    assert Uniform(won, Lines[1], O);
    assert won[Lines[1].a] == won[Lines[1].b];
    assert LineScore(won, Lines[0]) == 0;
    assert LineScore(won, Lines[1]) == 10;
    assert EvaluateFrom(won, 0) == 10;
  }

  lemma NoWinAtTwo(g: Grid)
    requires g == [X, X, Empty, O, O, Empty, Empty, Empty, Empty]
    ensures MoveValue(g, 2) <= 9
  {
    var other := g[2 := O];
    assert other == [X, X, O, O, O, Empty, Empty, Empty, Empty];
    forall n | 0 <= n < |Lines|
      ensures !Uniform(other, Lines[n], O) && !Uniform(other, Lines[n], X)
    {
      assert other[5] == Empty && other[6] == Empty;
    }
    assert other[5] == Empty;
    BestBounds(other, 0, false, 9);
  }
}
