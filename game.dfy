/** The game object: the 3x3 board and the move counter it updates in place,
    the alpha-beta search that marks and erases hypothetical moves on that
    same board, the move choice, and the three places where the board changes
    for real (a human move, an AI move, a reset). */
module Game {
  import opened Board
  import opened Engine

  /** What the game does after a move: ignore an illegal click, end the game
      with an outcome, hand the turn to the AI, or hand it back to the human. */
  datatype Next = Ignored | GameOver(outcome: Outcome) | AiToMove | HumanToMove

  /** The flat index of the best move so far, -1 while there is none. */
  function Slot(row: int, col: int): int {
    if row == -1 then -1 else 3 * row + col
  }

  class TicTacToe {
    var board: array2<Cell>
    var movesCount: int
    var difficulty: Difficulty

    predicate Shaped()
      reads this
    {
      board.Length0 == 3 && board.Length1 == 3
    }

    /** The board read row by row. */
    function Cells(): Grid
      requires Shaped()
      reads this, board
    {
      [board[0, 0], board[0, 1], board[0, 2],
       board[1, 0], board[1, 1], board[1, 2],
       board[2, 0], board[2, 1], board[2, 2]]
    }

    /** The object invariant: the counter holds the number of marked cells. */
    ghost predicate Valid()
      reads this, board
    {
      Shaped() && movesCount == Marks(Cells())
    }

    lemma CellAt(row: int, col: int)
      requires Shaped() && 0 <= row < 3 && 0 <= col < 3
      ensures Cells()[3 * row + col] == board[row, col]
    {
    }

    /** A new game: empty board, no moves. */
    constructor (difficulty: Difficulty)
      ensures Valid() && fresh(board)
      ensures Cells() == EmptyGrid && movesCount == 0 && this.difficulty == difficulty
    {
      board := new Cell[3, 3]((i, j) => Empty);
      movesCount := 0;
      this.difficulty := difficulty;
      EmptyGridMarks();
    }

    /** Writes one cell: a hypothetical mark, or its erasure. */
    method Put(row: int, col: int, c: Cell)
      requires Shaped() && 0 <= row < 3 && 0 <= col < 3
      modifies board
      ensures Cells() == old(Cells())[3 * row + col := c]
    {
      board[row, col] := c;
    }

    /** Minimax with alpha-beta pruning, exploring by marking a cell of the
        board, searching, and erasing the mark. Terminal positions are scored
        here; the AI's and the human's scans are the two methods below. */
    method Minimax(depth: nat, isMaximizing: bool, alpha: int, beta: int) returns (v: int)
      requires Shaped()
      requires -INF <= alpha && beta <= INF
      modifies board
      ensures Cells() == old(Cells())
      ensures Evaluate(old(Cells())) == 10 ==> v == 10 - depth
      ensures Evaluate(old(Cells())) == -10 ==> v == -10 + depth
      ensures Evaluate(old(Cells())) == 0 && !MovesLeft(old(Cells())) ==> v == 0
      ensures depth + CountEmpty(old(Cells())) <= 10 ==> depth - 10 <= v <= 10 - depth
      ensures alpha < beta ==> WithinWindow(v, Score(old(Cells()), depth, isMaximizing), alpha, beta)
      ensures alpha == -INF && beta == INF && depth + CountEmpty(old(Cells())) <= 10 ==>
                v == Score(old(Cells()), depth, isMaximizing)
      decreases CountEmpty(Cells()), 2
    {
      var score := Evaluate(Cells());
      if score == 10 {
        return score - depth;
      }
      if score == -10 {
        return score + depth;
      }
      if !MovesLeft(Cells()) {
        return 0;
      }
      if isMaximizing {
        v := MaximizingScan(depth, alpha, beta);
      } else {
        v := MinimizingScan(depth, alpha, beta);
      }
      if alpha == -INF && beta == INF && depth + CountEmpty(Cells()) <= 10 {
        FullWindowExact(Cells(), depth, isMaximizing, v);
      }
    }

    /** The AI's turn in the search: each empty cell, row by row, gets an 'O',
        is searched with the human to move, and is cleared; the best value so
        far raises alpha. A cut-off (beta <= alpha) leaves only the column
        loop, so the first empty cell of each later row is still searched. */
    method MaximizingScan(depth: nat, alpha: int, beta: int) returns (v: int)
      requires Shaped() && MovesLeft(Cells())
      requires -INF <= alpha && beta <= INF
      modifies board
      ensures Cells() == old(Cells())
      ensures depth + CountEmpty(old(Cells())) <= 10 ==> depth - 9 <= v <= 9 - depth
      ensures alpha < beta ==> WithinWindow(v, Best(old(Cells()), depth, true, 9), alpha, beta)
      decreases CountEmpty(Cells()), 1
    {
      ghost var g := Cells();
      var a, b := alpha, beta;
      var best := -INF;
      MaxScanStart(g, depth, alpha, beta);
      var i := 0;
      while i < 3
        invariant 0 <= i <= 3
        invariant Cells() == g && b == beta
        invariant MaxScan(g, depth, alpha, beta, 3 * i, best, a)
      {
        var j := 0;
        while j < 3
          invariant 0 <= j <= 3
          invariant Cells() == g && b == beta
          invariant MaxScan(g, depth, alpha, beta, 3 * i + j, best, a)
        {
          CellAt(i, j);
          ghost var k := 3 * i + j;
          if board[i, j] == Empty {
            var value := SearchChild(depth, true, i, j, a, b);
            MaxScanSearch(g, depth, alpha, beta, k, best, a, value);
            best := Max(best, value);
            a := Max(a, best);
            if b <= a {
              MaxScanCut(g, depth, alpha, beta, k + 1, 3 * i + 3, best, a);
              break;
            }
          } else {
            MaxScanSkip(g, depth, alpha, beta, k, best, a);
          }
          j := j + 1;
        }
        i := i + 1;
      }
      MaxScanDone(g, depth, alpha, beta, best, a);
      v := best;
    }

    /** The human's turn in the search: the mirror image of the AI's, with
        'X', the minimum, and beta lowered. */
    method MinimizingScan(depth: nat, alpha: int, beta: int) returns (v: int)
      requires Shaped() && MovesLeft(Cells())
      requires -INF <= alpha && beta <= INF
      modifies board
      ensures Cells() == old(Cells())
      ensures depth + CountEmpty(old(Cells())) <= 10 ==> depth - 9 <= v <= 9 - depth
      ensures alpha < beta ==> WithinWindow(v, Best(old(Cells()), depth, false, 9), alpha, beta)
      decreases CountEmpty(Cells()), 1
    {
      ghost var g := Cells();
      var a, b := alpha, beta;
      var best := INF;
      MinScanStart(g, depth, alpha, beta);
      var i := 0;
      while i < 3
        invariant 0 <= i <= 3
        invariant Cells() == g && a == alpha
        invariant MinScan(g, depth, alpha, beta, 3 * i, best, b)
      {
        var j := 0;
        while j < 3
          invariant 0 <= j <= 3
          invariant Cells() == g && a == alpha
          invariant MinScan(g, depth, alpha, beta, 3 * i + j, best, b)
        {
          CellAt(i, j);
          ghost var k := 3 * i + j;
          if board[i, j] == Empty {
            var value := SearchChild(depth, false, i, j, a, b);
            MinScanSearch(g, depth, alpha, beta, k, best, b, value);
            best := Min(best, value);
            b := Min(b, best);
            if b <= a {
              MinScanCut(g, depth, alpha, beta, k + 1, 3 * i + 3, best, b);
              break;
            }
          } else {
            MinScanSkip(g, depth, alpha, beta, k, best, b);
          }
          j := j + 1;
        }
        i := i + 1;
      }
      MinScanDone(g, depth, alpha, beta, best, b);
      v := best;
    }

    /** One step of a scan: mark empty cell (row, col) for the side to move,
        search the position with the other side to move, erase the mark. */
    method SearchChild(depth: nat, maximizing: bool, row: int, col: int, alpha: int, beta: int) returns (value: int)
      requires Shaped() && 0 <= row < 3 && 0 <= col < 3
      requires Cells()[3 * row + col] == Empty
      requires -INF <= alpha && beta <= INF
      modifies board
      ensures Cells() == old(Cells())
      ensures depth + CountEmpty(old(Cells())) <= 10 ==> depth - 9 <= value <= 9 - depth
      ensures alpha < beta ==> WithinWindow(value, ChildScore(old(Cells()), depth, maximizing, 3 * row + col), alpha, beta)
      decreases CountEmpty(Cells()), 0
    {
      ghost var g := Cells();
      ghost var k := 3 * row + col;
      Put(row, col, Mark(maximizing));
      CountEmptyUpdate(g, k, Mark(maximizing));
      value := Minimax(depth + 1, !maximizing, alpha, beta);
      Put(row, col, Empty);
      assert g[k := Mark(maximizing)][k := Empty] == g;
    }

    /** The empty cells, collected row by row. */
    method AvailableMoves() returns (moves: seq<Pos>)
      requires Shaped()
      ensures moves == EmptyCells(Cells())
    {
      ghost var g := Cells();
      moves := [];
      var i := 0;
      while i < 3
        invariant 0 <= i <= 3
        invariant moves == EmptyCellsBefore(g, 3 * i)
      {
        var j := 0;
        while j < 3
          invariant 0 <= j <= 3
          invariant moves == EmptyCellsBefore(g, 3 * i + j)
        {
          CellAt(i, j);
          EmptyCellsStep(g, i, j);
          if board[i, j] == Empty {
            moves := moves + [Pos(i, j)];
          }
          j := j + 1;
        }
        i := i + 1;
      }
    }

    /** The root search's step: mark empty cell (row, col) with the AI's
        'O', search with the human to move at depth 0, erase the mark. */
    method MoveSearch(row: int, col: int) returns (moveVal: int)
      requires Shaped() && 0 <= row < 3 && 0 <= col < 3
      requires Cells()[3 * row + col] == Empty
      modifies board
      ensures Cells() == old(Cells())
      ensures moveVal == MoveValue(old(Cells()), 3 * row + col)
    {
      ghost var g := Cells();
      ghost var k := 3 * row + col;
      Put(row, col, O);
      CountEmptyUpdate(g, k, O);
      moveVal := Minimax(0, false, -INF, INF);
      Put(row, col, Empty);
      assert g[k := O][k := Empty] == g;
    }

    /** The AI's move: the random shortcut of the difficulty tier (`draw` is
        the value of random.random(), `pick` the index random.choice takes),
        or else the first empty cell, row by row, of greatest search value.
        The board is left as it was found. */
    method FindBestMove(draw: real, pick: nat) returns (row: int, col: int)
      requires Shaped()
      requires MovesLeft(Cells())
      requires pick < CountEmpty(Cells())
      modifies board
      ensures Cells() == old(Cells())
      ensures OnBoard(Pos(row, col)) && old(Cells())[3 * row + col] == Empty
      ensures EngineChoice(old(Cells()), difficulty, draw, pick, 3 * row + col)
    {
      ghost var g := Cells();
      var available := AvailableMoves();
      if TakesRandomMove(difficulty, draw) {
        EmptyCellsSpec(g);
        var p := available[pick];
        assert p in EmptyCells(g);
        return p.row, p.col;
      }

      row, col := BestMoveSearch();
    }

    /** One step of the root scan at (row, col): an empty cell is searched
        and becomes the best move when its value is strictly greater. */
    method ConsiderMove(row: int, col: int, bestRow: int, bestCol: int, bestVal: int)
      returns (row': int, col': int, val': int)
      requires Shaped() && 0 <= row < 3 && 0 <= col < 3
      requires bestRow == -1 || OnBoard(Pos(bestRow, bestCol))
      requires RootScan(Cells(), 3 * row + col, Slot(bestRow, bestCol), bestVal)
      modifies board
      ensures Cells() == old(Cells())
      ensures row' == -1 || OnBoard(Pos(row', col'))
      ensures RootScan(Cells(), 3 * row + col + 1, Slot(row', col'), val')
    {
      ghost var g := Cells();
      ghost var k := 3 * row + col;
      row', col', val' := bestRow, bestCol, bestVal;
      CellAt(row, col);
      if board[row, col] == Empty {
        RootScanSearch(g, k, Slot(bestRow, bestCol), bestVal);
        var moveVal := MoveSearch(row, col);
        if moveVal > bestVal {
          row', col', val' := row, col, moveVal;
        }
      } else {
        RootScanSkip(g, k, Slot(bestRow, bestCol), bestVal);
      }
    }

    /** The deterministic branch of the AI's move: every empty cell is tried
        in row-major order and the first with the highest minimax value wins
        (a later cell replaces the best only on a strictly higher value). */
    method BestMoveSearch() returns (row: int, col: int)
      requires Shaped()
      requires MovesLeft(Cells())
      modifies board
      ensures Cells() == old(Cells())
      ensures OnBoard(Pos(row, col)) && FirstBestMove(old(Cells()), 3 * row + col)
    {
      ghost var g := Cells();
      var bestVal := -INF;
      var bestRow, bestCol := -1, -1;
      RootScanStart(g);
      var i := 0;
      while i < 3
        invariant 0 <= i <= 3
        invariant Cells() == g
        invariant bestRow == -1 || OnBoard(Pos(bestRow, bestCol))
        invariant RootScan(g, 3 * i, Slot(bestRow, bestCol), bestVal)
      {
        var j := 0;
        while j < 3
          invariant 0 <= j <= 3
          invariant Cells() == g
          invariant bestRow == -1 || OnBoard(Pos(bestRow, bestCol))
          invariant RootScan(g, 3 * i + j, Slot(bestRow, bestCol), bestVal)
        {
          bestRow, bestCol, bestVal := ConsiderMove(i, j, bestRow, bestCol, bestVal);
          j := j + 1;
        }
        i := i + 1;
      }
      RootScanDone(g, Slot(bestRow, bestCol), bestVal);
      row, col := bestRow, bestCol;
    }

    /** A click on (row, col): ignored when the cell is taken; otherwise the
        human's mark goes there, the counter goes up, and the winner check
        decides between ending the game and the AI's turn. */
    method HumanMove(row: int, col: int) returns (next: Next)
      requires Valid() && 0 <= row < 3 && 0 <= col < 3
      modifies this, board
      ensures Valid() && board == old(board) && difficulty == old(difficulty)
      ensures old(Cells())[3 * row + col] != Empty ==>
                next == Ignored && Cells() == old(Cells()) && movesCount == old(movesCount)
      ensures old(Cells())[3 * row + col] == Empty ==>
                && Cells() == old(Cells())[3 * row + col := X]
                && movesCount == old(movesCount) + 1
                && next == (if CheckWinner(Cells()) == Undecided then AiToMove else GameOver(CheckWinner(Cells())))
    {
      CellAt(row, col);
      if board[row, col] != Empty {
        return Ignored;
      }
      Put(row, col, X);
      CountEmptyUpdate(old(Cells()), 3 * row + col, X);
      movesCount := movesCount + 1;
      var winner := CheckWinner(Cells());
      if winner != Undecided {
        return GameOver(winner);
      }
      return AiToMove;
    }

    /** The AI's turn: the engine's cell gets the AI's mark, the counter goes
        up, and the winner check decides between ending the game and the
        human's turn. */
    method AiMove(draw: real, pick: nat) returns (next: Next)
      requires Valid() && MovesLeft(Cells()) && pick < CountEmpty(Cells())
      modifies this, board
      ensures Valid() && board == old(board) && difficulty == old(difficulty)
      ensures exists k :: 0 <= k < 9 && EngineChoice(old(Cells()), difficulty, draw, pick, k) && Cells() == old(Cells())[k := O]
      ensures movesCount == old(movesCount) + 1
      ensures next == (if CheckWinner(Cells()) == Undecided then HumanToMove else GameOver(CheckWinner(Cells())))
    {
      ghost var g := Cells();
      var aiRow, aiCol := FindBestMove(draw, pick);
      Put(aiRow, aiCol, O);
      CountEmptyUpdate(g, 3 * aiRow + aiCol, O);
      movesCount := movesCount + 1;
      var winner := CheckWinner(Cells());
      if winner != Undecided {
        return GameOver(winner);
      }
      return HumanToMove;
    }

    /** A new game on the same object: a fresh empty board and no moves. */
    method ResetGame()
      modifies this
      ensures Valid() && fresh(board) && difficulty == old(difficulty)
      ensures Cells() == EmptyGrid && movesCount == 0
    {
      board := new Cell[3, 3]((i, j) => Empty);
      movesCount := 0;
      EmptyGridMarks();
    }
  }
}
