/** The board state of the game: a 3x3 grid of cells and the read-only
    queries over it (line scoring, "moves left", the winner check and the
    row-major list of empty cells). The grid is flat: cell (row, col) sits at
    index 3 * row + col, so a scan "for row, for col" is a scan of indices
    0 .. 8 in order. */
module Board {

  /** A cell is empty (' '), holds the human's mark 'X' or the AI's mark 'O'. */
  datatype Cell = Empty | X | O

  /** An index into the flat grid. */
  type Square = k: int | 0 <= k < 9

  /** The 3x3 grid in row-major order. */
  type Grid = g: seq<Cell> | |g| == 9
    witness [Empty, Empty, Empty, Empty, Empty, Empty, Empty, Empty, Empty]

  const EmptyGrid: Grid := [Empty, Empty, Empty, Empty, Empty, Empty, Empty, Empty, Empty]

  /** A (row, col) pair, as the source's move tuples. */
  datatype Pos = Pos(row: int, col: int)

  predicate OnBoard(p: Pos) {
    0 <= p.row < 3 && 0 <= p.col < 3
  }

  function Index(p: Pos): int {
    3 * p.row + p.col
  }

  function PosOf(k: Square): (p: Pos)
    ensures OnBoard(p) && Index(p) == k
  {
    Pos(k / 3, k % 3)
  }

  // ---------------------------------------------------------------------
  // Lines and evaluation
  // ---------------------------------------------------------------------

  /** Three squares in a row, column or diagonal. */
  datatype Line = Line(a: Square, b: Square, c: Square)

  /** The eight lines in the order the evaluation checks them: the three rows,
      the three columns, the main diagonal, the anti-diagonal. */
  const Lines: seq<Line> := [
    Line(0, 1, 2), Line(3, 4, 5), Line(6, 7, 8),
    Line(0, 3, 6), Line(1, 4, 7), Line(2, 5, 8),
    Line(0, 4, 8), Line(2, 4, 6)
  ]

  /** All three squares of line l hold mark m. */
  predicate Uniform(g: Grid, l: Line, m: Cell) {
    g[l.a] == m && g[l.b] == m && g[l.c] == m
  }

  /** Some row, column or diagonal is all m. */
  predicate HasLine(g: Grid, m: Cell) {
    exists n :: 0 <= n < |Lines| && Uniform(g, Lines[n], m)
  }

  /** The check the evaluation makes on one line: three equal non-empty
      cells score 10 for the AI's mark and -10 for the human's. */
  function LineScore(g: Grid, l: Line): int {
    if g[l.a] == g[l.b] && g[l.b] == g[l.c] && g[l.a] != Empty then
      if g[l.a] == O then 10 else if g[l.a] == X then -10 else 0
    else 0
  }

  /** The evaluation scan from line n on: the first line that is uniform and
      non-empty decides the score. */
  function EvaluateFrom(g: Grid, n: nat): (r: int)
    requires n <= |Lines|
    ensures r == 10 || r == -10 || r == 0
    ensures r == 10 ==> exists m :: n <= m < |Lines| && Uniform(g, Lines[m], O)
    ensures r == -10 ==> exists m :: n <= m < |Lines| && Uniform(g, Lines[m], X)
    ensures r == 0 <==> forall m :: n <= m < |Lines| ==> !Uniform(g, Lines[m], O) && !Uniform(g, Lines[m], X)
    decreases |Lines| - n
  {
    if n == |Lines| then 0
    else if LineScore(g, Lines[n]) != 0 then LineScore(g, Lines[n])
    else EvaluateFrom(g, n + 1)
  }

  /** The board score: +10 when the AI has three in a row, -10 when the human
      has, 0 when no line is complete. */
  function Evaluate(g: Grid): (r: int)
    ensures r == 10 || r == -10 || r == 0
    ensures r == 10 ==> HasLine(g, O)
    ensures r == -10 ==> HasLine(g, X)
    ensures r == 0 <==> !HasLine(g, O) && !HasLine(g, X)
  {
    EvaluateFrom(g, 0)
  }

  // ---------------------------------------------------------------------
  // Empty cells
  // ---------------------------------------------------------------------

  /** The row-major scan for an empty cell, from index k on. */
  function HasEmptyFrom(g: Grid, k: nat): (r: bool)
    requires k <= 9
    ensures r <==> exists j :: k <= j < 9 && g[j] == Empty
    decreases 9 - k
  {
    k < 9 && (g[k] == Empty || HasEmptyFrom(g, k + 1))
  }

  /** Whether any cell is still empty. */
  function MovesLeft(g: Grid): (r: bool)
    ensures r <==> exists k :: 0 <= k < 9 && g[k] == Empty
  {
    HasEmptyFrom(g, 0)
  }

  /** The number of empty cells of s. */
  function CountEmpty(s: seq<Cell>): (n: nat)
    ensures n <= |s|
  {
    if s == [] then 0
    else CountEmpty(s[..|s| - 1]) + (if s[|s| - 1] == Empty then 1 else 0)
  }

  /** The number of marked (non-empty) cells of the grid. */
  function Marks(g: Grid): nat {
    9 - CountEmpty(g)
  }

  lemma {:induction false} CountEmptyAppend(s: seq<Cell>, t: seq<Cell>)
    ensures CountEmpty(s + t) == CountEmpty(s) + CountEmpty(t)
    decreases |t|
  {
    if t == [] {
      assert s + t == s;
    } else {
      var t' := t[..|t| - 1];
      assert (s + t)[..|s + t| - 1] == s + t';
      CountEmptyAppend(s, t');
      assert t[..|t| - 1] == t';
    }
  }

  /** Overwriting one cell changes the count of empty cells by what was there
      and what is put there. */
  lemma CountEmptyUpdate(s: seq<Cell>, k: nat, c: Cell)
    requires k < |s|
    ensures CountEmpty(s[k := c]) == CountEmpty(s) - (if s[k] == Empty then 1 else 0) + (if c == Empty then 1 else 0)
  {
    var pre, post := s[..k], s[k + 1..];
    assert s == pre + [s[k]] + post;
    assert s[k := c] == pre + [c] + post;
    CountEmptyAppend(pre + [s[k]], post);
    CountEmptyAppend(pre, [s[k]]);
    CountEmptyAppend(pre + [c], post);
    CountEmptyAppend(pre, [c]);
    assert CountEmpty([c]) == (if c == Empty then 1 else 0) by {
      assert [c][..0] == [];
    }
    assert CountEmpty([s[k]]) == (if s[k] == Empty then 1 else 0) by {
      assert [s[k]][..0] == [];
    }
  }

  /** A sequence of empty cells counts all its cells as empty. */
  lemma {:induction false} CountEmptyAll(s: seq<Cell>)
    requires forall k :: 0 <= k < |s| ==> s[k] == Empty
    ensures CountEmpty(s) == |s|
    decreases |s|
  {
    if s != [] {
      CountEmptyAll(s[..|s| - 1]);
    }
  }

  /** The empty board has no marks. */
  lemma EmptyGridMarks()
    ensures Marks(EmptyGrid) == 0
  {
    CountEmptyAll(EmptyGrid);
  }

  /** A grid has an empty cell exactly when its empty count is positive. */
  lemma {:induction false} CountEmptyPositive(s: seq<Cell>)
    ensures CountEmpty(s) > 0 <==> exists k :: 0 <= k < |s| && s[k] == Empty
    decreases |s|
  {
    if s != [] {
      var s' := s[..|s| - 1];
      CountEmptyPositive(s');
      if CountEmpty(s') > 0 {
        var k :| 0 <= k < |s'| && s'[k] == Empty;
        assert s[k] == Empty;
      }
      if exists k :: 0 <= k < |s| && s[k] == Empty {
        var k :| 0 <= k < |s| && s[k] == Empty;
        if k < |s'| {
          assert s'[k] == Empty;
        }
      }
    }
  }

  lemma MovesLeftCount(g: Grid)
    ensures MovesLeft(g) <==> CountEmpty(g) > 0
  {
    CountEmptyPositive(g);
  }

  /** The empty cells among the first n, in the order of the source's double
      loop (row-major), as (row, col) pairs. */
  function EmptyCellsBefore(g: Grid, n: nat): seq<Pos>
    requires n <= 9
  {
    if n == 0 then []
    else EmptyCellsBefore(g, n - 1) + (if g[n - 1] == Empty then [PosOf(n - 1)] else [])
  }

  /** The prefix scan lists exactly the empty cells below n, each once, in
      increasing index order. */
  lemma {:induction false} EmptyCellsBeforeSpec(g: Grid, n: nat)
    requires n <= 9
    ensures |EmptyCellsBefore(g, n)| == CountEmpty(g[..n])
    ensures forall p :: p in EmptyCellsBefore(g, n) <==> OnBoard(p) && Index(p) < n && g[Index(p)] == Empty
    ensures forall a, b :: 0 <= a < b < |EmptyCellsBefore(g, n)| ==>
              Index(EmptyCellsBefore(g, n)[a]) < Index(EmptyCellsBefore(g, n)[b])
  {
    if n > 0 {
      EmptyCellsBeforeSpec(g, n - 1);
      var r' := EmptyCellsBefore(g, n - 1);
      assert g[..n] == g[..n - 1] + [g[n - 1]];
      CountEmptyAppend(g[..n - 1], [g[n - 1]]);
      assert [g[n - 1]][..0] == [];
      if g[n - 1] == Empty {
        var p := PosOf(n - 1);
        assert EmptyCellsBefore(g, n) == r' + [p];
        assert forall q :: q in r' + [p] <==> q in r' || q == p;
      } else {
        assert EmptyCellsBefore(g, n) == r';
      }
    }
  }

  /** One step of the row-major scan: cell (row, col) is appended when empty. */
  lemma EmptyCellsStep(g: Grid, row: int, col: int)
    requires 0 <= row < 3 && 0 <= col < 3
    ensures EmptyCellsBefore(g, 3 * row + col + 1)
         == EmptyCellsBefore(g, 3 * row + col) + (if g[3 * row + col] == Empty then [Pos(row, col)] else [])
  {
    assert PosOf(3 * row + col) == Pos(row, col);
  }

  /** All empty cells, in row-major order. */
  function EmptyCells(g: Grid): seq<Pos> {
    EmptyCellsBefore(g, 9)
  }

  /** The list of available moves holds every empty cell exactly once, in
      row-major order, and nothing else. */
  lemma EmptyCellsSpec(g: Grid)
    ensures |EmptyCells(g)| == CountEmpty(g)
    ensures forall p :: p in EmptyCells(g) <==> OnBoard(p) && g[Index(p)] == Empty
    ensures forall a, b :: 0 <= a < b < |EmptyCells(g)| ==> Index(EmptyCells(g)[a]) < Index(EmptyCells(g)[b])
  {
    EmptyCellsBeforeSpec(g, 9);
    assert g[..9] == g;
  }

  // ---------------------------------------------------------------------
  // The winner check
  // ---------------------------------------------------------------------

  /** The result of the winner check: the AI's mark, the human's mark, 'tie',
      or nothing (the game goes on). */
  datatype Outcome = AiWins | HumanWins | Tie | Undecided

  function CheckWinner(g: Grid): (r: Outcome)
    ensures r == AiWins <==> Evaluate(g) == 10
    ensures r == HumanWins <==> Evaluate(g) == -10
    ensures r == Tie <==> Evaluate(g) == 0 && !MovesLeft(g)
    ensures r == Undecided <==> Evaluate(g) == 0 && MovesLeft(g)
    ensures r == AiWins ==> HasLine(g, O)
    ensures r == HumanWins ==> HasLine(g, X)
    ensures r == Tie <==> !HasLine(g, O) && !HasLine(g, X) && forall k :: 0 <= k < 9 ==> g[k] != Empty
    ensures r == Undecided <==> !HasLine(g, O) && !HasLine(g, X) && exists k :: 0 <= k < 9 && g[k] == Empty
  {
    var score := Evaluate(g);
    if score == 10 then AiWins
    else if score == -10 then HumanWins
    else if !MovesLeft(g) then Tie
    else Undecided
  }
}
