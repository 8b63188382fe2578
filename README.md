# Tic-tac-toe game logic with a minimax engine

This project models the game logic of `TIC_TAC_TOE.py`, with its tkinter layer removed. The human plays `X` and the AI plays `O`. The game object holds three things:

- a 3x3 board of `' '`, `'X'` and `'O'`;
- a move counter;
- a difficulty tier.

The board changes in three ways:

- A human click places an `X` on an empty cell. A click on an occupied cell is ignored.
- The AI places an `O` on the cell its engine picks.
- A reset clears the board.

After each real move the winner check settles one of four outcomes: `O` wins, `X` wins, a tie, or the game goes on. The engine picks its cell in one of two ways:

- **Random shortcut.** Depending on the tier, it may take a random empty cell.
- **Search.** Otherwise it tries every empty cell, row by row. Each one is scored with a depth-scored minimax with alpha-beta pruning. This search explores by writing hypothetical marks into the real board and erasing them again. The first cell of strictly greatest value wins.

The project is split into three modules:

- `Board` (`board.dfy`) holds the read-only queries as functions over a flat grid, `seq<Cell>` of length 9. Cell `(row, col)` is index `3 * row + col`, so a "for row, for col" scan visits indices 0..8 in order. The queries are:
  - `Evaluate`, the line scan;
  - `MovesLeft`;
  - `CheckWinner`;
  - the row-major list of empty cells;
  - the count of empty cells.
- `Engine` (`engine.dfy`) is the reference the search is proved against:
  - `Score` is plain minimax over every empty cell, with no pruning and the same leaf scores.
  - The scan invariants of the alpha-beta loops and of the root loop are ghost predicates. Each has small step lemmas.
  - Also here: the difficulty tiers and `EngineChoice`, which is the set of cells the engine may return.
- `Game` (`game.dfy`) is the class `TicTacToe`. Its fields are `board: array2<Cell>`, `movesCount` and `difficulty`.
  - Its methods mutate the board in place.
  - `Cells()` reads the array as a flat grid, so each method is specified against the functions above.
  - The object invariant `Valid()` says that `movesCount` equals the number of marked cells.

The source uses `float('-inf')` and `float('inf')` as sentinels. The model replaces them with `-INF` and `INF`, where `INF = 1000`; every real score lies in [-10, 10].

In the loop of `minimax`, the `break` on `beta <= alpha` leaves only the inner column loop. The model keeps this behaviour:

- After a cut-off, the first empty cell of each later row is still searched.
- That search runs with an inverted window (alpha >= beta).

The soundness contract of the search therefore covers calls with `alpha < beta`. Every call made from the root of the search has that property. Under that contract, an answer at or below alpha shows that the true value is at most alpha, an answer at or above beta shows that it is at least beta, and an answer strictly inside the window is exact. With the full window, which is the one the root uses, the answer equals the reference `Score` exactly.

The random draws are inputs here:

- `draw` stands for the value `random.random()` returns. It is compared against the tier's threshold: the double nearest 0.7 for easy, 0.4 for medium, 0.1 for hard, and never for impossible. The thresholds are the exact binary values of those doubles, not the decimals. The double for 0.7 lies just below 7/10, so the draw equal to it does not take the easy shortcut.
- `pick` is the index `random.choice` takes into the list of available moves.

## Model

| member | source | states |
|---|---|---|
| Board.EvaluateFrom | TIC_TAC_TOE.py:207-242 | the line scan from line n on yields only 10, -10 or 0; 10 only if some later line is all O, -10 only if one is all X, 0 exactly when none of those lines is uniform and non-empty |
| Board.Evaluate | TIC_TAC_TOE.py:207-242 | the board score is 10, -10 or 0; 10 implies a row, column or diagonal of O; -10 one of X; 0 holds exactly when no line is uniform and non-empty |
| Board.HasEmptyFrom | TIC_TAC_TOE.py:246-250 | the row-major scan from index k answers true exactly when some cell at or after k is empty |
| Board.MovesLeft | TIC_TAC_TOE.py:244-250 | true exactly when some cell of the board is empty |
| Board.MovesLeftCount | TIC_TAC_TOE.py:244-250 | moves are left exactly when the number of empty cells is positive |
| Board.CountEmptyUpdate | TIC_TAC_TOE.py:141-143 | writing a cell changes the number of empty cells by what was removed and what was added, so a mark on an empty cell adds exactly one to the marked count |
| Board.EmptyGridMarks | TIC_TAC_TOE.py:12-16 | the freshly built board of spaces has no marked cell, matching the counter's initial 0 |
| Board.EmptyCellsBeforeSpec | TIC_TAC_TOE.py:290-294 | the list collected over the first n cells has one entry per empty cell among them, contains exactly the on-board positions of those cells, and lists them in increasing row-major order |
| Board.EmptyCellsStep | TIC_TAC_TOE.py:291-294 | one step of the double loop appends (row, col) exactly when that cell is empty |
| Board.EmptyCellsSpec | TIC_TAC_TOE.py:290-294 | the available moves are exactly the empty cells of the board, each once, in row-major order, and there are as many as empty cells |
| Board.CheckWinner | TIC_TAC_TOE.py:320-329 | O wins iff the score is 10, X wins iff it is -10, a tie iff it is 0 and no cell is empty, undecided otherwise; stated both against Evaluate/MovesLeft and directly in terms of uniform lines and empty cells |
| Engine.ScoreBounds | TIC_TAC_TOE.py:254-286 | within the game's horizon (depth plus empty cells at most 10) every minimax value lies in [depth-10, 10-depth], so it is never an infinity sentinel |
| Engine.BestBounds | TIC_TAC_TOE.py:263-286 | the best child value over cells below n lies in [depth-9, 9-depth] once some such cell is empty, and is the initial sentinel (-inf for the AI, +inf for the human) when none is |
| Engine.BestMonotone | TIC_TAC_TOE.py:263-286 | scanning more cells never lowers the AI's best and never raises the human's best |
| Engine.FullWindowExact | TIC_TAC_TOE.py:252-252 | with the default window (-inf, +inf), an answer that respects the window equals the unpruned minimax value |
| Engine.MaxScanStart | TIC_TAC_TOE.py:263-264 | the AI's scan starts from best = -inf with alpha unchanged in its invariant |
| Engine.MaxScanSkip | TIC_TAC_TOE.py:265-267 | an occupied cell leaves the AI's scan invariant intact for the next cell |
| Engine.MaxScanSearch | TIC_TAC_TOE.py:267-271 | taking best = max(best, child) and alpha = max(alpha, best) keeps the invariant: without a cut-off, max(alpha, best) agrees with the reference over the cells scanned; after a cut-off, both are at least beta |
| Engine.MaxScanCut | TIC_TAC_TOE.py:272-273 | once beta <= alpha, skipping the rest of the current row keeps the invariant |
| Engine.MaxScanDone | TIC_TAC_TOE.py:274-274 | at the end of the AI's scan, best is, within the horizon (depth plus empty cells at most 10), a real score in [depth-9, 9-depth] and, for alpha < beta, respects the window around the reference value |
| Engine.MinScanStart | TIC_TAC_TOE.py:276-276 | the human's scan starts from best = +inf with beta unchanged in its invariant |
| Engine.MinScanSkip | TIC_TAC_TOE.py:277-279 | an occupied cell leaves the human's scan invariant intact |
| Engine.MinScanSearch | TIC_TAC_TOE.py:279-283 | taking best = min(best, child) and beta = min(beta, best) keeps the human's scan invariant |
| Engine.MinScanCut | TIC_TAC_TOE.py:284-285 | once beta <= alpha, skipping the rest of the current row keeps the invariant |
| Engine.MinScanDone | TIC_TAC_TOE.py:286-286 | at the end of the human's scan, best is, within the horizon, a real score in [depth-9, 9-depth] and, for alpha < beta, respects the window around the reference value |
| Engine.MoveValueBounds | TIC_TAC_TOE.py:309-312 | the value of any candidate move of the AI lies in [-10, 10] |
| Engine.RootScanStart | TIC_TAC_TOE.py:304-305 | the root scan starts with no move and best_val = -inf |
| Engine.RootScanSkip | TIC_TAC_TOE.py:307-309 | an occupied cell leaves the best move and its value unchanged |
| Engine.RootScanSearch | TIC_TAC_TOE.py:309-316 | a strictly greater value makes the cell the best move; an equal or smaller one keeps the earlier best, so the best is always the first cell of greatest value so far |
| Engine.RootScanDone | TIC_TAC_TOE.py:304-318 | on a board with an empty cell the scan ends on an empty cell whose value is the maximum over all empty cells and strictly exceeds every earlier empty cell's |
| Engine.ThresholdsNearDecimals | TIC_TAC_TOE.py:296-300 | the thresholds `TakesRandomMove` compares against are the doubles written 0.7, 0.4 and 0.1: the first just below 7/10, the others just above their decimals, each within 2^-53 |
| Engine.RandomDraws | TIC_TAC_TOE.py:296-301 | `TakesRandomMove` on a draw k/2^53 (the values random.random() returns): easy takes the shortcut exactly for k < 6305039478318694, medium for k < 3602879701896397, hard for k < 900719925474100, impossible never |
| Engine.DifficultyOrder | TIC_TAC_TOE.py:296-301 | impossible never plays randomly; any draw that makes hard play randomly makes medium do so, and any that makes medium do so makes easy do so |
| Engine.EngineChoiceUnique | TIC_TAC_TOE.py:288-318 | once the random outcome is fixed, at most one cell satisfies the engine's choice, so the tie-break leaves no freedom |
| Engine.WinningMoveValue | TIC_TAC_TOE.py:254-257 | a move that completes a line of O is worth 10, which no other move exceeds |
| Engine.TakesImmediateWin | TIC_TAC_TOE.py:304-318 | on X X . / O O . / . . . the search picks the winning cell (1, 2) |
| Game.TicTacToe.constructor | TIC_TAC_TOE.py:11-16 | a new game has an all-empty board, a zero counter, the requested tier, and satisfies the counter invariant |
| Game.TicTacToe.Put | TIC_TAC_TOE.py:268-270 | writing (row, col) changes exactly that cell of the board |
| Game.TicTacToe.Minimax | TIC_TAC_TOE.py:252-286 | the board is as it was found; AI win scores 10-depth, human win -10+depth, full board 0; the answer is in range within the horizon; for alpha < beta it respects the window around the reference Score; with the full window it equals Score |
| Game.TicTacToe.MaximizingScan | TIC_TAC_TOE.py:263-274 | restores the board and returns a value that lies in [depth-9, 9-depth] within the horizon and, for alpha < beta, respects the window around the reference best over all empty cells |
| Game.TicTacToe.MinimizingScan | TIC_TAC_TOE.py:275-286 | the same for the human's scan, with the minimum: the board is restored, the value lies in [depth-9, 9-depth] within the horizon and, for alpha < beta, respects the window around the reference |
| Game.TicTacToe.SearchChild | TIC_TAC_TOE.py:267-270 | placing a mark, searching and erasing it restores the board and gives an answer that respects the window around that child's reference value |
| Game.TicTacToe.AvailableMoves | TIC_TAC_TOE.py:290-294 | returns the list of empty cells in row-major order |
| Game.TicTacToe.MoveSearch | TIC_TAC_TOE.py:309-312 | restores the board and returns exactly the reference value of the AI marking that cell |
| Game.TicTacToe.ConsiderMove | TIC_TAC_TOE.py:309-316 | one root step keeps the board and the root scan invariant, advancing it by one cell |
| Game.TicTacToe.BestMoveSearch | TIC_TAC_TOE.py:303-318 | restores the board and returns the first empty cell in row-major order whose value is the maximum over all empty cells |
| Game.TicTacToe.FindBestMove | TIC_TAC_TOE.py:288-318 | restores the board and returns an empty cell: the pick-th available move when the tier's random shortcut fires, the first best move otherwise |
| Game.TicTacToe.HumanMove | TIC_TAC_TOE.py:135-153 | a taken cell is ignored with board and counter unchanged; otherwise only that cell becomes X, the counter goes up by one, the invariant holds, and the game ends with the winner check's outcome or passes to the AI |
| Game.TicTacToe.AiMove | TIC_TAC_TOE.py:155-168 | the board gains exactly one O, on a cell the engine may choose; the counter goes up by one, the invariant holds, and the game ends with the winner check's outcome or returns to the human |
| Game.TicTacToe.ResetGame | TIC_TAC_TOE.py:189-192 | a fresh all-empty board, a zero counter and the same tier, with the invariant restored |

## Left out

- GUI: widget creation, button updates, status labels, the game-over message box and the main loop are presentation only. The model returns a `Next` value (ignored, game over with an outcome, AI to move, human to move) where the source calls `game_over` or updates the status label.
- The 500 ms `root.after` delay is a scheduling call. Clicks made during that delay are not modelled. Only the clicked button is disabled, so such clicks are accepted. Each of them can schedule one more `ai_move`, and ending the game does not cancel any of them. `HumanMove` returning `AiToMove` stands for the call to `ai_move`.
- `change_difficulty`: the difficulty is a constructor argument. The source's default tier is impossible; the model's constructor has no default. It is one of four tiers, while the source keeps a string; any other string behaves like the impossible tier there.
- Randomness: `random.random()` and `random.choice` are oracle inputs (`draw`, `pick`), not probabilities. `draw` may be any real. The values random.random() actually returns, k/2^53, are treated only in `Engine.RandomDraws`.
- Game.TicTacToe.FindBestMove: requires an empty cell. On a full board the source raises in `random.choice([])` when the random branch is taken; otherwise it returns (-1, -1), and `ai_move` then writes 'O' into `board[-1][-1]`, over cell (2, 2), and raises the counter to 10. The game's own turn order never calls it on a full board. The exception is a pending `ai_move` left over from a click made during the 500 ms delay, which is not modelled.
- Game.TicTacToe.HumanMove: requires 0 <= row, col < 3. The source has no bounds check; its buttons only produce those coordinates.
- Game.TicTacToe.Minimax: requires alpha >= -1000 and beta <= 1000, standing for the float range [-inf, inf]. The window contract is proved only for `alpha < beta`. For the inverted windows that arise after the inner-loop `break`, only the board frame, the leaf scores and the range are stated.
- Game.TicTacToe.Minimax: the range bound is stated within the game's horizon (depth plus empty cells at most 10). Every call the game makes lies within it.
- The optimal-play claim (the impossible tier never loses) is not proved.
- The turn-order fact that the board holds as many X as O, or one more X, is not stated. The counter invariant only counts marked cells.
