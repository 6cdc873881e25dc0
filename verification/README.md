# Connect Four rules and minimax agent — a Dafny model

This project models the game core of a single-file Connect Four program, `CONNETC4.py`. The board is a 6×7 grid of
integer cells. Row 0 is the top row. Cell codes are 0 for empty, 1 for the human and 2 for the AI.

The model covers:

- **Configuration** (`Config`): grid size, cell codes, the search depth the agent is built with (7), the win
  score (1 000 000) and the draw score (0).
- **Rules engine** (`BoardRules`, `WinCheck`):
  - the legal columns;
  - the gravity drop used by the game (`make_move`) and by the search (`_simulate_move`), and the undo;
  - the win scan anchored at the last placed piece.
- **Search agent** (`Evaluation`, `GameTree`, `Extended`, `AlphaBeta`):
  - the leaf heuristic;
  - the recursive alpha-beta minimax;
  - the root loop that picks the AI's column.

The Python code mutates one board copy in place: it simulates a move, recurses, then undoes the move. The model
passes the board through every search call instead. Every call returns the board it received, and the contracts
prove this (`res.1 == b`), which is the undo-fidelity property of the search.

The search depth and the agent's maximum depth are explicit parameters. In the source they live in the agent's
mutable fields `current_depth_tracker` and `max_search_depth`. The tracker is set on entry to `_run_minimax` and
read only by `_calculate_score` before any recursive call, so passing it as a parameter does not change behaviour.

The model has two reference definitions that the program's algorithms are proved against:

- `WinCheck.FourThrough`, a declarative statement of "four in a row through the anchor", for the win scan;
- `GameTree.Minimax`, a plain minimax without pruning that uses the same leaf order and heuristic, for the search.

The pruned search is proved to satisfy the fail-soft alpha-beta contract against plain minimax. The root move is
proved to be the lowest-index legal column whose minimax value is maximal.

## Model

| member | source | states |
|---|---|---|
| BoardRules.EmptyBoard | CONNETC4.py:36-43 | A new board is 6×7 and every cell is empty. |
| BoardRules.Place | CONNETC4.py:218 | The written cell holds the new value and every other cell keeps its value. This is the single-cell write used by `make_move` (line 78), `_simulate_move` (line 218) and `_undo_move` (line 225). |
| BoardRules.LegalFrom | CONNETC4.py:53-56 | From column `c` on, the result is exactly the columns ≥ `c` whose top cell is empty, in ascending order. |
| BoardRules.LegalActions | CONNETC4.py:45-58 | A column is in the result iff it is in 0..6 and its top cell is empty. The list is strictly ascending. The identical `get_legal_actions_for_copy` (lines 143-150) uses this same function. |
| BoardRules.ScanUp | CONNETC4.py:216-219 | The bottom-up scan from row `r` finds the lowest empty cell at or above `r`, or reports that all those cells are occupied. |
| BoardRules.LowestEmptyRow | CONNETC4.py:73-81 | Returns the largest-index empty row of the column, with every row below it occupied. Returns None iff the column has no empty cell. |
| BoardRules.SimulateMove | CONNETC4.py:214-220 | A full column returns `Pos(None, None)` and leaves the board unchanged. Otherwise the piece lands on the lowest empty row, `Pos(Some(row), Some(col))` is returned, and no other cell changes. |
| BoardRules.UndoMove | CONNETC4.py:222-225 | With a row present, that cell becomes empty and nothing else changes. With no row, the board is unchanged. |
| BoardRules.UndoSimulateRestores | CONNETC4.py:214-225 | Undoing a simulated move at the position it returned gives back exactly the original board. |
| BoardRules.MakeMove | CONNETC4.py:60-83 | Returns None iff the column is out of range or its top cell is occupied. On None the board is unchanged. Otherwise the result is `(r, col)`, where `r` is the lowest empty row, the cell holds the player, and every other cell is unchanged. |
| BoardRules.MakeMovePreservesGravity | CONNETC4.py:71-81 | Dropping a non-empty piece keeps every occupied cell on the bottom row or on top of another occupied cell. |
| BoardRules.Replay | CONNETC4.py:60-83 | A sequence of `make_move` requests keeps the board 6×7. |
| BoardRules.ReplayPreservesGravity | CONNETC4.py:60-83 | Any sequence of drops of real pieces preserves the no-floating-pieces invariant. This is proved by induction. |
| BoardRules.ReachableBoardsHaveGravity | CONNETC4.py:36-83 | Every board reached from the empty board by drops of real pieces has no floating pieces. |
| WinCheck.CountRun | CONNETC4.py:110-122 | The counted run covers consecutive on-board cells holding the player, starting at step `i` and capped at step 3. It stops at the first cell that is off the board or does not match. |
| WinCheck.CountRunCovers | CONNETC4.py:110-135 | If steps `i..m` all match, the run counts at least `m - i + 1` of them. |
| WinCheck.WindowFromRuns | CONNETC4.py:107-138 | When the runs in the two directions add up to three or more, there is a window of four consecutive positions containing the anchor whose other three cells hold the player. |
| WinCheck.RunsFromWindow | CONNETC4.py:107-138 | Such a window forces the two runs to add up to at least three. |
| WinCheck.RunsReachThree | CONNETC4.py:107-138 | On one axis, the runs add up to three iff a filled window through the anchor exists. |
| WinCheck.LineCount | CONNETC4.py:107-138 | The per-axis count lies in 1..7, and it reaches four iff the axis has a window of four consecutive positions through the anchor whose other three cells hold the player. |
| WinCheck.WindowsFromSplit | CONNETC4.py:102-139 | A window on one of the axes `k..3` lies on axis `k` or on one of the axes `k+1..3`. This is the step of the direction loop. |
| WinCheck.ScanDirections | CONNETC4.py:102-141 | The direction loop from axis `k` reports a win iff one of the axes `k..3` has a filled window through the anchor. |
| WinCheck.CheckWin | CONNETC4.py:86-141 | `check_win` is false whenever a coordinate is None. Otherwise it is true iff some axis has four consecutive positions through the anchor whose three non-anchor cells hold the player. |
| WinCheck.MatchesAtIgnoresAnchor | CONNETC4.py:110-131 | A scanned position at a non-zero step never reads the anchor cell. |
| WinCheck.CheckWinIgnoresAnchor | CONNETC4.py:107-141 | Overwriting the anchor cell with any value does not change the verdict. |
| Evaluation.CenterColumn | CONNETC4.py:250-254 | The six centre cells (column 3), top row first. |
| Evaluation.CellWeight | CONNETC4.py:256-259 | One centre cell is worth 3 × (1 if it is the AI's) − 3 × (1 if it is the human's), so +3, −3 or 0. |
| Evaluation.CenterScoreUpTo | CONNETC4.py:249-261 | After `n` rows, the heuristic equals 3 × (AI pieces) − 3 × (human pieces) among those centre cells, and lies within ±3n. |
| Evaluation.CenterScore | CONNETC4.py:249-261 | The heuristic equals 3 × (AI pieces) − 3 × (human pieces) in the centre column, and lies within ±18. |
| Evaluation.CalculateScore | CONNETC4.py:227-261 | An AI win scores `SCORE_WIN + (maxDepth − depth)`. Any other player's win scores `−SCORE_WIN − (maxDepth − depth)`. With no win, the score is the centre-column count formula and lies within ±18. |
| Evaluation.WinScore | CONNETC4.py:238-246 | The decided-game score has magnitude `SCORE_WIN + (maxDepth − depth)`. Within the depth limit it is at least `SCORE_WIN` iff the AI won, and at most `−SCORE_WIN` iff anyone else won. |
| Evaluation.WinScoresOrdered | CONNETC4.py:238-246 | A faster win scores strictly higher than a slower one. A slower loss scores strictly higher than a faster one. Both dominate every heuristic value. |
| GameTree.Minimax | CONNETC4.py:265-353 | Plain minimax reference. Values at ply `depth` lie within `±(SCORE_WIN + maxDepth − depth)`. When the player who just moved has four in a row, the value is at least `SCORE_WIN` for an AI win and at most `−SCORE_WIN` for a human win. Termination is by the ply budget. |
| GameTree.MinimaxCases | CONNETC4.py:271-296 | Checks the base cases in the source's order: win, then the depth limit, then the draw. A win is scored as a win even at the depth limit or on a full board. At an inner node the value is attained by some legal column, and it bounds every legal column's value from above (maximizing) or below (minimizing). |
| GameTree.Mover | CONNETC4.py:274-279 | The player who just moved is the human or the AI, and never the player now to move. |
| GameTree.ChildValue | CONNETC4.py:303-307 | The value of the child a column leads to lies within the bound for the next ply. |
| GameTree.MaxOver | CONNETC4.py:299-325 | The best child value over the columns lies within the next ply's bound. |
| GameTree.MinOver | CONNETC4.py:327-353 | The worst child value over the columns lies within the next ply's bound. |
| GameTree.MaxOverIsMaximum | CONNETC4.py:303-311 | `MaxOver` bounds every column's child value from above and equals one of them. |
| GameTree.MinOverIsMinimum | CONNETC4.py:331-339 | `MinOver` bounds every column's child value from below and equals one of them. |
| GameTree.RootValue | CONNETC4.py:185-196 | One root evaluation: the AI drops into the column and the opponent's search starts at ply 0. The value lies within `±(SCORE_WIN + maxDepth)`, and an immediately winning drop scores exactly `SCORE_WIN + maxDepth`. |
| GameTree.BestMoveUnique | CONNETC4.py:201-204 | At most one column can be the lowest-index column with maximal root value. |
| Extended.Raise | CONNETC4.py:310-318 | The update `if y > x: x = y` returns one of its two arguments, and that value is at least both of them, on the extended integers. |
| Extended.Lower | CONNETC4.py:338-346 | The update `if y < x: x = y` returns one of its two arguments, and that value is at most both of them. |
| Extended.LessIsStrictTotalOrder | CONNETC4.py:168-175 | The order on integers extended with ±∞ is irreflexive, transitive and total. |
| AlphaBeta.RunMinimax | CONNETC4.py:265-353 | Fail-soft alpha-beta: the result equals the plain minimax value when it falls strictly inside (alpha, beta), is an upper bound at or below alpha, and is a lower bound at or above beta. The board comes back unchanged. |
| AlphaBeta.MaxLoop | CONNETC4.py:299-325 | The maximizing loop with pruning is fail-soft with respect to the maximum child value over its columns. It never returns less than its running best, and it returns the board it was given. |
| AlphaBeta.MinLoop | CONNETC4.py:327-353 | The minimizing loop with pruning is fail-soft with respect to the minimum child value over its columns. It never returns more than its running best, and it returns the board it was given. |
| AlphaBeta.MaxStopStep | CONNETC4.py:310-323 | When the maximizing loop stops (cutoff `alpha >= beta`, or last column), the running maximum is fail-soft for the node's value. |
| AlphaBeta.MaxContinueStep | CONNETC4.py:310-323 | When the maximizing loop continues with the raised alpha, fail-softness of the rest combines with the head child into fail-softness of the whole. |
| AlphaBeta.MinStopStep | CONNETC4.py:338-351 | When the minimizing loop stops (cutoff or last column), the running minimum is fail-soft for the node's value. |
| AlphaBeta.MinContinueStep | CONNETC4.py:338-351 | When the minimizing loop continues with the lowered beta, fail-softness of the rest combines with the head child into fail-softness of the whole. |
| AlphaBeta.FullWindowIsExact | CONNETC4.py:265-353 | With the window (−∞, +∞), the pruned search returns exactly the plain minimax value. |
| AlphaBeta.RootStep | CONNETC4.py:189-208 | With window (best, +∞): a score above `best` is the column's exact value. A score not above `best` bounds the column's value from above by `best`. |
| AlphaBeta.RootChoiceStep | CONNETC4.py:183-208 | One root iteration preserves the root-choice invariant: the column is kept exactly when its score beats the best so far. |
| AlphaBeta.RootLoop | CONNETC4.py:183-208 | The root loop returns a tried column whose value is maximal. That value is strictly greater than every lower-index column tried. The board comes back unchanged. |
| AlphaBeta.GetAiMove | CONNETC4.py:163-210 | Returns None iff no column is legal. Otherwise it returns the unique lowest-index legal column whose minimax value is maximal. |
| AlphaBeta.AiMove | CONNETC4.py:159-163 | The agent as constructed, with the search limited to 7 plies: None iff no column is legal, otherwise the unique lowest-index legal column whose minimax value is maximal. |

## Left out

- The Tkinter interface, its event handlers, pop-ups and the `__main__` entry point (lines 361 onwards). They are presentation and I/O, with no game logic beyond calling the core.
- Draw detection for the game as played (a full board with no winner) happens in the interface code, so it is not part of this model. Inside the search, the draw leaf is modelled (`GameTree.MinimaxCases`).
- `math.inf` is a float. The model uses the datatype `Extended.ExtInt` (−∞, finite integer, +∞) for the initial alpha, beta and running best values, and uses plain integers for scores. No float arithmetic is modelled.
- `copy.deepcopy` of the board at the root is value semantics: Dafny sequences are immutable, so the root works on the caller's board value and hands it back unchanged.
- In-place mutation is modelled by passing the board through and returning it. Aliasing between the game board and the search copy is not modelled.
- `BoardRules.SimulateMove` requires `0 <= col < COLS`, and `BoardRules.UndoMove` requires an on-board cell when a row is given. With a negative index, Python's list indexing would address a cell from the far end. Every caller passes a legal column and the cell `_simulate_move` returned, so that path is not modelled.
- The agent's `max_search_depth` (7, `Config.MAX_SEARCH_DEPTH`) is a parameter `maxDepth` of the search, fixed to 7 in `AlphaBeta.AiMove`, and `current_depth_tracker` is the explicit `depth` argument. No concrete depth-7 game scenario is evaluated, because that would unfold millions of nodes.
- `make_move` writes whatever player code it is given, and `BoardRules.MakeMove` models that. Only the three gravity lemmas (`BoardRules.MakeMovePreservesGravity`, `BoardRules.ReplayPreservesGravity` and `BoardRules.ReachableBoardsHaveGravity`) require every dropped code to differ from the empty code.
