# Gobang engine and board rules, modelled in Dafny

This project models the move engine of a 19 x 19 Gobang (five-in-a-row) game and the
board rules of its game window, and proves what they promise.

**The engine.** The engine (`AI`) keeps its own integer board. A cell holds 0 when
empty, 1 for the human and -1 for the engine. The engine:

- scores a position (`evaluate`): every stone adds, in each of four directions, the
  weight of its same-colour run, signed by its colour;
- lists the candidate moves (`get_candidates`): the empty cells near a stone;
- searches them with depth-bounded alpha-beta minimax (`minimax`), playing and undoing
  each candidate on its board in place;
- answers the human's move (`move`).

**The game window.** The window (`GoBang`) keeps a board of stones. It tests for five in
a row (`check_winner`), handles one click (`make_a_move`) and starts a new game
(`reset_game`).

**Modules.** The model is split as follows:

- `Board`: the grid, positions, the four directions and "five in a row".
- `Evaluation`: `count_sequence` and `evaluate` as functions of a board value.
- `CandidateMoves`: `get_candidates` as a function of a board value.
- `SearchSpec`: the search as a function of a board value (`Search`), and plain minimax
  without cut-offs (`Minimax`).
- `Engine`: the class `AI`. It holds an `array2<int>` and a ghost mirror `cells` of that
  array's value. Its methods, loops included, are proved against the functions above.
- `Game`: the class `GoBang`. It holds a board of `Stone` values, whose cells the source
  reassigns, together with the turn and the engine.

**Sign convention.** Signs are modelled as the code has them. The maximizing side of the
search plays -1, the engine's stone (ai_aigorithm.py:86), but `evaluate` counts -1 stones
negatively (ai_aigorithm.py:60): the score favours the human (stones 1).

**Diagonals.** The comment at go_bang_gui.py:58 says that `check_winner` only checks rows
and columns; lines 66-71 also check both diagonals, and the model follows the code.

## Model

| member | source | states |
|---|---|---|
| Board.IsWithin | ai_aigorithm.py:19-20 | Definition of `is_within`: both coordinates lie in [0, 19). |
| Board.Directions | ai_aigorithm.py:16 | The four directions `(1, 0)`, `(0, 1)`, `(1, 1)`, `(1, -1)`, in the source's order. |
| Evaluation.ScoreOf | ai_aigorithm.py:8-14 | `SCORES.get(count, 0)`: between 0 and 100000, and positive exactly for the counts 1 to 5. |
| Evaluation.SignedScore | ai_aigorithm.py:60 | Definition: the weight of `count` times `player`. |
| Evaluation.RunFrom | ai_aigorithm.py:52-58 | Definition of the inner loop from step `i`: the steps counted before the first one off the board or not `player`; between 0 and `5 - i`. |
| Evaluation.RunLength | ai_aigorithm.py:51-58 | The `count` of one direction, between 0 and 5. |
| Evaluation.DirectionScore | ai_aigorithm.py:59-60 | Definition: what one direction adds, the signed weight of its count when the count is positive. |
| Evaluation.DirectionsScore | ai_aigorithm.py:50-60 | Definition: the sum over the first `n` directions. |
| Evaluation.CellScore | ai_aigorithm.py:47-60 | Definition: what the cell adds, 0 when it is empty. |
| Evaluation.RowScore | ai_aigorithm.py:46-60 | Definition: the sum over the first `y` cells of row `x`. |
| Evaluation.RowsScore | ai_aigorithm.py:45-60 | Definition: the sum over the rows `0..x-1`. |
| Evaluation.Score | ai_aigorithm.py:43-61 | Definition of `evaluate` as a function of the board: the sum over all rows. Every engine contract about the score is stated against it. |
| Evaluation.DirectionsScoreBounded | ai_aigorithm.py:50-60 | A stone of either colour adds between `-n` and `n` weights of five over its first `n` directions. |
| Evaluation.CellScoreBounded | ai_aigorithm.py:47-60 | On a board of 0, 1 and -1, a cell adds between -400000 and 400000. |
| Evaluation.RowScoreBounded | ai_aigorithm.py:46-60 | On such a board, the first `y` cells of a row add at most `y` times that in magnitude. |
| Evaluation.RowsScoreBounded | ai_aigorithm.py:45-60 | On such a board, the first `x` rows add at most `x` times 19 times that in magnitude. |
| Evaluation.ScoreBounded | ai_aigorithm.py:43-61 | On a board of 0, 1 and -1, `evaluate` lies within 361 x 400000 in magnitude, inside a 64-bit integer. |
| Evaluation.CountFrom | ai_aigorithm.py:24-28 | The probe's loop, from step `i` on, yields 0 or 1. It yields 1 exactly when every remaining step is on the board and holds `player`. |
| Evaluation.CountSequence | ai_aigorithm.py:23-29 | `count_sequence` is 0 or 1. It is 1 exactly when all five cells `(x+i*dx, y+i*dy)`, i = 0..4, are on the board and hold `player`. |
| Evaluation.RunFromIsRun | ai_aigorithm.py:52-58 | The inner run loop from step `i` counts a run of `player` cells. The first uncounted step, if any before 5, is off the board or not `player`. |
| Evaluation.RunLengthIsRun | ai_aigorithm.py:50-58 | The `count` of a direction is the length of the same-colour run from the cell, capped at 5. The cells of the run hold `player` and the next one does not. The count is at least 1 from a stone of that colour. |
| Evaluation.RowScoreNoStones | ai_aigorithm.py:45-48 | On a board without stones every cell of a row contributes 0. |
| Evaluation.RowsScoreNoStones | ai_aigorithm.py:45-48 | On a board without stones every row contributes 0. |
| Evaluation.ScoreNoStones | ai_aigorithm.py:43-61 | `evaluate` of the all-zero board is 0. |
| Evaluation.RunFromNegated | ai_aigorithm.py:52-58 | On the colour-swapped board the run of `-player` has the same length as the run of `player` on the original. |
| Evaluation.DirectionsScoreNegated | ai_aigorithm.py:50-60 | Swapping colours negates what a stone adds over its directions. |
| Evaluation.CellScoreNegated | ai_aigorithm.py:47-60 | Swapping colours negates each cell's contribution. |
| Evaluation.RowScoreNegated | ai_aigorithm.py:46-60 | Swapping colours negates each row's contribution. |
| Evaluation.RowsScoreNegated | ai_aigorithm.py:45-60 | Swapping colours negates the sum over the first `x` rows. |
| Evaluation.ScoreAntisymmetric | ai_aigorithm.py:43-61 | `evaluate` is antisymmetric: negating every cell negates the score. |
| CandidateMoves.IsCandidate | ai_aigorithm.py:67-72 | Definition: an empty cell on the board within Chebyshev distance 2 of some stone. |
| CandidateMoves.CandidatesInRow | ai_aigorithm.py:65-72 | Definition: the candidates among the first `y` cells of row `x`, in order. |
| CandidateMoves.CandidatesInRows | ai_aigorithm.py:65-72 | Definition: the candidates in the rows `0..x-1`, in row-major order. |
| CandidateMoves.Candidates | ai_aigorithm.py:63-73 | Every cell `get_candidates` lists is on the board. |
| CandidateMoves.CandidatesInRowSound | ai_aigorithm.py:65-72 | The candidates listed for the first `y` cells of row `x` lie in that part of the row and are candidates. |
| CandidateMoves.CandidatesInRowComplete | ai_aigorithm.py:65-72 | Every candidate among the first `y` cells of row `x` is listed. |
| CandidateMoves.CandidatesInRowOrdered | ai_aigorithm.py:65-72 | The listing of a row is strictly increasing. |
| CandidateMoves.CandidatesInRowsSound | ai_aigorithm.py:65-72 | The candidates listed for rows `0..x-1` lie in those rows and are candidates. |
| CandidateMoves.CandidatesInRowsComplete | ai_aigorithm.py:65-72 | Every candidate in rows `0..x-1` is listed. |
| CandidateMoves.CandidatesInRowsOrdered | ai_aigorithm.py:65-72 | The listing of rows `0..x-1` is strictly increasing. |
| CandidateMoves.CandidatesAreNearEmptyCells | ai_aigorithm.py:63-73 | A cell is listed if and only if it is an empty cell on the board within Chebyshev distance 2 of some stone. The list is strictly increasing in row-major order, so no cell is listed twice. |
| CandidateMoves.NoCandidatesInRowWithoutStones | ai_aigorithm.py:65-72 | A board without stones has no candidates in any row. |
| CandidateMoves.NoCandidatesInRowsWithoutStones | ai_aigorithm.py:65-72 | A board without stones has no candidates in rows `0..x-1`. |
| CandidateMoves.NoCandidatesWithoutStones | ai_aigorithm.py:63-73 | `get_candidates` of a board without stones is empty. |
| SearchSpec.Ext | ai_aigorithm.py:38 | The values of the search: the integers with `-float('inf')` and `float('inf')` below and above them. |
| SearchSpec.Max | ai_aigorithm.py:92 | Definition of Python's `max(alpha, eval)`: the second argument only when strictly greater. |
| SearchSpec.Min | ai_aigorithm.py:105 | Definition of Python's `min(beta, eval)`: the second argument only when strictly smaller. |
| SearchSpec.IsTerminal | ai_aigorithm.py:77 | Definition: depth 0, or the score's magnitude at least 100000. |
| SearchSpec.Improve | ai_aigorithm.py:89-91 | Definition of the update of `(max_eval, best_move)` (and of `(min_eval, best_move)` at lines 102-104): the new pair only when the value is strictly better. |
| SearchSpec.Search | ai_aigorithm.py:75-108 | Definition of `minimax` on a board value: `(evaluate(), None)` at a terminal node, else the maximizing or minimizing loop over the candidates from `(-inf, None)` or `(+inf, None)`. Every engine contract about the search is stated against it. |
| SearchSpec.MaxLoop | ai_aigorithm.py:85-94 | Definition of the maximizing loop over the candidates still to examine: play -1, search the child, keep a strictly larger value, raise `alpha`, stop once `beta <= alpha`. |
| SearchSpec.MinLoop | ai_aigorithm.py:98-107 | Definition of the minimizing loop: play 1, keep a strictly smaller value, lower `beta`, stop once `beta <= alpha`. |
| SearchSpec.Minimax | ai_aigorithm.py:75-108 | Definition of the same recursion without the cut-offs: the score at a terminal node, else the maximum or minimum over all candidates. |
| SearchSpec.MaxOf | ai_aigorithm.py:85-92 | Definition: the maximum of the children's values without cut-offs, `-inf` for no candidate. |
| SearchSpec.MinOf | ai_aigorithm.py:98-105 | Definition: the minimum of the children's values without cut-offs, `+inf` for no candidate. |
| SearchSpec.MaxLoopStep | ai_aigorithm.py:85-94 | One iteration of the maximizing loop: the child's value improves the best only when strictly greater. `alpha` rises to the larger value, and the loop stops once `beta <= alpha`. |
| SearchSpec.MinLoopStep | ai_aigorithm.py:98-107 | One iteration of the minimizing loop: the child's value improves the best only when strictly smaller. `beta` falls to the smaller value, and the loop stops once `beta <= alpha`. |
| SearchSpec.SearchFailSoft | ai_aigorithm.py:75-108 | For every window `alpha < beta`, the value `v` the search returns relates to the plain minimax value `m` in three ways. If `v <= alpha` then `m <= v`. If `v >= beta` then `m >= v`. If `v` lies strictly inside the window then `v == m`. |
| SearchSpec.MaxLoopFailSoft | ai_aigorithm.py:83-95 | The same fail-soft relation for the maximizing loop over the remaining candidates against the maximum of their minimax values. |
| SearchSpec.MinLoopFailSoft | ai_aigorithm.py:96-108 | The same fail-soft relation for the minimizing loop against the minimum of their minimax values. |
| SearchSpec.MaxStepFailSoft | ai_aigorithm.py:89-94 | One maximizing step keeps the fail-soft relation between the best so far and the maximum seen so far. |
| SearchSpec.MinStepFailSoft | ai_aigorithm.py:102-107 | One minimizing step keeps the fail-soft relation between the best so far and the minimum seen so far. |
| SearchSpec.AlphaBetaIsMinimax | ai_aigorithm.py:75-108 | With the root window (-inf, +inf), the value of the search equals plain minimax over all candidates: the cut-offs only skip candidates. |
| SearchSpec.MaxTrace | ai_aigorithm.py:85-94 | The values the maximizing loop examines number at most one per candidate, and at least one when there is a candidate. |
| SearchSpec.MinTrace | ai_aigorithm.py:98-107 | The values the minimizing loop examines number at most one per candidate, and at least one when there is a candidate. |
| SearchSpec.PickedCut | ai_aigorithm.py:89-94 | A loop that stops after one more value still picks the first best among the values examined. |
| SearchSpec.PickedStep | ai_aigorithm.py:89-94 | Examining one more value and continuing keeps the first-best pick. |
| SearchSpec.MaxLoopPicksFirstBest | ai_aigorithm.py:83-95 | From any best so far, the maximizing loop's result is the first of the examined candidates that reaches the maximum, or the best so far when none beats it. |
| SearchSpec.MinLoopPicksFirstBest | ai_aigorithm.py:96-108 | From any best so far, the minimizing loop's result is the first of the examined candidates that reaches the minimum, or the best so far when none beats it. |
| SearchSpec.PickedFromStart | ai_aigorithm.py:80-84 | A loop started from (-inf or +inf, `None`) that picks the first best also satisfies the statement below. Its move is `None` exactly when the value stayed at the start value. |
| SearchSpec.MaxLoopFromStartPicksFirstBest | ai_aigorithm.py:83-95 | The maximizing loop from `-inf` examines a non-empty prefix of a non-empty candidate list. No examined value exceeds the returned value. `best_move` is the first examined candidate whose value equals it, and it is `None` exactly when the value is `-inf`. |
| SearchSpec.MinLoopFromStartPicksFirstBest | ai_aigorithm.py:96-108 | The minimizing loop from `+inf`: the symmetric statement. |
| SearchSpec.MaxSearchPicksFirstBest | ai_aigorithm.py:76-95 | At a non-terminal maximizing node, `best_move` is the first candidate reaching the maximum of the examined values. |
| SearchSpec.MinSearchPicksFirstBest | ai_aigorithm.py:76-108 | At a non-terminal minimizing node, `best_move` is the first candidate reaching the minimum of the examined values. |
| SearchSpec.SearchMoveIsCandidate | ai_aigorithm.py:76-108 | A move the search returns is a candidate: an empty cell on the board near a stone. |
| Engine.AI.constructor | ai_aigorithm.py:33-34 | A new engine has a fresh 19 x 19 board with every cell 0. |
| Engine.AI.RunCount | ai_aigorithm.py:51-58 | The inner loop computes the run length `RunLength` of the board. |
| Engine.AI.CellScoreAt | ai_aigorithm.py:47-60 | The body for one cell adds exactly `CellScore`: 0 for an empty cell, else the signed weights over the four directions. |
| Engine.AI.Evaluate | ai_aigorithm.py:43-61 | `evaluate` returns `Score` of the board. |
| Engine.AI.AddNeighbours | ai_aigorithm.py:68-72 | The set only grows. Whatever is added is a candidate. Afterwards every empty cell on the board near the stone is in the set. |
| Engine.AI.CollectCandidates | ai_aigorithm.py:64-72 | The set built is exactly the set of candidates. |
| Engine.AI.GetCandidates | ai_aigorithm.py:63-73 | The list returned is `Candidates` of the board: exactly the candidates, each once, in row-major order. |
| Engine.AI.SetCell | ai_aigorithm.py:86-88 | Writing one cell changes exactly that cell of the board's value, in the same array. |
| Engine.AI.TryMove | ai_aigorithm.py:86-88 | Playing `v` at an empty candidate, searching and resetting the cell returns the search's value of the position with `v` played. The board ends as it started. |
| Engine.AI.MaxChildren | ai_aigorithm.py:83-95 | The maximizing loop returns `MaxLoop` from `(-inf, None)`. The board is unchanged, also when the loop breaks early. |
| Engine.AI.MinChildren | ai_aigorithm.py:96-108 | The minimizing loop returns `MinLoop` from `(+inf, None)`. The board is unchanged, also when the loop breaks early. |
| Engine.AI.Minimax | ai_aigorithm.py:75-108 | `minimax` returns `Search` of the board. At depth 0, or when the score's magnitude reaches 100000, that is `(evaluate(), None)`. The board is identical on return. |
| Engine.AI.Move | ai_aigorithm.py:36-41 | After `move(row, col)` the board has 1 at `(row, col)`. The reply is the root search's move. When there is one, it was an empty cell near a stone and not `(row, col)`, it now holds -1, and no other cell changed. Without one, only `(row, col)` changed. |
| Game.EngineCell | go_bang_gui.py:94-99 | A window stone maps to the engine's integer: free to 0, black (the human) to 1, white (the engine) to -1, and back. |
| Game.RowFiveIsFive | go_bang_gui.py:61 | The row window at `(i, j)` holds five `player` exactly when five in a row starts there along the row. |
| Game.ColumnFiveIsFive | go_bang_gui.py:63 | The column window at `(j, i)` is five in a row down the column. |
| Game.DiagonalFiveIsFive | go_bang_gui.py:68 | The diagonal window at `(i, j)` is five in a row along `(1, 1)`. |
| Game.AntiDiagonalFiveIsFive | go_bang_gui.py:70 | The anti-diagonal window at `(i, j)` is five in a row from `(i, j + 4)` along `(1, -1)`. |
| Game.FiveIn | go_bang_gui.py:62-71 | A window found with five `player` is a five on the board. |
| Game.WindowsCoverBoard | go_bang_gui.py:59-72 | If none of the windows the loops visit holds five `player`, the board has no five of `player` in any direction. |
| Game.NoStonesNoFive | go_bang_gui.py:56-77 | A board without any `player` stone has no five of `player`, for example right after `reset_game`. |
| Game.SyncedFive | go_bang_gui.py:56-72 | A window board and an engine board showing the same position agree on who has five in a row. |
| Game.ReplyKeepsSync | go_bang_gui.py:94-99 | Recording the human's stone and the engine's reply on both boards keeps them showing the same position. |
| Game.GoBang.constructor | go_bang_gui.py:19-26 | A new game has every cell free, black to move, and a fresh empty engine in step with the board. |
| Game.GoBang.ResetGame | go_bang_gui.py:74-77 | `reset_game` makes every cell free, black to move, and a fresh engine. |
| Game.GoBang.CheckWinner | go_bang_gui.py:56-72 | `check_winner(player)` is true if and only if five consecutive cells hold `player` in some row, column, diagonal or anti-diagonal. Every index it reads (`j+k`, `i+k`, `j+4-k`) is on the board. |
| Game.GoBang.MakeMove | go_bang_gui.py:89-100 | A click off the board or on a stone changes nothing. Otherwise exactly that cell becomes black and white is to move. If black now has five, the engine is not asked. Otherwise the engine's reply becomes white and black is to move again. With the boards in step, the reply lands on a previously free cell other than the click, and the boards stay in step. |

## Left out

- Drawing, dialogs, `quit` and the event loop (go_bang_gui.py:12-18, 21-24, 28-54, 79-83, 102-122). These are UI and I/O. This includes the `running` flag and the loop that resets the game after a win.
- The conversion from mouse pixels to a cell (go_bang_gui.py:86-88). It depends on `CELL_SIZE`, `ml` and `mt` of `constants.py`, which is not part of this model. `row` and `col` are parameters instead.
- The stone constants also live in `constants.py`. They are modelled as the three distinct values of `Stone`. `BOARD_SIZE` is taken as 19, the size the engine hard-codes for its array.
- numpy: the engine's board is an `array2<int>`. Integers are unbounded. `Evaluation.ScoreBounded` shows that no score on a board of 0, 1 and -1 comes near a 64-bit limit.
- `float('inf')` is modelled by the datatype `Ext` (`NegInf`, `Fin`, `PosInf`), with the same order and `max`/`min`.
- Engine.AI.GetCandidates: Python lists a `set` in an order the source does not fix, and the model lists it in row-major order. Which move wins a tie, and which candidates a cut-off skips, depend on that order. Every property proved about the search holds for the row-major order.
- Engine.AI.Move: at ai_aigorithm.py:39 the source raises an exception when the search returns no move, which happens when the root position is terminal or no candidate beats the start value. The model returns `None` instead. `Game.GoBang.MakeMove` returns `EngineFailed`, with the black stone placed and white to move, instead of propagating the exception.
- Engine.AI.Minimax: its contract ties the result to `Search`. The terminal case `(evaluate(), None)` is the first branch of that function, not a separate clause.
- The concrete cost of the search at depth 3 is not modelled. The search properties are stated for every depth.
