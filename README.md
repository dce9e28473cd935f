# Chess minimax engine: a Dafny model

This project models the computer opponent of a terminal chess game
(`CHESS_MINMAX.py`). It covers three parts:

- **the static evaluator** (`evaluate_board`): checkmate scores ±1000 against the side to move; stalemate scores 0; otherwise the material balance over the 64 squares (pawn 1, knight 3, bishop 3, rook 5, queen 9, king 0; White adds, Black subtracts);
- **the search** (`minimax`): depth-limited minimax with fail-soft alpha-beta pruning. It runs on one shared board, pushing a move, searching the child and popping the move again;
- **the random opponent** (`get_random_move`).

The square-to-grid arithmetic of the board display is modelled too.

The chess rules come from an external library. The model takes them as a
parameter: a `Rules` value of total functions over the move history. The
functions give the legal moves, game over, checkmate, stalemate, the side
to move and the piece on a square. The board (`Chess.Board`) is a class whose
only state is that history. `Push` appends a move and `Pop` removes the last
one. The float infinities of the source are the integers `NegInf = -1001`
and `PosInf = 1001`. Both lie strictly outside every evaluation, which stays
within ±1000.

The search is proved against `Search.Minimax`, a plain minimax without
pruning. It scans the moves in the same order and uses the same strict
tie-break. The results proved:

- the board's history is the same after the search as before it, at every level;
- the score is fail-soft: it equals the unpruned value strictly inside the window `(alpha, beta)`, bounds it from above at or below `alpha`, and bounds it from below at or above `beta`;
- with the full window, the score and the move are exactly the unpruned minimax result;
- for every window, the chosen move is the first searched move, in enumeration order, whose score is the running best; with a consistent rules engine a search of depth > 0 at a position that is not over always returns a move;
- the pruning itself: each search returns exactly the result of `PrunedSearch.AlphaBeta`, a pure function that passes each child the window narrowed by the scores before it (the raised alpha passed on line 76, the lowered beta on line 91) and stops at the first cutoff. Each search also returns, as a ghost value, the scores of the children it searched, in order. That list stops exactly at the first child after which `beta <= alpha`, or covers every move when no such child exists. The returned score is the running best of that list. Each listed child score is fail-soft for the narrowed window it was searched with.

Modules: `Chess` (the rules interface and the board), `Evaluation`,
`Search` (the reference and its lemmas), `Pruning` (the state of the
alpha-beta loop, one iteration of it, and the cutoff discipline),
`PrunedSearch` (alpha-beta as a pure function, proved sound), `Game`
(the `ChessGame` class) and `Display`.

## Model

| member | source | states |
|---|---|---|
| `Chess.Board.constructor` | CHESS_MINMAX.py:17-18 | a new board is at the starting position: the move history is empty |
| `Chess.Board.Push` | CHESS_MINMAX.py:75 | playing a move puts it on top of the move stack |
| `Chess.Board.Pop` | CHESS_MINMAX.py:77 | taking back removes exactly the most recent move and returns it |
| `Game.ChessGame.constructor` | CHESS_MINMAX.py:17-18 | the game owns a fresh board at the starting position |
| `Game.ChessGame.GetRandomMove` | CHESS_MINMAX.py:56-59 | None exactly when there are no legal moves; otherwise some legal move |
| `Game.ChessGame.EvaluateBoard` | CHESS_MINMAX.py:103-126 | the loop over the squares computes `Evaluation.Evaluate` of the current position |
| `Game.ChessGame.Minimax` | CHESS_MINMAX.py:61-101 | the board history is unchanged, and (score, move, searched scores) is exactly `PrunedSearch.AlphaBeta` for the same window and side. At depth 0 or game over the result is (evaluation, None) and no child is searched. Otherwise the searched children's scores stop at the first cutoff, the score is their running best, and the move is the first searched move whose score is that running best (None only if no child beat the sentinel). A returned move is legal, and with a consistent rules engine a move is always returned. When alpha < beta every child score is fail-soft for its narrowed window, and the score is fail-soft against the unpruned value. With the window (-inf, +inf) the (score, move) pair equals unpruned minimax. The score lies in [-inf, +inf], and in [-1000, 1000] for a consistent rules engine |
| `Game.ChessGame.MaximizingNode` | CHESS_MINMAX.py:72-86 | restores the board and returns exactly `PrunedSearch.AlphaBeta` for the maximizing side: every child is searched with alpha raised by the scores before it, the running maximum changes on strict improvement only, and the loop stops at the first child after which beta <= alpha. It also ends in `NodeDone`: the child scores stop at the first cutoff, the score is their running maximum, and the move is the first child reaching it. For alpha < beta each child score is fail-soft for its narrowed window, and the node's score is fail-soft for the unpruned best child. Under the full window the result equals the unpruned best child |
| `Game.ChessGame.MinimizingNode` | CHESS_MINMAX.py:87-101 | the mirror image: exactly `PrunedSearch.AlphaBeta` for the minimizing side, each child searched with beta lowered by the scores before it, stopping at the first child after which beta <= alpha, and `NodeDone` |
| `Game.ChessGame.SearchChild` | CHESS_MINMAX.py:75-77 | push, search one ply shallower for the other side with the window it is given, pop. The board is restored, the score is that of `PrunedSearch.AlphaBeta` on the child with that window, and it is fail-soft for that child's unpruned value |
| `Pruning.Raised` | CHESS_MINMAX.py:83 | alpha after the children so far: max folded over their scores, never below the starting alpha |
| `Pruning.Lowered` | CHESS_MINMAX.py:98 | beta after the children so far: min folded over their scores, never above the starting beta |
| `Pruning.RaisedMonotone` | CHESS_MINMAX.py:83 | alpha never decreases during the loop: the value after a prefix of the scores is at most the value after all of them |
| `Pruning.LoweredMonotone` | CHESS_MINMAX.py:98 | beta never increases during the loop |
| `Pruning.RaisedAboveScores` | CHESS_MINMAX.py:83 | the raised alpha is at least every child score seen |
| `Pruning.LoweredBelowScores` | CHESS_MINMAX.py:98 | the lowered beta is at most every child score seen |
| `Pruning.RunningBestIsBest` | CHESS_MINMAX.py:79-81 | the running best (strict improvement from ∓inf) is not beaten by any score seen, and is one of them unless it is still the sentinel |
| `Pruning.RunningBest` | CHESS_MINMAX.py:79-81 | the strict-improvement best of the scores taken in turn: the sentinel ∓inf before any child, and never beaten by the latest score |
| `Pruning.RunningBestIndex` | CHESS_MINMAX.py:94-96 | the position of the child that set the running best (the last strict improvement), -1 while none has; always below the number of scores |
| `Pruning.RunningBestIndexIsFirst` | CHESS_MINMAX.py:79-81 | the running-best index is the first child whose score equals the running best, and that score beats the sentinel; it is -1 exactly when no score beats the sentinel, which leaves best_move None (`ChosenMove` turns the index into the move, lines 81 and 96) |
| `Pruning.RaisedByBest` | CHESS_MINMAX.py:83 | once alpha has been raised above its start, it is at most the running maximum of the scores |
| `Pruning.LoweredByBest` | CHESS_MINMAX.py:98 | once beta has been lowered below its start, it is at least the running minimum of the scores |
| `Pruning.CutOff` | CHESS_MINMAX.py:84 | the test beta <= alpha after the update. With alpha < beta it holds only after some child, and then the running best already fails high (at least beta), or, for a minimizing node (line 99), fails low (at most alpha) |
| `Pruning.StopsAtFirstCutoff` | CHESS_MINMAX.py:74-86 | the loop over the moves searched at least one child when there is a move, had no cutoff before its last child, and stopped early only right after a cutoff (lines 89-101 for the minimizing loop). A loop that stopped early with alpha < beta has failed high or low |
| `Pruning.NodeDone` | CHESS_MINMAX.py:72-101 | the end state of a node: children stop at the first cutoff, score and move are the running best and the first child reaching it, fail-soft and full-window guarantees and bounds. With a consistent rules engine and at least one move, the move is present |
| `Search.ChildScore` | CHESS_MINMAX.py:76 | a child's unpruned score (the same at line 91 for a minimizing node): minimax one ply shallower for the other side, within [-inf, +inf] |
| `PrunedSearch.AlphaBeta` | CHESS_MINMAX.py:61-101 | the pure alpha-beta search: at depth 0 or game over (lines 66-67) no child is searched and no move is returned; otherwise the loop starts from the sentinel ∓inf with no move (lines 70, 73, 88). Any move it returns is a legal move |
| `PrunedSearch.AlphaBetaLoop` | CHESS_MINMAX.py:89-101 | the loop of a node (lines 74-86, and 89-101 for the minimizing side) as a function: each child is searched with the current window, the running best and its move change only on strict improvement, alpha is raised (or beta lowered) by the child's score, and the loop stops right after a child for which beta <= alpha; its properties are stated by `AlphaBetaLoopShape` and `AlphaBetaSound` |
| `PrunedSearch.AlphaBetaLoopShape` | CHESS_MINMAX.py:74-86 | about `AlphaBetaLoop`, the loop of lines 74-86 and 89-101 (each child searched with the current window, strict improvement, bound updated, then the test beta <= alpha): while moves remain it searches at least one more child, never more than remain, and the move it returns is the one held or one of the moves scanned |
| `Evaluation.Occupancy` | CHESS_MINMAX.py:121-122 | the 64 squares in index order, each holding the piece the rules engine reports on it |
| `PrunedSearch.AlphaBetaSound` | CHESS_MINMAX.py:61-101 | `AlphaBeta`, the pure alpha-beta search that passes each child the narrowed window and stops at the first cutoff, scores within the sentinels (±1000 for a consistent engine), is fail-soft against unpruned minimax for alpha < beta, equals it under the full window, ends every inner node in `NodeDone`, and returns a move at every inner node of a consistent engine |
| `PrunedSearch.ChildSound` | CHESS_MINMAX.py:75-77 | a child searched by `AlphaBeta` with any window scores within the bounds and is fail-soft for that window against its unpruned score |
| `PrunedSearch.MaxLoopSound` | CHESS_MINMAX.py:74-86 | the maximizing loop of `AlphaBeta`, run from any state satisfying the loop invariant `MaxLoop`, ends in `NodeDone` |
| `PrunedSearch.MinLoopSound` | CHESS_MINMAX.py:89-101 | the mirror image for the minimizing loop |
| `Pruning.NoCutOffYetMeans` | CHESS_MINMAX.py:84-85 | the recursive "no cutoff yet" holds exactly when no prefix of one or more scores triggers beta <= alpha (both directions) |
| `Pruning.ChildrenFailSoftMeans` | CHESS_MINMAX.py:76 | the recursive "children fail-soft" holds exactly when child k's score is fail-soft under the window narrowed by the k scores before it, for every k (both directions) |
| `Pruning.AppendScore` | CHESS_MINMAX.py:79-83 | one more child score extends alpha, beta and the running best by one step and leaves earlier prefixes unchanged |
| `Pruning.ScoresStep` | CHESS_MINMAX.py:84-85 | after one more child: if it triggers the cutoff the loop has stopped at its first cutoff, otherwise there is still no cutoff |
| `Pruning.ScoresDone` | CHESS_MINMAX.py:74 | a loop that ran through every move without a cutoff stopped at its first cutoff in the vacuous sense |
| `Pruning.ChildrenFailSoftStep` | CHESS_MINMAX.py:76 | a child answering fail-soft for its window keeps every child fail-soft |
| `Pruning.MaxLoopStep` | CHESS_MINMAX.py:74-86 | one iteration of the maximizing loop without a cutoff keeps the whole loop state `MaxLoop` for the next move |
| `Pruning.MaxLoopCut` | CHESS_MINMAX.py:83-86 | one iteration of the maximizing loop that hits beta <= alpha leaves the node done (`NodeDone`) |
| `Pruning.MaxLoopDone` | CHESS_MINMAX.py:74-86 | a maximizing loop that ran through every move leaves the node done |
| `Pruning.MinLoopStep` | CHESS_MINMAX.py:89-101 | the mirror image of MaxLoopStep |
| `Pruning.MinLoopCut` | CHESS_MINMAX.py:98-101 | the mirror image of MaxLoopCut |
| `Pruning.MinLoopDone` | CHESS_MINMAX.py:89-101 | the mirror image of MaxLoopDone |
| `Pruning.Max` | CHESS_MINMAX.py:83 | the larger of two scores |
| `Pruning.Min` | CHESS_MINMAX.py:98 | the smaller of two scores |
| `Pruning.MaxStep` | CHESS_MINMAX.py:74-85 | one child of a maximizing node: alpha stays max(alpha0, best so far), so it never decreases. Without a cutoff, the best score so far bounds (and above alpha0 equals) the unpruned best of the children seen. At the cutoff (beta <= alpha after the update) the score is already a fail-soft answer for the whole node. Under the full window the state equals the unpruned scan |
| `Pruning.MinStep` | CHESS_MINMAX.py:89-100 | the mirror image: beta stays min(beta0, best so far) and never increases, with the same cutoff guarantees |
| `Search.Minimax` | CHESS_MINMAX.py:61-101 | unpruned reference minimax: its score lies in [-inf, +inf] and its move is a legal move |
| `Search.BestChild` | CHESS_MINMAX.py:72-101 | scan of the moves from the sentinel `Initial` (-inf at line 73, +inf at line 88) with strict improvement `Better` (`>` at line 79, `<` at line 94): score in [-inf, +inf], move one of the scanned moves |
| `Search.BestChildDominates` | CHESS_MINMAX.py:79-81 | no child scores strictly better than the best child (the score is the max, resp. min) |
| `Search.BestChildAttained` | CHESS_MINMAX.py:79-81 | the best score is the chosen move's child score and strictly beats the initial ±inf; with no move chosen it is still ±inf |
| `Search.BestChildIsFirstOptimal` | CHESS_MINMAX.py:79-81 | the chosen move is the first move in enumeration order whose score equals the best: later equal scores do not replace it |
| `Search.BestChildSaturated` | CHESS_MINMAX.py:83-85 | once the best reaches the opposite sentinel no later move changes the result, so cutting off there loses nothing |
| `Search.MinimaxBounded` | CHESS_MINMAX.py:61-101 | for a consistent rules engine every minimax score lies in [-1000, 1000], strictly inside the sentinels. A non-terminal search of depth > 0 always yields a move |
| `Search.BestChildBounded` | CHESS_MINMAX.py:72-101 | the same for a non-empty scan of moves |
| `Search.MateInOneFound` | CHESS_MINMAX.py:108-109 | a one-ply search for White, where some legal move mates Black, scores +1000 and picks a mating move |
| `Evaluation.PieceValue` | CHESS_MINMAX.py:115-118 | piece values are at most 9, and 0 exactly for the king |
| `Evaluation.SignedValue` | CHESS_MINMAX.py:122-125 | one square contributes between -9 and 9 |
| `Evaluation.Material` | CHESS_MINMAX.py:120-126 | the material sum over n squares lies within ±9n |
| `Evaluation.MaterialIsDifference` | CHESS_MINMAX.py:121-125 | the material sum is White's total piece value minus Black's |
| `Evaluation.MaterialColorSwap` | CHESS_MINMAX.py:121-125 | swapping the colours of all pieces negates the material sum |
| `Evaluation.Evaluate` | CHESS_MINMAX.py:103-126 | the score lies in [-1000, 1000]. Its magnitude is 1000 exactly on checkmate, negative iff White is mated. Stalemate without mate scores 0. Any other position is within ±576, so mate dominates material |
| `Display.GridCell` | CHESS_MINMAX.py:32-37 | square i is drawn at row 7 - i / 8, column i % 8, inside the 8x8 grid, and `SquareAt` maps that cell back to i |
| `Display.SquareAt` | CHESS_MINMAX.py:35-36 | the square shown in a cell has rank index 7 - row and file index col |
| `Display.GridCellOfSquareAt` | CHESS_MINMAX.py:35-36 | GridCell undoes SquareAt, so every cell shows exactly one square |
| `Display.GridCellInjective` | CHESS_MINMAX.py:32-37 | distinct squares are drawn in distinct cells |

## Left out

- The chess rules themselves: legal-move generation, check, checkmate, stalemate and game-over detection, and the internals of push and pop. They belong to the external chess library and are parameters here (`Chess.Rules`). The library is not part of this model.
- `Chess.Consistent`: a position that is not over has a legal move. This is assumed of the rules engine, not proved. It is needed only for the ±1000 bounds and for "a move is always returned".
- Move notation (`parse_san`, `san`), `ask_human_move`, `play_game` and `main`: console input, mode selection and messages. The call `minimax(depth=3)` in `play_game` is therefore not modelled, and `Game.ChessGame.Minimax` takes every argument explicitly.
- The rendering in `print_board` (symbols, colours, labels). Only its index arithmetic is modelled, in `Display`.
- `Game.ChessGame.GetRandomMove`: the random draw is a nondeterministic choice. Nothing is claimed about its distribution.
- `Game.ChessGame.Minimax`: its fail-soft guarantee is stated only for alpha < beta. With alpha >= beta the code still runs one child and stops. The result is still exactly `PrunedSearch.AlphaBeta`, but its score then bounds nothing. Every call made by the code itself has alpha < beta.
- `Game.ChessGame.Minimax`: the two branches of the source function are written as two methods, `MaximizingNode` and `MinimizingNode`. The dispatcher keeps the depth/game-over test and the branch choice. The push, recursive call and pop of one child are written as the method `SearchChild`. Otherwise each loop is the source's loop, statement for statement.
- An empty legal-move list at a position that is not over: the code does not detect it. It returns the sentinel (-inf for a maximizing node, +inf for a minimizing one) with no move, and the model does the same. It does not treat that case as a fatal error.
- `Game.ChessGame.Minimax`: the depth is a natural number. The code tests only `depth == 0`, so a negative depth would recurse until the game is over or the interpreter's recursion limit is reached; the model excludes negative depths instead of modelling that runaway recursion.
- Float infinities are the integers -1001 and +1001. No other float behaviour is modelled.
- An entry check that alpha <= beta: the code has none and simply runs with whatever window it is given, so the model has none either.
