/** The engine object: it owns one board and searches on it in place. */
module Game {
  import opened Chess
  import opened Evaluation
  import Search
  import opened Pruning
  import opened PrunedSearch

  class ChessGame {
    const board: Board

    /** A game at the starting position under the given rules. */
    constructor (rules: Rules)
      ensures fresh(board) && board.rules == rules && board.history == []
    {
      board := new Board(rules);
    }

    /** A legal move chosen at random, or None when there is none. The
        random draw is a nondeterministic choice. */
    method GetRandomMove() returns (move: Option<Move>)
      ensures move.None? <==> board.LegalMoves() == []
      ensures move.Some? ==> move.value in board.LegalMoves()
    {
      var legalMoves := board.LegalMoves();
      if legalMoves == [] {
        return None;
      }
      var i :| 0 <= i < |legalMoves|;
      move := Some(legalMoves[i]);
    }

    /** Scores the current position: checkmate and stalemate first, then
        the material balance accumulated square by square. */
    method EvaluateBoard() returns (score: int)
      ensures score == Evaluate(board.rules, board.history)
    {
      if board.IsCheckmate() {
        return if board.Turn() == White then -MateScore else MateScore;
      }
      if board.IsStalemate() {
        return 0;
      }
      ghost var squares := Occupancy(board.rules, board.history);
      score := 0;
      for square := 0 to 64
        invariant score == Material(squares[..square])
      {
        assert squares[..square + 1][..square] == squares[..square];
        var piece := board.PieceAt(square);
        if piece.Some? {
          var value: int := PieceValue(piece.value.kind);
          score := score + if piece.value.color == White then value else -value;
        }
      }
      assert squares[..64] == squares;
    }

    /** Depth-limited minimax with alpha-beta pruning on the shared board.
        Every move is pushed, searched and popped again, so the board is
        left as it was found. The score is fail-soft with respect to the
        unpruned minimax value; with the full window (-inf, +inf) score and
        move are exactly those of unpruned minimax. Score, move and the
        scores of the children searched are those of `AlphaBeta`. */
    method Minimax(depth: nat, alpha: int, beta: int, isMaximizing: bool)
      returns (score: int, bestMove: Option<Move>, ghost scores: seq<int>)
      modifies board
      decreases depth, 2
      ensures board.history == old(board.history)
      ensures Outcome(score, bestMove, scores) == AlphaBeta(board.rules, board.history, depth, alpha, beta, isMaximizing)
      ensures depth == 0 || board.IsGameOver() ==>
                score == Evaluate(board.rules, board.history) && bestMove == None && scores == []
      ensures depth > 0 && !board.IsGameOver() ==>
                && StopsAtFirstCutoff(isMaximizing, alpha, beta, scores, |board.LegalMoves()|)
                && score == RunningBest(isMaximizing, scores)
                && bestMove == ChosenMove(board.LegalMoves(), RunningBestIndex(isMaximizing, scores))
                && (alpha < beta ==>
                      ChildrenFailSoft(board.rules, board.history, depth, isMaximizing, alpha, beta, board.LegalMoves(), scores))
      ensures bestMove.Some? ==> bestMove.value in board.LegalMoves()
      ensures alpha < beta ==>
                Search.FailSoft(score, Search.Minimax(board.rules, board.history, depth, isMaximizing).score, alpha, beta)
      ensures alpha == Search.NegInf && beta == Search.PosInf ==>
                Search.SearchResult(score, bestMove) == Search.Minimax(board.rules, board.history, depth, isMaximizing)
      ensures Search.NegInf <= score <= Search.PosInf
      ensures Consistent(board.rules) ==> -MateScore <= score <= MateScore
      ensures Consistent(board.rules) && depth > 0 && !board.IsGameOver() ==> bestMove.Some?
    {
      if depth == 0 || board.IsGameOver() {
        score := EvaluateBoard();
        return score, None, [];
      }
      if isMaximizing {
        score, bestMove, scores := MaximizingNode(depth, alpha, beta);
      } else {
        score, bestMove, scores := MinimizingNode(depth, alpha, beta);
      }
    }

    /** The maximizing branch of Minimax: each legal move in turn is
        pushed, searched for the minimizing side and popped; the first
        strictly best score and its move are kept, alpha is raised to the
        child's score, and the loop stops as soon as beta <= alpha. */
    method MaximizingNode(depth: nat, alpha: int, beta: int)
      returns (score: int, bestMove: Option<Move>, ghost scores: seq<int>)
      requires depth > 0 && !board.IsGameOver()
      modifies board
      decreases depth, 1
      ensures board.history == old(board.history)
      ensures Outcome(score, bestMove, scores) == AlphaBeta(board.rules, board.history, depth, alpha, beta, true)
      ensures NodeDone(board.rules, board.history, depth, true, board.LegalMoves(), alpha, beta, score, bestMove, scores)
    {
      var legalMoves := board.LegalMoves();
      bestMove := None;
      ghost var g, h := board.rules, board.history;
      ghost var alpha0, beta0 := alpha, beta;
      var alpha, beta := alpha, beta;

      var maxEval := Search.NegInf;
      scores := [];
      var i := 0;
      while i < |legalMoves|
        invariant board.history == h && beta == beta0 && i <= |legalMoves|
        invariant AlphaBetaLoop(g, h, depth, true, legalMoves, alpha, beta, i, maxEval, bestMove, scores)
                  == AlphaBeta(g, h, depth, alpha0, beta0, true)
      {
        var move := legalMoves[i];
        var evalScore := SearchChild(depth, move, alpha, beta, true);

        if evalScore > maxEval {
          maxEval := evalScore;
          bestMove := Some(move);
        }

        alpha := Max(alpha, evalScore);
        scores := scores + [evalScore];
        if beta <= alpha {
          break;
        }
        i := i + 1;
      }
      AlphaBetaSound(g, h, depth, alpha0, beta0, true);
      return maxEval, bestMove, scores;
    }

    /** The minimizing branch of Minimax, the mirror image of
        MaximizingNode: the first strictly lowest score is kept, beta is
        lowered to the child's score, and the loop stops as soon as
        beta <= alpha. */
    method MinimizingNode(depth: nat, alpha: int, beta: int)
      returns (score: int, bestMove: Option<Move>, ghost scores: seq<int>)
      requires depth > 0 && !board.IsGameOver()
      modifies board
      decreases depth, 1
      ensures board.history == old(board.history)
      ensures Outcome(score, bestMove, scores) == AlphaBeta(board.rules, board.history, depth, alpha, beta, false)
      ensures NodeDone(board.rules, board.history, depth, false, board.LegalMoves(), alpha, beta, score, bestMove, scores)
    {
      var legalMoves := board.LegalMoves();
      bestMove := None;
      ghost var g, h := board.rules, board.history;
      ghost var alpha0, beta0 := alpha, beta;
      var alpha, beta := alpha, beta;

      var minEval := Search.PosInf;
      scores := [];
      var i := 0;
      while i < |legalMoves|
        invariant board.history == h && alpha == alpha0 && i <= |legalMoves|
        invariant AlphaBetaLoop(g, h, depth, false, legalMoves, alpha, beta, i, minEval, bestMove, scores)
                  == AlphaBeta(g, h, depth, alpha0, beta0, false)
      {
        var move := legalMoves[i];
        var evalScore := SearchChild(depth, move, alpha, beta, false);

        if evalScore < minEval {
          minEval := evalScore;
          bestMove := Some(move);
        }

        beta := Min(beta, evalScore);
        scores := scores + [evalScore];
        if beta <= alpha {
          break;
        }
        i := i + 1;
      }
      AlphaBetaSound(g, h, depth, alpha0, beta0, false);
      return minEval, bestMove, scores;
    }

    /** One child of a node for `maximizing`: the move is pushed, the
        position after it is searched one ply shallower for the other
        side with the node's current window, and the move is popped. */
    method SearchChild(depth: nat, move: Move, alpha: int, beta: int, maximizing: bool) returns (score: int)
      requires depth > 0
      modifies board
      decreases depth, 0
      ensures board.history == old(board.history)
      ensures score == AlphaBeta(board.rules, board.history + [move], depth - 1, alpha, beta, !maximizing).score
      ensures alpha < beta ==>
                Search.FailSoft(score, Search.ChildScore(board.rules, board.history, depth, maximizing, move), alpha, beta)
      ensures Search.NegInf <= score <= Search.PosInf
      ensures Consistent(board.rules) ==> -MateScore <= score <= MateScore
    {
      ghost var h := board.history;
      board.Push(move);
      var childScore, _, _ := Minimax(depth - 1, alpha, beta, !maximizing);
      score := childScore;
      var _ := board.Pop();
      assert (h + [move])[..|h|] == h;
    }
  }
}
