/** The alpha-beta search as a pure function: what the engine computes,
    including the window it passes to every child and the point where it
    stops. The engine's methods are proved to return exactly this, and
    this is proved fail-soft against the unpruned reference. */
module PrunedSearch {
  import opened Chess
  import opened Evaluation
  import opened Search
  import opened Pruning

  /** A search result with the scores of the children searched, in
      search order (empty at a leaf). */
  datatype Outcome = Outcome(score: int, move: Option<Move>, scores: seq<int>)

  /** Alpha-beta search of the position after `h`, `depth` plies deep,
      with window (alpha, beta). A leaf searches no child and returns no
      move; an inner node with a legal move searches at least one child
      and at most all of them, and any move it returns is legal. */
  function AlphaBeta(g: Rules, h: History, depth: nat, alpha: int, beta: int, maximizing: bool): (r: Outcome)
    decreases depth, 1, 0
    ensures depth == 0 || g.isGameOver(h) ==> r.scores == [] && r.move == None
    ensures r.move.Some? ==> r.move.value in g.legalMoves(h)
  {
    if depth == 0 || g.isGameOver(h) then Outcome(Evaluate(g, h), None, [])
    else
      AlphaBetaLoopShape(g, h, depth, maximizing, g.legalMoves(h), alpha, beta, 0, Initial(maximizing), None, []);
      AlphaBetaLoop(g, h, depth, maximizing, g.legalMoves(h), alpha, beta, 0, Initial(maximizing), None, [])
  }

  /** The loop over `moves` from move `i` on, with the current window,
      running best, its move and the scores so far. Each child is searched
      with the current window; the running best changes only on strict
      improvement; then alpha is raised (maximizing) or beta lowered
      (minimizing), and the loop stops once beta <= alpha. */
  function AlphaBetaLoop(g: Rules, h: History, depth: nat, maximizing: bool, moves: seq<Move>,
                         alpha: int, beta: int, i: nat, best: int, bestMove: Option<Move>, scores: seq<int>): Outcome
    requires depth > 0 && i <= |moves|
    decreases depth, 0, |moves| - i
  {
    if i == |moves| then Outcome(best, bestMove, scores)
    else
      var s := AlphaBeta(g, h + [moves[i]], depth - 1, alpha, beta, !maximizing).score;
      var improved := Better(maximizing, s, best);
      var best' := if improved then s else best;
      var bestMove' := if improved then Some(moves[i]) else bestMove;
      var alpha' := if maximizing then Max(alpha, s) else alpha;
      var beta' := if maximizing then beta else Min(beta, s);
      if beta' <= alpha' then Outcome(best', bestMove', scores + [s])
      else AlphaBetaLoop(g, h, depth, maximizing, moves, alpha', beta', i + 1, best', bestMove', scores + [s])
  }

  /** The loop searches at least one more child while moves remain and
      never more than remain; the move it returns is the one it started
      with or one of the moves it scans. */
  lemma {:induction false} AlphaBetaLoopShape(g: Rules, h: History, depth: nat, maximizing: bool, moves: seq<Move>,
                                             alpha: int, beta: int, i: nat, best: int, bestMove: Option<Move>, scores: seq<int>)
    requires depth > 0 && i <= |moves|
    decreases depth, 0, |moves| - i + 1
    ensures var r := AlphaBetaLoop(g, h, depth, maximizing, moves, alpha, beta, i, best, bestMove, scores);
            && |scores| <= |r.scores| <= |scores| + |moves| - i
            && (i < |moves| ==> |r.scores| > |scores|)
            && (r.move == bestMove || (r.move.Some? && r.move.value in moves))
  {
    if i < |moves| {
      var s := AlphaBeta(g, h + [moves[i]], depth - 1, alpha, beta, !maximizing).score;
      var improved := Better(maximizing, s, best);
      var alpha' := if maximizing then Max(alpha, s) else alpha;
      var beta' := if maximizing then beta else Min(beta, s);
      if beta' > alpha' {
        AlphaBetaLoopShape(g, h, depth, maximizing, moves, alpha', beta', i + 1,
                          if improved then s else best, if improved then Some(moves[i]) else bestMove, scores + [s]);
      }
    }
  }

  /** What alpha-beta guarantees. The score lies within the sentinels, and
      within [-MateScore, MateScore] for a consistent rules engine. For
      alpha < beta it is fail-soft against unpruned minimax; under the
      full window score and move are those of unpruned minimax. At an
      inner node the children stop at the first cutoff and the result is
      their running best (`NodeDone`), and a consistent engine always
      yields a move there. */
  lemma {:induction false} AlphaBetaSound(g: Rules, h: History, depth: nat, alpha: int, beta: int, maximizing: bool)
    decreases depth, 1, 0
    ensures var r := AlphaBeta(g, h, depth, alpha, beta, maximizing);
            && NegInf <= r.score <= PosInf
            && (Consistent(g) ==> -MateScore <= r.score <= MateScore)
            && (alpha < beta ==> FailSoft(r.score, Minimax(g, h, depth, maximizing).score, alpha, beta))
            && (alpha == NegInf && beta == PosInf ==> SearchResult(r.score, r.move) == Minimax(g, h, depth, maximizing))
            && (depth > 0 && !g.isGameOver(h) ==>
                  && NodeDone(g, h, depth, maximizing, g.legalMoves(h), alpha, beta, r.score, r.move, r.scores)
                  && (Consistent(g) ==> r.move.Some?))
  {
    if depth == 0 || g.isGameOver(h) {
      return;
    }
    var moves := g.legalMoves(h);
    assert moves[..0] == [];
    if maximizing {
      MaxLoopSound(g, h, depth, moves, alpha, beta, 0, alpha, NegInf, None, []);
    } else {
      MinLoopSound(g, h, depth, moves, alpha, beta, 0, beta, PosInf, None, []);
    }
  }

  /** The child after `move`, searched for the other side with the
      current window, scores within the bounds and fail-soft against the
      child's unpruned score. */
  lemma ChildSound(g: Rules, h: History, depth: nat, maximizing: bool, move: Move, alpha: int, beta: int)
    requires depth > 0
    decreases depth - 1, 2
    ensures var s := AlphaBeta(g, h + [move], depth - 1, alpha, beta, !maximizing).score;
            && NegInf <= s <= PosInf
            && (Consistent(g) ==> -MateScore <= s <= MateScore)
            && (alpha < beta ==> FailSoft(s, ChildScore(g, h, depth, maximizing, move), alpha, beta))
  {
    AlphaBetaSound(g, h + [move], depth - 1, alpha, beta, !maximizing);
  }

  /** The maximizing loop, started in a state satisfying `MaxLoop`, ends
      with the node done. */
  lemma {:induction false} MaxLoopSound(g: Rules, h: History, depth: nat, moves: seq<Move>, alpha0: int, beta0: int,
                                        i: nat, alpha: int, maxEval: int, bestMove: Option<Move>, scores: seq<int>)
    requires MaxLoop(g, h, depth, moves, alpha0, beta0, i, alpha, maxEval, bestMove, scores)
    decreases depth, 0, |moves| - i
    ensures var r := AlphaBetaLoop(g, h, depth, true, moves, alpha, beta0, i, maxEval, bestMove, scores);
            NodeDone(g, h, depth, true, moves, alpha0, beta0, r.score, r.move, r.scores)
  {
    if i == |moves| {
      MaxLoopDone(g, h, depth, moves, alpha0, beta0, alpha, maxEval, bestMove, scores);
    } else {
      ChildSound(g, h, depth, true, moves[i], alpha, beta0);
      var s := AlphaBeta(g, h + [moves[i]], depth - 1, alpha, beta0, false).score;
      var maxEval' := if s > maxEval then s else maxEval;
      var bestMove' := if s > maxEval then Some(moves[i]) else bestMove;
      var alpha' := Max(alpha, s);
      if beta0 <= alpha' {
        assert AlphaBetaLoop(g, h, depth, true, moves, alpha, beta0, i, maxEval, bestMove, scores)
               == Outcome(maxEval', bestMove', scores + [s]);
        MaxLoopCut(g, h, depth, moves, alpha0, beta0, i, alpha, maxEval, bestMove, scores, s, alpha', maxEval', bestMove');
      } else {
        assert AlphaBetaLoop(g, h, depth, true, moves, alpha, beta0, i, maxEval, bestMove, scores)
               == AlphaBetaLoop(g, h, depth, true, moves, alpha', beta0, i + 1, maxEval', bestMove', scores + [s]);
        MaxLoopStep(g, h, depth, moves, alpha0, beta0, i, alpha, maxEval, bestMove, scores, s, alpha', maxEval', bestMove');
        MaxLoopSound(g, h, depth, moves, alpha0, beta0, i + 1, alpha', maxEval', bestMove', scores + [s]);
      }
    }
  }

  /** The mirror image of MaxLoopSound for a minimizing node. */
  lemma {:induction false} MinLoopSound(g: Rules, h: History, depth: nat, moves: seq<Move>, alpha0: int, beta0: int,
                                        i: nat, beta: int, minEval: int, bestMove: Option<Move>, scores: seq<int>)
    requires MinLoop(g, h, depth, moves, alpha0, beta0, i, beta, minEval, bestMove, scores)
    decreases depth, 0, |moves| - i
    ensures var r := AlphaBetaLoop(g, h, depth, false, moves, alpha0, beta, i, minEval, bestMove, scores);
            NodeDone(g, h, depth, false, moves, alpha0, beta0, r.score, r.move, r.scores)
  {
    if i == |moves| {
      MinLoopDone(g, h, depth, moves, alpha0, beta0, beta, minEval, bestMove, scores);
    } else {
      ChildSound(g, h, depth, false, moves[i], alpha0, beta);
      var s := AlphaBeta(g, h + [moves[i]], depth - 1, alpha0, beta, true).score;
      var minEval' := if s < minEval then s else minEval;
      var bestMove' := if s < minEval then Some(moves[i]) else bestMove;
      var beta' := Min(beta, s);
      if beta' <= alpha0 {
        assert AlphaBetaLoop(g, h, depth, false, moves, alpha0, beta, i, minEval, bestMove, scores)
               == Outcome(minEval', bestMove', scores + [s]);
        MinLoopCut(g, h, depth, moves, alpha0, beta0, i, beta, minEval, bestMove, scores, s, beta', minEval', bestMove');
      } else {
        assert AlphaBetaLoop(g, h, depth, false, moves, alpha0, beta, i, minEval, bestMove, scores)
               == AlphaBetaLoop(g, h, depth, false, moves, alpha0, beta', i + 1, minEval', bestMove', scores + [s]);
        MinLoopStep(g, h, depth, moves, alpha0, beta0, i, beta, minEval, bestMove, scores, s, beta', minEval', bestMove');
        MinLoopSound(g, h, depth, moves, alpha0, beta0, i + 1, beta', minEval', bestMove', scores + [s]);
      }
    }
  }
}
