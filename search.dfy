/** Plain minimax without pruning: the reference the alpha-beta search is
    measured against. It scans the legal moves in enumeration order and
    keeps the first move whose score is strictly better than everything
    before it, as the engine does. */
module Search {
  import opened Chess
  import opened Evaluation

  /** Integer stand-ins for -infinity and +infinity, strictly outside
      every score the evaluator can produce. */
  const NegInf: int := -1001
  const PosInf: int := 1001

  /** A score with the move that achieves it, if any. */
  datatype SearchResult = SearchResult(score: int, move: Option<Move>)

  /** The starting value of the running best: -inf when maximizing,
      +inf when minimizing. */
  function Initial(maximizing: bool): int {
    if maximizing then NegInf else PosInf
  }

  /** Strictly better for the side being optimized. */
  predicate Better(maximizing: bool, s: int, t: int) {
    if maximizing then s > t else s < t
  }

  /** The unpruned minimax result of the position after `h`, searched
      `depth` plies deep. */
  function Minimax(g: Rules, h: History, depth: nat, maximizing: bool): (r: SearchResult)
    ensures NegInf <= r.score <= PosInf
    ensures r.move.Some? ==> r.move.value in g.legalMoves(h)
    decreases depth, 1, 0
  {
    if depth == 0 || g.isGameOver(h) then SearchResult(Evaluate(g, h), None)
    else BestChild(g, h, depth, maximizing, g.legalMoves(h))
  }

  /** The best of `moves` from the position after `h`, each scored by a
      search one ply shallower for the other side. */
  function BestChild(g: Rules, h: History, depth: nat, maximizing: bool, moves: seq<Move>): (r: SearchResult)
    requires depth > 0
    ensures NegInf <= r.score <= PosInf
    ensures r.move.Some? ==> r.move.value in moves
    decreases depth, 0, |moves|
  {
    if moves == [] then SearchResult(Initial(maximizing), None)
    else
      var best := BestChild(g, h, depth, maximizing, moves[..|moves| - 1]);
      var move := moves[|moves| - 1];
      var score := ChildScore(g, h, depth, maximizing, move);
      if Better(maximizing, score, best.score) then SearchResult(score, Some(move)) else best
  }

  /** The reference score of one child of the position after `h`. */
  function ChildScore(g: Rules, h: History, depth: nat, maximizing: bool, move: Move): (s: int)
    requires depth > 0
    ensures NegInf <= s <= PosInf
    decreases depth, 0, 0
  {
    Minimax(g, h + [move], depth - 1, !maximizing).score
  }

  /** One step of the scan, as a loop over a prefix of the moves sees it. */
  lemma BestChildStep(g: Rules, h: History, depth: nat, maximizing: bool, moves: seq<Move>, i: nat)
    requires depth > 0 && i < |moves|
    ensures var best := BestChild(g, h, depth, maximizing, moves[..i]);
            var score := ChildScore(g, h, depth, maximizing, moves[i]);
            BestChild(g, h, depth, maximizing, moves[..i + 1])
            == if Better(maximizing, score, best.score) then SearchResult(score, Some(moves[i])) else best
  {
    assert moves[..i + 1][..i] == moves[..i];
  }

  /** No child scores strictly better than the best child. */
  lemma {:induction false} BestChildDominates(g: Rules, h: History, depth: nat, maximizing: bool, moves: seq<Move>, k: nat)
    requires depth > 0 && k < |moves|
    ensures !Better(maximizing, ChildScore(g, h, depth, maximizing, moves[k]), BestChild(g, h, depth, maximizing, moves).score)
  {
    var n := |moves|;
    if k < n - 1 {
      assert moves[..n - 1][k] == moves[k];
      BestChildDominates(g, h, depth, maximizing, moves[..n - 1], k);
    }
  }

  /** The best score is attained: by the chosen move, or, when no move
      was chosen, it is still the starting value. */
  lemma {:induction false} BestChildAttained(g: Rules, h: History, depth: nat, maximizing: bool, moves: seq<Move>)
    requires depth > 0
    ensures var r := BestChild(g, h, depth, maximizing, moves);
            (r.move.None? ==> r.score == Initial(maximizing))
            && (r.move.Some? ==> ChildScore(g, h, depth, maximizing, r.move.value) == r.score
                                 && Better(maximizing, r.score, Initial(maximizing)))
  {
    if moves != [] {
      BestChildAttained(g, h, depth, maximizing, moves[..|moves| - 1]);
    }
  }

  /** The chosen move is the first one, in enumeration order, whose score
      equals the best score: later moves with an equal score do not
      replace it. */
  lemma {:induction false} BestChildIsFirstOptimal(g: Rules, h: History, depth: nat, maximizing: bool, moves: seq<Move>, k: nat)
    requires depth > 0 && k < |moves|
    requires Better(maximizing, BestChild(g, h, depth, maximizing, moves).score, Initial(maximizing))
    requires ChildScore(g, h, depth, maximizing, moves[k]) == BestChild(g, h, depth, maximizing, moves).score
    requires forall j :: 0 <= j < k ==> ChildScore(g, h, depth, maximizing, moves[j]) != BestChild(g, h, depth, maximizing, moves).score
    ensures BestChild(g, h, depth, maximizing, moves).move == Some(moves[k])
  {
    var n := |moves|;
    var prefix := moves[..n - 1];
    var best := BestChild(g, h, depth, maximizing, prefix);
    if k == n - 1 {
      BestChildAttained(g, h, depth, maximizing, prefix);
      if best.move.Some? {
        var j :| 0 <= j < |prefix| && prefix[j] == best.move.value;
        assert ChildScore(g, h, depth, maximizing, moves[j]) == best.score;
      }
    } else {
      assert prefix[k] == moves[k];
      BestChildDominates(g, h, depth, maximizing, prefix, k);
      BestChildIsFirstOptimal(g, h, depth, maximizing, prefix, k);
    }
  }

  /** Once the running best reaches the opposite extreme (+inf when
      maximizing), no later move changes the result. */
  lemma {:induction false} BestChildSaturated(g: Rules, h: History, depth: nat, maximizing: bool, moves: seq<Move>, n: nat)
    requires depth > 0 && n <= |moves|
    requires BestChild(g, h, depth, maximizing, moves[..n]).score == Initial(!maximizing)
    ensures BestChild(g, h, depth, maximizing, moves) == BestChild(g, h, depth, maximizing, moves[..n])
  {
    if n < |moves| {
      var m := |moves|;
      assert moves[..m - 1][..n] == moves[..n];
      BestChildSaturated(g, h, depth, maximizing, moves[..m - 1], n);
    } else {
      assert moves[..n] == moves;
    }
  }

  /** With a consistent rules engine every minimax score is a real
      evaluation in [-MateScore, MateScore], and a position searched to
      depth > 0 that is not over always yields a move. */
  lemma {:induction false} MinimaxBounded(g: Rules, h: History, depth: nat, maximizing: bool)
    requires Consistent(g)
    ensures -MateScore <= Minimax(g, h, depth, maximizing).score <= MateScore
    ensures depth > 0 && !g.isGameOver(h) ==> Minimax(g, h, depth, maximizing).move.Some?
    decreases depth, 1, 0
  {
    if depth > 0 && !g.isGameOver(h) {
      BestChildBounded(g, h, depth, maximizing, g.legalMoves(h));
    }
  }

  lemma {:induction false} BestChildBounded(g: Rules, h: History, depth: nat, maximizing: bool, moves: seq<Move>)
    requires Consistent(g) && depth > 0 && moves != []
    ensures -MateScore <= BestChild(g, h, depth, maximizing, moves).score <= MateScore
    ensures BestChild(g, h, depth, maximizing, moves).move.Some?
    decreases depth, 0, |moves|
  {
    var n := |moves|;
    MinimaxBounded(g, h + [moves[n - 1]], depth - 1, !maximizing);
    if n > 1 {
      BestChildBounded(g, h, depth, maximizing, moves[..n - 1]);
    }
  }

  /** A one-ply search for White, in a position where some legal move
      checkmates Black, scores +MateScore and picks a checkmating move. */
  lemma MateInOneFound(g: Rules, h: History, mate: Move)
    requires Consistent(g) && !g.isGameOver(h)
    requires mate in g.legalMoves(h)
    requires g.isCheckmate(h + [mate]) && !g.whiteToMove(h + [mate])
    ensures Minimax(g, h, 1, true).score == MateScore
    ensures Minimax(g, h, 1, true).move.Some?
    ensures g.isCheckmate(h + [Minimax(g, h, 1, true).move.value])
  {
    var moves := g.legalMoves(h);
    var k :| 0 <= k < |moves| && moves[k] == mate;
    BestChildDominates(g, h, 1, true, moves, k);
    MinimaxBounded(g, h, 1, true);
    BestChildAttained(g, h, 1, true, moves);
  }

  /** The guarantee of a fail-soft alpha-beta search with window
      (alpha, beta) whose true value is `value`: exact inside the window,
      an upper bound at or below alpha, a lower bound at or above beta. */
  predicate FailSoft(score: int, value: int, alpha: int, beta: int) {
    && (score <= alpha ==> value <= score)
    && (alpha < score < beta ==> value == score)
    && (beta <= score ==> score <= value)
  }
}
