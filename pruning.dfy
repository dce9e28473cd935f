/** What one iteration of the alpha-beta loop does to the search state,
    stated against the unpruned reference. A maximizing node keeps
    `maxEval` (the best child score so far) and raises `alpha`; a
    minimizing node keeps `minEval` and lowers `beta`. */
module Pruning {
  import opened Chess
  import opened Evaluation
  import opened Search

  function Max(a: int, b: int): (m: int)
    ensures m >= a && m >= b && (m == a || m == b)
  {
    if a >= b then a else b
  }

  function Min(a: int, b: int): (m: int)
    ensures m <= a && m <= b && (m == a || m == b)
  {
    if a <= b then a else b
  }

  /** After some children of a maximizing node entered with lower bound
      `alpha0`: the reference value of those children is at most
      `maxEval`, and equal to it once `maxEval` has risen above `alpha0`. */
  predicate MaxSoFar(value: int, maxEval: int, alpha0: int) {
    value <= maxEval && (maxEval > alpha0 ==> value == maxEval)
  }

  /** The mirror image for a minimizing node entered with upper bound
      `beta0`. */
  predicate MinSoFar(value: int, minEval: int, beta0: int) {
    minEval <= value && (minEval < beta0 ==> value == minEval)
  }

  /** One child of a maximizing node: the child was searched with window
      (alpha, beta0) and returned `s`; `maxEval`, `bestMove` and `alpha`
      are updated as the engine does (strict improvement, then
      alpha := max(alpha, s)). Either the loop goes on with its
      invariant kept, or it stops (beta0 <= alpha') and `maxEval'` is
      already a fail-soft answer for the whole node. */
  lemma MaxStep(g: Rules, h: History, depth: nat, moves: seq<Move>, i: nat,
                alpha0: int, beta0: int, alpha: int, maxEval: int, bestMove: Option<Move>, s: int,
                alpha': int, maxEval': int, bestMove': Option<Move>)
    requires depth > 0 && i < |moves|
    requires alpha == (if i == 0 then alpha0 else Max(alpha0, maxEval))
    requires NegInf <= maxEval <= PosInf && NegInf <= s <= PosInf
    requires i == 0 ==> maxEval == NegInf
    requires alpha0 < beta0 ==>
               alpha < beta0 && MaxSoFar(BestChild(g, h, depth, true, moves[..i]).score, maxEval, alpha0)
               && FailSoft(s, ChildScore(g, h, depth, true, moves[i]), alpha, beta0)
    requires alpha0 == NegInf && beta0 == PosInf ==>
               SearchResult(maxEval, bestMove) == BestChild(g, h, depth, true, moves[..i])
    requires maxEval' == (if s > maxEval then s else maxEval)
    requires bestMove' == (if s > maxEval then Some(moves[i]) else bestMove)
    requires alpha' == Max(alpha, s)
    ensures alpha' == Max(alpha0, maxEval')
    ensures alpha0 < beta0 && alpha' < beta0 ==>
              MaxSoFar(BestChild(g, h, depth, true, moves[..i + 1]).score, maxEval', alpha0)
    ensures alpha0 < beta0 && beta0 <= alpha' ==>
              FailSoft(maxEval', BestChild(g, h, depth, true, moves).score, alpha0, beta0)
    ensures alpha0 == NegInf && beta0 == PosInf && alpha' < beta0 ==>
              SearchResult(maxEval', bestMove') == BestChild(g, h, depth, true, moves[..i + 1])
    ensures alpha0 == NegInf && beta0 == PosInf && beta0 <= alpha' ==>
              SearchResult(maxEval', bestMove') == BestChild(g, h, depth, true, moves)
  {
    BestChildStep(g, h, depth, true, moves, i);
    if alpha0 < beta0 && beta0 <= alpha' {
      BestChildDominates(g, h, depth, true, moves, i);
    }
    if alpha0 == NegInf && beta0 == PosInf && beta0 <= alpha' {
      BestChildSaturated(g, h, depth, true, moves, i + 1);
    }
  }

  /** The mirror image of MaxStep for a minimizing node. */
  lemma MinStep(g: Rules, h: History, depth: nat, moves: seq<Move>, i: nat,
                alpha0: int, beta0: int, beta: int, minEval: int, bestMove: Option<Move>, s: int,
                beta': int, minEval': int, bestMove': Option<Move>)
    requires depth > 0 && i < |moves|
    requires beta == (if i == 0 then beta0 else Min(beta0, minEval))
    requires NegInf <= minEval <= PosInf && NegInf <= s <= PosInf
    requires i == 0 ==> minEval == PosInf
    requires alpha0 < beta0 ==>
               alpha0 < beta && MinSoFar(BestChild(g, h, depth, false, moves[..i]).score, minEval, beta0)
               && FailSoft(s, ChildScore(g, h, depth, false, moves[i]), alpha0, beta)
    requires alpha0 == NegInf && beta0 == PosInf ==>
               SearchResult(minEval, bestMove) == BestChild(g, h, depth, false, moves[..i])
    requires minEval' == (if s < minEval then s else minEval)
    requires bestMove' == (if s < minEval then Some(moves[i]) else bestMove)
    requires beta' == Min(beta, s)
    ensures beta' == Min(beta0, minEval')
    ensures alpha0 < beta0 && alpha0 < beta' ==>
              MinSoFar(BestChild(g, h, depth, false, moves[..i + 1]).score, minEval', beta0)
    ensures alpha0 < beta0 && beta' <= alpha0 ==>
              FailSoft(minEval', BestChild(g, h, depth, false, moves).score, alpha0, beta0)
    ensures alpha0 == NegInf && beta0 == PosInf && alpha0 < beta' ==>
              SearchResult(minEval', bestMove') == BestChild(g, h, depth, false, moves[..i + 1])
    ensures alpha0 == NegInf && beta0 == PosInf && beta' <= alpha0 ==>
              SearchResult(minEval', bestMove') == BestChild(g, h, depth, false, moves)
  {
    BestChildStep(g, h, depth, false, moves, i);
    if alpha0 < beta0 && beta' <= alpha0 {
      BestChildDominates(g, h, depth, false, moves, i);
    }
    if alpha0 == NegInf && beta0 == PosInf && beta' <= alpha0 {
      BestChildSaturated(g, h, depth, false, moves, i + 1);
    }
  }

  /** The lower bound of a maximizing node after its children returned
      `scores` in turn, starting from `alpha`: each score is folded in
      with max. */
  function Raised(alpha: int, scores: seq<int>): (a: int)
    ensures a >= alpha
  {
    if scores == [] then alpha
    else Max(Raised(alpha, scores[..|scores| - 1]), scores[|scores| - 1])
  }

  /** The upper bound of a minimizing node after its children returned
      `scores` in turn, starting from `beta`: each score is folded in
      with min. */
  function Lowered(beta: int, scores: seq<int>): (b: int)
    ensures b <= beta
  {
    if scores == [] then beta
    else Min(Lowered(beta, scores[..|scores| - 1]), scores[|scores| - 1])
  }

  /** Alpha never decreases: the bound after a prefix of the children is
      at most the bound after all of them. */
  lemma {:induction false} RaisedMonotone(alpha: int, scores: seq<int>, k: nat)
    requires k <= |scores|
    ensures Raised(alpha, scores[..k]) <= Raised(alpha, scores)
  {
    if k < |scores| {
      var n := |scores|;
      assert scores[..n - 1][..k] == scores[..k];
      RaisedMonotone(alpha, scores[..n - 1], k);
    } else {
      assert scores[..k] == scores;
    }
  }

  /** Beta never increases. */
  lemma {:induction false} LoweredMonotone(beta: int, scores: seq<int>, k: nat)
    requires k <= |scores|
    ensures Lowered(beta, scores) <= Lowered(beta, scores[..k])
  {
    if k < |scores| {
      var n := |scores|;
      assert scores[..n - 1][..k] == scores[..k];
      LoweredMonotone(beta, scores[..n - 1], k);
    } else {
      assert scores[..k] == scores;
    }
  }

  /** The running best of child scores taken in turn, replaced only on
      strict improvement, starting from -inf (maximizing) or +inf. */
  function RunningBest(maximizing: bool, scores: seq<int>): (b: int)
    ensures scores == [] ==> b == Initial(maximizing)
    ensures scores != [] ==> !Better(maximizing, scores[|scores| - 1], b)
  {
    if scores == [] then Initial(maximizing)
    else
      var best := RunningBest(maximizing, scores[..|scores| - 1]);
      var s := scores[|scores| - 1];
      if Better(maximizing, s, best) then s else best
  }

  /** The raised bound is at least every child score. */
  lemma {:induction false} RaisedAboveScores(alpha: int, scores: seq<int>)
    ensures forall k :: 0 <= k < |scores| ==> Raised(alpha, scores) >= scores[k]
  {
    if scores != [] {
      RaisedAboveScores(alpha, scores[..|scores| - 1]);
    }
  }

  /** The lowered bound is at most every child score. */
  lemma {:induction false} LoweredBelowScores(beta: int, scores: seq<int>)
    ensures forall k :: 0 <= k < |scores| ==> Lowered(beta, scores) <= scores[k]
  {
    if scores != [] {
      LoweredBelowScores(beta, scores[..|scores| - 1]);
    }
  }

  /** Once alpha has been raised above its start, it is at most the
      running maximum: the raise came from a child score. */
  lemma {:induction false} RaisedByBest(alpha: int, scores: seq<int>)
    ensures Raised(alpha, scores) > alpha ==> Raised(alpha, scores) <= RunningBest(true, scores)
  {
    if scores != [] {
      RaisedByBest(alpha, scores[..|scores| - 1]);
    }
  }

  /** Once beta has been lowered below its start, it is at least the
      running minimum. */
  lemma {:induction false} LoweredByBest(beta: int, scores: seq<int>)
    ensures Lowered(beta, scores) < beta ==> RunningBest(false, scores) <= Lowered(beta, scores)
  {
    if scores != [] {
      LoweredByBest(beta, scores[..|scores| - 1]);
    }
  }

  /** The running best is the best of the scores: none is strictly
      better, and it is one of them unless it is still the start value. */
  lemma {:induction false} RunningBestIsBest(maximizing: bool, scores: seq<int>)
    ensures forall k :: 0 <= k < |scores| ==> !Better(maximizing, scores[k], RunningBest(maximizing, scores))
    ensures RunningBest(maximizing, scores) == Initial(maximizing) || RunningBest(maximizing, scores) in scores
  {
    if scores != [] {
      var prefix := scores[..|scores| - 1];
      RunningBestIsBest(maximizing, prefix);
      assert scores == prefix + [scores[|scores| - 1]];
    }
  }

  /** The index of the child whose score is the running best: the last
      strict improvement, or -1 while none has beaten the sentinel. */
  function RunningBestIndex(maximizing: bool, scores: seq<int>): (k: int)
    ensures -1 <= k < |scores|
  {
    if scores == [] then -1
    else
      var prefix := scores[..|scores| - 1];
      if Better(maximizing, scores[|scores| - 1], RunningBest(maximizing, prefix)) then |scores| - 1
      else RunningBestIndex(maximizing, prefix)
  }

  /** The move a node holds for a running-best index: none for -1. */
  function ChosenMove(moves: seq<Move>, k: int): Option<Move>
    requires k < |moves|
  {
    if k < 0 then None else Some(moves[k])
  }

  /** The running-best index is the FIRST child whose score equals the
      running best, and that score beats the sentinel; the index is -1
      exactly when no score beats the sentinel, and the running best is
      then still the sentinel. */
  lemma {:induction false} RunningBestIndexIsFirst(maximizing: bool, scores: seq<int>)
    ensures var k := RunningBestIndex(maximizing, scores);
            var b := RunningBest(maximizing, scores);
            && (k == -1 ==> b == Initial(maximizing)
                            && forall j :: 0 <= j < |scores| ==> !Better(maximizing, scores[j], Initial(maximizing)))
            && (k >= 0 ==> scores[k] == b && Better(maximizing, b, Initial(maximizing))
                           && forall j :: 0 <= j < k ==> scores[j] != b)
  {
    if scores != [] {
      var n := |scores|;
      var prefix := scores[..n - 1];
      RunningBestIndexIsFirst(maximizing, prefix);
      RunningBestIsBest(maximizing, prefix);
      assert forall j :: 0 <= j < n - 1 ==> scores[j] == prefix[j];
    }
  }

  /** The cutoff test, made after the bound has been updated with every
      score in `scores`: beta <= alpha. For a non-empty window it holds
      only after some child, and then the node's running best already
      fails high (at least beta) or low (at most alpha). */
  predicate CutOff(maximizing: bool, alpha: int, beta: int, scores: seq<int>)
    ensures CutOff(maximizing, alpha, beta, scores) && alpha < beta ==>
              && scores != []
              && if maximizing then beta <= RunningBest(true, scores) else RunningBest(false, scores) <= alpha
  {
    RaisedByBest(alpha, scores);
    LoweredByBest(beta, scores);
    if maximizing then beta <= Raised(alpha, scores) else Lowered(beta, scores) <= alpha
  }

  /** No cutoff after any of the children whose scores are `scores`:
      none after the last one, and none before it. */
  predicate NoCutOffYet(maximizing: bool, alpha: int, beta: int, scores: seq<int>) {
    scores == [] ||
    (!CutOff(maximizing, alpha, beta, scores) && NoCutOffYet(maximizing, alpha, beta, scores[..|scores| - 1]))
  }

  /** NoCutOffYet says exactly that no prefix of one or more scores
      triggers the cutoff. */
  lemma {:induction false} NoCutOffYetMeans(maximizing: bool, alpha: int, beta: int, scores: seq<int>)
    ensures NoCutOffYet(maximizing, alpha, beta, scores)
            <==> forall k :: 1 <= k <= |scores| ==> !CutOff(maximizing, alpha, beta, scores[..k])
  {
    if scores != [] {
      var n := |scores|;
      var prefix := scores[..n - 1];
      NoCutOffYetMeans(maximizing, alpha, beta, prefix);
      assert scores[..n] == scores;
      forall k | 1 <= k <= n - 1
        ensures prefix[..k] == scores[..k]
      {
      }
    }
  }

  /** The loop over `numMoves` legal moves searched exactly the children
      whose scores are `scores`, in order: at least one child when there
      is a move, no cutoff after any earlier child, and, if it stopped
      before the last move, a cutoff right after the last child searched.
      So a loop that stops early with a non-empty window has failed high
      (maximizing) or low (minimizing). */
  predicate StopsAtFirstCutoff(maximizing: bool, alpha: int, beta: int, scores: seq<int>, numMoves: nat)
    ensures StopsAtFirstCutoff(maximizing, alpha, beta, scores, numMoves) && alpha < beta && |scores| < numMoves ==>
              if maximizing then beta <= RunningBest(true, scores) else RunningBest(false, scores) <= alpha
  {
    && |scores| <= numMoves
    && (numMoves > 0 ==> |scores| >= 1)
    && (scores != [] ==> NoCutOffYet(maximizing, alpha, beta, scores[..|scores| - 1]))
    && (|scores| < numMoves ==> CutOff(maximizing, alpha, beta, scores))
  }

  /** One child's score is a fail-soft answer for that child's reference
      value, under the window it was searched with: the node's window
      narrowed by the scores `before` it. */
  ghost predicate ChildFailSoft(g: Rules, h: History, depth: nat, maximizing: bool, alpha: int, beta: int,
                                move: Move, score: int, before: seq<int>)
    requires depth > 0
  {
    FailSoft(score, ChildScore(g, h, depth, maximizing, move),
             if maximizing then Raised(alpha, before) else alpha,
             if maximizing then beta else Lowered(beta, before))
  }

  /** Every child searched, the last one and the ones before it, answered
      fail-soft for its own window. */
  ghost predicate ChildrenFailSoft(g: Rules, h: History, depth: nat, maximizing: bool, alpha: int, beta: int,
                                   moves: seq<Move>, scores: seq<int>)
    requires depth > 0 && |scores| <= |moves|
  {
    scores == [] ||
    var n := |scores|;
    && ChildFailSoft(g, h, depth, maximizing, alpha, beta, moves[n - 1], scores[n - 1], scores[..n - 1])
    && ChildrenFailSoft(g, h, depth, maximizing, alpha, beta, moves, scores[..n - 1])
  }

  /** ChildrenFailSoft says exactly that each child k answered fail-soft
      under the window left by the k scores before it. */
  lemma {:induction false} ChildrenFailSoftMeans(g: Rules, h: History, depth: nat, maximizing: bool, alpha: int, beta: int,
                                                 moves: seq<Move>, scores: seq<int>)
    requires depth > 0 && |scores| <= |moves|
    ensures ChildrenFailSoft(g, h, depth, maximizing, alpha, beta, moves, scores)
            <==> forall k :: 0 <= k < |scores| ==>
                   ChildFailSoft(g, h, depth, maximizing, alpha, beta, moves[k], scores[k], scores[..k])
  {
    if scores != [] {
      var n := |scores|;
      var prefix := scores[..n - 1];
      ChildrenFailSoftMeans(g, h, depth, maximizing, alpha, beta, moves, prefix);
      forall k | 0 <= k < n - 1
        ensures prefix[..k] == scores[..k] && prefix[k] == scores[k]
      {
      }
    }
  }

  /** Appending one child score: earlier prefixes are unchanged and the
      folds take one more step. */
  lemma AppendScore(maximizing: bool, alpha: int, beta: int, scores: seq<int>, s: int)
    ensures forall k :: 0 <= k <= |scores| ==> (scores + [s])[..k] == scores[..k]
    ensures Raised(alpha, scores + [s]) == Max(Raised(alpha, scores), s)
    ensures Lowered(beta, scores + [s]) == Min(Lowered(beta, scores), s)
    ensures RunningBest(maximizing, scores + [s])
            == if Better(maximizing, s, RunningBest(maximizing, scores)) then s else RunningBest(maximizing, scores)
    ensures RunningBestIndex(maximizing, scores + [s])
            == if Better(maximizing, s, RunningBest(maximizing, scores)) then |scores| else RunningBestIndex(maximizing, scores)
  {
    assert (scores + [s])[..|scores|] == scores;
  }

  /** One more child searched, out of `numMoves`: if its score triggers
      the cutoff the loop stops there as required, otherwise there has
      still been no cutoff. */
  lemma ScoresStep(maximizing: bool, alpha: int, beta: int, scores: seq<int>, s: int, numMoves: nat)
    requires |scores| < numMoves
    requires NoCutOffYet(maximizing, alpha, beta, scores)
    ensures CutOff(maximizing, alpha, beta, scores + [s]) ==>
              StopsAtFirstCutoff(maximizing, alpha, beta, scores + [s], numMoves)
    ensures !CutOff(maximizing, alpha, beta, scores + [s]) ==>
              NoCutOffYet(maximizing, alpha, beta, scores + [s])
  {
    assert (scores + [s])[..|scores|] == scores;
  }

  /** Every move searched without a cutoff: the loop ran to the end. */
  lemma ScoresDone(maximizing: bool, alpha: int, beta: int, scores: seq<int>)
    requires NoCutOffYet(maximizing, alpha, beta, scores)
    ensures StopsAtFirstCutoff(maximizing, alpha, beta, scores, |scores|)
  {
  }

  /** One more child whose score is fail-soft for the window it was
      searched with keeps every child fail-soft. */
  lemma ChildrenFailSoftStep(g: Rules, h: History, depth: nat, maximizing: bool, alpha: int, beta: int,
                             moves: seq<Move>, scores: seq<int>, s: int)
    requires depth > 0 && |scores| < |moves|
    requires ChildrenFailSoft(g, h, depth, maximizing, alpha, beta, moves, scores)
    requires ChildFailSoft(g, h, depth, maximizing, alpha, beta, moves[|scores|], s, scores)
    ensures ChildrenFailSoft(g, h, depth, maximizing, alpha, beta, moves, scores + [s])
  {
    assert (scores + [s])[..|scores|] == scores;
  }

  /** The state of a maximizing node's loop, entered with window
      (alpha0, beta0), after its first `i` moves were searched with no
      cutoff: `alpha`, `maxEval` and `bestMove` are what the engine holds
      and `scores` the child scores in search order. */
  ghost predicate MaxLoop(g: Rules, h: History, depth: nat, moves: seq<Move>, alpha0: int, beta0: int,
                          i: nat, alpha: int, maxEval: int, bestMove: Option<Move>, scores: seq<int>)
  {
    && depth > 0 && i <= |moves| && |scores| == i
    && alpha == (if i == 0 then alpha0 else Max(alpha0, maxEval))
    && alpha == Raised(alpha0, scores) && maxEval == RunningBest(true, scores)
    && NegInf <= maxEval <= PosInf
    && bestMove == ChosenMove(moves, RunningBestIndex(true, scores))
    && NoCutOffYet(true, alpha0, beta0, scores)
    && (alpha0 < beta0 ==>
          && alpha < beta0
          && MaxSoFar(BestChild(g, h, depth, true, moves[..i]).score, maxEval, alpha0)
          && ChildrenFailSoft(g, h, depth, true, alpha0, beta0, moves, scores))
    && (alpha0 == NegInf && beta0 == PosInf ==>
          SearchResult(maxEval, bestMove) == BestChild(g, h, depth, true, moves[..i]))
    && (Consistent(g) && i > 0 ==> -MateScore <= maxEval <= MateScore)
  }

  /** The mirror image of MaxLoop for a minimizing node. */
  ghost predicate MinLoop(g: Rules, h: History, depth: nat, moves: seq<Move>, alpha0: int, beta0: int,
                          i: nat, beta: int, minEval: int, bestMove: Option<Move>, scores: seq<int>)
  {
    && depth > 0 && i <= |moves| && |scores| == i
    && beta == (if i == 0 then beta0 else Min(beta0, minEval))
    && beta == Lowered(beta0, scores) && minEval == RunningBest(false, scores)
    && NegInf <= minEval <= PosInf
    && bestMove == ChosenMove(moves, RunningBestIndex(false, scores))
    && NoCutOffYet(false, alpha0, beta0, scores)
    && (alpha0 < beta0 ==>
          && alpha0 < beta
          && MinSoFar(BestChild(g, h, depth, false, moves[..i]).score, minEval, beta0)
          && ChildrenFailSoft(g, h, depth, false, alpha0, beta0, moves, scores))
    && (alpha0 == NegInf && beta0 == PosInf ==>
          SearchResult(minEval, bestMove) == BestChild(g, h, depth, false, moves[..i]))
    && (Consistent(g) && i > 0 ==> -MateScore <= minEval <= MateScore)
  }

  /** What a node for `maximizing` returns, once its loop is over: the
      children searched stop at the first cutoff, the score is their
      running best and the move that of the first child reaching it
      (none if no child beat the sentinel), every child score is
      fail-soft for its own window, and the node's score is fail-soft
      for the node (exact under the full window). With a consistent
      rules engine and at least one move, a move is always returned. */
  ghost predicate NodeDone(g: Rules, h: History, depth: nat, maximizing: bool, moves: seq<Move>, alpha0: int, beta0: int,
                           score: int, bestMove: Option<Move>, scores: seq<int>)
    requires depth > 0
    ensures (NodeDone(g, h, depth, maximizing, moves, alpha0, beta0, score, bestMove, scores)
             && Consistent(g) && moves != []) ==> bestMove.Some?
  {
    RunningBestIndexIsFirst(maximizing, scores);
    && StopsAtFirstCutoff(maximizing, alpha0, beta0, scores, |moves|)
    && score == RunningBest(maximizing, scores)
    && bestMove == ChosenMove(moves, RunningBestIndex(maximizing, scores))
    && (alpha0 < beta0 ==>
          && ChildrenFailSoft(g, h, depth, maximizing, alpha0, beta0, moves, scores)
          && FailSoft(score, BestChild(g, h, depth, maximizing, moves).score, alpha0, beta0))
    && (alpha0 == NegInf && beta0 == PosInf ==>
          SearchResult(score, bestMove) == BestChild(g, h, depth, maximizing, moves))
    && NegInf <= score <= PosInf
    && (Consistent(g) && moves != [] ==> -MateScore <= score <= MateScore)
  }

  /** One iteration of a maximizing node's loop: the child `moves[i]`
      returned `s`, fail-soft for the window (alpha, beta0); maxEval,
      bestMove and alpha are updated as the engine does. Without a cutoff
      the loop state holds for i + 1; with one the node is done. */
  lemma MaxLoopStep(g: Rules, h: History, depth: nat, moves: seq<Move>, alpha0: int, beta0: int,
                    i: nat, alpha: int, maxEval: int, bestMove: Option<Move>, scores: seq<int>, s: int,
                    alpha': int, maxEval': int, bestMove': Option<Move>)
    requires MaxLoop(g, h, depth, moves, alpha0, beta0, i, alpha, maxEval, bestMove, scores)
    requires i < |moves| && alpha' < beta0
    requires NegInf <= s <= PosInf && (Consistent(g) ==> -MateScore <= s <= MateScore)
    requires alpha0 < beta0 ==> FailSoft(s, ChildScore(g, h, depth, true, moves[i]), alpha, beta0)
    requires maxEval' == (if s > maxEval then s else maxEval)
    requires bestMove' == (if s > maxEval then Some(moves[i]) else bestMove)
    requires alpha' == Max(alpha, s)
    ensures MaxLoop(g, h, depth, moves, alpha0, beta0, i + 1, alpha', maxEval', bestMove', scores + [s])
  {
    MaxStep(g, h, depth, moves, i, alpha0, beta0, alpha, maxEval, bestMove, s, alpha', maxEval', bestMove');
    AppendScore(true, alpha0, beta0, scores, s);
    ScoresStep(true, alpha0, beta0, scores, s, |moves|);
    if alpha0 < beta0 {
      ChildrenFailSoftStep(g, h, depth, true, alpha0, beta0, moves, scores, s);
    }
  }

  /** The same iteration when the cutoff fires: the node is done. */
  lemma MaxLoopCut(g: Rules, h: History, depth: nat, moves: seq<Move>, alpha0: int, beta0: int,
                    i: nat, alpha: int, maxEval: int, bestMove: Option<Move>, scores: seq<int>, s: int,
                    alpha': int, maxEval': int, bestMove': Option<Move>)
    requires MaxLoop(g, h, depth, moves, alpha0, beta0, i, alpha, maxEval, bestMove, scores)
    requires i < |moves| && beta0 <= alpha'
    requires NegInf <= s <= PosInf && (Consistent(g) ==> -MateScore <= s <= MateScore)
    requires alpha0 < beta0 ==> FailSoft(s, ChildScore(g, h, depth, true, moves[i]), alpha, beta0)
    requires maxEval' == (if s > maxEval then s else maxEval)
    requires bestMove' == (if s > maxEval then Some(moves[i]) else bestMove)
    requires alpha' == Max(alpha, s)
    ensures NodeDone(g, h, depth, true, moves, alpha0, beta0, maxEval', bestMove', scores + [s])
  {
    MaxStep(g, h, depth, moves, i, alpha0, beta0, alpha, maxEval, bestMove, s, alpha', maxEval', bestMove');
    AppendScore(true, alpha0, beta0, scores, s);
    ScoresStep(true, alpha0, beta0, scores, s, |moves|);
    if alpha0 < beta0 {
      ChildrenFailSoftStep(g, h, depth, true, alpha0, beta0, moves, scores, s);
    }
  }

  /** The mirror image of MaxLoopStep for a minimizing node. */
  lemma MinLoopStep(g: Rules, h: History, depth: nat, moves: seq<Move>, alpha0: int, beta0: int,
                    i: nat, beta: int, minEval: int, bestMove: Option<Move>, scores: seq<int>, s: int,
                    beta': int, minEval': int, bestMove': Option<Move>)
    requires MinLoop(g, h, depth, moves, alpha0, beta0, i, beta, minEval, bestMove, scores)
    requires i < |moves| && alpha0 < beta'
    requires NegInf <= s <= PosInf && (Consistent(g) ==> -MateScore <= s <= MateScore)
    requires alpha0 < beta0 ==> FailSoft(s, ChildScore(g, h, depth, false, moves[i]), alpha0, beta)
    requires minEval' == (if s < minEval then s else minEval)
    requires bestMove' == (if s < minEval then Some(moves[i]) else bestMove)
    requires beta' == Min(beta, s)
    ensures MinLoop(g, h, depth, moves, alpha0, beta0, i + 1, beta', minEval', bestMove', scores + [s])
  {
    MinStep(g, h, depth, moves, i, alpha0, beta0, beta, minEval, bestMove, s, beta', minEval', bestMove');
    AppendScore(false, alpha0, beta0, scores, s);
    ScoresStep(false, alpha0, beta0, scores, s, |moves|);
    if alpha0 < beta0 {
      ChildrenFailSoftStep(g, h, depth, false, alpha0, beta0, moves, scores, s);
    }
  }

  /** The mirror image of MaxLoopCut for a minimizing node. */
  lemma MinLoopCut(g: Rules, h: History, depth: nat, moves: seq<Move>, alpha0: int, beta0: int,
                    i: nat, beta: int, minEval: int, bestMove: Option<Move>, scores: seq<int>, s: int,
                    beta': int, minEval': int, bestMove': Option<Move>)
    requires MinLoop(g, h, depth, moves, alpha0, beta0, i, beta, minEval, bestMove, scores)
    requires i < |moves| && beta' <= alpha0
    requires NegInf <= s <= PosInf && (Consistent(g) ==> -MateScore <= s <= MateScore)
    requires alpha0 < beta0 ==> FailSoft(s, ChildScore(g, h, depth, false, moves[i]), alpha0, beta)
    requires minEval' == (if s < minEval then s else minEval)
    requires bestMove' == (if s < minEval then Some(moves[i]) else bestMove)
    requires beta' == Min(beta, s)
    ensures NodeDone(g, h, depth, false, moves, alpha0, beta0, minEval', bestMove', scores + [s])
  {
    MinStep(g, h, depth, moves, i, alpha0, beta0, beta, minEval, bestMove, s, beta', minEval', bestMove');
    AppendScore(false, alpha0, beta0, scores, s);
    ScoresStep(false, alpha0, beta0, scores, s, |moves|);
    if alpha0 < beta0 {
      ChildrenFailSoftStep(g, h, depth, false, alpha0, beta0, moves, scores, s);
    }
  }

  /** A maximizing node's loop that went through every move is done. */
  lemma MaxLoopDone(g: Rules, h: History, depth: nat, moves: seq<Move>, alpha0: int, beta0: int,
                    alpha: int, maxEval: int, bestMove: Option<Move>, scores: seq<int>)
    requires MaxLoop(g, h, depth, moves, alpha0, beta0, |moves|, alpha, maxEval, bestMove, scores)
    ensures NodeDone(g, h, depth, true, moves, alpha0, beta0, maxEval, bestMove, scores)
  {
    ScoresDone(true, alpha0, beta0, scores);
    assert moves[..|moves|] == moves;
  }

  /** A minimizing node's loop that went through every move is done. */
  lemma MinLoopDone(g: Rules, h: History, depth: nat, moves: seq<Move>, alpha0: int, beta0: int,
                    beta: int, minEval: int, bestMove: Option<Move>, scores: seq<int>)
    requires MinLoop(g, h, depth, moves, alpha0, beta0, |moves|, beta, minEval, bestMove, scores)
    ensures NodeDone(g, h, depth, false, moves, alpha0, beta0, minEval, bestMove, scores)
  {
    ScoresDone(false, alpha0, beta0, scores);
    assert moves[..|moves|] == moves;
  }
}
