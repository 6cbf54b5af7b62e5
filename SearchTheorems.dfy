/**
 * What the pruned search computes, compared with the search without pruning:
 * fail-soft bounds for every window, the exact value inside the window, the
 * same score and move at the root, and which move each search selects.
 */
module SearchTheorems {
  import opened Wrappers
  import opened Chess
  import opened Search

  /*
   * Fail-soft bounds
   */

  /**
   * `r` is a fail-soft answer for the window (`alpha`, `beta`) when the true
   * value is `v`: exact inside the window, an upper bound of `v` no higher
   * than `alpha` below it, a lower bound of `v` no lower than `beta` above it.
   */
  predicate FailSoft(alpha: Score, beta: Score, v: Score, r: Score)
  {
    && (Le(v, alpha) ==> Le(v, r) && Le(r, alpha))
    && (Less(alpha, v) && Less(v, beta) ==> r == v)
    && (Le(beta, v) ==> Le(beta, r) && Le(r, v))
  }

  /** Negating both values turns a fail-soft answer for the negated window into one for the window. */
  lemma FailSoftNeg(alpha: Score, beta: Score, w: Score, r: Score)
    requires FailSoft(Neg(beta), Neg(alpha), w, r)
    ensures FailSoft(alpha, beta, Neg(w), Neg(r))
  {
    NegReverses(w, Neg(beta));
    NegReverses(Neg(alpha), w);
    NegReverses(w, r);
    NegReverses(r, w);
    NegReverses(r, Neg(alpha));
    NegReverses(Neg(beta), r);
    NegReverses(alpha, alpha);
    NegReverses(beta, beta);
  }

  /** A move that does not raise alpha to beta keeps the loop's answer fail-soft. */
  lemma FailSoftStep(a0: Score, alpha: Score, beta: Score, bA: Score, bP: Score, u: Score, v: Score)
    requires alpha == Max(a0, bA) && Less(alpha, beta)
    requires FailSoft(a0, beta, bP, bA) && FailSoft(alpha, beta, u, v)
    requires Less(Max(alpha, v), beta)
    ensures FailSoft(a0, beta, Max(bP, u), Max(bA, v))
    ensures Max(alpha, v) == Max(a0, Max(bA, v))
  {
  }

  /** A move that raises alpha to beta ends the loop with an answer that is fail-soft for every later true value. */
  lemma FailSoftCut(a0: Score, alpha: Score, beta: Score, bA: Score, bP: Score, u: Score, v: Score, rest: Score)
    requires alpha == Max(a0, bA) && Less(alpha, beta)
    requires FailSoft(a0, beta, bP, bA) && FailSoft(alpha, beta, u, v)
    requires Le(beta, Max(alpha, v)) && Le(Max(bP, u), rest)
    ensures FailSoft(a0, beta, rest, Max(bA, v))
  {
  }

  /**
   * Fail-soft correctness of the pruned search: for `alpha < beta`, its score
   * is a fail-soft answer for the value of the unpruned search.
   */
  lemma {:induction false} AlphaBetaBounds<P, M>(rules: Rules<P, M>, eval: seq<int> -> int, p: P,
                                                 alpha: Score, beta: Score, depth: nat)
    requires Less(alpha, beta)
    ensures FailSoft(alpha, beta, PlainNegamax(rules, eval, p, depth).0, AlphaBeta(rules, eval, p, alpha, beta, depth).0)
    decreases depth, 1
  {
    if !IsLeaf(rules, p, depth) {
      AlphaBetaLoopBounds(rules, eval, p, depth, 0, alpha, alpha, beta, NegInf, None, NegInf, None);
    }
  }

  /**
   * The loop invariant behind `AlphaBetaBounds`: with alpha raised from `a0`
   * by the pruned best `bA` so far, and `bA` fail-soft for the unpruned best
   * `bP` so far, the rest of the loop keeps the answer fail-soft.
   */
  lemma {:induction false} AlphaBetaLoopBounds<P, M>(rules: Rules<P, M>, eval: seq<int> -> int, p: P, depth: nat, i: nat,
                                                     a0: Score, alpha: Score, beta: Score,
                                                     bA: Score, mA: Option<M>, bP: Score, mP: Option<M>)
    requires 0 < depth && i <= |rules.legalMoves(p)|
    requires alpha == Max(a0, bA) && Less(alpha, beta)
    requires FailSoft(a0, beta, bP, bA)
    ensures FailSoft(a0, beta, PlainLoop(rules, eval, p, depth, i, bP, mP).0,
                     AlphaBetaLoop(rules, eval, p, depth, i, alpha, beta, bA, mA).0)
    decreases depth, 0, |rules.legalMoves(p)| - i
  {
    var moves := rules.legalMoves(p);
    if i < |moves| {
      var child := rules.push(p, moves[i]);
      NegReverses(alpha, beta);
      NegReverses(beta, alpha);
      AlphaBetaBounds(rules, eval, child, Neg(beta), Neg(alpha), depth - 1);
      var w := PlainNegamax(rules, eval, child, depth - 1).0;
      var r := AlphaBeta(rules, eval, child, Neg(beta), Neg(alpha), depth - 1).0;
      FailSoftNeg(alpha, beta, w, r);
      var u, v := Neg(w), Neg(r);
      assert v == MoveValue(rules, eval, p, depth, i, alpha, beta);
      assert u == PlainMoveValue(rules, eval, p, depth, moves[i]);
      var mA' := if Less(bA, v) then Some(moves[i]) else mA;
      var mP' := if Less(bP, u) then Some(moves[i]) else mP;
      if Le(beta, Max(alpha, v)) {
        FailSoftCut(a0, alpha, beta, bA, bP, u, v, PlainLoop(rules, eval, p, depth, i + 1, Max(bP, u), mP').0);
      } else {
        FailSoftStep(a0, alpha, beta, bA, bP, u, v);
        AlphaBetaLoopBounds(rules, eval, p, depth, i + 1, a0, Max(alpha, v), beta, Max(bA, v), mA', Max(bP, u), mP');
      }
    }
  }

  /**
   * The fail-soft bounds read from the returned score: a score strictly
   * inside the window is the true value, one at or below alpha bounds the
   * true value from above, one at or above beta bounds it from below; and a
   * true value strictly inside the window is returned exactly.
   */
  lemma FailSoftResult<P, M>(rules: Rules<P, M>, eval: seq<int> -> int, p: P, alpha: Score, beta: Score, depth: nat)
    requires Less(alpha, beta)
    ensures var v, r := PlainNegamax(rules, eval, p, depth).0, AlphaBeta(rules, eval, p, alpha, beta, depth).0;
      && (Less(alpha, r) && Less(r, beta) ==> r == v)
      && (Le(r, alpha) ==> Le(v, r))
      && (Le(beta, r) ==> Le(r, v))
      && (Less(alpha, v) && Less(v, beta) ==> r == v)
  {
    AlphaBetaBounds(rules, eval, p, alpha, beta, depth);
  }

  /**
   * A move whose unpruned value lies strictly inside the window gets exactly
   * that value from the pruned search of the child with (-beta, -alpha).
   */
  lemma MoveValueExact<P, M>(rules: Rules<P, M>, eval: seq<int> -> int, p: P, depth: nat, i: nat, alpha: Score, beta: Score)
    requires 0 < depth && i < |rules.legalMoves(p)| && Less(alpha, beta)
    ensures var u := PlainMoveValue(rules, eval, p, depth, rules.legalMoves(p)[i]);
      Less(alpha, u) && Less(u, beta) ==> MoveValue(rules, eval, p, depth, i, alpha, beta) == u
  {
    var child := rules.push(p, rules.legalMoves(p)[i]);
    NegReverses(alpha, beta);
    AlphaBetaBounds(rules, eval, child, Neg(beta), Neg(alpha), depth - 1);
    FailSoftNeg(alpha, beta, PlainNegamax(rules, eval, child, depth - 1).0,
                AlphaBeta(rules, eval, child, Neg(beta), Neg(alpha), depth - 1).0);
  }

  /*
   * The root call
   */

  /** Once the best score is +inf no later move can replace it. */
  lemma {:induction false} PlainLoopSaturated<P, M>(rules: Rules<P, M>, eval: seq<int> -> int, p: P, depth: nat, i: nat,
                                                    bestMove: Option<M>)
    requires 0 < depth && i <= |rules.legalMoves(p)|
    ensures PlainLoop(rules, eval, p, depth, i, PosInf, bestMove) == (PosInf, bestMove)
    decreases |rules.legalMoves(p)| - i
  {
    if i < |rules.legalMoves(p)| {
      PlainLoopSaturated(rules, eval, p, depth, i + 1, bestMove);
    }
  }

  /**
   * The root loop, with beta = +inf and alpha equal to the best score so far,
   * examines the same moves and makes the same choices as the unpruned loop.
   */
  lemma {:induction false} RootLoopAgrees<P, M>(rules: Rules<P, M>, eval: seq<int> -> int, p: P, depth: nat, i: nat,
                                                best: Score, bestMove: Option<M>)
    requires 0 < depth && i <= |rules.legalMoves(p)|
    requires best != PosInf
    ensures AlphaBetaLoop(rules, eval, p, depth, i, best, PosInf, best, bestMove)
         == PlainLoop(rules, eval, p, depth, i, best, bestMove)
    decreases |rules.legalMoves(p)| - i
  {
    var moves := rules.legalMoves(p);
    if i < |moves| {
      var child := rules.push(p, moves[i]);
      assert Less(NegInf, Neg(best));
      AlphaBetaBounds(rules, eval, child, NegInf, Neg(best), depth - 1);
      var w := PlainNegamax(rules, eval, child, depth - 1).0;
      var r := AlphaBeta(rules, eval, child, NegInf, Neg(best), depth - 1).0;
      FailSoftNeg(best, PosInf, w, r);
      var u, v := Neg(w), Neg(r);
      assert v == MoveValue(rules, eval, p, depth, i, best, PosInf);
      assert u == PlainMoveValue(rules, eval, p, depth, moves[i]);
      if Le(u, best) {
        RootLoopAgrees(rules, eval, p, depth, i + 1, best, bestMove);
      } else if u == PosInf {
        PlainLoopSaturated(rules, eval, p, depth, i + 1, Some(moves[i]));
      } else {
        RootLoopAgrees(rules, eval, p, depth, i + 1, u, Some(moves[i]));
      }
    }
  }

  /**
   * The root call `negamax(board, -inf, inf, model, depth)` returns the same
   * score and the same move as the search without pruning.
   */
  lemma PruningPreservesRootResult<P, M>(rules: Rules<P, M>, eval: seq<int> -> int, p: P, depth: nat)
    ensures AlphaBeta(rules, eval, p, NegInf, PosInf, depth) == PlainNegamax(rules, eval, p, depth)
  {
    if !IsLeaf(rules, p, depth) {
      RootLoopAgrees(rules, eval, p, depth, 0, NegInf, None);
    }
  }

  /*
   * Which moves are examined, and which one is chosen
   */

  /** One examined move: the alpha it was searched with and the value it got. */
  datatype Step = Step(alpha: Score, value: Score)

  /**
   * The moves the loop examines from move `i` on, in order: it stops after
   * the first move that raises alpha to beta or more.
   */
  function Examined<P, M>(rules: Rules<P, M>, eval: seq<int> -> int, p: P, depth: nat, i: nat, alpha: Score, beta: Score)
    : (steps: seq<Step>)
    requires 0 < depth && i <= |rules.legalMoves(p)|
    ensures |steps| <= |rules.legalMoves(p)| - i
    ensures i < |rules.legalMoves(p)| ==> |steps| > 0
    decreases |rules.legalMoves(p)| - i
  {
    if i == |rules.legalMoves(p)| then []
    else
      var v := MoveValue(rules, eval, p, depth, i, alpha, beta);
      if Le(beta, Max(alpha, v)) then [Step(alpha, v)]
      else [Step(alpha, v)] + Examined(rules, eval, p, depth, i + 1, Max(alpha, v), beta)
  }

  /**
   * The first examined move is searched with the initial alpha and each
   * later one with alpha raised by the previous value, always still below
   * beta.
   */
  lemma {:induction false} ExaminedWindows<P, M>(rules: Rules<P, M>, eval: seq<int> -> int, p: P, depth: nat, i: nat,
                                                 alpha: Score, beta: Score)
    requires 0 < depth && i <= |rules.legalMoves(p)|
    ensures var steps := Examined(rules, eval, p, depth, i, alpha, beta);
      && (|steps| > 0 ==> steps[0].alpha == alpha)
      && (forall k :: 0 <= k < |steps| ==>
            steps[k].value == MoveValue(rules, eval, p, depth, i + k, steps[k].alpha, beta))
      && (forall k :: 0 < k < |steps| ==>
            steps[k].alpha == Max(steps[k - 1].alpha, steps[k - 1].value) && Less(steps[k].alpha, beta))
    decreases |rules.legalMoves(p)| - i
  {
    var moves := rules.legalMoves(p);
    if i < |moves| {
      var v := MoveValue(rules, eval, p, depth, i, alpha, beta);
      if !Le(beta, Max(alpha, v)) {
        var rest := Examined(rules, eval, p, depth, i + 1, Max(alpha, v), beta);
        ExaminedWindows(rules, eval, p, depth, i + 1, Max(alpha, v), beta);
        var steps := [Step(alpha, v)] + rest;
        assert steps == Examined(rules, eval, p, depth, i, alpha, beta);
        assert forall k :: 0 < k < |steps| ==> steps[k] == rest[k - 1];
        if |rest| > 0 {
          assert rest[0].alpha == Max(steps[0].alpha, steps[0].value);
        }
      }
    }
  }

  /**
   * The loop stops before the last legal move only after a move whose value
   * raised alpha to beta or more.
   */
  lemma {:induction false} ExaminedStopsAtCutoff<P, M>(rules: Rules<P, M>, eval: seq<int> -> int, p: P, depth: nat, i: nat,
                                                       alpha: Score, beta: Score)
    requires 0 < depth && i <= |rules.legalMoves(p)|
    ensures var steps := Examined(rules, eval, p, depth, i, alpha, beta);
      0 < |steps| && i + |steps| < |rules.legalMoves(p)| ==>
        Le(beta, Max(steps[|steps| - 1].alpha, steps[|steps| - 1].value))
    decreases |rules.legalMoves(p)| - i
  {
    var moves := rules.legalMoves(p);
    if i < |moves| {
      var v := MoveValue(rules, eval, p, depth, i, alpha, beta);
      if !Le(beta, Max(alpha, v)) {
        var rest := Examined(rules, eval, p, depth, i + 1, Max(alpha, v), beta);
        ExaminedStopsAtCutoff(rules, eval, p, depth, i + 1, Max(alpha, v), beta);
        var steps := [Step(alpha, v)] + rest;
        assert steps == Examined(rules, eval, p, depth, i, alpha, beta);
        if i + |steps| < |moves| {
          assert steps[|steps| - 1] == rest[|rest| - 1];
        }
      }
    }
  }

  /** The values of `steps`, in order. */
  function Values(steps: seq<Step>): (vs: seq<Score>)
    ensures |vs| == |steps| && forall k :: 0 <= k < |steps| ==> vs[k] == steps[k].value
  {
    seq(|steps|, k requires 0 <= k < |steps| => steps[k].value)
  }

  /**
   * The selection rule of the loop on its own: scanning values `vs` of moves
   * `ms` in order, a move replaces the best so far only when strictly better.
   */
  function FirstBest<M>(best: Score, bestMove: Option<M>, vs: seq<Score>, ms: seq<M>): (Score, Option<M>)
    requires |vs| <= |ms|
    decreases |vs|
  {
    if vs == [] then (best, bestMove)
    else if Less(best, vs[0]) then FirstBest(vs[0], Some(ms[0]), vs[1..], ms[1..])
    else FirstBest(best, bestMove, vs[1..], ms[1..])
  }

  /**
   * The scan returns a maximum: its score is at least the starting best and
   * every value; either no value beat the starting best and nothing changed,
   * or the chosen move is the first one whose value is the score and that
   * value beats the starting best and every value before it.
   */
  lemma {:induction false} FirstBestIsFirstMaximum<M>(best: Score, bestMove: Option<M>, vs: seq<Score>, ms: seq<M>)
    requires |vs| <= |ms|
    ensures var r := FirstBest(best, bestMove, vs, ms);
      && Le(best, r.0)
      && (forall k :: 0 <= k < |vs| ==> Le(vs[k], r.0))
      && ((r == (best, bestMove) && forall k :: 0 <= k < |vs| ==> Le(vs[k], best))
          || exists k :: 0 <= k < |vs| && r == (vs[k], Some(ms[k])) && Less(best, vs[k])
                         && forall j :: 0 <= j < k ==> Less(vs[j], vs[k]))
    decreases |vs|
  {
    if vs != [] {
      var v := vs[0];
      var best' := if Less(best, v) then v else best;
      var bestMove' := if Less(best, v) then Some(ms[0]) else bestMove;
      FirstBestIsFirstMaximum(best', bestMove', vs[1..], ms[1..]);
      var r := FirstBest(best, bestMove, vs, ms);
      assert r == FirstBest(best', bestMove', vs[1..], ms[1..]);
      assert forall k :: 0 < k < |vs| ==> vs[k] == vs[1..][k - 1];
      LeTotalOrder(best, v, r.0);
      if r == (best', bestMove') && forall k :: 0 <= k < |vs[1..]| ==> Le(vs[1..][k], best') {
        if Less(best, v) {
          assert r == (vs[0], Some(ms[0]));
        }
      } else {
        var k :| 0 <= k < |vs[1..]| && r == (vs[1..][k], Some(ms[1..][k])) && Less(best', vs[1..][k])
                 && forall j :: 0 <= j < k ==> Less(vs[1..][j], vs[1..][k]);
        LeTotalOrder(best, best', vs[k + 1]);
        LeTotalOrder(v, best', vs[k + 1]);
        assert r == (vs[k + 1], Some(ms[k + 1]));
        assert forall j :: 0 <= j < k + 1 ==> Less(vs[j], vs[k + 1]);
      }
    }
  }

  /** The pruned loop selects by `FirstBest` over the values of the moves it examines. */
  lemma {:induction false} AlphaBetaLoopIsFirstBest<P, M>(rules: Rules<P, M>, eval: seq<int> -> int, p: P, depth: nat, i: nat,
                                                          alpha: Score, beta: Score, best: Score, bestMove: Option<M>)
    requires 0 < depth && i <= |rules.legalMoves(p)|
    ensures AlphaBetaLoop(rules, eval, p, depth, i, alpha, beta, best, bestMove)
         == FirstBest(best, bestMove, Values(Examined(rules, eval, p, depth, i, alpha, beta)), rules.legalMoves(p)[i..])
    decreases |rules.legalMoves(p)| - i
  {
    var moves := rules.legalMoves(p);
    if i < |moves| {
      var v := MoveValue(rules, eval, p, depth, i, alpha, beta);
      var best' := if Less(best, v) then v else best;
      var bestMove' := if Less(best, v) then Some(moves[i]) else bestMove;
      var vs := Values(Examined(rules, eval, p, depth, i, alpha, beta));
      assert moves[i..][0] == moves[i] && moves[i..][1..] == moves[i + 1..];
      if Le(beta, Max(alpha, v)) {
        assert vs[1..] == [];
      } else {
        AlphaBetaLoopIsFirstBest(rules, eval, p, depth, i + 1, Max(alpha, v), beta, best', bestMove');
        assert vs[1..] == Values(Examined(rules, eval, p, depth, i + 1, Max(alpha, v), beta));
      }
    }
  }

  /**
   * At an interior node the search returns the first examined move of the
   * highest value: every examined value is at most the score; with no move
   * the score is -inf and every examined value is -inf; with a move, it is
   * the legal move examined at some position k, its value is the score, and
   * every move examined before it has a strictly lower value.
   */
  lemma AlphaBetaSelects<P, M>(rules: Rules<P, M>, eval: seq<int> -> int, p: P, alpha: Score, beta: Score, depth: nat)
    requires !IsLeaf(rules, p, depth)
    ensures var r := AlphaBeta(rules, eval, p, alpha, beta, depth);
            var steps := Examined(rules, eval, p, depth, 0, alpha, beta);
            var moves := rules.legalMoves(p);
      && (forall k :: 0 <= k < |steps| ==> Le(steps[k].value, r.0))
      && (r.1.None? ==> r.0 == NegInf && forall k :: 0 <= k < |steps| ==> steps[k].value == NegInf)
      && (r.1.Some? ==> exists k :: 0 <= k < |steps| && r.1.value == moves[k] && r.0 == steps[k].value
                                    && forall j :: 0 <= j < k ==> Less(steps[j].value, steps[k].value))
  {
    var moves := rules.legalMoves(p);
    AlphaBetaLoopIsFirstBest(rules, eval, p, depth, 0, alpha, beta, NegInf, None);
    assert moves[0..] == moves;
    FirstBestIsFirstMaximum(NegInf, None, Values(Examined(rules, eval, p, depth, 0, alpha, beta)), moves);
  }

  /** The values of the legal moves from move `i` on, each searched in full. */
  function PlainValues<P, M>(rules: Rules<P, M>, eval: seq<int> -> int, p: P, depth: nat, i: nat): (vs: seq<Score>)
    requires 0 < depth && i <= |rules.legalMoves(p)|
    ensures |vs| == |rules.legalMoves(p)| - i
    ensures forall k :: 0 <= k < |vs| ==> vs[k] == PlainMoveValue(rules, eval, p, depth, rules.legalMoves(p)[i + k])
  {
    var moves := rules.legalMoves(p);
    seq(|moves| - i, k requires 0 <= k < |moves| - i => PlainMoveValue(rules, eval, p, depth, moves[i + k]))
  }

  /** The unpruned loop selects by `FirstBest` over the values of all remaining moves. */
  lemma {:induction false} PlainLoopIsFirstBest<P, M>(rules: Rules<P, M>, eval: seq<int> -> int, p: P, depth: nat, i: nat,
                                                      best: Score, bestMove: Option<M>)
    requires 0 < depth && i <= |rules.legalMoves(p)|
    ensures PlainLoop(rules, eval, p, depth, i, best, bestMove)
         == FirstBest(best, bestMove, PlainValues(rules, eval, p, depth, i), rules.legalMoves(p)[i..])
    decreases |rules.legalMoves(p)| - i
  {
    var moves := rules.legalMoves(p);
    if i < |moves| {
      var v := PlainMoveValue(rules, eval, p, depth, moves[i]);
      var best' := if Less(best, v) then v else best;
      var bestMove' := if Less(best, v) then Some(moves[i]) else bestMove;
      PlainLoopIsFirstBest(rules, eval, p, depth, i + 1, best', bestMove');
      assert moves[i..][0] == moves[i] && moves[i..][1..] == moves[i + 1..];
      assert PlainValues(rules, eval, p, depth, i)[1..] == PlainValues(rules, eval, p, depth, i + 1);
    }
  }

  /**
   * Without pruning, an interior node's score is the maximum of the values of
   * all legal moves (-inf when there are none), and the chosen move is the
   * first legal move of that value (none when every value is -inf).
   */
  lemma PlainNegamaxSelects<P, M>(rules: Rules<P, M>, eval: seq<int> -> int, p: P, depth: nat)
    requires !IsLeaf(rules, p, depth)
    ensures var r := PlainNegamax(rules, eval, p, depth);
            var vs := PlainValues(rules, eval, p, depth, 0);
            var moves := rules.legalMoves(p);
      && (forall k :: 0 <= k < |moves| ==> Le(vs[k], r.0))
      && (r.1.None? ==> r.0 == NegInf && forall k :: 0 <= k < |moves| ==> vs[k] == NegInf)
      && (r.1.Some? ==> exists k :: 0 <= k < |moves| && r.1.value == moves[k] && r.0 == vs[k]
                                    && forall j :: 0 <= j < k ==> Less(vs[j], vs[k]))
  {
    var moves := rules.legalMoves(p);
    PlainLoopIsFirstBest(rules, eval, p, depth, 0, NegInf, None);
    assert moves[0..] == moves;
    FirstBestIsFirstMaximum(NegInf, None, PlainValues(rules, eval, p, depth, 0), moves);
  }
}
