/** Fixed-depth minimax with alpha-beta cutoffs over the legal moves.

    Every node enumerates its legal moves; a node at depth 0 or without a
    legal move is a leaf and is scored by the evaluation function. Otherwise
    the node visits its children in enumeration order, each on a copy of the
    board with the child's move written in, with the sides alternating. */
module Search {
  import opened Sudoku
  import opened LegalMoves

  datatype Option<T> = None | Some(value: T)

  /** An end of the search window: an integer or one of the infinities. */
  datatype Bound = NegInf | Fin(value: int) | PosInf

  /** The order of the extended integers: a <= x. */
  predicate Le(a: Bound, x: Bound) {
    match a
    case NegInf => true
    case Fin(p) => x.PosInf? || (x.Fin? && p <= x.value)
    case PosInf => x.PosInf?
  }

  /** The larger of two window ends: it is one of them and bounds both. */
  function MaxBound(a: Bound, x: Bound): (r: Bound)
    ensures Le(a, r) && Le(x, r)
    ensures r == a || r == x
  {
    if Le(a, x) then x else a
  }

  /** What a node reports to its parent: the move that led to it (None at the
      root when the root is a leaf) and its score. */
  datatype Outcome = Outcome(move: Option<Move>, score: int)

  /** One child visited by a node: the window it was searched with and what it reported. */
  datatype Visit = Visit(alpha: Bound, beta: Bound, outcome: Outcome)

  /** The state of a node's loop over its children: the best child so far
      (None is the initial sentinel scored -inf or +inf), the current window
      and the children visited so far, in order. */
  datatype Frame = Frame(best: Option<Outcome>, alpha: Bound, beta: Bound, visits: seq<Visit>)

  /** Score x is at least as good as y for the side to move. */
  predicate AtLeastAsGood(maximizing: bool, x: int, y: int) {
    if maximizing then x >= y else x <= y
  }

  /** The non-strict test by which a child replaces the running best; every
      score beats the sentinel. */
  predicate Replaces(maximizing: bool, score: int, best: Option<Outcome>) {
    best.None? || AtLeastAsGood(maximizing, score, best.value.score)
  }

  /** The loop body after a child reports `child`. A max node raises alpha to
      the child's score when it is at least alpha. A min node sets beta to the
      child's score whenever the child became the running best, whatever the
      current beta is. */
  function Step(f: Frame, maximizing: bool, child: Outcome): (g: Frame)
    ensures g.best.Some? && |g.visits| == |f.visits| + 1
    ensures g.visits[|f.visits|] == Visit(f.alpha, f.beta, child)
    ensures maximizing ==> g.beta == f.beta && Le(f.alpha, g.alpha) && Le(Fin(child.score), g.alpha)
    ensures maximizing ==> g.alpha == f.alpha || g.alpha == Fin(child.score)
    ensures !maximizing ==> g.alpha == f.alpha
  {
    var best := if Replaces(maximizing, child.score, f.best) then Some(child) else f.best;
    var visits := f.visits + [Visit(f.alpha, f.beta, child)];
    if maximizing then
      Frame(best, MaxBound(f.alpha, Fin(child.score)), f.beta, visits)
    else
      var beta := if Replaces(false, child.score, best) then Fin(child.score) else f.beta;
      Frame(best, f.alpha, beta, visits)
  }

  /** The children of a node still to be visited are `rest`; each is searched
      on a copy of `b` holding its move, one level shallower, for the other
      side, with the current window. The loop stops once beta <= alpha. */
  function Explore(eval: Board -> int, b: Board, taboo: set<Move>, depth: nat, maximizing: bool,
                   rest: seq<Move>, f: Frame): (g: Frame)
    requires b.WellFormed() && 0 < depth
    requires forall mv :: mv in rest ==> IsLegal(b, taboo, mv)
    ensures f.best.Some? || |rest| > 0 ==> g.best.Some?
    ensures g.best.Some? && g.best != f.best ==> g.best.value.move.Some? && g.best.value.move.value in rest
    decreases depth, 0, |rest|
  {
    if |rest| == 0 then f
    else
      var mv := rest[0];
      assert mv in rest && IsLegal(b, taboo, mv);
      assert b.InRange(mv.i, mv.j);
      var child := AlphaBeta(eval, b.Put(mv.i, mv.j, mv.value), taboo, depth - 1,
                             f.alpha, f.beta, !maximizing, Some(mv));
      var g := Step(f, maximizing, child);
      if Le(g.beta, g.alpha) then g
      else Explore(eval, b, taboo, depth, maximizing, rest[1..], g)
  }

  /** The search of one node. `played` is the move that led to the node (None
      at the root); a non-root node reports that move with its score, the
      root reports its best child's outcome. */
  function AlphaBeta(eval: Board -> int, b: Board, taboo: set<Move>, depth: nat,
                     alpha: Bound, beta: Bound, maximizing: bool, played: Option<Move>): (r: Outcome)
    requires b.WellFormed()
    ensures played.Some? ==> r.move == played
    ensures played.None? ==> (r.move.Some? <==> depth > 0 && Enumerate(b, taboo) != [])
    ensures played.None? && r.move.Some? ==> r.move.value in Enumerate(b, taboo)
    decreases depth, 1, 0
  {
    var moves := Enumerate(b, taboo);
    if depth == 0 || |moves| == 0 then Outcome(played, eval(b))
    else
      var f := Explore(eval, b, taboo, depth, maximizing, moves, Frame(None, alpha, beta, []));
      if played.Some? then Outcome(played, f.best.value.score) else f.best.value
  }

  /** The depth of the search started for every turn. */
  const SearchDepth: nat := 5

  /** The move proposed for a turn: the root of a depth-5 search for the
      maximizing side with the window (-inf, +inf). It is None exactly when no
      legal move exists, and otherwise a legal, non-taboo move. */
  function BestMove(eval: Board -> int, b: Board, taboo: set<Move>): (r: Option<Move>)
    requires b.WellFormed()
    ensures r.Some? <==> Enumerate(b, taboo) != []
    ensures r.Some? ==> IsLegal(b, taboo, r.value) && r.value !in taboo
  {
    AlphaBeta(eval, b, taboo, SearchDepth, NegInf, PosInf, true, None).move
  }
}
