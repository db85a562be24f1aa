/** What the alpha-beta search guarantees: leaves are scored directly, a node
    scores as the best of the children it visited with later equal children
    winning, each child is searched on its own copy of the board, alpha only
    rises in a max node and ends at the larger of the node's alpha and its
    best score, in a min node beta is the running minimum, and the loop stops
    exactly at a cutoff. */
module SearchProperties {
  import opened Sudoku
  import opened LegalMoves
  import opened Search

  /** Visit t has the best score among `vs` and every later visit scores strictly worse. */
  predicate LastBest(vs: seq<Visit>, t: nat, maximizing: bool)
    requires t < |vs|
  {
    && (forall u :: 0 <= u < |vs| ==> AtLeastAsGood(maximizing, vs[t].outcome.score, vs[u].outcome.score))
    && (forall u :: t < u < |vs| ==> !AtLeastAsGood(maximizing, vs[u].outcome.score, vs[t].outcome.score))
  }

  /** The running best is the sentinel before any child, and afterwards the
      outcome of the last best-scoring child visited. */
  predicate BestOfVisits(f: Frame, maximizing: bool) {
    if |f.visits| == 0 then f.best.None?
    else
      && f.best.Some?
      && exists t :: 0 <= t < |f.visits| && f.best.value == f.visits[t].outcome && LastBest(f.visits, t, maximizing)
  }

  /** The window is open: beta > alpha, so no cutoff is due. */
  predicate Open(alpha: Bound, beta: Bound) {
    !Le(beta, alpha)
  }

  /** The windows a node's loop went through. Every child after the first was
      started with an open window. In a max node beta stays put, alpha never
      decreases and ends at least as high as every visited score. In a min node
      alpha stays put and, once a child has reported, beta is the running
      minimum, whatever beta the node was given. Once a child has reported,
      a max node's alpha is the larger of the alpha it was given and the best
      score so far. */
  predicate WindowTrace(f: Frame, maximizing: bool) {
    var vs := f.visits;
    && (forall t :: 0 < t < |vs| ==> Open(vs[t].alpha, vs[t].beta))
    && (maximizing ==>
          && (forall t :: 0 <= t < |vs| ==> vs[t].beta == f.beta)
          && (forall t :: 0 <= t < |vs| - 1 ==> Le(vs[t].alpha, vs[t + 1].alpha))
          && (|vs| > 0 ==> Le(vs[|vs| - 1].alpha, f.alpha))
          && (forall t :: 0 <= t < |vs| ==> Le(Fin(vs[t].outcome.score), f.alpha))
          && (|vs| > 0 ==> f.best.Some? && f.alpha == MaxBound(vs[0].alpha, Fin(f.best.value.score))))
    && (!maximizing ==>
          && (forall t :: 0 <= t < |vs| ==> vs[t].alpha == f.alpha)
          && (|vs| > 0 ==> f.best.Some? && f.beta == Fin(f.best.value.score)))
  }

  /** The frame a node's loop starts from. */
  function Initial(alpha: Bound, beta: Bound): (f: Frame)
    ensures BestOfVisits(f, true) && BestOfVisits(f, false)
    ensures WindowTrace(f, true) && WindowTrace(f, false)
  {
    Frame(None, alpha, beta, [])
  }

  /** A leaf, at depth 0 or without a legal move, reports the move that led to
      it and the evaluation of its board, without searching further. */
  lemma TerminalNode(eval: Board -> int, b: Board, taboo: set<Move>, depth: nat,
                     alpha: Bound, beta: Bound, maximizing: bool, played: Option<Move>)
    requires b.WellFormed()
    requires depth == 0 || Enumerate(b, taboo) == []
    ensures AlphaBeta(eval, b, taboo, depth, alpha, beta, maximizing, played) == Outcome(played, eval(b))
  {
  }

  /** One loop iteration keeps the running best equal to the last best child. */
  lemma StepKeepsBest(f: Frame, maximizing: bool, child: Outcome)
    requires BestOfVisits(f, maximizing)
    ensures BestOfVisits(Step(f, maximizing, child), maximizing)
  {
    var g := Step(f, maximizing, child);
    var n := |f.visits|;
    assert forall u :: 0 <= u < n ==> g.visits[u] == f.visits[u];
    if Replaces(maximizing, child.score, f.best) {
      if n > 0 {
        var t :| 0 <= t < n && f.best.value == f.visits[t].outcome && LastBest(f.visits, t, maximizing);
        assert forall u :: 0 <= u < n ==> AtLeastAsGood(maximizing, child.score, g.visits[u].outcome.score);
      }
      assert LastBest(g.visits, n, maximizing);
    } else {
      var t :| 0 <= t < n && f.best.value == f.visits[t].outcome && LastBest(f.visits, t, maximizing);
      assert LastBest(g.visits, t, maximizing);
    }
  }

  /** One loop iteration keeps the window trace, provided the window it starts
      from is open whenever a child was already visited. */
  lemma StepKeepsWindows(f: Frame, maximizing: bool, child: Outcome)
    requires BestOfVisits(f, maximizing) && WindowTrace(f, maximizing)
    requires |f.visits| > 0 ==> Open(f.alpha, f.beta)
    ensures WindowTrace(Step(f, maximizing, child), maximizing)
  {
  }

  /** Visiting the remaining children keeps the running best equal to the
      last best child. */
  lemma {:induction false} ExploreKeepsBest(eval: Board -> int, b: Board, taboo: set<Move>, depth: nat,
                                            maximizing: bool, rest: seq<Move>, f: Frame)
    requires b.WellFormed() && 0 < depth
    requires forall mv :: mv in rest ==> IsLegal(b, taboo, mv)
    requires BestOfVisits(f, maximizing)
    ensures BestOfVisits(Explore(eval, b, taboo, depth, maximizing, rest, f), maximizing)
    decreases |rest|
  {
    if |rest| > 0 {
      var mv := rest[0];
      assert mv in rest;
      var child := AlphaBeta(eval, b.Put(mv.i, mv.j, mv.value), taboo, depth - 1,
                             f.alpha, f.beta, !maximizing, Some(mv));
      var g := Step(f, maximizing, child);
      StepKeepsBest(f, maximizing, child);
      if !Le(g.beta, g.alpha) {
        ExploreKeepsBest(eval, b, taboo, depth, maximizing, rest[1..], g);
      }
    }
  }

  /** Visiting the remaining children adds at most one visit per move and at
      least one when a move remains, the first of them with the current window;
      the loop ends before the last move only when beta <= alpha. */
  lemma {:induction false} ExploreStops(eval: Board -> int, b: Board, taboo: set<Move>, depth: nat,
                                        maximizing: bool, rest: seq<Move>, f: Frame)
    requires b.WellFormed() && 0 < depth
    requires forall mv :: mv in rest ==> IsLegal(b, taboo, mv)
    ensures var g := Explore(eval, b, taboo, depth, maximizing, rest, f);
      && |f.visits| <= |g.visits| <= |f.visits| + |rest|
      && (|rest| > 0 ==> |g.visits| > |f.visits| && g.visits[|f.visits|].alpha == f.alpha
                                               && g.visits[|f.visits|].beta == f.beta)
      && (|g.visits| < |f.visits| + |rest| ==> Le(g.beta, g.alpha))
    decreases |rest|
  {
    if |rest| > 0 {
      var mv := rest[0];
      assert mv in rest;
      var child := AlphaBeta(eval, b.Put(mv.i, mv.j, mv.value), taboo, depth - 1,
                             f.alpha, f.beta, !maximizing, Some(mv));
      var g := Step(f, maximizing, child);
      if !Le(g.beta, g.alpha) {
        ExploreStops(eval, b, taboo, depth, maximizing, rest[1..], g);
        ExploreKeepsPrefix(eval, b, taboo, depth, maximizing, rest[1..], g);
        var h := Explore(eval, b, taboo, depth, maximizing, rest[1..], g);
        assert h.visits[|f.visits|] == h.visits[..|g.visits|][|f.visits|];
      }
    }
  }

  /** Visiting the remaining children keeps the window trace, provided the
      current window is open once a child was visited. */
  lemma {:induction false} ExploreWindows(eval: Board -> int, b: Board, taboo: set<Move>, depth: nat,
                                          maximizing: bool, rest: seq<Move>, f: Frame)
    requires b.WellFormed() && 0 < depth
    requires forall mv :: mv in rest ==> IsLegal(b, taboo, mv)
    requires BestOfVisits(f, maximizing) && WindowTrace(f, maximizing)
    requires |f.visits| > 0 ==> Open(f.alpha, f.beta)
    ensures WindowTrace(Explore(eval, b, taboo, depth, maximizing, rest, f), maximizing)
    decreases |rest|
  {
    if |rest| > 0 {
      var mv := rest[0];
      assert mv in rest;
      var child := AlphaBeta(eval, b.Put(mv.i, mv.j, mv.value), taboo, depth - 1,
                             f.alpha, f.beta, !maximizing, Some(mv));
      var g := Step(f, maximizing, child);
      StepKeepsBest(f, maximizing, child);
      StepKeepsWindows(f, maximizing, child);
      if !Le(g.beta, g.alpha) {
        ExploreWindows(eval, b, taboo, depth, maximizing, rest[1..], g);
      }
    }
  }

  /** Visit `v` is the search of the board `b` with only move `mv` written
      in, one level shallower, for the other side, with the window recorded in
      `v`, and it reports `mv` as its move. */
  predicate ChildOf(eval: Board -> int, b: Board, taboo: set<Move>, depth: nat, maximizing: bool,
                    mv: Move, v: Visit)
    requires b.WellFormed() && 0 < depth
  {
    && b.InRange(mv.i, mv.j)
    && v.outcome.move == Some(mv)
    && v.outcome == AlphaBeta(eval, b.Put(mv.i, mv.j, mv.value), taboo, depth - 1,
                              v.alpha, v.beta, !maximizing, Some(mv))
  }

  /** Every visited child is the search of the parent's board with only that
      child's move written in (a fresh copy per child), and children are
      visited in the order of the remaining moves. */
  lemma {:induction false} ExploreVisitsChildren(eval: Board -> int, b: Board, taboo: set<Move>, depth: nat,
                                                 maximizing: bool, rest: seq<Move>, f: Frame)
    requires b.WellFormed() && 0 < depth
    requires forall mv :: mv in rest ==> IsLegal(b, taboo, mv)
    ensures var g := Explore(eval, b, taboo, depth, maximizing, rest, f);
      && |f.visits| <= |g.visits| <= |f.visits| + |rest|
      && forall t :: |f.visits| <= t < |g.visits| ==>
           ChildOf(eval, b, taboo, depth, maximizing, rest[t - |f.visits|], g.visits[t])
    decreases |rest|
  {
    if |rest| > 0 {
      var mv := rest[0];
      assert mv in rest;
      var child := AlphaBeta(eval, b.Put(mv.i, mv.j, mv.value), taboo, depth - 1,
                             f.alpha, f.beta, !maximizing, Some(mv));
      var g := Step(f, maximizing, child);
      assert ChildOf(eval, b, taboo, depth, maximizing, mv, g.visits[|f.visits|]);
      if !Le(g.beta, g.alpha) {
        ExploreVisitsChildren(eval, b, taboo, depth, maximizing, rest[1..], g);
        ExploreKeepsPrefix(eval, b, taboo, depth, maximizing, rest[1..], g);
        var h := Explore(eval, b, taboo, depth, maximizing, rest[1..], g);
        forall t | |f.visits| <= t < |h.visits|
          ensures ChildOf(eval, b, taboo, depth, maximizing, rest[t - |f.visits|], h.visits[t])
        {
          if t == |f.visits| {
            assert h.visits[t] == h.visits[..|g.visits|][t];
          } else {
            assert rest[t - |f.visits|] == rest[1..][t - |g.visits|];
          }
        }
      }
    }
  }

  /** Visiting children only appends to the visits. */
  lemma {:induction false} ExploreKeepsPrefix(eval: Board -> int, b: Board, taboo: set<Move>, depth: nat,
                                              maximizing: bool, rest: seq<Move>, f: Frame)
    requires b.WellFormed() && 0 < depth
    requires forall mv :: mv in rest ==> IsLegal(b, taboo, mv)
    ensures var g := Explore(eval, b, taboo, depth, maximizing, rest, f);
      |f.visits| <= |g.visits| && g.visits[..|f.visits|] == f.visits
    decreases |rest|
  {
    if |rest| > 0 {
      var mv := rest[0];
      assert mv in rest;
      var child := AlphaBeta(eval, b.Put(mv.i, mv.j, mv.value), taboo, depth - 1,
                             f.alpha, f.beta, !maximizing, Some(mv));
      var g := Step(f, maximizing, child);
      assert g.visits[..|f.visits|] == f.visits;
      if !Le(g.beta, g.alpha) {
        ExploreKeepsPrefix(eval, b, taboo, depth, maximizing, rest[1..], g);
        var h := Explore(eval, b, taboo, depth, maximizing, rest[1..], g);
        assert h.visits[..|f.visits|] == h.visits[..|g.visits|][..|f.visits|];
      }
    }
  }

  /** An inner node's score is the best score among the children it visited
      (the largest for the maximizing side, the smallest for the minimizing
      side), taken from the last child reaching it; at the root the whole
      outcome of that child is reported. */
  lemma NodeScore(eval: Board -> int, b: Board, taboo: set<Move>, depth: nat,
                  alpha: Bound, beta: Bound, maximizing: bool, played: Option<Move>)
    requires b.WellFormed() && 0 < depth && Enumerate(b, taboo) != []
    ensures var f := Explore(eval, b, taboo, depth, maximizing, Enumerate(b, taboo), Initial(alpha, beta));
      var r := AlphaBeta(eval, b, taboo, depth, alpha, beta, maximizing, played);
      && |f.visits| > 0
      && exists t :: 0 <= t < |f.visits| && LastBest(f.visits, t, maximizing)
                     && r.score == f.visits[t].outcome.score
                     && (played.None? ==> r == f.visits[t].outcome)
  {
    ExploreKeepsBest(eval, b, taboo, depth, maximizing, Enumerate(b, taboo), Initial(alpha, beta));
  }

  /** An inner node starts its first child with its own window, visits at most
      one child per legal move, starts every later child with an open window,
      and leaves children unvisited only after beta <= alpha. */
  lemma NodeWindows(eval: Board -> int, b: Board, taboo: set<Move>, depth: nat,
                    alpha: Bound, beta: Bound, maximizing: bool)
    requires b.WellFormed() && 0 < depth && Enumerate(b, taboo) != []
    ensures var f := Explore(eval, b, taboo, depth, maximizing, Enumerate(b, taboo), Initial(alpha, beta));
      && 0 < |f.visits| <= |Enumerate(b, taboo)|
      && f.visits[0].alpha == alpha && f.visits[0].beta == beta
      && WindowTrace(f, maximizing)
      && (|f.visits| < |Enumerate(b, taboo)| ==> Le(f.beta, f.alpha))
  {
    ExploreStops(eval, b, taboo, depth, maximizing, Enumerate(b, taboo), Initial(alpha, beta));
    ExploreWindows(eval, b, taboo, depth, maximizing, Enumerate(b, taboo), Initial(alpha, beta));
  }

  /** The children of an inner node are visited in enumeration order, each
      searched on the parent's board plus its own move only. */
  lemma NodeChildren(eval: Board -> int, b: Board, taboo: set<Move>, depth: nat,
                     alpha: Bound, beta: Bound, maximizing: bool)
    requires b.WellFormed() && 0 < depth
    ensures var moves := Enumerate(b, taboo);
      var f := Explore(eval, b, taboo, depth, maximizing, moves, Initial(alpha, beta));
      && |f.visits| <= |moves|
      && forall t :: 0 <= t < |f.visits| ==>
           IsLegal(b, taboo, moves[t]) && ChildOf(eval, b, taboo, depth, maximizing, moves[t], f.visits[t])
  {
    ExploreVisitsChildren(eval, b, taboo, depth, maximizing, Enumerate(b, taboo), Initial(alpha, beta));
  }

  /** The beta of a min node can rise above the beta it was given: after a
      first child scoring 5, a min node searched with beta = 0 has beta = 5. */
  lemma MinNodeBetaCanRise()
    ensures Step(Initial(NegInf, Fin(0)), false, Outcome(None, 5)).beta == Fin(5)
  {
  }

  /** A max node whose beta is +inf never cuts off while its alpha is below
      +inf, so it visits every remaining move. */
  lemma {:induction false} ExploreWithoutCutoff(eval: Board -> int, b: Board, taboo: set<Move>, depth: nat,
                                                rest: seq<Move>, f: Frame)
    requires b.WellFormed() && 0 < depth
    requires forall mv :: mv in rest ==> IsLegal(b, taboo, mv)
    requires f.beta == PosInf && f.alpha != PosInf
    ensures |Explore(eval, b, taboo, depth, true, rest, f).visits| == |f.visits| + |rest|
    decreases |rest|
  {
    if |rest| > 0 {
      var mv := rest[0];
      assert mv in rest;
      var child := AlphaBeta(eval, b.Put(mv.i, mv.j, mv.value), taboo, depth - 1,
                             f.alpha, f.beta, false, Some(mv));
      var g := Step(f, true, child);
      assert g.alpha != PosInf;
      ExploreWithoutCutoff(eval, b, taboo, depth, rest[1..], g);
    }
  }

  /** The root of a turn's search, a max node with the window (-inf, +inf),
      visits every legal move, and the move it proposes is the one of the
      last child reaching the best score among all of them. */
  lemma RootVisitsEveryMove(eval: Board -> int, b: Board, taboo: set<Move>)
    requires b.WellFormed()
    ensures var moves := Enumerate(b, taboo);
      var f := Explore(eval, b, taboo, SearchDepth, true, moves, Initial(NegInf, PosInf));
      && |f.visits| == |moves|
      && (moves != [] ==>
            exists t :: 0 <= t < |moves| && LastBest(f.visits, t, true)
                        && BestMove(eval, b, taboo) == Some(moves[t]))
  {
    var moves := Enumerate(b, taboo);
    var f := Explore(eval, b, taboo, SearchDepth, true, moves, Initial(NegInf, PosInf));
    ExploreWithoutCutoff(eval, b, taboo, SearchDepth, moves, Initial(NegInf, PosInf));
    if moves != [] {
      NodeScore(eval, b, taboo, SearchDepth, NegInf, PosInf, true, None);
      NodeChildren(eval, b, taboo, SearchDepth, NegInf, PosInf, true);
      var t :| 0 <= t < |f.visits| && LastBest(f.visits, t, true)
               && AlphaBeta(eval, b, taboo, SearchDepth, NegInf, PosInf, true, None) == f.visits[t].outcome;
      assert ChildOf(eval, b, taboo, SearchDepth, true, moves[t], f.visits[t]);
    }
  }
}
