/** Alpha-beta search to the leaves (Figure 5.7 of Russell and Norvig,
    "Artificial Intelligence: A Modern Approach"), proved to choose the same
    action as plain minimax. */
module AlphaBeta {
  import opened ExtendedInt
  import opened Games
  import opened Minimax

  /** Fail-soft outcome of a search with window (alpha, beta) whose true value
      is m: a result at or below alpha bounds m from above, a result at or
      above beta bounds m from below, and a result inside the window is m. */
  predicate FailSoft(v: ExtInt, m: ExtInt, alpha: ExtInt, beta: ExtInt)
  {
    (Le(v, alpha) ==> Le(m, v)) &&
    (Le(beta, v) ==> Le(v, m)) &&
    (Lt(alpha, v) && Lt(v, beta) ==> v == m)
  }

  /** Read from the side of the true value: inside a non-empty window the
      search is exact, below it the search answers at most alpha, above it at
      least beta. */
  lemma FailSoftWindow(v: ExtInt, m: ExtInt, alpha: ExtInt, beta: ExtInt)
    requires Lt(alpha, beta) && FailSoft(v, m, alpha, beta)
    ensures Lt(alpha, m) && Lt(m, beta) ==> v == m
    ensures Le(m, alpha) ==> Le(v, alpha)
    ensures Le(beta, m) ==> Le(beta, v)
  {
  }

  /** max_value: p moves at s. Stops at the first child that lifts v to beta
      or above. */
  method MaxValue<S(!new), A, P(!new)>(g: Game<S, A, P>, p: P, s: S, alpha0: ExtInt, beta: ExtInt)
    returns (v: ExtInt)
    requires Sound(g) && g.valid(s)
    ensures Lt(alpha0, beta) ==> FailSoft(v, MaxV(g, p, s), alpha0, beta)
    decreases g.measure(s)
  {
    if g.terminalTest(s) {
      return Fin(g.utility(s, p));
    }
    var acts := g.actions(s);
    var alpha := alpha0;
    v := NegInf;
    var i := 0;
    while i < |acts|
      invariant 0 <= i <= |acts|
      invariant alpha == Max(alpha0, v)
      invariant Lt(alpha0, beta) ==> Lt(v, beta)
      invariant Lt(alpha0, beta) ==> Le(MaxChildren(g, p, s, i), v)
      invariant Lt(alpha0, beta) && Lt(alpha0, v) ==> v == MaxChildren(g, p, s, i)
    {
      var child := Child(g, s, i);
      var u := MinValue(g, p, child, alpha, beta);
      ghost var prev := v;
      v := Max(v, u);
      if Le(beta, v) {
        if Lt(alpha0, beta) {
          MaxChildrenIsMaximum(g, p, s, |acts|);
          LeTotalOrder(u, MinV(g, p, child), MaxV(g, p, s));
          LeTotalOrder(prev, beta, u);
        }
        return;
      }
      alpha := Max(alpha, v);
      if Lt(alpha0, beta) {
        LeTotalOrder(MaxChildren(g, p, s, i), prev, v);
        LeTotalOrder(MinV(g, p, child), u, v);
        LeTotalOrder(alpha0, prev, u);
      }
      i := i + 1;
    }
  }

  /** min_value: p's opponent moves at s. Stops at the first child that
      lowers v to alpha or below. */
  method MinValue<S(!new), A, P(!new)>(g: Game<S, A, P>, p: P, s: S, alpha: ExtInt, beta0: ExtInt)
    returns (v: ExtInt)
    requires Sound(g) && g.valid(s)
    ensures Lt(alpha, beta0) ==> FailSoft(v, MinV(g, p, s), alpha, beta0)
    decreases g.measure(s)
  {
    if g.terminalTest(s) {
      return Fin(g.utility(s, p));
    }
    var acts := g.actions(s);
    var beta := beta0;
    v := PosInf;
    var i := 0;
    while i < |acts|
      invariant 0 <= i <= |acts|
      invariant beta == Min(beta0, v)
      invariant Lt(alpha, beta0) ==> Lt(alpha, v)
      invariant Lt(alpha, beta0) ==> Le(v, MinChildren(g, p, s, i))
      invariant Lt(alpha, beta0) && Lt(v, beta0) ==> v == MinChildren(g, p, s, i)
    {
      var child := Child(g, s, i);
      var u := MaxValue(g, p, child, alpha, beta);
      ghost var prev := v;
      v := Min(v, u);
      if Le(v, alpha) {
        if Lt(alpha, beta0) {
          MinChildrenIsMinimum(g, p, s, |acts|);
          LeTotalOrder(MinV(g, p, s), MaxV(g, p, child), u);
          LeTotalOrder(u, alpha, prev);
        }
        return;
      }
      beta := Min(beta, v);
      if Lt(alpha, beta0) {
        LeTotalOrder(v, prev, MinChildren(g, p, s, i));
        LeTotalOrder(v, u, MaxV(g, p, child));
        LeTotalOrder(u, prev, beta0);
      }
      i := i + 1;
    }
  }

  /** alphabeta_search: the root player is fixed once; each action's child is
      searched at a min level with the best score so far as alpha, and the
      first action with a strictly greater value is kept. The result is the
      unpruned minimax decision. */
  method AlphaBetaSearch<S(!new), A, P(!new)>(g: Game<S, A, P>, s: S) returns (best: Option<A>)
    requires Sound(g) && g.valid(s)
    ensures best == Decision(g, s)
  {
    var player := g.toMove(s);
    var bestScore := NegInf;
    var beta := PosInf;
    best := None;
    var acts := g.actions(s);
    var i := 0;
    while i < |acts|
      invariant 0 <= i <= |acts|
      invariant bestScore == RootScan(g, s, i).score
      invariant best == match RootScan(g, s, i).choice
                        case None => None
                        case Some(k) => Some(acts[k])
    {
      var v := MinValue(g, player, Child(g, s, i), bestScore, beta);
      ghost var m := RootValue(g, s, i);
      if bestScore != PosInf {
        LeTotalOrder(v, m, bestScore);
        LeTotalOrder(bestScore, v, m);
      }
      if Lt(bestScore, v) {
        bestScore := v;
        best := Some(acts[i]);
      }
      i := i + 1;
    }
  }
}
