/** Plain minimax, without pruning: the reference the alpha-beta search is
    proved against. The searching player `p` is fixed for a whole search and
    every leaf is scored from p's side; max levels and min levels strictly
    alternate. A non-terminal state without actions keeps the initial value of
    its level: -infinity at a max level, +infinity at a min level. */
module Minimax {
  import opened ExtendedInt
  import opened Games

  /** Value of a state where the searching player p moves. */
  function MaxV<S(!new), A, P(!new)>(g: Game<S, A, P>, p: P, s: S): ExtInt
    requires Sound(g) && g.valid(s)
    decreases g.measure(s), 1, 0
  {
    if g.terminalTest(s) then Fin(g.utility(s, p))
    else MaxChildren(g, p, s, |g.actions(s)|)
  }

  /** Value of a state where p's opponent moves. */
  function MinV<S(!new), A, P(!new)>(g: Game<S, A, P>, p: P, s: S): ExtInt
    requires Sound(g) && g.valid(s)
    decreases g.measure(s), 1, 0
  {
    if g.terminalTest(s) then Fin(g.utility(s, p))
    else MinChildren(g, p, s, |g.actions(s)|)
  }

  /** Largest min-level value among the children reached by the first n actions. */
  function MaxChildren<S(!new), A, P(!new)>(g: Game<S, A, P>, p: P, s: S, n: nat): ExtInt
    requires Sound(g) && g.valid(s) && n <= |g.actions(s)|
    decreases g.measure(s), 0, n
  {
    if n == 0 then NegInf
    else Max(MaxChildren(g, p, s, n - 1), MinV(g, p, Child(g, s, n - 1)))
  }

  /** Smallest max-level value among the children reached by the first n actions. */
  function MinChildren<S(!new), A, P(!new)>(g: Game<S, A, P>, p: P, s: S, n: nat): ExtInt
    requires Sound(g) && g.valid(s) && n <= |g.actions(s)|
    decreases g.measure(s), 0, n
  {
    if n == 0 then PosInf
    else Min(MinChildren(g, p, s, n - 1), MaxV(g, p, Child(g, s, n - 1)))
  }

  /** MaxChildren is the maximum of the children it ranges over. */
  lemma {:induction false} MaxChildrenIsMaximum<S(!new), A, P(!new)>(g: Game<S, A, P>, p: P, s: S, n: nat)
    requires Sound(g) && g.valid(s) && n <= |g.actions(s)|
    ensures forall i :: 0 <= i < n ==> Le(MinV(g, p, Child(g, s, i)), MaxChildren(g, p, s, n))
    ensures n == 0 || exists i :: 0 <= i < n && MinV(g, p, Child(g, s, i)) == MaxChildren(g, p, s, n)
  {
    if n > 0 {
      MaxChildrenIsMaximum(g, p, s, n - 1);
      forall i | 0 <= i < n
        ensures Le(MinV(g, p, Child(g, s, i)), MaxChildren(g, p, s, n))
      {
        if i < n - 1 {
          LeTotalOrder(MinV(g, p, Child(g, s, i)), MaxChildren(g, p, s, n - 1), MaxChildren(g, p, s, n));
        }
      }
      if n == 1 {
        assert MaxChildren(g, p, s, 1) == Max(NegInf, MinV(g, p, Child(g, s, 0)));
      } else if MaxChildren(g, p, s, n) != MinV(g, p, Child(g, s, n - 1)) {
        var i :| 0 <= i < n - 1 && MinV(g, p, Child(g, s, i)) == MaxChildren(g, p, s, n - 1);
        assert MinV(g, p, Child(g, s, i)) == MaxChildren(g, p, s, n);
      }
    }
  }

  /** MinChildren is the minimum of the children it ranges over. */
  lemma {:induction false} MinChildrenIsMinimum<S(!new), A, P(!new)>(g: Game<S, A, P>, p: P, s: S, n: nat)
    requires Sound(g) && g.valid(s) && n <= |g.actions(s)|
    ensures forall i :: 0 <= i < n ==> Le(MinChildren(g, p, s, n), MaxV(g, p, Child(g, s, i)))
    ensures n == 0 || exists i :: 0 <= i < n && MaxV(g, p, Child(g, s, i)) == MinChildren(g, p, s, n)
  {
    if n > 0 {
      MinChildrenIsMinimum(g, p, s, n - 1);
      forall i | 0 <= i < n
        ensures Le(MinChildren(g, p, s, n), MaxV(g, p, Child(g, s, i)))
      {
        if i < n - 1 {
          LeTotalOrder(MinChildren(g, p, s, n), MinChildren(g, p, s, n - 1), MaxV(g, p, Child(g, s, i)));
        }
      }
      if n == 1 {
        assert MinChildren(g, p, s, 1) == Min(PosInf, MaxV(g, p, Child(g, s, 0)));
      } else if MinChildren(g, p, s, n) != MaxV(g, p, Child(g, s, n - 1)) {
        var i :| 0 <= i < n - 1 && MaxV(g, p, Child(g, s, i)) == MinChildren(g, p, s, n - 1);
        assert MaxV(g, p, Child(g, s, i)) == MinChildren(g, p, s, n);
      }
    }
  }

  /** The value of a state where p moves: the utility of a terminal state for
      p, otherwise at least the value of every child, and -infinity when it
      has no child. */
  lemma MaxVBounds<S(!new), A, P(!new)>(g: Game<S, A, P>, p: P, s: S)
    requires Sound(g) && g.valid(s)
    ensures g.terminalTest(s) ==> MaxV(g, p, s) == Fin(g.utility(s, p))
    ensures !g.terminalTest(s) ==>
              forall i :: 0 <= i < |g.actions(s)| ==> Le(MinV(g, p, Child(g, s, i)), MaxV(g, p, s))
    ensures !g.terminalTest(s) && |g.actions(s)| == 0 ==> MaxV(g, p, s) == NegInf
  {
    if !g.terminalTest(s) {
      MaxChildrenIsMaximum(g, p, s, |g.actions(s)|);
    }
  }

  /** The value of a state where p's opponent moves: the utility of a
      terminal state for p, otherwise at most the value of every child, and
      +infinity when it has no child. */
  lemma MinVBounds<S(!new), A, P(!new)>(g: Game<S, A, P>, p: P, s: S)
    requires Sound(g) && g.valid(s)
    ensures g.terminalTest(s) ==> MinV(g, p, s) == Fin(g.utility(s, p))
    ensures !g.terminalTest(s) ==>
              forall i :: 0 <= i < |g.actions(s)| ==> Le(MinV(g, p, s), MaxV(g, p, Child(g, s, i)))
    ensures !g.terminalTest(s) && |g.actions(s)| == 0 ==> MinV(g, p, s) == PosInf
  {
    if !g.terminalTest(s) {
      MinChildrenIsMinimum(g, p, s, |g.actions(s)|);
    }
  }

  /** In a game where every non-terminal state has an action, no value is infinite. */
  lemma {:induction false} ValuesFinite<S(!new), A, P(!new)>(g: Game<S, A, P>, p: P, s: S)
    requires Sound(g) && NonBlocking(g) && g.valid(s)
    ensures MaxV(g, p, s).Fin? && MinV(g, p, s).Fin?
    decreases g.measure(s), 1
  {
    if !g.terminalTest(s) {
      ChildrenFinite(g, p, s, |g.actions(s)|);
    }
  }

  lemma {:induction false} ChildrenFinite<S(!new), A, P(!new)>(g: Game<S, A, P>, p: P, s: S, n: nat)
    requires Sound(g) && NonBlocking(g) && g.valid(s) && 0 < n <= |g.actions(s)|
    ensures MaxChildren(g, p, s, n).Fin? && MinChildren(g, p, s, n).Fin?
    decreases g.measure(s), 0, n
  {
    ValuesFinite(g, p, Child(g, s, n - 1));
    if n > 1 {
      ChildrenFinite(g, p, s, n - 1);
    }
  }

  /** Minimax value of the i-th action at the root: the root player's opponent
      moves next, so the child is scored at a min level. */
  function RootValue<S(!new), A, P(!new)>(g: Game<S, A, P>, s: S, i: nat): ExtInt
    requires Sound(g) && g.valid(s) && i < |g.actions(s)|
  {
    MinV(g, g.toMove(s), Child(g, s, i))
  }

  /** Best score found so far at the root, and the index of the action that
      first reached it. */
  datatype Scan = Scan(score: ExtInt, choice: Option<nat>)

  /** The unpruned root decision over the first n actions: an action replaces
      the current choice only when its value is strictly greater. */
  function RootScan<S(!new), A, P(!new)>(g: Game<S, A, P>, s: S, n: nat): (r: Scan)
    requires Sound(g) && g.valid(s) && n <= |g.actions(s)|
    ensures r.choice.Some? ==> r.choice.value < n
  {
    if n == 0 then Scan(NegInf, None)
    else
      var prev := RootScan(g, s, n - 1);
      var v := RootValue(g, s, n - 1);
      if Lt(prev.score, v) then Scan(v, Some(n - 1)) else prev
  }

  /** The action plain minimax chooses at s, if any. */
  function Decision<S(!new), A, P(!new)>(g: Game<S, A, P>, s: S): (r: Option<A>)
    requires Sound(g) && g.valid(s)
    ensures r.Some? ==> r.value in g.actions(s)
  {
    match RootScan(g, s, |g.actions(s)|).choice
    case None => None
    case Some(k) => Some(g.actions(s)[k])
  }

  /** The root scan picks the first index of maximal value, and picks nothing
      exactly when every value is -infinity. */
  lemma {:induction false} RootScanIsFirstArgMax<S(!new), A, P(!new)>(g: Game<S, A, P>, s: S, n: nat)
    requires Sound(g) && g.valid(s) && n <= |g.actions(s)|
    ensures forall j :: 0 <= j < n ==> Le(RootValue(g, s, j), RootScan(g, s, n).score)
    ensures RootScan(g, s, n).choice.None? <==> RootScan(g, s, n).score == NegInf
    ensures RootScan(g, s, n).choice.Some? ==>
              var k := RootScan(g, s, n).choice.value;
              RootValue(g, s, k) == RootScan(g, s, n).score &&
              forall j :: 0 <= j < k ==> Lt(RootValue(g, s, j), RootValue(g, s, k))
  {
    if n > 0 {
      RootScanIsFirstArgMax(g, s, n - 1);
      var prev := RootScan(g, s, n - 1);
      var v := RootValue(g, s, n - 1);
      forall j | 0 <= j < n
        ensures Le(RootValue(g, s, j), RootScan(g, s, n).score)
      {
        if j < n - 1 {
          LeTotalOrder(RootValue(g, s, j), prev.score, RootScan(g, s, n).score);
        }
      }
    }
  }

  /** Plain minimax at the root returns an action of s whose value is the
      maximum over all actions of s, the first such action in enumeration
      order; it returns nothing exactly when every action is worth -infinity
      (in particular when s has no actions). */
  lemma DecisionIsFirstBest<S(!new), A, P(!new)>(g: Game<S, A, P>, s: S)
    requires Sound(g) && g.valid(s)
    ensures Decision(g, s).None? <==> forall j :: 0 <= j < |g.actions(s)| ==> RootValue(g, s, j) == NegInf
    ensures Decision(g, s).Some? ==>
              exists k :: 0 <= k < |g.actions(s)| && Decision(g, s) == Some(g.actions(s)[k]) &&
                (forall j :: 0 <= j < |g.actions(s)| ==> Le(RootValue(g, s, j), RootValue(g, s, k))) &&
                (forall j :: 0 <= j < k ==> Lt(RootValue(g, s, j), RootValue(g, s, k)))
  {
    var n := |g.actions(s)|;
    RootScanIsFirstArgMax(g, s, n);
    if RootScan(g, s, n).choice.None? {
      forall j | 0 <= j < n ensures RootValue(g, s, j) == NegInf {
        LeTotalOrder(RootValue(g, s, j), NegInf, NegInf);
      }
    } else {
      var k := RootScan(g, s, n).choice.value;
      assert Decision(g, s) == Some(g.actions(s)[k]);
      assert RootValue(g, s, k) != NegInf;
    }
  }

  /** When every non-terminal state has an action, plain minimax chooses an
      action exactly when the root has one. */
  lemma DecisionExistsIffActions<S(!new), A, P(!new)>(g: Game<S, A, P>, s: S)
    requires Sound(g) && NonBlocking(g) && g.valid(s)
    ensures Decision(g, s).Some? <==> |g.actions(s)| > 0
  {
    DecisionIsFirstBest(g, s);
    if |g.actions(s)| > 0 {
      ValuesFinite(g, g.toMove(s), Child(g, s, 0));
      assert RootValue(g, s, 0) != NegInf;
    }
  }
}
