/** The abstract game the search runs over: legal actions, successor,
    utility of a terminal state for a player, terminal test and the player
    to move. A concrete game supplies its rules as (partial) functions,
    together with the set of states it is played on (`valid`) and a
    termination measure that every move lowers, which is what makes a
    full-depth search terminate. */
module Games {

  datatype Option<+T> = None | Some(value: T)

  /** The five operations of a game, with S the states, A the actions and
      P the player tokens. Each operation is partial, as the rules of a
      concrete game are (a table lookup on an unknown key fails).
      `valid` and `measure` are not operations of the game: they are the
      reachable states and the decreasing quantity a game must provide to
      be searched to its leaves. */
  datatype Game<!S, !A, !P> = Game(
    actions: S --> seq<A>,
    result: (S, A) --> S,
    utility: (S, P) --> int,
    terminalTest: S --> bool,
    toMove: S --> P,
    valid: S -> bool,
    measure: S -> nat)

  /** The rules are defined on every valid state, utility is defined on every
      terminal valid state, and every action of a valid state leads to a valid
      state with a smaller measure. */
  ghost predicate Sound<S(!new), A, P(!new)>(g: Game<S, A, P>)
  {
    (forall s :: g.valid(s) ==>
       g.actions.requires(s) && g.terminalTest.requires(s) && g.toMove.requires(s)) &&
    (forall s, p :: g.valid(s) && g.terminalTest.requires(s) && g.terminalTest(s) ==>
       g.utility.requires(s, p)) &&
    (forall s, i :: g.valid(s) && g.actions.requires(s) && 0 <= i < |g.actions(s)| ==>
       g.result.requires(s, g.actions(s)[i]) &&
       g.valid(g.result(s, g.actions(s)[i])) &&
       g.measure(g.result(s, g.actions(s)[i])) < g.measure(s))
  }

  /** Every valid state that is not terminal has at least one action. */
  ghost predicate NonBlocking<S(!new), A, P(!new)>(g: Game<S, A, P>)
    requires Sound(g)
  {
    forall s :: g.valid(s) ==> (!g.terminalTest(s) ==> |g.actions(s)| > 0)
  }

  /** The state reached by the i-th action of a valid state. */
  function Child<S(!new), A, P(!new)>(g: Game<S, A, P>, s: S, i: nat): (t: S)
    requires Sound(g) && g.valid(s) && i < |g.actions(s)|
    ensures g.valid(t) && g.measure(t) < g.measure(s)
  {
    g.result(s, g.actions(s)[i])
  }

  /** The base class's terminal test: a state is final when it has no actions. */
  function DefaultTerminalTest<S, A>(actions: S --> seq<A>, s: S): (r: bool)
    requires actions.requires(s)
    ensures r <==> actions(s) == []
  {
    |actions(s)| == 0
  }

  /** A game that keeps the default terminal test never has a non-terminal
      state without actions. */
  lemma DefaultTerminalTestNonBlocking<S(!new), A, P(!new)>(g: Game<S, A, P>)
    requires Sound(g)
    requires forall s :: g.valid(s) ==> g.terminalTest(s) == DefaultTerminalTest(g.actions, s)
    ensures NonBlocking(g)
  {
  }
}
