/** The two-player card game "beat the last ply or pass": each player holds
    a count of cards per rank; a ply plays `num` cards of one rank, and must
    beat the previous ply (a higher rank, the same number of cards) unless the
    previous ply was a pass. The game ends when some player has no cards. */
module Poker {
  import opened Games
  import Minimax
  import AlphaBeta

  /** A move: `num` cards of rank `card`, or a pass (no card). */
  datatype Ply = Ply(card: Option<nat>, num: int)

  const Pass: Ply := Ply(None, 0)

  /** Per-player card counts indexed by rank, the player to move, and the
      previous ply. */
  datatype PokerState = PokerState(cardSets: seq<seq<int>>, movingSide: int, lastPly: Ply)

  /** The mover's hand exists. */
  predicate Indexed(s: PokerState)
  {
    0 <= s.movingSide < |s.cardSets|
  }

  function Hand(s: PokerState): seq<int>
    requires Indexed(s)
  {
    s.cardSets[s.movingSide]
  }

  /** Python truthiness of the previous ply's card: a pass, and also a ply of
      rank 0, read as "nothing to beat". */
  predicate IsTruthy(card: Option<nat>)
  {
    card.Some? && card.value != 0
  }

  predicate NonNegative(h: seq<int>)
  {
    forall i :: 0 <= i < |h| ==> h[i] >= 0
  }

  predicate NoCards(h: seq<int>)
  {
    forall i :: 0 <= i < |h| ==> h[i] == 0
  }

  /** Cards in a hand. A hand of non-negative counts holds none exactly
      when every count is zero. */
  function Sum(h: seq<int>): (r: int)
    ensures NonNegative(h) ==> r >= 0 && (r == 0 <==> NoCards(h))
  {
    if |h| == 0 then 0
    else
      assert forall i :: 0 < i < |h| ==> h[i] == h[1..][i - 1];
      h[0] + Sum(h[1..])
  }

  // ---------------------------------------------------------------------------
  // Move generation

  /** Plies of `n` cards of each rank from `from` up that the hand can cover,
      in ascending rank. */
  function Follows(hand: seq<int>, from: nat, n: int): seq<Ply>
    decreases |hand| - from
  {
    if from >= |hand| then []
    else (if hand[from] - n >= 0 then [Ply(Some(from), n)] else []) + Follows(hand, from + 1, n)
  }

  /** Plies of rank `rank` with 1, 2, ..., `count` cards, in that order
      (none when `count` is not positive). */
  function Groups(rank: nat, count: int): seq<Ply>
    decreases count
  {
    if count <= 0 then [] else Groups(rank, count - 1) + [Ply(Some(rank), count)]
  }

  /** Every ply of one or more cards of a rank below `upTo` that the hand
      holds, by ascending rank and then ascending number. */
  function Leads(hand: seq<int>, upTo: nat): seq<Ply>
    requires upTo <= |hand|
  {
    if upTo == 0 then [] else Leads(hand, upTo - 1) + Groups(upTo - 1, hand[upTo - 1])
  }

  /** Poker.actions: every ply is a pass or stays within the mover's hand; a
      pass is offered only alone and only in answer to a real ply, and a real
      ply always has an answer. */
  function Actions(s: PokerState): (r: seq<Ply>)
    requires Indexed(s)
    ensures forall m :: m in r ==> m == Pass || Covered(Hand(s), m)
    ensures Pass in r ==> r == [Pass] && IsTruthy(s.lastPly.card)
    ensures IsTruthy(s.lastPly.card) ==> |r| > 0
  {
    var last := s.lastPly;
    if IsTruthy(last.card) then
      var follows := Follows(Hand(s), last.card.value + 1, last.num);
      FollowsAre(Hand(s), last.card.value + 1, last.num);
      if |follows| == 0 then [Pass] else follows
    else
      LeadsMembers(Hand(s), |Hand(s)|);
      Leads(Hand(s), |Hand(s)|)
  }

  /** Poker.actions as the source builds it: a list appended to in a loop
      after a real ply, in two nested loops otherwise. */
  method ComputeActions(s: PokerState) returns (moves: seq<Ply>)
    requires Indexed(s)
    ensures moves == Actions(s)
  {
    var last := s.lastPly;
    if IsTruthy(last.card) {
      moves := CollectFollows(Hand(s), last.card.value + 1, last.num);
      if |moves| == 0 {
        moves := moves + [Pass];
      }
    } else {
      moves := CollectLeads(Hand(s));
    }
  }

  /** The loop over the ranks from `from` up after a real ply. */
  method CollectFollows(hand: seq<int>, from: nat, n: int) returns (moves: seq<Ply>)
    ensures moves == Follows(hand, from, n)
  {
    moves := [];
    var i := from;
    while i < |hand|
      invariant from <= i
      invariant moves + Follows(hand, i, n) == Follows(hand, from, n)
      decreases |hand| - i
    {
      ghost var one: seq<Ply> := if hand[i] - n >= 0 then [Ply(Some(i), n)] else [];
      ghost var rest := Follows(hand, i + 1, n);
      assert Follows(hand, i, n) == one + rest;
      assert moves + (one + rest) == (moves + one) + rest;
      if hand[i] - n >= 0 {
        moves := moves + [Ply(Some(i), n)];
      }
      i := i + 1;
    }
  }

  /** The inner loop after a pass: one ply for each number of cards from 1
      to `count` of one rank, appended in ascending number. */
  method AppendGroups(moves0: seq<Ply>, rank: nat, count: int) returns (moves: seq<Ply>)
    ensures moves == moves0 + Groups(rank, count)
  {
    moves := moves0;
    var j := 1;
    while j < count + 1
      invariant 1 <= j <= if count < 1 then 1 else count + 1
      invariant moves == moves0 + Groups(rank, j - 1)
      decreases count + 1 - j
    {
      assert moves0 + Groups(rank, j) == (moves0 + Groups(rank, j - 1)) + [Ply(Some(rank), j)];
      moves := moves + [Ply(Some(rank), j)];
      j := j + 1;
    }
    assert Groups(rank, j - 1) == Groups(rank, count);
  }

  /** The outer loop after a pass, over the ranks of the hand; a rank the
      hand does not hold adds nothing. */
  method CollectLeads(hand: seq<int>) returns (moves: seq<Ply>)
    ensures moves == Leads(hand, |hand|)
  {
    moves := [];
    var i := 0;
    while i < |hand|
      invariant 0 <= i <= |hand|
      invariant moves == Leads(hand, i)
    {
      if hand[i] > 0 {
        moves := AppendGroups(moves, i, hand[i]);
      } else {
        assert Groups(i, hand[i]) == [];
        assert Leads(hand, i + 1) == moves + [];
      }
      i := i + 1;
    }
  }

  /** A ply of `n` cards of a rank from `from` up that the hand covers. */
  predicate Beats(hand: seq<int>, from: nat, n: int, m: Ply)
  {
    m.card.Some? && from <= m.card.value < |hand| && m.num == n && hand[m.card.value] >= n
  }

  /** A ply of no more cards of a rank than the hand holds. */
  predicate Covered(hand: seq<int>, m: Ply)
  {
    m.card.Some? && m.card.value < |hand| && m.num <= hand[m.card.value]
  }

  /** A ply of between one card and all the cards the hand holds of one rank. */
  predicate Leads1(hand: seq<int>, m: Ply)
  {
    m.card.Some? && m.card.value < |hand| && 1 <= m.num <= hand[m.card.value]
  }

  /** x is of a lower rank than y. */
  predicate RankBefore(x: Ply, y: Ply)
  {
    x.card.Some? && y.card.Some? && x.card.value < y.card.value
  }

  /** x is of a lower rank than y, or of the same rank and fewer cards. */
  predicate RankThenNumberBefore(x: Ply, y: Ply)
  {
    x.card.Some? && y.card.Some? &&
    (x.card.value < y.card.value || (x.card.value == y.card.value && x.num < y.num))
  }

  predicate RanksAscending(ms: seq<Ply>)
  {
    forall a, b :: 0 <= a < b < |ms| ==> RankBefore(ms[a], ms[b])
  }

  predicate RanksThenNumbersAscending(ms: seq<Ply>)
  {
    forall a, b :: 0 <= a < b < |ms| ==> RankThenNumberBefore(ms[a], ms[b])
  }

  /** Every rank of xs is below every rank of ys. */
  predicate RanksBelow(xs: seq<Ply>, ys: seq<Ply>)
  {
    forall x, y :: x in xs && y in ys ==> RankBefore(x, y)
  }

  lemma RanksAscendingConcat(xs: seq<Ply>, ys: seq<Ply>)
    requires RanksAscending(xs) && RanksAscending(ys) && RanksBelow(xs, ys)
    ensures RanksAscending(xs + ys)
  {
    forall a, b | 0 <= a < b < |xs + ys|
      ensures RankBefore((xs + ys)[a], (xs + ys)[b])
    {
      if b < |xs| {
        assert (xs + ys)[a] == xs[a] && (xs + ys)[b] == xs[b];
      } else if a < |xs| {
        assert (xs + ys)[a] == xs[a] && (xs + ys)[b] == ys[b - |xs|];
        assert xs[a] in xs && ys[b - |xs|] in ys;
      } else {
        assert (xs + ys)[a] == ys[a - |xs|] && (xs + ys)[b] == ys[b - |xs|];
      }
    }
  }

  lemma {:induction false} FollowsAre(hand: seq<int>, from: nat, n: int)
    ensures forall m :: m in Follows(hand, from, n) <==> Beats(hand, from, n, m)
    ensures RanksAscending(Follows(hand, from, n))
    decreases |hand| - from
  {
    if from < |hand| {
      FollowsAre(hand, from + 1, n);
      var head: seq<Ply> := if hand[from] - n >= 0 then [Ply(Some(from), n)] else [];
      var rest: seq<Ply> := Follows(hand, from + 1, n);
      assert Follows(hand, from, n) == head + rest;
      assert RanksBelow(head, rest);
      RanksAscendingConcat(head, rest);
    }
  }

  lemma {:induction false} GroupsAre(rank: nat, count: int)
    ensures |Groups(rank, count)| == if count > 0 then count else 0
    ensures forall a :: 0 <= a < |Groups(rank, count)| ==> Groups(rank, count)[a] == Ply(Some(rank), a + 1)
    decreases count
  {
    if count > 0 {
      GroupsAre(rank, count - 1);
    }
  }

  lemma GroupsMembers(rank: nat, count: int)
    ensures forall m :: m in Groups(rank, count) <==> m.card == Some(rank) && 1 <= m.num <= count
    ensures RanksThenNumbersAscending(Groups(rank, count))
  {
    GroupsAre(rank, count);
    var gs := Groups(rank, count);
    forall m: Ply | m.card == Some(rank) && 1 <= m.num <= count
      ensures m in gs
    {
      assert gs[m.num - 1] == m;
    }
  }

  lemma RanksThenNumbersAscendingConcat(xs: seq<Ply>, ys: seq<Ply>)
    requires RanksThenNumbersAscending(xs) && RanksThenNumbersAscending(ys) && RanksBelow(xs, ys)
    ensures RanksThenNumbersAscending(xs + ys)
  {
    forall a, b | 0 <= a < b < |xs + ys|
      ensures RankThenNumberBefore((xs + ys)[a], (xs + ys)[b])
    {
      if b < |xs| {
        assert (xs + ys)[a] == xs[a] && (xs + ys)[b] == xs[b];
      } else if a < |xs| {
        assert (xs + ys)[a] == xs[a] && (xs + ys)[b] == ys[b - |xs|];
        assert xs[a] in xs && ys[b - |xs|] in ys;
      } else {
        assert (xs + ys)[a] == ys[a - |xs|] && (xs + ys)[b] == ys[b - |xs|];
      }
    }
  }

  lemma {:induction false} LeadsMembers(hand: seq<int>, upTo: nat)
    requires upTo <= |hand|
    ensures forall m :: m in Leads(hand, upTo) <==> Leads1(hand, m) && m.card.value < upTo
  {
    if upTo > 0 {
      LeadsMembers(hand, upTo - 1);
      GroupsMembers(upTo - 1, hand[upTo - 1]);
      var prev, group := Leads(hand, upTo - 1), Groups(upTo - 1, hand[upTo - 1]);
      forall m: Ply
        ensures m in prev + group <==> Leads1(hand, m) && m.card.value < upTo
      {
        assert m in prev + group <==> m in prev || m in group;
      }
    }
  }

  lemma {:induction false} LeadsAscending(hand: seq<int>, upTo: nat)
    requires upTo <= |hand|
    ensures RanksThenNumbersAscending(Leads(hand, upTo))
  {
    if upTo > 0 {
      LeadsAscending(hand, upTo - 1);
      LeadsMembers(hand, upTo - 1);
      GroupsMembers(upTo - 1, hand[upTo - 1]);
      RanksThenNumbersAscendingConcat(Leads(hand, upTo - 1), Groups(upTo - 1, hand[upTo - 1]));
    }
  }

  /** No ply of `n` cards from rank `from` up exactly when the hand covers
      none of those ranks. */
  lemma FollowsEmpty(hand: seq<int>, from: nat, n: int)
    ensures |Follows(hand, from, n)| == 0 <==> forall i :: from <= i < |hand| ==> hand[i] < n
  {
    FollowsAre(hand, from, n);
    if |Follows(hand, from, n)| > 0 {
      assert Follows(hand, from, n)[0] in Follows(hand, from, n);
    }
    if i :| from <= i < |hand| && hand[i] >= n {
      assert Ply(Some(i), n) in Follows(hand, from, n);
    }
  }

  /** After a real ply (c, n): exactly the plies of n cards of a higher rank
      the mover covers, in ascending rank; a single pass if there are none. */
  lemma ActionsAfterRealPly(s: PokerState)
    requires Indexed(s) && IsTruthy(s.lastPly.card)
    ensures var c, n := s.lastPly.card.value, s.lastPly.num;
      (exists i :: c < i < |Hand(s)| && Hand(s)[i] >= n) ==>
        (forall m :: m in Actions(s) <==> Beats(Hand(s), c + 1, n, m)) && RanksAscending(Actions(s))
    ensures var c, n := s.lastPly.card.value, s.lastPly.num;
      (forall i :: c < i < |Hand(s)| ==> Hand(s)[i] < n) ==> Actions(s) == [Pass]
  {
    var c, n := s.lastPly.card.value, s.lastPly.num;
    FollowsAre(Hand(s), c + 1, n);
    FollowsEmpty(Hand(s), c + 1, n);
  }

  /** After a pass (or a ply of rank 0, see IsTruthy): every ply of one up to
      all the cards the mover holds of a rank, by ascending rank then number;
      never a pass, and nothing when the mover holds no card. */
  lemma ActionsAfterPass(s: PokerState)
    requires Indexed(s) && !IsTruthy(s.lastPly.card)
    ensures forall m :: m in Actions(s) <==> Leads1(Hand(s), m)
    ensures RanksThenNumbersAscending(Actions(s))
    ensures Pass !in Actions(s)
    ensures |Actions(s)| == 0 <==> forall i :: 0 <= i < |Hand(s)| ==> Hand(s)[i] <= 0
  {
    LeadsMembers(Hand(s), |Hand(s)|);
    LeadsAscending(Hand(s), |Hand(s)|);
    if i :| 0 <= i < |Hand(s)| && Hand(s)[i] > 0 {
      assert Ply(Some(i), 1) in Actions(s);
    } else if |Actions(s)| > 0 {
      assert Actions(s)[0] in Actions(s);
    }
  }

  /** Every generated ply is a pass or is covered by the mover's hand; a pass
      only answers a real ply, a ply answering a real ply has its number,
      and a lead has at least one card. */
  lemma ActionsCovered(s: PokerState, m: Ply)
    requires Indexed(s) && m in Actions(s)
    ensures m == Pass || Covered(Hand(s), m)
    ensures m == Pass ==> IsTruthy(s.lastPly.card)
    ensures m != Pass && IsTruthy(s.lastPly.card) ==> m.num == s.lastPly.num
    ensures m != Pass && !IsTruthy(s.lastPly.card) ==> m.num >= 1
  {
    if IsTruthy(s.lastPly.card) {
      FollowsAre(Hand(s), s.lastPly.card.value + 1, s.lastPly.num);
    } else {
      LeadsMembers(Hand(s), |Hand(s)|);
    }
  }

  // ---------------------------------------------------------------------------
  // Successor, utility, terminal test, mover

  /** Poker.result: on a copy of s, remove the ply's cards from the mover's
      hand (a pass removes none), hand the turn over and record the ply.
      Only the mover's count at the ply's rank changes, by the ply's number;
      the turn always passes to the other side. */
  function Result(s: PokerState, m: Ply): (r: PokerState)
    requires Indexed(s)
    requires m.card.Some? ==> m.card.value < |Hand(s)|
    ensures |r.cardSets| == |s.cardSets|
    ensures forall k :: 0 <= k < |s.cardSets| && k != s.movingSide ==> r.cardSets[k] == s.cardSets[k]
    ensures |r.cardSets[s.movingSide]| == |Hand(s)|
    ensures forall i :: 0 <= i < |Hand(s)| ==>
              r.cardSets[s.movingSide][i] == Hand(s)[i] - (if m.card == Some(i) then m.num else 0)
    ensures r.lastPly == m
    ensures r.movingSide != s.movingSide && (r.movingSide == 0 || r.movingSide == 1)
  {
    var side := s.movingSide;
    var sets :=
      if m.card != None then
        var hand := s.cardSets[side];
        s.cardSets[side := hand[m.card.value := hand[m.card.value] - m.num]]
      else s.cardSets;
    PokerState(sets, if side == 1 then 0 else 1, m)
  }

  /** Poker.utility: the player to move in a final state has lost. */
  function Utility(s: PokerState, player: int): (r: int)
    ensures r == 1 || r == -1
    ensures r == -1 <==> player == s.movingSide
  {
    if player != s.movingSide then 1 else -1
  }

  /** The utility is zero-sum between players 0 and 1, and the mover loses. */
  lemma UtilityZeroSum(s: PokerState)
    requires 0 <= s.movingSide <= 1
    ensures Utility(s, 0) == -Utility(s, 1)
    ensures Utility(s, s.movingSide) == -1 && Utility(s, 1 - s.movingSide) == 1
  {
  }

  /** Poker.terminal_test: some player has no card left. With non-negative
      counts, that is some hand whose every count is zero. */
  function TerminalTest(s: PokerState): (r: bool)
    ensures (forall k :: 0 <= k < |s.cardSets| ==> NonNegative(s.cardSets[k])) ==>
              (r <==> exists k :: 0 <= k < |s.cardSets| && NoCards(s.cardSets[k]))
  {
    exists k :: 0 <= k < |s.cardSets| && Sum(s.cardSets[k]) == 0
  }

  /** Poker.terminal_test as the source runs it: scan the hands and stop at the
      first whose total is zero. */
  method IsTerminal(s: PokerState) returns (r: bool)
    ensures r == TerminalTest(s)
  {
    var k := 0;
    while k < |s.cardSets|
      invariant 0 <= k <= |s.cardSets|
      invariant forall j :: 0 <= j < k ==> Sum(s.cardSets[j]) != 0
    {
      if Sum(s.cardSets[k]) == 0 {
        return true;
      }
      k := k + 1;
    }
    return false;
  }

  /** Poker.to_move: the side to move, which is the side a final state's
      utility scores as the loser. */
  function ToMove(s: PokerState): (r: int)
    ensures Valid(s) ==> r == 0 || r == 1
    ensures Utility(s, r) == -1
  {
    s.movingSide
  }

  // ---------------------------------------------------------------------------
  // The game the search runs on

  /** States reachable from a deal: two hands of non-negative counts, side 0
      or 1 to move, and a previous ply that is a pass, of rank 0, or of at
      least one card. */
  predicate Valid(s: PokerState)
  {
    |s.cardSets| == 2 && 0 <= s.movingSide <= 1 &&
    NonNegative(s.cardSets[0]) && NonNegative(s.cardSets[1]) &&
    (IsTruthy(s.lastPly.card) ==> s.lastPly.num >= 1)
  }

  /** Valid asks for non-negative counts: with a negative count, a hand can
      total a non-zero number of cards yet offer no ply, so the game would
      stop in a state that is not final. */
  lemma NegativeCountBlocks()
    ensures var s := PokerState([[0, -1], [1]], 0, Pass);
      Indexed(s) && !TerminalTest(s) && Actions(s) == []
  {
    var s := PokerState([[0, -1], [1]], 0, Pass);
    assert Sum(s.cardSets[0]) == -1 && Sum(s.cardSets[1]) == 1;
    assert Leads(Hand(s), 2) == Leads(Hand(s), 1) + Groups(1, -1);
  }

  lemma {:induction false} SumUpdate(h: seq<int>, i: nat, x: int)
    requires i < |h|
    ensures Sum(h[i := x]) == Sum(h) - h[i] + x
  {
    if i > 0 {
      SumUpdate(h[1..], i - 1, x);
      assert h[i := x][1..] == h[1..][i - 1 := x];
    }
  }

  /** Twice the cards left, plus one when the previous ply must be beaten.
      A ply of cards lowers the first term; a pass lowers the second. */
  function Measure(s: PokerState): nat
  {
    if Valid(s) then
      2 * (Sum(s.cardSets[0]) + Sum(s.cardSets[1])) + (if IsTruthy(s.lastPly.card) then 1 else 0)
    else 0
  }

  function PokerGame(): Game<PokerState, Ply, int>
  {
    Game(
      s requires Indexed(s) => Actions(s),
      (s: PokerState, m: Ply) requires Indexed(s) && (m.card.Some? ==> m.card.value < |Hand(s)|) => Result(s, m),
      (s, player) => Utility(s, player),
      s => TerminalTest(s),
      s => ToMove(s),
      s => Valid(s),
      s => Measure(s))
  }

  /** A generated ply keeps the state valid and lowers the measure. */
  lemma PlyDecreases(s: PokerState, m: Ply)
    requires Valid(s) && m in Actions(s)
    ensures m.card.Some? ==> m.card.value < |Hand(s)|
    ensures Valid(Result(s, m)) && Measure(Result(s, m)) < Measure(s)
  {
    ActionsCovered(s, m);
    var r := Result(s, m);
    var side := s.movingSide;
    if m.card.Some? {
      var hand := Hand(s);
      var c := m.card.value;
      SumUpdate(hand, c, hand[c] - m.num);
      assert r.cardSets[side] == hand[c := hand[c] - m.num];
      assert r.cardSets[1 - side] == s.cardSets[1 - side];
      assert Valid(r);
    } else {
      assert r.cardSets == s.cardSets;
    }
  }

  lemma PokerSound()
    ensures Sound(PokerGame())
  {
    var g := PokerGame();
    forall s, i | g.valid(s) && g.actions.requires(s) && 0 <= i < |g.actions(s)|
      ensures g.result.requires(s, g.actions(s)[i]) &&
              g.valid(g.result(s, g.actions(s)[i])) &&
              g.measure(g.result(s, g.actions(s)[i])) < g.measure(s)
    {
      PlyDecreases(s, Actions(s)[i]);
    }
  }

  /** A valid state that is not final always has a ply: after a real ply an
      answer or else the pass, otherwise a single card of a rank the mover
      holds. */
  lemma PokerNonBlocking()
    ensures Sound(PokerGame()) && NonBlocking(PokerGame())
  {
    PokerSound();
    forall s | Valid(s) && !TerminalTest(s)
      ensures |Actions(s)| > 0
    {
      if !IsTruthy(s.lastPly.card) {
        ActionsAfterPass(s);
        assert Sum(s.cardSets[s.movingSide]) != 0;
      }
    }
  }

  /** alphabeta_search on a Poker state: it returns a ply exactly when the
      mover has one, the ply is one of the mover's actions, and it never plays
      more cards of a rank than the mover holds. */
  method Search(s: PokerState) returns (best: Option<Ply>)
    requires Valid(s)
    ensures Sound(PokerGame()) && best == Minimax.Decision(PokerGame(), s)
    ensures best.Some? <==> |Actions(s)| > 0
    ensures best.Some? ==> best.value in Actions(s)
    ensures best.Some? && best.value.card.Some? ==>
              best.value.card.value < |Hand(s)| && best.value.num <= Hand(s)[best.value.card.value]
  {
    PokerNonBlocking();
    best := AlphaBeta.AlphaBetaSearch(PokerGame(), s);
    Minimax.DecisionExistsIffActions(PokerGame(), s);
    Minimax.DecisionIsFirstBest(PokerGame(), s);
    if best.Some? {
      ActionsCovered(s, best.value);
    }
  }
}
