# Alpha-beta search, modelled in Dafny

This project models `alpha_beta_search.py`. That file holds full-depth alpha-beta search (Figure 5.7 of Russell and Norvig, "Artificial Intelligence: A Modern Approach"), the `Game` base class, a two-player card game `Poker` and the test tree `Fig52Game`.

- `ExtendedInt` (ext_int.dfy): the integers with -infinity and +infinity. These are the search's `float('inf')` sentinels. Python's `max` and `min` on them are `Max` and `Min`.
- `Games` (games.dfy): a game is a record of its five rules as partial functions:
  - `actions`, `result`, `utility`, `terminalTest` and `toMove`.
  - Two certificates that are not rules: the states it is played on (`valid`) and a measure that every move lowers.
  - `Sound` says the rules are defined on valid states and that moves stay valid and lower the measure. This is what makes a search to the leaves terminate.
  - The base class's default terminal test is "no actions".
- `Minimax` (minimax.dfy): plain minimax without pruning, as pure functions. It is the reference the search is proved against.
  - The root player is fixed once, and every leaf is scored from that player's side. Max and min levels strictly alternate.
  - A non-terminal state without actions keeps its level's initial value (-inf or +inf), as the Python loops do.
  - `RootScan` and `Decision` are the unpruned root loop. It keeps the first action whose value is strictly greater than the best so far.
- `AlphaBeta` (alpha_beta.dfy): `max_value`, `min_value` and the root loop as methods with loops and early returns.
  - The two level methods are proved fail-soft against `Minimax`.
  - The root loop is proved to return exactly the unpruned minimax decision.
- `Poker` (poker.dfy): the card game.
  - Move generation is both a function and the loop-based method the source runs. Leads are built by nested loops.
  - The successor copies the state, lowers one count of the mover, flips the turn and records the ply.
  - The file also has the +1/-1 utility, the terminal test ("some hand is empty") and the mover.
  - `if last_card:` is Python truthiness, so a previous ply of rank 0 is answered like a pass (`IsTruthy`). The model keeps this quirk.
  - `Valid` and `Measure` (twice the cards left, plus one while a real ply must be answered) make the game searchable. The search over Poker is proved to return the minimax decision, which is one of the mover's actions, and to return one exactly when the mover has one.
- `Fig52` (fig52.dfy): the successor and utility tables of Figure 5.2 and the five rules over them. Minimax values the three branches 2, 3 and 2, and the search from `A` returns `a2`.

## Model

| member | source | states |
|---|---|---|
| ExtendedInt.Max | alpha_beta_search.py:20 | the result bounds both arguments from above and is one of them (Python `max` on the sentinels and integers) |
| ExtendedInt.Min | alpha_beta_search.py:31 | the result bounds both arguments from below and is one of them (Python `min`) |
| ExtendedInt.LeTotalOrder | alpha_beta_search.py:5 | -infinity, the integers and +infinity are totally ordered: reflexive, antisymmetric, transitive, total |
| Games.Child | alpha_beta_search.py:20 | in a sound game, `result(state, a)` for an action of a valid state is a valid state of smaller measure |
| Games.DefaultTerminalTest | alpha_beta_search.py:76-78 | the base class's terminal test holds exactly when the state's action list is empty |
| Games.DefaultTerminalTestNonBlocking | alpha_beta_search.py:76-78 | a game that keeps the default terminal test (`not self.actions(state)`) has an action at every state that is not final |
| Minimax.MaxVBounds | alpha_beta_search.py:15-24 | the value of a state where the root player moves: its utility for the root player when terminal; otherwise at least the value of every child, and -inf when it has no actions |
| Minimax.MinVBounds | alpha_beta_search.py:26-35 | the value of a state where the opponent moves: its utility for the root player when terminal; otherwise at most the value of every child, and +inf when it has no actions |
| Minimax.MaxChildrenIsMaximum | alpha_beta_search.py:18-24 | folding `v = max(v, ...)` over the first n children from -inf gives their maximum: every child's value is at most it, and some child attains it |
| Minimax.MinChildrenIsMinimum | alpha_beta_search.py:29-35 | folding `v = min(v, ...)` over the first n children from +inf gives their minimum, attained by a child |
| Minimax.ValuesFinite | alpha_beta_search.py:15-35 | when every non-final state has an action, no minimax value is infinite |
| Minimax.ChildrenFinite | alpha_beta_search.py:19-20 | under the same condition, every non-empty fold over children is finite |
| Minimax.Decision | alpha_beta_search.py:38-49 | the unpruned root decision, when there is one, is one of the root's actions |
| Minimax.RootScanIsFirstArgMax | alpha_beta_search.py:38-47 | the unpruned root loop ends with the maximum root value as its score; it chooses nothing iff that score is -inf; the chosen index attains the score and every earlier action is strictly worse |
| Minimax.DecisionIsFirstBest | alpha_beta_search.py:38-49 | plain minimax returns nothing iff every action is worth -inf; otherwise it returns the action of the first index whose value is the maximum over all actions |
| Minimax.DecisionExistsIffActions | alpha_beta_search.py:38-49 | when every non-final state has an action, the decision is an action iff the root has an action |
| AlphaBeta.FailSoftWindow | alpha_beta_search.py:15-35 | from the fail-soft bounds with alpha < beta: a true value strictly inside the window is returned exactly, a true value at or below alpha gives a result at or below alpha, one at or above beta a result at or above beta |
| AlphaBeta.MaxValue | alpha_beta_search.py:15-24 | `max_value` with alpha < beta is fail-soft against the minimax value: a result at or below alpha bounds it from above, at or above beta from below, and a result strictly inside the window equals it |
| AlphaBeta.MinValue | alpha_beta_search.py:26-35 | `min_value` with alpha < beta is fail-soft against the minimax value, in the same three cases |
| AlphaBeta.AlphaBetaSearch | alpha_beta_search.py:8-49 | pruning does not change the answer: the returned action is exactly the unpruned minimax decision of the root (first action of maximal value, nothing when there is none) |
| Poker.Actions | alpha_beta_search.py:105-145 | every generated ply is a pass or plays no more cards of a rank than the mover holds; a pass is offered only alone and only in answer to a truthy ply; a truthy ply always has an answer |
| Poker.ComputeActions | alpha_beta_search.py:105-145 | the list built by the source's loops equals the move-generation function `Actions` |
| Poker.CollectFollows | alpha_beta_search.py:121-125 | the loop over ranks from `last_card + 1` appends exactly the plies `Follows` lists, in order |
| Poker.AppendGroups | alpha_beta_search.py:138-139 | the inner loop appends the plies of 1 up to `count` cards of one rank, in order, after what was already there |
| Poker.CollectLeads | alpha_beta_search.py:134-139 | the nested loops after a pass build exactly `Leads` over the whole hand |
| Poker.FollowsAre | alpha_beta_search.py:121-125 | a ply is in `Follows(hand, from, n)` iff it has n cards of a rank from `from` up that the hand covers; ranks ascend |
| Poker.FollowsEmpty | alpha_beta_search.py:130-132 | there is no such ply iff every rank from `from` up holds fewer than n cards |
| Poker.GroupsAre | alpha_beta_search.py:138-139 | the plies of one rank are numbered 1, 2, ..., count in that order |
| Poker.GroupsMembers | alpha_beta_search.py:138-139 | a ply is among them iff it is of that rank with 1 to count cards; they ascend by number |
| Poker.LeadsMembers | alpha_beta_search.py:134-139 | a ply is in `Leads(hand, k)` iff it plays between one card and all the cards held of a rank below k |
| Poker.LeadsAscending | alpha_beta_search.py:134-139 | `Leads` is ordered by rank, then by number of cards |
| Poker.ActionsAfterRealPly | alpha_beta_search.py:121-132 | after a truthy ply (c, n): if some higher rank holds n cards, the moves are exactly the plies of n cards of a higher rank the mover covers, by ascending rank; otherwise the single pass |
| Poker.ActionsAfterPass | alpha_beta_search.py:134-139 | after a pass or a rank-0 ply: the moves are exactly the plies of one up to all the cards of a rank, by rank then number; never a pass; none iff the mover holds no card |
| Poker.ActionsCovered | alpha_beta_search.py:119-139 | every generated ply is a pass or within the mover's count at its rank; a pass only answers a truthy ply; an answer keeps the ply's number; a lead has at least one card |
| Poker.Result | alpha_beta_search.py:148-177 | `result` lowers only the mover's count at the ply's rank, by the ply's number (a pass changes no count); every other hand and rank is kept; the turn passes to the other side, which is 0 or 1; the ply becomes the last ply |
| Poker.PlyDecreases | alpha_beta_search.py:148-177 | a generated ply from a valid state gives a valid state (counts stay non-negative) with a smaller measure |
| Poker.Utility | alpha_beta_search.py:179-189 | the utility is +1 or -1, and -1 exactly for the player to move |
| Poker.UtilityZeroSum | alpha_beta_search.py:179-189 | the utility is zero-sum between players 0 and 1, -1 for the player to move and +1 for the other |
| Poker.TerminalTest | alpha_beta_search.py:191-202 | with non-negative counts, a state is final iff some player holds no card at all |
| Poker.IsTerminal | alpha_beta_search.py:191-202 | the source's scan with early return answers true iff some hand's counts sum to 0 |
| Poker.Sum | alpha_beta_search.py:196 | a hand of non-negative counts sums to at least 0, and to 0 iff every count is 0 |
| Poker.ToMove | alpha_beta_search.py:204-205 | the side to move is 0 or 1 in a valid state, and it is the side the utility scores -1 |
| Poker.SumUpdate | alpha_beta_search.py:163 | lowering one count changes the hand's sum by the same amount |
| Poker.PokerSound | alpha_beta_search.py:103-205 | the Poker rules form a sound game over valid states: every generated ply keeps the state valid and lowers the measure |
| Poker.NegativeCountBlocks | alpha_beta_search.py:134-139 | with a negative count, a state can be non-final and still have no action (hands [0, -1] and [1] after a pass) |
| Poker.PokerNonBlocking | alpha_beta_search.py:105-202 | the Poker rules form a sound game in which every valid state that is not final has at least one action |
| Poker.Search | alpha_beta_search.py:38-49 | on a valid state, the search returns exactly the unpruned minimax decision; it returns a ply iff the mover has one; the ply is one of the mover's actions and plays no more cards than the mover holds of its rank |
| Fig52.Actions | alpha_beta_search.py:218-219 | the actions of a node are the keys of its `succs` row, in table order; a leaf has none |
| Fig52.Result | alpha_beta_search.py:221-222 | the successor of a move is the one stored under that move in the node's `succs` row |
| Fig52.Utility | alpha_beta_search.py:224-228 | a leaf's utility is its `utils` entry for MAX and the negated entry for MIN |
| Fig52.UtilitiesZeroSum | alpha_beta_search.py:224-228 | the utilities of a leaf for MAX and for MIN are opposite |
| Fig52.TerminalTest | alpha_beta_search.py:230-231 | the terminal nodes are exactly the leaves |
| Fig52.TerminalTestIsDefault | alpha_beta_search.py:76-78 | the override agrees with the base class's default: a node is terminal iff it has no actions |
| Fig52.ToMove | alpha_beta_search.py:233-234 | MIN moves exactly at the inner nodes other than the root (B, C and D), MAX at A and at the leaves |
| Fig52.Fig52Sound | alpha_beta_search.py:208-234 | the tables form a sound game: every move leads one level down |
| Fig52.LeafValue | alpha_beta_search.py:224-228 | a leaf is worth its `utils` entry to MAX |
| Fig52.ValueOfB | alpha_beta_search.py:212 | branch B is worth min(2, 12, 8) = 2 |
| Fig52.ValueOfC | alpha_beta_search.py:213 | branch C is worth min(3, 4, 6) = 3 |
| Fig52.ValueOfD | alpha_beta_search.py:214 | branch D is worth min(14, 5, 2) = 2 |
| Fig52.ScanOfFirstTwo | alpha_beta_search.py:41-47 | after a1 and a2, the root loop holds a2 with score 3 |
| Fig52.DecisionAtA | alpha_beta_search.py:240-242 | plain minimax chooses a2 at A |
| Fig52.SearchFromA | alpha_beta_search.py:240-242 | `alphabeta_search('A', Fig52Game())` returns a2 |

## Left out

- The `print` calls at alpha_beta_search.py:42-43 and 48 are diagnostics. `print(v)` at line 48 raises `UnboundLocalError` when the root has no actions.
- AlphaBeta.AlphaBetaSearch: returns no action for a root without actions, where the source crashes at line 48.
- AlphaBeta.AlphaBetaSearch: also returns no action when every root value is -inf. The source does the same, because the strict `v > best_score` at line 45 never holds for -inf. This can only happen in a game with a non-final state without actions. No valid Poker state (Poker.PokerNonBlocking) and no Fig52 node (Fig52.TerminalTestIsDefault) is one; a Poker dictionary with a negative count can be (Poker.NegativeCountBlocks).
- AlphaBeta.MaxValue: fail-soft is stated for windows with alpha < beta only. With an empty window (the root passes alpha = beta = +inf once its best score is +inf) the result says nothing about the true value. The root does not need it there, since no value can beat +inf.
- AlphaBeta.MinValue: same restriction to alpha < beta as MaxValue.
- `Game.to_move` (alpha_beta_search.py:80-82) reads a `to_move` attribute of the state. States are abstract here, so each game supplies its own `toMove`.
- `Game.play_game`, `display` and `__repr__` (alpha_beta_search.py:84-100) are left out. They are a driver loop over player callbacks and printing.
- The module-level Poker driver (alpha_beta_search.py:244-249) is left out. Evaluating that search is exponential. Poker.Search states what any Poker search returns instead.
- `copy.deepcopy` (alpha_beta_search.py:151) is not a call: states are immutable values, so `result` cannot change its input.
- `float('inf')` is the `ExtInt` datatype. Every utility is an integer.
- Poker.Search: requires a valid state: two hands, non-negative counts, side 0 or 1, and a truthy previous ply of at least one card. The driver's state at lines 246-248 is one. `Measure` counts the cards left with `Sum`, which is a count only when no entry is negative. With a negative count, a state that is not final can also have no action (Poker.NegativeCountBlocks), so NonBlocking, and with it the "a ply iff the mover has one" clause of Search, would fail on such dictionaries. The condition on the previous ply is needed by `Measure` only: after a truthy ply of zero cards, an answer of zero cards keeps every count and stays truthy, so `Measure` does not fall, although the source's search still ends there because each answer has a higher rank than the ply it beats (line 123).
- A Poker card index is a natural number. Python's negative list indices are not modelled, and `result` requires the index to lie inside the mover's hand, where the source would raise `IndexError`.
- Fig52.ToMove: `state in 'BCD'` is a substring test in the source. It agrees with membership in {B, C, D} on every node of the tree, which is all the model has.
- Fig52 node, move and player labels are enumerations rather than strings.
- `utility` on an unknown Fig52 node (a `KeyError` in the source) is outside the model's domain.
