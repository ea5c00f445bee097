/** The game tree of Figure 5.2 of Russell and Norvig: MAX moves at A, MIN at
    B, C and D, and the nine leaves carry MAX's utilities. The node and move
    labels of the source's tables, and its two player strings, are
    enumerations here. */
module Fig52 {
  import opened Games
  import opened ExtendedInt
  import Minimax
  import AlphaBeta

  datatype Node = A | B | C | D | B1 | B2 | B3 | C1 | C2 | C3 | D1 | D2 | D3

  /** The two player labels of the source, MAX and MIN. */
  datatype Player = MAX | MIN

  datatype Move = a1 | a2 | a3 | b1 | b2 | b3 | c1 | c2 | c3 | d1 | d2 | d3

  /** The successor table `succs`: for each inner node, its (move, successor)
      pairs in the order the table lists them; no row for a leaf. */
  function Succs(s: Node): seq<(Move, Node)>
  {
    match s
    case A => [(a1, B), (a2, C), (a3, D)]
    case B => [(b1, B1), (b2, B2), (b3, B3)]
    case C => [(c1, C1), (c2, C2), (c3, C3)]
    case D => [(d1, D1), (d2, D2), (d3, D3)]
    case _ => []
  }

  /** The nodes that have a row in `succs`. */
  predicate HasRow(s: Node)
  {
    s.A? || s.B? || s.C? || s.D?
  }

  /** The nodes that have an entry in `utils`. */
  predicate IsLeaf(s: Node)
  {
    !HasRow(s)
  }

  /** The utility table `utils`: MAX's utility of each leaf. */
  function Utils(s: Node): int
    requires IsLeaf(s)
  {
    match s
    case B1 => 2 case B2 => 12 case B3 => 8
    case C1 => 3 case C2 => 4 case C3 => 6
    case D1 => 14 case D2 => 5 case D3 => 2
  }

  /** Fig52Game.actions: the moves of the state's row of `succs` (every row
      has three entries), in the table's order; none for a leaf. */
  function Actions(s: Node): (r: seq<Move>)
    ensures |r| == |Succs(s)|
    ensures |r| == 3 ==> r == [Succs(s)[0].0, Succs(s)[1].0, Succs(s)[2].0]
    ensures |r| == 0 <==> IsLeaf(s)
  {
    match s
    case A => [a1, a2, a3]
    case B => [b1, b2, b3]
    case C => [c1, c2, c3]
    case D => [d1, d2, d3]
    case _ => []
  }

  /** Fig52Game.result: the successor `succs` stores under the move; defined
      for the state's own moves only (the table lookup fails otherwise). */
  function Result(s: Node, m: Move): (r: Node)
    requires m in Actions(s)
    ensures exists i :: 0 <= i < |Succs(s)| && Succs(s)[i] == (m, r)
  {
    match m
    case a1 => B case a2 => C case a3 => D
    case b1 => B1 case b2 => B2 case b3 => B3
    case c1 => C1 case c2 => C2 case c3 => C3
    case d1 => D1 case d2 => D2 case d3 => D3
  }

  /** Fig52Game.utility: the table value for MAX, its negation for anyone else. */
  function Utility(s: Node, player: Player): (r: int)
    requires IsLeaf(s)
    ensures player == MAX ==> r == Utils(s)
    ensures player == MIN ==> r == -Utils(s)
  {
    if player == MAX then Utils(s) else -Utils(s)
  }

  /** Fig52Game.terminal_test: exactly the leaves. */
  function TerminalTest(s: Node): (r: bool)
    ensures r <==> IsLeaf(s)
  {
    s !in {A, B, C, D}
  }

  /** The override agrees with the base class's default: the terminal nodes
      are exactly the nodes without moves. */
  lemma TerminalTestIsDefault(s: Node)
    ensures TerminalTest(s) <==> Actions(s) == []
  {
  }

  /** Fig52Game.to_move: MIN at the three inner nodes below the root, MAX at
      the root and at the leaves. */
  function ToMove(s: Node): (r: Player)
    ensures r == MIN <==> HasRow(s) && s != A
  {
    if s in {B, C, D} then MIN else MAX
  }

  /** Every node of the tree. */
  predicate Valid(s: Node)
  {
    true
  }

  /** Height of a node above the leaves. */
  function Measure(s: Node): nat
  {
    if s == A then 2 else if HasRow(s) then 1 else 0
  }

  function Fig52Game(): Game<Node, Move, Player>
  {
    Game(
      s => Actions(s),
      (s: Node, m: Move) requires m in Actions(s) => Result(s, m),
      (s: Node, p: Player) requires IsLeaf(s) => Utility(s, p),
      s => TerminalTest(s),
      s => ToMove(s),
      s => Valid(s),
      s => Measure(s))
  }

  /** Every move of the tables leads one level down the tree. */
  lemma Fig52Sound()
    ensures Sound(Fig52Game())
  {
    var g := Fig52Game();
    forall s, i | 0 <= i < |Actions(s)|
      ensures Actions(s)[i] in Actions(s) && Measure(Result(s, Actions(s)[i])) < Measure(s)
    {
      assert HasRow(s);
    }
  }

  /** The utilities of a leaf for MAX and for MIN are opposite. */
  lemma UtilitiesZeroSum(s: Node)
    requires IsLeaf(s)
    ensures Utility(s, MAX) == -Utility(s, MIN)
  {
  }

  /** The search player is MAX and scores a leaf with its table entry. */
  lemma LeafValue(l: Node)
    requires IsLeaf(l)
    ensures Sound(Fig52Game()) && Minimax.MaxV(Fig52Game(), MAX, l) == Fin(Utils(l))
  {
    Fig52Sound();
  }

  /** The branch minima are 2, 3 and 2. */
  lemma ValueOfB()
    ensures Sound(Fig52Game()) && Minimax.MinV(Fig52Game(), MAX, B) == Fin(2)
  {
    Fig52Sound();
  }

  lemma ValueOfC()
    ensures Sound(Fig52Game()) && Minimax.MinV(Fig52Game(), MAX, C) == Fin(3)
  {
    Fig52Sound();
  }

  lemma ValueOfD()
    ensures Sound(Fig52Game()) && Minimax.MinV(Fig52Game(), MAX, D) == Fin(2)
  {
    Fig52Sound();
  }

  /** After the first two moves of A, minimax holds a2 with value 3. */
  lemma ScanOfFirstTwo()
    ensures Sound(Fig52Game()) && Minimax.RootScan(Fig52Game(), A, 2) == Minimax.Scan(Fin(3), Some(1))
  {
    ValueOfB(); ValueOfC();
  }

  /** Minimax chooses a2 at A, the first move of largest branch minimum. */
  lemma DecisionAtA()
    ensures Sound(Fig52Game()) && Minimax.Decision(Fig52Game(), A) == Some(a2)
  {
    ScanOfFirstTwo(); ValueOfD();
  }

  /** Alpha-beta search from A (the source's driver for this tree) answers a2. */
  method SearchFromA() returns (best: Option<Move>)
    ensures best == Some(a2)
  {
    Fig52Sound();
    best := AlphaBeta.AlphaBetaSearch(Fig52Game(), A);
    DecisionAtA();
  }
}
