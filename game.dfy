/** The Red-Blue Nim game: two piles of marbles, a move takes one or two
    marbles from one pile, and the game ends as soon as either pile is empty.
    States are immutable values; every operation is a pure function. */
module RedBlueNim {

  datatype Player = Computer | Human
  datatype Version = Standard | Misere
  datatype Pile = Red | Blue

  /** How many marbles one move removes. */
  type Count = c: int | 1 <= c <= 2 witness 1

  datatype Action = Take(pile: Pile, count: Count)

  /** A position: the two pile sizes and the player who moves next. */
  datatype State = State(red: nat, blue: nat, toMove: Player)

  /** A game: the scoring rule and the initial state, both fixed at creation. */
  datatype Game = Game(version: Version, initial: State)

  function Opponent(p: Player): (q: Player)
    ensures q != p
  {
    if p == Computer then Human else Computer
  }

  /** The initial state S0 of a new game. */
  function NewGame(numRed: nat, numBlue: nat, version: Version := Standard, firstPlayer: Player := Computer): (g: Game)
    ensures g.version == version
    ensures ToMove(g.initial) == firstPlayer
    ensures PileSize(g.initial, Red) == numRed && PileSize(g.initial, Blue) == numBlue
  {
    Game(version, State(numRed, numBlue, firstPlayer))
  }

  /** Without a version or a first player, a game is standard and the
      computer moves first. */
  lemma NewGameDefaults(numRed: nat, numBlue: nat)
    ensures NewGame(numRed, numBlue).version == Standard
    ensures ToMove(NewGame(numRed, numBlue).initial) == Computer
  {
  }

  function ToMove(s: State): Player
  {
    s.toMove
  }

  function PileSize(s: State, pile: Pile): nat
  {
    match pile
    case Red => s.red
    case Blue => s.blue
  }

  /** An action is legal when its pile holds at least as many marbles as it removes. */
  predicate Legal(s: State, a: Action)
  {
    a.count <= PileSize(s, a.pile)
  }

  /** Every conceivable action, in the order the game enumerates them. */
  const AllActions: seq<Action> := [Take(Red, 1), Take(Red, 2), Take(Blue, 1), Take(Blue, 2)]

  /** The elements of `cands` that are legal in `s`, in their order. */
  function KeepLegal(s: State, cands: seq<Action>): seq<Action>
  {
    if cands == [] then []
    else (if Legal(s, cands[0]) then [cands[0]] else []) + KeepLegal(s, cands[1..])
  }

  /** KeepLegal keeps exactly the legal candidates. */
  lemma {:induction false} KeepLegalKeeps(s: State, cands: seq<Action>)
    ensures forall a :: a in KeepLegal(s, cands) <==> a in cands && Legal(s, a)
    ensures |KeepLegal(s, cands)| <= |cands|
  {
    if cands != [] {
      KeepLegalKeeps(s, cands[1..]);
      assert forall a :: a in cands <==> a == cands[0] || a in cands[1..];
    }
  }

  /** The legal actions of `s`, built by four guarded appends. */
  function Actions(s: State): (acts: seq<Action>)
    ensures forall a :: a in acts <==> Legal(s, a)
    ensures !IsTerminal(s) ==> |acts| > 0
  {
    (if s.red >= 1 then [Take(Red, 1)] else [])
    + (if s.red >= 2 then [Take(Red, 2)] else [])
    + (if s.blue >= 1 then [Take(Blue, 1)] else [])
    + (if s.blue >= 2 then [Take(Blue, 2)] else [])
  }

  /** The successor state: the chosen pile shrinks, the other pile is kept,
      and the turn passes to the opponent. */
  function Result(s: State, a: Action): (t: State)
    requires Legal(s, a)
    ensures PileSize(t, a.pile) == PileSize(s, a.pile) - a.count
    ensures forall other :: other != a.pile ==> PileSize(t, other) == PileSize(s, other)
    ensures ToMove(t) == Opponent(ToMove(s))
    ensures t.red + t.blue == s.red + s.blue - a.count
  {
    match a.pile
    case Red => State(s.red - a.count, s.blue, Opponent(s.toMove))
    case Blue => State(s.red, s.blue - a.count, Opponent(s.toMove))
  }

  /** The game is over exactly when some pile cannot give up even one marble. */
  predicate IsTerminal(s: State): (over: bool)
    ensures !over <==> Legal(s, Take(Red, 1)) && Legal(s, Take(Blue, 1))
  {
    s.red == 0 || s.blue == 0
  }

  /** The magnitude of every utility: two points per red marble, three per blue. */
  function Score(s: State): int
  {
    2 * s.red + 3 * s.blue
  }

  /** The value of `s` for `player`. In the standard version the player to
      move at a terminal state wins the score; in the misere version that
      player loses it. */
  function Utility(version: Version, s: State, player: Player): (u: int)
    ensures u == Score(s) || u == -Score(s)
    ensures u >= 0 <==> (player == ToMove(s)) == (version == Standard) || Score(s) == 0
  {
    match version
    case Standard => if s.toMove != player then -Score(s) else Score(s)
    case Misere => if s.toMove != player then Score(s) else -Score(s)
  }

  // ---------------------------------------------------------------
  // Properties of the rules
  // ---------------------------------------------------------------

  /** The enumeration is the fixed candidate list red-1, red-2, blue-1,
      blue-2 filtered by legality: each candidate appears exactly when its
      pile is large enough, and in that relative order. */
  lemma {:induction false} ActionsEnumerationOrder(s: State)
    ensures Actions(s) == KeepLegal(s, AllActions)
  {
    var c0 := AllActions;
    var c1, c2, c3 := c0[1..], c0[2..], c0[3..];
    assert c1 == [Take(Red, 2), Take(Blue, 1), Take(Blue, 2)];
    assert c2 == c1[1..] == [Take(Blue, 1), Take(Blue, 2)];
    assert c3 == c2[1..] == [Take(Blue, 2)];
    assert c3[1..] == [];
    assert KeepLegal(s, c3) == (if s.blue >= 2 then [Take(Blue, 2)] else []);
    var blues := KeepLegal(s, c2);
    if s.blue == 0 {
      assert blues == [];
    } else if s.blue == 1 {
      assert blues == [Take(Blue, 1)];
    } else {
      assert blues == [Take(Blue, 1), Take(Blue, 2)];
    }
    if s.red == 0 {
      assert KeepLegal(s, c0) == blues;
    } else if s.red == 1 {
      assert KeepLegal(s, c0) == [Take(Red, 1)] + blues;
    } else {
      assert KeepLegal(s, c0) == [Take(Red, 1), Take(Red, 2)] + blues;
    }
  }

  /** No action is listed twice. */
  lemma ActionsDistinct(s: State)
    ensures forall i, j :: 0 <= i < j < |Actions(s)| ==> Actions(s)[i] != Actions(s)[j]
  {
  }

  /** Having legal actions does not mean the game goes on: with one pile
      empty the other pile's moves are still enumerated. */
  lemma TerminalStateWithActions(p: Player)
    ensures IsTerminal(State(2, 0, p))
    ensures Actions(State(2, 0, p)) == [Take(Red, 1), Take(Red, 2)]
  {
  }

  /** A legal move removes one or two marbles and keeps both piles non-negative,
      so `red + blue` is a measure that every move decreases. */
  lemma ResultDecreasesMarbles(s: State, a: Action)
    requires a in Actions(s)
    ensures Result(s, a).red + Result(s, a).blue < s.red + s.blue
    ensures s.red + s.blue - 2 <= Result(s, a).red + Result(s, a).blue
  {
  }

  /** The turn alternates: a move hands it to the other player and a reply
      hands it back, whoever started. */
  lemma TurnOrder(s: State, a: Action, b: Action)
    requires a in Actions(s) && b in Actions(Result(s, a))
    ensures ToMove(Result(s, a)) != ToMove(s)
    ensures ToMove(Result(Result(s, a), b)) == ToMove(s)
  {
  }

  /** Zero-sum: what one player gains the other loses, in either version. */
  lemma ZeroSum(version: Version, s: State)
    ensures Utility(version, s, Computer) == -Utility(version, s, Human)
    ensures Utility(version, s, Human) == -Utility(version, s, Computer)
  {
  }

  lemma MisereNegatesStandard(s: State, player: Player)
    ensures Utility(Misere, s, player) == -Utility(Standard, s, player)
  {
  }
}
