/** The sample evaluator that the game driver hands to the depth-limited
    search, and what it means for that search. */
module Heuristic {
  import opened RedBlueNim
  import opened MinimaxSpec

  /** Minus the weighted marble count for the player to move, plus it for the
      other player. The score is the one the utility uses, so on every state,
      terminal or not, this is the misere utility and the negation of the
      standard one. */
  function SampleEval(s: State, player: Player): (v: int)
    ensures v == Utility(Misere, s, player)
    ensures v == -Utility(Standard, s, player)
  {
    var value := 2 * s.red + 3 * s.blue;
    if s.toMove == player then -value else value
  }

  /** In the misere version the evaluator scores terminal states exactly, so
      a depth limit covering every remaining ply gives the full search's
      value and move. */
  lemma SampleEvalExactForMisere(g: Game, s: State, d: int)
    requires g.version == Misere && d >= s.red + s.blue
    ensures Value(SampleEval, s, ToMove(s), true, Plies(d)) == MinimaxValue(g, s, ToMove(s), true)
    ensures Decision(SampleEval, s, ToMove(s), true, Plies(d)) == MinimaxDecision(g, s, ToMove(s), true)
  {
    var p := ToMove(s);
    forall t | IsTerminal(t)
      ensures SampleEval(t, p) == Utility(g.version, t, p)
    {
    }
    DeepHorizonIsExact(g, SampleEval, s, p, true, d);
  }

  /** From one red and one blue marble the moves are to take either one, and
      each ends the game. */
  lemma OneOfEach(p: Player)
    ensures Actions(State(1, 1, p)) == [Take(Red, 1), Take(Blue, 1)]
    ensures Result(State(1, 1, p), Take(Red, 1)) == State(0, 1, Opponent(p))
    ensures Result(State(1, 1, p), Take(Blue, 1)) == State(1, 0, Opponent(p))
  {
  }

  /** There, whatever the depth limit, the depth-limited search with the
      sample evaluator takes the red marble, which leaves the larger score
      (3 against 2) to the opponent ... */
  lemma SampleEvalTakesRed(d: int)
    requires d != 0
    ensures Decision(SampleEval, State(1, 1, Computer), Computer, true, Plies(d)) == Some(Take(Red, 1))
  {
    hide Value, Decision, Actions, Result;
    var s := State(1, 1, Computer);
    OneOfEach(Computer);
    LeafNode(SampleEval, State(0, 1, Human), Computer, false, Plies(d - 1));
    LeafNode(SampleEval, State(1, 0, Human), Computer, false, Plies(d - 1));
    assert ChildrenSoFar(SampleEval, s, Computer, true, Plies(d), [3, 2]);
    InnerNode(SampleEval, s, Computer, true, Plies(d), [3, 2], 0);
  }

  /** ... while in the standard version emptying a pile loses the score left,
      so the full search takes the blue marble and loses 2 rather than 3. */
  lemma StandardTakesBlue(g: Game)
    requires g.version == Standard
    ensures MinimaxValue(g, State(1, 1, Computer), Computer, true) == -2
    ensures MinimaxDecision(g, State(1, 1, Computer), Computer, true) == Some(Take(Blue, 1))
  {
    hide Value, Decision, Actions, Result;
    var s := State(1, 1, Computer);
    var utility := UtilityEval(g);
    OneOfEach(Computer);
    LeafNode(utility, State(0, 1, Human), Computer, false, Unbounded);
    LeafNode(utility, State(1, 0, Human), Computer, false, Unbounded);
    assert ChildrenSoFar(utility, s, Computer, true, Unbounded, [-3, -2]);
    InnerNode(utility, s, Computer, true, Unbounded, [-3, -2], 1);
  }

  /** So in the standard version the sample evaluator does not give the full
      search's move, however deep the limit. */
  lemma SampleEvalMisleadsStandard(g: Game, d: int)
    requires g.version == Standard && d != 0
    ensures Decision(SampleEval, State(1, 1, Computer), Computer, true, Plies(d))
            != MinimaxDecision(g, State(1, 1, Computer), Computer, true)
  {
    SampleEvalTakesRed(d);
    StandardTakesBlue(g);
  }
}
