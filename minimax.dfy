/** The three search procedures: full minimax, fail-soft alpha-beta, and
    depth-limited alpha-beta with a supplied evaluator. Each value method
    walks the actions of its state in enumeration order, keeping a running
    best value and best move, and is proved against the game-tree values
    of MinimaxSpec. */
module Minimax {
  import opened RedBlueNim
  import opened ExtendedInt
  import opened MinimaxSpec

  // ---------------------------------------------------------------
  // Full minimax
  // ---------------------------------------------------------------

  /** The move for the player to move in `s`, who is the maximising side of
      the whole search. */
  method MinimaxSearch(g: Game, s: State) returns (move: Option<Action>)
    ensures move == MinimaxDecision(g, s, ToMove(s), true)
  {
    var player := ToMove(s);
    var _, m := MaxValue(g, s, player);
    move := m;
  }

  method MaxValue(g: Game, s: State, player: Player) returns (v: ExtInt, move: Option<Action>)
    ensures v == Fin(MinimaxValue(g, s, player, true))
    ensures move == MinimaxDecision(g, s, player, true)
    decreases s.red + s.blue, 1
  {
    hide Value, Decision, Actions, Extreme, Children, MaxUncut, MinUncut, MaxStopsAt, MinStopsAt;
    if IsTerminal(s) {
      LeafNode(UtilityEval(g), s, player, true, Unbounded);
      return Fin(Utility(g.version, s, player)), None;
    }
    v, move := NegInf, None;
    var acts := Actions(s);
    ghost var cs: seq<int> := [];
    ghost var k := 0;
    for i := 0 to |acts|
      invariant i == |cs|
      invariant ChildrenSoFar(UtilityEval(g), s, player, true, Unbounded, cs)
      invariant i == 0 ==> v == NegInf && move == None
      invariant i > 0 ==> FirstBest(true, cs, k) && v == Fin(cs[k]) && move == Some(acts[k])
    {
      var a := acts[i];
      var v2, _ := MinValue(g, Result(s, a), player);
      ghost var x := MinimaxValue(g, Result(s, a), player, false);
      assert Lt(v, v2) <==> (i == 0 || Beats(true, x, cs[k]));
      FirstBestStep(true, cs, x, k);
      ChildrenSoFarSnoc(UtilityEval(g), s, player, true, Unbounded, Unbounded, cs, a, x);
      if Lt(v, v2) {
        v, move := v2, Some(a);
        k := i;
      }
      cs := cs + [x];
    }
    InnerNode(UtilityEval(g), s, player, true, Unbounded, cs, k);
  }

  method MinValue(g: Game, s: State, player: Player) returns (v: ExtInt, move: Option<Action>)
    ensures v == Fin(MinimaxValue(g, s, player, false))
    ensures move == MinimaxDecision(g, s, player, false)
    decreases s.red + s.blue, 1
  {
    hide Value, Decision, Actions, Extreme, Children, MaxUncut, MinUncut, MaxStopsAt, MinStopsAt;
    if IsTerminal(s) {
      LeafNode(UtilityEval(g), s, player, false, Unbounded);
      return Fin(Utility(g.version, s, player)), None;
    }
    v, move := PosInf, None;
    var acts := Actions(s);
    ghost var cs: seq<int> := [];
    ghost var k := 0;
    for i := 0 to |acts|
      invariant i == |cs|
      invariant ChildrenSoFar(UtilityEval(g), s, player, false, Unbounded, cs)
      invariant i == 0 ==> v == PosInf && move == None
      invariant i > 0 ==> FirstBest(false, cs, k) && v == Fin(cs[k]) && move == Some(acts[k])
    {
      var a := acts[i];
      var v2, _ := MaxValue(g, Result(s, a), player);
      ghost var x := MinimaxValue(g, Result(s, a), player, true);
      assert Lt(v2, v) <==> (i == 0 || Beats(false, x, cs[k]));
      FirstBestStep(false, cs, x, k);
      ChildrenSoFarSnoc(UtilityEval(g), s, player, false, Unbounded, Unbounded, cs, a, x);
      if Lt(v2, v) {
        v, move := v2, Some(a);
        k := i;
      }
      cs := cs + [x];
    }
    InnerNode(UtilityEval(g), s, player, false, Unbounded, cs, k);
  }

  // ---------------------------------------------------------------
  // Alpha-beta
  // ---------------------------------------------------------------

  /** Alpha-beta from the infinite window: the same move as MinimaxSearch. */
  method AlphaBetaSearch(g: Game, s: State) returns (move: Option<Action>)
    ensures move == MinimaxDecision(g, s, ToMove(s), true)
  {
    var player := ToMove(s);
    var _, m, _ := MaxValueAB(g, s, player, NegInf, PosInf);
    move := m;
  }

  method MaxValueAB(g: Game, s: State, player: Player, alpha: ExtInt, beta: ExtInt)
    returns (v: ExtInt, move: Option<Action>, ghost explored: nat)
    ensures v.Fin?
    ensures FailSoft(alpha, beta, v, MinimaxValue(g, s, player, true))
    ensures alpha == NegInf && beta == PosInf ==> move == MinimaxDecision(g, s, player, true)
    ensures IsTerminal(s) ==> v == Fin(Utility(g.version, s, player)) && move == None && explored == 0
    ensures !(IsTerminal(s)) ==> 0 < explored <= |Actions(s)| && move.Some? && Legal(s, move.value)
    ensures !(IsTerminal(s)) && explored < |Actions(s)| ==> Le(beta, v)
    ensures !(IsTerminal(s)) && Lt(alpha, beta) ==> MaxStopsAt(beta, Children(UtilityEval(g), s, player, true, Unbounded), explored)
    decreases s.red + s.blue, 1
  {
    hide Value, Decision, Actions, Extreme, Children, MaxUncut, MinUncut, MaxStopsAt, MinStopsAt;
    if IsTerminal(s) {
      LeafNode(UtilityEval(g), s, player, true, Unbounded);
      return Fin(Utility(g.version, s, player)), None, 0;
    }
    v, move := NegInf, None;
    var alpha' := alpha;
    LoopStart(alpha, beta);
    var acts := Actions(s);
    ghost var cs: seq<int> := [];
    ghost var k := 0;
    var i := 0;
    while i < |acts|
      invariant i == |cs|
      invariant ChildrenSoFar(UtilityEval(g), s, player, true, Unbounded, cs)
      invariant MaxLoop(alpha, beta, v, k, cs)
      invariant alpha' == Max(alpha, v)
      invariant i == 0 ==> move == None
      invariant i > 0 ==> move == Some(acts[k]) && !Le(beta, v)
    {
      var a := acts[i];
      var v2, _, _ := MinValueAB(g, Result(s, a), player, alpha', beta);
      ghost var x := MinimaxValue(g, Result(s, a), player, false);
      ghost var before, kBefore := v, k;
      if Lt(v, v2) {
        v, move := v2, Some(a);
        k := i;
      }
      MaxNodeStep(UtilityEval(g), s, player, Unbounded, Unbounded, alpha, beta, alpha', before, kBefore, cs, a, x, v2, v, k);
      cs := cs + [x];
      alpha' := Max(alpha', v);
      i := i + 1;
      if Le(beta, v) {  // beta cutoff
        break;
      }
    }
    explored := i;
    MaxNodeDone(UtilityEval(g), s, player, Unbounded, alpha, beta, v, k, cs);
  }

  method MinValueAB(g: Game, s: State, player: Player, alpha: ExtInt, beta: ExtInt)
    returns (v: ExtInt, move: Option<Action>, ghost explored: nat)
    ensures v.Fin?
    ensures FailSoft(alpha, beta, v, MinimaxValue(g, s, player, false))
    ensures alpha == NegInf && beta == PosInf ==> move == MinimaxDecision(g, s, player, false)
    ensures IsTerminal(s) ==> v == Fin(Utility(g.version, s, player)) && move == None && explored == 0
    ensures !(IsTerminal(s)) ==> 0 < explored <= |Actions(s)| && move.Some? && Legal(s, move.value)
    ensures !(IsTerminal(s)) && explored < |Actions(s)| ==> Le(v, alpha)
    ensures !(IsTerminal(s)) && Lt(alpha, beta) ==> MinStopsAt(alpha, Children(UtilityEval(g), s, player, false, Unbounded), explored)
    decreases s.red + s.blue, 1
  {
    hide Value, Decision, Actions, Extreme, Children, MaxUncut, MinUncut, MaxStopsAt, MinStopsAt;
    if IsTerminal(s) {
      LeafNode(UtilityEval(g), s, player, false, Unbounded);
      return Fin(Utility(g.version, s, player)), None, 0;
    }
    v, move := PosInf, None;
    var beta' := beta;
    LoopStart(alpha, beta);
    var acts := Actions(s);
    ghost var cs: seq<int> := [];
    ghost var k := 0;
    var i := 0;
    while i < |acts|
      invariant i == |cs|
      invariant ChildrenSoFar(UtilityEval(g), s, player, false, Unbounded, cs)
      invariant MinLoop(alpha, beta, v, k, cs)
      invariant beta' == Min(beta, v)
      invariant i == 0 ==> move == None
      invariant i > 0 ==> move == Some(acts[k]) && !Le(v, alpha)
    {
      var a := acts[i];
      var v2, _, _ := MaxValueAB(g, Result(s, a), player, alpha, beta');
      ghost var x := MinimaxValue(g, Result(s, a), player, true);
      ghost var before, kBefore := v, k;
      if Lt(v2, v) {
        v, move := v2, Some(a);
        k := i;
      }
      MinNodeStep(UtilityEval(g), s, player, Unbounded, Unbounded, alpha, beta, beta', before, kBefore, cs, a, x, v2, v, k);
      cs := cs + [x];
      beta' := Min(beta', v);
      i := i + 1;
      if Le(v, alpha) {  // alpha cutoff
        break;
      }
    }
    explored := i;
    MinNodeDone(UtilityEval(g), s, player, Unbounded, alpha, beta, v, k, cs);
  }

  // ---------------------------------------------------------------
  // Depth-limited alpha-beta
  // ---------------------------------------------------------------

  /** Depth-limited alpha-beta: the best move with respect to `eval` applied
      `depthLimit` plies down (or at terminal states). When the limit covers
      every remaining ply and `eval` agrees with the utility on terminal
      states, this is the full search's move. */
  method AlphaBetaLimited(g: Game, s: State, depthLimit: int, eval: Evaluator) returns (move: Option<Action>)
    ensures move == Decision(eval, s, ToMove(s), true, Plies(depthLimit))
    ensures depthLimit >= s.red + s.blue
            && (forall t {:trigger eval(t, ToMove(s))} :: IsTerminal(t) ==> eval(t, ToMove(s)) == Utility(g.version, t, ToMove(s)))
            ==> move == MinimaxDecision(g, s, ToMove(s), true)
  {
    var player := ToMove(s);
    var _, m, _ := MaxValueDL(g, s, player, NegInf, PosInf, depthLimit, eval);
    move := m;
    if depthLimit >= s.red + s.blue
       && forall t {:trigger eval(t, player)} :: IsTerminal(t) ==> eval(t, player) == Utility(g.version, t, player)
    {
      DeepHorizonIsExact(g, eval, s, player, true, depthLimit);
    }
  }

  method MaxValueDL(g: Game, s: State, player: Player, alpha: ExtInt, beta: ExtInt, depth: int, eval: Evaluator)
    returns (v: ExtInt, move: Option<Action>, ghost explored: nat)
    ensures v.Fin?
    ensures FailSoft(alpha, beta, v, Value(eval, s, player, true, Plies(depth)))
    ensures alpha == NegInf && beta == PosInf ==> move == Decision(eval, s, player, true, Plies(depth))
    ensures IsTerminal(s) || depth == 0 ==> v == Fin(eval(s, player)) && move == None && explored == 0
    ensures !(IsTerminal(s) || depth == 0) ==> 0 < explored <= |Actions(s)| && move.Some? && Legal(s, move.value)
    ensures !(IsTerminal(s) || depth == 0) && explored < |Actions(s)| ==> Le(beta, v)
    ensures !(IsTerminal(s) || depth == 0) && Lt(alpha, beta) ==> MaxStopsAt(beta, Children(eval, s, player, true, Plies(depth)), explored)
    decreases s.red + s.blue, 1
  {
    hide Value, Decision, Actions, Extreme, Children, MaxUncut, MinUncut, MaxStopsAt, MinStopsAt;
    if IsTerminal(s) || depth == 0 {
      LeafNode(eval, s, player, true, Plies(depth));
      return Fin(eval(s, player)), None, 0;
    }
    v, move := NegInf, None;
    var alpha' := alpha;
    LoopStart(alpha, beta);
    var acts := Actions(s);
    ghost var cs: seq<int> := [];
    ghost var k := 0;
    var i := 0;
    while i < |acts|
      invariant i == |cs|
      invariant ChildrenSoFar(eval, s, player, true, Plies(depth), cs)
      invariant MaxLoop(alpha, beta, v, k, cs)
      invariant alpha' == Max(alpha, v)
      invariant i == 0 ==> move == None
      invariant i > 0 ==> move == Some(acts[k]) && !Le(beta, v)
    {
      var a := acts[i];
      var v2, _, _ := MinValueDL(g, Result(s, a), player, alpha', beta, depth - 1, eval);
      ghost var x := Value(eval, Result(s, a), player, false, Plies(depth - 1));
      ghost var before, kBefore := v, k;
      if Lt(v, v2) {
        v, move := v2, Some(a);
        k := i;
      }
      MaxNodeStep(eval, s, player, Plies(depth), Plies(depth - 1), alpha, beta, alpha', before, kBefore, cs, a, x, v2, v, k);
      cs := cs + [x];
      alpha' := Max(alpha', v);
      i := i + 1;
      if Le(beta, v) {  // beta cutoff
        break;
      }
    }
    explored := i;
    MaxNodeDone(eval, s, player, Plies(depth), alpha, beta, v, k, cs);
  }

  method MinValueDL(g: Game, s: State, player: Player, alpha: ExtInt, beta: ExtInt, depth: int, eval: Evaluator)
    returns (v: ExtInt, move: Option<Action>, ghost explored: nat)
    ensures v.Fin?
    ensures FailSoft(alpha, beta, v, Value(eval, s, player, false, Plies(depth)))
    ensures alpha == NegInf && beta == PosInf ==> move == Decision(eval, s, player, false, Plies(depth))
    ensures IsTerminal(s) || depth == 0 ==> v == Fin(eval(s, player)) && move == None && explored == 0
    ensures !(IsTerminal(s) || depth == 0) ==> 0 < explored <= |Actions(s)| && move.Some? && Legal(s, move.value)
    ensures !(IsTerminal(s) || depth == 0) && explored < |Actions(s)| ==> Le(v, alpha)
    ensures !(IsTerminal(s) || depth == 0) && Lt(alpha, beta) ==> MinStopsAt(alpha, Children(eval, s, player, false, Plies(depth)), explored)
    decreases s.red + s.blue, 1
  {
    hide Value, Decision, Actions, Extreme, Children, MaxUncut, MinUncut, MaxStopsAt, MinStopsAt;
    if IsTerminal(s) || depth == 0 {
      LeafNode(eval, s, player, false, Plies(depth));
      return Fin(eval(s, player)), None, 0;
    }
    v, move := PosInf, None;
    var beta' := beta;
    LoopStart(alpha, beta);
    var acts := Actions(s);
    ghost var cs: seq<int> := [];
    ghost var k := 0;
    var i := 0;
    while i < |acts|
      invariant i == |cs|
      invariant ChildrenSoFar(eval, s, player, false, Plies(depth), cs)
      invariant MinLoop(alpha, beta, v, k, cs)
      invariant beta' == Min(beta, v)
      invariant i == 0 ==> move == None
      invariant i > 0 ==> move == Some(acts[k]) && !Le(v, alpha)
    {
      var a := acts[i];
      var v2, _, _ := MaxValueDL(g, Result(s, a), player, alpha, beta', depth - 1, eval);
      ghost var x := Value(eval, Result(s, a), player, true, Plies(depth - 1));
      ghost var before, kBefore := v, k;
      if Lt(v2, v) {
        v, move := v2, Some(a);
        k := i;
      }
      MinNodeStep(eval, s, player, Plies(depth), Plies(depth - 1), alpha, beta, beta', before, kBefore, cs, a, x, v2, v, k);
      cs := cs + [x];
      beta' := Min(beta', v);
      i := i + 1;
      if Le(v, alpha) {  // alpha cutoff
        break;
      }
    }
    explored := i;
    MinNodeDone(eval, s, player, Plies(depth), alpha, beta, v, k, cs);
  }
}
