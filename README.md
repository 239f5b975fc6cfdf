# Red-Blue Nim adversarial search, modelled in Dafny

This project models the core of a small adversarial search engine and the
game it is shown on.

**The game (Red-Blue Nim).** There are two piles of marbles, red and blue.
A move takes one or two marbles from one pile. The game ends as soon as
either pile is empty. The score of a terminal state is `2 * red + 3 * blue`.
In the standard version the player to move at the end wins the score; in
the misère version that player loses it.

**The search engine.** It has three root procedures, each built from a pair
of mutually recursive MAX/MIN value functions:

- full minimax;
- fail-soft alpha-beta;
- depth-limited alpha-beta, which scores a state with a supplied evaluator
  once the depth counter reaches 0 or the state is terminal.

Each value function walks the legal actions in enumeration order. It keeps a
running best value and best move, replaces them only on a strict
improvement, and, in the alpha-beta variants, tightens `alpha` or `beta` and
stops on a cutoff.

Modules:

- `ExtendedInt` (`extint.dfy`): integers with `NegInf` and `PosInf`. These
  stand in for the floating-point infinities that the search uses as
  initial running values and as the initial window.
- `RedBlueNim` (`game.dfy`): the game as pure functions over immutable
  states: `NewGame`, `ToMove`, `Actions`, `Result`, `IsTerminal`,
  `Utility`.
- `MinimaxSpec` (`minimax_spec.dfy`): the game-tree value of a node as one
  recursive function, `Value(leaf, s, p, isMax, h)`. Its parameters are:
  - the leaf evaluator: the utility for a full search, the supplied
    evaluator for a depth-limited one;
  - the root player `p`, from whose viewpoint every value is taken;
  - the side that chooses at the node;
  - the horizon: `Unbounded`, or `Plies(d)` with an integer depth counter.

  `Decision` is the move a search returns at a node: the first action, in
  enumeration order, whose child attains the node's value. The module also
  holds the invariants of one loop iteration and the fail-soft contract.
- `Minimax` (`minimax.dfy`): the six value functions as methods with `for`
  and `while` loops, and the three root procedures. Each method is proved
  against `Value` and `Decision`.
- `Heuristic` (`heuristic.dfy`): the sample evaluator that the game's
  driver passes to the depth-limited search, and what that search then
  computes.

The search procedures are imperative in the source. Their methods carry:

- a ghost sequence `cs` of the exact values of the children scanned so far;
- a ghost index `k` of the running best child;
- a ghost count `explored` of the actions examined before a cutoff.

None of these changes what the methods compute.

One might expect an empty action list exactly at terminal states. The code
does not do this, and the model follows the code: it lists every move the
piles allow, so `State(2, 0, p)` is terminal yet has two actions
(`TerminalStateWithActions`). The search never looks at that list at a
terminal state.

## Model

| member | source | states |
|---|---|---|
| ExtendedInt.Max | minimax.py:143 | `alpha := max(alpha, v)` never lowers alpha: the result is at least both arguments and is one of them |
| ExtendedInt.Min | minimax.py:174 | `beta := min(beta, v)` never raises beta: the result is at most both arguments and is one of them |
| ExtendedInt.TotalOrder | minimax.py:63 | the order on values with infinities is a total order, so a strict `>` is the negation of `<=` |
| RedBlueNim.Opponent | game.py:127 | the turn always passes to the other player |
| RedBlueNim.NewGame | game.py:38-55 | the initial state holds the given pile sizes and the given first player, and the game keeps the given version; the version defaults to standard and the first player to the computer |
| RedBlueNim.Actions | game.py:75-102 | an action is listed exactly when its pile holds at least as many marbles as it removes; a non-terminal state has at least one action |
| RedBlueNim.KeepLegalKeeps | game.py:93-100 | filtering the candidate moves keeps exactly the legal ones |
| RedBlueNim.ActionsEnumerationOrder | game.py:91-102 | the actions are the candidates red-1, red-2, blue-1, blue-2 filtered by legality, in that order |
| RedBlueNim.ActionsDistinct | game.py:91-102 | no action is listed twice |
| RedBlueNim.TerminalStateWithActions | game.py:93-100 | a terminal state such as (2, 0, p) still has the actions red-1 and red-2 |
| RedBlueNim.Result | game.py:119-128 | the chosen pile loses `count` marbles, the other pile is unchanged, the turn passes to the opponent, and the marble total drops by `count` |
| RedBlueNim.ResultDecreasesMarbles | game.py:93-100 | a legal move lowers `red + blue` by at least 1 and at most 2, so every search terminates |
| RedBlueNim.ZeroSum | game.py:159-174 | in either version the computer's utility is minus the human's |
| RedBlueNim.Utility | game.py:151-174 | the utility is plus or minus `2 * red + 3 * blue`, and it is non-negative exactly when the player is the mover in the standard version, the non-mover in the misère version, or the score is 0 |
| RedBlueNim.IsTerminal | game.py:133-146 | the game is over exactly when one marble can no longer be taken from each pile, that is when either pile is empty |
| RedBlueNim.TurnOrder | game.py:60-70 | after a legal move the player to move is the other one, and after a legal reply it is the first one again |
| RedBlueNim.NewGameDefaults | game.py:38 | without a version or a first player, the game is the standard version and the computer moves first |
| RedBlueNim.MisereNegatesStandard | game.py:162-174 | the misère utility is the negation of the standard utility for every state and player |
| MinimaxSpec.Extreme | minimax.py:59-65 | the best value of a non-empty list is one of its elements and is at least as good as every element |
| MinimaxSpec.FirstBestStep | minimax.py:61-64 | a scan that replaces the running best only on a strict improvement still holds the first best position after one more element |
| MinimaxSpec.FirstBestIsFirstIndex | minimax.py:63 | the position such a scan keeps is the first occurrence of the best value |
| MinimaxSpec.ExtremeSnoc | minimax.py:61-64 | proof helper: folding one more value into the running best gives the best of the longer list, and a tie keeps the old value |
| MinimaxSpec.FailSoftWindow | minimax.py:118-146 | with a non-empty window, an alpha-beta result is exact when the true value is inside the window; it lies on the true value's side when that value is outside; with the infinite window it is exact |
| MinimaxSpec.MaxStep | minimax.py:139-145 | one MAX iteration without a cutoff, with the child searched in the window (max(alpha, v), beta), keeps the fail-soft scan invariant |
| MinimaxSpec.MinStep | minimax.py:170-176 | one MIN iteration without a cutoff, with the child searched in the window (alpha, min(beta, v)), keeps the fail-soft scan invariant |
| MinimaxSpec.ExtremePrefix | minimax.py:144-145 | the best value of a prefix of the children is no better than the best of all of them, which is what makes a cutoff's value a bound |
| MinimaxSpec.MaxScanDone | minimax.py:144-146 | a MAX scan that ends on `v >= beta` or after the last child meets the fail-soft contract for the node's value |
| MinimaxSpec.MinScanDone | minimax.py:175-177 | a MIN scan that ends on `v <= alpha` or after the last child meets the fail-soft contract for the node's value |
| MinimaxSpec.MaxUncutStep | minimax.py:144-145 | an iteration that did not cut off leaves every proper prefix of the children scanned so far with a best value below beta |
| MinimaxSpec.MinUncutStep | minimax.py:175-176 | an iteration that did not cut off leaves every proper prefix of the children scanned so far with a best value above alpha |
| MinimaxSpec.MaxStopsAtUnique | minimax.py:144-145 | there is only one place where a MAX scan may stop: the first prefix whose best value reaches beta, or the end |
| MinimaxSpec.MinStopsAtUnique | minimax.py:175-176 | there is only one place where a MIN scan may stop: the first prefix whose best value falls to alpha, or the end |
| MinimaxSpec.MaxStopsFromScan | minimax.py:144-145 | a MAX scan that ran without a cutoff and ends on `v >= beta` or after the last child stops at that unique place |
| MinimaxSpec.MinStopsFromScan | minimax.py:175-176 | a MIN scan that ran without a cutoff and ends on `v <= alpha` or after the last child stops at that unique place |
| MinimaxSpec.RootMaxStep | minimax.py:139-143 | with the infinite window a MAX scan keeps the first best child, as plain minimax does |
| MinimaxSpec.RootMinStep | minimax.py:170-174 | with the infinite window a MIN scan keeps the first best child, as plain minimax does |
| MinimaxSpec.LoopStart | minimax.py:136-137 | proof helper: the running value starts at minus infinity for MAX and plus infinity for MIN, before any child, with the loop invariant holding |
| MinimaxSpec.MaxIterate | minimax.py:139-145 | one MAX iteration that has not been cut off keeps the whole loop invariant |
| MinimaxSpec.MinIterate | minimax.py:170-176 | one MIN iteration that has not been cut off keeps the whole loop invariant |
| MinimaxSpec.ChildValues | minimax.py:61-62 | one child value per action |
| MinimaxSpec.ChildValuesAt | minimax.py:61-62 | the `i`-th child value is the value of the state reached by the `i`-th action |
| MinimaxSpec.Children | minimax.py:61-62 | a node has as many children as its state has actions |
| MinimaxSpec.ChildAt | minimax.py:61-62 | the `i`-th child is the node reached by the `i`-th action, one ply deeper and chosen by the other side |
| MinimaxSpec.ChildrenExt | minimax.py:61-62 | two searches of a state have the same children when each child has the same value in both |
| MinimaxSpec.FirstIndex | minimax.py:63 | the position returned holds the value, and no earlier position does |
| MinimaxSpec.DecisionIndex | minimax.py:59-65 | the chosen child attains the node's value, and every earlier child is strictly worse |
| MinimaxSpec.Decision | minimax.py:56-65 | there is no move exactly at a leaf; otherwise the move is a legal action |
| MinimaxSpec.ChildrenSoFarSnoc | minimax.py:61-62 | proof helper: searching the next action's child extends the scanned values by that child's value |
| MinimaxSpec.ChildrenSoFarPrefix | minimax.py:61-62 | the values a scan has seen are a prefix of the node's children |
| MinimaxSpec.InnerValue | minimax.py:59-65 | proof helper: an inner node's value is the best of its children's values |
| MinimaxSpec.InnerNode | minimax.py:59-65 | after scanning every child, the first best position gives the node's value and its move |
| MinimaxSpec.MaxNodeStep | minimax.py:139-145 | one iteration of a MAX node's loop over its actions keeps the loop invariant and the record of children seen |
| MinimaxSpec.MinNodeStep | minimax.py:170-176 | one iteration of a MIN node's loop over its actions keeps the loop invariant and the record of children seen |
| MinimaxSpec.MaxNodeDone | minimax.py:137-146 | when a MAX node's loop stops, its value meets the fail-soft contract, and with the infinite window its move is the node's decision; with a non-empty window the loop stopped after the shortest prefix of children whose best value reaches beta, or after all of them |
| MinimaxSpec.MinNodeDone | minimax.py:168-177 | when a MIN node's loop stops, its value meets the fail-soft contract, and with the infinite window its move is the node's decision; with a non-empty window the loop stopped after the shortest prefix of children whose best value falls to alpha, or after all of them |
| MinimaxSpec.ValueIsBestReply | minimax.py:59-92 | a MAX node's value is at least every child's value and a MIN node's at most; some action attains it |
| MinimaxSpec.LeafNode | minimax.py:225-226 | proof helper: a leaf is scored by the evaluator and has no move |
| MinimaxSpec.TerminalValueIsUtility | minimax.py:56-57 | at a terminal state a full search returns the utility for the root player, with no move, at MAX and at MIN nodes |
| MinimaxSpec.NegativeDepthChildren | minimax.py:225-231 | a depth counter that starts negative never reaches 0, so each child's value is the unbounded search's |
| MinimaxSpec.NegativeDepthIsUnbounded | minimax.py:225-231 | with a negative depth the depth-limited search has the value and move of an unbounded search with the same evaluator |
| MinimaxSpec.WithinHorizonValue | minimax.py:225-231 | with depth `d >= 0` the search scores no state with fewer than `red + blue - 2 * d` marbles: evaluators that agree on all other states give the same value |
| MinimaxSpec.WithinHorizonChildren | minimax.py:231 | the same holds for every child, searched with depth `d - 1` |
| MinimaxSpec.DeepHorizonValue | minimax.py:225-231 | a depth limit at least the number of marbles, with an evaluator that matches the utility on terminal states, gives the full-search value |
| MinimaxSpec.DeepHorizonChildren | minimax.py:231 | under the same conditions every child has its full-search value |
| MinimaxSpec.DeepHorizonIsExact | minimax.py:183-203 | under the same conditions the depth-limited search has the full search's value and move |
| Minimax.MinimaxSearch | minimax.py:19-38 | the move is the root decision of a full search that maximises for the player to move in `s` |
| Minimax.MaxValue | minimax.py:41-65 | returns the game-tree value of a MAX node and the first action attaining it; at a terminal state, the utility and no move |
| Minimax.MinValue | minimax.py:68-92 | returns the game-tree value of a MIN node and the first action attaining it; at a terminal state, the utility and no move |
| Minimax.AlphaBetaSearch | minimax.py:98-115 | from the infinite window, returns the same move as the full minimax search |
| Minimax.MaxValueAB | minimax.py:118-146 | the result meets the fail-soft contract for the exact value; with the infinite window it returns the minimax move; a terminal state gives the utility with no move and no action explored; otherwise a legal move, and with a non-empty window it examines exactly the actions up to the first whose child brings the running value to `beta` or above, or all of them |
| Minimax.MinValueAB | minimax.py:149-177 | the MIN counterpart: fail-soft, the minimax move from the infinite window, the utility at terminal states, and with a non-empty window it examines exactly the actions up to the first whose child brings the running value to `alpha` or below, or all of them |
| Minimax.AlphaBetaLimited | minimax.py:183-203 | the move is the root decision of the depth-limited tree scored by `eval`; it is the full search's move when the limit covers every remaining ply and `eval` equals the utility on terminal states |
| Minimax.MaxValueDL | minimax.py:206-237 | at depth 0 or a terminal state, `eval` with no move and no action explored; otherwise fail-soft for the depth-limited value with children at depth `depth - 1`, a legal move, and with a non-empty window it examines exactly the actions up to the first cutoff at `beta`, or all of them |
| Minimax.MinValueDL | minimax.py:240-271 | the MIN counterpart of MaxValueDL, where the cutoff is at `alpha` |
| Heuristic.SampleEval | red_blue_nim.py:25-37 | the driver's evaluator equals the misère utility on every state, and so the negation of the standard utility |
| Heuristic.SampleEvalExactForMisere | red_blue_nim.py:25-37 | in the misère version, a depth limit covering every remaining ply makes the depth-limited search with this evaluator pick the full search's move |
| Heuristic.OneOfEach | game.py:93-128 | from one red and one blue marble the two moves take one marble each, and both end the game |
| Heuristic.SampleEvalTakesRed | red_blue_nim.py:25-37 | from (1, 1, computer), whatever the non-zero depth limit, the depth-limited search with this evaluator takes a red marble |
| Heuristic.StandardTakesBlue | game.py:162-167 | from (1, 1, computer) in the standard version, the full search takes a blue marble and has value -2 |
| Heuristic.SampleEvalMisleadsStandard | red_blue_nim.py:91-94 | in the standard version this evaluator can make the depth-limited search choose a different move from the full search, however deep the limit |

## Left out

- `display` and the driver's `main` loop and `get_human_move` prompt: they are console input and output only.
- Floating-point infinities: values are integers, and the infinities are the `NegInf` and `PosInf` constants of `ExtendedInt`.
- Version strings other than standard and misère (where the utility returns nothing), player labels other than computer and human, and moves not drawn from the action list: the datatypes and the `Legal` precondition of `Result` exclude them.
- `Utility` is defined on every state, as in the code; the model does not restrict it to terminal states, and the search only calls it there.
- The evaluator is any total function from a state and a player to an integer. Evaluators that fail or have side effects are not modelled.
- Negative pile counts: piles are natural numbers. The code takes any integer from the command line, and a state with both piles negative is not terminal yet has no actions, so the code's MAX value there is minus infinity with no move. The model has no such state, which is what makes `RedBlueNim.Actions` non-empty at every non-terminal state.
- Concurrency and re-entrancy: the search shares no state between calls, so there is nothing to model.
- MinimaxSpec.FailSoftWindow: the fail-soft contract says nothing for an empty window (`alpha >= beta`). The code's callers never create one at a node that goes on to search its children.
- Minimax.MaxValueAB: `explored`, the number of actions examined, is a ghost out-parameter. It describes the loop and is not returned by the code.
