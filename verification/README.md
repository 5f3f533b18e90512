# Pacman adversarial search, modelled in Dafny

This project models the adversarial search agents of `multiAgents.py`:

- **Minimax.** Pacman is the maximising agent 0. Every ghost (agents 1 .. numAgents-1) minimises in turn. One "depth" is one full round of moves by every agent.
- **Alpha-beta.** The same search, pruned by the bounds `a` and `b`.
- **Expectimax.** Each ghost is a chance node that picks its legal actions uniformly at random.
- **Evaluation functions.** There are two: the plain score, and `betterEvaluationFunction`, which subtracts the nearest-ghost distance and the number of ghosts within two steps.

The game is an abstract interface (`Games.Game`) with these operations:

- the win and lose tests;
- the legal actions of each agent, in order;
- the successor after a move;
- the score and the positions.

The engines never look inside a state. An agent (`Games.Agent`) holds a game, a depth and an evaluation function.

Values of the search:

- **Minimax and alpha-beta** use the integers extended with the two infinities the source starts from (`Values.ExtInt`).
- **Expectimax** uses the reals extended with negative infinity (`Values.ExtReal`). It is wrapped in `Outcomes.Result`, because a chance node whose ghost has no legal action divides by zero.

Each engine is written twice:

- **A recursive specification.** This is in modules `Minimax` and `Expectimax`. A node's loop over its actions is a prefix fold (`MaxPrefix`, `MinPrefix`, `ExpectPrefix`).
- **Methods that follow the source's loops.** These are in modules `MinimaxAgent`, `AlphaBetaAgent` and `ExpectimaxAgent`. Each method is proved against the specification:
  - Minimax and expectimax methods compute exactly the specified value.
  - Alpha-beta is proved against the minimax specification. Its result is the minimax value whenever that value lies within the window. Otherwise it lies on the same side of the window as the minimax value, which is the fail-soft guarantee (`AlphaBetaAgent.WithinWindow`). Called from the root, alpha-beta therefore picks an action of maximal minimax value.

Other results proved:

- A chance node is worth the mean of its children.
- Expectimax never raises when ghosts can always move. A chance node whose ghost has no legal action raises ZeroDivisionError, and the error ends any search that reaches that node.
- With a single move per ghost, expectimax and minimax agree. This also shows that the count-down depth of expectimax and the count-up depth of minimax explore the same rounds.
- The tie-break of minimax's `getAction` always picks a best action, and can pick every best action.
- No branch of the minimax search makes more than depth × numAgents moves. The alpha-beta and expectimax searches are not given this bound.
- The properties of `betterEvaluationFunction`.

## Model

| member | source | states |
|---|---|---|
| Values.Le | multiAgents.py:63 | defines Python's `<=` on integer scores and the sentinels `float("-inf")` and `float("inf")`, the order `max` and `min` compare by (lines 63, 76, 107, 125) |
| Values.Lt | multiAgents.py:109 | defines the strict `<` on the same values, the test of the cuts `v > b` (line 109) and `v < a` (line 129) and of `value > bestValue` (line 146) |
| Values.Gt | multiAgents.py:166 | defines Python's `score > v` between an expected score and the running maximum, with every number above `-inf` |
| Values.Add | multiAgents.py:191 | defines `v += score` on expected values, with `-inf` absorbing |
| Values.Max | multiAgents.py:63 | `max(v, x)` on the extended order is at least both arguments and is one of them |
| Values.Min | multiAgents.py:76 | `min(v, x)` is at most both arguments and is one of them |
| Values.Scale | multiAgents.py:187-189 | defines `p * value` for a positive probability `p`, with `-inf` absorbing |
| Values.ScaleDistributes | multiAgents.py:187-191 | multiplying each summand by the probability `p` equals multiplying the sum, with -inf absorbing |
| Minimax.MaxValue | multiAgents.py:56-64 | defines the value of Pacman's node: the evaluation at a win/lose state or at `depth == self.depth`, otherwise the fold of Pacman's loop |
| Minimax.MaxPrefix | multiAgents.py:59-63 | defines `v` after Pacman's loop has seen `k` actions: `-inf`, then `max(v, minValue(successor, depth, 1))` per action |
| Minimax.MinValue | multiAgents.py:66-77 | defines the value of ghost `i`'s node: the evaluation at a win/lose state, `maxValue(state, depth + 1)` after the last ghost, otherwise the fold of the ghost's loop |
| Minimax.MinPrefix | multiAgents.py:69-76 | defines `v` after the ghost's loop has seen `k` actions: `+inf`, then `min(v, minValue(successor, depth, i + 1))` per action |
| Minimax.MaxChild | multiAgents.py:61-63 | defines the value of Pacman's `k`-th action: ghost 1's node, same round, in the successor |
| Minimax.MinChild | multiAgents.py:74-76 | defines the value of ghost `i`'s `k`-th action: agent `i + 1`'s node, same round, in the successor |
| Minimax.MaxPrefixIsMaximum | multiAgents.py:59-64 | the loop's `v` after `k` actions: `-inf` when `k == 0`; otherwise at least every child value seen and equal to one of them |
| Minimax.MinPrefixIsMinimum | multiAgents.py:69-77 | the ghost loop's `v` after `k` actions: `+inf` when `k == 0`; otherwise at most every child value seen and equal to one of them |
| Minimax.MaxValueIsBestReply | multiAgents.py:56-64 | Pacman's node is the evaluation at a win/lose state or at `depth == self.depth`; otherwise it is the maximum over Pacman's successors of the value of ghost 1's node |
| Minimax.MinValueIsBestReply | multiAgents.py:66-77 | a ghost node is the evaluation at any terminal state; after the last ghost it is Pacman's node of the next round; otherwise it is the minimum over the ghost's successors of the next agent's node |
| Minimax.MaxChildBelowValue | multiAgents.py:59-64 | no successor of Pacman's node is worth more than the node |
| Minimax.MinChildAboveValue | multiAgents.py:69-77 | no successor of a ghost's node is worth less than the node |
| Minimax.WrapHandsOff | multiAgents.py:72 | `agentIndex == numAgents` hands control to `maxValue(state, depth + 1)` |
| Minimax.MovesIsProduct | multiAgents.py:72 | `rounds` rounds of `agents` moves each make `rounds * agents` moves |
| Minimax.MaxPlies | multiAgents.py:56-64 | every branch below Pacman's node of round `d` makes at most `(self.depth - d) * numAgents` moves |
| Minimax.MaxPliesPrefix | multiAgents.py:61-63 | the same bound over the first `k` of Pacman's actions |
| Minimax.MinPlies | multiAgents.py:66-77 | every branch below ghost `i`'s node of round `d` makes at most the remaining moves of the round plus those of the later rounds |
| Minimax.MinPliesPrefix | multiAgents.py:74-76 | the same bound over the first `k` of the ghost's actions |
| Minimax.SearchLengthBounded | multiAgents.py:84 | no branch searched from the root makes more than `depth * numAgents` moves |
| Minimax.ScoresUpTo | multiAgents.py:82-84 | after `k` iterations of the scoring loop, `scores` holds `k` entries |
| Minimax.RootScores | multiAgents.py:80-84 | `scores` holds one entry per legal action of Pacman |
| Minimax.ScoresAreChildValues | multiAgents.py:82-84 | entry `j` of `scores` is the value of ghost 1's node, round 0, after Pacman's `j`-th action |
| Minimax.MaxOf | multiAgents.py:85 | `max(scores)` is one of the scores and at least every score |
| Minimax.BestIndices | multiAgents.py:87-89 | defines `bestIndices` after the loop has looked at `k` scores, appending each index whose score equals `bestScore` |
| Minimax.BestIndicesAreExact | multiAgents.py:87-89 | `bestIndices` holds exactly the indices whose score equals the best score, in increasing order |
| Minimax.BestIndicesNonEmpty | multiAgents.py:85-91 | when there is a score at all, some score equals `max(scores)`, so `random.choice` gets a non-empty list |
| Minimax.TieBreak | multiAgents.py:85-91 | defines the index `random.choice(bestIndices)` returns when the random source yields `roll` |
| Minimax.TieBreakIsBest | multiAgents.py:91 | whatever `random.choice` draws, the chosen index is a valid index whose score is maximal |
| Minimax.TieBreakReachesEveryBest | multiAgents.py:91 | every index of maximal score is chosen for some draw of the random source |
| MinimaxAgent.MaxValue | multiAgents.py:56-64 | the loop computes exactly the minimax value of Pacman's node |
| MinimaxAgent.MinValue | multiAgents.py:66-77 | the loop computes exactly the minimax value of the ghost's node |
| MinimaxAgent.GetAction | multiAgents.py:79-93 | it raises ValueError exactly when Pacman has no legal action; otherwise it returns the action at the tie-broken index, whose score is at least every score |
| AlphaBetaAgent.WithinWindow | multiAgents.py:99-132 | defines the fail-soft promise of a call with window `[a, b]`: below `a` the result bounds the minimax value from above, above `b` from below, and inside the window it is the minimax value |
| AlphaBetaAgent.ExactInsideWindow | multiAgents.py:99-132 | a fail-soft result for a window that contains the minimax value is that value exactly |
| AlphaBetaAgent.RootReply | multiAgents.py:144-149 | at the root, with no upper bound, a reply beats `a` exactly when the minimax value does, and is then that value |
| AlphaBetaAgent.MaxStep | multiAgents.py:105-111 | one iteration of Pacman's loop keeps the fail-soft relation between `v` and the maximum of the children seen; a cut on `v > b` returns a value no greater than the cut child's minimax value |
| AlphaBetaAgent.MinStep | multiAgents.py:120-131 | the mirror image for a ghost's loop and the cut on `v < a` |
| AlphaBetaAgent.MaxValue | multiAgents.py:99-112 | the evaluation exactly at a win/lose state or at `depth == self.depth`; otherwise fail-soft: the result is the minimax value when it lies within `[a, b]`; below `a` it is an upper bound of the minimax value, above `b` a lower bound |
| AlphaBetaAgent.MinValue | multiAgents.py:114-132 | the evaluation exactly at a win/lose state; otherwise the same fail-soft guarantee for a ghost node, including the hand-off to Pacman after the last ghost |
| AlphaBetaAgent.FirstBest | multiAgents.py:142-149 | defines the index of `bestAction` after `k` actions, moving only on the strict test `value > bestValue` |
| AlphaBetaAgent.FirstBestIsFirstMaximum | multiAgents.py:142-149 | the action the loop holds after `k` actions is none exactly when the running maximum is `-inf`; otherwise it reaches that maximum and is strictly above every earlier action |
| AlphaBetaAgent.ChoiceIsFirstMaximum | multiAgents.py:140-150 | the same over all of Pacman's actions, stated on the minimax scores of the actions |
| AlphaBetaAgent.GetAction | multiAgents.py:134-150 | it returns None exactly when every root score is `-inf`; otherwise it returns the first action whose minimax score is maximal: at least every score, and strictly above every earlier one |
| Expectimax.MaxValue | multiAgents.py:155-173 | defines the value of Pacman's node: the evaluation when `depth == 0` or at a win/lose state, otherwise the fold of Pacman's loop |
| Expectimax.MaxPrefix | multiAgents.py:158-168 | defines `v` after Pacman's loop has seen `k` actions: `-inf`, replaced by a strictly greater expected score, an exception passed on |
| Expectimax.ExpectValue | multiAgents.py:175-193 | defines the value of a chance node: the evaluation when `depth == 0` or at a win/lose state, ZeroDivisionError without actions, otherwise the fold of the chance loop |
| Expectimax.ExpectPrefix | multiAgents.py:178-191 | defines `v` after the chance loop has seen `k` actions: `0`, plus `p` times each child value, an exception passed on |
| Expectimax.MaxChild | multiAgents.py:162-164 | defines the expected score of Pacman's `k`-th action: ghost 1's chance node, same depth, in the successor |
| Expectimax.ChanceChild | multiAgents.py:186-189 | defines a chance node's child value: Pacman's node one round further down after the last ghost, otherwise the next ghost's chance node |
| Expectimax.Probability | multiAgents.py:181 | each of a ghost's actions has the positive probability `1 / len(actions)` |
| Expectimax.ExpectPrefixIsScaledSum | multiAgents.py:178-191 | after `k` actions the accumulator is `p` times the sum of the first `k` child values |
| Expectimax.ExpectationIsMean | multiAgents.py:175-193 | a non-terminal chance node whose children all have values is worth their arithmetic mean |
| Expectimax.ExpectPrefixErrorSticks | multiAgents.py:183-191 | an exception raised by one child ends the chance node's loop with that exception |
| Expectimax.MaxPrefixErrorSticks | multiAgents.py:162-168 | an exception raised by one child ends Pacman's loop with that exception |
| Expectimax.MaxPrefixIsMaximum | multiAgents.py:158-168 | Pacman's loop succeeds exactly when every child succeeds; it is then `-inf` or the largest child value, equal to one of them |
| Expectimax.FirstBest | multiAgents.py:162-168 | the held action is one of the actions looked at so far |
| Expectimax.FirstBestIsFirstMaximum | multiAgents.py:158-171 | `bestAction` is None exactly when the running maximum is `-inf`; otherwise it reaches that maximum and its score is strictly above every earlier action's |
| Expectimax.MaxValueIsBestReply | multiAgents.py:155-173 | Pacman's node is the evaluation when `depth == 0` or at a win/lose state; otherwise it raises exactly when a successor raises, and is else at least every successor's expected value and equal to one of them (`-inf` without actions) |
| Expectimax.MaxValueDefined | multiAgents.py:155-173 | if no ghost is ever stuck in a non-terminal state, Pacman's node never raises |
| Expectimax.MaxPrefixDefined | multiAgents.py:162-168 | under the same condition, Pacman's loop never raises |
| Expectimax.ExpectValueDefined | multiAgents.py:175-193 | under the same condition, a chance node never raises |
| Expectimax.ExpectPrefixDefined | multiAgents.py:183-191 | under the same condition, the chance loop never raises |
| Expectimax.StuckGhostRaises | multiAgents.py:181 | a non-terminal chance node whose ghost has no legal action raises ZeroDivisionError |
| Expectimax.MaxValueMatchesMinimax | multiAgents.py:155-173 | with one move per ghost, expectimax with `self.depth - d` rounds left equals minimax's value at round `d`, so the count-down and count-up depths agree |
| Expectimax.MaxPrefixMatchesMinimax | multiAgents.py:162-168 | the same agreement for Pacman's loop |
| Expectimax.MinValueMatchesMinimax | multiAgents.py:175-193 | with one move per ghost, a chance node equals the minimax ghost node |
| ExpectimaxAgent.MaxValue | multiAgents.py:155-173 | the loop returns the evaluation at the cut-off; below the top it returns the expectimax value; at the top it returns None iff the value is `-inf`, and otherwise the first action attaining the maximum, strictly above every earlier one; an exception passes through |
| ExpectimaxAgent.ExpectValue | multiAgents.py:175-193 | the loop computes exactly the expectimax value of the chance node, ZeroDivisionError included |
| ExpectimaxAgent.GetAction | multiAgents.py:195-196 | it returns the evaluation number when the depth is 0 or the root is terminal; otherwise it raises exactly when the search raises, returns None exactly when the expectimax value is `-inf`, and else returns the first action of greatest expected score, strictly above every earlier action |
| Evaluation.ScoreEvaluation | multiAgents.py:23-31 | the default evaluation is the state's score |
| Evaluation.GhostDistance | multiAgents.py:207-209 | defines the distance to ghost `i`: the Manhattan distance from Pacman's position to that ghost's position |
| Evaluation.DistancesUpTo | multiAgents.py:206-210 | after the loop has visited `count` ghosts, the list holds `count` distances |
| Evaluation.ManhattanDistance | multiAgents.py:209 | defines `manhattanDistance(pacmanPosition, ghostPos)` as `abs(x1 - x2) + abs(y1 - y2)` on grid positions |
| Evaluation.GhostDistances | multiAgents.py:203-210 | there is one distance per ghost: `numAgents - 1` of them |
| Evaluation.DistancesAreInAgentOrder | multiAgents.py:203-210 | entry `j` is the Manhattan distance from Pacman to ghost `j + 1` |
| Evaluation.MinOf | multiAgents.py:212 | `min(ghostDistances)` is one of the distances and at most each of them |
| Evaluation.CountWithin | multiAgents.py:214-216 | after `k` distances the threat count is at most `k` |
| Evaluation.NoThreatIffAllFar | multiAgents.py:214-216 | the threat count is zero exactly when every distance looked at is more than `limit` |
| Evaluation.BetterEvaluation | multiAgents.py:200-220 | it fails with ValueError exactly when there is no ghost |
| Evaluation.BetterEvaluationFunction | multiAgents.py:200-220 | the two loops compute `score - min(distances) - #{d <= 2}`, with ValueError when there is no ghost |
| Evaluation.ThreatCountBounds | multiAgents.py:214-216 | the threat count lies between 0 and the number of ghosts, and is at least 1 when the nearest ghost is within two steps |
| Evaluation.BetterEvaluationBelowScore | multiAgents.py:218 | with at least one ghost, the heuristic is strictly below the plain score |
| Evaluation.MinOfMonotone | multiAgents.py:212 | moving every ghost closer never increases the nearest distance |
| Evaluation.CountWithinAntitone | multiAgents.py:214-216 | moving every ghost closer never decreases the threat count |
| Evaluation.ScoreShiftsEvaluation | multiAgents.py:218 | two states at the same distance from every ghost differ in evaluation by exactly their score difference |
| Evaluation.NearerSafeGhostsScoreHigher | multiAgents.py:212-218 | while no ghost is within two steps, nearer ghosts (and a score no lower) never lower the evaluation, because the nearest distance is subtracted |

## Left out

- `MultiAgentSearchAgent.__init__`, `util.lookup` and the `Agent` base class are not modelled. An agent is given directly as a game, a depth and an evaluation function.
- States are opaque. The game's rules, `game.py` and `pacman.py` are not part of this model.
- The number of agents is a constant of the game, not read from each state. The search's termination depends on it.
- Scores and evaluations are integers. Python floats are modelled as exact reals in expectimax, and float rounding is not modelled. `1 / len(actions)` is Python 3 true division.
- `random.choice` is replaced by a parameter `roll`: the choice is `bestIndices[roll % len(bestIndices)]`.
- `util.manhattanDistance` is taken to be the integer formula `|x1 - x2| + |y1 - y2|`. Ghost positions are integer grid points. Ghosts halfway between cells (non-integer positions) are not modelled.
- AlphaBetaAgent.MaxValue: the source's `agentIndex` parameter is dropped, because every call passes 0.
- ExpectimaxAgent.MaxValue: the source's `agentIndex` parameter is dropped, because every call passes 0 (multiAgents.py lines 187 and 196).
- MinimaxAgent.GetAction: the model requires `depth >= 1`. With `depth == 0` the source searches from round 0 upwards and never reaches its cut-off, so it only stops at terminal states.
- AlphaBetaAgent.GetAction: requires `depth >= 1` for the same reason, and at least one ghost. Without a ghost, alpha-beta's ghost node 1 does not exist.
- ExpectimaxAgent.GetAction: requires at least one ghost, for the same reason.
- The evaluation functions are not plugged into the engines as a combination. An agent's evaluation is any total function from states to integers. `betterEvaluationFunction` raises without ghosts, so it is modelled separately.
- The number of nodes the search visits is not modelled. Only the length of each explored branch is bounded.
