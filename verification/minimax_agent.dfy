/** MinimaxAgent (multiAgents.py:55-93): the source's loops, proved to
    compute the values defined in module Minimax. */
module MinimaxAgent {
  import opened Values
  import opened Outcomes
  import opened Games
  import Minimax

  method MaxValue<S, A>(ag: Agent<S, A>, state: S, depth: nat) returns (v: ExtInt)
    requires ag.game.numAgents >= 1 && depth <= ag.depth
    ensures v == Minimax.MaxValue(ag, state, depth)
    decreases ag.depth - depth, ag.game.numAgents + 1
  {
    if ag.game.isWin(state) || ag.game.isLose(state) || depth == ag.depth {
      return Fin(ag.evaluate(state));
    }
    v := NegInf;
    var possibleActions := ag.game.actions(state, 0);
    for k := 0 to |possibleActions|
      invariant v == Minimax.MaxPrefix(ag, state, depth, k)
    {
      var successor := ag.game.next(state, 0, possibleActions[k]);
      var value := MinValue(ag, successor, depth, 1);
      v := Max(v, value);
    }
  }

  method MinValue<S, A>(ag: Agent<S, A>, state: S, depth: nat, agentIndex: nat) returns (v: ExtInt)
    requires ag.game.numAgents >= 1 && depth < ag.depth && 1 <= agentIndex <= ag.game.numAgents
    ensures v == Minimax.MinValue(ag, state, depth, agentIndex)
    decreases ag.depth - depth, ag.game.numAgents + 1 - agentIndex
  {
    if ag.game.isWin(state) || ag.game.isLose(state) {
      return Fin(ag.evaluate(state));
    }
    v := PosInf;
    var numberOfAgents := ag.game.numAgents;
    if agentIndex == numberOfAgents {
      v := MaxValue(ag, state, depth + 1);
      return;
    }
    var possibleActions := ag.game.actions(state, agentIndex);
    for k := 0 to |possibleActions|
      invariant v == Minimax.MinPrefix(ag, state, depth, agentIndex, k)
    {
      var successor := ag.game.next(state, agentIndex, possibleActions[k]);
      var value := MinValue(ag, successor, depth, agentIndex + 1);
      v := Min(v, value);
    }
  }

  /** Scores every legal action of Pacman, keeps the indices of the best
      score and lets the random source pick among them.  `roll` stands for
      the number random.choice draws; with no legal action, max([]) raises
      ValueError. */
  method GetAction<S, A>(ag: Agent<S, A>, gameState: S, roll: nat) returns (r: Result<A>)
    requires ag.game.numAgents >= 1 && ag.depth >= 1
    ensures r.Err? <==> |ag.game.actions(gameState, 0)| == 0
    ensures r.Err? ==> r.error == ValueError
    ensures r.Ok? ==>
      var scores := Minimax.RootScores(ag, gameState);
      var i := Minimax.TieBreak(scores, roll);
      && i < |scores|
      && r.value == ag.game.actions(gameState, 0)[i]
      && forall j :: 0 <= j < |scores| ==> Le(scores[j], scores[i])
  {
    var legalActions := ag.game.actions(gameState, 0);
    var scores: seq<ExtInt> := [];
    for k := 0 to |legalActions|
      invariant scores == Minimax.ScoresUpTo(ag, gameState, k)
    {
      var value := MinValue(ag, ag.game.next(gameState, 0, legalActions[k]), 0, 1);
      scores := scores + [value];
    }
    if |scores| == 0 {
      return Err(ValueError);
    }
    var bestScore := Minimax.MaxOf(scores);

    var bestIndices: seq<nat> := [];
    for index := 0 to |scores|
      invariant bestIndices == Minimax.BestIndices(scores, bestScore, index)
    {
      if scores[index] == bestScore {
        bestIndices := bestIndices + [index];
      }
    }

    Minimax.BestIndicesNonEmpty(scores);
    Minimax.TieBreakIsBest(scores, roll);
    var randomIndex := bestIndices[roll % |bestIndices|];
    return Ok(legalActions[randomIndex]);
  }
}
