/** ExpectimaxAgent (multiAgents.py:154-196): the source's loops, proved to
    compute the values defined in module Expectimax.

    The source's maxValue returns a number everywhere except at the top of
    the search (`depth == self.depth`), where it returns the action (or
    None) it found best; `Reply` holds either. */
module ExpectimaxAgent {
  import opened Values
  import opened Outcomes
  import opened Games
  import Expectimax

  datatype Reply<A> = Value(v: ExtReal) | Move(action: Option<A>)

  /** A value of the search as the number the source returns. */
  function AsValue<A>(x: Result<ExtReal>): Result<Reply<A>>
  {
    match x
    case Ok(v) => Ok(Value(v))
    case Err(e) => Err(e)
  }

  method MaxValue<S, A>(ag: Agent<S, A>, depth: nat, state: S) returns (r: Result<Reply<A>>)
    requires ag.game.numAgents >= 2 && depth <= ag.depth
    ensures depth == 0 || ag.game.Terminal(state) ==> r == Ok(Value(Num(ag.evaluate(state) as real)))
    ensures depth < ag.depth ==> r == AsValue(Expectimax.MaxValue(ag, state, depth))
    ensures 0 < depth == ag.depth && !ag.game.Terminal(state) ==>
      var m := Expectimax.MaxValue(ag, state, depth);
      && (r.Err? <==> m.Err?)
      && (r.Err? ==> r == Err(m.error))
      && (r.Ok? ==> r.value.Move? && (r.value.action.None? <==> m.value == MinusInf))
    ensures 0 < depth == ag.depth && !ag.game.Terminal(state) && r.Ok? && r.value.Move? && r.value.action.Some? ==>
      var m := Expectimax.MaxValue(ag, state, depth);
      exists k :: (
        && 0 <= k < |ag.game.actions(state, 0)|
        && r.value.action.value == ag.game.actions(state, 0)[k]
        && m.Ok?
        && Expectimax.MaxChild(ag, state, depth, k) == m
        && forall j :: 0 <= j < k ==>
             Expectimax.MaxChild(ag, state, depth, j).Ok? && Gt(m.value, Expectimax.MaxChild(ag, state, depth, j).value))
    decreases depth, ag.game.numAgents
  {
    if depth == 0 || ag.game.isWin(state) || ag.game.isLose(state) {
      return Ok(Value(Num(ag.evaluate(state) as real)));
    }
    var v := MinusInf;
    var bestAction: Option<A> := None;
    var possibleActions := ag.game.actions(state, 0);
    for k := 0 to |possibleActions|
      invariant Expectimax.MaxPrefix(ag, state, depth, k) == Ok(v)
      invariant bestAction.None? <==> Expectimax.FirstBest(ag, state, depth, k).None?
      invariant bestAction.Some? ==>
        bestAction.value == possibleActions[Expectimax.FirstBest(ag, state, depth, k).value]
    {
      var successor := ag.game.next(state, 0, possibleActions[k]);
      var score := ExpectValue(ag, 1, depth, successor);
      if score.Err? {
        Expectimax.MaxPrefixErrorSticks(ag, state, depth, k + 1, |possibleActions|);
        return Err(score.error);
      }
      if Gt(score.value, v) {
        v := score.value;
        bestAction := Some(possibleActions[k]);
      }
    }
    if depth == ag.depth {
      Expectimax.FirstBestIsFirstMaximum(ag, state, depth, |possibleActions|);
      return Ok(Move(bestAction));
    }
    return Ok(Value(v));
  }

  method ExpectValue<S, A>(ag: Agent<S, A>, agentIndex: nat, depth: nat, state: S) returns (r: Result<ExtReal>)
    requires ag.game.numAgents >= 2 && 1 <= agentIndex < ag.game.numAgents && depth <= ag.depth
    ensures r == Expectimax.ExpectValue(ag, state, agentIndex, depth)
    decreases depth, ag.game.numAgents - agentIndex
  {
    if depth == 0 || ag.game.isWin(state) || ag.game.isLose(state) {
      return Ok(Num(ag.evaluate(state) as real));
    }
    var v := Num(0.0);
    var numberOfAgents := ag.game.numAgents;
    var possibleActions := ag.game.actions(state, agentIndex);
    if |possibleActions| == 0 {
      return Err(ZeroDivisionError);
    }
    var p := 1.0 / (|possibleActions| as real);
    for k := 0 to |possibleActions|
      invariant Expectimax.ExpectPrefix(ag, state, agentIndex, depth, k) == Ok(v)
    {
      var successor := ag.game.next(state, agentIndex, possibleActions[k]);
      var score;
      if agentIndex == numberOfAgents - 1 {
        var reply := MaxValue(ag, depth - 1, successor);
        if reply.Err? {
          Expectimax.ExpectPrefixErrorSticks(ag, state, agentIndex, depth, k + 1, |possibleActions|);
          return Err(reply.error);
        }
        score := Scale(p, reply.value.v);
      } else {
        var value := ExpectValue(ag, agentIndex + 1, depth, successor);
        if value.Err? {
          Expectimax.ExpectPrefixErrorSticks(ag, state, agentIndex, depth, k + 1, |possibleActions|);
          return Err(value.error);
        }
        score := Scale(p, value.value);
      }
      v := Add(v, score);
    }
    return Ok(v);
  }

  /** getAction hands back whatever the top-level maxValue returns: the
      first action of greatest expected score (None when no score exceeds
      -inf), an exception raised below, or the evaluation NUMBER when the
      root is already terminal or the agent's depth is 0. */
  method GetAction<S, A>(ag: Agent<S, A>, gameState: S) returns (r: Result<Reply<A>>)
    requires ag.game.numAgents >= 2
    ensures ag.depth == 0 || ag.game.Terminal(gameState) ==> r == Ok(Value(Num(ag.evaluate(gameState) as real)))
    ensures ag.depth > 0 && !ag.game.Terminal(gameState) ==>
      var m := Expectimax.MaxValue(ag, gameState, ag.depth);
      && (r.Err? <==> m.Err?)
      && (r.Err? ==> r == Err(m.error))
      && (r.Ok? ==> r.value.Move? && (r.value.action.None? <==> m.value == MinusInf))
    ensures ag.depth > 0 && !ag.game.Terminal(gameState) && r.Ok? && r.value.Move? && r.value.action.Some? ==>
      var m := Expectimax.MaxValue(ag, gameState, ag.depth);
      exists k :: (
        && 0 <= k < |ag.game.actions(gameState, 0)|
        && r.value.action.value == ag.game.actions(gameState, 0)[k]
        && m.Ok?
        && Expectimax.MaxChild(ag, gameState, ag.depth, k) == m
        && forall j :: 0 <= j < k ==>
             Expectimax.MaxChild(ag, gameState, ag.depth, j).Ok?
             && Gt(m.value, Expectimax.MaxChild(ag, gameState, ag.depth, j).value))
  {
    r := MaxValue(ag, ag.depth, gameState);
  }
}
