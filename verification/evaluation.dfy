/** The two evaluation functions of multiAgents.py: the default one
    (lines 23-31), which is the state's score, and betterEvaluationFunction
    (lines 200-220), which lowers the score by the distance to the nearest
    ghost and by the number of ghosts within two steps. */
module Evaluation {
  import opened Outcomes
  import opened Games

  /** scoreEvaluationFunction: the score shown in the game's display. */
  function ScoreEvaluation<S, A>(g: Game<S, A>, s: S): (r: int)
    ensures r == g.score(s)
  {
    g.score(s)
  }

  function Abs(x: int): nat
  {
    if x < 0 then -x else x
  }

  /** util.manhattanDistance on integer grid positions. */
  function ManhattanDistance(p: Pos, q: Pos): nat
  {
    Abs(p.x - q.x) + Abs(p.y - q.y)
  }

  /** The distance from Pacman to ghost `i`. */
  function GhostDistance<S, A>(g: Game<S, A>, s: S, i: nat): nat
  {
    ManhattanDistance(g.pacmanPosition(s), g.ghostPosition(s, i))
  }

  /** The distances to ghosts 1 .. `count`, in agent order: `ghostDistances`
      after the first loop has visited `count` ghosts. */
  function DistancesUpTo<S, A>(g: Game<S, A>, s: S, count: nat): (ds: seq<nat>)
    ensures |ds| == count
  {
    if count == 0 then [] else DistancesUpTo(g, s, count - 1) + [GhostDistance(g, s, count)]
  }

  /** The distance from Pacman to each ghost: one entry per agent but
      Pacman. */
  function GhostDistances<S, A>(g: Game<S, A>, s: S): (ds: seq<nat>)
    ensures |ds| == if g.numAgents == 0 then 0 else g.numAgents - 1
  {
    DistancesUpTo(g, s, if g.numAgents == 0 then 0 else g.numAgents - 1)
  }

  /** Entry `j` is the distance to ghost `j + 1`. */
  lemma {:induction false} DistancesAreInAgentOrder<S, A>(g: Game<S, A>, s: S, count: nat)
    ensures forall j :: 0 <= j < count ==> DistancesUpTo(g, s, count)[j] == GhostDistance(g, s, j + 1)
  {
    if count > 0 {
      DistancesAreInAgentOrder(g, s, count - 1);
    }
  }

  /** Python's min(xs) on a non-empty list. */
  function MinOf(xs: seq<nat>): (m: nat)
    requires |xs| > 0
    ensures m in xs
    ensures forall j :: 0 <= j < |xs| ==> m <= xs[j]
  {
    if |xs| == 1 then xs[0]
    else
      var m' := MinOf(xs[..|xs| - 1]);
      assert forall j :: 0 <= j < |xs| - 1 ==> xs[..|xs| - 1][j] == xs[j];
      if xs[|xs| - 1] < m' then xs[|xs| - 1] else m'
  }

  /** How many of the first `k` of `xs` are at most `limit`: the threatening
      ghosts once the second loop has looked at `k` distances. */
  function CountWithin(xs: seq<nat>, limit: nat, k: nat): (c: nat)
    requires k <= |xs|
    ensures c <= k
  {
    if k == 0 then 0
    else CountWithin(xs, limit, k - 1) + (if xs[k - 1] <= limit then 1 else 0)
  }

  /** No ghost counts as a threat exactly when every ghost looked at is
      farther away than `limit`. */
  lemma {:induction false} NoThreatIffAllFar(xs: seq<nat>, limit: nat, k: nat)
    requires k <= |xs|
    ensures CountWithin(xs, limit, k) == 0 <==> forall j :: 0 <= j < k ==> xs[j] > limit
  {
    if k > 0 {
      NoThreatIffAllFar(xs, limit, k - 1);
    }
  }

  /** betterEvaluationFunction.  With no ghost, min([]) raises ValueError. */
  function BetterEvaluation<S, A>(g: Game<S, A>, s: S): (r: Result<int>)
    ensures r.Err? <==> g.numAgents <= 1
    ensures r.Err? ==> r.error == ValueError
  {
    var ds := GhostDistances(g, s);
    if |ds| == 0 then Err(ValueError)
    else Ok(g.score(s) - MinOf(ds) - CountWithin(ds, 2, |ds|))
  }

  method BetterEvaluationFunction<S, A>(g: Game<S, A>, currentGameState: S) returns (r: Result<int>)
    ensures r == BetterEvaluation(g, currentGameState)
  {
    var score := g.score(currentGameState);
    var pacmanPosition := g.pacmanPosition(currentGameState);
    var ghostDistances: seq<nat> := [];
    var ghostIndex := 1;
    while ghostIndex < g.numAgents
      invariant 1 <= ghostIndex <= if g.numAgents == 0 then 1 else g.numAgents
      invariant ghostDistances == DistancesUpTo(g, currentGameState, ghostIndex - 1)
    {
      var ghostPos := g.ghostPosition(currentGameState, ghostIndex);
      var distance := ManhattanDistance(pacmanPosition, ghostPos);
      ghostDistances := ghostDistances + [distance];
      ghostIndex := ghostIndex + 1;
    }
    assert ghostDistances == GhostDistances(g, currentGameState);
    if |ghostDistances| == 0 {
      return Err(ValueError);
    }
    var closestGhostDistance := MinOf(ghostDistances);

    var threateningGhosts := 0;
    for k := 0 to |ghostDistances|
      invariant threateningGhosts == CountWithin(ghostDistances, 2, k)
    {
      if ghostDistances[k] <= 2 {
        threateningGhosts := threateningGhosts + 1;
      }
    }

    var evaluation := score - closestGhostDistance - threateningGhosts;
    return Ok(evaluation);
  }

  /** The threat count lies between 0 and the number of ghosts, and is at
      least one when the nearest ghost is within two steps. */
  lemma ThreatCountBounds<S, A>(g: Game<S, A>, s: S)
    requires g.numAgents >= 2
    ensures var ds := GhostDistances(g, s);
      && 0 <= CountWithin(ds, 2, |ds|) <= g.numAgents - 1
      && (MinOf(ds) <= 2 ==> CountWithin(ds, 2, |ds|) >= 1)
  {
    var ds := GhostDistances(g, s);
    NoThreatIffAllFar(ds, 2, |ds|);
    var j :| 0 <= j < |ds| && ds[j] == MinOf(ds);
  }

  /** The heuristic is always strictly below the plain score: either the
      nearest ghost is more than two steps away, or it is itself counted
      as a threat. */
  lemma BetterEvaluationBelowScore<S, A>(g: Game<S, A>, s: S)
    requires g.numAgents >= 2
    ensures BetterEvaluation(g, s).Ok?
    ensures BetterEvaluation(g, s).value < ScoreEvaluation(g, s)
  {
    ThreatCountBounds(g, s);
  }

  /** Bringing ghosts closer never raises the nearest distance. */
  lemma {:induction false} MinOfMonotone(xs: seq<nat>, ys: seq<nat>)
    requires |xs| == |ys| > 0 && forall j :: 0 <= j < |xs| ==> xs[j] <= ys[j]
    ensures MinOf(xs) <= MinOf(ys)
  {
    var j :| 0 <= j < |ys| && ys[j] == MinOf(ys);
    assert MinOf(xs) <= xs[j];
  }

  /** Bringing ghosts closer never lowers the threat count. */
  lemma {:induction false} CountWithinAntitone(xs: seq<nat>, ys: seq<nat>, limit: nat, k: nat)
    requires k <= |xs| == |ys| && forall j :: 0 <= j < |xs| ==> xs[j] <= ys[j]
    ensures CountWithin(ys, limit, k) <= CountWithin(xs, limit, k)
  {
    if k > 0 {
      CountWithinAntitone(xs, ys, limit, k - 1);
    }
  }

  /** Positions enter only through the ghost distances: two states that
      are the same distance from every ghost are evaluated exactly their
      score difference apart. */
  lemma ScoreShiftsEvaluation<S, A>(g: Game<S, A>, s1: S, s2: S)
    requires g.numAgents >= 2
    requires GhostDistances(g, s1) == GhostDistances(g, s2)
    ensures BetterEvaluation(g, s1).Ok? && BetterEvaluation(g, s2).Ok?
    ensures BetterEvaluation(g, s2).value - BetterEvaluation(g, s1).value == g.score(s2) - g.score(s1)
  {
  }

  /** The nearest-ghost term is SUBTRACTED, so once no ghost is within two
      steps, a state whose ghosts are all at most as far away (and whose
      score is no lower) is evaluated at least as high: the heuristic draws
      Pacman towards ghosts until they come within the threat radius. */
  lemma NearerSafeGhostsScoreHigher<S, A>(g: Game<S, A>, s1: S, s2: S)
    requires g.numAgents >= 2 && g.score(s1) >= g.score(s2)
    requires forall j :: 0 <= j < g.numAgents - 1 ==>
      2 < GhostDistances(g, s1)[j] <= GhostDistances(g, s2)[j]
    ensures BetterEvaluation(g, s1).Ok? && BetterEvaluation(g, s2).Ok?
    ensures BetterEvaluation(g, s1).value >= BetterEvaluation(g, s2).value
  {
    var near, far := GhostDistances(g, s1), GhostDistances(g, s2);
    MinOfMonotone(near, far);
    NoThreatIffAllFar(near, 2, |near|);
    NoThreatIffAllFar(far, 2, |far|);
  }
}
