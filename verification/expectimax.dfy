/** The expectimax value of ExpectimaxAgent (multiAgents.py:154-196),
    written as recursive functions.

    Pacman maximises; every ghost is a chance node that plays each of its
    legal actions with probability 1 / (number of actions) and is worth the
    probability-weighted sum of its successors.  The depth counts down from
    the agent's depth and drops by one only after the last ghost has moved.
    A ghost without legal actions makes `1 / len(actions)` raise
    ZeroDivisionError, and the error ends the whole search: every value is a
    `Result`.  A Pacman node without legal actions is worth -inf. */
module Expectimax {
  import opened Values
  import opened Outcomes
  import opened Games
  import Minimax

  function MaxValue<S, A>(ag: Agent<S, A>, s: S, depth: nat): Result<ExtReal>
    requires ag.game.numAgents >= 2
    decreases depth, ag.game.numAgents, 1, 0
  {
    if depth == 0 || ag.game.Terminal(s) then Ok(Num(ag.evaluate(s) as real))
    else MaxPrefix(ag, s, depth, |ag.game.actions(s, 0)|)
  }

  /** The running maximum `v` after Pacman's first `k` actions, starting
      from -inf and replaced only by a strictly greater score. */
  function MaxPrefix<S, A>(ag: Agent<S, A>, s: S, depth: nat, k: nat): Result<ExtReal>
    requires ag.game.numAgents >= 2 && depth > 0 && k <= |ag.game.actions(s, 0)|
    decreases depth, ag.game.numAgents, 0, k
  {
    if k == 0 then Ok(MinusInf)
    else
      match MaxPrefix(ag, s, depth, k - 1)
      case Err(e) => Err(e)
      case Ok(v) =>
        match ExpectValue(ag, ag.game.Successor(s, 0, k - 1), 1, depth)
        case Err(e) => Err(e)
        case Ok(score) => Ok(if Gt(score, v) then score else v)
  }

  function ExpectValue<S, A>(ag: Agent<S, A>, s: S, i: nat, depth: nat): Result<ExtReal>
    requires ag.game.numAgents >= 2 && 1 <= i < ag.game.numAgents
    decreases depth, ag.game.numAgents - i, 1, 0
  {
    if depth == 0 || ag.game.Terminal(s) then Ok(Num(ag.evaluate(s) as real))
    else if |ag.game.actions(s, i)| == 0 then Err(ZeroDivisionError)
    else ExpectPrefix(ag, s, i, depth, |ag.game.actions(s, i)|)
  }

  /** The probability the chance node gives each of ghost `i`'s actions. */
  function Probability<S, A>(g: Game<S, A>, s: S, i: nat): (p: real)
    requires |g.actions(s, i)| > 0
    ensures p > 0.0
  {
    1.0 / (|g.actions(s, i)| as real)
  }

  /** The accumulator `v` after ghost `i`'s first `k` actions: the sum of
      p * child over them, starting from 0. */
  function ExpectPrefix<S, A>(ag: Agent<S, A>, s: S, i: nat, depth: nat, k: nat): Result<ExtReal>
    requires ag.game.numAgents >= 2 && 1 <= i < ag.game.numAgents && depth > 0
    requires 0 < |ag.game.actions(s, i)| && k <= |ag.game.actions(s, i)|
    decreases depth, ag.game.numAgents - i, 0, k
  {
    if k == 0 then Ok(Num(0.0))
    else
      match ExpectPrefix(ag, s, i, depth, k - 1)
      case Err(e) => Err(e)
      case Ok(v) =>
        match ChanceChild(ag, s, i, depth, k - 1)
        case Err(e) => Err(e)
        case Ok(c) => Ok(Add(v, Scale(Probability(ag.game, s, i), c)))
  }

  /** The value of the position ghost `i` reaches with its `k`-th action:
      Pacman's node one round further down after the last ghost, otherwise
      the next ghost's chance node in the same round. */
  function ChanceChild<S, A>(ag: Agent<S, A>, s: S, i: nat, depth: nat, k: nat): Result<ExtReal>
    requires ag.game.numAgents >= 2 && 1 <= i < ag.game.numAgents && depth > 0
    requires k < |ag.game.actions(s, i)|
    decreases depth, ag.game.numAgents - i, 0, 0
  {
    if i == ag.game.numAgents - 1 then MaxValue(ag, ag.game.Successor(s, i, k), depth - 1)
    else ExpectValue(ag, ag.game.Successor(s, i, k), i + 1, depth)
  }

  /** The expected score of Pacman's `k`-th action. */
  function MaxChild<S, A>(ag: Agent<S, A>, s: S, depth: nat, k: nat): Result<ExtReal>
    requires ag.game.numAgents >= 2 && k < |ag.game.actions(s, 0)|
  {
    ExpectValue(ag, ag.game.Successor(s, 0, k), 1, depth)
  }

  // ----- Chance nodes average their children -----------------------------

  function Sum(xs: seq<ExtReal>): ExtReal
  {
    if |xs| == 0 then Num(0.0) else Add(Sum(xs[..|xs| - 1]), xs[|xs| - 1])
  }

  /** The arithmetic mean; -inf as soon as one value is -inf. */
  function Mean(xs: seq<ExtReal>): ExtReal
    requires |xs| > 0
  {
    Scale(1.0 / (|xs| as real), Sum(xs))
  }

  lemma {:induction false} ExpectPrefixIsScaledSum<S, A>(ag: Agent<S, A>, s: S, i: nat, depth: nat, vals: seq<ExtReal>, k: nat)
    requires ag.game.numAgents >= 2 && 1 <= i < ag.game.numAgents && depth > 0
    requires 0 < |ag.game.actions(s, i)| == |vals| && k <= |vals|
    requires forall j :: 0 <= j < |vals| ==> ChanceChild(ag, s, i, depth, j) == Ok(vals[j])
    ensures ExpectPrefix(ag, s, i, depth, k) == Ok(Scale(Probability(ag.game, s, i), Sum(vals[..k])))
  {
    var p := Probability(ag.game, s, i);
    if k == 0 {
      assert vals[..0] == [];
    } else {
      ExpectPrefixIsScaledSum(ag, s, i, depth, vals, k - 1);
      assert vals[..k][..k - 1] == vals[..k - 1];
      ScaleDistributes(p, Sum(vals[..k - 1]), vals[k - 1]);
    }
  }

  /** A chance node is worth the mean of its successors' values: each of
      the ghost's actions weighs 1 / (number of actions). */
  lemma ExpectationIsMean<S, A>(ag: Agent<S, A>, s: S, i: nat, depth: nat, vals: seq<ExtReal>)
    requires ag.game.numAgents >= 2 && 1 <= i < ag.game.numAgents && depth > 0 && !ag.game.Terminal(s)
    requires |vals| == |ag.game.actions(s, i)| > 0
    requires forall j :: 0 <= j < |vals| ==> ChanceChild(ag, s, i, depth, j) == Ok(vals[j])
    ensures ExpectValue(ag, s, i, depth) == Ok(Mean(vals))
  {
    ExpectPrefixIsScaledSum(ag, s, i, depth, vals, |vals|);
    assert vals[..|vals|] == vals;
  }

  /** The first error met, or the sum so far, stays so for longer prefixes. */
  lemma {:induction false} ExpectPrefixErrorSticks<S, A>(ag: Agent<S, A>, s: S, i: nat, depth: nat, k: nat, k': nat)
    requires ag.game.numAgents >= 2 && 1 <= i < ag.game.numAgents && depth > 0
    requires 0 < |ag.game.actions(s, i)| && k <= k' <= |ag.game.actions(s, i)|
    requires ExpectPrefix(ag, s, i, depth, k).Err?
    ensures ExpectPrefix(ag, s, i, depth, k') == ExpectPrefix(ag, s, i, depth, k)
    decreases k' - k
  {
    if k < k' {
      ExpectPrefixErrorSticks(ag, s, i, depth, k, k' - 1);
    }
  }

  lemma {:induction false} MaxPrefixErrorSticks<S, A>(ag: Agent<S, A>, s: S, depth: nat, k: nat, k': nat)
    requires ag.game.numAgents >= 2 && depth > 0 && k <= k' <= |ag.game.actions(s, 0)|
    requires MaxPrefix(ag, s, depth, k).Err?
    ensures MaxPrefix(ag, s, depth, k') == MaxPrefix(ag, s, depth, k)
    decreases k' - k
  {
    if k < k' {
      MaxPrefixErrorSticks(ag, s, depth, k, k' - 1);
    }
  }

  // ----- Pacman's node picks the best expected score ---------------------

  lemma {:induction false} MaxPrefixIsMaximum<S, A>(ag: Agent<S, A>, s: S, depth: nat, k: nat)
    requires ag.game.numAgents >= 2 && depth > 0 && k <= |ag.game.actions(s, 0)|
    ensures MaxPrefix(ag, s, depth, k).Ok? <==> forall j :: 0 <= j < k ==> MaxChild(ag, s, depth, j).Ok?
    ensures MaxPrefix(ag, s, depth, k).Ok? ==>
      var v := MaxPrefix(ag, s, depth, k).value;
      && (forall j :: 0 <= j < k ==> !Gt(MaxChild(ag, s, depth, j).value, v))
      && (v == MinusInf || exists j :: 0 <= j < k && MaxChild(ag, s, depth, j) == Ok(v))
  {
    if k > 0 {
      MaxPrefixIsMaximum(ag, s, depth, k - 1);
      if MaxPrefix(ag, s, depth, k - 1).Ok? && MaxChild(ag, s, depth, k - 1).Ok? {
        var prev := MaxPrefix(ag, s, depth, k - 1).value;
        var v := MaxPrefix(ag, s, depth, k).value;
        if v != prev {
          assert MaxChild(ag, s, depth, k - 1) == Ok(v);
        }
      }
    }
  }

  /** The action the running maximum last moved to among Pacman's first
      `k` actions: the first one whose expected score exceeds every score
      before it and is not exceeded afterwards.  None while the maximum is
      still -inf. */
  function FirstBest<S, A>(ag: Agent<S, A>, s: S, depth: nat, k: nat): (r: Option<nat>)
    requires ag.game.numAgents >= 2 && depth > 0 && k <= |ag.game.actions(s, 0)|
    ensures r.Some? ==> r.value < k
  {
    if k == 0 then None
    else if MaxPrefix(ag, s, depth, k - 1).Ok? && MaxChild(ag, s, depth, k - 1).Ok?
         && Gt(MaxChild(ag, s, depth, k - 1).value, MaxPrefix(ag, s, depth, k - 1).value)
    then Some(k - 1)
    else FirstBest(ag, s, depth, k - 1)
  }

  /** FirstBest is empty exactly when nothing beat -inf, and otherwise names
      an action that reaches the maximum and beats strictly every action
      before it. */
  lemma {:induction false} FirstBestIsFirstMaximum<S, A>(ag: Agent<S, A>, s: S, depth: nat, k: nat)
    requires ag.game.numAgents >= 2 && depth > 0 && k <= |ag.game.actions(s, 0)|
    requires MaxPrefix(ag, s, depth, k).Ok?
    ensures FirstBest(ag, s, depth, k).None? <==> MaxPrefix(ag, s, depth, k).value == MinusInf
    ensures FirstBest(ag, s, depth, k).Some? ==>
      var i := FirstBest(ag, s, depth, k).value;
      && MaxChild(ag, s, depth, i) == MaxPrefix(ag, s, depth, k)
      && forall j :: 0 <= j < i ==>
           MaxChild(ag, s, depth, j).Ok? && Gt(MaxPrefix(ag, s, depth, k).value, MaxChild(ag, s, depth, j).value)
  {
    if k > 0 {
      var prev := MaxPrefix(ag, s, depth, k - 1);
      var c := MaxChild(ag, s, depth, k - 1);
      assert prev.Ok? && c.Ok?;
      if Gt(c.value, prev.value) {
        MaxPrefixIsMaximum(ag, s, depth, k - 1);
      } else {
        FirstBestIsFirstMaximum(ag, s, depth, k - 1);
      }
    }
  }

  /** Pacman's node: the evaluation at a terminal state or when the depth
      has run out; otherwise an error exactly when one of its successors
      raised, and else the greatest expected score of its actions (-inf
      when it has none). */
  lemma MaxValueIsBestReply<S, A>(ag: Agent<S, A>, s: S, depth: nat)
    requires ag.game.numAgents >= 2
    ensures depth == 0 || ag.game.Terminal(s) ==> MaxValue(ag, s, depth) == Ok(Num(ag.evaluate(s) as real))
    ensures depth > 0 && !ag.game.Terminal(s) ==>
      var acts := ag.game.actions(s, 0);
      && (MaxValue(ag, s, depth).Ok? <==> forall k :: 0 <= k < |acts| ==> MaxChild(ag, s, depth, k).Ok?)
      && (MaxValue(ag, s, depth).Ok? ==>
            && (forall k :: 0 <= k < |acts| ==> !Gt(MaxChild(ag, s, depth, k).value, MaxValue(ag, s, depth).value))
            && (MaxValue(ag, s, depth).value == MinusInf ||
                exists k :: 0 <= k < |acts| && MaxChild(ag, s, depth, k) == MaxValue(ag, s, depth))
            && (|acts| == 0 ==> MaxValue(ag, s, depth) == Ok(MinusInf)))
  {
    if depth > 0 && !ag.game.Terminal(s) {
      MaxPrefixIsMaximum(ag, s, depth, |ag.game.actions(s, 0)|);
    }
  }

  // ----- When the search raises ZeroDivisionError ------------------------

  /** No ghost is ever left without a legal action in a non-terminal state. */
  ghost predicate GhostsCanMove<S(!new), A>(g: Game<S, A>)
  {
    forall s, i :: 1 <= i < g.numAgents && !g.Terminal(s) ==> |g.actions(s, i)| > 0
  }

  /** If no ghost is ever stuck, the search never raises: a ZeroDivisionError
      needs a reachable non-terminal chance node whose ghost has no move. */
  lemma {:induction false} MaxValueDefined<S(!new), A>(ag: Agent<S, A>, s: S, depth: nat)
    requires ag.game.numAgents >= 2 && GhostsCanMove(ag.game)
    ensures MaxValue(ag, s, depth).Ok?
    decreases depth, ag.game.numAgents, 1, 0
  {
    if depth > 0 && !ag.game.Terminal(s) {
      MaxPrefixDefined(ag, s, depth, |ag.game.actions(s, 0)|);
    }
  }

  lemma {:induction false} MaxPrefixDefined<S(!new), A>(ag: Agent<S, A>, s: S, depth: nat, k: nat)
    requires ag.game.numAgents >= 2 && GhostsCanMove(ag.game) && depth > 0 && k <= |ag.game.actions(s, 0)|
    ensures MaxPrefix(ag, s, depth, k).Ok?
    decreases depth, ag.game.numAgents, 0, k
  {
    if k > 0 {
      MaxPrefixDefined(ag, s, depth, k - 1);
      ExpectValueDefined(ag, ag.game.Successor(s, 0, k - 1), 1, depth);
    }
  }

  lemma {:induction false} ExpectValueDefined<S(!new), A>(ag: Agent<S, A>, s: S, i: nat, depth: nat)
    requires ag.game.numAgents >= 2 && GhostsCanMove(ag.game) && 1 <= i < ag.game.numAgents
    ensures ExpectValue(ag, s, i, depth).Ok?
    decreases depth, ag.game.numAgents - i, 1, 0
  {
    if depth > 0 && !ag.game.Terminal(s) {
      assert |ag.game.actions(s, i)| > 0;
      ExpectPrefixDefined(ag, s, i, depth, |ag.game.actions(s, i)|);
    }
  }

  lemma {:induction false} ExpectPrefixDefined<S(!new), A>(ag: Agent<S, A>, s: S, i: nat, depth: nat, k: nat)
    requires ag.game.numAgents >= 2 && GhostsCanMove(ag.game) && 1 <= i < ag.game.numAgents && depth > 0
    requires 0 < |ag.game.actions(s, i)| && k <= |ag.game.actions(s, i)|
    ensures ExpectPrefix(ag, s, i, depth, k).Ok?
    decreases depth, ag.game.numAgents - i, 0, k
  {
    if k > 0 {
      ExpectPrefixDefined(ag, s, i, depth, k - 1);
      var c := ag.game.Successor(s, i, k - 1);
      if i == ag.game.numAgents - 1 {
        MaxValueDefined(ag, c, depth - 1);
      } else {
        ExpectValueDefined(ag, c, i + 1, depth);
      }
    }
  }

  /** A non-terminal chance node whose ghost has no legal action raises. */
  lemma StuckGhostRaises<S, A>(ag: Agent<S, A>, s: S, i: nat, depth: nat)
    requires ag.game.numAgents >= 2 && 1 <= i < ag.game.numAgents && depth > 0
    requires !ag.game.Terminal(s) && |ag.game.actions(s, i)| == 0
    ensures ExpectValue(ag, s, i, depth) == Err(ZeroDivisionError)
  {
  }

  // ----- Counting rounds down visits the rounds minimax counts up --------

  /** Every ghost, in every non-terminal state, has exactly one legal action. */
  ghost predicate GhostsHaveOneMove<S(!new), A>(g: Game<S, A>)
  {
    forall s, i :: 1 <= i < g.numAgents && !g.Terminal(s) ==> |g.actions(s, i)| == 1
  }

  /** With a single move per ghost a chance node and a minimising node are
      the same node, so expectimax started at depth D - d and minimax
      started at round d compute the same number: the countdown reaches 0
      exactly where minimax's round counter reaches the depth. */
  lemma {:induction false} MaxValueMatchesMinimax<S(!new), A>(ag: Agent<S, A>, s: S, d: nat)
    requires ag.game.numAgents >= 2 && d <= ag.depth && GhostsHaveOneMove(ag.game)
    ensures MaxValue(ag, s, ag.depth - d).Ok?
    ensures SameValue(Minimax.MaxValue(ag, s, d), MaxValue(ag, s, ag.depth - d).value)
    decreases ag.depth - d, ag.game.numAgents + 1, 1, 0
  {
    if !ag.game.Terminal(s) && d < ag.depth {
      MaxPrefixMatchesMinimax(ag, s, d, |ag.game.actions(s, 0)|);
    }
  }

  lemma {:induction false} MaxPrefixMatchesMinimax<S(!new), A>(ag: Agent<S, A>, s: S, d: nat, k: nat)
    requires ag.game.numAgents >= 2 && d < ag.depth && GhostsHaveOneMove(ag.game)
    requires k <= |ag.game.actions(s, 0)|
    ensures MaxPrefix(ag, s, ag.depth - d, k).Ok?
    ensures SameValue(Minimax.MaxPrefix(ag, s, d, k), MaxPrefix(ag, s, ag.depth - d, k).value)
    decreases ag.depth - d, ag.game.numAgents + 1, 0, k
  {
    if k > 0 {
      MaxPrefixMatchesMinimax(ag, s, d, k - 1);
      MinValueMatchesMinimax(ag, ag.game.Successor(s, 0, k - 1), d, 1);
    }
  }

  lemma {:induction false} MinValueMatchesMinimax<S(!new), A>(ag: Agent<S, A>, s: S, d: nat, i: nat)
    requires ag.game.numAgents >= 2 && d < ag.depth && 1 <= i < ag.game.numAgents && GhostsHaveOneMove(ag.game)
    ensures ExpectValue(ag, s, i, ag.depth - d).Ok?
    ensures SameValue(Minimax.MinValue(ag, s, d, i), ExpectValue(ag, s, i, ag.depth - d).value)
    decreases ag.depth - d, ag.game.numAgents + 1 - i, 1, 0
  {
    if !ag.game.Terminal(s) {
      assert |ag.game.actions(s, i)| == 1;
      var c := ag.game.Successor(s, i, 0);
      if i == ag.game.numAgents - 1 {
        MaxValueMatchesMinimax(ag, c, d + 1);
        Minimax.WrapHandsOff(ag, c, d);
        assert ChanceChild(ag, s, i, ag.depth - d, 0) == MaxValue(ag, c, ag.depth - (d + 1));
      } else {
        MinValueMatchesMinimax(ag, c, d, i + 1);
        assert ChanceChild(ag, s, i, ag.depth - d, 0) == ExpectValue(ag, c, i + 1, ag.depth - d);
      }
      assert Probability(ag.game, s, i) == 1.0;
      assert Minimax.MinPrefix(ag, s, d, i, 0) == PosInf;
      assert Minimax.MinValue(ag, s, d, i) == Minimax.MinPrefix(ag, s, d, i, 1)
        == Min(PosInf, Minimax.MinValue(ag, c, d, i + 1));
      assert ExpectPrefix(ag, s, i, ag.depth - d, 0) == Ok(Num(0.0));
      assert ExpectValue(ag, s, i, ag.depth - d) == ExpectPrefix(ag, s, i, ag.depth - d, 1);
    }
  }
}
