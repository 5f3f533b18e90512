/** The minimax value of a game position, as the source's MinimaxAgent
    defines it (multiAgents.py:55-93), written as recursive functions.

    `MaxValue(ag, s, d)` is Pacman to move in round `d`; `MinValue(ag, s, d, i)`
    is ghost `i` to move in round `d`, and `i == numAgents` means the round
    is over and Pacman moves again in round `d + 1`.  The loops of the source
    become folds over the first `k` legal actions (`MaxPrefix`, `MinPrefix`),
    so that the methods in MinimaxAgent can be proved against them step by
    step.  The recursion is bounded by the measure (depth - d, agents left in
    the round), and `MaxPlies` below shows the same bound as a count of moves. */
module Minimax {
  import opened Values
  import opened Games

  function MaxValue<S, A>(ag: Agent<S, A>, s: S, d: nat): ExtInt
    requires ag.game.numAgents >= 1 && d <= ag.depth
    decreases ag.depth - d, ag.game.numAgents + 1, 1, 0
  {
    if ag.game.Terminal(s) || d == ag.depth then Fin(ag.evaluate(s))
    else MaxPrefix(ag, s, d, |ag.game.actions(s, 0)|)
  }

  /** max(-inf, child 0, ..., child k-1) over Pacman's first `k` actions. */
  function MaxPrefix<S, A>(ag: Agent<S, A>, s: S, d: nat, k: nat): ExtInt
    requires ag.game.numAgents >= 1 && d < ag.depth && k <= |ag.game.actions(s, 0)|
    decreases ag.depth - d, ag.game.numAgents + 1, 0, k
  {
    if k == 0 then NegInf
    else Max(MaxPrefix(ag, s, d, k - 1), MinValue(ag, ag.game.Successor(s, 0, k - 1), d, 1))
  }

  function MinValue<S, A>(ag: Agent<S, A>, s: S, d: nat, i: nat): ExtInt
    requires ag.game.numAgents >= 1 && d < ag.depth && 1 <= i <= ag.game.numAgents
    decreases ag.depth - d, ag.game.numAgents + 1 - i, 1, 0
  {
    if ag.game.Terminal(s) then Fin(ag.evaluate(s))
    else if i == ag.game.numAgents then MaxValue(ag, s, d + 1)
    else MinPrefix(ag, s, d, i, |ag.game.actions(s, i)|)
  }

  /** min(+inf, child 0, ..., child k-1) over ghost `i`'s first `k` actions. */
  function MinPrefix<S, A>(ag: Agent<S, A>, s: S, d: nat, i: nat, k: nat): ExtInt
    requires ag.game.numAgents >= 1 && d < ag.depth && 1 <= i < ag.game.numAgents
    requires k <= |ag.game.actions(s, i)|
    decreases ag.depth - d, ag.game.numAgents + 1 - i, 0, k
  {
    if k == 0 then PosInf
    else Min(MinPrefix(ag, s, d, i, k - 1), MinValue(ag, ag.game.Successor(s, i, k - 1), d, i + 1))
  }

  /** The value of the position Pacman reaches with its `k`-th action. */
  function MaxChild<S, A>(ag: Agent<S, A>, s: S, d: nat, k: nat): ExtInt
    requires ag.game.numAgents >= 1 && d < ag.depth && k < |ag.game.actions(s, 0)|
  {
    MinValue(ag, ag.game.Successor(s, 0, k), d, 1)
  }

  /** The value of the position ghost `i` reaches with its `k`-th action. */
  function MinChild<S, A>(ag: Agent<S, A>, s: S, d: nat, i: nat, k: nat): ExtInt
    requires ag.game.numAgents >= 1 && d < ag.depth && 1 <= i < ag.game.numAgents
    requires k < |ag.game.actions(s, i)|
  {
    MinValue(ag, ag.game.Successor(s, i, k), d, i + 1)
  }

  lemma {:induction false} MaxPrefixIsMaximum<S, A>(ag: Agent<S, A>, s: S, d: nat, k: nat)
    requires ag.game.numAgents >= 1 && d < ag.depth && k <= |ag.game.actions(s, 0)|
    ensures forall j :: 0 <= j < k ==> Le(MaxChild(ag, s, d, j), MaxPrefix(ag, s, d, k))
    ensures k == 0 ==> MaxPrefix(ag, s, d, k) == NegInf
    ensures k > 0 ==> exists j :: 0 <= j < k && MaxPrefix(ag, s, d, k) == MaxChild(ag, s, d, j)
  {
    if k > 0 {
      MaxPrefixIsMaximum(ag, s, d, k - 1);
      var prev, last := MaxPrefix(ag, s, d, k - 1), MaxChild(ag, s, d, k - 1);
      var v := MaxPrefix(ag, s, d, k);
      assert v == Max(prev, last);
      forall j | 0 <= j < k ensures Le(MaxChild(ag, s, d, j), v) {
        if j < k - 1 {
          LeTransitive(MaxChild(ag, s, d, j), prev, v);
        }
      }
      if v == last || k == 1 {
        assert v == MaxChild(ag, s, d, k - 1);
      } else {
        var j :| 0 <= j < k - 1 && prev == MaxChild(ag, s, d, j);
        assert v == MaxChild(ag, s, d, j);
      }
    }
  }

  lemma {:induction false} MinPrefixIsMinimum<S, A>(ag: Agent<S, A>, s: S, d: nat, i: nat, k: nat)
    requires ag.game.numAgents >= 1 && d < ag.depth && 1 <= i < ag.game.numAgents
    requires k <= |ag.game.actions(s, i)|
    ensures forall j :: 0 <= j < k ==> Le(MinPrefix(ag, s, d, i, k), MinChild(ag, s, d, i, j))
    ensures k == 0 ==> MinPrefix(ag, s, d, i, k) == PosInf
    ensures k > 0 ==> exists j :: 0 <= j < k && MinPrefix(ag, s, d, i, k) == MinChild(ag, s, d, i, j)
  {
    if k > 0 {
      MinPrefixIsMinimum(ag, s, d, i, k - 1);
      var prev, last := MinPrefix(ag, s, d, i, k - 1), MinChild(ag, s, d, i, k - 1);
      var v := MinPrefix(ag, s, d, i, k);
      assert v == Min(prev, last);
      forall j | 0 <= j < k ensures Le(v, MinChild(ag, s, d, i, j)) {
        if j < k - 1 {
          LeTransitive(v, prev, MinChild(ag, s, d, i, j));
        }
      }
      if v == last || k == 1 {
        assert v == MinChild(ag, s, d, i, k - 1);
      } else {
        var j :| 0 <= j < k - 1 && prev == MinChild(ag, s, d, i, j);
        assert v == MinChild(ag, s, d, i, j);
      }
    }
  }

  /** Pacman's node: the evaluation at a terminal state or at the depth
      limit, otherwise the best of its successors' values (-inf when it has
      no legal action). */
  lemma MaxValueIsBestReply<S, A>(ag: Agent<S, A>, s: S, d: nat)
    requires ag.game.numAgents >= 1 && d <= ag.depth
    ensures ag.game.Terminal(s) || d == ag.depth ==> MaxValue(ag, s, d) == Fin(ag.evaluate(s))
    ensures !ag.game.Terminal(s) && d < ag.depth ==>
      && (forall k :: 0 <= k < |ag.game.actions(s, 0)| ==> Le(MaxChild(ag, s, d, k), MaxValue(ag, s, d)))
      && (|ag.game.actions(s, 0)| == 0 ==> MaxValue(ag, s, d) == NegInf)
      && (|ag.game.actions(s, 0)| > 0 ==>
            exists k :: 0 <= k < |ag.game.actions(s, 0)| && MaxValue(ag, s, d) == MaxChild(ag, s, d, k))
  {
    if !ag.game.Terminal(s) && d < ag.depth {
      MaxPrefixIsMaximum(ag, s, d, |ag.game.actions(s, 0)|);
    }
  }

  /** A ghost's node: the evaluation at any terminal state whatever the
      round, Pacman's node of the next round once every ghost has moved,
      otherwise the worst of its successors' values for Pacman (+inf when
      the ghost has no legal action). */
  lemma MinValueIsBestReply<S, A>(ag: Agent<S, A>, s: S, d: nat, i: nat)
    requires ag.game.numAgents >= 1 && d < ag.depth && 1 <= i <= ag.game.numAgents
    ensures ag.game.Terminal(s) ==> MinValue(ag, s, d, i) == Fin(ag.evaluate(s))
    ensures !ag.game.Terminal(s) && i == ag.game.numAgents ==> MinValue(ag, s, d, i) == MaxValue(ag, s, d + 1)
    ensures !ag.game.Terminal(s) && i < ag.game.numAgents ==>
      && (forall k :: 0 <= k < |ag.game.actions(s, i)| ==> Le(MinValue(ag, s, d, i), MinChild(ag, s, d, i, k)))
      && (|ag.game.actions(s, i)| == 0 ==> MinValue(ag, s, d, i) == PosInf)
      && (|ag.game.actions(s, i)| > 0 ==>
            exists k :: 0 <= k < |ag.game.actions(s, i)| && MinValue(ag, s, d, i) == MinChild(ag, s, d, i, k))
  {
    if !ag.game.Terminal(s) && i < ag.game.numAgents {
      MinPrefixIsMinimum(ag, s, d, i, |ag.game.actions(s, i)|);
    }
  }

  /** No action of Pacman's leads to more than the node's value. */
  lemma MaxChildBelowValue<S, A>(ag: Agent<S, A>, s: S, d: nat, k: nat)
    requires ag.game.numAgents >= 1 && d < ag.depth && !ag.game.Terminal(s) && k < |ag.game.actions(s, 0)|
    ensures Le(MaxChild(ag, s, d, k), MaxValue(ag, s, d))
  {
    MaxPrefixIsMaximum(ag, s, d, |ag.game.actions(s, 0)|);
  }

  /** No action of ghost `i` leads to less than the node's value. */
  lemma MinChildAboveValue<S, A>(ag: Agent<S, A>, s: S, d: nat, i: nat, k: nat)
    requires ag.game.numAgents >= 1 && d < ag.depth && 1 <= i < ag.game.numAgents && !ag.game.Terminal(s)
    requires k < |ag.game.actions(s, i)|
    ensures Le(MinValue(ag, s, d, i), MinChild(ag, s, d, i, k))
  {
    MinPrefixIsMinimum(ag, s, d, i, |ag.game.actions(s, i)|);
  }

  /** After the last ghost, control passes to Pacman's node of the next
      round; at a terminal state both sides are the evaluation. */
  lemma WrapHandsOff<S, A>(ag: Agent<S, A>, s: S, d: nat)
    requires ag.game.numAgents >= 1 && d < ag.depth
    ensures MinValue(ag, s, d, ag.game.numAgents) == MaxValue(ag, s, d + 1)
  {
  }

  // ----- Round counting -------------------------------------------------

  function MaxNat(x: nat, y: nat): nat
  {
    if x <= y then y else x
  }

  /** `rounds` full rounds of `agents` moves each: rounds * agents. */
  function Moves(rounds: nat, agents: nat): (r: nat)
  {
    if rounds == 0 then 0 else agents + Moves(rounds - 1, agents)
  }

  lemma {:induction false} MovesIsProduct(rounds: nat, agents: nat)
    ensures Moves(rounds, agents) == rounds * agents
  {
    if rounds > 0 {
      MovesIsProduct(rounds - 1, agents);
    }
  }

  /** The largest number of moves (calls to generateNextState) on any branch
      the search explores below Pacman's node of round `d`, before a
      cut-off evaluation or a terminal state stops it. */
  function MaxPlies<S, A>(ag: Agent<S, A>, s: S, d: nat): (r: nat)
    requires ag.game.numAgents >= 1 && d <= ag.depth
    ensures r <= Moves(ag.depth - d, ag.game.numAgents)
    decreases ag.depth - d, ag.game.numAgents + 1, 1, 0
  {
    if ag.game.Terminal(s) || d == ag.depth then 0
    else MaxPliesPrefix(ag, s, d, |ag.game.actions(s, 0)|)
  }

  function MaxPliesPrefix<S, A>(ag: Agent<S, A>, s: S, d: nat, k: nat): (r: nat)
    requires ag.game.numAgents >= 1 && d < ag.depth && k <= |ag.game.actions(s, 0)|
    ensures r <= Moves(ag.depth - d, ag.game.numAgents)
    decreases ag.depth - d, ag.game.numAgents + 1, 0, k
  {
    if k == 0 then 0
    else MaxNat(MaxPliesPrefix(ag, s, d, k - 1), 1 + MinPlies(ag, ag.game.Successor(s, 0, k - 1), d, 1))
  }

  /** The same count below ghost `i`'s node of round `d`: at most the moves
      left in this round (`numAgents - i`) plus all moves of the rounds
      still to come. */
  function MinPlies<S, A>(ag: Agent<S, A>, s: S, d: nat, i: nat): (r: nat)
    requires ag.game.numAgents >= 1 && d < ag.depth && 1 <= i <= ag.game.numAgents
    ensures r <= Moves(ag.depth - d, ag.game.numAgents) - i
    decreases ag.depth - d, ag.game.numAgents + 1 - i, 1, 0
  {
    if ag.game.Terminal(s) then 0
    else if i == ag.game.numAgents then
      MaxPlies(ag, s, d + 1)
    else MinPliesPrefix(ag, s, d, i, |ag.game.actions(s, i)|)
  }

  function MinPliesPrefix<S, A>(ag: Agent<S, A>, s: S, d: nat, i: nat, k: nat): (r: nat)
    requires ag.game.numAgents >= 1 && d < ag.depth && 1 <= i < ag.game.numAgents
    requires k <= |ag.game.actions(s, i)|
    ensures r <= Moves(ag.depth - d, ag.game.numAgents) - i
    decreases ag.depth - d, ag.game.numAgents + 1 - i, 0, k
  {
    if k == 0 then 0
    else MaxNat(MinPliesPrefix(ag, s, d, i, k - 1), 1 + MinPlies(ag, ag.game.Successor(s, i, k - 1), d, i + 1))
  }

  /** `depth` counts full rounds: no branch of the search from the root
      makes more than depth * numAgents moves before it is evaluated. */
  lemma SearchLengthBounded<S, A>(ag: Agent<S, A>, s: S)
    requires ag.game.numAgents >= 1
    ensures MaxPlies(ag, s, 0) <= ag.depth * ag.game.numAgents
  {
    MovesIsProduct(ag.depth, ag.game.numAgents);
  }

  // ----- The choice at the root -----------------------------------------

  /** `scores` of getAction after its loop has scored Pacman's first `k`
      legal actions, each searched from round 0 with ghost 1 to move. */
  function ScoresUpTo<S, A>(ag: Agent<S, A>, s: S, k: nat): (r: seq<ExtInt>)
    requires ag.game.numAgents >= 1 && ag.depth >= 1 && k <= |ag.game.actions(s, 0)|
    ensures |r| == k
  {
    if k == 0 then [] else ScoresUpTo(ag, s, k - 1) + [MaxChild(ag, s, 0, k - 1)]
  }

  /** `scores` of getAction: one score per legal action of Pacman. */
  function RootScores<S, A>(ag: Agent<S, A>, s: S): (r: seq<ExtInt>)
    requires ag.game.numAgents >= 1 && ag.depth >= 1
    ensures |r| == |ag.game.actions(s, 0)|
  {
    ScoresUpTo(ag, s, |ag.game.actions(s, 0)|)
  }

  /** Score `j` is the minimax value of Pacman's `j`-th action. */
  lemma {:induction false} ScoresAreChildValues<S, A>(ag: Agent<S, A>, s: S, k: nat)
    requires ag.game.numAgents >= 1 && ag.depth >= 1 && k <= |ag.game.actions(s, 0)|
    ensures forall j :: 0 <= j < k ==> ScoresUpTo(ag, s, k)[j] == MaxChild(ag, s, 0, j)
  {
    if k > 0 {
      ScoresAreChildValues(ag, s, k - 1);
    }
  }

  /** Python's max(xs) on a non-empty list. */
  function MaxOf(xs: seq<ExtInt>): (m: ExtInt)
    requires |xs| > 0
    ensures m in xs
    ensures forall j :: 0 <= j < |xs| ==> Le(xs[j], m)
  {
    if |xs| == 1 then xs[0]
    else
      var m' := MaxOf(xs[..|xs| - 1]);
      assert forall j :: 0 <= j < |xs| - 1 ==> xs[..|xs| - 1][j] == xs[j];
      forall j | 0 <= j < |xs| - 1 ensures Le(xs[j], Max(m', xs[|xs| - 1])) {
        LeTransitive(xs[j], m', Max(m', xs[|xs| - 1]));
      }
      Max(m', xs[|xs| - 1])
  }

  /** `bestIndices` after its loop has looked at the first `k` scores: the
      positions below `k` whose score is `best`, in increasing order. */
  function BestIndices(xs: seq<ExtInt>, best: ExtInt, k: nat): seq<nat>
    requires k <= |xs|
  {
    if k == 0 then []
    else BestIndices(xs, best, k - 1) + (if xs[k - 1] == best then [k - 1] else [])
  }

  predicate Increasing(r: seq<nat>)
  {
    forall p, q :: 0 <= p < q < |r| ==> r[p] < r[q]
  }

  /** The list holds exactly the positions below `k` whose score is `best`,
      each once, in increasing order. */
  lemma {:induction false} BestIndicesAreExact(xs: seq<ExtInt>, best: ExtInt, k: nat)
    requires k <= |xs|
    ensures forall j: nat :: j in BestIndices(xs, best, k) <==> j < k && xs[j] == best
    ensures Increasing(BestIndices(xs, best, k))
  {
    if k > 0 {
      BestIndicesAreExact(xs, best, k - 1);
      var prev := BestIndices(xs, best, k - 1);
      var last: seq<nat> := if xs[k - 1] == best then [k - 1] else [];
      assert BestIndices(xs, best, k) == prev + last;
      forall j: nat ensures j in prev + last <==> j < k && xs[j] == best {
        assert j in prev + last <==> j in prev || j in last;
      }
      var r := prev + last;
      forall p, q | 0 <= p < q < |r| ensures r[p] < r[q] {
        if q >= |prev| {
          assert r[p] == prev[p] && prev[p] in prev;
        }
      }
    }
  }

  /** The index random.choice picks from `bestIndices` when the random
      source yields `roll`. */
  function TieBreak(xs: seq<ExtInt>, roll: nat): (i: nat)
    requires |xs| > 0
  {
    var best := BestIndices(xs, MaxOf(xs), |xs|);
    BestIndicesNonEmpty(xs);
    best[roll % |best|]
  }

  /** A maximal score exists, so random.choice never sees an empty list. */
  lemma BestIndicesNonEmpty(xs: seq<ExtInt>)
    requires |xs| > 0
    ensures |BestIndices(xs, MaxOf(xs), |xs|)| > 0
  {
    BestIndicesAreExact(xs, MaxOf(xs), |xs|);
    assert MaxIndex(xs) in BestIndices(xs, MaxOf(xs), |xs|);
  }

  ghost function MaxIndex(xs: seq<ExtInt>): (j: nat)
    requires |xs| > 0
    ensures j < |xs| && xs[j] == MaxOf(xs)
  {
    var m := MaxOf(xs);
    var j :| 0 <= j < |xs| && xs[j] == m;
    j
  }

  /** Whatever the random source yields, the tie-break picks a score that
      no other score exceeds. */
  lemma TieBreakIsBest(xs: seq<ExtInt>, roll: nat)
    requires |xs| > 0
    ensures TieBreak(xs, roll) < |xs|
    ensures forall j :: 0 <= j < |xs| ==> Le(xs[j], xs[TieBreak(xs, roll)])
  {
    var best := BestIndices(xs, MaxOf(xs), |xs|);
    BestIndicesAreExact(xs, MaxOf(xs), |xs|);
    BestIndicesNonEmpty(xs);
    assert best[roll % |best|] in best;
  }

  /** Every best-scoring index is picked for some value of the random source,
      so the tie-break never favours one action exclusively. */
  lemma TieBreakReachesEveryBest(xs: seq<ExtInt>, i: nat)
    requires i < |xs| && forall j :: 0 <= j < |xs| ==> Le(xs[j], xs[i])
    ensures exists roll: nat :: TieBreak(xs, roll) == i
  {
    var m := MaxOf(xs);
    var best := BestIndices(xs, m, |xs|);
    BestIndicesAreExact(xs, m, |xs|);
    assert xs[i] == m by {
      assert Le(xs[i], m) && Le(m, xs[i]);
    }
    assert i in best;
    var p :| 0 <= p < |best| && best[p] == i;
    ModSmall(p, |best|);
    assert TieBreak(xs, p) == i;
  }

  /** A draw below the list's length picks that very position. */
  lemma ModSmall(p: nat, n: nat)
    requires p < n
    ensures p % n == p
  {
  }
}
