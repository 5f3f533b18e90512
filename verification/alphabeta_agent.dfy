/** AlphaBetaAgent (multiAgents.py:97-150): minimax with the bounds `a`
    (what Pacman can already guarantee) and `b` (what the ghosts can already
    guarantee) threaded through the recursion.  Its methods are proved
    against the minimax value of module Minimax: inside the window the
    result is exact, and a result outside the window (after a cut on the
    strict tests `v > b` or `v < a`) is a bound on the minimax value on the
    same side. */
module AlphaBetaAgent {
  import opened Values
  import opened Outcomes
  import opened Games
  import Minimax

  /** What an alpha-beta call with window [a, b] promises about its result
      `r` for a node whose minimax value is `m`. */
  predicate WithinWindow(r: ExtInt, m: ExtInt, a: ExtInt, b: ExtInt)
  {
    && (Lt(r, a) ==> Le(m, r))
    && (Lt(b, r) ==> Le(r, m))
    && (Le(a, r) && Le(r, b) ==> r == m)
  }

  /** A window that contains the minimax value gets it back exactly; in
      particular the full window (-inf, +inf) turns alpha-beta into plain
      minimax. */
  lemma ExactInsideWindow(r: ExtInt, m: ExtInt, a: ExtInt, b: ExtInt)
    requires WithinWindow(r, m, a, b)
    requires Le(a, m) && Le(m, b)
    ensures r == m
  {
    if Lt(r, a) {
      LeTransitive(a, m, r);
    } else if Lt(b, r) {
      LeTransitive(r, m, b);
    }
  }

  /** At the root, with `a` the best value so far and no upper bound, a
      reply beats `a` exactly when the true value does, and is then exact. */
  lemma RootReply(a: ExtInt, r: ExtInt, m: ExtInt)
    requires WithinWindow(r, m, a, PosInf)
    ensures Lt(a, r) <==> Lt(a, m)
    ensures Lt(a, r) ==> r == m
  {
    if Lt(r, a) {
      LeTransitive(m, r, a);
    }
  }

  /** One iteration of Pacman's loop.  Before it, `v` is the running
      maximum, exact (equal to the fold `p` of the children seen) unless it
      is below the original bound `a0`, in which case it bounds `p` from
      above; `r` is the child's reply within the window [max(a0, v), b] and
      `c` the child's minimax value.  After `v := max(v, r)` the same holds
      of the fold extended by `c`, and a cut on `v > b` leaves `v` below
      `c`. */
  lemma MaxStep(a0: ExtInt, b: ExtInt, v: ExtInt, p: ExtInt, c: ExtInt, r: ExtInt)
    requires Le(a0, b) && Le(v, b)
    requires WithinWindow(v, p, a0, PosInf)
    requires WithinWindow(r, c, Max(a0, v), b)
    ensures var v' := Max(v, r);
      && (Lt(b, v') ==> Le(v', c))
      && (Le(v', b) ==> WithinWindow(v', Max(p, c), a0, PosInf))
  {
    if Le(v, r) {
      if Lt(r, a0) {
        LeTransitive(p, v, r);
      } else if Le(r, b) {
        assert r == c;
        if Lt(v, a0) {
          LeTransitive(p, v, r);
        }
      }
    } else {
      assert Le(c, r);
    }
  }

  /** One iteration of a ghost's loop: the mirror image of MaxStep, with the
      window [a, min(b0, v)] and a cut on `v < a`. */
  lemma MinStep(a: ExtInt, b0: ExtInt, v: ExtInt, p: ExtInt, c: ExtInt, r: ExtInt)
    requires Le(a, b0) && Le(a, v)
    requires WithinWindow(v, p, NegInf, b0)
    requires WithinWindow(r, c, a, Min(b0, v))
    ensures var v' := Min(v, r);
      && (Lt(v', a) ==> Le(c, v'))
      && (Le(a, v') ==> WithinWindow(v', Min(p, c), NegInf, b0))
  {
    if Le(r, v) {
      if Lt(b0, r) {
        LeTransitive(r, v, p);
      } else if Le(a, r) {
        assert r == c;
        if Lt(b0, v) {
          LeTransitive(r, v, p);
        }
      }
    } else {
      assert Le(r, c);
    }
  }

  method MaxValue<S, A>(ag: Agent<S, A>, state: S, depth: nat, a: ExtInt, b: ExtInt) returns (v: ExtInt)
    requires ag.game.numAgents >= 2 && depth <= ag.depth && Le(a, b)
    ensures ag.game.Terminal(state) || depth == ag.depth ==> v == Fin(ag.evaluate(state))
    ensures WithinWindow(v, Minimax.MaxValue(ag, state, depth), a, b)
    decreases ag.depth - depth, ag.game.numAgents
  {
    if ag.game.isWin(state) || ag.game.isLose(state) || depth == ag.depth {
      return Fin(ag.evaluate(state));
    }
    ghost var m := Minimax.MaxValue(ag, state, depth);
    ghost var a0 := a;
    var a := a;
    v := NegInf;
    var possibleActions := ag.game.actions(state, 0);
    for k := 0 to |possibleActions|
      invariant Le(v, b) && a == Max(a0, v)
      invariant WithinWindow(v, Minimax.MaxPrefix(ag, state, depth, k), a0, PosInf)
    {
      var successor := ag.game.next(state, 0, possibleActions[k]);
      var value := MinValue(ag, successor, 1, depth, a, b);
      ghost var child := Minimax.MaxChild(ag, state, depth, k);
      assert Minimax.MaxPrefix(ag, state, depth, k + 1) == Max(Minimax.MaxPrefix(ag, state, depth, k), child);
      MaxStep(a0, b, v, Minimax.MaxPrefix(ag, state, depth, k), child, value);
      v := Max(v, value);
      if Lt(b, v) {
        Minimax.MaxChildBelowValue(ag, state, depth, k);
        LeTransitive(v, child, m);
        return;
      }
      a := Max(a, v);
    }
  }

  method MinValue<S, A>(ag: Agent<S, A>, state: S, agentIndex: nat, depth: nat, a: ExtInt, b: ExtInt)
    returns (v: ExtInt)
    requires ag.game.numAgents >= 2 && depth < ag.depth && 1 <= agentIndex < ag.game.numAgents && Le(a, b)
    ensures ag.game.Terminal(state) ==> v == Fin(ag.evaluate(state))
    ensures WithinWindow(v, Minimax.MinValue(ag, state, depth, agentIndex), a, b)
    decreases ag.depth - depth, ag.game.numAgents - agentIndex
  {
    if ag.game.isWin(state) || ag.game.isLose(state) {
      return Fin(ag.evaluate(state));
    }
    ghost var m := Minimax.MinValue(ag, state, depth, agentIndex);
    ghost var b0 := b;
    var b := b;
    v := PosInf;
    var possibleActions := ag.game.actions(state, agentIndex);
    for k := 0 to |possibleActions|
      invariant Le(a, v) && b == Min(b0, v)
      invariant WithinWindow(v, Minimax.MinPrefix(ag, state, depth, agentIndex, k), NegInf, b0)
    {
      var successor := ag.game.next(state, agentIndex, possibleActions[k]);
      var numberOfAgents := ag.game.numAgents;
      ghost var child := Minimax.MinChild(ag, state, depth, agentIndex, k);
      var value;
      if agentIndex == numberOfAgents - 1 {
        value := MaxValue(ag, successor, depth + 1, a, b);
        Minimax.WrapHandsOff(ag, successor, depth);
      } else {
        value := MinValue(ag, successor, agentIndex + 1, depth, a, b);
      }
      assert Minimax.MinPrefix(ag, state, depth, agentIndex, k + 1) == Min(Minimax.MinPrefix(ag, state, depth, agentIndex, k), child);
      MinStep(a, b0, v, Minimax.MinPrefix(ag, state, depth, agentIndex, k), child, value);
      v := Min(v, value);
      if Lt(v, a) {
        Minimax.MinChildAboveValue(ag, state, depth, agentIndex, k);
        LeTransitive(m, child, v);
        return;
      }
      b := Min(b, v);
    }
  }

  /** The index of the action the root loop holds after looking at
      Pacman's first `k` actions: it moves to action `k - 1` only when that
      action's value beats every earlier one (the strict test `value >
      bestValue`); None while no value exceeds -inf. */
  function FirstBest<S, A>(ag: Agent<S, A>, s: S, k: nat): Option<nat>
    requires ag.game.numAgents >= 1 && ag.depth >= 1 && k <= |ag.game.actions(s, 0)|
  {
    if k == 0 then None
    else if Lt(Minimax.MaxPrefix(ag, s, 0, k - 1), Minimax.MaxChild(ag, s, 0, k - 1)) then Some(k - 1)
    else FirstBest(ag, s, k - 1)
  }

  /** The held index is the first one whose value reaches the maximum of the
      first `k` values, and there is none exactly when that maximum is -inf. */
  lemma {:induction false} FirstBestIsFirstMaximum<S, A>(ag: Agent<S, A>, s: S, k: nat)
    requires ag.game.numAgents >= 1 && ag.depth >= 1 && k <= |ag.game.actions(s, 0)|
    ensures FirstBest(ag, s, k).None? <==> Minimax.MaxPrefix(ag, s, 0, k) == NegInf
    ensures FirstBest(ag, s, k).Some? ==>
      var i := FirstBest(ag, s, k).value;
      && i < k
      && Minimax.MaxChild(ag, s, 0, i) == Minimax.MaxPrefix(ag, s, 0, k)
      && forall j :: 0 <= j < i ==> Lt(Minimax.MaxChild(ag, s, 0, j), Minimax.MaxChild(ag, s, 0, i))
  {
    if k > 0 {
      FirstBestIsFirstMaximum(ag, s, k - 1);
      Minimax.MaxPrefixIsMaximum(ag, s, 0, k - 1);
      var prev, last := Minimax.MaxPrefix(ag, s, 0, k - 1), Minimax.MaxChild(ag, s, 0, k - 1);
      if Lt(prev, last) {
        forall j | 0 <= j < k - 1 ensures Lt(Minimax.MaxChild(ag, s, 0, j), last) {
          if !Lt(Minimax.MaxChild(ag, s, 0, j), last) {
            LeTransitive(last, Minimax.MaxChild(ag, s, 0, j), prev);
          }
        }
      }
    }
  }

  /** Pacman's choice: the first legal action, in the order the game lists
      them, whose minimax value is the greatest (a later action with an
      equal value does not replace it); None when there is no legal action
      or every action's value is -inf. */
  method GetAction<S, A>(ag: Agent<S, A>, gameState: S) returns (bestAction: Option<A>)
    requires ag.game.numAgents >= 2 && ag.depth >= 1
    ensures var scores := Minimax.RootScores(ag, gameState);
      bestAction.None? <==> forall j :: 0 <= j < |scores| ==> scores[j] == NegInf
    ensures var scores := Minimax.RootScores(ag, gameState);
      bestAction.Some? ==> exists i :: (
        && 0 <= i < |scores|
        && bestAction.value == ag.game.actions(gameState, 0)[i]
        && (forall j :: 0 <= j < |scores| ==> Le(scores[j], scores[i]))
        && (forall j :: 0 <= j < i ==> Lt(scores[j], scores[i])))
  {
    bestAction := None;
    var bestValue := NegInf;
    var a := NegInf;
    var b := PosInf;
    var possibleActions := ag.game.actions(gameState, 0);
    for k := 0 to |possibleActions|
      invariant a == bestValue == Minimax.MaxPrefix(ag, gameState, 0, k)
      invariant bestAction.None? <==> FirstBest(ag, gameState, k).None?
      invariant bestAction.Some? ==>
        FirstBest(ag, gameState, k).value < k && bestAction.value == possibleActions[FirstBest(ag, gameState, k).value]
    {
      var successor := ag.game.next(gameState, 0, possibleActions[k]);
      var value := MinValue(ag, successor, 1, 0, a, b);
      RootReply(a, value, Minimax.MaxChild(ag, gameState, 0, k));
      if Lt(bestValue, value) {
        bestValue := value;
        bestAction := Some(possibleActions[k]);
      }
      a := Max(a, bestValue);
    }
    ChoiceIsFirstMaximum(ag, gameState);
  }

  /** What the loop's final state means for the scores getAction ranks. */
  lemma ChoiceIsFirstMaximum<S, A>(ag: Agent<S, A>, s: S)
    requires ag.game.numAgents >= 1 && ag.depth >= 1
    ensures var scores := Minimax.RootScores(ag, s);
      FirstBest(ag, s, |scores|).None? <==> forall j :: 0 <= j < |scores| ==> scores[j] == NegInf
    ensures var scores := Minimax.RootScores(ag, s);
      FirstBest(ag, s, |scores|).Some? ==>
        var i := FirstBest(ag, s, |scores|).value;
        && 0 <= i < |scores|
        && (forall j :: 0 <= j < |scores| ==> Le(scores[j], scores[i]))
        && (forall j :: 0 <= j < i ==> Lt(scores[j], scores[i]))
  {
    var n := |ag.game.actions(s, 0)|;
    Minimax.ScoresAreChildValues(ag, s, n);
    Minimax.MaxPrefixIsMaximum(ag, s, 0, n);
    FirstBestIsFirstMaximum(ag, s, n);
  }
}
