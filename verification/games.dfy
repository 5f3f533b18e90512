/** The state contract the search consumes and the search agent's settings.

    A game is given by its operations on states: the two terminal tests, the
    legal actions of an agent, the successor after an agent acts, the score,
    and the positions the example evaluation function looks at.  The engines
    never look inside a state. */
module Games {

  datatype Pos = Pos(x: int, y: int)

  datatype Game<!S, !A> = Game(
    numAgents: nat,            // agent 0 is Pacman, 1 .. numAgents - 1 the ghosts
    isWin: S -> bool,
    isLose: S -> bool,
    actions: (S, nat) -> seq<A>,   // getPossibleActions(agentIndex), in order
    next: (S, nat, A) -> S,        // generateNextState(agentIndex, action)
    score: S -> int,
    pacmanPosition: S -> Pos,
    ghostPosition: (S, nat) -> Pos)
  {
    predicate Terminal(s: S)
    {
      isWin(s) || isLose(s)
    }

    /** The successor reached when agent `i` plays its `k`-th legal action. */
    function Successor(s: S, i: nat, k: nat): S
      requires k < |actions(s, i)|
    {
      next(s, i, actions(s, i)[k])
    }
  }

  /** The fields every multi-agent search agent holds: the game it plays
      (reached in the source through the state objects), the number of
      rounds to search, and the evaluation applied at the cut-off. */
  datatype Agent<!S, !A> = Agent(game: Game<S, A>, depth: nat, evaluate: S -> int)
}
