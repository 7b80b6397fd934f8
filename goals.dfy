/**
 * Goal descriptions and the goal test. A goal fixes the desired illumination level
 * of both zones and leaves every other dimension of the state open, so it stands for
 * a set of states rather than a single one.
 */
module Goals {
  import opened Environment

  /** The desired light levels of zone 1 and zone 2; also the key of the goal's Q-table. */
  datatype Goal = Goal(z1: int, z2: int)

  /** The partial state [z1, z2, -, -, -, -, -] handed to the compatible-state query. */
  function GoalDescriptor(g: Goal): (d: Descriptor)
    ensures |d| == VectorLength
    ensures forall i :: 0 <= i < |d| ==> (d[i].Some? <==> i == Z1Level || i == Z2Level)
    ensures d[Z1Level] == Some(g.z1) && d[Z2Level] == Some(g.z2)
  {
    [Some(g.z1), Some(g.z2), None, None, None, None, None]
  }

  /** Both zones of the decoded state are at the goal's levels. */
  predicate AtGoal(g: Goal, v: StateVector)
    requires |v| == VectorLength
  {
    v[Z1Level] == g.z1 && v[Z2Level] == g.z2
  }

  /**
   * Goal test as the learner performs it: membership of the state index in the lab's
   * compatible states for the goal's descriptor. Given a correct compatible-state
   * query, this is exactly "both decoded levels equal the goal's levels".
   */
  function IsGoalState(dyn: Dynamics, state: nat, g: Goal): (b: bool)
    requires dyn.Valid()
    ensures b <==> state < dyn.stateCount && AtGoal(g, dyn.vectors[state])
  {
    var compatible := dyn.CompatibleStates(GoalDescriptor(g));
    if state < dyn.stateCount then
      GoalMatchesDecoding(dyn.vectors[state], g);
      state in compatible
    else
      state in compatible
  }

  /** A full state vector matches the goal's descriptor exactly when it is at the goal. */
  lemma GoalMatchesDecoding(v: StateVector, g: Goal)
    requires |v| == VectorLength
    ensures Matches(v, GoalDescriptor(g)) <==> AtGoal(g, v)
  {
    var d := GoalDescriptor(g);
    if AtGoal(g, v) {
      forall i | 0 <= i < |d| && d[i].Some?
        ensures v[i] == d[i].value
      {
        assert i == Z1Level || i == Z2Level;
      }
    }
  }
}
