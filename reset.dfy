/**
 * The episode reset: five rounds, each reading the current state and, when it has
 * applicable actions, performing one of them chosen at random. There is no goal
 * check: the moves are made whatever state the lab starts in.
 */
module Reset {
  import opened Environment

  const ResetSteps: nat := 5

  /** The move round i of the reset of `episode` makes from state s: none at a dead end. */
  function RoundMoves(dyn: Dynamics, s: nat, draws: Draws, episode: nat, i: nat): (r: seq<Move>)
    requires dyn.Valid() && s < dyn.stateCount
    ensures |r| <= 1 && forall k :: 0 <= k < |r| ==> dyn.Permits(r[k]) && r[k].from == s
  {
    var actions := dyn.Applicable(s);
    if actions == [] then [] else [Move(s, actions[draws.reset(episode, i) % |actions|])]
  }

  /** The state round i of the reset leaves the lab in, starting from s. */
  function RoundEnd(dyn: Dynamics, s: nat, draws: Draws, episode: nat, i: nat): (t: nat)
    requires dyn.Valid() && s < dyn.stateCount
    ensures t < dyn.stateCount
  {
    var m := RoundMoves(dyn, s, draws, episode, i);
    if m == [] then s else dyn.After(m[0])
  }

  /**
   * The moves rounds i, i+1, ..., ResetSteps - 1 of the reset make when round i
   * starts in state s.
   */
  function ResetMoves(dyn: Dynamics, s: nat, draws: Draws, episode: nat, i: nat): seq<Move>
    requires dyn.Valid() && s < dyn.stateCount && i <= ResetSteps
    decreases ResetSteps - i
  {
    if i == ResetSteps then []
    else RoundMoves(dyn, s, draws, episode, i) + ResetMoves(dyn, RoundEnd(dyn, s, draws, episode, i), draws, episode, i + 1)
  }

  /** The state the lab is in after rounds i, ..., ResetSteps - 1, when round i starts in s. */
  function ResetEnd(dyn: Dynamics, s: nat, draws: Draws, episode: nat, i: nat): (t: nat)
    requires dyn.Valid() && s < dyn.stateCount && i <= ResetSteps
    ensures t < dyn.stateCount
    decreases ResetSteps - i
  {
    if i == ResetSteps then s else ResetEnd(dyn, RoundEnd(dyn, s, draws, episode, i), draws, episode, i + 1)
  }

  /**
   * A plan `planned` that is `done` followed by the reset from round i is also `done`,
   * then round i, then the reset from round i + 1.
   */
  lemma ResetRound(dyn: Dynamics, s: nat, draws: Draws, episode: nat, i: nat, done: seq<Move>, planned: seq<Move>)
    requires dyn.Valid() && s < dyn.stateCount && i < ResetSteps
    requires done + ResetMoves(dyn, s, draws, episode, i) == planned
    ensures (done + RoundMoves(dyn, s, draws, episode, i)) + ResetMoves(dyn, RoundEnd(dyn, s, draws, episode, i), draws, episode, i + 1)
         == planned
  {
    ResetUnfold(dyn, s, draws, episode, i);
  }

  /** The reset makes at most one move per round. */
  lemma {:induction false} ResetLength(dyn: Dynamics, s: nat, draws: Draws, episode: nat, i: nat)
    requires dyn.Valid() && s < dyn.stateCount && i <= ResetSteps
    ensures |ResetMoves(dyn, s, draws, episode, i)| <= ResetSteps - i
    decreases ResetSteps - i
  {
    if i < ResetSteps {
      ResetLength(dyn, RoundEnd(dyn, s, draws, episode, i), draws, episode, i + 1);
    }
  }

  /**
   * The reset's moves form a run of the lab: each is applicable in the state it is
   * made in, and that state is the one the previous move led to.
   */
  lemma {:induction false} ResetIsRun(dyn: Dynamics, s: nat, draws: Draws, episode: nat, i: nat)
    requires dyn.Valid() && s < dyn.stateCount && i <= ResetSteps
    ensures dyn.IsRun(s, ResetMoves(dyn, s, draws, episode, i))
    ensures dyn.End(s, ResetMoves(dyn, s, draws, episode, i)) == ResetEnd(dyn, s, draws, episode, i)
    decreases ResetSteps - i
  {
    if i < ResetSteps {
      var t := RoundEnd(dyn, s, draws, episode, i);
      var rest := ResetMoves(dyn, t, draws, episode, i + 1);
      ResetIsRun(dyn, t, draws, episode, i + 1);
      RoundThenRest(dyn, s, draws, episode, i, rest);
      ResetUnfold(dyn, s, draws, episode, i);
    }
  }

  /** The reset from round i is round i followed by the reset from round i + 1. */
  lemma ResetUnfold(dyn: Dynamics, s: nat, draws: Draws, episode: nat, i: nat)
    requires dyn.Valid() && s < dyn.stateCount && i < ResetSteps
    ensures ResetMoves(dyn, s, draws, episode, i)
         == RoundMoves(dyn, s, draws, episode, i) + ResetMoves(dyn, RoundEnd(dyn, s, draws, episode, i), draws, episode, i + 1)
    ensures ResetEnd(dyn, s, draws, episode, i) == ResetEnd(dyn, RoundEnd(dyn, s, draws, episode, i), draws, episode, i + 1)
  {
  }

  /** Round i from s, followed by a run from the state it ends in, is a run from s. */
  lemma RoundThenRest(dyn: Dynamics, s: nat, draws: Draws, episode: nat, i: nat, rest: seq<Move>)
    requires dyn.Valid() && s < dyn.stateCount && i < ResetSteps
    requires dyn.IsRun(RoundEnd(dyn, s, draws, episode, i), rest)
    ensures dyn.IsRun(s, RoundMoves(dyn, s, draws, episode, i) + rest)
    ensures dyn.End(s, RoundMoves(dyn, s, draws, episode, i) + rest) == dyn.End(RoundEnd(dyn, s, draws, episode, i), rest)
  {
    var m := RoundMoves(dyn, s, draws, episode, i);
    if m != [] {
      assert m == [m[0]];
      RunCons(dyn, m[0], rest);
    } else {
      assert m + rest == rest;
    }
  }

  /**
   * When no state is a dead end the reset makes a move in every round, from any start
   * state, goal state or not.
   */
  lemma {:induction false} ResetAlwaysMoves(dyn: Dynamics, s: nat, draws: Draws, episode: nat, i: nat)
    requires dyn.NoDeadEnds() && s < dyn.stateCount && i <= ResetSteps
    ensures |ResetMoves(dyn, s, draws, episode, i)| == ResetSteps - i
    decreases ResetSteps - i
  {
    if i < ResetSteps {
      ResetAlwaysMoves(dyn, RoundEnd(dyn, s, draws, episode, i), draws, episode, i + 1);
    }
  }

  /** From a dead end the reset makes no move at all and the lab stays where it is. */
  lemma {:induction false} ResetStuckAtDeadEnd(dyn: Dynamics, s: nat, draws: Draws, episode: nat, i: nat)
    requires dyn.Valid() && s < dyn.stateCount && i <= ResetSteps && dyn.Applicable(s) == []
    ensures ResetMoves(dyn, s, draws, episode, i) == [] && ResetEnd(dyn, s, draws, episode, i) == s
    decreases ResetSteps - i
  {
    if i < ResetSteps {
      assert RoundEnd(dyn, s, draws, episode, i) == s;
      ResetStuckAtDeadEnd(dyn, s, draws, episode, i + 1);
    }
  }
}
