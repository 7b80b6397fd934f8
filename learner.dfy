/**
 * The Q-learning engine: one Q-table per goal, trained against the live lab by
 * episodes of at most MaxSteps steps, each episode preceded by a random reset.
 */
module Learner {
  import opened Environment
  import opened Goals
  import opened Rewards
  import opened QTables
  import opened Selection
  import opened Reset
  import opened Training

  /** Hyperparameters under which the Q-values provably stay bounded. */
  ghost predicate Contracting(alpha: real, gamma: real) {
    0.0 <= alpha <= 1.0 && 0.0 <= gamma < 1.0
  }

  /** Bounds on every Q-value for a discount factor below 1. */
  function Floor(gamma: real): real
    requires 0.0 <= gamma < 1.0
  {
    RewardMin / (1.0 - gamma)
  }

  function Ceiling(gamma: real): real
    requires 0.0 <= gamma < 1.0
  {
    RewardMax / (1.0 - gamma)
  }

  /** Zero, the value of a fresh entry and of maxQNext at a dead end, lies within the bounds. */
  lemma ZeroWithinBounds(gamma: real)
    requires 0.0 <= gamma < 1.0
    ensures Floor(gamma) <= 0.0 <= Ceiling(gamma)
  {
    assert Floor(gamma) * (1.0 - gamma) == RewardMin;
    assert Ceiling(gamma) * (1.0 - gamma) == RewardMax;
  }

  class QLearner {
    var prevZ1Level: int
    var prevZ2Level: int
    const lab: Lab
    const stateCount: nat
    const actionCount: nat
    var qTables: map<Goal, array2<real>>

    ghost predicate Valid()
      reads this, lab
    {
      && lab.Valid()
      && stateCount == lab.dyn.stateCount
      && actionCount == lab.dyn.actionCount
      && (forall g :: g in qTables ==>
            qTables[g].Length0 == stateCount && qTables[g].Length1 == actionCount)
      && (lab.dyn.LevelsInRange() ==>
            0 <= prevZ1Level <= MaxLevel && 0 <= prevZ2Level <= MaxLevel)
    }

    /** The learner's and the lab's state as training sees it, with q as the table. */
    ghost function Observed(q: array2<real>): Snapshot
      reads this`prevZ1Level, this`prevZ2Level, lab`current, lab`history, q
    {
      Snapshot(TableOf(q), lab.current, lab.history, prevZ1Level, prevZ2Level)
    }

    /** Connects to the lab and reads the sizes of its state and action spaces. */
    constructor (lab: Lab)
      requires lab.Valid()
      ensures Valid() && this.lab == lab
      ensures stateCount == lab.dyn.stateCount && actionCount == lab.dyn.actionCount
      ensures qTables == map[] && prevZ1Level == 0 && prevZ2Level == 0
    {
      prevZ1Level, prevZ2Level := 0, 0;
      this.lab := lab;
      stateCount := lab.dyn.stateCount;
      actionCount := lab.dyn.actionCount;
      qTables := map[];
    }

    /** A fresh stateCount x actionCount table of zeros. */
    method InitializeQTable() returns (q: array2<real>)
      ensures fresh(q) && q.Length0 == stateCount && q.Length1 == actionCount
      ensures forall i, j :: 0 <= i < stateCount && 0 <= j < actionCount ==> q[i, j] == 0.0
      ensures TableOf(q) == Zeros(stateCount, actionCount)
    {
      q := new real[stateCount, actionCount];
      for i := 0 to stateCount
        invariant forall i', j :: 0 <= i' < i && 0 <= j < actionCount ==> q[i', j] == 0.0
      {
        for j := 0 to actionCount
          invariant forall i', j' :: 0 <= i' < i && 0 <= j' < actionCount ==> q[i', j'] == 0.0
          invariant forall j' :: 0 <= j' < j ==> q[i, j'] == 0.0
        {
          q[i, j] := 0.0;
        }
      }
      SameEntries(TableOf(q), Zeros(stateCount, actionCount), stateCount, actionCount);
    }

    /**
     * The reward of the step that led to the lab's current state. Remembers the
     * current levels as the previous ones for the next call.
     */
    method CalculateReward(goal: Goal) returns (reward: real)
      requires Valid()
      modifies this`prevZ1Level, this`prevZ2Level
      ensures Valid()
      ensures reward == Reward(goal, lab.CurrentVector(), old(prevZ1Level), old(prevZ2Level))
      ensures prevZ1Level == lab.CurrentVector()[Z1Level] && prevZ2Level == lab.CurrentVector()[Z2Level]
    {
      var state := lab.ReadCurrentState();
      var currentState := lab.dyn.vectors[state];
      var prevZ1, prevZ2 := prevZ1Level, prevZ2Level;
      prevZ1Level, prevZ2Level := currentState[Z1Level], currentState[Z2Level];
      reward := Reward(goal, currentState, prevZ1, prevZ2);
    }

    /**
     * Moves the lab by up to ResetSteps random applicable actions: exactly the moves the
     * reset makes from the state the lab is in (a run of the lab, by ResetIsRun).
     */
    method RandomizeState(draws: Draws, episode: nat)
      requires Valid()
      modifies lab
      ensures lab.Valid()
      ensures lab.history == old(lab.history) + ResetMoves(lab.dyn, old(lab.current), draws, episode, 0)
      ensures lab.current == ResetEnd(lab.dyn, old(lab.current), draws, episode, 0)
    {
      var dyn := lab.dyn;
      ghost var planned := lab.history + ResetMoves(dyn, lab.current, draws, episode, 0);
      ghost var target := ResetEnd(dyn, lab.current, draws, episode, 0);
      for i := 0 to ResetSteps
        invariant lab.Valid()
        invariant lab.history + ResetMoves(dyn, lab.current, draws, episode, i) == planned
        invariant ResetEnd(dyn, lab.current, draws, episode, i) == target
      {
        ResetRound(dyn, lab.current, draws, episode, i, lab.history, planned);
        ResetUnfold(dyn, lab.current, draws, episode, i);
        RandomMove(draws, episode, i);
      }
      assert lab.history + [] == lab.history;
    }

    /** Round i of the reset: one random applicable action, when there is one. */
    method RandomMove(draws: Draws, episode: nat, i: nat)
      requires lab.Valid()
      modifies lab
      ensures lab.Valid()
      ensures lab.history == old(lab.history) + RoundMoves(lab.dyn, old(lab.current), draws, episode, i)
      ensures lab.current == RoundEnd(lab.dyn, old(lab.current), draws, episode, i)
    {
      var currentState := lab.ReadCurrentState();
      var applicableActions := lab.dyn.Applicable(currentState);
      if applicableActions != [] {
        var randomActionIndex := draws.reset(episode, i) % |applicableActions|;
        var randomAction := applicableActions[randomActionIndex];
        lab.PerformAction(randomAction);
      } else {
        assert lab.history + [] == lab.history;
      }
    }

    /**
     * Step `step` of `episode` from the lab's current state `state`, whose applicable
     * actions are `actions`: chooses an action epsilon-greedily with the step's draws,
     * performs it, computes the reward of the step and the best Q-value of the new
     * state, and updates the entry of the move; returns the reward and that Q-value
     * with the action and the new state.
     */
    method TakeStep(q: array2<real>, goal: Goal, alpha: real, gamma: real, epsilon: real,
                    draws: Draws, episode: nat, step: nat, state: nat, actions: seq<nat>)
      returns (action: nat, newState: nat, reward: real, maxQNext: real)
      requires Valid() && q.Length0 == stateCount && q.Length1 == actionCount
      requires state == lab.current && actions == lab.dyn.Applicable(state) && actions != []
      requires 0.0 <= draws.explore(episode, step) < 1.0
      modifies this`prevZ1Level, this`prevZ2Level, lab, q
      ensures Valid()
      ensures Observed(q) == Step(Setting(lab.dyn, goal, alpha, gamma, epsilon, draws), episode, step, old(Observed(q)))
      ensures action == Choose(old(TableOf(q)), state, actions, epsilon, draws.explore(episode, step),
                               draws.pick(episode, step) % |actions|)
      ensures lab.dyn.Permits(Move(state, action)) && newState == lab.current == lab.dyn.After(Move(state, action))
      ensures lab.history == old(lab.history) + [Move(state, action)]
      ensures reward == Reward(goal, lab.dyn.vectors[newState], old(prevZ1Level), old(prevZ2Level))
      ensures prevZ1Level == lab.dyn.vectors[newState][Z1Level] && prevZ2Level == lab.dyn.vectors[newState][Z2Level]
      ensures maxQNext == MaxQ(old(TableOf(q)), newState, lab.dyn.Applicable(newState))
      ensures q[state, action] == QUpdate(old(q[state, action]), reward, maxQNext, alpha, gamma)
      ensures forall i, j :: 0 <= i < q.Length0 && 0 <= j < q.Length1 && (i != state || j != action) ==> q[i, j] == old(q[i, j])
      ensures Contracting(alpha, gamma) && lab.dyn.LevelsInRange() && old(Within(q, Floor(gamma), Ceiling(gamma)))
              ==> Within(q, Floor(gamma), Ceiling(gamma))
    {
      ghost var bounded := Contracting(alpha, gamma) && lab.dyn.LevelsInRange() && Within(q, Floor(gamma), Ceiling(gamma));
      var pick := draws.pick(episode, step) % |actions|;
      action := ChooseAction(q, state, actions, epsilon, draws.explore(episode, step), pick);
      lab.PerformAction(action);
      newState := lab.ReadCurrentState();
      ghost var prev1, prev2 := prevZ1Level, prevZ2Level;
      reward := CalculateReward(goal);
      maxQNext := GetMaxQ(q, newState, lab.dyn.Applicable(newState));
      ghost var before := q[state, action];
      UpdateQValue(q, state, action, reward, maxQNext, alpha, gamma);
      if bounded {
        MaxQIsMaximum(old(TableOf(q)), newState, lab.dyn.Applicable(newState));
        UpdateKeepsBounds(q, state, action, before, reward, maxQNext, alpha, gamma,
                          lab.dyn, newState, goal, prev1, prev2);
      }
    }

    /**
     * Step `step` of an episode that can take it, from the lab's current state `state`
     * with applicable actions `actions`; `trace` holds the snapshots of the episode so
     * far, and the snapshot after the step is appended to it.
     */
    method AdvanceEpisode(q: array2<real>, goal: Goal, alpha: real, gamma: real, epsilon: real,
                          draws: Draws, episode: nat, step: nat, state: nat, actions: seq<nat>,
                          ghost trace: seq<Snapshot>)
      returns (action: nat, newState: nat, ghost trace': seq<Snapshot>)
      requires Valid() && q.Length0 == stateCount && q.Length1 == actionCount
      requires state == lab.current && actions == lab.dyn.Applicable(state) && actions != []
      requires step < MaxSteps && DrawsInRange(draws)
      requires Stepped(Setting(lab.dyn, goal, alpha, gamma, epsilon, draws), episode, trace)
      requires |trace| == step + 1 && trace[step] == Observed(q)
      requires step > 0 ==> !AtGoal(goal, lab.dyn.vectors[state])
      modifies this`prevZ1Level, this`prevZ2Level, lab, q
      ensures Valid()
      ensures Stepped(Setting(lab.dyn, goal, alpha, gamma, epsilon, draws), episode, trace')
      ensures trace' == trace + [Observed(q)]
      ensures newState == lab.current && lab.history == old(lab.history) + [Move(state, action)]
      ensures Contracting(alpha, gamma) && lab.dyn.LevelsInRange() && old(Within(q, Floor(gamma), Ceiling(gamma)))
              ==> Within(q, Floor(gamma), Ceiling(gamma))
    {
      var reward, maxQNext;
      action, newState, reward, maxQNext := TakeStep(q, goal, alpha, gamma, epsilon, draws, episode, step, state, actions);
      SteppedSnoc(Setting(lab.dyn, goal, alpha, gamma, epsilon, draws), episode, trace, Observed(q));
      trace' := trace + [Observed(q)];
    }

    /**
     * The step loop of an episode on table q: steps from the lab's current state until
     * the state has no applicable action, the step enters a goal state, or MaxSteps
     * steps were taken. Returns, as ghost values, the moves made (one table update
     * each), why the loop ended, and the snapshots it went through.
     */
    method RunSteps(q: array2<real>, goal: Goal, alpha: real, gamma: real, epsilon: real,
                    draws: Draws, episode: nat)
      returns (ghost moves: seq<Move>, ghost end: EpisodeEnd, ghost trace: seq<Snapshot>)
      requires Valid() && q.Length0 == stateCount && q.Length1 == actionCount
      requires DrawsInRange(draws)
      modifies this`prevZ1Level, this`prevZ2Level, lab, q
      ensures Valid()
      ensures Stepped(Setting(lab.dyn, goal, alpha, gamma, epsilon, draws), episode, trace)
      ensures |trace| == |moves| + 1 && trace[0] == old(Observed(q)) && trace[|moves|] == Observed(q)
      ensures lab.history == old(lab.history) + moves
      ensures moves != [] ==> end == ReachedGoal || !AtGoal(goal, lab.dyn.vectors[lab.current])
      ensures end == ReachedGoal ==> moves != [] && AtGoal(goal, lab.dyn.vectors[lab.current])
      ensures end == DeadEnd ==> |moves| < MaxSteps && lab.dyn.Applicable(lab.current) == []
      ensures end == StepCap ==> |moves| == MaxSteps
      ensures lab.dyn.Applicable(old(lab.current)) == [] ==> moves == [] && end == DeadEnd
      ensures Contracting(alpha, gamma) && lab.dyn.LevelsInRange() && old(Within(q, Floor(gamma), Ceiling(gamma)))
              ==> Within(q, Floor(gamma), Ceiling(gamma))
    {
      ghost var start := lab.current;
      ghost var setting := Setting(lab.dyn, goal, alpha, gamma, epsilon, draws);
      trace := [Observed(q)];
      ghost var bounded := Contracting(alpha, gamma) && lab.dyn.LevelsInRange() && Within(q, Floor(gamma), Ceiling(gamma));
      moves, end := [], StepCap;
      var currentState := lab.ReadCurrentState();
      var step := 0;
      while step < MaxSteps
        invariant Valid()
        invariant step == |moves| <= MaxSteps && currentState == lab.current
        invariant Stepped(setting, episode, trace) && |trace| == step + 1
        invariant trace[0] == old(Observed(q)) && trace[step] == Observed(q)
        invariant lab.history == old(lab.history) + moves
        invariant moves != [] ==> !AtGoal(goal, lab.dyn.vectors[lab.current])
        invariant end == StepCap
        invariant lab.dyn.Applicable(start) == [] ==> moves == []
        invariant bounded ==> Within(q, Floor(gamma), Ceiling(gamma))
      {
        var applicableActions := lab.dyn.Applicable(currentState);
        if applicableActions == [] {
          end := DeadEnd;
          break;
        }
        var action, newState;
        action, newState, trace := AdvanceEpisode(q, goal, alpha, gamma, epsilon, draws, episode, step,
                                                  currentState, applicableActions, trace);
        AppendSnoc(old(lab.history), moves, Move(currentState, action));
        moves := moves + [Move(currentState, action)];
        currentState := newState;
        step := step + 1;
        if IsGoalState(lab.dyn, newState, goal) {
          end := ReachedGoal;
          break;
        }
      }
    }

    /**
     * One episode of training on table q, after the reset: the step loop, whose result
     * is the episode of the training specification from the learner's state before it.
     */
    method RunEpisode(q: array2<real>, goal: Goal, alpha: real, gamma: real, epsilon: real,
                      draws: Draws, episode: nat)
      returns (ghost moves: seq<Move>, ghost end: EpisodeEnd)
      requires Valid() && q.Length0 == stateCount && q.Length1 == actionCount
      requires DrawsInRange(draws)
      modifies this`prevZ1Level, this`prevZ2Level, lab, q
      ensures Valid()
      ensures Observed(q) == Episode(Setting(lab.dyn, goal, alpha, gamma, epsilon, draws), episode, 0, old(Observed(q)))
      ensures |moves| <= MaxSteps
      ensures lab.dyn.IsRun(old(lab.current), moves) && lab.current == lab.dyn.End(old(lab.current), moves)
      ensures lab.history == old(lab.history) + moves
      // no update before the last one entered a goal state
      ensures forall k :: 0 <= k < |moves| - 1 ==> !AtGoal(goal, lab.dyn.vectors[lab.dyn.After(moves[k])])
      ensures end == ReachedGoal <==> moves != [] && AtGoal(goal, lab.dyn.vectors[lab.current])
      ensures end == DeadEnd ==> |moves| < MaxSteps && lab.dyn.Applicable(lab.current) == []
      ensures end == StepCap ==> |moves| == MaxSteps
      ensures lab.dyn.Applicable(old(lab.current)) == [] ==> moves == [] && end == DeadEnd
      // only the entries of the moves made were updated
      ensures forall i, j :: 0 <= i < q.Length0 && 0 <= j < q.Length1 && Move(i, j) !in moves ==> q[i, j] == old(q[i, j])
      ensures Contracting(alpha, gamma) && lab.dyn.LevelsInRange() && old(Within(q, Floor(gamma), Ceiling(gamma)))
              ==> Within(q, Floor(gamma), Ceiling(gamma))
    {
      ghost var setting := Setting(lab.dyn, goal, alpha, gamma, epsilon, draws);
      ghost var initial := Observed(q);
      ghost var trace;
      moves, end, trace := RunSteps(q, goal, alpha, gamma, epsilon, draws, episode);
      SteppedEpisode(setting, episode, trace, 0);
      EpisodeOutcome(setting, episode, initial, moves);
      forall i, j | 0 <= i < q.Length0 && 0 <= j < q.Length1 && Move(i, j) !in moves
        ensures q[i, j] == old(q[i, j])
      {
        assert q[i, j] == Observed(q).table[i][j];
      }
    }

    /** Episode `episode` of training on table q: the random reset, then the episode itself. */
    method TrainEpisode(q: array2<real>, goal: Goal, alpha: real, gamma: real, epsilon: real,
                        draws: Draws, episode: nat)
      requires Valid() && q.Length0 == stateCount && q.Length1 == actionCount
      requires DrawsInRange(draws)
      modifies this`prevZ1Level, this`prevZ2Level, lab, q
      ensures Valid()
      ensures Observed(q)
           == Episode(Setting(lab.dyn, goal, alpha, gamma, epsilon, draws), episode, 0,
                      Randomized(Setting(lab.dyn, goal, alpha, gamma, epsilon, draws), episode, old(Observed(q))))
      ensures |lab.history| <= |old(lab.history)| + ResetSteps + MaxSteps
      ensures Contracting(alpha, gamma) && lab.dyn.LevelsInRange() && old(Within(q, Floor(gamma), Ceiling(gamma)))
              ==> Within(q, Floor(gamma), Ceiling(gamma))
    {
      ghost var setting := Setting(lab.dyn, goal, alpha, gamma, epsilon, draws);
      ghost var before := Observed(q);
      ghost var s0 := lab.current;
      RandomizeState(draws, episode);
      assert Observed(q) == Randomized(setting, episode, before);
      ResetLength(lab.dyn, s0, draws, episode, 0);
      ghost var moves, end := RunEpisode(q, goal, alpha, gamma, epsilon, draws, episode);
    }

    /** Trains table q over episodes 0, 1, ..., episodes - 1, each a reset and an episode. */
    method TrainEpisodes(q: array2<real>, goal: Goal, episodes: int, alpha: real, gamma: real, epsilon: real,
                         draws: Draws)
      requires Valid() && q.Length0 == stateCount && q.Length1 == actionCount
      requires DrawsInRange(draws)
      modifies this`prevZ1Level, this`prevZ2Level, lab, q
      ensures Valid()
      ensures Observed(q) == Train(Setting(lab.dyn, goal, alpha, gamma, epsilon, draws), episodes, 0, old(Observed(q)))
      ensures episodes <= 0 ==> TableOf(q) == old(TableOf(q))
      ensures |lab.history| <= |old(lab.history)| + (if episodes > 0 then episodes else 0) * (ResetSteps + MaxSteps)
      ensures Contracting(alpha, gamma) && lab.dyn.LevelsInRange() && old(Within(q, Floor(gamma), Ceiling(gamma)))
              ==> Within(q, Floor(gamma), Ceiling(gamma))
    {
      ghost var setting := Setting(lab.dyn, goal, alpha, gamma, epsilon, draws);
      ghost var trained := Train(setting, episodes, 0, Observed(q));
      ghost var bounded := Contracting(alpha, gamma) && lab.dyn.LevelsInRange() && Within(q, Floor(gamma), Ceiling(gamma));
      var episode := 0;
      while episode < episodes
        invariant Valid()
        invariant 0 <= episode <= (if episodes > 0 then episodes else 0)
        invariant Train(setting, episodes, episode, Observed(q)) == trained
        invariant |lab.history| <= |old(lab.history)| + episode * (ResetSteps + MaxSteps)
        invariant bounded ==> Within(q, Floor(gamma), Ceiling(gamma))
      {
        TrainEpisode(q, goal, alpha, gamma, epsilon, draws, episode);
        assert (episode + 1) * (ResetSteps + MaxSteps) == episode * (ResetSteps + MaxSteps) + ResetSteps + MaxSteps;
        episode := episode + 1;
      }
    }

    /**
     * Creates a table of zeros and trains it over `episodes` episodes, each a random
     * reset followed by an episode of at most MaxSteps steps.
     */
    method TrainTable(goal: Goal, episodes: int, alpha: real, gamma: real, epsilon: real, draws: Draws)
      returns (q: array2<real>)
      requires Valid() && DrawsInRange(draws)
      modifies this`prevZ1Level, this`prevZ2Level, lab
      ensures Valid() && fresh(q) && q.Length0 == stateCount && q.Length1 == actionCount
      ensures Observed(q)
           == Train(Setting(lab.dyn, goal, alpha, gamma, epsilon, draws), episodes, 0,
                    Snapshot(Zeros(stateCount, actionCount), old(lab.current), old(lab.history),
                             old(prevZ1Level), old(prevZ2Level)))
      ensures episodes <= 0 ==> forall i, j :: 0 <= i < stateCount && 0 <= j < actionCount ==> q[i, j] == 0.0
      ensures |lab.history| <= |old(lab.history)| + (if episodes > 0 then episodes else 0) * (ResetSteps + MaxSteps)
      ensures Contracting(alpha, gamma) && lab.dyn.LevelsInRange() ==> Within(q, Floor(gamma), Ceiling(gamma))
    {
      q := InitializeQTable();
      ghost var bounded := Contracting(alpha, gamma) && lab.dyn.LevelsInRange();
      if bounded {
        ZeroWithinBounds(gamma);
        assert Within(q, Floor(gamma), Ceiling(gamma));
      }
      ghost var zeros := TableOf(q);
      assert Observed(q)
          == Snapshot(Zeros(stateCount, actionCount), old(lab.current), old(lab.history), old(prevZ1Level), old(prevZ2Level));
      TrainEpisodes(q, goal, episodes, alpha, gamma, epsilon, draws);
      if episodes <= 0 {
        forall i, j | 0 <= i < stateCount && 0 <= j < actionCount ensures q[i, j] == 0.0 {
          assert q[i, j] == TableOf(q)[i][j] == zeros[i][j];
        }
      }
    }

    /**
     * Trains a fresh table for `goal` over `episodes` episodes and stores it under the
     * goal, replacing any earlier table for that goal. `goalReward` is accepted and
     * ignored: the goal bonus is the fixed GoalBonus.
     */
    method CalculateQ(goal: Goal, episodes: int, alpha: real, gamma: real, epsilon: real,
                      goalReward: int, draws: Draws)
      requires Valid() && DrawsInRange(draws)
      modifies this, lab
      ensures Valid()
      ensures goal in qTables && fresh(qTables[goal])
      ensures qTables == old(qTables)[goal := qTables[goal]]
      ensures Observed(qTables[goal])
           == Train(Setting(lab.dyn, goal, alpha, gamma, epsilon, draws), episodes, 0,
                    Snapshot(Zeros(stateCount, actionCount), old(lab.current), old(lab.history),
                             old(prevZ1Level), old(prevZ2Level)))
      ensures episodes <= 0 ==>
                forall i, j :: 0 <= i < stateCount && 0 <= j < actionCount ==> qTables[goal][i, j] == 0.0
      ensures |lab.history| <= |old(lab.history)| + (if episodes > 0 then episodes else 0) * (ResetSteps + MaxSteps)
      ensures Contracting(alpha, gamma) && lab.dyn.LevelsInRange()
              ==> Within(qTables[goal], Floor(gamma), Ceiling(gamma))
    {
      var qTable := TrainTable(goal, episodes, alpha, gamma, epsilon, draws);
      var goalKey := goal;
      qTables := qTables[goalKey := qTable];
    }
  }

  /**
   * One update keeps the whole table within the bounds: the reward lies in
   * [RewardMin, RewardMax], maxQNext is a table entry or 0, and the update maps the
   * bounds into themselves.
   */
  lemma UpdateKeepsBounds(q: array2<real>, s: nat, a: nat, before: real, reward: real, maxQNext: real,
                          alpha: real, gamma: real, dyn: Dynamics, newState: nat, goal: Goal, prev1: int, prev2: int)
    requires Contracting(alpha, gamma) && dyn.LevelsInRange()
    requires s < q.Length0 && a < q.Length1 && newState < dyn.stateCount
    requires 0 <= prev1 <= MaxLevel && 0 <= prev2 <= MaxLevel
    requires reward == Reward(goal, dyn.vectors[newState], prev1, prev2)
    requires Floor(gamma) <= before <= Ceiling(gamma)
    requires (maxQNext == 0.0) || (Floor(gamma) <= maxQNext <= Ceiling(gamma))
    requires q[s, a] == QUpdate(before, reward, maxQNext, alpha, gamma)
    requires forall i, j :: 0 <= i < q.Length0 && 0 <= j < q.Length1 && (i != s || j != a) ==>
               Floor(gamma) <= q[i, j] <= Ceiling(gamma)
    ensures Within(q, Floor(gamma), Ceiling(gamma))
  {
    RewardRange(goal, dyn.vectors[newState], prev1, prev2);
    ZeroWithinBounds(gamma);
    UpdateStaysWithin(before, reward, maxQNext, alpha, gamma, RewardMin, RewardMax);
  }
}
