/**
 * Training as a function of its inputs. Given the lab's dynamics, the goal, the
 * hyperparameters and the random draws, everything a training run changes is
 * determined: the Q-table, the lab's state and the actions performed on it, and the
 * previous zone levels the reward compares against. The methods of the learner are
 * proved to compute exactly these values.
 */
module Training {
  import opened Environment
  import opened Goals
  import opened Rewards
  import opened QTables
  import opened Selection
  import opened Reset

  /** Step cap of one episode. */
  const MaxSteps: nat := 100

  /** Why an episode ended. */
  datatype EpisodeEnd = DeadEnd | ReachedGoal | StepCap

  /** The fixed inputs of a training run. */
  datatype Setting = Setting(dyn: Dynamics, goal: Goal, alpha: real, gamma: real, epsilon: real, draws: Draws)

  /**
   * What training changes: the table being trained, the lab's current state and the
   * actions performed on it, and the zone levels of the last reward computation.
   */
  datatype Snapshot = Snapshot(table: Table, state: nat, history: seq<Move>, prevZ1: int, prevZ2: int)

  /** The snapshot is one of the lab described by the setting, with a table of its size. */
  ghost predicate Fits(st: Setting, c: Snapshot) {
    && st.dyn.Valid()
    && Shaped(c.table, st.dyn.stateCount, st.dyn.actionCount)
    && c.state < st.dyn.stateCount
  }

  /** Every uniform draw lies in [0, 1). */
  ghost predicate DrawsInRange(draws: Draws) {
    forall e, k :: 0.0 <= draws.explore(e, k) < 1.0
  }

  /** The actions applicable in the snapshot's state are columns of its table. */
  lemma ApplicableFits(st: Setting, c: Snapshot, s: nat)
    requires Fits(st, c) && s < st.dyn.stateCount
    ensures RowFits(c.table, s, st.dyn.Applicable(s))
  {
  }

  /** The action step k of `episode` chooses in snapshot c. */
  function StepAction(st: Setting, episode: nat, k: nat, c: Snapshot): (a: nat)
    requires Fits(st, c) && st.dyn.Applicable(c.state) != []
    ensures a in st.dyn.Applicable(c.state)
  {
    var actions := st.dyn.Applicable(c.state);
    ApplicableFits(st, c, c.state);
    Choose(c.table, c.state, actions, st.epsilon, st.draws.explore(episode, k), st.draws.pick(episode, k) % |actions|)
  }

  /**
   * Step k of `episode` from snapshot c: choose an action epsilon-greedily, perform it,
   * compute the reward of the state reached against the previous levels, and update
   * the entry of the move with that reward and the best Q-value of the state reached,
   * both read before the update.
   */
  function Step(st: Setting, episode: nat, k: nat, c: Snapshot): (r: Snapshot)
    requires Fits(st, c) && st.dyn.Applicable(c.state) != []
    ensures Fits(st, r)
  {
    var a := StepAction(st, episode, k, c);
    var m := Move(c.state, a);
    var next := st.dyn.After(m);
    var v := st.dyn.vectors[next];
    var reward := Reward(st.goal, v, c.prevZ1, c.prevZ2);
    ApplicableFits(st, c, next);
    var maxQNext := MaxQ(c.table, next, st.dyn.Applicable(next));
    Snapshot(SetEntry(c.table, c.state, a, QUpdate(c.table[c.state][a], reward, maxQNext, st.alpha, st.gamma)),
             next, c.history + [m], v[Z1Level], v[Z2Level])
  }

  /**
   * Steps k, k + 1, ... of `episode` from snapshot c: the episode stops at a state
   * without applicable actions, right after a step that reaches a goal state, or
   * after step MaxSteps - 1.
   */
  function Episode(st: Setting, episode: nat, k: nat, c: Snapshot): (r: Snapshot)
    requires Fits(st, c) && k <= MaxSteps
    ensures Fits(st, r)
    decreases MaxSteps - k
  {
    if k == MaxSteps || st.dyn.Applicable(c.state) == [] then c
    else
      var next := Step(st, episode, k, c);
      if AtGoal(st.goal, st.dyn.vectors[next.state]) then next else Episode(st, episode, k + 1, next)
  }

  /** An episode that can take step k takes it, then stops at a goal state or goes on. */
  lemma EpisodeStep(st: Setting, episode: nat, k: nat, c: Snapshot)
    requires Fits(st, c) && k < MaxSteps && st.dyn.Applicable(c.state) != []
    ensures Episode(st, episode, k, c)
         == if AtGoal(st.goal, st.dyn.vectors[Step(st, episode, k, c).state]) then Step(st, episode, k, c)
            else Episode(st, episode, k + 1, Step(st, episode, k, c))
  {
  }

  /**
   * A step appends its move to the history, the move is applicable, and the lab goes
   * where it leads.
   */
  lemma StepMove(st: Setting, episode: nat, k: nat, c: Snapshot)
    requires Fits(st, c) && st.dyn.Applicable(c.state) != []
    ensures var m := Move(c.state, StepAction(st, episode, k, c));
      && Step(st, episode, k, c).history == c.history + [m]
      && st.dyn.Permits(m) && Step(st, episode, k, c).state == st.dyn.After(m)
  {
  }

  /** A step changes no table entry but that of its move. */
  lemma StepFrame(st: Setting, episode: nat, k: nat, c: Snapshot)
    requires Fits(st, c) && st.dyn.Applicable(c.state) != []
    ensures var m := Move(c.state, StepAction(st, episode, k, c));
      forall i, j :: 0 <= i < st.dyn.stateCount && 0 <= j < st.dyn.actionCount && Move(i, j) != m
        ==> Step(st, episode, k, c).table[i][j] == c.table[i][j]
  {
    var a := StepAction(st, episode, k, c);
    var r := Step(st, episode, k, c);
    SetEntryEntries(c.table, c.state, a, r.table[c.state][a]);
  }

  /**
   * trace lists snapshots of `episode` from trace[0] on: each is the step of the one
   * before it, and none of them but the first and the last is at a goal state.
   */
  ghost predicate Stepped(st: Setting, episode: nat, trace: seq<Snapshot>) {
    && 1 <= |trace| <= MaxSteps + 1
    && (forall i :: 0 <= i < |trace| ==> Fits(st, trace[i]))
    && (forall i :: 0 <= i < |trace| - 1 ==> st.dyn.Applicable(trace[i].state) != [])
    && (forall i {:trigger Step(st, episode, i, trace[i])} :: 0 <= i < |trace| - 1 ==>
          trace[i + 1] == Step(st, episode, i, trace[i]))
    && (forall i :: 0 < i < |trace| - 1 ==> !AtGoal(st.goal, st.dyn.vectors[trace[i].state]))
  }

  /** A trace extended by the step from its last snapshot, which is not at a goal state unless it is the first. */
  lemma SteppedSnoc(st: Setting, episode: nat, trace: seq<Snapshot>, next: Snapshot)
    requires Stepped(st, episode, trace) && |trace| <= MaxSteps
    requires st.dyn.Applicable(trace[|trace| - 1].state) != []
    requires |trace| > 1 ==> !AtGoal(st.goal, st.dyn.vectors[trace[|trace| - 1].state])
    requires next == Step(st, episode, |trace| - 1, trace[|trace| - 1])
    ensures Stepped(st, episode, trace + [next])
  {
    var t := trace + [next];
    forall i | 0 <= i < |t| - 1
      ensures st.dyn.Applicable(t[i].state) != [] && t[i + 1] == Step(st, episode, i, t[i])
    {
      if i < |trace| - 1 {
        assert t[i] == trace[i] && t[i + 1] == trace[i + 1];
      } else {
        assert t[i] == trace[i] && t[i + 1] == next;
      }
    }
  }

  /**
   * The episode from the k-th snapshot of a trace that ends where episodes stop (at the
   * step cap, at a state without applicable actions, or right after reaching a goal
   * state) ends at the trace's last snapshot.
   */
  lemma {:induction false} SteppedEpisode(st: Setting, episode: nat, trace: seq<Snapshot>, k: nat)
    requires Stepped(st, episode, trace) && k < |trace|
    requires var last := trace[|trace| - 1];
      || |trace| - 1 == MaxSteps || st.dyn.Applicable(last.state) == []
      || (|trace| > 1 && AtGoal(st.goal, st.dyn.vectors[last.state]))
    requires k < |trace| - 1 || |trace| - 1 == MaxSteps || st.dyn.Applicable(trace[k].state) == []
    ensures Episode(st, episode, k, trace[k]) == trace[|trace| - 1]
    decreases |trace| - k
  {
    if k < |trace| - 1 {
      var next := Step(st, episode, k, trace[k]);
      assert next == trace[k + 1];
      if !AtGoal(st.goal, st.dyn.vectors[next.state]) {
        SteppedEpisode(st, episode, trace, k + 1);
      }
    }
  }

  /** The moves the episode makes from step k on, one per step taken. */
  ghost function EpisodeMoves(st: Setting, episode: nat, k: nat, c: Snapshot): seq<Move>
    requires Fits(st, c) && k <= MaxSteps
    decreases MaxSteps - k
  {
    if k == MaxSteps || st.dyn.Applicable(c.state) == [] then []
    else
      var next := Step(st, episode, k, c);
      var m := Move(c.state, StepAction(st, episode, k, c));
      if AtGoal(st.goal, st.dyn.vectors[next.state]) then [m] else [m] + EpisodeMoves(st, episode, k + 1, next)
  }

  /** The episode appends exactly its moves to the history. */
  lemma {:induction false} EpisodeHistory(st: Setting, episode: nat, k: nat, c: Snapshot)
    requires Fits(st, c) && k <= MaxSteps
    ensures Episode(st, episode, k, c).history == c.history + EpisodeMoves(st, episode, k, c)
    decreases MaxSteps - k
  {
    if k < MaxSteps && st.dyn.Applicable(c.state) != [] {
      var next := Step(st, episode, k, c);
      if !AtGoal(st.goal, st.dyn.vectors[next.state]) {
        EpisodeHistory(st, episode, k + 1, next);
        var m := Move(c.state, StepAction(st, episode, k, c));
        var rest := EpisodeMoves(st, episode, k + 1, next);
        assert (c.history + [m]) + rest == c.history + ([m] + rest);
      }
    }
  }

  /** The episode makes at most one move per remaining step. */
  lemma {:induction false} EpisodeLength(st: Setting, episode: nat, k: nat, c: Snapshot)
    requires Fits(st, c) && k <= MaxSteps
    ensures |EpisodeMoves(st, episode, k, c)| <= MaxSteps - k
    decreases MaxSteps - k
  {
    if k < MaxSteps && st.dyn.Applicable(c.state) != [] {
      var next := Step(st, episode, k, c);
      if !AtGoal(st.goal, st.dyn.vectors[next.state]) {
        EpisodeLength(st, episode, k + 1, next);
      }
    }
  }

  /** The episode's moves are a run of the lab from its start. */
  lemma {:induction false} EpisodeIsRun(st: Setting, episode: nat, k: nat, c: Snapshot)
    requires Fits(st, c) && k <= MaxSteps
    ensures st.dyn.IsRun(c.state, EpisodeMoves(st, episode, k, c))
    decreases MaxSteps - k
  {
    if k < MaxSteps && st.dyn.Applicable(c.state) != [] {
      var next := Step(st, episode, k, c);
      var m := Move(c.state, StepAction(st, episode, k, c));
      StepMove(st, episode, k, c);
      if AtGoal(st.goal, st.dyn.vectors[next.state]) {
        RunCons(st.dyn, m, []);
        assert [m] + [] == [m];
      } else {
        EpisodeIsRun(st, episode, k + 1, next);
        RunCons(st.dyn, m, EpisodeMoves(st, episode, k + 1, next));
      }
    }
  }

  /** The run of the episode's moves ends where the episode ends. */
  lemma {:induction false} EpisodeRun(st: Setting, episode: nat, k: nat, c: Snapshot)
    requires Fits(st, c) && k <= MaxSteps
    ensures st.dyn.IsRun(c.state, EpisodeMoves(st, episode, k, c))
    ensures Episode(st, episode, k, c).state == st.dyn.End(c.state, EpisodeMoves(st, episode, k, c))
    decreases MaxSteps - k
  {
    EpisodeIsRun(st, episode, k, c);
    if k < MaxSteps && st.dyn.Applicable(c.state) != [] {
      var next := Step(st, episode, k, c);
      var m := Move(c.state, StepAction(st, episode, k, c));
      StepMove(st, episode, k, c);
      EpisodeStep(st, episode, k, c);
      if AtGoal(st.goal, st.dyn.vectors[next.state]) {
        RunCons(st.dyn, m, []);
        assert [m] + [] == [m];
      } else {
        EpisodeRun(st, episode, k + 1, next);
        RunCons(st.dyn, m, EpisodeMoves(st, episode, k + 1, next));
      }
    }
  }

  /** No move of the episode but its last enters a goal state. */
  lemma {:induction false} EpisodeStopsAtGoal(st: Setting, episode: nat, k: nat, c: Snapshot)
    requires Fits(st, c) && k <= MaxSteps
    ensures var moves := EpisodeMoves(st, episode, k, c);
      st.dyn.IsRun(c.state, moves) &&
      forall i :: 0 <= i < |moves| - 1 ==> !AtGoal(st.goal, st.dyn.vectors[st.dyn.After(moves[i])])
    decreases MaxSteps - k
  {
    EpisodeIsRun(st, episode, k, c);
    if k < MaxSteps && st.dyn.Applicable(c.state) != [] {
      var next := Step(st, episode, k, c);
      var m := Move(c.state, StepAction(st, episode, k, c));
      StepMove(st, episode, k, c);
      if !AtGoal(st.goal, st.dyn.vectors[next.state]) {
        EpisodeStopsAtGoal(st, episode, k + 1, next);
        var rest := EpisodeMoves(st, episode, k + 1, next);
        var moves := [m] + rest;
        forall i | 0 <= i < |moves| - 1
          ensures !AtGoal(st.goal, st.dyn.vectors[st.dyn.After(moves[i])])
        {
          if i > 0 {
            assert moves[i] == rest[i - 1];
          }
        }
      }
    }
  }

  /** The episode changes no table entry but those of its moves. */
  lemma {:induction false} EpisodeFrame(st: Setting, episode: nat, k: nat, c: Snapshot)
    requires Fits(st, c) && k <= MaxSteps
    ensures forall i, j :: 0 <= i < st.dyn.stateCount && 0 <= j < st.dyn.actionCount
              && Move(i, j) !in EpisodeMoves(st, episode, k, c)
              ==> Episode(st, episode, k, c).table[i][j] == c.table[i][j]
    decreases MaxSteps - k
  {
    if k < MaxSteps && st.dyn.Applicable(c.state) != [] {
      var next := Step(st, episode, k, c);
      var m := Move(c.state, StepAction(st, episode, k, c));
      StepFrame(st, episode, k, c);
      EpisodeStep(st, episode, k, c);
      if !AtGoal(st.goal, st.dyn.vectors[next.state]) {
        EpisodeFrame(st, episode, k + 1, next);
        var rest := EpisodeMoves(st, episode, k + 1, next);
        forall i, j | 0 <= i < st.dyn.stateCount && 0 <= j < st.dyn.actionCount && Move(i, j) !in [m] + rest
          ensures Episode(st, episode, k, c).table[i][j] == c.table[i][j]
        {
          assert Move(i, j) !in rest && Move(i, j) != m;
        }
      }
    }
  }

  /**
   * The moves an episode from snapshot c appends to the history form a run of the lab
   * from c's state to the state the episode ends in, number at most MaxSteps, and none
   * but the last enters a goal state; no table entry but those of the moves changes.
   */
  lemma EpisodeOutcome(st: Setting, episode: nat, c: Snapshot, moves: seq<Move>)
    requires Fits(st, c) && Episode(st, episode, 0, c).history == c.history + moves
    ensures |moves| <= MaxSteps
    ensures st.dyn.IsRun(c.state, moves) && Episode(st, episode, 0, c).state == st.dyn.End(c.state, moves)
    ensures forall i :: 0 <= i < |moves| - 1 ==> !AtGoal(st.goal, st.dyn.vectors[st.dyn.After(moves[i])])
    ensures forall i, j :: 0 <= i < st.dyn.stateCount && 0 <= j < st.dyn.actionCount && Move(i, j) !in moves
              ==> Episode(st, episode, 0, c).table[i][j] == c.table[i][j]
  {
    EpisodeHistory(st, episode, 0, c);
    AppendCancel(c.history, moves, EpisodeMoves(st, episode, 0, c));
    EpisodeLength(st, episode, 0, c);
    EpisodeRun(st, episode, 0, c);
    EpisodeStopsAtGoal(st, episode, 0, c);
    EpisodeFrame(st, episode, 0, c);
  }

  /** The random reset before `episode`: only the lab's state and its actions change. */
  function Randomized(st: Setting, episode: nat, c: Snapshot): (r: Snapshot)
    requires Fits(st, c)
    ensures Fits(st, r)
  {
    c.(state := ResetEnd(st.dyn, c.state, st.draws, episode, 0),
       history := c.history + ResetMoves(st.dyn, c.state, st.draws, episode, 0))
  }

  /** Episodes e, e + 1, ..., episodes - 1, each preceded by its reset. */
  function Train(st: Setting, episodes: int, e: nat, c: Snapshot): (r: Snapshot)
    requires Fits(st, c)
    ensures Fits(st, r)
    decreases episodes - e
  {
    if e >= episodes then c
    else Train(st, episodes, e + 1, Episode(st, e, 0, Randomized(st, e, c)))
  }
}
