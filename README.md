# Q-learning engine for the lab's lighting goals

This project models the tabular Q-learning engine `QLearner` of a multi-agent
lab-automation system. The lab has two zones. Each zone has an illumination level
(0 to 3), a light and blinds, and there is one sunshine reading. For a goal
`[z1Level, z2Level]`, the learner trains a table of Q-values. Rows are the lab's
enumerated states and columns its enumerated actions. Training runs against the live
lab: each episode starts with a random reset of at most five actions. It then takes up
to 100 epsilon-greedy steps. Every step performs an action on the lab, computes a
shaped reward from the decoded state it lands in, and applies the Q-learning update.
The episode stops at a dead end, right after the step that reaches a goal state, or at
the step cap. The finished table is stored under the goal.

Modules:

- `Environment`: the boundary to the lab.
  - `Dynamics` holds the state vectors, the applicable actions per state, the
    transitions and the compatible-state query.
  - `Lab` is the live lab, holding its current state and a ghost history of the
    actions performed on it.
  - `Draws` holds the outcomes of the random number generator.
- `Goals`: goals, their partial-state descriptor, and the goal test.
- `Rewards`: the reward function and its range.
- `QTables`: the update rule, the bounds it keeps, and the in-place update of
  one entry.
- `Selection`: the greedy action, the maximum Q-value, and the epsilon-greedy choice,
  all over a row of the table.
- `Reset`: the moves the random reset makes, as a function of the start state and the
  draws.
- `Training`: training as a function of its inputs. It defines the step, the episode
  loop, the reset and the sequence of episodes, over value snapshots of the table, the
  lab's state and history, and the previous zone levels. The step cap `MaxSteps` lives
  here.
- `Learner`: the `QLearner` class, with its table initialisation, reward bookkeeping,
  reset, the episode loop and the training operation. Each method is proved to
  compute exactly what `Training` defines: `CalculateQ` stores the table that `Train`
  produces from a table of zeros.

Behaviour of the code that the model keeps:

- The step cap is 100 (`maxSteps`), and the episode loop breaks right after the step
  that enters a goal state.
- The reset performs five random applicable actions whatever state the lab is in. It
  makes no goal check and no retries. `Reset.ResetAlwaysMoves` states this: with no
  dead ends, the reset always moves five times, even from a non-goal state.
- The goal bonus is a fixed +100. The reward argument of the training operation is
  parsed and not used; see `Rewards.GoalBonusExact`.
- No hyperparameter is validated. With episodes ≤ 0 the stored table is all zeros.
  Alpha, gamma and epsilon outside [0, 1] are used as given. The bound on Q-values is
  proved only under `Contracting` (alpha in [0, 1], gamma in [0, 1)).
- The uniform draw `nextDouble` lies in [0, 1). The draws are required to lie there
  (`DrawsInRange`), and `Selection.ChoiceExtremes` states what that gives: epsilon ≤ 0
  never explores and epsilon ≥ 1 always does.

## Model

| member | source | states |
|---|---|---|
| Learner.QLearner.constructor | src/env/tools/QLearner.java:19-31 | The learner reads the lab's state and action counts and starts with no tables; both previous levels are 0. |
| Learner.QLearner.InitializeQTable | src/env/tools/QLearner.java:353-361 | Returns a fresh table with stateCount rows and actionCount columns, every entry 0: as a value, the table `Zeros`. |
| Selection.GreedyIsFirstBest | src/env/tools/QLearner.java:164-176 | The greedy scan (replace the best only on a strict `>`) yields the first maximum: a listed action that no listed action exceeds and that every action listed before it falls strictly below. |
| Selection.BestFromIsFirstBest | src/env/tools/QLearner.java:168-173 | A scan that has found the first maximum of a prefix ends with the first maximum of the whole list. |
| Selection.GetBestAction | src/env/tools/QLearner.java:164-176 | The loop over the array returns the greedy action `Greedy` of the table row, which is the first maximum. |
| Selection.FirstBestUnique | src/env/tools/QLearner.java:164-176 | At most one action is the first maximum, so greedy choice is a function of the table row. |
| Selection.MaxQIsMaximum | src/env/tools/QLearner.java:185-196 | The maximum is 0 for an empty action list. Otherwise it is the Q-value of some listed action, and no listed action exceeds it. |
| Selection.GetMaxQ | src/env/tools/QLearner.java:185-196 | The loop over the array returns `MaxQ` of the row: 0 for an empty list, otherwise the maximum. |
| Selection.MaxQIsBestValue | src/env/tools/QLearner.java:164-196 | A listed Q-value that no listed one exceeds is the maximum, and equals the Q-value of the greedy action. |
| Selection.ChooseAction | src/env/tools/QLearner.java:144-155 | With the uniform draw in [0, 1), the result is `Choose`: the action at the random index when the draw is below epsilon, the greedy action otherwise; always a listed action. The table is only read. |
| Selection.ChoiceExtremes | src/env/tools/QLearner.java:144-155 | With the draw in [0, 1), epsilon ≤ 0 always picks the greedy action and epsilon ≥ 1 always picks the action at the random index. |
| Learner.QLearner.CalculateReward | src/env/tools/QLearner.java:203-269 | Returns the reward of the lab's current decoded state against the previous levels held before the call. It overwrites the previous levels with the current zone levels. |
| Rewards.RewardByZone | src/env/tools/QLearner.java:229-269 | The reward is the step cost −1, plus 100 at the goal levels, plus each zone's own cost: 5 for a light, 0.1 for blinds, 0.1 per level of change, and 1 for a light under deployed blinds in sunshine ≥ 2. |
| Rewards.ZoneCostRange | src/env/tools/QLearner.java:237-267 | With both levels in [0, 3], one zone costs between 0 and 6.4. |
| Rewards.RewardRange | src/env/tools/QLearner.java:229-269 | With levels in [0, 3], a step at the goal earns between 86.2 and 99, and any other step between −13.8 and −1. |
| Rewards.GoalBonusExact | src/env/tools/QLearner.java:228-235 | Reaching the goal is worth exactly 100 more than the same state judged against a goal it misses. The reward argument of the training call plays no part. |
| Rewards.RewardPositiveIffGoal | src/env/tools/QLearner.java:228-269 | With levels in [0, 3], the reward is positive if and only if the state is at the goal levels. |
| Goals.GoalDescriptor | src/env/tools/QLearner.java:285-293 | The goal's descriptor has seven entries. Only the two zone levels are fixed, to the goal's levels. |
| Goals.GoalMatchesDecoding | src/env/tools/QLearner.java:285-299 | A state vector matches the goal descriptor if and only if both its zone levels equal the goal's. |
| Goals.IsGoalState | src/env/tools/QLearner.java:279-300 | Membership in the compatible states of the goal descriptor holds exactly when the index is a state whose zone levels are the goal's. The test is a function and changes nothing. |
| Environment.Dynamics.CompatibleStates | src/env/tools/QLearner.java:296 | The compatible-state query returns exactly the states whose vector matches the descriptor. |
| Environment.Dynamics.Applicable | src/env/tools/QLearner.java:79 | Every applicable action of a state is a column of the table. |
| Environment.Lab.ReadCurrentState | src/env/tools/QLearner.java:74 | Reading the state returns the lab's current state and changes nothing. |
| Environment.Lab.CurrentVector | src/env/tools/QLearner.java:208-218 | The lab's current decoded state has seven components. |
| Environment.Lab.PerformAction | src/env/tools/QLearner.java:87 | Performing an applicable action moves the lab along its transition and records the move. |
| QTables.SetEntryEntries | src/env/tools/QLearner.java:96-97 | Setting entry [s][a] of a table gives that entry the new value and leaves every other entry as it was. |
| QTables.UpdateQValue | src/env/tools/QLearner.java:96-97 | Entry [s][a] becomes old + α(reward + γ·maxQNext − old). Every other entry is unchanged. As a value, the table is `SetEntry` of the old one. |
| QTables.UpdateBetween | src/env/tools/QLearner.java:96-97 | For α in [0, 1] the new value lies between the old value and the target reward + γ·maxQNext. α = 0 keeps the value and α = 1 gives the target. |
| QTables.UpdateStaysWithin | src/env/tools/QLearner.java:96-97 | For γ < 1 and rewards in [rlo, rhi], the update maps [rlo/(1−γ), rhi/(1−γ)] into itself. |
| Learner.ZeroWithinBounds | src/env/tools/QLearner.java:186-188 | The 0 of a fresh entry and of maxQNext at a dead end lies within the Q-value bounds. |
| Learner.UpdateKeepsBounds | src/env/tools/QLearner.java:91-97 | One update with a real reward and a table-or-zero maxQNext keeps every entry within [−13.8/(1−γ), 99/(1−γ)]. |
| Learner.QLearner.RandomMove | src/env/tools/QLearner.java:126-132 | One reset round reads the current state. If the state has applicable actions, it performs the one at the drawn index; otherwise it does nothing. |
| Learner.QLearner.RandomizeState | src/env/tools/QLearner.java:123-134 | The lab's history grows by exactly the moves of the five-round reset from the state it was in, and the lab ends where that reset ends. |
| Reset.ResetLength | src/env/tools/QLearner.java:125-133 | The reset makes at most five moves. |
| Reset.ResetIsRun | src/env/tools/QLearner.java:125-133 | Each move of the reset is applicable in the state just read before it, and that state is where the previous move led. |
| Reset.ResetAlwaysMoves | src/env/tools/QLearner.java:125-133 | When no state is a dead end, the reset makes exactly five moves from any start state, goal or not. |
| Reset.ResetStuckAtDeadEnd | src/env/tools/QLearner.java:128 | From a state without applicable actions, the reset makes no move and the lab stays put. |
| Training.StepMove | src/env/tools/QLearner.java:85-89 | A step appends its move to the history; the move is applicable in the step's state, and the lab goes where it leads. |
| Training.StepFrame | src/env/tools/QLearner.java:96-97 | A step changes no table entry but the one of its move. |
| Learner.QLearner.TakeStep | src/env/tools/QLearner.java:85-97 | With the draw in [0, 1), one step of the loop is exactly `Training.Step` of the learner's state before it. The action is the epsilon-greedy `Choose` on the old table, and the move is applicable; the lab moves along it. The reward is that of the new state against the old previous levels, and the previous levels become the new state's zone levels. maxQNext is `MaxQ` of the new state's actions on the old table (0 at a dead end). Only entry [state][action] changes, and it takes the updated value. The Q-value bounds are preserved. |
| Training.SteppedSnoc | src/env/tools/QLearner.java:77-104 | Appending the next step to the snapshots an episode has gone through, when the loop continues (actions applicable, no goal reached yet), keeps them the episode's snapshots. |
| Training.SteppedEpisode | src/env/tools/QLearner.java:77-104 | Snapshots that end where the loop stops (after 100 steps, at a state without applicable actions, or right after entering a goal state) end at the result of `Episode`. |
| Learner.QLearner.AdvanceEpisode | src/env/tools/QLearner.java:79-99 | One pass of the loop body extends the episode's snapshots by the new state of the learner and the lab. The lab's history grows by the move and the bounds are preserved. |
| Learner.QLearner.RunSteps | src/env/tools/QLearner.java:74-105 | The loop goes through snapshots that are the episode's steps, from the state before it to the state after it. It stops at a dead end with fewer than 100 moves, right after a move into the goal, or after 100 moves. A start without actions performs nothing. |
| Training.EpisodeHistory | src/env/tools/QLearner.java:77-105 | An episode appends exactly its moves to the lab's history. |
| Training.EpisodeLength | src/env/tools/QLearner.java:76-77 | An episode from step k makes at most 100 − k moves. |
| Training.EpisodeIsRun | src/env/tools/QLearner.java:79-99 | An episode's moves form a run of the lab: each is applicable where the previous one led. |
| Training.EpisodeRun | src/env/tools/QLearner.java:79-99 | The run of an episode's moves ends in the state where the episode leaves the lab. |
| Training.EpisodeStopsAtGoal | src/env/tools/QLearner.java:101-104 | No move of an episode but its last enters a goal state. |
| Training.EpisodeFrame | src/env/tools/QLearner.java:96-97 | An episode changes no table entry but those of its moves. |
| Training.EpisodeOutcome | src/env/tools/QLearner.java:74-105 | The moves an episode appends to the history number at most 100 and form a run from its start to its end state. None but the last enters a goal state, and only their table entries change. |
| Learner.QLearner.RunEpisode | src/env/tools/QLearner.java:74-105 | The table, the lab's state and history, and the previous levels after the loop are exactly `Training.Episode` of the state before it. The episode makes at most 100 moves, forming a run of the lab from its start, and the history grows by exactly those moves. No move but the last enters a goal state. It ends by reaching the goal exactly when its last move did. It ends at a dead end only with fewer than 100 moves and no applicable action. A start without actions updates nothing. Only entries of moves made change, and the Q-value bounds are preserved. |
| Learner.QLearner.TrainEpisode | src/env/tools/QLearner.java:72-105 | One pass of the episode loop is the reset followed by the episode: the new state is `Episode` of `Randomized` of the old one. It performs at most 105 actions and preserves the bounds. |
| Learner.QLearner.TrainEpisodes | src/env/tools/QLearner.java:71-110 | The episode loop computes `Train`: episodes 0 to episodes − 1, each a reset and an episode. With episodes ≤ 0 the table is unchanged. At most 105 actions per episode are performed. |
| Learner.QLearner.TrainTable | src/env/tools/QLearner.java:66-110 | The trained table is `Train` applied to a table of zeros and the learner's state before the call. With episodes ≤ 0 every entry is 0. Under contracting hyperparameters every entry lies within the bounds. |
| Learner.QLearner.CalculateQ | src/env/tools/QLearner.java:57-118 | It stores under the goal a fresh table that is exactly `Train` run from a table of zeros, all zeros when episodes ≤ 0, and leaves every other goal's table in place. At most 105 actions per episode are performed on the lab. Under contracting hyperparameters and levels in [0, 3], every entry of the new table lies within [−13.8/(1−γ), 99/(1−γ)]. |

## Left out

- Lab.java is not part of this model. The lab is modelled as deterministic
  `Dynamics`: a state vector per state, applicable actions per state, and one
  successor per action. Stochastic transitions and any state change made by other
  actors between reads are not modelled.
- The compatible-state query is assumed to be correct: `CompatibleStates` is defined
  as the states that match the descriptor, in index order.
- A failed or rejected action at the lab: `PerformAction` requires an applicable
  action. The learner only ever performs applicable ones.
- The HTTP access to the lab's Thing Description and the CArtAgO artifact plumbing
  (`@OPERATION`, `OpFeedbackParam`) are not modelled.
- EnvironmentHelper is not modelled. It is not used by the training code.
- `getActionFromState` is not modelled: it is a stub returning fixed values.
- `printQTable` and all logging are left out: they are output only.
- Random numbers are supplied by a `Draws` oracle indexed by episode and step. Their
  distribution is not modelled. Any index in range can be drawn, since raw draws are
  reduced modulo the list length.
- Q-values are `real`, not IEEE doubles. Rounding, NaN and infinities are not
  modelled. The `Double.NEGATIVE_INFINITY` start of the maximum loop is replaced by
  the first listed value, which gives the same result over a non-empty list of finite
  values.
- The parsing of `Object` arguments (`Integer.valueOf(x.toString())` and similar) and
  its exceptions are not modelled: arguments arrive typed.
- Learner.QLearner.CalculateQ keys the table by the goal pair itself, not by
  `Arrays.hashCode` of the goal array. The two agree for the levels 0 to 3 used by
  goals. Hash collisions between other pairs (such as [0, 31] and [1, 0]) that would
  overwrite each other's table are not modelled.
- Learner.QLearner.CalculateQ accepts `goalReward` and ignores it, as the code does.
- The previous zone levels carry over across steps, resets and episodes, as in the
  code: the reset does not update them, so the first reward of an episode compares
  against the last reward computation.
- Learner.QLearner.CalculateQ proves the bound on Q-values only for alpha in [0, 1],
  gamma in [0, 1) and zone levels in [0, 3]. Outside these, no bound is stated.
- Learner.QLearner.RunEpisode returns its moves and the way it ended as ghost values.
  The code has no such results.
- Learner.QLearner.RunSteps and Learner.QLearner.AdvanceEpisode also return, as ghost
  values, the snapshots the loop goes through. The code's loop is split in these two
  methods so that each pass is proved on its own.
