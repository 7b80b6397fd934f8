/**
 * The reward model: a per-step cost, a bonus for reaching the goal levels, and per-zone
 * penalties for lights, blinds, level changes since the previous step, and artificial
 * light used with blinds deployed under medium or high sunshine.
 */
module Rewards {
  import opened Environment
  import opened Goals

  const StepCost: real := -1.0
  /** The goal bonus is fixed; the reward argument of the training call is not used. */
  const GoalBonus: real := 100.0
  const LightCost: real := 5.0
  const BlindsCost: real := 0.1
  const ChangeCost: real := 0.1
  const SunshineThreshold: int := 2
  const WastedLightCost: real := 1.0

  /** Least and greatest reward when all levels lie in [0, MaxLevel]. */
  const RewardMin: real := -13.8
  const RewardMax: real := 99.0
  /** Least reward of a step that ends at the goal levels. */
  const GoalRewardMin: real := 86.2

  function Abs(x: int): nat {
    if x < 0 then -x else x
  }

  /**
   * The reward of a step that ends in the decoded state v, when the zones were at
   * levels prevZ1, prevZ2 at the previous reward computation: the straight-line sum
   * of the terms, in the order they are applied.
   */
  function Reward(g: Goal, v: StateVector, prevZ1: int, prevZ2: int): real
    requires |v| == VectorLength
  {
    var z1Light, z2Light := v[Z1Light] == 1, v[Z2Light] == 1;
    var z1Blinds, z2Blinds := v[Z1Blinds] == 1, v[Z2Blinds] == 1;
    var sunny := v[Sunshine] >= SunshineThreshold;
    StepCost
    + (if AtGoal(g, v) then GoalBonus else 0.0)
    - (if z1Light then LightCost else 0.0)
    - (if z2Light then LightCost else 0.0)
    - (if z1Blinds then BlindsCost else 0.0)
    - (if z2Blinds then BlindsCost else 0.0)
    - (ChangeCost * Abs(v[Z1Level] - prevZ1) as real + ChangeCost * Abs(v[Z2Level] - prevZ2) as real)
    - (if sunny && z1Blinds && z1Light then WastedLightCost else 0.0)
    - (if sunny && z2Blinds && z2Light then WastedLightCost else 0.0)
  }

  /** What one zone contributes to the reward. */
  function ZoneCost(level: int, prev: int, light: bool, blinds: bool, sunshine: int): real {
    (if light then -LightCost else 0.0)
    + (if blinds then -BlindsCost else 0.0)
    - ChangeCost * (Abs(level - prev) as real)
    + (if sunshine >= SunshineThreshold && blinds && light then -WastedLightCost else 0.0)
  }

  /**
   * The reward is the step cost, the goal bonus when at the goal, and what each zone
   * contributes on its own.
   */
  lemma RewardByZone(g: Goal, v: StateVector, prevZ1: int, prevZ2: int)
    requires |v| == VectorLength
    ensures Reward(g, v, prevZ1, prevZ2)
         == StepCost + (if AtGoal(g, v) then GoalBonus else 0.0)
            + ZoneCost(v[Z1Level], prevZ1, v[Z1Light] == 1, v[Z1Blinds] == 1, v[Sunshine])
            + ZoneCost(v[Z2Level], prevZ2, v[Z2Light] == 1, v[Z2Blinds] == 1, v[Sunshine])
  {
  }

  /** A zone costs between 0 and 6.4 when its level moved by at most MaxLevel. */
  lemma ZoneCostRange(level: int, prev: int, light: bool, blinds: bool, sunshine: int)
    requires 0 <= level <= MaxLevel && 0 <= prev <= MaxLevel
    ensures -6.4 <= ZoneCost(level, prev, light, blinds, sunshine) <= 0.0
  {
    assert Abs(level - prev) <= 3;
  }

  /**
   * With levels in range, a step that ends at the goal earns between 86.2 and 99, and
   * any other step between -13.8 and -1.
   */
  lemma RewardRange(g: Goal, v: StateVector, prevZ1: int, prevZ2: int)
    requires |v| == VectorLength
    requires 0 <= v[Z1Level] <= MaxLevel && 0 <= v[Z2Level] <= MaxLevel
    requires 0 <= prevZ1 <= MaxLevel && 0 <= prevZ2 <= MaxLevel
    ensures AtGoal(g, v) ==> GoalRewardMin <= Reward(g, v, prevZ1, prevZ2) <= RewardMax
    ensures !AtGoal(g, v) ==> RewardMin <= Reward(g, v, prevZ1, prevZ2) <= StepCost
  {
    RewardByZone(g, v, prevZ1, prevZ2);
    ZoneCostRange(v[Z1Level], prevZ1, v[Z1Light] == 1, v[Z1Blinds] == 1, v[Sunshine]);
    ZoneCostRange(v[Z2Level], prevZ2, v[Z2Light] == 1, v[Z2Blinds] == 1, v[Sunshine]);
  }

  /**
   * The goal bonus is exactly 100, whatever reward the training call was given: the
   * same step scores 100 more for a goal it reaches than for a goal it misses.
   */
  lemma GoalBonusExact(reached: Goal, missed: Goal, v: StateVector, prevZ1: int, prevZ2: int)
    requires |v| == VectorLength && AtGoal(reached, v) && !AtGoal(missed, v)
    ensures Reward(reached, v, prevZ1, prevZ2) == Reward(missed, v, prevZ1, prevZ2) + 100.0
  {
  }

  /** With levels in range, the reward is positive exactly at the goal. */
  lemma RewardPositiveIffGoal(g: Goal, v: StateVector, prevZ1: int, prevZ2: int)
    requires |v| == VectorLength
    requires 0 <= v[Z1Level] <= MaxLevel && 0 <= v[Z2Level] <= MaxLevel
    requires 0 <= prevZ1 <= MaxLevel && 0 <= prevZ2 <= MaxLevel
    ensures Reward(g, v, prevZ1, prevZ2) > 0.0 <==> AtGoal(g, v)
  {
    RewardRange(g, v, prevZ1, prevZ2);
  }
}
