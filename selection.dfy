/**
 * Reading a row of the Q-table over the applicable actions: the greedy action (the
 * first maximum in list order), the maximum value, and the epsilon-greedy choice.
 * Each is specified by a function on the table as a value; the methods compute them
 * on the array.
 */
module Selection {
  import opened QTables

  /** The state is a row of the array q and every listed action is a column of it. */
  predicate ActionsFit(q: array2<real>, state: nat, actions: seq<nat>) {
    state < q.Length0 && forall k :: 0 <= k < |actions| ==> actions[k] < q.Length1
  }

  /** The state is a row of the table t and every listed action is an entry of that row. */
  predicate RowFits(t: Table, state: nat, actions: seq<nat>) {
    state < |t| && forall k :: 0 <= k < |actions| ==> actions[k] < |t[state]|
  }

  /** No listed action has a Q-value above v. */
  ghost predicate Dominates(t: Table, state: nat, actions: seq<nat>, v: real)
    requires RowFits(t, state, actions)
  {
    forall k :: 0 <= k < |actions| ==> t[state][actions[k]] <= v
  }

  /**
   * a is the greedy action: it is listed, no listed action has a higher Q-value, and
   * every action listed before it has a strictly lower one.
   */
  ghost predicate IsFirstBest(t: Table, state: nat, actions: seq<nat>, a: nat)
    requires RowFits(t, state, actions)
  {
    exists k :: 0 <= k < |actions| && actions[k] == a
      && Dominates(t, state, actions, t[state][a])
      && forall j :: 0 <= j < k ==> t[state][actions[j]] < t[state][a]
  }

  /**
   * The scan for the greedy action from position i on, with `best` the best action
   * found before i: an action replaces it only when its Q-value is strictly higher.
   */
  function BestFrom(t: Table, state: nat, actions: seq<nat>, i: nat, best: nat): nat
    requires RowFits(t, state, actions) && i <= |actions| && best < |t[state]|
    decreases |actions| - i
  {
    if i == |actions| then best
    else BestFrom(t, state, actions, i + 1, if t[state][actions[i]] > t[state][best] then actions[i] else best)
  }

  /** The greedy action over a non-empty list: the scan from the first listed action. */
  function Greedy(t: Table, state: nat, actions: seq<nat>): (a: nat)
    requires RowFits(t, state, actions) && |actions| > 0
    ensures a in actions
  {
    BestFromIsFirstBest(t, state, actions, 0, 0);
    BestFrom(t, state, actions, 0, actions[0])
  }

  /** The greedy action is the first maximum of the listed actions. */
  lemma GreedyIsFirstBest(t: Table, state: nat, actions: seq<nat>)
    requires RowFits(t, state, actions) && |actions| > 0
    ensures IsFirstBest(t, state, actions, Greedy(t, state, actions))
  {
    BestFromIsFirstBest(t, state, actions, 0, 0);
  }

  /**
   * A scan that has so far found the first maximum of actions[..i], at position
   * bestAt, ends with the first maximum of the whole list.
   */
  lemma {:induction false} BestFromIsFirstBest(t: Table, state: nat, actions: seq<nat>, i: nat, bestAt: nat)
    requires RowFits(t, state, actions) && i <= |actions| && bestAt < |actions| && (bestAt < i || bestAt == 0)
    requires forall k :: 0 <= k < i ==> t[state][actions[k]] <= t[state][actions[bestAt]]
    requires forall k :: 0 <= k < bestAt ==> t[state][actions[k]] < t[state][actions[bestAt]]
    ensures BestFrom(t, state, actions, i, actions[bestAt]) in actions
    ensures IsFirstBest(t, state, actions, BestFrom(t, state, actions, i, actions[bestAt]))
    decreases |actions| - i
  {
    if i == |actions| {
      assert Dominates(t, state, actions, t[state][actions[bestAt]]);
    } else if t[state][actions[i]] > t[state][actions[bestAt]] {
      BestFromIsFirstBest(t, state, actions, i + 1, i);
    } else {
      BestFromIsFirstBest(t, state, actions, i + 1, bestAt);
    }
  }

  /** The largest Q-value over the listed actions: the greedy action's, or 0 when none is listed. */
  function MaxQ(t: Table, state: nat, actions: seq<nat>): real
    requires RowFits(t, state, actions)
  {
    if |actions| == 0 then 0.0 else t[state][Greedy(t, state, actions)]
  }

  /**
   * The maximum is 0 over an empty list; otherwise it is the Q-value of a listed
   * action and no listed action has a higher one.
   */
  lemma MaxQIsMaximum(t: Table, state: nat, actions: seq<nat>)
    requires RowFits(t, state, actions)
    ensures |actions| == 0 ==> MaxQ(t, state, actions) == 0.0
    ensures |actions| > 0 ==> exists k :: 0 <= k < |actions| && MaxQ(t, state, actions) == t[state][actions[k]]
    ensures |actions| > 0 ==> Dominates(t, state, actions, MaxQ(t, state, actions))
  {
    if |actions| > 0 {
      GreedyIsFirstBest(t, state, actions);
    }
  }

  /**
   * Epsilon-greedy choice. `draw` is the uniform draw and `pick` the random index; the
   * action at `pick` is taken when draw < epsilon, the greedy action otherwise.
   */
  function Choose(t: Table, state: nat, actions: seq<nat>, epsilon: real, draw: real, pick: nat): (a: nat)
    requires RowFits(t, state, actions) && pick < |actions|
    ensures a in actions
  {
    if draw < epsilon then actions[pick] else Greedy(t, state, actions)
  }

  /**
   * With a draw in [0, 1), as the uniform draw is, epsilon 0 or below never explores
   * and epsilon 1 or above always does.
   */
  lemma ChoiceExtremes(t: Table, state: nat, actions: seq<nat>, epsilon: real, draw: real, pick: nat)
    requires RowFits(t, state, actions) && pick < |actions| && 0.0 <= draw < 1.0
    ensures epsilon <= 0.0 ==> Choose(t, state, actions, epsilon, draw, pick) == Greedy(t, state, actions)
    ensures epsilon >= 1.0 ==> Choose(t, state, actions, epsilon, draw, pick) == actions[pick]
  {
  }

  /** The greedy action for a state, over a non-empty list of applicable actions. */
  method GetBestAction(q: array2<real>, state: nat, actions: seq<nat>) returns (best: nat)
    requires ActionsFit(q, state, actions) && |actions| > 0
    ensures best == Greedy(TableOf(q), state, actions)
  {
    ghost var t := TableOf(q);
    ghost var row := t[state];
    best := actions[0];
    var bestValue := q[state, best];
    ghost var bestAt := 0;
    for i := 0 to |actions|
      invariant 0 <= bestAt < |actions| && (bestAt < i || bestAt == 0)
      invariant best == actions[bestAt] && bestValue == row[best]
      invariant forall k :: 0 <= k < i ==> row[actions[k]] <= bestValue
      invariant forall k :: 0 <= k < bestAt ==> row[actions[k]] < bestValue
    {
      var action := actions[i];
      var value := q[state, action];
      assert value == row[action];
      if value > bestValue {
        bestValue := value;
        best := action;
        bestAt := i;
      }
    }
    assert IsFirstBest(t, state, actions, best) by {
      assert Dominates(t, state, actions, t[state][best]);
    }
    GreedyIsFirstBest(t, state, actions);
    FirstBestUnique(t, state, actions, best, Greedy(t, state, actions));
  }

  /**
   * The largest Q-value over the applicable actions of a state, or 0 when the state
   * has none.
   */
  method GetMaxQ(q: array2<real>, state: nat, actions: seq<nat>) returns (m: real)
    requires ActionsFit(q, state, actions)
    ensures m == MaxQ(TableOf(q), state, actions)
  {
    if |actions| == 0 {
      m := 0.0;
    } else {
      ghost var t := TableOf(q);
      ghost var row := t[state];
      m := q[state, actions[0]];
      ghost var maxAt := 0;
      for i := 0 to |actions|
        invariant 0 <= maxAt < |actions| && m == row[actions[maxAt]]
        invariant forall k :: 0 <= k < i ==> row[actions[k]] <= m
      {
        var value := q[state, actions[i]];
        assert value == row[actions[i]];
        if value > m {
          m, maxAt := value, i;
        }
      }
      assert Dominates(t, state, actions, m);
      MaxQIsBestValue(t, state, actions, m, maxAt);
    }
  }

  /**
   * Epsilon-greedy choice on the array: the action at `pick` when the uniform draw is
   * below epsilon, the greedy action otherwise.
   */
  method ChooseAction(q: array2<real>, state: nat, actions: seq<nat>, epsilon: real, draw: real, pick: nat)
    returns (a: nat)
    requires ActionsFit(q, state, actions) && |actions| > 0 && pick < |actions| && 0.0 <= draw < 1.0
    ensures a == Choose(TableOf(q), state, actions, epsilon, draw, pick)
  {
    if draw < epsilon {
      return actions[pick];
    }
    a := GetBestAction(q, state, actions);
  }

  /** The greedy action is unique, so exploitation is deterministic for a fixed table. */
  lemma FirstBestUnique(t: Table, state: nat, actions: seq<nat>, a: nat, b: nat)
    requires RowFits(t, state, actions)
    requires IsFirstBest(t, state, actions, a) && IsFirstBest(t, state, actions, b)
    ensures a == b
  {
    var ka :| 0 <= ka < |actions| && actions[ka] == a
      && Dominates(t, state, actions, t[state][a])
      && forall j :: 0 <= j < ka ==> t[state][actions[j]] < t[state][a];
    var kb :| 0 <= kb < |actions| && actions[kb] == b
      && Dominates(t, state, actions, t[state][b])
      && forall j :: 0 <= j < kb ==> t[state][actions[j]] < t[state][b];
    assert t[state][a] <= t[state][b] by { assert t[state][actions[ka]] <= t[state][b]; }
    assert t[state][b] <= t[state][a] by { assert t[state][actions[kb]] <= t[state][a]; }
  }

  /**
   * A listed Q-value that no listed one exceeds is the maximum: the Q-value of the
   * greedy action.
   */
  lemma MaxQIsBestValue(t: Table, state: nat, actions: seq<nat>, m: real, at: nat)
    requires RowFits(t, state, actions) && at < |actions| && m == t[state][actions[at]]
    requires Dominates(t, state, actions, m)
    ensures m == MaxQ(t, state, actions) == t[state][Greedy(t, state, actions)]
  {
    var best := Greedy(t, state, actions);
    GreedyIsFirstBest(t, state, actions);
    var kb :| 0 <= kb < |actions| && actions[kb] == best && Dominates(t, state, actions, t[state][best]);
    assert t[state][actions[at]] <= t[state][best];
    assert t[state][actions[kb]] <= m;
  }
}
