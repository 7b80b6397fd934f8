/**
 * The lab environment the learner drives. The lab itself (a W3C Thing Description
 * accessed over HTTP) is external to the learner; it is modelled here only at the
 * boundary the learner uses: a finite state space whose states decode to 7-element
 * vectors, per-state lists of applicable actions, a transition for each action, the
 * compatible-state query, and the live "current state" that performing an action moves.
 */
module Environment {

  datatype Option<T> = None | Some(value: T)

  /** The decoded state: [z1Level, z2Level, z1Light, z2Light, z1Blinds, z2Blinds, sunshine]. */
  type StateVector = seq<int>

  /** A partial state description; `None` is a "don't care" entry. */
  type Descriptor = seq<Option<int>>

  const VectorLength: nat := 7
  const Z1Level: nat := 0
  const Z2Level: nat := 1
  const Z1Light: nat := 2
  const Z2Light: nat := 3
  const Z1Blinds: nat := 4
  const Z2Blinds: nat := 5
  const Sunshine: nat := 6

  /** Highest illumination level of a zone. */
  const MaxLevel: int := 3

  /** One performed action, together with the state it was performed in. */
  datatype Move = Move(from: nat, action: nat)

  /**
   * The outcomes of `java.util.Random`, supplied from outside: for episode e and step t,
   * `explore(e, t)` is the `nextDouble()` draw, `pick(e, t)` the raw draw behind
   * `nextInt(n)` during action choice, and `reset(e, i)` the raw draw behind `nextInt(n)`
   * in the i-th move of the episode reset. A raw draw is reduced with `% n`, so every
   * index in [0, n) can be supplied.
   */
  datatype Draws = Draws(explore: (nat, nat) -> real, pick: (nat, nat) -> nat, reset: (nat, nat) -> nat)

  /** Whether a state vector agrees with a descriptor on every entry the descriptor fixes. */
  predicate Matches(v: StateVector, d: Descriptor) {
    |v| == |d| && forall i :: 0 <= i < |d| && d[i].Some? ==> v[i] == d[i].value
  }

  datatype Dynamics = Dynamics(
    stateCount: nat,
    actionCount: nat,
    vectors: seq<StateVector>,     // index -> decoded state vector
    applicable: seq<seq<nat>>,     // index -> applicable actions, in the lab's order
    next: seq<seq<nat>>)           // index, action -> resulting index
  {
    ghost predicate Valid() {
      && |vectors| == stateCount
      && |applicable| == stateCount
      && |next| == stateCount
      && (forall s :: 0 <= s < stateCount ==> |vectors[s]| == VectorLength)
      && (forall s :: 0 <= s < stateCount ==> |next[s]| == actionCount)
      && (forall s, a :: 0 <= s < stateCount && a in applicable[s] ==> a < actionCount)
      && (forall s, a :: 0 <= s < stateCount && 0 <= a < actionCount ==> next[s][a] < stateCount)
    }

    /** Both illumination levels of every state lie in [0, MaxLevel]. */
    ghost predicate LevelsInRange() {
      Valid() &&
      forall s :: 0 <= s < stateCount ==>
        0 <= vectors[s][Z1Level] <= MaxLevel && 0 <= vectors[s][Z2Level] <= MaxLevel
    }

    /** Every state has at least one applicable action. */
    ghost predicate NoDeadEnds() {
      Valid() && forall s :: 0 <= s < stateCount ==> applicable[s] != []
    }

    function Applicable(s: nat): (actions: seq<nat>)
      requires Valid() && s < stateCount
      ensures forall k :: 0 <= k < |actions| ==> actions[k] < actionCount
    {
      assert forall k :: 0 <= k < |applicable[s]| ==> applicable[s][k] in applicable[s];
      applicable[s]
    }

    /** The lab accepts move m: its action is applicable in its state. */
    ghost predicate Permits(m: Move) {
      Valid() && m.from < stateCount && m.action in applicable[m.from]
    }

    function After(m: Move): (t: nat)
      requires Permits(m)
      ensures t < stateCount
    {
      next[m.from][m.action]
    }

    /**
     * The lab's compatible-state query: the states, in index order, whose vector
     * matches the descriptor.
     */
    function CompatibleStates(d: Descriptor): (r: seq<nat>)
      requires Valid()
      ensures forall s :: s in r <==> 0 <= s < stateCount && Matches(vectors[s], d)
    {
      CompatibleFrom(d, 0)
    }

    function CompatibleFrom(d: Descriptor, lo: nat): (r: seq<nat>)
      requires Valid() && lo <= stateCount
      ensures forall s :: s in r <==> lo <= s < stateCount && Matches(vectors[s], d)
      decreases stateCount - lo
    {
      if lo == stateCount then []
      else (if Matches(vectors[lo], d) then [lo] else []) + CompatibleFrom(d, lo + 1)
    }

    /**
     * `moves` is a run of the lab from state s: each action is applicable in the
     * state it is performed in, and that state is the one the previous move led to.
     */
    ghost predicate IsRun(s: nat, moves: seq<Move>) {
      && Valid() && s < stateCount
      && (forall k :: 0 <= k < |moves| ==> Permits(moves[k]))
      && (|moves| > 0 ==> moves[0].from == s)
      && (forall j, k :: 0 <= j && k == j + 1 && k < |moves| ==> moves[k].from == After(moves[j]))
    }

    /** The state a run from s ends in. */
    ghost function End(s: nat, moves: seq<Move>): (t: nat)
      requires IsRun(s, moves)
      ensures t < stateCount
    {
      if moves == [] then s else After(moves[|moves| - 1])
    }
  }

  /** Extending a run by one permitted move from its end state gives a run. */
  lemma RunSnoc(dyn: Dynamics, s: nat, moves: seq<Move>, m: Move)
    requires dyn.IsRun(s, moves) && dyn.Permits(m) && m.from == dyn.End(s, moves)
    ensures dyn.IsRun(s, moves + [m]) && dyn.End(s, moves + [m]) == dyn.After(m)
  {
    var ms := moves + [m];
    forall k | 0 <= k < |ms|
      ensures dyn.Permits(ms[k])
      ensures ms[k].from == if k == 0 then s else dyn.After(ms[k - 1])
    {
      if k < |moves| {
        assert ms[k] == moves[k];
        if k > 0 { assert ms[k - 1] == moves[k - 1]; }
      } else {
        assert ms[k] == m;
        if k > 0 { assert ms[k - 1] == moves[|moves| - 1]; }
      }
    }
    assert dyn.IsRun(s, ms);
  }

  /** Appending x to a + b appends it to b. */
  lemma AppendSnoc<T>(a: seq<T>, b: seq<T>, x: T)
    ensures (a + b) + [x] == a + (b + [x])
  {
  }

  /** Two sequences that extend the same prefix equally are equal. */
  lemma AppendCancel<T>(a: seq<T>, b: seq<T>, c: seq<T>)
    requires a + b == a + c
    ensures b == c
  {
    assert b == (a + b)[|a|..];
    assert c == (a + c)[|a|..];
  }

  /** Prefixing a run from After(m) with the permitted move m gives a run from m's state. */
  lemma RunCons(dyn: Dynamics, m: Move, moves: seq<Move>)
    requires dyn.Permits(m) && dyn.IsRun(dyn.After(m), moves)
    ensures dyn.IsRun(m.from, [m] + moves)
    ensures dyn.End(m.from, [m] + moves) == dyn.End(dyn.After(m), moves)
  {
    var ms := [m] + moves;
    forall k | 0 <= k < |ms|
      ensures dyn.Permits(ms[k])
      ensures ms[k].from == if k == 0 then m.from else dyn.After(ms[k - 1])
    {
      if k > 0 {
        assert ms[k] == moves[k - 1];
        if k > 1 { assert ms[k - 1] == moves[k - 2]; }
      }
    }
    if moves != [] { assert ms[|ms| - 1] == moves[|moves| - 1]; }
  }

  /**
   * The live lab: its fixed dynamics and the state it is currently in. The ghost
   * `history` records every action performed on it, with the state it was taken in.
   */
  class Lab {
    const dyn: Dynamics
    var current: nat
    ghost var history: seq<Move>

    ghost predicate Valid()
      reads this
    {
      dyn.Valid() && current < dyn.stateCount
    }

    constructor (dyn: Dynamics, start: nat)
      requires dyn.Valid() && start < dyn.stateCount
      ensures Valid() && this.dyn == dyn && current == start && history == []
    {
      this.dyn := dyn;
      current := start;
      history := [];
    }

    method ReadCurrentState() returns (s: nat)
      requires Valid()
      ensures s == current && s < dyn.stateCount
    {
      s := current;
    }

    /** The decoded vector of the current state. */
    function CurrentVector(): (v: StateVector)
      requires Valid()
      reads this
      ensures |v| == VectorLength
    {
      dyn.vectors[current]
    }

    /** Performs an action; the lab rejects actions that are not applicable. */
    method PerformAction(a: nat)
      requires Valid() && a in dyn.Applicable(current)
      modifies this`current, this`history
      ensures Valid()
      ensures current == dyn.After(Move(old(current), a))
      ensures history == old(history) + [Move(old(current), a)]
    {
      history := history + [Move(current, a)];
      current := dyn.next[current][a];
    }
  }
}
