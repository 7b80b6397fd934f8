/**
 * The Q-table (rows are states, columns are actions) and the Q-learning update of a
 * single entry: Q[s][a] <- Q[s][a] + alpha * (reward + gamma * maxQNext - Q[s][a]).
 */
module QTables {

  /** A Q-table as a value: one row per state, one entry per action. */
  type Table = seq<seq<real>>

  /** t has n rows of m entries each. */
  predicate Shaped(t: Table, n: nat, m: nat) {
    |t| == n && forall i :: 0 <= i < n ==> |t[i]| == m
  }

  /** The table of n rows of m zeros. */
  function Zeros(n: nat, m: nat): (t: Table)
    ensures Shaped(t, n, m)
    ensures forall i, j :: 0 <= i < n && 0 <= j < m ==> t[i][j] == 0.0
  {
    seq(n, _ => seq(m, _ => 0.0))
  }

  /** t with entry [s][a] replaced by v. */
  function SetEntry(t: Table, s: nat, a: nat, v: real): (r: Table)
    requires s < |t| && a < |t[s]|
    ensures |r| == |t| && forall i :: 0 <= i < |t| ==> |r[i]| == |t[i]|
  {
    t[s := t[s][a := v]]
  }

  /** Entry [s][a] of SetEntry(t, s, a, v) is v; every other entry is t's. */
  lemma SetEntryEntries(t: Table, s: nat, a: nat, v: real)
    requires s < |t| && a < |t[s]|
    ensures forall i, j :: 0 <= i < |t| && 0 <= j < |t[i]| ==>
              SetEntry(t, s, a, v)[i][j] == if i == s && j == a then v else t[i][j]
  {
  }

  /** The contents of the array q, as a table. */
  ghost function TableOf(q: array2<real>): (t: Table)
    reads q
    ensures Shaped(t, q.Length0, q.Length1)
    ensures forall i, j :: 0 <= i < q.Length0 && 0 <= j < q.Length1 ==> t[i][j] == q[i, j]
  {
    RowsFrom(q, 0)
  }

  /** Rows i, i + 1, ... of the array q. */
  ghost function RowsFrom(q: array2<real>, i: nat): (rows: Table)
    requires i <= q.Length0
    reads q
    ensures |rows| == q.Length0 - i
    ensures forall k :: 0 <= k < |rows| ==> |rows[k]| == q.Length1
    ensures forall k, j :: 0 <= k < |rows| && 0 <= j < q.Length1 ==> rows[k][j] == q[i + k, j]
    decreases q.Length0 - i
  {
    if i == q.Length0 then [] else [RowFrom(q, i, 0)] + RowsFrom(q, i + 1)
  }

  /** Entries j, j + 1, ... of row i of the array q. */
  ghost function RowFrom(q: array2<real>, i: nat, j: nat): (row: seq<real>)
    requires i < q.Length0 && j <= q.Length1
    reads q
    ensures |row| == q.Length1 - j
    ensures forall k :: 0 <= k < |row| ==> row[k] == q[i, j + k]
    decreases q.Length1 - j
  {
    if j == q.Length1 then [] else [q[i, j]] + RowFrom(q, i, j + 1)
  }

  /** Two tables of the same shape with the same entries are the same table. */
  lemma SameEntries(t: Table, u: Table, n: nat, m: nat)
    requires Shaped(t, n, m) && Shaped(u, n, m)
    requires forall i, j :: 0 <= i < n && 0 <= j < m ==> t[i][j] == u[i][j]
    ensures t == u
  {
    forall i | 0 <= i < n
      ensures t[i] == u[i]
    {
      assert forall j :: 0 <= j < m ==> t[i][j] == u[i][j];
    }
  }

  /** The value the update rule gives an entry whose value was `current`. */
  function QUpdate(current: real, reward: real, maxQNext: real, alpha: real, gamma: real): real {
    current + alpha * (reward + gamma * maxQNext - current)
  }

  /** Every entry of the table lies in [lo, hi]. */
  ghost predicate Within(q: array2<real>, lo: real, hi: real)
    reads q
  {
    forall i, j :: 0 <= i < q.Length0 && 0 <= j < q.Length1 ==> lo <= q[i, j] <= hi
  }

  /**
   * For a learning rate in [0, 1] the updated value lies between the old value and
   * the target reward + gamma * maxQNext; alpha = 0 keeps it and alpha = 1 replaces it.
   */
  lemma UpdateBetween(current: real, reward: real, maxQNext: real, alpha: real, gamma: real)
    requires 0.0 <= alpha <= 1.0
    ensures var target := reward + gamma * maxQNext;
            var v := QUpdate(current, reward, maxQNext, alpha, gamma);
            (current <= target ==> current <= v <= target) &&
            (target <= current ==> target <= v <= current) &&
            (alpha == 0.0 ==> v == current) &&
            (alpha == 1.0 ==> v == target)
  {
    var target := reward + gamma * maxQNext;
    var v := QUpdate(current, reward, maxQNext, alpha, gamma);
    var d := target - current;
    assert v == current + alpha * d;
    assert target - v == (1.0 - alpha) * d;
    if d >= 0.0 {
      MulNonNegative(alpha, d);
      MulNonNegative(1.0 - alpha, d);
    } else {
      MulNonNegative(alpha, -d);
      MulNonNegative(1.0 - alpha, -d);
    }
  }

  lemma MulNonNegative(x: real, y: real)
    requires x >= 0.0 && y >= 0.0
    ensures x * y >= 0.0
  {
  }

  /**
   * With a discount factor below 1 and rewards in [rlo, rhi], the interval
   * [rlo / (1 - gamma), rhi / (1 - gamma)] is closed under the update: if the old
   * value and maxQNext lie in it, so does the updated value.
   */
  lemma UpdateStaysWithin(current: real, reward: real, maxQNext: real, alpha: real, gamma: real, rlo: real, rhi: real)
    requires 0.0 <= alpha <= 1.0 && 0.0 <= gamma < 1.0
    requires rlo <= reward <= rhi
    requires rlo / (1.0 - gamma) <= current <= rhi / (1.0 - gamma)
    requires rlo / (1.0 - gamma) <= maxQNext <= rhi / (1.0 - gamma)
    ensures rlo / (1.0 - gamma) <= QUpdate(current, reward, maxQNext, alpha, gamma) <= rhi / (1.0 - gamma)
  {
    var lo, hi := rlo / (1.0 - gamma), rhi / (1.0 - gamma);
    assert lo * (1.0 - gamma) == rlo && hi * (1.0 - gamma) == rhi;
    assert gamma * (maxQNext - lo) >= 0.0;
    assert gamma * (hi - maxQNext) >= 0.0;
    var target := reward + gamma * maxQNext;
    assert lo <= target <= hi;
    UpdateBetween(current, reward, maxQNext, alpha, gamma);
  }

  /**
   * The update step of the training loop: replaces entry [s, a] by its updated value
   * and leaves every other entry as it was.
   */
  method UpdateQValue(q: array2<real>, s: nat, a: nat, reward: real, maxQNext: real, alpha: real, gamma: real)
    requires s < q.Length0 && a < q.Length1
    modifies q
    ensures q[s, a] == QUpdate(old(q[s, a]), reward, maxQNext, alpha, gamma)
    ensures forall i, j :: 0 <= i < q.Length0 && 0 <= j < q.Length1 && (i != s || j != a) ==> q[i, j] == old(q[i, j])
    ensures TableOf(q) == SetEntry(old(TableOf(q)), s, a, QUpdate(old(q[s, a]), reward, maxQNext, alpha, gamma))
  {
    ghost var before := TableOf(q);
    q[s, a] := q[s, a] + alpha * (reward + gamma * maxQNext - q[s, a]);
    SetEntryEntries(before, s, a, q[s, a]);
    SameEntries(TableOf(q), SetEntry(before, s, a, q[s, a]), q.Length0, q.Length1);
  }
}
