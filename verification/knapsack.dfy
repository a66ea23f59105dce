/** The fixed 9-item 0/1 knapsack instance: the objective to maximise and
    the single capacity constraint, both linear in the decision vector. */
module Knapsack {

  /** Number of items. */
  const N: nat := 9

  /** Objective coefficient of each item. */
  const Values: seq<int> := [8, 11, 9, 12, 14, 10, 6, 7, 13]

  /** Capacity coefficient of each item. */
  const Weights: seq<int> := [1, 2, 3, 2, 3, 4, 1, 5, 3]

  /** Bound on the total weight of a feasible vector. */
  const Capacity: int := 16

  /** Sum of all values: the score of taking every item. */
  const MaxScore: int := 90

  /** A decision vector. Entry i says whether item i is taken. The objective
      and the constraint read the first N entries only, so a longer vector is
      accepted: its extra entries are neither scored nor weighed, but they are
      flipped like any other entry when its neighbourhood is built. */
  type Vector = v: seq<int> | |v| >= N witness [0, 0, 0, 0, 0, 0, 0, 0, 0]

  /** Every entry is 0 or 1. */
  predicate IsBinary(v: seq<int>) {
    forall i :: 0 <= i < |v| ==> v[i] == 0 || v[i] == 1
  }

  /** The weighted sum of the first n entries of v with coefficients c. */
  function WeightedSum(c: seq<int>, v: seq<int>, n: nat): int
    requires n <= |c| && n <= |v|
  {
    if n == 0 then 0 else WeightedSum(c, v, n - 1) + c[n - 1] * v[n - 1]
  }

  /** The objective: the value of the items v takes. */
  function Score(v: Vector): (z: int)
    ensures IsBinary(v) ==> 0 <= z <= MaxScore
  {
    8 * v[0] + 11 * v[1] + 9 * v[2] + 12 * v[3] + 14 * v[4]
    + 10 * v[5] + 6 * v[6] + 7 * v[7] + 13 * v[8]
  }

  /** Left-hand side of the capacity constraint: the weight of the items v takes. */
  function Load(v: Vector): (lhs: int)
  {
    v[0] + 2 * v[1] + 3 * v[2] + 2 * v[3] + 3 * v[4]
    + 4 * v[5] + v[6] + 5 * v[7] + 3 * v[8]
  }

  /** The capacity constraint holds. */
  predicate Feasible(v: Vector) {
    Load(v) <= Capacity
  }

  /** A weighted sum over the N items written out term by term. */
  lemma WeightedSumOfNine(c: seq<int>, v: seq<int>)
    requires N <= |c| && N <= |v|
    ensures WeightedSum(c, v, N)
            == c[0] * v[0] + c[1] * v[1] + c[2] * v[2] + c[3] * v[3] + c[4] * v[4]
               + c[5] * v[5] + c[6] * v[6] + c[7] * v[7] + c[8] * v[8]
  {
    assert WeightedSum(c, v, 1) == c[0] * v[0];
    assert WeightedSum(c, v, 2) == WeightedSum(c, v, 1) + c[1] * v[1];
    assert WeightedSum(c, v, 4) == WeightedSum(c, v, 2) + c[2] * v[2] + c[3] * v[3];
    assert WeightedSum(c, v, 6) == WeightedSum(c, v, 4) + c[4] * v[4] + c[5] * v[5];
    assert WeightedSum(c, v, 8) == WeightedSum(c, v, 6) + c[6] * v[6] + c[7] * v[7];
  }

  /** The objective is the value-weighted sum of the vector. */
  lemma ScoreIsValueSum(v: Vector)
    ensures Score(v) == WeightedSum(Values, v, N)
  {
    WeightedSumOfNine(Values, v);
  }

  /** The load is the weight-weighted sum of the vector, and feasibility is
      exactly the capacity check on it. */
  lemma FeasibleIsCapacityCheck(v: Vector)
    ensures Load(v) == WeightedSum(Weights, v, N)
    ensures Feasible(v) <==> WeightedSum(Weights, v, N) <= Capacity
  {
    WeightedSumOfNine(Weights, v);
  }

  /** MaxScore is the sum of all values, the score of taking every item. */
  lemma MaxScoreIsTotalValue()
    ensures WeightedSum(Values, [1, 1, 1, 1, 1, 1, 1, 1, 1], N) == MaxScore
  {
  }

  /** Changing one entry moves a weighted sum by that entry's coefficient
      times the change, and not at all when the entry is past the summed prefix. */
  lemma {:induction false} WeightedSumUpdate(c: seq<int>, v: seq<int>, n: nat, i: nat, x: int)
    requires n <= |c| && n <= |v| && i < |v|
    ensures WeightedSum(c, v[i := x], n)
            == WeightedSum(c, v, n) + (if i < n then c[i] * (x - v[i]) else 0)
  {
    if n > 0 {
      WeightedSumUpdate(c, v, n - 1, i, x);
    }
  }

  /** With non-negative coefficients a weighted sum is monotone in the vector. */
  lemma {:induction false} WeightedSumMonotone(c: seq<int>, v: seq<int>, w: seq<int>, n: nat)
    requires n <= |c| && n <= |v| && n <= |w|
    requires forall j :: 0 <= j < n ==> c[j] >= 0 && v[j] <= w[j]
    ensures WeightedSum(c, v, n) <= WeightedSum(c, w, n)
  {
    if n > 0 {
      WeightedSumMonotone(c, v, w, n - 1);
      assert c[n - 1] * v[n - 1] <= c[n - 1] * w[n - 1] by {
        assert c[n - 1] >= 0 && v[n - 1] <= w[n - 1];
      }
    }
  }

  /** Taking fewer items never breaks the capacity constraint: a vector that
      is entrywise below a feasible one is feasible. */
  lemma FeasibleDownwardClosed(v: Vector, w: Vector)
    requires Feasible(w)
    requires forall j :: 0 <= j < N ==> v[j] <= w[j]
    ensures Feasible(v)
  {
    FeasibleIsCapacityCheck(v);
    FeasibleIsCapacityCheck(w);
    WeightedSumMonotone(Weights, v, w, N);
  }

  /** Dropping a taken item from a feasible vector keeps it feasible. */
  lemma DropKeepsFeasible(v: Vector, i: nat)
    requires i < |v| && v[i] == 1 && Feasible(v)
    ensures Feasible(v[i := 0])
  {
    FeasibleIsCapacityCheck(v);
    FeasibleIsCapacityCheck(v[i := 0]);
    WeightedSumUpdate(Weights, v, N, i, 0);
  }
}
