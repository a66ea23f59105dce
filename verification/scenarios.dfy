/** The two starting vectors the script's entry point searches from, and
    what a run from each of them reports. */
module Scenarios {
  import opened Knapsack
  import opened Neighbourhood
  import opened Step
  import opened Search

  /** The first sample start: weight 16, score 58. */
  const FullStart: Vector := [0, 1, 1, 1, 0, 0, 1, 1, 1]

  /** The second sample start: weight 9, score 30. */
  const LightStart: Vector := [0, 1, 0, 1, 0, 0, 0, 1, 0]

  /** The vectors the climb from LightStart passes through. */
  const Climb1: Vector := [0, 1, 0, 1, 1, 0, 0, 1, 0]
  const Climb2: Vector := [0, 1, 0, 1, 1, 0, 0, 1, 1]
  const Climb3: Vector := [1, 1, 0, 1, 1, 0, 0, 1, 1]

  /** One of the nine positions. */
  lemma Positions(i: int)
    requires 0 <= i < N
    ensures i == 0 || i == 1 || i == 2 || i == 3 || i == 4 || i == 5 || i == 6 || i == 7 || i == 8
  {
  }

  /** A feasible vector that no feasible neighbour beats: every free item
      is too heavy to add and every taken item is worth something. */
  lemma FullStartIsLocalOptimum()
    ensures Feasible(FullStart) && Score(FullStart) == 58
    ensures HasFeasibleNeighbour(FullStart) && LocalOptimum(FullStart)
  {
    var nh := Neighbours(FullStart);
    forall i | 0 <= i < |FullStart| && Feasible(nh[i])
      ensures Score(nh[i]) <= Score(FullStart)
    {
      Positions(i);
    }
    assert Feasible(nh[1]);
  }

  /** The search from FullStart stays where it started after one row. */
  lemma FullStartRun(out: Outcome)
    requires WellFormedRun(FullStart, out)
    ensures |out.trace| == 1 && out.finalVec == FullStart && out.finalObj == 58
  {
    FullStartIsLocalOptimum();
    EvaluateStays(FullStart);
    RecordedAt(out.trace, 0);
    RowStays(out.trace, 0);
  }

  /** A valid step from a vector whose first best neighbour improves on it
      selects that neighbour. */
  lemma StepSelects(e: Evaluation, k: nat)
    requires ValidStep(e) && FirstBest(e.current, k)
    requires Score(Neighbours(e.current)[k]) > Score(e.current)
    ensures e.best == Neighbours(e.current)[k] && e.bestObj > e.initialObj
  {
    var v := e.current;
    assert !LocalOptimum(v);
    var k' :| FirstBest(v, k') && e.best == Neighbours(v)[k'];
    FirstBestUnique(v, k, k');
  }

  /** From LightStart the first best move takes item 4. */
  lemma LightStartMove()
    ensures Score(LightStart) == 30 && Score(Climb1) == 44
    ensures FirstBest(LightStart, 4) && Neighbours(LightStart)[4] == Climb1
  {
    var nh := Neighbours(LightStart);
    forall i | 0 <= i < N && Feasible(nh[i])
      ensures Score(nh[i]) <= Score(nh[4]) && (i < 4 ==> Score(nh[i]) < Score(nh[4]))
    {
      Positions(i);
    }
  }

  /** From Climb1 the first best move takes item 8. */
  lemma Climb1Move()
    ensures Score(Climb2) == 57
    ensures FirstBest(Climb1, 8) && Neighbours(Climb1)[8] == Climb2
  {
    var nh := Neighbours(Climb1);
    forall i | 0 <= i < N && Feasible(nh[i])
      ensures Score(nh[i]) <= Score(nh[8]) && (i < 8 ==> Score(nh[i]) < Score(nh[8]))
    {
      Positions(i);
    }
  }

  /** From Climb2 the first best move takes item 0. */
  lemma Climb2Move()
    ensures Score(Climb3) == 65
    ensures FirstBest(Climb2, 0) && Neighbours(Climb2)[0] == Climb3
  {
    var nh := Neighbours(Climb2);
    forall i | 0 <= i < N && Feasible(nh[i])
      ensures Score(nh[i]) <= Score(nh[0])
    {
      Positions(i);
    }
  }

  /** Climb3 fills the knapsack to capacity: no feasible neighbour beats it. */
  lemma Climb3IsLocalOptimum()
    ensures HasFeasibleNeighbour(Climb3) && LocalOptimum(Climb3)
  {
    var nh := Neighbours(Climb3);
    forall i | 0 <= i < |Climb3| && Feasible(nh[i])
      ensures Score(nh[i]) <= Score(Climb3)
    {
      Positions(i);
    }
    assert Feasible(nh[0]);
  }

  /** A recorded row starting from a vector whose first best neighbour
      improves on it selects that neighbour. */
  lemma RowSelects(t: seq<Evaluation>, j: nat, k: nat)
    requires Recorded(t) && j < |t|
    requires FirstBest(t[j].current, k)
    requires Score(Neighbours(t[j].current)[k]) > Score(t[j].current)
    ensures t[j].best == Neighbours(t[j].current)[k] && t[j].bestObj > t[j].initialObj
  {
    RecordedAt(t, j);
    StepSelects(t[j], k);
  }

  /** A recorded row starting from a local optimum stays there. */
  lemma RowStays(t: seq<Evaluation>, j: nat)
    requires Recorded(t) && j < |t|
    requires LocalOptimum(t[j].current)
    ensures t[j].best == t[j].current && t[j].bestObj == t[j].initialObj
  {
    RecordedAt(t, j);
  }

  /** The search from LightStart records three rows, starting from Climb1,
      Climb2 and Climb3, and reports Climb3 with score 65. */
  lemma LightStartRun(out: Outcome)
    requires WellFormedRun(LightStart, out)
    ensures |out.trace| == 3
    ensures out.trace[0].current == Climb1
    ensures out.trace[1].current == Climb2
    ensures out.trace[2].current == Climb3
    ensures out.finalVec == Climb3 && out.finalObj == 65
  {
    var t := out.trace;
    LightStartMove();
    Climb1Move();
    Climb2Move();
    Climb3IsLocalOptimum();
    var k := EvaluateImproves(LightStart);
    FirstBestUnique(LightStart, 4, k);
    assert t[0].current == Climb1;
    RowSelects(t, 0, 8);
    ImprovingRowContinues(LightStart, out, 0);
    RowSelects(t, 1, 0);
    ImprovingRowContinues(LightStart, out, 1);
    RowStays(t, 2);
    assert |t| == 3;
  }
}
