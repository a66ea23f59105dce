/** The hill-climbing driver: one step from the starting vector, then steps
    from the selected vector until a step no longer improves the score,
    recording every step of the loop in a trace. */
module Search {
  import opened Knapsack
  import opened Neighbourhood
  import opened Step

  /** What a finished search reports: the final score and vector and the
      trace, one evaluation per loop iteration (the iteration number is the
      position in the trace). */
  datatype Outcome = Outcome(finalObj: int, finalVec: Vector, trace: seq<Evaluation>)

  /** Every recorded row is a valid step from its own current vector,
      stated row by row as the trace is built. */
  ghost predicate Recorded(trace: seq<Evaluation>) {
    |trace| == 0 || (Recorded(trace[..|trace| - 1]) && ValidStep(trace[|trace| - 1]))
  }

  /** Each row of a recorded trace is a valid step. */
  lemma {:induction false} RecordedAt(trace: seq<Evaluation>, j: nat)
    requires Recorded(trace) && j < |trace|
    ensures ValidStep(trace[j])
  {
    if j < |trace| - 1 {
      var p := trace[..|trace| - 1];
      RecordedAt(p, j);
      assert p[j] == trace[j];
    }
  }

  /** Every row but the last strictly improved, and the next row starts from
      the vector it selected. */
  ghost predicate Chained(trace: seq<Evaluation>) {
    forall k :: 0 <= k < |trace| - 1 ==>
      trace[k].initialObj < trace[k].bestObj && trace[k + 1].current == trace[k].best
  }

  /** The run from `initial` that the driver performs: the loop starts at the
      vector selected by a first step from `initial`, records valid chained
      rows, and stops at the first row that does not improve, whose
      selection is the reported result. */
  ghost predicate WellFormedRun(initial: Vector, out: Outcome) {
    var trace := out.trace;
    && Evaluate(initial).Success?
    && |trace| >= 1
    && trace[0].current == Evaluate(initial).value.best
    && Recorded(trace)
    && Chained(trace)
    && trace[|trace| - 1].initialObj >= trace[|trace| - 1].bestObj
    && out.finalVec == trace[|trace| - 1].best
    && out.finalObj == trace[|trace| - 1].bestObj
  }

  /** Appending a valid step keeps every row valid. */
  lemma ExtendRecorded(trace: seq<Evaluation>, step: Evaluation)
    requires Recorded(trace) && ValidStep(step)
    ensures Recorded(trace + [step])
  {
    assert (trace + [step])[..|trace|] == trace;
  }

  /** Appending a step taken from the vector that the last, improving row
      selected keeps the trace chained. */
  lemma ExtendChained(trace: seq<Evaluation>, step: Evaluation)
    requires Chained(trace)
    requires |trace| > 0 ==>
               trace[|trace| - 1].initialObj < trace[|trace| - 1].bestObj
               && trace[|trace| - 1].best == step.current
    ensures Chained(trace + [step])
  {
    var t := trace + [step];
    forall k | 0 <= k < |t| - 1
      ensures t[k].initialObj < t[k].bestObj && t[k + 1].current == t[k].best
    {
      assert t[k] == trace[k];
    }
  }

  /** Every row carries the scores of its own current and selected vectors. */
  ghost predicate Scored(trace: seq<Evaluation>) {
    forall k :: 0 <= k < |trace| ==>
      trace[k].initialObj == Score(trace[k].current) && trace[k].bestObj == Score(trace[k].best)
  }

  lemma RecordedIsScored(trace: seq<Evaluation>)
    requires Recorded(trace)
    ensures Scored(trace)
  {
    forall k | 0 <= k < |trace|
      ensures trace[k].initialObj == Score(trace[k].current) && trace[k].bestObj == Score(trace[k].best)
    {
      RecordedAt(trace, k);
    }
  }

  /** In a chained, scored trace the current scores strictly increase. */
  lemma {:induction false} ScoresIncrease(trace: seq<Evaluation>)
    requires Scored(trace) && Chained(trace)
    ensures forall j, k :: 0 <= j < k < |trace| ==> trace[j].initialObj < trace[k].initialObj
  {
    if |trace| > 1 {
      var n := |trace| - 1;
      var p := trace[..n];
      assert Scored(p) && Chained(p);
      ScoresIncrease(p);
      forall j | 0 <= j < n
        ensures trace[j].initialObj < trace[n].initialObj
      {
        assert p[j] == trace[j] && p[n - 1] == trace[n - 1];
      }
    }
  }

  /** The scores recorded by a run strictly increase from row to row. */
  lemma RunScoresIncrease(initial: Vector, out: Outcome)
    requires WellFormedRun(initial, out)
    ensures forall j, k :: 0 <= j < k < |out.trace| ==> out.trace[j].initialObj < out.trace[k].initialObj
  {
    RecordedIsScored(out.trace);
    ScoresIncrease(out.trace);
  }

  /** A run ends at a fixed point: the last row starts from the reported
      vector and selects it again, so a further step from it changes nothing. */
  lemma RunEndsAtFixedPoint(initial: Vector, out: Outcome)
    requires WellFormedRun(initial, out)
    ensures out.finalVec == out.trace[|out.trace| - 1].current
    ensures out.finalObj == Score(out.finalVec)
    ensures Evaluate(out.finalVec) == Success(out.trace[|out.trace| - 1])
    ensures HasFeasibleNeighbour(out.finalVec) && LocalOptimum(out.finalVec)
  {
    var last := out.trace[|out.trace| - 1];
    RecordedAt(out.trace, |out.trace| - 1);
    ValidStepImproves(last);
    EvaluateIsValidStep(last.current, last);
  }

  /** A row that improves is not the last one, and the next row starts from
      the vector it selected. */
  lemma ImprovingRowContinues(initial: Vector, out: Outcome, j: nat)
    requires WellFormedRun(initial, out) && j < |out.trace|
    requires out.trace[j].bestObj > out.trace[j].initialObj
    ensures j + 1 < |out.trace| && out.trace[j + 1].current == out.trace[j].best
  {
  }

  /** A step from a binary vector meets the step description and leads to a
      binary vector that again has a feasible neighbour: the vector itself
      when the step stays, a feasible neighbour when it improves. So no step
      after the first can fail. */
  lemma StepContinues(e: Evaluation)
    requires IsBinary(e.current) && Evaluate(e.current) == Success(e)
    ensures ValidStep(e)
    ensures e.bestObj > e.initialObj <==> !LocalOptimum(e.current)
    ensures e.bestObj > e.initialObj ==> Feasible(e.best)
    ensures IsBinary(e.best) && HasFeasibleNeighbour(e.best)
  {
    EvaluateIsValidStep(e.current, e);
    ValidStepImproves(e);
    if e.bestObj > e.initialObj {
      NeighboursBinary(e.current);
      FeasibleHasFeasibleNeighbour(e.best);
    }
  }

  /** Hill-climb from a binary vector. The search fails exactly when the
      starting vector has no feasible neighbour: every later vector is
      feasible, and a feasible binary vector always has one. */
  method LocalSearch(initial: Vector) returns (r: Result<Outcome>)
    requires IsBinary(initial)
    ensures r.Success? ==> WellFormedRun(initial, r.value)
    ensures r.Success? ==> LocalOptimum(r.value.finalVec)
    ensures r.Success? ==> r.value.finalObj == Score(r.value.finalVec) >= Score(initial)
    ensures r.Success? ==> r.value.finalVec == initial || Feasible(r.value.finalVec)
    ensures r.Failure? <==> !HasFeasibleNeighbour(initial)
    ensures r.Failure? ==> r.error.at == initial
    ensures HasFeasibleNeighbour(initial) && LocalOptimum(initial) ==>
              r.Success? && |r.value.trace| == 1 && r.value.finalVec == initial
  {
    var first := Evaluate(initial);
    if first.Failure? {
      return Failure(first.error);
    }
    StepContinues(first.value);
    var current := first.value.best;
    var trace: seq<Evaluation> := [];
    while true
      invariant IsBinary(current) && HasFeasibleNeighbour(current)
      invariant Score(current) >= Score(initial)
      invariant current == initial || Feasible(current)
      invariant |trace| == 0 ==> current == first.value.best
      invariant |trace| > 0 ==> trace[0].current == first.value.best
      invariant |trace| > 0 ==>
                  trace[|trace| - 1].initialObj < trace[|trace| - 1].bestObj
                  && current == trace[|trace| - 1].best
      invariant Recorded(trace) && Chained(trace)
      invariant HasFeasibleNeighbour(initial) && LocalOptimum(initial) ==>
                  |trace| == 0 && current == initial
      decreases MaxScore - Score(current)
    {
      var step := Evaluate(current).value;
      StepContinues(step);
      ExtendRecorded(trace, step);
      ExtendChained(trace, step);
      trace := trace + [step];
      if step.initialObj >= step.bestObj {
        return Success(Outcome(step.bestObj, step.best, trace));
      }
      current := step.best;
    }
  }
}
