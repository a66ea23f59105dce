/** One improve-or-stay step of the hill climber: score the feasible
    neighbours of the current vector, take the first one with the highest
    score, and move to it only when it strictly beats the current score. */
module Step {
  import opened Knapsack
  import opened Neighbourhood

  /** Why a step, and so a search, could not complete. */
  datatype SearchError = NoFeasibleNeighbour(at: Vector)

  datatype Result<T> = Success(value: T) | Failure(error: SearchError)

  /** One entry of the per-neighbour status list. */
  datatype Status = Objective(z: int) | Infeasible

  /** Everything one step reports: the vector it started from and its score,
      the selected vector and its score, the neighbourhood and its status list. */
  datatype Evaluation = Evaluation(
    initialObj: int,
    current: Vector,
    bestObj: int,
    best: Vector,
    neighbourhood: seq<Vector>,
    status: seq<Status>)

  /** Some neighbour of v satisfies the capacity constraint. */
  ghost predicate HasFeasibleNeighbour(v: Vector) {
    exists i :: 0 <= i < |v| && Feasible(Neighbours(v)[i])
  }

  /** No feasible neighbour of v scores strictly more than v. */
  ghost predicate LocalOptimum(v: Vector) {
    forall i :: 0 <= i < |v| && Feasible(Neighbours(v)[i]) ==> Score(Neighbours(v)[i]) <= Score(v)
  }

  /** Vector k of ws is feasible, scores at least as much as every feasible
      vector of ws, and strictly more than every feasible vector before it. */
  ghost predicate FirstBestIn(ws: seq<Vector>, k: int) {
    && 0 <= k < |ws|
    && Feasible(ws[k])
    && (forall i :: 0 <= i < |ws| && Feasible(ws[i]) ==> Score(ws[i]) <= Score(ws[k]))
    && (forall i :: 0 <= i < k && Feasible(ws[i]) ==> Score(ws[i]) < Score(ws[k]))
  }

  /** Neighbour k of v is its first best neighbour. */
  ghost predicate FirstBest(v: Vector, k: int) {
    FirstBestIn(Neighbours(v), k)
  }

  /** A declarative description of one step's report: e starts from a
      vector with a feasible neighbour, carries that vector's score,
      neighbourhood and status list, and selects the vector itself at a local
      optimum and its first best neighbour otherwise. */
  ghost predicate ValidStep(e: Evaluation) {
    var v := e.current;
    && HasFeasibleNeighbour(v)
    && e.initialObj == Score(v)
    && e.neighbourhood == Neighbours(v)
    && e.status == StatusList(Neighbours(v))
    && e.bestObj == Score(e.best)
    && (LocalOptimum(v) ==> e.best == v)
    && (!LocalOptimum(v) ==> exists k :: FirstBest(v, k) && e.best == Neighbours(v)[k])
  }

  /** The status list: in neighbourhood order, each neighbour's score when it
      is feasible and the infeasible marker when it is not. */
  function StatusList(nh: seq<Vector>): (st: seq<Status>)
    ensures |st| == |nh|
    ensures forall i :: 0 <= i < |nh| ==> (st[i].Objective? <==> Feasible(nh[i]))
    ensures forall i :: 0 <= i < |nh| && st[i].Objective? ==> st[i].z == Score(nh[i])
  {
    if |nh| == 0 then []
    else
      var last := nh[|nh| - 1];
      StatusList(nh[..|nh| - 1]) + (if Feasible(last) then [Objective(Score(last))] else [Infeasible])
  }

  /** The feasible vectors of nh, in their original order. */
  function FeasibleOnly(nh: seq<Vector>): (valid: seq<Vector>)
    ensures |valid| <= |nh|
    ensures forall w :: w in valid <==> w in nh && Feasible(w)
  {
    if |nh| == 0 then []
    else (if Feasible(nh[0]) then [nh[0]] else []) + FeasibleOnly(nh[1..])
  }

  /** Filtering keeps the order: the feasible vectors of a + b are those of
      a followed by those of b. */
  lemma {:induction false} FeasibleOnlyAppend(a: seq<Vector>, b: seq<Vector>)
    ensures FeasibleOnly(a + b) == FeasibleOnly(a) + FeasibleOnly(b)
  {
    if |a| > 0 {
      assert (a + b)[1..] == a[1..] + b;
      FeasibleOnlyAppend(a[1..], b);
    } else {
      assert a + b == b;
    }
  }

  /** The score of each vector, in order. */
  function Scores(ws: seq<Vector>): (zs: seq<int>)
    ensures |zs| == |ws|
    ensures forall j :: 0 <= j < |ws| ==> zs[j] == Score(ws[j])
  {
    if |ws| == 0 then [] else [Score(ws[0])] + Scores(ws[1..])
  }

  /** The largest element of a non-empty list. */
  function Max(xs: seq<int>): (m: int)
    requires |xs| > 0
    ensures m in xs
    ensures forall x :: x in xs ==> x <= m
  {
    if |xs| == 1 then xs[0]
    else
      var rest := Max(xs[1..]);
      assert xs == [xs[0]] + xs[1..];
      if xs[0] >= rest then xs[0] else rest
  }

  /** The position of the first occurrence of x in xs. */
  function IndexOf(xs: seq<int>, x: int): (k: nat)
    requires x in xs
    ensures k < |xs| && xs[k] == x
    ensures forall j :: 0 <= j < k ==> xs[j] != x
  {
    if xs[0] == x then 0 else 1 + IndexOf(xs[1..], x)
  }

  /** One step from v. It fails when no neighbour is feasible (the maximum
      over an empty list); otherwise it keeps v unless the best feasible
      neighbour strictly improves on it. */
  function Evaluate(v: Vector): (r: Result<Evaluation>)
    ensures r.Failure? <==> !HasFeasibleNeighbour(v)
    ensures r.Failure? ==> r.error.at == v
    ensures r.Success? ==>
              && r.value.current == v
              && r.value.initialObj == Score(v)
              && r.value.neighbourhood == Neighbours(v)
              && r.value.status == StatusList(Neighbours(v))
              && r.value.bestObj == Score(r.value.best)
              && r.value.bestObj >= r.value.initialObj
              && (r.value.bestObj == r.value.initialObj ==> r.value.best == v)
  {
    var initialObj := Score(v);
    var nh := Neighbours(v);
    var valid := FeasibleOnly(nh);
    var status := StatusList(nh);
    var validObjs := Scores(valid);
    if |validObjs| == 0 then
      assert forall i :: 0 <= i < |v| ==> nh[i] in nh;
      Failure(NoFeasibleNeighbour(v))
    else
      assert valid[0] in nh && Feasible(valid[0]);
      var maxValid := Max(validObjs);
      if maxValid > initialObj then
        var ind := IndexOf(validObjs, maxValid);
        Success(Evaluation(initialObj, v, maxValid, valid[ind], nh, status))
      else
        Success(Evaluation(initialObj, v, initialObj, v, nh, status))
  }

  /** Every feasible vector of nh scores at most the maximum over the
      scores of the feasible ones. */
  lemma MaxBoundsFeasible(nh: seq<Vector>, i: nat)
    requires i < |nh| && Feasible(nh[i])
    ensures |Scores(FeasibleOnly(nh))| > 0
    ensures Score(nh[i]) <= Max(Scores(FeasibleOnly(nh)))
  {
    var valid := FeasibleOnly(nh);
    assert nh[i] in valid;
    var j :| 0 <= j < |valid| && valid[j] == nh[i];
    assert Scores(valid)[j] == Score(nh[i]) && Scores(valid)[j] in Scores(valid);
  }

  /** Scoring a list with a vector in front puts its score in front. */
  lemma ScoresCons(w: Vector, ws: seq<Vector>)
    ensures Scores([w] + ws) == [Score(w)] + Scores(ws)
  {
  }

  /** The first occurrence of m past a different front element is one past
      its first occurrence in the tail. */
  lemma IndexOfCons(x: int, xs: seq<int>, m: int)
    requires m in xs && x != m
    ensures m in [x] + xs && IndexOf([x] + xs, m) == 1 + IndexOf(xs, m)
  {
  }

  /** The highest feasible score is the score of some feasible vector of ws. */
  lemma MaxIsAttained(ws: seq<Vector>) returns (i: nat)
    requires |Scores(FeasibleOnly(ws))| > 0
    ensures i < |ws| && Feasible(ws[i]) && Score(ws[i]) == Max(Scores(FeasibleOnly(ws)))
  {
    var valid := FeasibleOnly(ws);
    var j :| 0 <= j < |valid| && Scores(valid)[j] == Max(Scores(valid));
    assert valid[j] in ws;
    i :| 0 <= i < |ws| && ws[i] == valid[j];
  }

  /** When the front vector of nh is not a feasible vector scoring m, the
      first occurrence of m among the feasible scores lies in the rest. */
  lemma SkipFront(nh: seq<Vector>, m: int)
    requires m in Scores(FeasibleOnly(nh))
    requires |nh| > 0 && !(Feasible(nh[0]) && Score(nh[0]) == m)
    ensures m in Scores(FeasibleOnly(nh[1..]))
    ensures FeasibleOnly(nh)[IndexOf(Scores(FeasibleOnly(nh)), m)]
            == FeasibleOnly(nh[1..])[IndexOf(Scores(FeasibleOnly(nh[1..])), m)]
  {
    var rest := FeasibleOnly(nh[1..]);
    if Feasible(nh[0]) {
      assert FeasibleOnly(nh) == [nh[0]] + rest;
      ScoresCons(nh[0], rest);
      IndexOfCons(Score(nh[0]), Scores(rest), m);
    } else {
      assert FeasibleOnly(nh) == rest;
    }
  }

  /** The first occurrence of m among the feasible scores is the first
      feasible vector of nh that scores m. */
  lemma {:induction false} FirstOccurrence(nh: seq<Vector>, m: int) returns (k: nat)
    requires m in Scores(FeasibleOnly(nh))
    ensures k < |nh| && Feasible(nh[k]) && Score(nh[k]) == m
    ensures FeasibleOnly(nh)[IndexOf(Scores(FeasibleOnly(nh)), m)] == nh[k]
    ensures forall i :: 0 <= i < k && Feasible(nh[i]) ==> Score(nh[i]) != m
  {
    assert |nh| > 0;
    if Feasible(nh[0]) && Score(nh[0]) == m {
      assert FeasibleOnly(nh) == [nh[0]] + FeasibleOnly(nh[1..]);
      ScoresCons(nh[0], FeasibleOnly(nh[1..]));
      k := 0;
    } else {
      var tail := nh[1..];
      SkipFront(nh, m);
      var k' := FirstOccurrence(tail, m);
      k := k' + 1;
      forall i | 0 <= i < k && Feasible(nh[i])
        ensures Score(nh[i]) != m
      {
        if i > 0 {
          assert nh[i] == tail[i - 1];
        }
      }
    }
  }

  /** The first position of the highest score among the feasible vectors
      of ws picks out the first best of them. */
  lemma MaxSelectsFirstBest(ws: seq<Vector>, i: nat) returns (k: nat)
    requires i < |ws| && Feasible(ws[i])
    ensures |Scores(FeasibleOnly(ws))| > 0
    ensures FirstBestIn(ws, k)
    ensures var zs := Scores(FeasibleOnly(ws));
            && Max(zs) == Score(ws[k])
            && FeasibleOnly(ws)[IndexOf(zs, Max(zs))] == ws[k]
  {
    MaxBoundsFeasible(ws, i);
    var m := Max(Scores(FeasibleOnly(ws)));
    k := FirstOccurrence(ws, m);
    forall j | 0 <= j < |ws| && Feasible(ws[j])
      ensures Score(ws[j]) <= m
    {
      MaxBoundsFeasible(ws, j);
    }
  }

  /** Away from a local optimum, the first position of the highest feasible
      score picks out the first best neighbour, which beats v. */
  lemma SelectionIsFirstBest(v: Vector) returns (k: nat)
    requires HasFeasibleNeighbour(v) && !LocalOptimum(v)
    ensures |Scores(FeasibleOnly(Neighbours(v)))| > 0
    ensures FirstBest(v, k)
    ensures var zs := Scores(FeasibleOnly(Neighbours(v)));
            && Max(zs) == Score(Neighbours(v)[k]) > Score(v)
            && FeasibleOnly(Neighbours(v))[IndexOf(zs, Max(zs))] == Neighbours(v)[k]
  {
    var nh := Neighbours(v);
    var i :| 0 <= i < |v| && Feasible(nh[i]) && Score(nh[i]) > Score(v);
    k := MaxSelectsFirstBest(nh, i);
    MaxBoundsFeasible(nh, i);
  }

  /** When the highest feasible score beats v, the step reports that score
      and the vector at its first position. */
  lemma EvaluateMoves(v: Vector)
    requires |Scores(FeasibleOnly(Neighbours(v)))| > 0
    requires Max(Scores(FeasibleOnly(Neighbours(v)))) > Score(v)
    ensures var zs := Scores(FeasibleOnly(Neighbours(v)));
            && Evaluate(v).Success?
            && Evaluate(v).value.bestObj == Max(zs)
            && Evaluate(v).value.best == FeasibleOnly(Neighbours(v))[IndexOf(zs, Max(zs))]
  {
  }

  /** When v is not a local optimum the step moves to its first best
      feasible neighbour, which strictly improves the score. */
  lemma EvaluateImproves(v: Vector) returns (k: nat)
    requires HasFeasibleNeighbour(v) && !LocalOptimum(v)
    ensures Evaluate(v).Success?
    ensures FirstBest(v, k)
    ensures Evaluate(v).value.best == Neighbours(v)[k]
    ensures Evaluate(v).value.bestObj == Score(Neighbours(v)[k]) > Score(v)
  {
    k := SelectionIsFirstBest(v);
    EvaluateMoves(v);
  }

  /** At a local optimum with some feasible neighbour the step stays put. */
  lemma EvaluateStays(v: Vector)
    requires HasFeasibleNeighbour(v) && LocalOptimum(v)
    ensures Evaluate(v) == Success(Evaluation(Score(v), v, Score(v), v, Neighbours(v), StatusList(Neighbours(v))))
  {
    var nh := Neighbours(v);
    var i :| 0 <= i < |v| && Feasible(nh[i]);
    MaxBoundsFeasible(nh, i);
    var j := MaxIsAttained(nh);
  }

  /** A step strictly improves exactly when v is not a local optimum. */
  lemma ImprovesIffNotLocalOptimum(v: Vector)
    requires HasFeasibleNeighbour(v)
    ensures Evaluate(v).Success?
    ensures Evaluate(v).value.bestObj > Evaluate(v).value.initialObj <==> !LocalOptimum(v)
  {
    if LocalOptimum(v) {
      EvaluateStays(v);
    } else {
      var k := EvaluateImproves(v);
    }
  }

  /** At most one neighbour is the first best one: the choice is determined. */
  lemma FirstBestUnique(v: Vector, k1: int, k2: int)
    requires FirstBest(v, k1) && FirstBest(v, k2)
    ensures k1 == k2
  {
  }

  /** A step's report meets the declarative description exactly when it is
      what Evaluate returns: Evaluate meets it, and nothing else does. */
  lemma EvaluateIsValidStep(v: Vector, e: Evaluation)
    requires e.current == v
    ensures Evaluate(v) == Success(e) <==> ValidStep(e)
  {
    if HasFeasibleNeighbour(v) {
      ImprovesIffNotLocalOptimum(v);
      var f := Evaluate(v).value;
      if LocalOptimum(v) {
        EvaluateStays(v);
      } else {
        var k := EvaluateImproves(v);
        assert FirstBest(v, k) && f.best == Neighbours(v)[k];
        if ValidStep(e) {
          var k' :| FirstBest(v, k') && e.best == Neighbours(v)[k'];
          FirstBestUnique(v, k, k');
        }
      }
    }
  }

  /** A feasible binary vector has a feasible neighbour: dropping a taken
      item keeps it feasible, and an empty knapsack can take item 0. */
  lemma FeasibleHasFeasibleNeighbour(v: Vector)
    requires IsBinary(v) && Feasible(v)
    ensures HasFeasibleNeighbour(v)
  {
    var nh := Neighbours(v);
    if i :| 0 <= i < |v| && v[i] == 1 {
      assert nh[i] == v[i := 0];
      DropKeepsFeasible(v, i);
    } else {
      assert nh[0] == v[0 := 1];
      assert Feasible(nh[0]);
    }
  }

  /** A valid step strictly improves exactly when it does not start at a
      local optimum, and it then moves to a feasible vector. */
  lemma ValidStepImproves(e: Evaluation)
    requires ValidStep(e)
    ensures e.bestObj > e.initialObj <==> !LocalOptimum(e.current)
    ensures e.bestObj > e.initialObj ==> Feasible(e.best) && IsNeighbour(e.current, e.best)
  {
    var v := e.current;
    if !LocalOptimum(v) {
      var k :| FirstBest(v, k) && e.best == Neighbours(v)[k];
      var i :| 0 <= i < |v| && Feasible(Neighbours(v)[i]) && Score(Neighbours(v)[i]) > Score(v);
    }
  }
}
