# Knapsack local search, modelled in Dafny

This project models `LocalSearch_.py`, a steepest-ascent hill climber for a
fixed 9-item 0/1 knapsack:

- the values are 8, 11, 9, 12, 14, 10, 6, 7, 13;
- the weights are 1, 2, 3, 2, 3, 4, 1, 5, 3;
- the capacity is 16.

A decision vector says which items are taken. One step (`evaluate`) works in
four stages:

1. It builds the neighbourhood: one single-entry complement per position.
2. It records each neighbour's score, or the marker "infeasible" when the
   neighbour breaks the capacity constraint.
3. It takes the first neighbour whose feasible score is the maximum.
4. It moves there only if that score is strictly higher than the current one.

The driver (`local_search`) takes one step before its loop. The loop then
steps from the vector that first step selected. It records each step as a
trace row and stops at the first step that does not improve.

Modules follow the script's components:

- `Knapsack` (knapsack.dfy): the instance, the objective `Score` (`obj_fn`)
  and the capacity check `Feasible` (`is_feasible`).
- `Neighbourhood` (neighbourhood.dfy): `Complement` (`int(not x)`), `Flip`
  (`bitcomplement` on a copy) and `Neighbours` (`gen_neighbourhood`).
- `Step` (step.dfy): `Evaluate`, its status list, the feasible filter, and
  `Max` and `IndexOf` (Python's `max` and `list.index`). It also gives a
  declarative description `ValidStep` of a step's report, proved to hold
  exactly of what `Evaluate` returns.
- `Search` (search.dfy): the driver `LocalSearch` and the trace properties.
- `Scenarios` (scenarios.dfy): the two runs the script's entry point starts.

Vectors are immutable `seq<int>` values. A `Vector` has at least 9 entries.
`obj_fn` and `is_feasible` read positions 0 to 8 and fail on shorter lists.
Extra entries are neither scored nor weighed. `gen_neighbourhood` still flips
them like any other entry, so a longer vector has extra neighbours with its
own score and load.

`max` over an empty list raises in the source. The model returns
`Failure(NoFeasibleNeighbour(at))` instead, where `at` is the vector whose
neighbours are all infeasible. The model does not treat this case as
termination. For a 0/1 start it can only happen in the pre-loop step.

The starting vector's feasibility is never checked, as in the source.

Two behaviours of the script are kept as written:

- The pre-loop step is kept, not merged into the loop. The first trace row
  therefore starts from the vector that step selected, not from the
  caller's vector.
- An empty feasible neighbourhood is an error, not a stop.

## Model

| member | source | states |
|---|---|---|
| Knapsack.Score | LocalSearch_.py:9-29 | the objective of a 0/1 vector lies between 0 and 90, the sum of all values |
| Knapsack.ScoreIsValueSum | LocalSearch_.py:26-27 | the objective equals the weighted sum of the first nine entries with the values 8,11,9,12,14,10,6,7,13 |
| Knapsack.Load | LocalSearch_.py:69-70 | the left-hand side of the capacity constraint, the weight of the items taken; its contract is stated by FeasibleIsCapacityCheck |
| Knapsack.Feasible | LocalSearch_.py:62-74 | `is_feasible`: the load is at most 16; its contract is stated by FeasibleIsCapacityCheck |
| Knapsack.FeasibleIsCapacityCheck | LocalSearch_.py:62-74 | the load is the weighted sum of the first nine entries with the weights 1,2,3,2,3,4,1,5,3, and a vector is feasible exactly when that sum is at most 16 |
| Knapsack.MaxScoreIsTotalValue | LocalSearch_.py:26-27 | the score bound 90 used for termination is the sum of all nine values |
| Knapsack.WeightedSumMonotone | LocalSearch_.py:69-70 | with non-negative weights the load is monotone in the vector |
| Knapsack.FeasibleDownwardClosed | LocalSearch_.py:69-74 | a vector entrywise below a feasible vector is feasible |
| Knapsack.DropKeepsFeasible | LocalSearch_.py:69-74 | turning a taken item (1) into 0 keeps a feasible vector feasible |
| Neighbourhood.Complement | LocalSearch_.py:40 | the complement of an entry is 0 or 1 and always differs from the entry |
| Neighbourhood.Flip | LocalSearch_.py:32-42 | the flipped vector has the same length, differs from the original at position i and agrees everywhere else |
| Neighbourhood.FlipInvolution | LocalSearch_.py:40 | on a 0/1 vector, flipping the same position twice restores the vector |
| Neighbourhood.Neighbours | LocalSearch_.py:45-59 | the neighbourhood has exactly one vector per position, each of the input's length, and vector i agrees with the input at position j exactly when j differs from i |
| Neighbourhood.NeighboursBinary | LocalSearch_.py:52-57 | the neighbours of a 0/1 vector are 0/1 vectors |
| Neighbourhood.NeighbourSymmetric | LocalSearch_.py:52-59 | on 0/1 vectors, if w is a neighbour of v then v is a neighbour of w |
| Neighbourhood.FlipScore | LocalSearch_.py:26-27 | flipping item i of a 0/1 vector adds its value when the item was not taken and subtracts it when it was |
| Step.StatusList | LocalSearch_.py:94-99 | the status list has one entry per neighbour, in order: the neighbour's score when it is feasible, the infeasible marker otherwise |
| Step.FeasibleOnly | LocalSearch_.py:92-96 | the valid list holds exactly the feasible neighbours |
| Step.FeasibleOnlyAppend | LocalSearch_.py:94-96 | the filter keeps the neighbourhood's order: the valid list of a concatenation is the concatenation of the valid lists |
| Step.Scores | LocalSearch_.py:101-104 | the list of valid scores has one entry per valid neighbour, in order, and entry j is the score of valid neighbour j |
| Step.Max | LocalSearch_.py:107 | the maximum of a non-empty list is an element of it and no element exceeds it |
| Step.IndexOf | LocalSearch_.py:110 | the index found holds the value and no earlier position does |
| Step.Evaluate | LocalSearch_.py:77-119 | a step fails exactly when no neighbour is feasible; otherwise it reports the input, its score, its neighbourhood and status list, and a selection whose score is its reported best score, never below the input's, and which is the input itself when the score does not rise |
| Step.MaxBoundsFeasible | LocalSearch_.py:101-107 | every feasible neighbour scores at most the maximum of the valid scores |
| Step.MaxIsAttained | LocalSearch_.py:101-107 | the maximum of the valid scores is the score of some feasible neighbour |
| Step.FirstOccurrence | LocalSearch_.py:101-111 | the first position of a score among the valid scores points at the first feasible neighbour with that score |
| Step.MaxSelectsFirstBest | LocalSearch_.py:101-111 | the valid vector at the first position of the maximum valid score is the first best feasible vector: no feasible vector scores more and none before it scores as much |
| Step.SelectionIsFirstBest | LocalSearch_.py:90-111 | away from a local optimum, the maximum valid score beats the input and its first position picks out the first best neighbour |
| Step.EvaluateMoves | LocalSearch_.py:107-111 | when the maximum valid score beats the input, the step reports that score and the valid vector at its first position |
| Step.EvaluateImproves | LocalSearch_.py:107-111 | away from a local optimum the step selects the lowest-index feasible neighbour with the maximal feasible score, which strictly beats the input |
| Step.EvaluateStays | LocalSearch_.py:107-112 | at a local optimum with a feasible neighbour the step keeps the input and its score |
| Step.ImprovesIffNotLocalOptimum | LocalSearch_.py:108-112 | a step strictly improves exactly when its input is not a local optimum |
| Step.FirstBestUnique | LocalSearch_.py:110-111 | at most one neighbour is the first best one, so the tie-break is determined |
| Step.EvaluateIsValidStep | LocalSearch_.py:90-119 | a report is what the step returns exactly when it meets the declarative step description |
| Step.ValidStepImproves | LocalSearch_.py:108-112 | a valid step improves exactly when its input is not a local optimum, and when it improves it moves to a feasible neighbour |
| Step.FeasibleHasFeasibleNeighbour | LocalSearch_.py:52-74 | a feasible 0/1 vector always has a feasible neighbour: drop a taken item, or take item 0 into an empty knapsack |
| Search.RecordedAt | LocalSearch_.py:142-149 | every row of a recorded trace is a valid step |
| Search.ExtendRecorded | LocalSearch_.py:142-149 | appending a valid step keeps every trace row valid |
| Search.ExtendChained | LocalSearch_.py:142-149 | appending the step from the last selected vector keeps the trace chained |
| Search.RecordedIsScored | LocalSearch_.py:137-146 | every valid row carries the scores of its current and selected vectors |
| Search.ScoresIncrease | LocalSearch_.py:142-151 | in a chained trace the recorded current scores strictly increase |
| Search.RunScoresIncrease | LocalSearch_.py:146-151 | the scores recorded by a run strictly increase from row to row |
| Search.RunEndsAtFixedPoint | LocalSearch_.py:151-156 | a run reports the last row's own vector and score; a further step from it reproduces that row; the vector has a feasible neighbour and is a local optimum |
| Search.ImprovingRowContinues | LocalSearch_.py:142-151 | an improving row is followed by a row that starts from its selection |
| Search.StepContinues | LocalSearch_.py:135-151 | a step from a 0/1 vector is a valid step; it improves exactly when its input is not a local optimum, and then moves to a feasible vector; either way it leads to a 0/1 vector that has a feasible neighbour, so the next step cannot fail |
| Search.LocalSearch | LocalSearch_.py:122-174 | the search terminates. It fails exactly when the start has no feasible neighbour, and the failure names the start. On success the trace starts at the pre-loop step's selection; every row is a valid step; every row but the last improves and feeds the next; the result is a local optimum scoring at least the start; the result is the start or is feasible. A start that is already a local optimum yields one row and itself |
| Scenarios.FullStartIsLocalOptimum | LocalSearch_.py:178 | the first sample start is feasible, scores 58 and is a local optimum |
| Scenarios.FullStartRun | LocalSearch_.py:178 | a run from the first sample start records one row and reports the start with score 58 |
| Scenarios.LightStartMove | LocalSearch_.py:179 | from the second sample start (score 30) the first best move takes item 4 (score 44) |
| Scenarios.Climb1Move | LocalSearch_.py:179 | the next first best move takes item 8 (score 57) |
| Scenarios.Climb2Move | LocalSearch_.py:179 | the next first best move takes item 0 (score 65) |
| Scenarios.Climb3IsLocalOptimum | LocalSearch_.py:179 | the vector reached with score 65 is a local optimum |
| Scenarios.LightStartRun | LocalSearch_.py:179 | a run from the second sample start records three rows and reports the vector 1,1,0,1,1,0,0,1,1 with score 65 |

## Left out

- `os.chdir` at import time (LocalSearch_.py:7): a process-wide filesystem side effect.
- The `print` calls (LocalSearch_.py:152-156): console output only. The iteration count they print, `t + 1`, is the trace length.
- The DataFrame, CSV file, timestamp name and `time.sleep` (LocalSearch_.py:157-171): a reporting sink. The trace rows carry the same columns. The row index `t` is the row's position in the trace.
- LocalSearch: requires a 0/1 start vector. The score bound of 90 that proves termination holds only for 0/1 vectors. The source would also run on other integer lists.
- LocalSearch: when the pre-loop step finds no feasible neighbour, the source raises. For a 0/1 start no later step can fail: the loop only reaches the start, which then has a feasible neighbour, or feasible vectors, which always have one. The model returns a failure that names the start. The source's trace lists are still empty at that point, so nothing is lost.
- Vectors shorter than nine entries: `obj_fn` raises an index error on them. The `Vector` type excludes them, so the model has no error path for them.
- The `__main__` guard (LocalSearch_.py:177-179) is not modelled. Its two runs appear as the lemmas of `Scenarios`.
