/** One round of the sweep over machine counts: an initial solution is built for the given number of
    machines and then refined by the random descent. */
module Pipeline {
  import opened Types
  import opened Objective
  import opened Feasibility
  import opened Sequencing
  import opened Neighbourhood
  import opened Construction
  import opened Descent

  /** The initial solution and its refinement, each with its cycle time. */
  datatype Outcome = Outcome(initial: Evaluated, refined: Evaluated)

  /** Building and refining fails exactly when there are tasks but no machines, when the precedence
      relation has no topological order, or when the descent is entered with fewer than two
      machines. Otherwise both solutions have one list per machine, hold every task exactly once and
      pass the precedence check, and the refined cycle time is no larger than the initial one. */
  method BuildAndRefine(numMachines: nat, costs: seq<int>, matrix: Matrix, stallLimit: nat,
                        swapWith: nat -> nat, choose: nat -> nat, draws: nat -> nat -> Pick)
    returns (r: Result<Outcome>)
    requires IsSquare(matrix) && IsBinary(matrix) && |matrix| <= |costs|
    ensures r.Err? <==>
      (numMachines == 0 && |matrix| > 0) || !HasTopologicalOrder(matrix) || (numMachines < 2 && stallLimit > 0)
    ensures r.Ok? ==>
      var o := r.value;
      |o.initial.solution| == numMachines && |o.refined.solution| == numMachines &&
      WellFormed(o.initial.solution, |matrix|) && WellFormed(o.refined.solution, |matrix|) &&
      IsPartition(o.initial.solution, |matrix|) && IsPartition(o.refined.solution, |matrix|) &&
      Feasible(o.initial.solution, matrix) && Feasible(o.refined.solution, matrix) &&
      o.initial.cycleTime == CycleTime(o.initial.solution, costs) &&
      o.refined.cycleTime == CycleTime(o.refined.solution, costs) &&
      o.refined.cycleTime <= o.initial.cycleTime
  {
    var built := BuildInitialSolution(numMachines, costs, matrix, swapWith, choose);
    if built.Err? {
      return Err(built.error);
    }
    var initial := built.value;
    assert HasTopologicalOrder(matrix) by {
      assert IsTopologicalOrder(Flatten(initial.solution), matrix);
    }
    var refined := RandomDescent(initial.solution, costs, matrix, stallLimit, draws);
    if refined.Err? {
      return Err(refined.error);
    }
    r := Ok(Outcome(initial, refined.value));
  }
}
