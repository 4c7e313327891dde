/** The random descent: from an initial solution, neighbours are drawn one after another; a neighbour
    with a strictly smaller cycle time replaces the current solution and resets the stall counter,
    any other neighbour raises the counter, and the search stops when the counter reaches its limit. */
module Descent {
  import opened Types
  import opened Objective
  import opened Feasibility
  import opened Neighbourhood

  /** The number of swap attempts the descent allows each neighbour draw. */
  const DefaultMaxTries: nat := 100

  /** Round `round` of the descent draws its neighbour with the picks `draws(round)`. With fewer than
      two machines the very first neighbour draw fails. Otherwise the result keeps the number of
      machines and every task, reports its own cycle time, and that cycle time is no larger than the
      initial one; a result other than the initial solution is strictly better and passes the
      precedence check. */
  method RandomDescent(initial: Solution, costs: seq<int>, matrix: Matrix, stallLimit: nat,
                       draws: nat -> nat -> Pick) returns (r: Result<Evaluated>)
    requires IsSquare(matrix) && WellFormed(initial, |matrix|) && |matrix| <= |costs|
    ensures r.Err? <==> |initial| < 2 && stallLimit > 0
    ensures r.Err? ==> r.error == SampleLargerThanPopulation
    ensures r.Ok? ==> |r.value.solution| == |initial| && WellFormed(r.value.solution, |matrix|)
    ensures r.Ok? ==> multiset(Flatten(r.value.solution)) == multiset(Flatten(initial))
    ensures r.Ok? ==> r.value.cycleTime == CycleTime(r.value.solution, costs)
    ensures r.Ok? ==> r.value.cycleTime <= CycleTime(initial, costs)
    ensures r.Ok? ==>
      r.value.solution == initial ||
      (r.value.cycleTime < CycleTime(initial, costs) && Feasible(r.value.solution, matrix))
  {
    var current := initial;
    var best := CycleTime(current, costs);
    var stall := 0;
    var round := 0;
    while stall < stallLimit
      invariant |current| == |initial| && WellFormed(current, |matrix|)
      invariant multiset(Flatten(current)) == multiset(Flatten(initial))
      invariant best == CycleTime(current, costs) && best <= CycleTime(initial, costs)
      invariant current == initial || (best < CycleTime(initial, costs) && Feasible(current, matrix))
      invariant |initial| < 2 ==> stall == 0
      decreases best, stallLimit - stall
    {
      var drawn := GenerateNeighbour(current, matrix, DefaultMaxTries, draws(round));
      round := round + 1;
      if drawn.Err? {
        return Err(drawn.error);
      }
      var neighbour := drawn.value;
      var value := CycleTime(neighbour, costs);
      if value < best {
        current, best, stall := neighbour, value, 0;
      } else {
        stall := stall + 1;
      }
    }
    r := Ok(Evaluated(current, best));
  }
}
