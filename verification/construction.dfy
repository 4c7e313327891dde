/** The initial solution: the task counts are drawn, one topological sequence is generated, and each
    machine in turn takes its count of tasks off the front of that sequence. */
module Construction {
  import opened Types
  import opened Objective
  import opened Feasibility
  import opened Distribution
  import opened Sequencing

  /** A longer prefix of a vector of counts adds its next count, and no prefix exceeds the whole. */
  lemma {:induction false} SumPrefix(s: seq<nat>, k: nat)
    requires k <= |s|
    ensures k < |s| ==> Sum(s[..k + 1]) == Sum(s[..k]) + s[k]
    ensures Sum(s[..k]) <= Sum(s)
  {
    if k < |s| {
      assert s[..k + 1][..k] == s[..k];
    }
    if k == |s| {
      assert s[..k] == s;
    } else {
      var init := s[..|s| - 1];
      SumPrefix(init, k);
      assert init[..k] == s[..k];
    }
  }

  /** The assignment loop: machine after machine takes its count of tasks off the front of the
      sequence. When the counts add up to the sequence length, the emptiness guard never fires and
      the machines, concatenated, give back exactly the sequence. */
  method CutIntoMachines(sequence: seq<nat>, counts: seq<nat>) returns (solution: Solution)
    requires Sum(counts) == |sequence|
    ensures |solution| == |counts|
    ensures forall k :: 0 <= k < |counts| ==> |solution[k]| == counts[k]
    ensures Flatten(solution) == sequence
  {
    var rest := sequence;
    solution := [];
    for machine := 0 to |counts|
      invariant |solution| == machine
      invariant Flatten(solution) + rest == sequence
      invariant forall k :: 0 <= k < machine ==> |solution[k]| == counts[k]
      invariant |rest| + Sum(counts[..machine]) == |sequence|
    {
      SumPrefix(counts, machine);
      SumPrefix(counts, machine + 1);
      var tasks: seq<nat> := [];
      for taken := 0 to counts[machine]
        invariant |tasks| == taken
        invariant Flatten(solution) + tasks + rest == sequence
        invariant |rest| + Sum(counts[..machine]) + taken == |sequence|
      {
        if rest != [] {
          tasks := tasks + [rest[0]];
          rest := rest[1..];
        }
      }
      assert (solution + [tasks])[..machine] == solution;
      solution := solution + [tasks];
    }
    assert counts[..|counts|] == counts;
  }

  /** Builds the initial solution. With tasks and no machines the count distribution divides by
      zero; otherwise the build fails exactly when the precedence relation has no topological order.
      A built solution has one list per machine, holds each machine's count of tasks, and its
      machines concatenate to a topological order of all tasks: so every task is on exactly one
      machine and the precedence check passes. The reported value is that solution's cycle time. */
  method BuildInitialSolution(numMachines: nat, costs: seq<int>, matrix: Matrix,
                              swapWith: nat -> nat, choose: nat -> nat) returns (r: Result<Evaluated>)
    requires IsSquare(matrix) && IsBinary(matrix) && |matrix| <= |costs|
    ensures numMachines == 0 && |matrix| > 0 ==> r == Err(DivisionByZero)
    ensures !(numMachines == 0 && |matrix| > 0) ==> (r.Err? <==> !HasTopologicalOrder(matrix))
    ensures r.Ok? ==> |r.value.solution| == numMachines
    ensures r.Ok? ==> IsTopologicalOrder(Flatten(r.value.solution), matrix)
    ensures r.Ok? ==> WellFormed(r.value.solution, |matrix|)
    ensures r.Ok? ==> IsPartition(r.value.solution, |matrix|) && Feasible(r.value.solution, matrix)
    ensures r.Ok? ==> forall k :: 0 <= k < numMachines ==>
      |r.value.solution[k]| == |matrix| / numMachines || |r.value.solution[k]| == |matrix| / numMachines + 1
    ensures r.Ok? ==> r.value.cycleTime == CycleTime(r.value.solution, costs)
  {
    var n := |matrix|;
    var distributed := DistributeCounts(numMachines, n, swapWith);
    if distributed.Err? {
      return Err(distributed.error);
    }
    var counts := distributed.value;
    var generated := GenerateSequence(matrix, choose);
    if generated.Err? {
      return Err(generated.error);
    }
    var order := generated.value;
    var solution := CutIntoMachines(order, counts);
    PermutationMultiset(order, n);
    FlattenBoundWellFormed(solution, n);
    OrderedFlattenFeasible(solution, matrix);
    r := Ok(Evaluated(solution, CycleTime(solution, costs)));
  }
}
