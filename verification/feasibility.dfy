/** The precedence check: within a machine, no task may be followed by one of its required predecessors. */
module Feasibility {
  import opened Types

  /** On one machine, no task at a later position is a predecessor of a task at an earlier position. */
  ghost predicate MachineFeasible(tasks: seq<nat>, matrix: Matrix)
    requires IsSquare(matrix)
    requires forall i :: 0 <= i < |tasks| ==> tasks[i] < |matrix|
  {
    forall i, j :: 0 <= i < j < |tasks| ==> matrix[tasks[j]][tasks[i]] == 0
  }

  ghost predicate Feasible(sol: Solution, matrix: Matrix)
    requires IsSquare(matrix) && WellFormed(sol, |matrix|)
  {
    forall k :: 0 <= k < |sol| ==> MachineFeasible(sol[k], matrix)
  }

  /** The check as the nested loops run it: machine by machine, then position i, then every later
      position j, stopping at the first violation. It succeeds exactly on feasible solutions. */
  function CheckPrecedence(sol: Solution, matrix: Matrix): (ok: bool)
    requires IsSquare(matrix) && WellFormed(sol, |matrix|)
    ensures ok <==> Feasible(sol, matrix)
  {
    CheckMachines(sol, matrix, 0)
  }

  function CheckMachines(sol: Solution, matrix: Matrix, k: nat): (ok: bool)
    requires IsSquare(matrix) && WellFormed(sol, |matrix|) && k <= |sol|
    ensures ok <==> forall k' :: k <= k' < |sol| ==> MachineFeasible(sol[k'], matrix)
    decreases |sol| - k
  {
    if k == |sol| then true
    else CheckPairs(sol[k], matrix, 0) && CheckMachines(sol, matrix, k + 1)
  }

  function CheckPairs(tasks: seq<nat>, matrix: Matrix, i: nat): (ok: bool)
    requires IsSquare(matrix) && forall p :: 0 <= p < |tasks| ==> tasks[p] < |matrix|
    ensures ok <==> forall i', j :: i <= i' < j < |tasks| ==> matrix[tasks[j]][tasks[i']] == 0
    decreases |tasks| - i
  {
    if i >= |tasks| then true
    else CheckLater(tasks, matrix, i, i + 1) && CheckPairs(tasks, matrix, i + 1)
  }

  function CheckLater(tasks: seq<nat>, matrix: Matrix, i: nat, j: nat): (ok: bool)
    requires IsSquare(matrix) && forall p :: 0 <= p < |tasks| ==> tasks[p] < |matrix|
    requires i < |tasks| && j <= |tasks|
    ensures ok <==> forall j' :: j <= j' < |tasks| ==> matrix[tasks[j']][tasks[i]] == 0
    decreases |tasks| - j
  {
    if j == |tasks| then true
    else matrix[tasks[j]][tasks[i]] == 0 && CheckLater(tasks, matrix, i, j + 1)
  }

  /** Machines holding at most one task never violate a precedence. */
  lemma ShortMachinesPass(sol: Solution, matrix: Matrix)
    requires IsSquare(matrix) && WellFormed(sol, |matrix|)
    requires forall k :: 0 <= k < |sol| ==> |sol[k]| <= 1
    ensures CheckPrecedence(sol, matrix)
  {
  }

  /** Cutting a precedence-ordered sequence into consecutive machines gives a feasible solution. */
  lemma {:induction false} OrderedFlattenFeasible(sol: Solution, matrix: Matrix)
    requires IsSquare(matrix) && WellFormed(sol, |matrix|)
    requires forall p :: 0 <= p < |Flatten(sol)| ==> Flatten(sol)[p] < |matrix|
    requires MachineFeasible(Flatten(sol), matrix)
    ensures Feasible(sol, matrix)
  {
    if |sol| > 0 {
      var init := sol[..|sol| - 1];
      var last := sol[|sol| - 1];
      var flat := Flatten(init);
      assert Flatten(sol) == flat + last;
      forall p | 0 <= p < |flat| ensures flat[p] == Flatten(sol)[p] && flat[p] < |matrix| { }
      assert WellFormed(init, |matrix|);
      assert MachineFeasible(flat, matrix) by {
        forall p, q | 0 <= p < q < |flat| ensures matrix[flat[q]][flat[p]] == 0 {
          assert flat[q] == Flatten(sol)[q];
        }
      }
      OrderedFlattenFeasible(init, matrix);
      forall i, j | 0 <= i < j < |last| ensures matrix[last[j]][last[i]] == 0 {
        assert last[j] == Flatten(sol)[|flat| + j];
        assert last[i] == Flatten(sol)[|flat| + i];
      }
      assert MachineFeasible(last, matrix);
      forall k | 0 <= k < |sol| ensures MachineFeasible(sol[k], matrix) {
        if k < |init| { assert sol[k] == init[k]; }
      }
    }
  }

  /** Feasibility depends on the order of a machine's tasks, not only on which tasks it holds:
      with task 0 required before task 1, [0, 1] passes and [1, 0] fails. */
  lemma FeasibilityDependsOnOrder()
    ensures Feasible([[0, 1]], [[0, 1], [0, 0]])
    ensures !Feasible([[1, 0]], [[0, 1], [0, 0]])
  {
    var matrix: Matrix := [[0, 1], [0, 0]];
    var good: seq<nat> := [0, 1];
    var bad: seq<nat> := [1, 0];
    assert MachineFeasible(good, matrix) by {
      forall i, j | 0 <= i < j < 2 ensures matrix[good[j]][good[i]] == 0 {
        assert i == 0 && j == 1;
      }
    }
    assert [good][0] == good && [bad][0] == bad;
    assert matrix[bad[1]][bad[0]] == 1;
  }
}
