/** The objective: the cycle time of a solution, the largest total cost any machine carries. */
module Objective {
  import opened Types

  /** A solution together with the cycle time reported for it. */
  datatype Evaluated = Evaluated(solution: Solution, cycleTime: nat)

  /** The total cost of the tasks one machine holds. */
  function Load(tasks: seq<nat>, costs: seq<int>): int
    requires forall i :: 0 <= i < |tasks| ==> tasks[i] < |costs|
  {
    if |tasks| == 0 then 0 else Load(tasks[..|tasks| - 1], costs) + costs[tasks[|tasks| - 1]]
  }

  /** The cycle time: machines are scanned left to right keeping the largest load, starting from 0.
      It bounds every machine's load, and unless it is 0 it is some machine's load; so it is 0
      when there are no machines or when no load is positive. */
  function CycleTime(sol: Solution, costs: seq<int>): (r: nat)
    requires WellFormed(sol, |costs|)
    ensures forall k :: 0 <= k < |sol| ==> Load(sol[k], costs) <= r
    ensures r > 0 ==> exists k :: 0 <= k < |sol| && Load(sol[k], costs) == r
  {
    if |sol| == 0 then 0
    else
      var best := CycleTime(sol[..|sol| - 1], costs);
      var load := Load(sol[|sol| - 1], costs);
      if best >= load then best else load
  }

  /** Taking one task out of a machine lowers its load by exactly that task's cost. */
  lemma {:induction false} LoadRemove(b: seq<nat>, j: nat, costs: seq<int>)
    requires forall i :: 0 <= i < |b| ==> b[i] < |costs|
    requires j < |b|
    ensures Load(b, costs) == Load(b[..j] + b[j + 1..], costs) + costs[b[j]]
  {
    var last := |b| - 1;
    var init := b[..last];
    if j == last {
      assert b[..j] + b[j + 1..] == init;
    } else {
      LoadRemove(init, j, costs);
      var rest := b[..j] + b[j + 1..];
      assert rest[..|rest| - 1] == init[..j] + init[j + 1..];
      assert rest[|rest| - 1] == b[last];
    }
  }

  /** Taking the same task away from two equal multisets leaves equal multisets. */
  lemma CancelOne(a: seq<nat>, b: seq<nat>, x: nat)
    requires multiset(a) + multiset{x} == multiset(b) + multiset{x}
    ensures multiset(a) == multiset(b)
  {
    forall y ensures multiset(a)[y] == multiset(b)[y] {
      assert (multiset(a) + multiset{x})[y] == (multiset(b) + multiset{x})[y];
    }
  }

  /** A machine's load depends only on which tasks it holds, not on their order. */
  lemma {:induction false} LoadDependsOnContents(a: seq<nat>, b: seq<nat>, costs: seq<int>)
    requires forall i :: 0 <= i < |a| ==> a[i] < |costs|
    requires multiset(a) == multiset(b)
    ensures forall i :: 0 <= i < |b| ==> b[i] < |costs|
    ensures Load(a, costs) == Load(b, costs)
  {
    forall i | 0 <= i < |b| ensures b[i] < |costs| {
      assert b[i] in multiset(a);
    }
    if |a| > 0 {
      var x := a[|a| - 1];
      var a' := a[..|a| - 1];
      assert a == a' + [x];
      assert x in multiset(b);
      var j :| 0 <= j < |b| && b[j] == x;
      var b' := b[..j] + b[j + 1..];
      assert b == b[..j] + [x] + b[j + 1..];
      assert multiset(a') + multiset{x} == multiset(b') + multiset{x};
      CancelOne(a', b', x);
      LoadDependsOnContents(a', b', costs);
      LoadRemove(b, j, costs);
    }
  }

  /** The cycle time depends only on which tasks each machine holds, not on their order. */
  lemma {:induction false} CycleTimeDependsOnContents(a: Solution, b: Solution, costs: seq<int>)
    requires WellFormed(a, |costs|)
    requires |a| == |b| && forall k :: 0 <= k < |a| ==> multiset(a[k]) == multiset(b[k])
    ensures WellFormed(b, |costs|)
    ensures CycleTime(a, costs) == CycleTime(b, costs)
  {
    forall k | 0 <= k < |a|
      ensures (forall i :: 0 <= i < |b[k]| ==> b[k][i] < |costs|) && Load(a[k], costs) == Load(b[k], costs)
    {
      LoadDependsOnContents(a[k], b[k], costs);
    }
    if |a| > 0 {
      CycleTimeDependsOnContents(a[..|a| - 1], b[..|b| - 1], costs);
    }
  }
}
