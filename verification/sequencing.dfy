/** The randomised topological sort. It works on a copy of the precedence matrix: a task is ready
    when its column sums to 0; a placed task has its row cleared to 0 and its column set to -1. */
module Sequencing {
  import opened Types

  /** A permutation of all tasks in which no task at or after a position is a predecessor of the
      task at that position (so, in particular, no task is its own predecessor). */
  ghost predicate IsTopologicalOrder(s: seq<nat>, matrix: Matrix)
    requires IsSquare(matrix)
  {
    IsPermutation(s, |matrix|) &&
    forall p, q :: 0 <= p <= q < |s| ==> matrix[s[q]][s[p]] == 0
  }

  /** The precedence relation is acyclic, in the sense that the tasks can be ordered respecting it. */
  ghost predicate HasTopologicalOrder(matrix: Matrix)
    requires IsSquare(matrix)
  {
    exists s :: IsTopologicalOrder(s, matrix)
  }

  /** Task j is unplaced and no unplaced task, j itself included, is a predecessor of j. */
  ghost predicate Ready(matrix: Matrix, placed: set<nat>, j: nat)
    requires IsSquare(matrix)
  {
    j < |matrix| && j !in placed &&
    forall r :: 0 <= r < |matrix| && r !in placed ==> matrix[r][j] == 0
  }

  /** The sum of the first k entries of column j. */
  function ColumnSum(aux: array2<int>, j: nat, k: nat): int
    reads aux
    requires j < aux.Length1 && k <= aux.Length0
  {
    if k == 0 then 0 else ColumnSum(aux, j, k - 1) + aux[k - 1, j]
  }

  /** How the working copy relates to the matrix once the tasks in `placed` are placed: an unplaced
      column keeps the matrix entries of unplaced rows and holds 0 in placed rows; a placed column
      holds nothing positive and -1 on the diagonal. */
  ghost predicate Tracks(aux: array2<int>, matrix: Matrix, placed: set<nat>)
    reads aux
    requires IsSquare(matrix)
  {
    aux.Length0 == |matrix| && aux.Length1 == |matrix| &&
    (forall j :: j in placed ==> j < |matrix| && aux[j, j] == -1) &&
    forall r, j :: 0 <= r < |matrix| && 0 <= j < |matrix| ==>
      if j in placed then aux[r, j] <= 0
      else aux[r, j] == (if r in placed then 0 else matrix[r][j])
  }

  lemma {:induction false} UnplacedColumnSum(aux: array2<int>, matrix: Matrix, placed: set<nat>, j: nat, k: nat)
    requires IsSquare(matrix) && IsBinary(matrix) && Tracks(aux, matrix, placed)
    requires j < |matrix| && j !in placed && k <= |matrix|
    ensures ColumnSum(aux, j, k) >= 0
    ensures ColumnSum(aux, j, k) == 0 <==> forall r :: 0 <= r < k && r !in placed ==> matrix[r][j] == 0
  {
    if k > 0 {
      UnplacedColumnSum(aux, matrix, placed, j, k - 1);
    }
  }

  lemma {:induction false} PlacedColumnSum(aux: array2<int>, matrix: Matrix, placed: set<nat>, j: nat, k: nat)
    requires IsSquare(matrix) && Tracks(aux, matrix, placed)
    requires j in placed && k <= |matrix|
    ensures ColumnSum(aux, j, k) <= (if j < k then -1 else 0)
  {
    if k > 0 {
      PlacedColumnSum(aux, matrix, placed, j, k - 1);
    }
  }

  /** The ready test: a column of the working copy sums to 0 exactly when its task is ready. A placed
      task's column never sums to 0 again, because its diagonal entry stays -1. */
  lemma ColumnSumZeroIffReady(aux: array2<int>, matrix: Matrix, placed: set<nat>, j: nat)
    requires IsSquare(matrix) && IsBinary(matrix) && Tracks(aux, matrix, placed)
    requires j < |matrix|
    ensures ColumnSum(aux, j, |matrix|) == 0 <==> Ready(matrix, placed, j)
  {
    if j in placed {
      PlacedColumnSum(aux, matrix, placed, j, |matrix|);
    } else {
      UnplacedColumnSum(aux, matrix, placed, j, |matrix|);
    }
  }

  /** Whatever has been placed so far, an order of all tasks points at a ready task: the first task
      of that order still unplaced. */
  lemma OrderGivesReadyTask(s: seq<nat>, matrix: Matrix, placed: set<nat>)
    requires IsSquare(matrix) && IsTopologicalOrder(s, matrix)
    requires forall x :: x in placed ==> x < |matrix|
    requires |placed| < |matrix|
    ensures exists j: nat :: Ready(matrix, placed, j)
  {
    var n := |matrix|;
    RangeCard(placed, n);
    PermutationCovers(s, n);
    assert !(forall t: nat :: t < n ==> t in placed);
    var t: nat :| t < n && t !in placed;
    assert t in s;
    var last :| 0 <= last < n && s[last] == t;
    var p := 0;
    while s[p] in placed
      invariant 0 <= p <= last
      invariant forall p' :: 0 <= p' < p ==> s[p'] in placed
      decreases last - p
    {
      p := p + 1;
    }
    var j := s[p];
    forall r: nat | r < n && r !in placed ensures matrix[r][j] == 0 {
      assert r in s;
      var q :| 0 <= q < n && s[q] == r;
    }
    assert Ready(matrix, placed, j);
  }

  /** If at some point no task is ready, the precedence relation has no topological order. */
  lemma NoReadyTaskMeansNoOrder(matrix: Matrix, placed: set<nat>)
    requires IsSquare(matrix)
    requires forall x :: x in placed ==> x < |matrix|
    requires |placed| < |matrix|
    requires forall j: nat :: !Ready(matrix, placed, j)
    ensures !HasTopologicalOrder(matrix)
  {
    if s :| IsTopologicalOrder(s, matrix) {
      OrderGivesReadyTask(s, matrix, placed);
    }
  }

  /** In a topological order, every required predecessor comes before its successor. */
  lemma TopologicalRespectsEdges(s: seq<nat>, matrix: Matrix, a: nat, b: nat)
    requires IsSquare(matrix) && IsTopologicalOrder(s, matrix)
    requires a < |matrix| && b < |matrix| && matrix[a][b] != 0
    ensures a != b && a in s && b in s
    ensures forall pa, pb :: 0 <= pa < |s| && 0 <= pb < |s| && s[pa] == a && s[pb] == b ==> pa < pb
  {
    PermutationCovers(s, |matrix|);
    assert a in s && b in s;
  }

  /** The tasks in increasing order whose column of the working copy sums to 0. */
  method ReadyColumns(aux: array2<int>) returns (cands: seq<nat>)
    ensures forall j: nat :: j in cands <==> j < aux.Length1 && ColumnSum(aux, j, aux.Length0) == 0
    ensures forall a, b :: 0 <= a < b < |cands| ==> cands[a] < cands[b]
  {
    cands := [];
    for j := 0 to aux.Length1
      invariant forall x: nat :: x in cands <==> x < j && ColumnSum(aux, x, aux.Length0) == 0
      invariant forall a, b :: 0 <= a < b < |cands| ==> cands[a] < cands[b]
      invariant forall a :: 0 <= a < |cands| ==> cands[a] < j
    {
      if ColumnSum(aux, j, aux.Length0) == 0 {
        cands := cands + [j];
      }
    }
  }

  /** Clears row c of the working copy to 0. */
  method ClearRow(aux: array2<int>, c: nat)
    requires c < aux.Length0
    modifies aux
    ensures forall r, j :: 0 <= r < aux.Length0 && 0 <= j < aux.Length1 ==>
      aux[r, j] == if r == c then 0 else old(aux[r, j])
  {
    for j := 0 to aux.Length1
      invariant forall r, j' :: 0 <= r < aux.Length0 && 0 <= j' < aux.Length1 ==>
        aux[r, j'] == if r == c && j' < j then 0 else old(aux[r, j'])
    {
      aux[c, j] := 0;
    }
  }

  /** Sets column c of the working copy to -1. */
  method RetireColumn(aux: array2<int>, c: nat)
    requires c < aux.Length1
    modifies aux
    ensures forall r, j :: 0 <= r < aux.Length0 && 0 <= j < aux.Length1 ==>
      aux[r, j] == if j == c then -1 else old(aux[r, j])
  {
    for r := 0 to aux.Length0
      invariant forall r', j :: 0 <= r' < aux.Length0 && 0 <= j < aux.Length1 ==>
        aux[r', j] == if j == c && r' < r then -1 else old(aux[r', j])
    {
      aux[r, c] := -1;
    }
  }

  /** Marks task c as placed in the working copy: its row is cleared to 0, then its column is set
      to -1. The copy stays in step with the placed tasks, now including c. */
  method MarkPlaced(aux: array2<int>, ghost matrix: Matrix, ghost placed: set<nat>, c: nat)
    requires IsSquare(matrix) && Tracks(aux, matrix, placed)
    requires c < |matrix| && c !in placed
    modifies aux
    ensures Tracks(aux, matrix, placed + {c})
  {
    ClearRow(aux, c);
    RetireColumn(aux, c);
  }

  /** What the placed prefix of the sequence guarantees: its tasks are distinct and are exactly
      `placed`, none is preceded by a later task or by itself, and no unplaced task precedes any. */
  ghost predicate Placement(matrix: Matrix, sequence: seq<nat>, placed: set<nat>)
    requires IsSquare(matrix)
  {
    |placed| == |sequence| && Distinct(sequence) &&
    (forall x :: x in placed <==> x in sequence) &&
    (forall p :: 0 <= p < |sequence| ==> sequence[p] < |matrix|) &&
    (forall p, q :: 0 <= p <= q < |sequence| ==> matrix[sequence[q]][sequence[p]] == 0) &&
    (forall p, x :: 0 <= p < |sequence| && 0 <= x < |matrix| && x !in placed ==> matrix[x][sequence[p]] == 0)
  }

  /** Appending a ready task keeps the placed prefix in order. */
  lemma PlaceReady(matrix: Matrix, sequence: seq<nat>, placed: set<nat>, c: nat)
    requires IsSquare(matrix) && Placement(matrix, sequence, placed) && Ready(matrix, placed, c)
    ensures Placement(matrix, sequence + [c], placed + {c})
  {
    var s := sequence + [c];
    forall p, q | 0 <= p <= q < |s| ensures matrix[s[q]][s[p]] == 0 {
      if q == |sequence| && p < q {
        assert c !in placed;
      }
    }
  }

  /** The sequence generator. Each step lists the ready tasks and picks one (the shuffle followed by
      `pop(0)` is `choose(step)` reduced onto the candidate list); with no candidate left, `pop(0)`
      fails. A run succeeds exactly when the relation has a topological order, and then returns one. */
  method GenerateSequence(matrix: Matrix, choose: nat -> nat) returns (r: Result<seq<nat>>)
    requires IsSquare(matrix) && IsBinary(matrix)
    ensures r.Ok? ==> IsTopologicalOrder(r.value, matrix)
    ensures r.Err? ==> r.error == PopFromEmptyList && !HasTopologicalOrder(matrix)
  {
    var n := |matrix|;
    var aux := new int[n, n]((i, j) requires 0 <= i < n && 0 <= j < n => matrix[i][j]);
    var sequence: seq<nat> := [];
    ghost var placed: set<nat> := {};
    for step := 0 to n
      invariant |sequence| == step
      invariant Placement(matrix, sequence, placed)
      invariant Tracks(aux, matrix, placed)
    {
      var cands := ReadyColumns(aux);
      if |cands| == 0 {
        forall j: nat ensures !Ready(matrix, placed, j) {
          if j < n {
            ColumnSumZeroIffReady(aux, matrix, placed, j);
          }
        }
        NoReadyTaskMeansNoOrder(matrix, placed);
        return Err(PopFromEmptyList);
      }
      var chosen := cands[choose(step) % |cands|];
      assert chosen in cands;
      ColumnSumZeroIffReady(aux, matrix, placed, chosen);
      PlaceReady(matrix, sequence, placed, chosen);
      MarkPlaced(aux, matrix, placed, chosen);
      sequence := sequence + [chosen];
      placed := placed + {chosen};
    }
    r := Ok(sequence);
  }
}
