/** Shared vocabulary of the line-balancing engine: tasks are natural numbers
    0..n-1, the precedence relation is an n-by-n integer matrix, and a solution
    lists, per machine, the tasks it holds in the order it holds them. */
module Types {

  /** matrix[a][b] != 0 means task a must not come after task b on one machine. */
  type Matrix = seq<seq<int>>

  /** One task list per machine. */
  type Solution = seq<seq<nat>>

  /** The exceptions the Python code can raise on inputs it accepts. */
  datatype Failure =
    | DivisionByZero              // `i % numero_de_maquinas` with tasks but no machines
    | PopFromEmptyList            // `candidatos.pop(0)` when no task is ready
    | SampleLargerThanPopulation  // two distinct machines drawn from fewer than two (with none, numpy
                                  // rejects the empty population first; both are a ValueError)

  datatype Result<T> = Ok(value: T) | Err(error: Failure)

  predicate IsSquare(matrix: Matrix)
  {
    forall r :: 0 <= r < |matrix| ==> |matrix[r]| == |matrix|
  }

  /** The loader only ever writes 0 and 1 into the matrix. */
  predicate IsBinary(matrix: Matrix)
  {
    forall r, j :: 0 <= r < |matrix| && 0 <= j < |matrix[r]| ==> matrix[r][j] == 0 || matrix[r][j] == 1
  }

  /** Every task mentioned by the solution is a valid index below n. */
  predicate WellFormed(sol: Solution, n: nat)
  {
    forall k, i :: 0 <= k < |sol| && 0 <= i < |sol[k]| ==> sol[k][i] < n
  }

  predicate Distinct(s: seq<nat>)
  {
    forall p, q :: 0 <= p < q < |s| ==> s[p] != s[q]
  }

  /** A permutation of 0..n-1. */
  predicate IsPermutation(s: seq<nat>, n: nat)
  {
    |s| == n && Distinct(s) && forall p :: 0 <= p < |s| ==> s[p] < n
  }

  /** The machines' task lists, concatenated in machine order. */
  function Flatten(sol: Solution): (s: seq<nat>)
    ensures |sol| == 0 ==> s == []
  {
    if |sol| == 0 then [] else Flatten(sol[..|sol| - 1]) + sol[|sol| - 1]
  }

  /** The task indices 0..n-1. */
  ghost function Range(n: nat): (r: set<nat>)
    ensures forall t: nat :: t in r <==> t < n
  {
    if n == 0 then {} else Range(n - 1) + {n - 1}
  }

  /** Every task 0..n-1 is held by exactly one machine, exactly once, and nothing else is held. */
  ghost predicate IsPartition(sol: Solution, n: nat)
  {
    multiset(Flatten(sol)) == multiset(Range(n))
  }

  function Sum(s: seq<nat>): nat
  {
    if |s| == 0 then 0 else Sum(s[..|s| - 1]) + s[|s| - 1]
  }

  /** A set of indices below n has at most n elements, and exactly n only when it holds all of them. */
  lemma {:induction false} RangeCard(s: set<nat>, n: nat)
    requires forall x :: x in s ==> x < n
    ensures |s| <= n
    ensures |s| == n <==> forall t: nat :: t < n ==> t in s
  {
    if n == 0 {
      assert s == {};
    } else {
      var s' := s - {n - 1};
      RangeCard(s', n - 1);
      if n - 1 in s {
        assert s == s' + {n - 1};
        if |s| == n {
          forall t: nat | t < n ensures t in s {
            if t < n - 1 { assert t in s'; }
          }
        }
        if forall t: nat :: t < n ==> t in s {
          forall t: nat | t < n - 1 ensures t in s' {
            assert t in s;
          }
        }
      } else {
        assert s' == s;
        assert !(n - 1 in s);
      }
    }
  }

  ghost function Elements(s: seq<nat>): set<nat>
  {
    set x | x in s
  }

  lemma {:induction false} DistinctCard(s: seq<nat>)
    requires Distinct(s)
    ensures |Elements(s)| == |s|
  {
    if |s| > 0 {
      var init := s[..|s| - 1];
      DistinctCard(init);
      assert s == init + [s[|s| - 1]];
      assert s[|s| - 1] !in init;
      assert Elements(s) == Elements(init) + {s[|s| - 1]};
    }
  }

  lemma {:induction false} DistinctMultiplicity(s: seq<nat>, x: nat)
    requires Distinct(s)
    ensures multiset(s)[x] == if x in s then 1 else 0
  {
    if |s| > 0 {
      var init := s[..|s| - 1];
      assert s == init + [s[|s| - 1]];
      DistinctMultiplicity(init, x);
      assert s[|s| - 1] !in init;
    }
  }

  /** A permutation of 0..n-1 holds every task below n. */
  lemma PermutationCovers(s: seq<nat>, n: nat)
    requires IsPermutation(s, n)
    ensures forall t: nat :: t < n ==> t in s
  {
    var elems := Elements(s);
    DistinctCard(s);
    forall x | x in elems ensures x < n {
      var p :| 0 <= p < |s| && s[p] == x;
    }
    RangeCard(elems, n);
    forall t: nat | t < n ensures t in s {
      assert t in elems;
    }
  }

  /** A permutation of 0..n-1 has exactly the contents of Range(n). */
  lemma PermutationMultiset(s: seq<nat>, n: nat)
    requires IsPermutation(s, n)
    ensures multiset(s) == multiset(Range(n))
  {
    PermutationCovers(s, n);
    forall x: nat ensures multiset(s)[x] == multiset(Range(n))[x] {
      DistinctMultiplicity(s, x);
    }
  }

  /** Every task held by some machine appears in the concatenation, and conversely. */
  lemma {:induction false} FlattenMembers(sol: Solution)
    ensures forall k, i :: 0 <= k < |sol| && 0 <= i < |sol[k]| ==> sol[k][i] in Flatten(sol)
    ensures forall x :: x in Flatten(sol) ==> exists k, i :: 0 <= k < |sol| && 0 <= i < |sol[k]| && sol[k][i] == x
  {
    if |sol| > 0 {
      var init := sol[..|sol| - 1];
      FlattenMembers(init);
      assert Flatten(sol) == Flatten(init) + sol[|sol| - 1];
      forall x | x in Flatten(sol)
        ensures exists k, i :: 0 <= k < |sol| && 0 <= i < |sol[k]| && sol[k][i] == x
      {
        if x in Flatten(init) {
          var k, i :| 0 <= k < |init| && 0 <= i < |init[k]| && init[k][i] == x;
          assert sol[k][i] == x;
        } else {
          var i :| 0 <= i < |sol[|sol| - 1]| && sol[|sol| - 1][i] == x;
        }
      }
    }
  }

  /** A solution whose concatenation only holds tasks below n is well formed. */
  lemma FlattenBoundWellFormed(sol: Solution, n: nat)
    requires forall x :: x in Flatten(sol) ==> x < n
    ensures WellFormed(sol, n)
  {
    FlattenMembers(sol);
  }

  /** The contents of the concatenation only depend on each machine's contents. */
  lemma {:induction false} FlattenContents(a: Solution, b: Solution)
    requires |a| == |b|
    requires forall k :: 0 <= k < |a| ==> multiset(a[k]) == multiset(b[k])
    ensures multiset(Flatten(a)) == multiset(Flatten(b))
  {
    if |a| > 0 {
      FlattenContents(a[..|a| - 1], b[..|b| - 1]);
    }
  }

  /** Replacing one machine's list changes the concatenation's contents by exactly that difference. */
  lemma {:induction false} FlattenUpdate(s: Solution, k: nat, x: seq<nat>)
    requires k < |s|
    ensures multiset(Flatten(s[k := x])) + multiset(s[k]) == multiset(Flatten(s)) + multiset(x)
  {
    var last := |s| - 1;
    if k == last {
      assert s[k := x][..last] == s[..last];
    } else {
      assert s[k := x][..last] == s[..last][k := x];
      FlattenUpdate(s[..last], k, x);
      assert s[..last][k] == s[k];
      assert Flatten(s[k := x]) == Flatten(s[..last][k := x]) + s[last];
      assert Flatten(s) == Flatten(s[..last]) + s[last];
      calc {
        multiset(Flatten(s[k := x])) + multiset(s[k]);
        multiset(Flatten(s[..last][k := x])) + multiset(s[last]) + multiset(s[..last][k]);
        multiset(Flatten(s[..last])) + multiset(x) + multiset(s[last]);
        multiset(Flatten(s)) + multiset(x);
      }
    }
  }
}
