/** The neighbour move: on a copy of the solution, one task of one machine is exchanged with one task
    of another; the first exchange that passes the precedence check is returned, a failing one is
    taken back, and after the allowed number of tries the original solution is returned. */
module Neighbourhood {
  import opened Types
  import opened Feasibility

  /** One attempt's random draws: the two raw machine draws and the two raw task draws. */
  datatype Pick = Pick(first: nat, second: nat, task1: nat, task2: nat)

  /** Two distinct machines out of `count`, drawn without replacement: the first draw is reduced onto
      all machines, the second onto the machines left. */
  function MachinePair(p: Pick, count: nat): (pair: (nat, nat))
    requires count >= 2
    ensures pair.0 < count && pair.1 < count && pair.0 != pair.1
  {
    var m1 := p.first % count;
    var m2 := p.second % (count - 1);
    (m1, if m2 >= m1 then m2 + 1 else m2)
  }

  /** Every ordered pair of distinct machines is drawn by some pick. */
  lemma EveryPairDrawable(count: nat, m1: nat, m2: nat)
    requires m1 < count && m2 < count && m1 != m2
    ensures exists p: Pick :: MachinePair(p, count) == (m1, m2)
  {
    var second := if m2 > m1 then m2 - 1 else m2;
    assert m1 % count == m1;
    assert second % (count - 1) == second;
    assert MachinePair(Pick(m1, second, 0, 0), count) == (m1, m2);
  }

  /** The position of the first occurrence of x in s. */
  function IndexOf(s: seq<nat>, x: nat): (i: nat)
    requires x in s
    ensures i < |s| && s[i] == x
    ensures forall j :: 0 <= j < i ==> s[j] != x
  {
    if s[0] == x then 0 else 1 + IndexOf(s[1..], x)
  }

  /** Python's list.remove: the first occurrence of x is taken out, the rest keep their order. */
  function Remove(s: seq<nat>, x: nat): (r: seq<nat>)
    requires x in s
    ensures |r| == |s| - 1
    ensures multiset(r) == multiset(s) - multiset{x}
  {
    var i := IndexOf(s, x);
    assert s == s[..i] + [x] + s[i + 1..];
    s[..i] + s[i + 1..]
  }

  /** One side of an exchange: `leaving` is removed from the machine and `arriving` appended at its end. */
  function Exchange(s: seq<nat>, leaving: nat, arriving: nat): (r: seq<nat>)
    requires leaving in s
    ensures |r| == |s| && r[|r| - 1] == arriving
    ensures multiset(r) == multiset(s) - multiset{leaving} + multiset{arriving}
    ensures forall x :: x in r ==> x in s || x == arriving
  {
    var r := Remove(s, leaving) + [arriving];
    assert forall x :: x in r ==> x in multiset(r);
    r
  }

  /** Taking an exchange back restores which tasks the machine holds ... */
  lemma ExchangeBackKeepsContents(s: seq<nat>, leaving: nat, arriving: nat)
    requires leaving in s
    ensures arriving in Exchange(s, leaving, arriving)
    ensures multiset(Exchange(Exchange(s, leaving, arriving), arriving, leaving)) == multiset(s)
  {
    var once := Exchange(s, leaving, arriving);
    assert once[|once| - 1] == arriving;
  }

  /** ... but not their order: the task taken back goes to the end of its machine. */
  lemma ExchangeBackReorders()
    ensures Exchange(Exchange([0, 1], 0, 2), 2, 0) == [1, 0]
  {
    var s: seq<nat> := [0, 1];
    assert IndexOf(s, 0) == 0;
    var once: seq<nat> := [1, 2];
    assert Exchange(s, 0, 2) == once;
    assert IndexOf(once, 2) == 1;
  }

  /** Machine by machine, a and b hold the same tasks. */
  ghost predicate SameContents(a: Solution, b: Solution)
  {
    |a| == |b| && forall k :: 0 <= k < |a| ==> multiset(a[k]) == multiset(b[k])
  }

  /** b is a with task t1 of machine m1 and task t2 of machine m2 exchanged, as far as which tasks each
      machine holds; the exchanged tasks sit at the end of their new machines. */
  ghost predicate SwapsTasks(a: Solution, b: Solution, m1: nat, m2: nat, t1: nat, t2: nat)
  {
    |a| == |b| && m1 < |a| && m2 < |a| && m1 != m2 &&
    t1 in a[m1] && t2 in a[m2] &&
    multiset(b[m1]) == multiset(a[m1]) - multiset{t1} + multiset{t2} &&
    multiset(b[m2]) == multiset(a[m2]) - multiset{t2} + multiset{t1} &&
    |b[m1]| > 0 && b[m1][|b[m1]| - 1] == t2 &&
    |b[m2]| > 0 && b[m2][|b[m2]| - 1] == t1 &&
    forall k :: 0 <= k < |a| && k != m1 && k != m2 ==> multiset(b[k]) == multiset(a[k])
  }

  ghost predicate IsCrossSwap(a: Solution, b: Solution)
  {
    exists m1, m2, t1, t2 :: SwapsTasks(a, b, m1, m2, t1, t2)
  }

  /** Bookkeeping for one replaced machine: if adding the old contents to f gives g plus the new
      contents, where the new contents trade one t for one u, then f holds u where g held t. */
  lemma ReplaceOne(f: multiset<nat>, g: multiset<nat>, before: multiset<nat>, t: nat, u: nat)
    requires t in before
    requires f + before == g + (before - multiset{t} + multiset{u})
    ensures f + multiset{t} == g + multiset{u}
  {
    forall z ensures (f + multiset{t})[z] == (g + multiset{u})[z] {
      assert (f + before)[z] == (g + (before - multiset{t} + multiset{u}))[z];
    }
  }

  /** The exchange of task t1 of machine m1 with task t2 of machine m2, on a value. */
  function CrossSwap(s: Solution, m1: nat, m2: nat, t1: nat, t2: nat): (r: Solution)
    requires m1 < |s| && m2 < |s| && m1 != m2 && t1 in s[m1] && t2 in s[m2]
    ensures |r| == |s| && forall k :: 0 <= k < |s| && k != m1 && k != m2 ==> r[k] == s[k]
  {
    s[m1 := Exchange(s[m1], t1, t2)][m2 := Exchange(s[m2], t2, t1)]
  }

  /** CrossSwap performs exactly the exchange SwapsTasks describes. */
  lemma CrossSwapSwaps(s: Solution, m1: nat, m2: nat, t1: nat, t2: nat)
    requires m1 < |s| && m2 < |s| && m1 != m2 && t1 in s[m1] && t2 in s[m2]
    ensures SwapsTasks(s, CrossSwap(s, m1, m2, t1, t2), m1, m2, t1, t2)
  {
    var r := CrossSwap(s, m1, m2, t1, t2);
    assert r[m1] == Exchange(s[m1], t1, t2) && r[m2] == Exchange(s[m2], t2, t1);
  }

  /** A swap of tasks already in the solution keeps every task index in range. */
  lemma CrossSwapWellFormed(s: Solution, m1: nat, m2: nat, t1: nat, t2: nat, n: nat)
    requires m1 < |s| && m2 < |s| && m1 != m2 && t1 in s[m1] && t2 in s[m2]
    requires WellFormed(s, n)
    ensures WellFormed(CrossSwap(s, m1, m2, t1, t2), n)
  {
    var r := CrossSwap(s, m1, m2, t1, t2);
    forall k, i | 0 <= k < |r| && 0 <= i < |r[k]| ensures r[k][i] < n {
      assert r[k][i] in r[k];
      if k != m1 && k != m2 {
        assert r[k] == s[k];
      }
    }
  }

  /** Swapping back, t2 out of m1 and t1 out of m2, restores which tasks each machine holds. */
  lemma CrossSwapBack(s: Solution, m1: nat, m2: nat, t1: nat, t2: nat)
    requires m1 < |s| && m2 < |s| && m1 != m2 && t1 in s[m1] && t2 in s[m2]
    ensures t2 in CrossSwap(s, m1, m2, t1, t2)[m1] && t1 in CrossSwap(s, m1, m2, t1, t2)[m2]
    ensures SameContents(s, CrossSwap(CrossSwap(s, m1, m2, t1, t2), m1, m2, t2, t1))
  {
    var once := CrossSwap(s, m1, m2, t1, t2);
    assert once[m1] == Exchange(s[m1], t1, t2) && once[m2] == Exchange(s[m2], t2, t1);
    assert t2 in once[m1] && t1 in once[m2] by {
      ExchangeBackKeepsContents(s[m1], t1, t2);
      ExchangeBackKeepsContents(s[m2], t2, t1);
    }
    var twice := CrossSwap(once, m1, m2, t2, t1);
    forall k | 0 <= k < |s| ensures multiset(s[k]) == multiset(twice[k]) {
      if k == m1 {
        assert twice[m1] == Exchange(Exchange(s[m1], t1, t2), t2, t1);
        ExchangeBackKeepsContents(s[m1], t1, t2);
      } else if k == m2 {
        assert twice[m2] == Exchange(Exchange(s[m2], t2, t1), t1, t2);
        ExchangeBackKeepsContents(s[m2], t2, t1);
      }
    }
  }

  /** A swap applied to a solution with the same contents as a is, as far as contents go, that swap
      applied to a. */
  lemma SwapsTasksUpToContents(a: Solution, s: Solution, b: Solution, m1: nat, m2: nat, t1: nat, t2: nat)
    requires SameContents(a, s) && SwapsTasks(s, b, m1, m2, t1, t2)
    ensures SwapsTasks(a, b, m1, m2, t1, t2)
  {
    assert t1 in multiset(s[m1]) && t2 in multiset(s[m2]);
  }

  /** A cross-swap moves tasks between machines but neither adds nor drops any, so it keeps a
      partition of the tasks a partition. */
  lemma CrossSwapKeepsTasks(a: Solution, b: Solution, m1: nat, m2: nat, t1: nat, t2: nat)
    requires SwapsTasks(a, b, m1, m2, t1, t2)
    ensures multiset(Flatten(b)) == multiset(Flatten(a))
  {
    var a1 := a[m1 := b[m1]];
    var a2 := a1[m2 := b[m2]];
    FlattenUpdate(a, m1, b[m1]);
    FlattenUpdate(a1, m2, b[m2]);
    assert a1[m2] == a[m2];
    var fa, f1, f2 := multiset(Flatten(a)), multiset(Flatten(a1)), multiset(Flatten(a2));
    ReplaceOne(f1, fa, multiset(a[m1]), t1, t2);
    ReplaceOne(f2, f1, multiset(a[m2]), t2, t1);
    assert f2 == fa by {
      forall z ensures f2[z] == fa[z] {
        assert (f2 + multiset{t2})[z] == (fa + multiset{t2})[z];
      }
    }
    forall k | 0 <= k < |a2| ensures multiset(a2[k]) == multiset(b[k]) {
      if k != m1 && k != m2 {
        assert a2[k] == a[k];
      }
    }
    FlattenContents(a2, b);
  }

  /** The neighbour generator. Attempt number `tries` uses the draws `draw(tries)`. Drawing two
      distinct machines from fewer than two fails as soon as an attempt is made. An attempt that hits
      an empty machine is spent without a swap. Otherwise the result is either the input itself, or
      a solution that passes the precedence check and is a cross-swap of the input; either way the
      tasks, and so a partition, are kept. */
  method GenerateNeighbour(solution: Solution, matrix: Matrix, maxTries: nat, draw: nat -> Pick)
    returns (r: Result<Solution>)
    requires IsSquare(matrix) && WellFormed(solution, |matrix|)
    ensures r.Err? <==> |solution| < 2 && maxTries > 0
    ensures r.Err? ==> r.error == SampleLargerThanPopulation
    ensures maxTries == 0 ==> r == Ok(solution)
    ensures r.Ok? ==> |r.value| == |solution| && WellFormed(r.value, |matrix|)
    ensures r.Ok? ==> multiset(Flatten(r.value)) == multiset(Flatten(solution))
    ensures r.Ok? ==> r.value == solution || (Feasible(r.value, matrix) && IsCrossSwap(solution, r.value))
  {
    var count := |solution|;
    var neighbour: array<seq<nat>> := new seq<nat>[count](k requires 0 <= k < count => solution[k]);
    var tries := 0;
    while tries < maxTries
      invariant neighbour.Length == count
      invariant WellFormed(neighbour[..], |matrix|)
      invariant SameContents(solution, neighbour[..])
      invariant count < 2 ==> tries == 0
      decreases maxTries - tries
    {
      if count < 2 {
        return Err(SampleLargerThanPopulation);
      }
      var p := draw(tries);
      var (m1, m2) := MachinePair(p, count);
      if neighbour[m1] == [] || neighbour[m2] == [] {
        tries := tries + 1;
        continue;
      }
      var task1 := neighbour[m1][p.task1 % |neighbour[m1]|];
      var task2 := neighbour[m2][p.task2 % |neighbour[m2]|];
      ghost var before := neighbour[..];
      neighbour[m1] := Exchange(neighbour[m1], task1, task2);
      neighbour[m2] := Exchange(neighbour[m2], task2, task1);
      ghost var swapped := CrossSwap(before, m1, m2, task1, task2);
      assert neighbour[..] == swapped;
      CrossSwapWellFormed(before, m1, m2, task1, task2, |matrix|);
      CrossSwapSwaps(before, m1, m2, task1, task2);
      if CheckPrecedence(neighbour[..], matrix) {
        SwapsTasksUpToContents(solution, before, swapped, m1, m2, task1, task2);
        CrossSwapKeepsTasks(solution, swapped, m1, m2, task1, task2);
        return Ok(neighbour[..]);
      }
      CrossSwapBack(before, m1, m2, task1, task2);
      neighbour[m1] := Exchange(neighbour[m1], task2, task1);
      neighbour[m2] := Exchange(neighbour[m2], task1, task2);
      assert neighbour[..] == CrossSwap(swapped, m1, m2, task2, task1);
      CrossSwapWellFormed(swapped, m1, m2, task2, task1, |matrix|);
      tries := tries + 1;
    }
    r := Ok(solution);
  }
}
