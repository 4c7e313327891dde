/** How many tasks each machine receives: tasks are dealt round-robin over the machines, then the
    vector of counts is shuffled in place. */
module Distribution {
  import opened Types

  /** After i round-robin deals over m machines, machine k holds i / m tasks, plus one when k < i % m. */
  function Share(i: nat, m: nat, k: nat): nat
    requires k < m
  {
    i / m + (if k < i % m then 1 else 0)
  }

  /** The counts before the shuffle, machine by machine. */
  function RoundRobin(m: nat, n: nat): seq<nat>
  {
    seq(m, k requires 0 <= k < m => Share(n, m, k))
  }

  lemma {:induction false} MulAtLeast(d: nat, m: nat)
    requires d >= 1
    ensures d * m >= m
  {
    if d > 1 {
      MulAtLeast(d - 1, m);
      assert d * m == (d - 1) * m + m;
    }
  }

  /** Euclidean division is unique: a quotient and a remainder in range are the ones `/` and `%` give. */
  lemma DivModUnique(x: nat, m: nat, q: nat, r: nat)
    requires r < m && x == q * m + r
    ensures x / m == q && x % m == r
  {
    var q', r' := x / m, x % m;
    assert x == q' * m + r' && r' < m;
    if q' < q {
      assert (q - q') * m == q * m - q' * m;
      MulAtLeast(q - q', m);
      assert false;
    } else if q' > q {
      assert (q' - q) * m == q' * m - q * m;
      MulAtLeast(q' - q, m);
      assert false;
    }
  }

  /** One more deal raises exactly machine i % m by one. */
  lemma ShareStep(i: nat, m: nat, k: nat)
    requires k < m
    ensures Share(i + 1, m, k) == Share(i, m, k) + (if k == i % m then 1 else 0)
  {
    var q, r := i / m, i % m;
    if r + 1 < m {
      DivModUnique(i + 1, m, q, r + 1);
    } else {
      DivModUnique(i + 1, m, q + 1, 0);
    }
  }

  /** Raising one count by one raises the total by one. */
  lemma {:induction false} SumIncrement(s: seq<nat>, k: nat)
    requires k < |s|
    ensures Sum(s[k := s[k] + 1]) == Sum(s) + 1
  {
    var last := |s| - 1;
    if k < last {
      assert s[k := s[k] + 1][..last] == s[..last][k := s[..last][k] + 1];
      SumIncrement(s[..last], k);
    } else {
      assert s[k := s[k] + 1][..last] == s[..last];
    }
  }

  lemma MulSucc(a: nat, b: nat)
    ensures (a + 1) * b == a * b + b
  {
  }

  lemma CountSnoc(init: seq<nat>, x: nat, key: nat)
    ensures multiset(init + [x])[key] == multiset(init)[key] + (if x == key then 1 else 0)
  {
    assert multiset(init + [x]) == multiset(init) + multiset{x};
  }

  /** A vector whose counts are all q or q + 1 sums to |s| * q plus the number of (q + 1)s. */
  lemma {:induction false} SumOfTwoValues(s: seq<nat>, q: nat)
    requires forall i :: 0 <= i < |s| ==> s[i] == q || s[i] == q + 1
    ensures Sum(s) == |s| * q + multiset(s)[q + 1]
  {
    if |s| > 0 {
      var init: seq<nat>, x: nat := s[..|s| - 1], s[|s| - 1];
      assert s == init + [x];
      SumOfTwoValues(init, q);
      CountSnoc(init, x, q + 1);
      MulSucc(|init|, q);
    }
  }

  lemma {:induction false} SumOfZeros(s: seq<nat>)
    requires forall i :: 0 <= i < |s| ==> s[i] == 0
    ensures Sum(s) == 0
  {
    if |s| > 0 {
      SumOfZeros(s[..|s| - 1]);
    }
  }

  /** Shuffling an array in place, as a sequence of swaps: for i from the last index down to 1,
      position i is exchanged with position swapWith(i) % (i + 1). Every permutation arises from
      some swapWith, and every outcome holds the same counts. */
  method Shuffle(a: array<nat>, swapWith: nat -> nat)
    modifies a
    ensures multiset(a[..]) == multiset(old(a[..]))
  {
    var i := a.Length;
    while i > 1
      invariant i <= a.Length
      invariant multiset(a[..]) == multiset(old(a[..]))
    {
      i := i - 1;
      var j := swapWith(i) % (i + 1);
      a[i], a[j] := a[j], a[i];
    }
  }

  /** The per-machine task counts. With tasks and no machines the round-robin index `i % m` divides
      by zero. Otherwise there is one count per machine, they add up to the number of tasks, and
      they are the round-robin counts in some order: each is n / m or n / m + 1, whatever the shuffle. */
  method DistributeCounts(m: nat, n: nat, swapWith: nat -> nat) returns (r: Result<seq<nat>>)
    ensures r.Err? <==> m == 0 && n > 0
    ensures r.Err? ==> r.error == DivisionByZero
    ensures r.Ok? ==> |r.value| == m && Sum(r.value) == n
    ensures r.Ok? ==> multiset(r.value) == multiset(RoundRobin(m, n))
    ensures r.Ok? ==> forall k :: 0 <= k < m ==> r.value[k] == n / m || r.value[k] == n / m + 1
  {
    var counts := new nat[m](_ => 0);
    SumOfZeros(counts[..]);
    for i := 0 to n
      invariant forall k :: 0 <= k < m ==> counts[k] == Share(i, m, k)
      invariant Sum(counts[..]) == i
    {
      if m == 0 {
        return Err(DivisionByZero);
      }
      var k := i % m;
      forall k' | 0 <= k' < m ensures Share(i + 1, m, k') == Share(i, m, k') + (if k' == k then 1 else 0) {
        ShareStep(i, m, k');
      }
      ghost var before := counts[..];
      SumIncrement(before, k);
      counts[k] := counts[k] + 1;
      assert counts[..] == before[k := before[k] + 1];
    }
    ghost var dealt := counts[..];
    assert dealt == RoundRobin(m, n);
    Shuffle(counts, swapWith);
    var shuffled := counts[..];
    forall k | 0 <= k < m ensures shuffled[k] == n / m || shuffled[k] == n / m + 1 {
      assert shuffled[k] in multiset(dealt);
    }
    if m > 0 {
      SumOfTwoValues(dealt, n / m);
      SumOfTwoValues(shuffled, n / m);
    }
    r := Ok(shuffled);
  }

  /** Every machine receives at least one task exactly when there are at least as many tasks as machines. */
  lemma EveryMachineBusyIff(m: nat, n: nat, counts: seq<nat>)
    requires m > 0
    requires multiset(counts) == multiset(RoundRobin(m, n))
    ensures (forall k :: 0 <= k < |counts| ==> counts[k] >= 1) <==> n >= m
  {
    var dealt := RoundRobin(m, n);
    if n >= m {
      assert n / m >= 1 by {
        assert n == n / m * m + n % m && n % m < m;
      }
      forall k | 0 <= k < |counts| ensures counts[k] >= 1 {
        assert counts[k] in multiset(dealt);
      }
    } else {
      DivModUnique(n, m, 0, n);
      assert dealt[m - 1] == 0;
      assert 0 in multiset(counts);
    }
  }
}
