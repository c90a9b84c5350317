/** Value-level facts about assignments: the agent sequences an ant keeps,
    permutations of the agents 0..n-1, and the cost of a path over a cost matrix. */
module Paths {

  /** The agents 0..n-1 in ascending order: `list(range(n))`. */
  function Range(n: nat): (r: seq<int>)
    ensures |r| == n && forall k :: 0 <= k < n ==> r[k] == k
  {
    seq(n, k => k)
  }

  /** No agent occurs twice. */
  predicate Distinct(s: seq<int>) {
    forall i, j :: 0 <= i < j < |s| ==> s[i] != s[j]
  }

  /** Each agent is smaller than the next. */
  predicate Ascending(s: seq<int>)
    decreases |s|
  {
    |s| < 2 || (s[0] < s[1] && Ascending(s[1..]))
  }

  predicate InRange(s: seq<int>, n: int) {
    forall k :: 0 <= k < |s| ==> 0 <= s[k] < n
  }

  /** How many times agent `x` occurs in `s`. */
  function Count(s: seq<int>, x: int): nat
    decreases |s|
  {
    if |s| == 0 then 0 else (if s[0] == x then 1 else 0) + Count(s[1..], x)
  }

  lemma {:induction false} CountConcat(a: seq<int>, b: seq<int>, x: int)
    ensures Count(a + b, x) == Count(a, x) + Count(b, x)
    decreases |a|
  {
    if a == [] {
      assert a + b == b;
    } else {
      CountConcat(a[1..], b, x);
      assert (a + b)[1..] == a[1..] + b;
    }
  }

  /** An agent occurs in `s` exactly when it is counted there. */
  lemma {:induction false} CountIn(s: seq<int>, x: int)
    ensures Count(s, x) > 0 <==> x in s
    decreases |s|
  {
    if s != [] {
      CountIn(s[1..], x);
      assert s == [s[0]] + s[1..];
    }
  }

  /** `range(n)` holds every agent 0..n-1 exactly once and nothing else. */
  lemma {:induction false} RangeCount(n: nat, x: int)
    ensures Count(Range(n), x) == if 0 <= x < n then 1 else 0
  {
    if n > 0 {
      RangeCount(n - 1, x);
      assert Range(n) == Range(n - 1) + [n - 1];
      CountConcat(Range(n - 1), [n - 1], x);
      assert [n - 1][1..] == [];
    }
  }

  /** `list.remove`: drops the first occurrence of `x`; the list is returned
      unchanged when `x` does not occur (where Python raises instead). */
  function Remove(s: seq<int>, x: int): seq<int>
    decreases |s|
  {
    if |s| == 0 then []
    else if s[0] == x then s[1..]
    else [s[0]] + Remove(s[1..], x)
  }

  /** Removing an agent that occurs shortens the list by one; removing one
      that does not occur changes nothing. */
  lemma {:induction false} RemoveLength(s: seq<int>, x: int)
    ensures x in s ==> |Remove(s, x)| == |s| - 1
    ensures x !in s ==> Remove(s, x) == s
    decreases |s|
  {
    if |s| > 0 && s[0] != x {
      RemoveLength(s[1..], x);
      assert x in s <==> x in s[1..] by {
        assert s == [s[0]] + s[1..];
      }
      if x !in s {
        assert s == [s[0]] + s[1..];
      }
    }
  }

  /** Removal takes away exactly one occurrence of `x`, if there is one, and
      no occurrence of any other agent. */
  lemma {:induction false} RemoveCount(s: seq<int>, x: int, y: int)
    ensures Count(Remove(s, x), y) == if y == x && x in s then Count(s, y) - 1 else Count(s, y)
    decreases |s|
  {
    if |s| > 0 && s[0] != x {
      RemoveCount(s[1..], x, y);
      var rest := Remove(s[1..], x);
      assert ([s[0]] + rest)[1..] == rest;
      assert x in s <==> x in s[1..] by {
        assert s == [s[0]] + s[1..];
      }
    }
  }

  /** Removing an agent that does not occur before position `k` cuts out
      exactly position `k`. */
  lemma {:induction false} RemoveAt(s: seq<int>, k: nat)
    requires k < |s| && s[k] !in s[..k]
    ensures Remove(s, s[k]) == s[..k] + s[k + 1..]
    decreases k
  {
    if k > 0 {
      var t := s[1..];
      assert t[k - 1] == s[k] && t[..k - 1] == s[1..k];
      assert s[0] == s[..k][0];
      RemoveAt(t, k - 1);
      assert s[..k] == [s[0]] + t[..k - 1];
      assert s[k + 1..] == t[k..];
    }
  }

  /** An agent counted once in `s` does not occur before its position. */
  lemma UniqueNotBefore(s: seq<int>, k: nat)
    requires k < |s| && Count(s, s[k]) <= 1
    ensures s[k] !in s[..k]
  {
    assert s == s[..k] + s[k..];
    CountConcat(s[..k], s[k..], s[k]);
    assert s[k..][0] == s[k];
    CountIn(s[..k], s[k]);
  }

  /** Removal keeps only agents that were there. */
  lemma RemovedWasThere(s: seq<int>, x: int, y: int)
    requires y in Remove(s, x)
    ensures y in s
  {
    RemoveCount(s, x, y);
    CountIn(Remove(s, x), y);
    CountIn(s, y);
  }

  /** The available agents start as `range(n)` and removal keeps them in
      ascending order, so ties in the greedy choice go to the smallest agent. */
  lemma {:induction false} RemoveKeepsAscending(s: seq<int>, x: int)
    requires Ascending(s)
    ensures Ascending(Remove(s, x))
    decreases |s|
  {
    if s != [] && s[0] != x {
      var t := s[1..];
      RemoveKeepsAscending(t, x);
      var rest := Remove(t, x);
      if rest != [] {
        if t[0] == x {
          assert rest == t[1..] && s[1] < s[2];
        } else {
          assert rest[0] == t[0];
        }
      }
      assert ([s[0]] + rest)[1..] == rest;
    }
  }

  /** A sequence whose neighbours increase is ascending. */
  lemma {:induction false} IncreasingIsAscending(s: seq<int>)
    requires forall i :: 0 <= i < |s| - 1 ==> s[i] < s[i + 1]
    ensures Ascending(s)
    decreases |s|
  {
    if |s| >= 2 {
      IncreasingIsAscending(s[1..]);
    }
  }

  /** In an ascending list, a later position holds a larger agent. */
  lemma {:induction false} AscendingMono(s: seq<int>, i: nat, j: nat)
    requires Ascending(s) && i < j < |s|
    ensures s[i] < s[j]
    decreases j
  {
    if i == 0 {
      if j > 1 {
        AscendingMono(s[1..], 0, j - 1);
      }
    } else {
      AscendingMono(s[1..], i - 1, j - 1);
    }
  }

  /** The agents start out in ascending order. */
  lemma RangeAscending(n: nat)
    ensures Ascending(Range(n))
  {
    IncreasingIsAscending(Range(n));
  }

  /** The state invariant of an ant: the assigned agents `path` and the
      remaining agents `avail` together hold every agent 0..n-1 exactly once. */
  predicate Partitioned(path: seq<int>, avail: seq<int>, n: nat) {
    && |path| + |avail| == n && InRange(path, n) && InRange(avail, n)
    && forall x :: 0 <= x < n ==> Count(path, x) + Count(avail, x) == 1
  }

  /** A complete assignment: n agents of 0..n-1, each exactly once. */
  predicate IsPermutation(p: seq<int>, n: nat) {
    && |p| == n && InRange(p, n)
    && forall x :: 0 <= x < n ==> Count(p, x) == 1
  }

  /** What the partition means element by element: an agent on the path is
      not available, and an agent of 0..n-1 not on the path is available. */
  lemma PartitionedFacts(path: seq<int>, avail: seq<int>, n: nat)
    requires Partitioned(path, avail, n)
    ensures forall x :: x in avail ==> x !in path
    ensures forall x :: 0 <= x < n && x !in path ==> x in avail
  {
    forall x | x in avail ensures x !in path {
      var k :| 0 <= k < |avail| && avail[k] == x;
      CountIn(avail, x);
      CountIn(path, x);
    }
    forall x | 0 <= x < n && x !in path ensures x in avail {
      CountIn(avail, x);
      CountIn(path, x);
    }
  }

  /** Two positions holding the same agent count it twice. */
  lemma RepeatCountsTwice(s: seq<int>, i: int, j: int)
    requires 0 <= i < j < |s| && s[i] == s[j]
    ensures Count(s, s[i]) >= 2
  {
    assert s == s[..j] + s[j..];
    CountConcat(s[..j], s[j..], s[i]);
    assert s[..j][i] == s[i];
    CountIn(s[..j], s[i]);
    assert s[j..][0] == s[j];
  }

  /** A permutation, element by element: none of its agents repeats and
      none of 0..n-1 is missing. */
  lemma PermutationFacts(p: seq<int>, n: nat)
    requires IsPermutation(p, n)
    ensures Distinct(p)
    ensures forall x :: 0 <= x < n ==> x in p
  {
    forall x | 0 <= x < n ensures x in p {
      CountIn(p, x);
    }
    forall i, j | 0 <= i < j < |p| ensures p[i] != p[j] {
      if p[i] == p[j] {
        RepeatCountsTwice(p, i, j);
      }
    }
  }

  /** A fresh ant: nothing assigned, every agent available. */
  lemma FreshPartition(n: nat)
    ensures Partitioned([], Range(n), n)
  {
    forall x | 0 <= x < n ensures Count([], x) + Count(Range(n), x) == 1 {
      RangeCount(n, x);
    }
  }

  /** One assignment step moves an available agent onto the path and keeps
      the partition. */
  lemma AssignKeepsPartition(path: seq<int>, avail: seq<int>, n: nat, x: int)
    requires Partitioned(path, avail, n) && x in avail
    ensures Partitioned(path + [x], Remove(avail, x), n)
  {
    var p, a := path + [x], Remove(avail, x);
    RemoveLength(avail, x);
    assert 0 <= x < n by {
      var k :| 0 <= k < |avail| && avail[k] == x;
    }
    assert InRange(p, n) by {
      forall k | 0 <= k < |p| ensures 0 <= p[k] < n {
        if k < |path| {
          assert p[k] == path[k];
        }
      }
    }
    assert InRange(a, n) by {
      forall k | 0 <= k < |a| ensures 0 <= a[k] < n {
        RemovedWasThere(avail, x, a[k]);
      }
    }
    forall y | 0 <= y < n ensures Count(p, y) + Count(a, y) == 1 {
      RemoveCount(avail, x, y);
      CountConcat(path, [x], y);
      assert [x][1..] == [];
    }
  }

  /** Once no agent is available the path is a complete assignment. */
  lemma CompleteIsPermutation(path: seq<int>, n: nat)
    requires Partitioned(path, [], n)
    ensures IsPermutation(path, n)
  {
  }

  predicate Square(M: seq<seq<int>>) {
    forall i :: 0 <= i < |M| ==> |M[i]| == |M|
  }

  predicate NonNegativeCosts(M: seq<seq<int>>) {
    forall i, j :: 0 <= i < |M| && 0 <= j < |M[i]| ==> M[i][j] >= 0
  }

  /** Every assignment has a strictly positive cost. */
  predicate PositiveCosts(M: seq<seq<int>>) {
    forall i, j :: 0 <= i < |M| && 0 <= j < |M[i]| ==> M[i][j] > 0
  }

  /** Cost of assigning task k to agent p[k] for every k < |p|. */
  function PathCost(M: seq<seq<int>>, p: seq<int>): int
    requires Square(M) && |p| <= |M| && InRange(p, |M|)
    decreases |p|
  {
    if |p| == 0 then 0 else PathCost(M, p[..|p| - 1]) + M[|p| - 1][p[|p| - 1]]
  }

  /** Assigning one more task adds exactly that task's cost. */
  lemma PathCostAppend(M: seq<seq<int>>, p: seq<int>, x: int)
    requires Square(M) && |p| < |M| && InRange(p, |M|) && 0 <= x < |M|
    ensures InRange(p + [x], |M|)
    ensures PathCost(M, p + [x]) == PathCost(M, p) + M[|p|][x]
  {
    assert (p + [x])[..|p|] == p;
  }

  /** A matrix of non-negative costs gives every path a non-negative cost. */
  lemma {:induction false} PathCostNonNegative(M: seq<seq<int>>, p: seq<int>)
    requires Square(M) && |p| <= |M| && InRange(p, |M|) && NonNegativeCosts(M)
    ensures PathCost(M, p) >= 0
  {
    if p != [] {
      PathCostNonNegative(M, p[..|p| - 1]);
    }
  }

  /** Positive costs give every non-empty path a positive cost, so the
      division `1/cost` cannot fail. */
  lemma {:induction false} PathCostPositive(M: seq<seq<int>>, p: seq<int>)
    requires Square(M) && 1 <= |p| <= |M| && InRange(p, |M|) && PositiveCosts(M)
    ensures PathCost(M, p) > 0
    decreases |p|
  {
    if |p| > 1 {
      PathCostPositive(M, p[..|p| - 1]);
    }
  }

  /** The pheromone an ant of the given cost deposits: `1/cost`. */
  function Delta(cost: int): real
    requires cost != 0
  {
    1.0 / cost as real
  }

  /** A cheaper path deposits more: for positive costs the deposit is positive
      and strictly decreasing in the cost. */
  lemma DeltaAntitone(c1: int, c2: int)
    requires 0 < c1 <= c2
    ensures 0.0 < Delta(c2) <= Delta(c1)
    ensures c1 < c2 ==> Delta(c2) < Delta(c1)
  {
    var r1, r2 := c1 as real, c2 as real;
    assert Delta(c1) * r1 == 1.0 && Delta(c2) * r2 == 1.0;
    assert Delta(c1) - Delta(c2) == (r2 - r1) * Delta(c1) * Delta(c2);
  }
}
