/** The colony: owns the pheromone tensor G of shape (n-1, n, n) and, once per
    epoch, lets a population of ants explore, evaporates G, deposits each ant's
    pheromone along its path, evaluates one greedy ant per start agent and
    reinforces the best greedy path. */
module Colonies {
  import opened Basics
  import opened Paths
  import opened Ants

  /** What a path lays on entry (l, a, b): `amount` when the path goes from
      agent a at step l to agent b at step l+1, nothing otherwise. */
  function TrailAt(path: seq<int>, amount: real, l: int, a: int, b: int): real {
    if 0 <= l && l + 1 < |path| && path[l] == a && path[l + 1] == b then amount else 0.0
  }

  /** What one ant deposits: its path and the amount laid on each step of it. */
  datatype Trail = Trail(path: seq<int>, amount: real)

  /** The deposits of the population, one per ant, in order. */
  ghost function Trails(ants: seq<Ant>): (ts: seq<Trail>)
    reads ants
    requires forall t :: 0 <= t < |ants| ==> ants[t].pheromoneDelta.Some?
    ensures |ts| == |ants|
    ensures forall t :: 0 <= t < |ants| ==> ts[t] == Trail(ants[t].path, ants[t].pheromoneDelta.value)
  {
    if |ants| == 0 then []
    else
      var last := ants[|ants| - 1];
      Trails(ants[..|ants| - 1]) + [Trail(last.path, last.pheromoneDelta.value)]
  }

  /** What the first k deposits lay together on entry (l, a, b). */
  function DepositAt(trails: seq<Trail>, k: nat, l: int, a: int, b: int): real
    requires k <= |trails|
  {
    if k == 0 then 0.0
    else DepositAt(trails, k - 1, l, a, b) + TrailAt(trails[k - 1].path, trails[k - 1].amount, l, a, b)
  }

  /** With non-negative amounts, no entry receives a negative deposit. */
  lemma {:induction false} DepositNonNegative(trails: seq<Trail>, k: nat, l: int, a: int, b: int)
    requires k <= |trails| && forall t :: 0 <= t < |trails| ==> trails[t].amount >= 0.0
    ensures DepositAt(trails, k, l, a, b) >= 0.0
  {
    if k > 0 {
      DepositNonNegative(trails, k - 1, l, a, b);
    }
  }

  /** A path only ever reaches entries of consecutive steps it takes; in
      particular a one-agent path (n = 1) reaches none. */
  lemma TrailOnlyOnPath(path: seq<int>, amount: real, l: int, a: int, b: int)
    requires TrailAt(path, amount, l, a, b) != 0.0
    ensures 0 <= l && l + 2 <= |path| && path[l] == a && path[l + 1] == b
  {
  }

  /** An ant whose cached cost is positive deposits a positive amount. */
  lemma CostedDeltaPositive(ant: Ant)
    requires ant.Costed() && NonNegativeCosts(ant.M)
    ensures ant.pheromoneDelta.value > 0.0
  {
    PathCostNonNegative(ant.M, ant.path);
    DeltaAntitone(ant.cost.value, ant.cost.value);
  }

  /** A non-negative fraction of a non-negative amount is non-negative. */
  lemma ProductNonNegative(x: real, y: real)
    requires x >= 0.0 && y >= 0.0
    ensures x * y >= 0.0
  {
  }

  ghost predicate NonNegative(G: array3<real>)
    reads G
  {
    forall l, a, b :: 0 <= l < G.Length0 && 0 <= a < G.Length1 && 0 <= b < G.Length2 ==> G[l, a, b] >= 0.0
  }

  /** Cost of the greedy ant seeded with start agent `s`. */
  function GreedyCost(G: array3<real>, M: seq<seq<int>>, s: int): int
    reads G
    requires Square(M) && Shaped(G, |M|) && 0 <= s < |M|
  {
    PathCost(M, GreedyPath(G, |M|, s))
  }

  /** Costs of the greedy ants seeded with the start agents 0..k-1, in order. */
  function GreedyCosts(G: array3<real>, M: seq<seq<int>>, k: nat): (c: seq<int>)
    reads G
    requires Square(M) && Shaped(G, |M|) && k <= |M|
    ensures |c| == k
  {
    if k == 0 then [] else GreedyCosts(G, M, k - 1) + [GreedyCost(G, M, k - 1)]
  }

  /** Entry s of the list is the cost of the greedy ant seeded with s. */
  lemma {:induction false} GreedyCostsAt(G: array3<real>, M: seq<seq<int>>, k: nat, s: nat)
    requires Square(M) && Shaped(G, |M|) && s < k <= |M|
    ensures GreedyCosts(G, M, k)[s] == GreedyCost(G, M, s)
  {
    var init := GreedyCosts(G, M, k - 1);
    assert GreedyCosts(G, M, k) == init + [GreedyCost(G, M, k - 1)];
    if s < k - 1 {
      GreedyCostsAt(G, M, k - 1, s);
      assert GreedyCosts(G, M, k)[s] == init[s];
    }
  }

  /** With positive costs no greedy ant costs nothing, so `evaluate` cannot fail. */
  lemma GreedyCostsPositive(G: array3<real>, M: seq<seq<int>>)
    requires Square(M) && Shaped(G, |M|) && PositiveCosts(M)
    ensures forall s :: 0 <= s < |M| ==> GreedyCosts(G, M, |M|)[s] > 0
  {
    forall s | 0 <= s < |M| ensures GreedyCosts(G, M, |M|)[s] > 0 {
      GreedyCostsAt(G, M, |M|, s);
      PathCostPositive(M, GreedyPath(G, |M|, s));
    }
  }

  /** The position of the first minimum of `c`: the loop of `evaluate`
      replaces its best ant only on a strictly smaller cost. */
  function FirstMin(c: seq<int>): (s: nat)
    requires |c| > 0
    ensures s < |c|
  {
    if |c| == 1 then 0
    else
      var s := FirstMin(c[..|c| - 1]);
      if c[s] > c[|c| - 1] then |c| - 1 else s
  }

  /** `FirstMin` picks a smallest cost, and every cost before it is strictly larger. */
  lemma {:induction false} FirstMinIsFirstMinimum(c: seq<int>)
    requires |c| > 0
    ensures var s := FirstMin(c);
      && (forall i :: 0 <= i < |c| ==> c[s] <= c[i])
      && (forall i :: 0 <= i < s ==> c[s] < c[i])
  {
    if |c| > 1 {
      var init := c[..|c| - 1];
      FirstMinIsFirstMinimum(init);
      assert forall i :: 0 <= i < |init| ==> c[i] == init[i];
    }
  }

  /** The winner of `evaluate`: the greedy ant at the first minimum of the
      costs is no more expensive than any greedy ant and strictly cheaper than
      every one seeded before it; it starts at its seed and assigns every agent once. */
  lemma CheapestGreedy(G: array3<real>, M: seq<seq<int>>)
    requires Square(M) && Shaped(G, |M|) && |M| >= 1
    ensures var s := FirstMin(GreedyCosts(G, M, |M|));
      && (forall t :: 0 <= t < |M| ==> GreedyCost(G, M, s) <= GreedyCost(G, M, t))
      && (forall t :: 0 <= t < s ==> GreedyCost(G, M, s) < GreedyCost(G, M, t))
      && IsPermutation(GreedyPath(G, |M|, s), |M|) && GreedyPath(G, |M|, s)[0] == s
  {
    var c := GreedyCosts(G, M, |M|);
    var s := FirstMin(c);
    FirstMinIsFirstMinimum(c);
    forall t | 0 <= t < |M| ensures c[t] == GreedyCost(G, M, t) {
      GreedyCostsAt(G, M, |M|, t);
    }
    GreedyPathStarts(G, |M|, s);
  }

  /** One greedy move, `ant.add_assignment(ant.choose_best())`: the agent
      `BestIn` picks moves from the available agents onto the path, which is
      the step `Greedy` takes, so the greedy completion stays the same. */
  method TakeBest(ant: Ant)
    requires ant.Valid() && Shaped(ant.G, ant.n) && |ant.path| >= 1 && ant.availableNodes != []
    modifies ant`path, ant`currentNode, ant`availableNodes
    ensures ant.Valid()
    ensures var b := old(ant.availableNodes[BestIn(ant.G, |ant.path| - 1, ant.path[|ant.path| - 1], ant.availableNodes)]);
      && ant.path == old(ant.path) + [b] && ant.currentNode == old(ant.currentNode) + 1
      && ant.availableNodes == Remove(old(ant.availableNodes), b)
    ensures Greedy(ant.G, ant.n, ant.path, ant.availableNodes)
      == old(Greedy(ant.G, ant.n, ant.path, ant.availableNodes))
  {
    var next := ant.ChooseBest();
    GreedyStep(ant.G, ant.n, ant.path, ant.availableNodes);
    PartitionedFacts(ant.path, ant.availableNodes, ant.n);
    var done := ant.AddAssignment(next.value);
  }

  /** Appending a cost moves the first minimum only to a strictly smaller cost. */
  lemma FirstMinAppend(c: seq<int>, x: int)
    requires |c| > 0
    ensures FirstMin(c + [x]) == if c[FirstMin(c)] > x then |c| else FirstMin(c)
  {
    assert (c + [x])[..|c|] == c;
  }

  class AntColony {
    const nAnts: nat
    const initialPheromone: real
    const evaporationRate: real
    const e: real
    var M: seq<seq<int>>
    var n: nat
    var G: array3<real>
    var ants: seq<Ant>

    /** The matrix is square and non-empty, and G has shape (n-1, n, n). */
    ghost predicate Valid()
      reads this
    {
      n == |M| && n >= 1 && Square(M) && Shaped(G, n)
    }

    /** The hypotheses under which G never goes negative: evaporation keeps a
        fraction in [0, 1] of each entry, elitist weight and costs are non-negative. */
    ghost predicate Stable()
      reads this
    {
      0.0 <= evaporationRate <= 1.0 && e >= 0.0 && NonNegativeCosts(M)
    }

    constructor (nAnts: nat, initialPheromone: real, evaporationRate: real, e: real)
      ensures this.nAnts == nAnts && this.initialPheromone == initialPheromone
      ensures this.evaporationRate == evaporationRate && this.e == e
      ensures ants == []
    {
      this.nAnts := nAnts;
      this.initialPheromone := initialPheromone;
      this.evaporationRate := evaporationRate;
      this.e := e;
      M := [];
      n := 0;
      G := new real[0, 0, 0];
      ants := [];
    }

    /** Runs `nIterations` epochs over a fresh tensor filled with the initial
        pheromone and returns the best greedy ant of the last epoch.
        `choose(epoch, ant, step)` stands for the random choices of the
        exploring ants: it selects, by index, one of the still available agents. */
    method Fit(matrix: seq<seq<int>>, nIterations: nat, choose: (nat, nat, nat) -> nat) returns (r: Result<Ant>)
      requires Square(matrix)
      modifies this
      ensures |matrix| == 0 ==> r == Failure(EmptyMatrix)
      ensures |matrix| > 0 && nIterations == 0 ==> r == Failure(NoBestAnt)
      ensures r.Failure? ==> r.error in {EmptyMatrix, NoBestAnt, ZeroPathCost}
      ensures (&& |matrix| > 0 && nIterations > 0 && PositiveCosts(matrix)
               && initialPheromone > 0.0 && 0.0 <= evaporationRate < 1.0 && e >= 0.0)
        ==> r.Success?
      ensures r.Success? ==>
        && Valid() && M == matrix && fresh(G)
        && r.value.Costed() && r.value.n == n && IsPermutation(r.value.path, n)
      ensures r.Success? && initialPheromone >= 0.0 && Stable() ==> NonNegative(G)
    {
      M := matrix;
      n := |matrix|;
      if n == 0 {
        return Failure(EmptyMatrix);
      }
      var p0 := initialPheromone;
      G := new real[n - 1, n, n]((l, a, b) => p0);
      var best: Ant? := null;
      var epoch := 0;
      while epoch < nIterations
        invariant 0 <= epoch <= nIterations
        invariant Valid() && M == matrix && fresh(G)
        invariant epoch == 0 ==> best == null
        invariant epoch > 0 ==> best != null && best.Costed() && best.n == n && IsPermutation(best.path, n)
        invariant initialPheromone >= 0.0 && Stable() ==> NonNegative(G)
      {
        var outcome := Epoch(epoch, choose);
        if outcome.Failure? {
          return Failure(outcome.error);
        }
        best := outcome.value;
        epoch := epoch + 1;
      }
      if best == null {
        return Failure(NoBestAnt);
      }
      r := Success(best);
    }

    /** One iteration of `fit`, in the source's order: explore and evaluate
        the explorers (`Populate`), then update the pheromone and evaluate the
        greedy ants (`Reinforce`). */
    method Epoch(epoch: nat, choose: (nat, nat, nat) -> nat) returns (r: Result<Ant>)
      requires Valid()
      modifies this`ants, G
      ensures Valid()
      ensures r.Failure? ==> r.error == ZeroPathCost
      ensures PositiveCosts(M) ==> r.Success?
      ensures r.Success? ==>
        && |ants| == nAnts
        && (forall t :: 0 <= t < |ants| ==> ants[t].Costed() && IsPermutation(ants[t].path, n))
        && fresh(r.value) && r.value.Costed() && r.value.n == n && r.value.M == M
        && IsPermutation(r.value.path, n)
      ensures r.Success? && Stable() && old(NonNegative(G)) ==> NonNegative(G)
    {
      var fitness := Populate(epoch, choose);
      if fitness.Fail? {
        return Failure(fitness.error);
      }
      if Stable() {
        forall t | 0 <= t < |ants| ensures ants[t].pheromoneDelta.value >= 0.0 {
          CostedDeltaPositive(ants[t]);
        }
      }
      r := Reinforce();
    }

    /** The exploring half of an epoch: `nAnts` ants build their paths by
        `choose`, then each caches its cost and deposit. */
    method Populate(epoch: nat, choose: (nat, nat, nat) -> nat) returns (r: Outcome)
      requires Valid()
      modifies this`ants
      ensures r.Fail? ==> r.error == ZeroPathCost
      ensures PositiveCosts(M) ==> r.Pass?
      ensures r.Pass? ==> |ants| == nAnts && forall t :: 0 <= t < |ants| ==>
        && fresh(ants[t]) && ants[t].Costed() && ants[t].M == M && IsPermutation(ants[t].path, n)
    {
      var population := Spawn(epoch, choose);
      ants := population;
      r := EvaluateFitness();
      if PositiveCosts(M) {
        forall t | 0 <= t < |ants| ensures PathCost(M, ants[t].path) > 0 {
          PathCostPositive(M, ants[t].path);
        }
      }
    }

    /** The pheromone half of an epoch: evaporate, let every explorer
        deposit, evaluate the greedy ants on the updated tensor and let the
        best one deposit again, weighted by `e`. */
    method Reinforce() returns (r: Result<Ant>)
      requires Valid()
      requires forall t :: 0 <= t < |ants| ==>
        ants[t].pheromoneDelta.Some? && |ants[t].path| == n && InRange(ants[t].path, n)
      modifies G
      ensures r.Failure? ==> r.error == ZeroPathCost
      ensures PositiveCosts(M) ==> r.Success?
      ensures r.Success? ==>
        && fresh(r.value) && r.value.Costed() && r.value.n == n && r.value.M == M
        && IsPermutation(r.value.path, n)
      ensures r.Success? && Stable() && old(NonNegative(G))
        && (forall t :: 0 <= t < |ants| ==> ants[t].pheromoneDelta.value >= 0.0)
        ==> NonNegative(G)
    {
      ghost var safe := Stable() && NonNegative(G)
        && forall t :: 0 <= t < |ants| ==> ants[t].pheromoneDelta.value >= 0.0;
      Deposit();
      r := PickBest();
      if r.Failure? {
        return;
      }
      if safe {
        CostedDeltaPositive(r.value);
      }
      PlaceAdditionalPheromone(r.value);
    }

    /** Evaporation followed by the deposits of the explorers. */
    method Deposit()
      requires Valid()
      requires forall t :: 0 <= t < |ants| ==>
        ants[t].pheromoneDelta.Some? && |ants[t].path| == n && InRange(ants[t].path, n)
      modifies G
      ensures Stable() && old(NonNegative(G))
        && (forall t :: 0 <= t < |ants| ==> ants[t].pheromoneDelta.value >= 0.0)
        ==> NonNegative(G)
    {
      EvaporatePheromone();
      PlacePheromone();
    }

    /** The `nAnts` exploring ants of one epoch, each with a complete path. */
    method Spawn(epoch: nat, choose: (nat, nat, nat) -> nat) returns (population: seq<Ant>)
      requires Valid()
      ensures |population| == nAnts
      ensures forall t :: 0 <= t < |population| ==>
        && fresh(population[t]) && population[t].Valid() && population[t].M == M
        && population[t].cost.None? && IsPermutation(population[t].path, n)
    {
      population := [];
      var k := 0;
      while k < nAnts
        invariant k <= nAnts && |population| == k
        invariant forall t :: 0 <= t < k ==>
          && fresh(population[t]) && population[t].Valid() && population[t].M == M
          && population[t].cost.None? && IsPermutation(population[t].path, n)
      {
        var ant := Explore(choose, epoch, k);
        population := population + [ant];
        k := k + 1;
      }
    }

    /** An exploring ant: its first agent and every later one are picked among
        the available agents by `choose`, until none is left. */
    method Explore(choose: (nat, nat, nat) -> nat, epoch: nat, k: nat) returns (ant: Ant)
      requires Valid()
      ensures fresh(ant) && ant.Valid() && ant.M == M && ant.G == G && ant.n == n
      ensures ant.availableNodes == [] && IsPermutation(ant.path, n)
      ensures ant.cost == None && ant.pheromoneDelta == None
    {
      ant := new Ant(M, G);
      var done := ant.AddAssignment(ant.availableNodes[choose(epoch, k, 0) % |ant.availableNodes|]);
      while ant.availableNodes != []
        invariant fresh(ant) && ant.Valid() && ant.M == M && ant.G == G && ant.n == n
        invariant ant.cost == None && ant.pheromoneDelta == None
        decreases |ant.availableNodes|
      {
        var node := ant.availableNodes[choose(epoch, k, |ant.path|) % |ant.availableNodes|];
        PartitionedFacts(ant.path, ant.availableNodes, n);
        done := ant.AddAssignment(node);
      }
      CompleteIsPermutation(ant.path, n);
    }

    /** Caches cost and deposit of every ant in the population; stops at the
        first ant whose path costs nothing. */
    method EvaluateFitness() returns (r: Outcome)
      requires forall t :: 0 <= t < |ants| ==>
        ants[t].Valid() && Square(ants[t].M) && (ants[t].cost.None? || ants[t].Costed())
      modifies ants
      ensures forall t :: 0 <= t < |ants| ==>
        && ants[t].path == old(ants[t].path) && ants[t].availableNodes == old(ants[t].availableNodes)
      ensures forall t :: 0 <= t < |ants| ==>
        && ants[t].Valid() && Square(ants[t].M)
        && (ants[t].cost.None? || ants[t].cost == Some(PathCost(ants[t].M, ants[t].path)))
      ensures r == Pass <==> forall t :: 0 <= t < |ants| ==> ants[t].Costed()
      ensures r.Fail? ==> r.error == ZeroPathCost
      ensures r.Fail? ==>
        exists t :: 0 <= t < |ants| && ants[t].Valid() && Square(ants[t].M)
          && PathCost(ants[t].M, ants[t].path) == 0
    {
      var t := 0;
      while t < |ants|
        invariant 0 <= t <= |ants|
        invariant forall s :: 0 <= s < |ants| ==>
          && ants[s].path == old(ants[s].path) && ants[s].availableNodes == old(ants[s].availableNodes)
          && ants[s].Valid() && Square(ants[s].M) && (ants[s].cost.None? || ants[s].Costed())
        invariant forall s :: 0 <= s < t ==> ants[s].Costed()
      {
        var outcome := ants[t].CalculateCost();
        if outcome.Fail? {
          assert !ants[t].Costed();
          return outcome;
        }
        t := t + 1;
      }
      r := Pass;
    }

    /** Every entry keeps the fraction 1 - evaporationRate of its value. */
    method EvaporatePheromone()
      modifies G
      ensures forall l, a, b :: 0 <= l < G.Length0 && 0 <= a < G.Length1 && 0 <= b < G.Length2 ==>
        G[l, a, b] == old(G[l, a, b]) * (1.0 - evaporationRate)
      ensures evaporationRate <= 1.0 && old(NonNegative(G)) ==> NonNegative(G)
    {
      var keep := 1.0 - evaporationRate;
      var l := 0;
      while l < G.Length0
        invariant 0 <= l <= G.Length0
        invariant forall l', a', b' :: 0 <= l' < G.Length0 && 0 <= a' < G.Length1 && 0 <= b' < G.Length2 ==>
          G[l', a', b'] == if l' < l then old(G[l', a', b']) * keep else old(G[l', a', b'])
      {
        var a := 0;
        while a < G.Length1
          invariant 0 <= a <= G.Length1
          invariant forall l', a', b' :: 0 <= l' < G.Length0 && 0 <= a' < G.Length1 && 0 <= b' < G.Length2 ==>
            G[l', a', b'] == if l' < l || (l' == l && a' < a) then old(G[l', a', b']) * keep else old(G[l', a', b'])
        {
          var b := 0;
          while b < G.Length2
            invariant 0 <= b <= G.Length2
            invariant forall l', a', b' :: 0 <= l' < G.Length0 && 0 <= a' < G.Length1 && 0 <= b' < G.Length2 ==>
              G[l', a', b'] ==
                if l' < l || (l' == l && (a' < a || (a' == a && b' < b))) then old(G[l', a', b']) * keep
                else old(G[l', a', b'])
          {
            G[l, a, b] := G[l, a, b] * keep;
            b := b + 1;
          }
          a := a + 1;
        }
        l := l + 1;
      }
      if evaporationRate <= 1.0 && old(NonNegative(G)) {
        forall l, a, b | 0 <= l < G.Length0 && 0 <= a < G.Length1 && 0 <= b < G.Length2
          ensures G[l, a, b] >= 0.0
        {
          ProductNonNegative(old(G[l, a, b]), keep);
        }
      }
    }

    /** Adds `amount` to G[i, path[i], path[i+1]] for every step i < n-1. */
    method LayTrail(path: seq<int>, amount: real)
      requires Valid() && |path| == n && InRange(path, n)
      modifies G
      ensures forall l, a, b :: 0 <= l < G.Length0 && 0 <= a < G.Length1 && 0 <= b < G.Length2 ==>
        G[l, a, b] == old(G[l, a, b]) + TrailAt(path, amount, l, a, b)
      ensures amount >= 0.0 && old(NonNegative(G)) ==> NonNegative(G)
    {
      var i := 0;
      while i < n - 1
        invariant 0 <= i <= n - 1
        invariant forall l, a, b :: 0 <= l < G.Length0 && 0 <= a < G.Length1 && 0 <= b < G.Length2 ==>
          G[l, a, b] == old(G[l, a, b]) + if l < i then TrailAt(path, amount, l, a, b) else 0.0
      {
        G[i, path[i], path[i + 1]] := G[i, path[i], path[i + 1]] + amount;
        i := i + 1;
      }
    }

    /** Every ant of the population deposits its pheromone along its path. */
    method PlacePheromone()
      requires Valid()
      requires forall t :: 0 <= t < |ants| ==>
        ants[t].pheromoneDelta.Some? && |ants[t].path| == n && InRange(ants[t].path, n)
      modifies G
      ensures forall l, a, b :: 0 <= l < G.Length0 && 0 <= a < G.Length1 && 0 <= b < G.Length2 ==>
        G[l, a, b] == old(G[l, a, b] + DepositAt(Trails(ants), |ants|, l, a, b))
      ensures old((forall t :: 0 <= t < |ants| ==> ants[t].pheromoneDelta.value >= 0.0) && NonNegative(G))
        ==> NonNegative(G)
    {
      ghost var trails := Trails(ants);
      var t := 0;
      while t < |ants|
        invariant 0 <= t <= |ants|
        invariant forall l, a, b :: 0 <= l < G.Length0 && 0 <= a < G.Length1 && 0 <= b < G.Length2 ==>
          G[l, a, b] == old(G[l, a, b]) + DepositAt(trails, t, l, a, b)
      {
        var path, amount := ants[t].path, ants[t].pheromoneDelta.value;
        assert trails[t] == Trail(path, amount);
        LayTrail(path, amount);
        t := t + 1;
      }
      if old(NonNegative(G)) && forall t :: 0 <= t < |trails| ==> trails[t].amount >= 0.0 {
        forall l, a, b | 0 <= l < G.Length0 && 0 <= a < G.Length1 && 0 <= b < G.Length2
          ensures G[l, a, b] >= 0.0
        {
          DepositNonNegative(trails, |ants|, l, a, b);
        }
      }
    }

    /** One greedy ant per start agent; returns the cheapest, the first one on ties. */
    method Evaluate() returns (r: Result<Ant>)
      requires Valid()
      ensures r.Failure? <==> 0 in GreedyCosts(G, M, n)
      ensures r.Failure? ==> r.error == ZeroPathCost
      ensures r.Success? ==>
        && fresh(r.value) && r.value.M == M
        && r.value.availableNodes == [] && r.value.Costed()
        && r.value.path == GreedyPath(G, n, FirstMin(GreedyCosts(G, M, n)))
    {
      var best: Ant? := null;
      ghost var bi := 0;
      var i := 0;
      while i < n
        invariant 0 <= i <= n && 0 !in GreedyCosts(G, M, i)
        invariant i == 0 ==> best == null
        invariant i > 0 ==>
          && best != null && fresh(best) && best.M == M
          && best.availableNodes == [] && best.Costed()
          && bi == FirstMin(GreedyCosts(G, M, i)) && best.path == GreedyPath(G, n, bi)
          && best.cost == Some(GreedyCosts(G, M, i)[bi])
      {
        var ant, done := Exploit(i);
        if done.Fail? {
          GreedyCostsAt(G, M, n, i);
          return Failure(ZeroPathCost);
        }
        if i > 0 {
          FirstMinAppend(GreedyCosts(G, M, i), ant.cost.value);
        }
        if best == null || best.cost.value > ant.cost.value {
          best := ant;
          bi := i;
        }
        i := i + 1;
      }
      r := Success(best);
    }

    /** `evaluate` as the rest of the epoch relies on it: the winner is a
        fresh, costed ant with a complete assignment. */
    method PickBest() returns (r: Result<Ant>)
      requires Valid()
      ensures r.Failure? ==> r.error == ZeroPathCost
      ensures PositiveCosts(M) ==> r.Success?
      ensures r.Success? ==>
        && fresh(r.value) && r.value.Costed() && r.value.n == n && r.value.M == M
        && IsPermutation(r.value.path, n)
    {
      if PositiveCosts(M) {
        GreedyCostsPositive(G, M);
      }
      r := Evaluate();
      if r.Success? {
        CompleteIsPermutation(r.value.path, n);
      }
    }

    /** The greedy ant seeded with start agent `s`: after the first agent it
        always takes the agent `ChooseBest` returns, until none is left; then
        its cost is calculated. */
    method Exploit(s: int) returns (ant: Ant, done: Outcome)
      requires Valid() && 0 <= s < n
      ensures fresh(ant) && ant.M == M && ant.G == G && ant.n == n && ant.availableNodes == []
      ensures ant.path == GreedyPath(G, n, s) && ant.cost == Some(GreedyCost(G, M, s))
      ensures done.Pass? <==> GreedyCost(G, M, s) != 0
      ensures done.Pass? ==> ant.Costed()
    {
      ant := new Ant(M, G);
      done := ant.AddAssignment(s);
      assert ant.path == [s] && ant.availableNodes == Remove(Range(n), s);
      while ant.availableNodes != []
        invariant fresh(ant) && ant.Valid() && ant.M == M && ant.G == G && ant.n == n
        invariant |ant.path| >= 1 && ant.cost == None
        invariant Greedy(G, n, ant.path, ant.availableNodes) == GreedyPath(G, n, s)
        decreases |ant.availableNodes|
      {
        TakeBest(ant);
      }
      done := ant.CalculateCost();
    }

    /** The best greedy ant deposits its pheromone again, weighted by `e`. */
    method PlaceAdditionalPheromone(best: Ant)
      requires Valid() && best.pheromoneDelta.Some? && |best.path| == n && InRange(best.path, n)
      modifies G
      ensures forall l, a, b :: 0 <= l < G.Length0 && 0 <= a < G.Length1 && 0 <= b < G.Length2 ==>
        G[l, a, b] == old(G[l, a, b]) + TrailAt(best.path, e * best.pheromoneDelta.value, l, a, b)
      ensures e >= 0.0 && best.pheromoneDelta.value >= 0.0 && old(NonNegative(G)) ==> NonNegative(G)
    {
      var amount := e * best.pheromoneDelta.value;
      if e >= 0.0 && best.pheromoneDelta.value >= 0.0 {
        ProductNonNegative(e, best.pheromoneDelta.value);
      }
      LayTrail(best.path, amount);
    }
  }
}
