/** One ant: builds a single task-to-agent assignment, one agent per step, and
    caches its cost and the pheromone it deposits. Also the greedy construction
    as functions of the pheromone tensor, which the greedy ants are proved against. */
module Ants {
  import opened Basics
  import opened Paths

  /** The pheromone tensor G has shape (n-1, n, n): one n-by-n layer per
      transition between consecutive construction steps. */
  predicate Shaped(G: array3<real>, n: int) {
    G.Length0 + 1 == n && G.Length1 == n && G.Length2 == n
  }

  /** `choose_best` as a value: the index in `avail` of the first agent whose
      pheromone G[step, last, ·] is largest (`BestInIsFirstMax`). */
  function BestIn(G: array3<real>, step: int, last: int, avail: seq<int>): (k: nat)
    reads G
    requires |avail| > 0
    requires 0 <= step < G.Length0 && 0 <= last < G.Length1 && InRange(avail, G.Length2)
    ensures k < |avail|
    decreases |avail|
  {
    if |avail| == 1 then 0
    else
      var k := BestIn(G, step, last, avail[..|avail| - 1]);
      if G[step, last, avail[|avail| - 1]] > G[step, last, avail[k]] then |avail| - 1 else k
  }

  /** The agent `BestIn` picks has the most pheromone, and strictly more than
      every agent listed before it: ties go to the first. */
  lemma {:induction false} BestInIsFirstMax(G: array3<real>, step: int, last: int, avail: seq<int>)
    requires |avail| > 0
    requires 0 <= step < G.Length0 && 0 <= last < G.Length1 && InRange(avail, G.Length2)
    ensures var k := BestIn(G, step, last, avail);
      && (forall j :: 0 <= j < |avail| ==> G[step, last, avail[j]] <= G[step, last, avail[k]])
      && (forall j :: 0 <= j < k ==> G[step, last, avail[j]] < G[step, last, avail[k]])
    decreases |avail|
  {
    if |avail| > 1 {
      var init := avail[..|avail| - 1];
      BestInIsFirstMax(G, step, last, init);
      assert forall j :: 0 <= j < |init| ==> avail[j] == init[j];
    }
  }

  /** Conversely, a position that is maximal and strictly above everything
      before it is the one `BestIn` picks, so the greedy choice is fully
      determined by the tensor. */
  lemma BestInUnique(G: array3<real>, step: int, last: int, avail: seq<int>, k: nat)
    requires |avail| > 0
    requires 0 <= step < G.Length0 && 0 <= last < G.Length1 && InRange(avail, G.Length2)
    requires k < |avail|
    requires forall j :: 0 <= j < |avail| ==> G[step, last, avail[j]] <= G[step, last, avail[k]]
    requires forall j :: 0 <= j < k ==> G[step, last, avail[j]] < G[step, last, avail[k]]
    ensures k == BestIn(G, step, last, avail)
  {
    BestInIsFirstMax(G, step, last, avail);
  }

  /** Over an ascending list of agents, the agent `BestIn` picks has the most
      pheromone, and among the agents that tie with it it is the smallest. */
  lemma BestInSmallestOnTie(G: array3<real>, step: int, last: int, avail: seq<int>)
    requires |avail| > 0 && Ascending(avail)
    requires 0 <= step < G.Length0 && 0 <= last < G.Length1 && InRange(avail, G.Length2)
    ensures var b := avail[BestIn(G, step, last, avail)];
      forall a :: a in avail ==>
        G[step, last, a] <= G[step, last, b] && (G[step, last, a] == G[step, last, b] ==> b <= a)
  {
    var k := BestIn(G, step, last, avail);
    BestInIsFirstMax(G, step, last, avail);
    forall j | 0 <= j < |avail| && G[step, last, avail[j]] == G[step, last, avail[k]]
      ensures avail[k] <= avail[j]
    {
      if k < j {
        AscendingMono(avail, k, j);
      }
    }
  }

  /** Greedy completion of a partial assignment: repeatedly move the agent
      `choose_best` picks from `avail` onto the path. */
  function Greedy(G: array3<real>, n: nat, path: seq<int>, avail: seq<int>): (p: seq<int>)
    reads G
    requires Shaped(G, n) && |path| >= 1 && Partitioned(path, avail, n)
    ensures |p| == n && InRange(p, n)
    decreases |avail|
  {
    if |avail| == 0 then path
    else
      var b := avail[BestIn(G, |path| - 1, path[|path| - 1], avail)];
      AssignKeepsPartition(path, avail, n, b);
      Greedy(G, n, path + [b], Remove(avail, b))
  }

  /** The greedy completion extends the partial assignment to a complete one. */
  lemma {:induction false} GreedyCompletes(G: array3<real>, n: nat, path: seq<int>, avail: seq<int>)
    requires Shaped(G, n) && |path| >= 1 && Partitioned(path, avail, n)
    ensures var p := Greedy(G, n, path, avail);
      IsPermutation(p, n) && |path| <= n && forall k :: 0 <= k < |path| ==> p[k] == path[k]
    decreases |avail|
  {
    if |avail| == 0 {
      CompleteIsPermutation(path, n);
    } else {
      var b := avail[BestIn(G, |path| - 1, path[|path| - 1], avail)];
      AssignKeepsPartition(path, avail, n, b);
      GreedyCompletes(G, n, path + [b], Remove(avail, b));
      assert forall k :: 0 <= k < |path| ==> (path + [b])[k] == path[k];
    }
  }

  /** One step of `Greedy`: the agent `BestIn` picks joins the path. */
  lemma GreedyStep(G: array3<real>, n: nat, path: seq<int>, avail: seq<int>)
    requires Shaped(G, n) && |path| >= 1 && Partitioned(path, avail, n) && avail != []
    ensures var b := avail[BestIn(G, |path| - 1, path[|path| - 1], avail)];
      Partitioned(path + [b], Remove(avail, b), n) &&
      Greedy(G, n, path, avail) == Greedy(G, n, path + [b], Remove(avail, b))
  {
    var b := avail[BestIn(G, |path| - 1, path[|path| - 1], avail)];
    AssignKeepsPartition(path, avail, n, b);
  }

  /** Seeding an ant with start agent `s` leaves the other agents available,
      still in ascending order: exactly `s` is cut out of 0..n-1. */
  lemma SeededPartition(n: nat, s: int)
    requires 0 <= s < n
    ensures Remove(Range(n), s) == Range(n)[..s] + Range(n)[s + 1..]
    ensures Partitioned([s], Remove(Range(n), s), n)
    ensures Ascending(Remove(Range(n), s))
  {
    FreshPartition(n);
    assert Range(n)[s] == s;
    AssignKeepsPartition([], Range(n), n, s);
    assert [] + [s] == [s];
    RangeCount(n, s);
    UniqueNotBefore(Range(n), s);
    RemoveAt(Range(n), s);
    RangeAscending(n);
    RemoveKeepsAscending(Range(n), s);
  }

  /** The path of the greedy ant seeded with start agent `s`. */
  function GreedyPath(G: array3<real>, n: nat, s: int): (p: seq<int>)
    reads G
    requires Shaped(G, n) && 0 <= s < n
    ensures |p| == n && InRange(p, n)
  {
    SeededPartition(n, s);
    Greedy(G, n, [s], Remove(Range(n), s))
  }

  /** The greedy ant seeded with `s` assigns agent `s` to the first task and
      every agent exactly once. */
  lemma GreedyPathStarts(G: array3<real>, n: nat, s: int)
    requires Shaped(G, n) && 0 <= s < n
    ensures var p := GreedyPath(G, n, s); IsPermutation(p, n) && p[0] == s
  {
    SeededPartition(n, s);
    GreedyCompletes(G, n, [s], Remove(Range(n), s));
  }

  class Ant {
    const M: seq<seq<int>>
    const n: nat
    const G: array3<real>
    var path: seq<int>
    var currentNode: int
    var availableNodes: seq<int>
    var cost: Option<int>
    var pheromoneDelta: Option<real>

    /** `path` and `availableNodes` partition the agents, `availableNodes`
        keeps the ascending order of `list(range(n))`, and `currentNode` is
        the last step taken. */
    ghost predicate Valid()
      reads this
    {
      n == |M| && currentNode == |path| - 1 && Partitioned(path, availableNodes, n)
      && Ascending(availableNodes)
    }

    /** The cached cost is the cost of the path, and the cached deposit its inverse. */
    ghost predicate Costed()
      reads this
    {
      && Valid() && Square(M)
      && cost == Some(PathCost(M, path)) && cost.value != 0
      && pheromoneDelta == Some(Delta(cost.value))
    }

    constructor (M: seq<seq<int>>, G: array3<real>)
      ensures this.M == M && this.G == G && n == |M|
      ensures Valid() && path == [] && availableNodes == Range(n)
      ensures cost == None && pheromoneDelta == None
    {
      this.M := M;
      this.n := |M|;
      this.G := G;
      path := [];
      currentNode := -1;
      availableNodes := Range(|M|);
      cost := None;
      pheromoneDelta := None;
      new;
      FreshPartition(n);
      RangeAscending(n);
    }

    /** Appends `agent` to the path. An agent already on the path is refused
        and nothing changes; an agent outside 0..n-1 is appended before the
        removal from `availableNodes` fails, leaving the ant inconsistent. */
    method AddAssignment(agent: int) returns (r: Outcome)
      requires Valid()
      modifies this`path, this`currentNode, this`availableNodes
      ensures agent in old(path) ==>
        && r == Fail(AlreadyUsedAgent)
        && path == old(path) && currentNode == old(currentNode) && availableNodes == old(availableNodes)
      ensures agent !in old(path) && agent in old(availableNodes) ==>
        && r == Pass && Valid()
        && path == old(path) + [agent] && currentNode == old(currentNode) + 1
        && availableNodes == Remove(old(availableNodes), agent)
      ensures agent !in old(path) && agent !in old(availableNodes) ==>
        && r == Fail(AgentNotAvailable)
        && path == old(path) + [agent] && currentNode == old(currentNode) + 1
        && availableNodes == old(availableNodes)
      ensures agent !in old(path) ==> (agent in old(availableNodes) <==> 0 <= agent < n)
    {
      PartitionedFacts(path, availableNodes, n);
      if agent in path {
        return Fail(AlreadyUsedAgent);
      }
      // The source's "path completed" guard (current_node == n) never fires:
      // the partition keeps the path at most n long.
      assert currentNode < n;
      path := path + [agent];
      currentNode := currentNode + 1;
      if agent !in availableNodes {
        return Fail(AgentNotAvailable);
      }
      AssignKeepsPartition(old(path), availableNodes, n, agent);
      RemoveKeepsAscending(availableNodes, agent);
      availableNodes := Remove(availableNodes, agent);
      r := Pass;
    }

    /** The available agent with the most pheromone on the transition from the
        last assigned agent at the current step; the first such agent wins ties,
        which is the smallest one. `None` when no agent is left. */
    method ChooseBest() returns (best: Option<int>)
      requires Valid() && Shaped(G, n) && |path| >= 1
      ensures availableNodes == [] ==> best == None
      ensures availableNodes != [] ==>
        best == Some(availableNodes[BestIn(G, |path| - 1, path[|path| - 1], availableNodes)])
      ensures best != None ==> best.value in availableNodes
      ensures best != None ==> forall a :: a in availableNodes ==>
        && G[currentNode, path[|path| - 1], a] <= G[currentNode, path[|path| - 1], best.value]
        && (G[currentNode, path[|path| - 1], a] == G[currentNode, path[|path| - 1], best.value] ==> best.value <= a)
    {
      best := None;
      var last := path[|path| - 1];
      var i := 0;
      while i < |availableNodes|
        invariant 0 <= i <= |availableNodes|
        invariant i == 0 ==> best == None
        invariant i > 0 ==> best == Some(availableNodes[BestIn(G, currentNode, last, availableNodes[..i])])
      {
        var node := availableNodes[i];
        assert availableNodes[..i + 1][..i] == availableNodes[..i];
        if best == None || G[currentNode, last, node] > G[currentNode, last, best.value] {
          best := Some(node);
        }
        i := i + 1;
      }
      assert availableNodes[..|availableNodes|] == availableNodes;
      if best != None {
        BestInSmallestOnTie(G, currentNode, last, availableNodes);
      }
    }

    /** Computes and caches the cost of the path and the pheromone `1/cost`;
        a second call changes nothing. A zero cost is cached before the
        division fails, so the deposit stays unset. */
    method CalculateCost() returns (r: Outcome)
      requires Valid() && Square(M)
      modifies this`cost, this`pheromoneDelta
      ensures old(cost).Some? ==>
        r == Pass && cost == old(cost) && pheromoneDelta == old(pheromoneDelta)
      ensures old(cost).None? ==> cost == Some(PathCost(M, path))
      ensures old(cost).None? && PathCost(M, path) != 0 ==>
        r == Pass && pheromoneDelta == Some(Delta(PathCost(M, path)))
      ensures old(cost).None? && PathCost(M, path) == 0 ==>
        r == Fail(ZeroPathCost) && pheromoneDelta == old(pheromoneDelta)
    {
      if cost.None? {
        var total := 0;
        var i := 0;
        while i < |path|
          invariant 0 <= i <= |path|
          invariant total == PathCost(M, path[..i])
          invariant unchanged(this)
        {
          PathCostAppend(M, path[..i], path[i]);
          assert path[..i + 1] == path[..i] + [path[i]];
          total := total + M[i][path[i]];
          i := i + 1;
        }
        assert path[..|path|] == path;
        cost := Some(total);
        if total == 0 {
          return Fail(ZeroPathCost);
        }
        pheromoneDelta := Some(Delta(total));
      }
      r := Pass;
    }
  }
}
