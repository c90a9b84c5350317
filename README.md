# Ant colony optimisation for the square assignment problem

This project models `old_main.py`, a small ant colony optimisation (ACO)
solver for the assignment problem. The input is an n-by-n cost matrix M,
where `M[task][agent]` is the cost of giving that task to that agent. A
solution is a path: `path[task]` is the agent assigned to that task. Every agent
is used exactly once, and the cost of a path is the sum of
`M[i][path[i]]`.

The colony keeps a pheromone tensor G of shape (n-1, n, n). Entry
`G[i][a][b]` is the pheromone on the step "agent a at task i, then agent b
at task i+1". Each epoch runs these steps in order:

1. A population of exploring ants builds random paths.
2. Every ant caches its cost and its deposit `1/cost`.
3. G evaporates: each entry is multiplied by `1 - evaporation_rate`.
4. Every explorer deposits its amount along its path.
5. One greedy ant is started from each agent. It always takes the available
   agent with the most pheromone, and the first one wins a tie.
6. The cheapest greedy ant is the epoch's best. The first one wins a tie.
7. The best ant deposits again, weighted by `e`.

The Dafny modules follow the source's structure:

- `Basics` holds the optional values and the error outcomes. These stand
  for the exceptions the source raises.
- `Paths` holds values about agent lists:
  - `list(range(n))` and `list.remove`;
  - the partition invariant of an ant;
  - permutations;
  - path costs and the deposit `1/cost`.
- `Ants` holds the greedy construction as functions of G, and the class
  `Ant`. `Ant` has the source's fields and updates them in place.
- `Colonies` holds the class `AntColony`. Its tensor G is an
  `array3<real>` that the methods update in place, entry by entry.

Greedy ants and the best ant are specified by functions of G:

- `BestIn` is the first available agent with the most pheromone.
- `Greedy` and `GreedyPath` give the path a greedy ant builds.
- `GreedyCosts` lists the greedy ants' costs.
- `FirstMin` is the position of the first cheapest one.

The methods are proved against these functions.

Random choices become an oracle. `choose(epoch, ant, step)` is a parameter
that picks an index among the agents still available. Every property that is
proved holds for every such oracle.

An exception in the source becomes an error outcome in the model:

- `AlreadyUsedAgent`: `add_assignment` refuses an agent already on the path.
- `AgentNotAvailable`: `list.remove` raises for an agent that is not
  available.
- `ZeroPathCost`: `1/cost` divides by zero.
- `EmptyMatrix`: numpy refuses the shape (-1, 0, 0).
- `NoBestAnt`: `best_ant.cost` is read from `None` after zero iterations.

## Model

| member | source | states |
|---|---|---|
| `Paths.RangeCount` | old_main.py:14 | `list(range(n))` holds every agent of 0..n-1 exactly once and nothing else |
| `Paths.RemoveLength` | old_main.py:27 | removing an available agent shortens the list by one; removing an absent agent leaves it unchanged |
| `Paths.RemoveCount` | old_main.py:27 | `remove` takes away exactly one occurrence of the agent, if there is one, and no occurrence of any other agent |
| `Paths.RemoveAt` | old_main.py:27 | removing the agent at position k, when it does not occur earlier, cuts out exactly position k |
| `Paths.RangeAscending` | old_main.py:14 | the available agents start out in ascending order |
| `Paths.RemoveKeepsAscending` | old_main.py:27 | removal keeps the available agents ascending; with `RangeAscending` this keeps `available_nodes` ascending for the life of an ant (`Ant.Valid`) |
| `Paths.FreshPartition` | old_main.py:12-14 | a fresh ant has an empty path and every agent 0..n-1 available exactly once |
| `Paths.AssignKeepsPartition` | old_main.py:25-27 | moving an available agent onto the path keeps every agent on exactly one side, and keeps the lengths summing to n |
| `Paths.PartitionedFacts` | old_main.py:19-27 | under the partition, an available agent is not on the path, and an agent of 0..n-1 that is not on the path is available |
| `Paths.CompleteIsPermutation` | old_main.py:71 | once no agent is available, the path is a permutation of 0..n-1 |
| `Paths.PermutationFacts` | old_main.py:71 | a permutation has no repeated agent and misses none of 0..n-1 |
| `Paths.PathCostAppend` | old_main.py:47-48 | assigning one more task adds exactly `M[task][agent]` to the cost |
| `Paths.PathCostPositive` | old_main.py:44-49 | with positive entries in M, every non-empty path costs more than 0, so `1/self.cost` cannot divide by zero |
| `Paths.PathCostNonNegative` | old_main.py:44-48 | with non-negative entries in M, every path costs at least 0 |
| `Paths.DeltaAntitone` | old_main.py:49 | for positive costs, `1/cost` is positive, and a strictly cheaper path deposits strictly more |
| `Ants.BestIn` | old_main.py:37-42 | `choose_best` picks a position inside the list of available agents |
| `Ants.BestInIsFirstMax` | old_main.py:37-42 | the chosen agent has the most pheromone on G[step][last], and strictly more than every agent listed before it |
| `Ants.BestInSmallestOnTie` | old_main.py:37-42 | over ascending available agents, the chosen agent has the most pheromone and is the smallest of the agents that tie with it |
| `Ants.BestInUnique` | old_main.py:37-42 | conversely, a position that is maximal and strictly above all earlier positions is the one chosen |
| `Ants.Greedy` | old_main.py:100-101 | the greedy completion of a partial assignment has n entries, all in 0..n-1 |
| `Ants.GreedyStep` | old_main.py:101 | one `add_assignment(choose_best())` keeps the partition, and does not change the greedy completion |
| `Ants.GreedyCompletes` | old_main.py:100-101 | the greedy completion of a partition is a permutation that extends the partial path |
| `Ants.GreedyPath` | old_main.py:98-101 | the greedy ant seeded with agent s builds a path of n agents in 0..n-1 |
| `Ants.SeededPartition` | old_main.py:98-99 | after `add_assignment(s)` on a fresh ant, the available agents are 0..n-1 without s, in order, and the partition holds |
| `Ants.GreedyPathStarts` | old_main.py:98-101 | the greedy path seeded with s starts at s and is a permutation of 0..n-1 |
| `Ants.Ant.constructor` | old_main.py:5-16 | a new ant has an empty path, current node -1, all agents available, and no cost or deposit |
| `Ants.Ant.AddAssignment` | old_main.py:18-27 | an agent already on the path is refused and nothing changes. An available agent is appended, `current_node` advances, the agent leaves the available list and the partition is kept. An agent outside 0..n-1 is appended before the removal fails |
| `Ants.Ant.ChooseBest` | old_main.py:37-42 | gives `None` when no agent is available, and otherwise the agent that `BestIn` picks: an available agent with the most pheromone, the smallest one on a tie |
| `Ants.Ant.CalculateCost` | old_main.py:44-49 | a cached cost is kept. Otherwise the cost is the path's cost over M and the deposit is `1/cost`. A zero cost is cached, the division fails and the deposit stays unset |
| `Colonies.Trails` | old_main.py:91-93 | lists, per ant in order, the path and the amount that `place_pheromone` deposits |
| `Colonies.DepositNonNegative` | old_main.py:90-93 | non-negative amounts never deposit a negative total on any entry |
| `Colonies.TrailOnlyOnPath` | old_main.py:92-93 | a deposit reaches only the entries of consecutive steps the path takes, so with n = 1 it reaches none |
| `Colonies.CostedDeltaPositive` | old_main.py:44-49 | an ant whose cost was cached over a non-negative M deposits a positive amount |
| `Colonies.GreedyCosts` | old_main.py:97-102 | the costs of the greedy ants seeded with 0..k-1 form a list of length k |
| `Colonies.GreedyCostsPositive` | old_main.py:97-104 | with positive entries in M, every greedy ant costs more than 0 |
| `Colonies.GreedyCostsAt` | old_main.py:97-102 | entry s of that list is the cost of the greedy ant seeded with s |
| `Colonies.FirstMin` | old_main.py:103-104 | the best-ant position lies within the list of costs |
| `Colonies.FirstMinIsFirstMinimum` | old_main.py:103-104 | the best position holds a smallest cost, and every earlier cost is strictly larger: a later ant replaces the best only when strictly cheaper |
| `Colonies.FirstMinAppend` | old_main.py:103-104 | one more ant moves the best position to it exactly when its cost is strictly smaller than the best so far |
| `Colonies.CheapestGreedy` | old_main.py:95-106 | the chosen greedy ant costs no more than any greedy ant, and strictly less than every ant seeded before it; its path starts at its seed and is a permutation |
| `Colonies.TakeBest` | old_main.py:101 | one greedy move appends the agent `BestIn` picks to the path, advances `current_node`, removes exactly that agent from the available ones and keeps the ant's invariant; so the greedy completion is unchanged |
| `Colonies.AntColony.constructor` | old_main.py:52-58 | stores the number of ants, initial pheromone, evaporation rate and elitist weight `e` |
| `Colonies.AntColony.Fit` | old_main.py:60-80 | reports an empty matrix and zero iterations as errors, and any other error as a zero path cost. It succeeds with a non-empty matrix, at least one iteration, positive costs, `initial_pheromone > 0`, `0 <= evaporation_rate < 1` and `e >= 0`: under these every weight of `choose_node` is positive. On success the result is a costed permutation of the agents. With `initial_pheromone >= 0`, `0 <= evaporation_rate <= 1`, `e >= 0` and non-negative costs, G stays non-negative |
| `Colonies.AntColony.Epoch` | old_main.py:65-78 | on success, `n_ants` costed explorers with complete paths and a costed best ant with a complete path. The only error is a zero path cost. With positive costs the model's epoch always succeeds, because its choice oracle always yields an agent. G stays non-negative under the same conditions as in `Fit` |
| `Colonies.AntColony.Populate` | old_main.py:66-74 | on success, `n_ants` fresh explorers, each a costed permutation over M. Otherwise a zero path cost. With positive costs the model always succeeds, because its choice oracle always yields an agent |
| `Colonies.AntColony.Reinforce` | old_main.py:75-78 | after evaporation, the deposits, evaluation and the elitist deposit, the best ant is a fresh, costed permutation; with positive costs it always succeeds. G stays non-negative under the same conditions as in `Fit` |
| `Colonies.AntColony.Deposit` | old_main.py:75-76 | evaporation then the explorers' deposits keep G non-negative under the same conditions |
| `Colonies.AntColony.Spawn` | old_main.py:66-72 | builds `n_ants` fresh explorers in order, each with a complete permutation and no cost yet |
| `Colonies.AntColony.Explore` | old_main.py:68-72 | an explorer built by any choice oracle ends with no available agent and a permutation of 0..n-1 as its path |
| `Colonies.AntColony.EvaluateFitness` | old_main.py:82-85 | leaves every path unchanged, and every cached cost is the cost of its ant's path. Succeeds exactly when every ant ends costed; a failure means some ant's path costs 0 |
| `Colonies.AntColony.EvaporatePheromone` | old_main.py:87-88 | every entry becomes its old value times `1 - evaporation_rate`. With a rate of at most 1, a non-negative G stays non-negative |
| `Colonies.AntColony.LayTrail` | old_main.py:92-93 | adds the amount to `G[i][path[i]][path[i+1]]` for every step i, and to no other entry |
| `Colonies.AntColony.PlacePheromone` | old_main.py:90-93 | every entry gains exactly the sum of the population's deposits on it. Non-negative deposits keep G non-negative |
| `Colonies.AntColony.Evaluate` | old_main.py:95-106 | fails exactly when some greedy ant's path costs 0. Otherwise it returns a fresh, costed, complete ant whose path is the greedy path seeded at the first cheapest start agent |
| `Colonies.AntColony.PickBest` | old_main.py:77 | the result of `evaluate`, reduced to what the rest of the epoch uses: a fresh, costed permutation, or a zero path cost, which positive costs rule out |
| `Colonies.AntColony.Exploit` | old_main.py:98-102 | the greedy ant seeded with s ends with the greedy path and its cost. The cost calculation succeeds exactly when that cost is not 0 |
| `Colonies.AntColony.PlaceAdditionalPheromone` | old_main.py:108-110 | every entry on the best ant's path gains `e` times its deposit, and no other entry changes. Non-negative `e` and deposit keep G non-negative |

## Left out

- `choose_node` (old_main.py:29-35) is not modelled. This covers:
  - its weights `G**alpha * (1/M)**beta`, which use real exponents;
  - its division, which fails when an entry of M is 0;
  - `random.choices`.

  The explorers choose through the `choose` oracle instead, so `alpha` and
  `beta` are not kept either.
- `random.choice` for the first agent is also the oracle.
- `load_test` and the module-level driver (old_main.py:112-125) are file
  I/O and a script. They are not modelled.
- The `print` calls are not modelled. `fit` returns the best ant instead of
  printing it.
- `AntColony.pheromone_delta`, set to 0 in `evaluate_fitness`, is never read
  and is not modelled.
- G is modelled as one array updated in place. Evaporation in the source
  makes a new numpy array instead, so explorers built before evaporation
  still refer to the old tensor. Explorers never read G after they are
  built, so nothing proved depends on this. Entries are unbounded reals
  rather than floating point.
- G is always real-valued. When `initial_pheromone` and `evaporation_rate`
  are Python integers, numpy gives G an integer dtype (old_main.py:63, 88),
  and every fractional `+=` at old_main.py:93 and 110 is truncated. That
  behaviour is not modelled.
- `add_assignment` raises a string, which Python 3 turns into a `TypeError`;
  `list.remove` raises `ValueError` and `1/cost` `ZeroDivisionError`. Either
  way the call stops, and the model returns an error outcome instead. An agent
  outside 0..n-1 leaves the ant in the source's inconsistent state, with
  the agent appended and still nothing removed. The guard
  `current_node == n` can never fire: the partition keeps the path at most n
  long.
- M is modelled as a matrix of integers (`seq<seq<int>>`), as `load_test`
  parses it (old_main.py:117); non-integer costs are not modelled.
- `Paths.Remove` returns the list unchanged when the agent is absent, where
  `list.remove` raises. Every call in the model removes an agent that is
  present, or first reports `AgentNotAvailable`.
- Colonies.AntColony.Reinforce: states the structure of the best ant and the
  non-negativity of G. It does not state G as one formula of its old value.
  Each step states its own formula: `EvaporatePheromone`, `PlacePheromone`
  and `PlaceAdditionalPheromone`.
- Colonies.AntColony.Epoch: likewise, it states structure and non-negativity
  rather than a closed formula for G after the epoch. Its promise of success
  under positive costs holds for the model only. The oracle always yields an
  agent, while `random.choices` (old_main.py:35) raises when every weight is
  0 or a weight is not finite. Every weight is 0 when the pheromone along
  the explorer's row is 0, for example with `initial_pheromone = 0` or,
  from the second epoch on, `evaporation_rate = 1`.
- Colonies.AntColony.Populate: the same holds here. Its promise of success
  under positive costs relies on the oracle, which never fails, while
  `random.choices` raises on an all-zero or non-finite weight vector.
- Colonies.AntColony.Fit: states that the result is a costed permutation. It
  does not state that the result is the best greedy ant of the last epoch;
  that is stated by `Evaluate`. It promises success only when every cost is
  positive, `initial_pheromone > 0`, `0 <= evaporation_rate < 1` and
  `e >= 0`. Under those conditions G stays positive, so every weight of
  `choose_node` is positive. It does not state the exact condition for
  failure. An explorer's path costing 0 depends on the random choices.
  `random.choices` raising on all-zero or non-finite weights is not
  modelled: the oracle always yields an agent. Floating-point underflow
  of G to 0 is not modelled either.
- Colonies.AntColony.PickBest: deliberately keeps only the part of
  `Evaluate`'s contract that the rest of the epoch uses. `Evaluate` states the
  full choice.
- Colonies.AntColony.Deposit: states only non-negativity. The formulas are
  stated by the two steps it runs.
