# Witch brewing planner

A Dafny model of the planner of a bot for a potion-brewing game (`sol.py`).

A witch holds an inventory of four tiers of ingredients and a list of spells. Casting a spell adds its delta to the inventory and uses the spell up. Resting makes every spell castable again. Each turn the bot picks one of two moves:
- it brews the dearest order it can already afford;
- otherwise it runs a breadth-first search over witch states for the nearest state from which some order becomes affordable, and plays the first step of that plan.

The model covers:
- the two ingredient helpers `can_brew` and `add_inventories`;
- the search `bfs_fastest_brew`, with its cast and rest expansion, its `visited` deduplication and its parent-pointer path rebuild;
- the pure parts of the turn policy in `main`: choosing an order, turning orders into search targets, and choosing the command.

Files:
- `wrappers.dfy` holds `Option`.
- `ingredients.dfy` holds ingredient vectors.
- `witch.dfy` holds spells, witches, the two kinds of step, and plans.
- `planner.dfy` holds the search.
- `policy.dfy` holds the turn policy.

The search is an imperative method:
- A `while` loop over the queue, with a `for` loop over the spells of the dequeued node, as in the source.
- The queue, `prev`, `actions` and `visited` are local `seq`, `map` and `set` variables.
- The node being expanded passes through the helper methods `Expand`, `CastAll`, `TryCast` and `Discover`.
- The proof keeps ghost state:
  - the list of every node ever enqueued;
  - how many of them were dequeued;
  - the BFS depth of each node.
- The invariant over that ghost state says three things:
  - the enqueued nodes are pairwise distinct and exactly the visited ones;
  - the parent maps form a tree rooted at the start, in which every edge is a legal step;
  - depths along the queue never decrease and are at most one apart, and every step out of an expanded node leads to a visited node at most one level deeper.

From this the method proves that a returned plan reaches a goal and is no longer than any plan that does, and that a drained queue means no plan reaches a goal.

The search returns its actions from the goal back to the start (sol.py:64-71); the turn plays the last of them.

Where this `sol.py` and later versions of `sol.py` disagree, the model follows this one:
- There is no inventory capacity of 10.
- There is no Learn, no repeatable (multicast) spell and no deadline.
- There is no success/failure result: the search returns `[]` both when the start already satisfies a target and when the queue runs dry.
- Cast feasibility is only "no tier negative".

## Model

| member | source | states |
|---|---|---|
| Ingredients.ZipCovers | sol.py:42-43 | the zipped `all(i >= t ...)` holds iff every pair has the first at least the second |
| Ingredients.CanBrew | sol.py:42-43 | `can_brew` holds iff the inventory is at least the target in all four tiers |
| Ingredients.ZipSum | sol.py:46-48 | the zipped pairwise sum has the inputs' length, and element k is the sum of the two k-th elements |
| Ingredients.AddInventories | sol.py:46-48 | `add_inventories` is a four-tier vector whose tier k is `x[k] + y[k]` |
| Ingredients.AnyBrewable | sol.py:62 | `any(can_brew(...) for t in targets)` holds iff some target in the list can be brewed |
| Ingredients.Negated | sol.py:218 | the target of an order is its delta with every tier negated |
| Ingredients.CanBrewNegated | sol.py:209-210 | an inventory covers an order's negated delta exactly when adding the delta leaves no tier negative, so the search goal and affordability agree |
| Witches.CastSuccessorSpec | sol.py:77-92 | a cast adds the spell's delta to the inventory; every spell with the cast spell's id is no longer castable; the others keep their flag; ids, deltas, prices, length and order of the spells are unchanged |
| Witches.RestSuccessorSpec | sol.py:103-114 | a rest keeps the inventory and makes every spell castable, changing nothing else about the spells |
| Witches.ApplyKeepsNonnegative | sol.py:93-94 | a step the search takes from a state with no negative tier leads to a state with no negative tier and as many spells |
| Witches.RunKeepsNonnegative | sol.py:93-94 | every state a plan reaches from a start with no negative tier has no negative tier |
| Witches.CastsKeepUsedUp | sol.py:75-92 | a plan made only of casts keeps every spell of an already used id uncastable |
| Witches.CastUsedUntilRest | sol.py:75-92 | once a spell is cast, any run of further casts that ends by casting a spell with the same id fails: that id stays used up until a rest |
| Witches.RestIdempotent | sol.py:103-114 | resting twice gives the same state as resting once |
| Witches.RestAfterCast | sol.py:77-114 | a cast followed by a rest leaves the same spells as a rest alone, with the cast's delta added to the inventory |
| Witches.ReverseSnoc | sol.py:69 | appending an action to the result list puts it first in the reversed list |
| Witches.ReverseFirst | sol.py:223 | reversing keeps the length, and the first step of the reversed result is `result[-1]` |
| Witches.RunSnoc | sol.py:74-119 | running a plan extended by one step is running the plan, then taking that step |
| Planner.FastestBrew | sol.py:51-120 | if the start satisfies a target the result is `[]`; a non-empty result, reversed, is a legal plan from the start to a state satisfying a target; a result is no longer than any plan reaching a target; `[]` for an unsatisfied start means no plan reaches a target; no state is enqueued twice; every enqueued state is reachable from the start by some plan; if the start has no negative tier, no enqueued state has one; the result is None only when more states were enqueued than the fuel allows dequeues, none of the first `fuel` of them satisfies a target, and each of those is reachable by a plan no longer than any plan reaching a target, so None never skips over a goal a breadth-first search would already have found |
| Planner.Rebuild | sol.py:64-71 | following `actions` and `prev` back from the goal yields a list that, reversed, runs from the start to the goal, and its length is the goal's BFS depth |
| Planner.Expand | sol.py:73-119 | expanding the dequeued node keeps the search invariant; afterwards every step out of the node leads to a visited state; the log and `visited` only grow; entries of `prev` and `actions` already recorded are kept, and each newly visited state has the node as parent and a step from the node to it as action |
| Planner.CastAll | sol.py:74-100 | after the cast loop, every cast of a castable spell of the node that leaves no tier negative leads to a visited state; the invariant holds; the log and `visited` only grow; recorded `prev` and `actions` entries are kept, and each newly visited state has the node as parent and a step from the node to it as action |
| Planner.TryCast | sol.py:75-100 | a spell that is not castable, or whose cast leaves a tier negative, leaves the queue, `prev`, `actions` and `visited` unchanged; otherwise its successor is added to `visited`, and if it is new it is appended to the queue with the node as `prev` and the cast as `actions`, while an old one leaves the rest unchanged; the invariant holds |
| Planner.Discover | sol.py:95-100 | a successor already visited leaves the queue, `prev`, `actions` and `visited` unchanged; a new one is appended to the queue and added to `visited`, with `prev` set to the node being expanded and `actions` to the step taken; the invariant holds |
| Planner.TreeReachable | sol.py:95-100 | following the recorded parents back from a visited state gives a plan from the start to it, as long as its BFS depth |
| Planner.LogReachable | sol.py:95-100 | every state the search enqueues is reachable from the start |
| Planner.ShortPlansVisited | sol.py:58-59 | when a node is dequeued, every plan no longer than its depth ends at a visited state of depth at most the plan's length |
| Planner.NoShorterGoal | sol.py:58-63 | when the dequeued node is reached and no earlier dequeued node satisfied a target, no plan shorter than its depth reaches a target |
| Planner.FoundIsShortest | sol.py:62-71 | the plan rebuilt for the first dequeued node satisfying a target reaches a target and is no longer than any plan that does; it is empty when the dequeued node is the start, and empty only if the start satisfies a target |
| Planner.DequeuedNoFartherThanGoal | sol.py:58-63 | while no dequeued node has satisfied a target, each dequeued node is reachable by a plan no longer than any plan that reaches a target |
| Planner.AllReachableVisited | sol.py:58-119 | once the queue is drained, every state any plan reaches was visited |
| Planner.ExhaustedMeansUnreachable | sol.py:120 | a drained queue in which no node satisfied a target means no plan reaches a target |
| Planner.KeepsNonnegativeMeans | sol.py:93-94 | every visited state has no negative tier or holds the start's inventory, so none has a negative tier when the start has none |
| Policy.ChooseOrder | sol.py:206-213 | the price found is at least 0 and at least that of every affordable order; when positive, it and the id found are those of the earliest affordable order of that price; when 0, the id is 0 |
| Policy.Targets | sol.py:218 | one target per order, tier k of target i being minus tier k of order i's delta |
| Policy.SatisfiesTargetsIffAffordable | sol.py:209-218 | a state satisfies the targets exactly when its inventory can afford some order |
| Policy.Turn | sol.py:215-229 | BREW is chosen iff some affordable order has a positive price, and it names the dearest affordable order; CAST names the spell of the first step of a plan that reaches a state able to afford an order and is as short as any such plan |

## Left out

- Planner.FastestBrew: the outer `while queue` need not terminate, because with no capacity cap the reachable states can be infinite. The model gives the search `fuel`, the number of dequeues allowed, and answers None when it runs out. The source would keep searching instead.
- Policy.Turn: a search that runs out of fuel is answered with REST. For REST the contract states only that no affordable order has a positive price; it does not say which shortest plan the search picks when several start differently.
- The input loop of `main` (sol.py:125-204), which reads the turn from standard input, is not modelled. Printing the command (sol.py:216, 225-229) becomes the returned `Command`.
- `log` (sol.py:11-12) writes to standard error, and `random.seed` (sol.py:6) sets random state that nothing uses. Neither is modelled.
- Python object identity (`cur is not None`) and hashing become structural equality of Dafny datatypes. The dictionaries and the set are keyed by the `Witch` value.
- Learn, repeatable spells, the capacity of 10, deadlines and a success/failure result do not exist in this `sol.py` and are not modelled. `test_sol.py` calls a later signature of the planner and is not part of this model.
- Integers are unbounded, as in Python, so no overflow is modelled.
