/** The breadth-first planner `bfs_fastest_brew` (sol.py:51-120). */
module Planner {
  import opened Wrappers
  import opened Ingredients
  import opened Witches

  // Several predicates below whose names end in `At` (DistinctAt, ParentAt,
  // OrderedAt, ListedAt, ClosedAt, ExtendsAt), and NonnegativeIn, state one
  // instance of a quantified property. They exist only to give the
  // quantifiers a trigger: a proof instantiates such a property by asserting
  // the `At` predicate for the node or positions it needs.

  /** Positions `i` and `j` of the list, if valid and distinct, hold distinct nodes. */
  ghost predicate DistinctAt(log: seq<Witch>, i: int, j: int) {
    0 <= i < j < |log| ==> log[i] != log[j]
  }

  /** No node occurs twice in the list. */
  ghost predicate NoDuplicates(log: seq<Witch>) {
    forall i, j {:trigger DistinctAt(log, i, j)} :: DistinctAt(log, i, j)
  }

  /** The parent and action maps: the start has neither, every other visited
      node was reached from a visited parent by its recorded action, one level
      deeper than that parent. */
  ghost predicate Tree(start: Witch, visited: set<Witch>, prev: map<Witch, Option<Witch>>,
                       actions: map<Witch, Option<Action>>, depth: map<Witch, nat>)
  {
    && prev.Keys == visited && actions.Keys == visited && depth.Keys == visited
    && start in visited && depth[start] == 0
    && prev[start] == None && actions[start] == None
    && forall x {:trigger ParentAt(start, visited, prev, actions, depth, x)} ::
         ParentAt(start, visited, prev, actions, depth, x)
  }

  /** A visited node other than the start has a visited parent from which
      its recorded action leads to it, one level deeper. */
  ghost predicate ParentAt(start: Witch, visited: set<Witch>, prev: map<Witch, Option<Witch>>,
                           actions: map<Witch, Option<Action>>, depth: map<Witch, nat>, x: Witch)
  {
    x in visited && x != start && x in prev && x in actions && x in depth ==>
      && prev[x].Some? && actions[x].Some? && prev[x].value in visited && prev[x].value in depth
      && Apply(prev[x].value, actions[x].value) == Some(x)
      && depth[x] == depth[prev[x].value] + 1
  }

  /** The node at position `j`, if valid and not before `i`, is at least as
      deep as the one at position `i`. */
  ghost predicate OrderedAt(log: seq<Witch>, depth: map<Witch, nat>, i: int, j: int) {
    0 <= i <= j < |log| && log[i] in depth && log[j] in depth ==> depth[log[i]] <= depth[log[j]]
  }

  /** Depths never decrease along the order of enqueueing. */
  ghost predicate Monotone(log: seq<Witch>, depth: map<Witch, nat>) {
    && (forall i :: 0 <= i < |log| ==> log[i] in depth)
    && forall i, j {:trigger OrderedAt(log, depth, i, j)} :: OrderedAt(log, depth, i, j)
  }

  /** Depths are monotone, and no enqueued node is more than one level
      deeper than the head of the queue `log[popped]`. */
  ghost predicate Layered(log: seq<Witch>, popped: nat, depth: map<Witch, nat>) {
    && Monotone(log, depth)
    && (popped < |log| ==> forall i :: 0 <= i < |log| ==> depth[log[i]] <= depth[log[popped]] + 1)
  }

  /** Every step out of the first `n` enqueued (hence expanded) nodes leads to
      a visited node at most one level deeper. */
  ghost predicate Closed(log: seq<Witch>, n: nat, visited: set<Witch>, depth: map<Witch, nat>) {
    forall i, a {:trigger ClosedAt(log, n, visited, depth, i, a)} :: ClosedAt(log, n, visited, depth, i, a)
  }

  /** The step `a` out of the node at position `i`, if `i` is among the
      first `n`, is impossible or leads to a visited node at most one
      level deeper. */
  ghost predicate ClosedAt(log: seq<Witch>, n: nat, visited: set<Witch>, depth: map<Witch, nat>, i: int, a: Action) {
    0 <= i < n <= |log| && Apply(log[i], a).Some? ==>
      && Apply(log[i], a).value in visited
      && log[i] in depth && Apply(log[i], a).value in depth
      && depth[Apply(log[i], a).value] <= depth[log[i]] + 1
  }

  /** `x` is visited exactly when it was enqueued. */
  ghost predicate ListedAt(visited: set<Witch>, log: seq<Witch>, x: Witch) {
    x in visited <==> x in log
  }

  /** The visited set holds exactly the nodes of the log. */
  ghost predicate Listed(visited: set<Witch>, log: seq<Witch>) {
    forall x {:trigger ListedAt(visited, log, x)} :: ListedAt(visited, log, x)
  }

  /** The ghost state the search keeps between dequeues: `log` lists every
      node ever enqueued, the first `popped` of them expanded, the rest
      being the queue. */
  ghost predicate SearchState(start: Witch, log: seq<Witch>, popped: nat, visited: set<Witch>,
                              prev: map<Witch, Option<Witch>>, actions: map<Witch, Option<Action>>,
                              depth: map<Witch, nat>)
  {
    var holds :=
      && popped <= |log| && |log| >= 1 && log[0] == start
      && NoDuplicates(log)
      && Listed(visited, log)
      && Tree(start, visited, prev, actions, depth)
      && Layered(log, popped, depth)
      && Closed(log, popped, visited, depth);
    holds
  }

  /** A plan no longer than the depth of the head of the queue ends at a
      visited node whose depth is at most the plan's length. */
  lemma {:induction false} ShortPlansVisited(start: Witch, log: seq<Witch>, popped: nat, visited: set<Witch>,
                                             prev: map<Witch, Option<Witch>>, actions: map<Witch, Option<Action>>,
                                             depth: map<Witch, nat>, plan: seq<Action>)
    requires SearchState(start, log, popped, visited, prev, actions, depth)
    requires popped < |log|
    requires |plan| <= depth[log[popped]]
    requires Run(start, plan).Some?
    ensures Run(start, plan).value in visited
    ensures depth[Run(start, plan).value] <= |plan|
    decreases |plan|
  {
    if plan != [] {
      var init, a := plan[..|plan| - 1], plan[|plan| - 1];
      assert plan == init + [a];
      RunSnoc(start, init, a);
      ShortPlansVisited(start, log, popped, visited, prev, actions, depth, init);
      var y := Run(start, init).value;
      assert ListedAt(visited, log, y);
      var i :| 0 <= i < |log| && log[i] == y;
      assert OrderedAt(log, depth, popped, i);
      assert ClosedAt(log, popped, visited, depth, i, a);
    }
  }

  /** An enqueued node shallower than the head of the queue was enqueued
      before it, so has already been expanded. */
  lemma ExpandedIfShallower(log: seq<Witch>, popped: nat, visited: set<Witch>, depth: map<Witch, nat>, y: Witch)
    requires popped < |log| && Monotone(log, depth) && Listed(visited, log)
    requires y in visited && y in depth && depth[y] < depth[log[popped]]
    ensures exists i :: 0 <= i < popped && log[i] == y
  {
    assert ListedAt(visited, log, y);
    var i :| 0 <= i < |log| && log[i] == y;
    assert OrderedAt(log, depth, popped, i);
  }

  /** When the head of the queue is dequeued and no expanded node satisfied a
      target, no plan shorter than the head's depth reaches a target. */
  lemma NoShorterGoal(start: Witch, targets: seq<Ingredients>, log: seq<Witch>, popped: nat, visited: set<Witch>,
                      prev: map<Witch, Option<Witch>>, actions: map<Witch, Option<Action>>,
                      depth: map<Witch, nat>)
    requires SearchState(start, log, popped, visited, prev, actions, depth)
    requires popped < |log|
    requires forall i :: 0 <= i < popped ==> !Satisfies(log[i], targets)
    ensures forall plan :: ReachesGoal(start, targets, plan) ==> depth[log[popped]] <= |plan|
  {
    forall plan | ReachesGoal(start, targets, plan)
      ensures depth[log[popped]] <= |plan|
    {
      if |plan| < depth[log[popped]] {
        ShortPlansVisited(start, log, popped, visited, prev, actions, depth, plan);
        ExpandedIfShallower(log, popped, visited, depth, Run(start, plan).value);
      }
    }
  }

  /** The plan rebuilt for the dequeued head, a goal, reaches a goal and is
      no longer than any plan that does. */
  lemma FoundIsShortest(start: Witch, targets: seq<Ingredients>, log: seq<Witch>, popped: nat, visited: set<Witch>,
                        prev: map<Witch, Option<Witch>>, actions: map<Witch, Option<Action>>,
                        depth: map<Witch, nat>, plan: seq<Action>)
    requires SearchState(start, log, popped, visited, prev, actions, depth)
    requires popped < |log| && Satisfies(log[popped], targets)
    requires forall i :: 0 <= i < popped ==> !Satisfies(log[i], targets)
    requires Run(start, Reverse(plan)) == Some(log[popped]) && |plan| == depth[log[popped]]
    ensures ReachesGoal(start, targets, Reverse(plan))
    ensures forall other :: ReachesGoal(start, targets, other) ==> |plan| <= |other|
    ensures popped == 0 ==> plan == []
    ensures plan == [] ==> Satisfies(start, targets)
  {
    NoShorterGoal(start, targets, log, popped, visited, prev, actions, depth);
    if plan == [] {
      assert Reverse(plan) == [];
    }
  }

  /** Once every enqueued node is expanded, every node any plan reaches is visited. */
  lemma {:induction false} AllReachableVisited(start: Witch, log: seq<Witch>, visited: set<Witch>,
                                               prev: map<Witch, Option<Witch>>, actions: map<Witch, Option<Action>>,
                                               depth: map<Witch, nat>, plan: seq<Action>)
    requires SearchState(start, log, |log|, visited, prev, actions, depth)
    requires Run(start, plan).Some?
    ensures Run(start, plan).value in visited
    decreases |plan|
  {
    if plan != [] {
      var init, a := plan[..|plan| - 1], plan[|plan| - 1];
      assert plan == init + [a];
      RunSnoc(start, init, a);
      AllReachableVisited(start, log, visited, prev, actions, depth, init);
      var y := Run(start, init).value;
      assert ListedAt(visited, log, y);
      var i :| 0 <= i < |log| && log[i] == y;
      assert ClosedAt(log, |log|, visited, depth, i, a);
    }
  }

  /** A drained queue with no node satisfying a target means no plan reaches one. */
  lemma ExhaustedMeansUnreachable(start: Witch, targets: seq<Ingredients>, log: seq<Witch>, visited: set<Witch>,
                                  prev: map<Witch, Option<Witch>>, actions: map<Witch, Option<Action>>,
                                  depth: map<Witch, nat>)
    requires SearchState(start, log, |log|, visited, prev, actions, depth)
    requires forall i :: 0 <= i < |log| ==> !Satisfies(log[i], targets)
    ensures forall plan :: !ReachesGoal(start, targets, plan)
  {
    forall plan | Run(start, plan).Some?
      ensures !Satisfies(Run(start, plan).value, targets)
    {
      AllReachableVisited(start, log, visited, prev, actions, depth, plan);
      assert ListedAt(visited, log, Run(start, plan).value);
      var i :| 0 <= i < |log| && log[i] == Run(start, plan).value;
    }
  }

  /** Some plan leads from `start` to `x`. */
  ghost predicate Reachable(start: Witch, x: Witch) {
    exists plan :: Run(start, plan) == Some(x)
  }

  /** Following the parent maps back from a visited node gives a plan from
      the start to it, as long as the node's depth. */
  lemma {:induction false} TreeReachable(start: Witch, visited: set<Witch>, prev: map<Witch, Option<Witch>>,
                                         actions: map<Witch, Option<Action>>, depth: map<Witch, nat>, x: Witch)
    requires Tree(start, visited, prev, actions, depth)
    requires x in visited
    ensures exists plan :: Run(start, plan) == Some(x) && |plan| == depth[x]
    decreases depth[x]
  {
    if x == start {
      assert Run(start, []) == Some(x);
    } else {
      assert ParentAt(start, visited, prev, actions, depth, x);
      var y, a := prev[x].value, actions[x].value;
      TreeReachable(start, visited, prev, actions, depth, y);
      var plan :| Run(start, plan) == Some(y) && |plan| == depth[y];
      RunSnoc(start, plan, a);
      assert Run(start, plan + [a]) == Some(x);
    }
  }

  /** Every node the search enqueues is reachable from the start. */
  lemma LogReachable(start: Witch, log: seq<Witch>, popped: nat, visited: set<Witch>,
                     prev: map<Witch, Option<Witch>>, actions: map<Witch, Option<Action>>,
                     depth: map<Witch, nat>)
    requires SearchState(start, log, popped, visited, prev, actions, depth)
    ensures forall x :: x in log ==> Reachable(start, x)
  {
    forall x | x in log
      ensures Reachable(start, x)
    {
      assert ListedAt(visited, log, x);
      TreeReachable(start, visited, prev, actions, depth, x);
    }
  }

  /** Each of the first `n` nodes is reachable by a plan no longer than any
      plan that reaches a target. */
  ghost predicate NearestFirst(start: Witch, targets: seq<Ingredients>, nodes: seq<Witch>, n: nat) {
    forall i, plan :: 0 <= i < n && i < |nodes| && ReachesGoal(start, targets, plan) ==>
      exists p :: Run(start, p) == Some(nodes[i]) && |p| <= |plan|
  }

  /** While the queue is not empty and no dequeued node satisfied a target,
      every dequeued node is at least as near to the start as any node
      satisfying a target: the search has not yet passed over a goal. */
  lemma DequeuedNoFartherThanGoal(start: Witch, targets: seq<Ingredients>, log: seq<Witch>, popped: nat,
                                  visited: set<Witch>, prev: map<Witch, Option<Witch>>,
                                  actions: map<Witch, Option<Action>>, depth: map<Witch, nat>)
    requires SearchState(start, log, popped, visited, prev, actions, depth)
    requires popped < |log|
    requires forall i :: 0 <= i < popped ==> !Satisfies(log[i], targets)
    ensures NearestFirst(start, targets, log, popped)
  {
    NoShorterGoal(start, targets, log, popped, visited, prev, actions, depth);
    forall i, plan | 0 <= i < popped && ReachesGoal(start, targets, plan)
      ensures exists p :: Run(start, p) == Some(log[i]) && |p| <= |plan|
    {
      assert ListedAt(visited, log, log[i]);
      assert OrderedAt(log, depth, i, popped);
      TreeReachable(start, visited, prev, actions, depth, log[i]);
    }
  }

  /** The ghost state while the node `cur = log[popped - 1]` is being
      expanded: the nodes before it are closed, and nothing enqueued is
      deeper than one level below `cur`. */
  ghost predicate Expanding(start: Witch, cur: Witch, log: seq<Witch>, popped: nat, visited: set<Witch>,
                            prev: map<Witch, Option<Witch>>, actions: map<Witch, Option<Action>>,
                            depth: map<Witch, nat>)
  {
    var holds :=
      && 1 <= popped <= |log| && log[0] == start && log[popped - 1] == cur
      && NoDuplicates(log)
      && Listed(visited, log)
      && Tree(start, visited, prev, actions, depth)
      && Monotone(log, depth)
      && (forall j :: 0 <= j < |log| ==> depth[log[j]] <= depth[cur] + 1)
      && Closed(log, popped - 1, visited, depth);
    holds
  }

  /** The state while `cur` is being expanded, together with the queue,
      which is the unexpanded part of `log`, and the nonnegativity of every
      visited node. */
  ghost predicate Frontier(start: Witch, cur: Witch, log: seq<Witch>, popped: nat, queue: seq<Witch>,
                           visited: set<Witch>, prev: map<Witch, Option<Witch>>,
                           actions: map<Witch, Option<Action>>, depth: map<Witch, nat>)
  {
    var holds :=
      && Expanding(start, cur, log, popped, visited, prev, actions, depth)
      && queue == log[popped..]
      && KeepsNonnegative(start, visited);
    holds
  }

  /** Dequeuing the head of the queue starts its expansion. */
  lemma BeginExpansion(start: Witch, cur: Witch, log: seq<Witch>, popped: nat, visited: set<Witch>,
                       prev: map<Witch, Option<Witch>>, actions: map<Witch, Option<Action>>,
                       depth: map<Witch, nat>)
    requires SearchState(start, log, popped, visited, prev, actions, depth)
    requires popped < |log| && log[popped] == cur
    ensures Expanding(start, cur, log, popped + 1, visited, prev, actions, depth)
  {
  }

  /** Once every step out of `cur` leads to a visited node, `cur` is closed
      and the search state holds with `cur` counted as expanded. */
  lemma FinishExpansion(start: Witch, cur: Witch, log: seq<Witch>, popped: nat, visited: set<Witch>,
                        prev: map<Witch, Option<Witch>>, actions: map<Witch, Option<Action>>,
                        depth: map<Witch, nat>)
    requires Expanding(start, cur, log, popped, visited, prev, actions, depth)
    requires forall a :: Apply(cur, a).Some? ==> Apply(cur, a).value in visited
    ensures SearchState(start, log, popped, visited, prev, actions, depth)
  {
    assert OrderedAt(log, depth, popped - 1, popped);
    forall i, a
      ensures ClosedAt(log, popped, visited, depth, i, a)
    {
      if i < popped - 1 {
        assert ClosedAt(log, popped - 1, visited, depth, i, a);
      } else if i == popped - 1 && Apply(cur, a).Some? {
        assert ListedAt(visited, log, Apply(cur, a).value);
        var j :| 0 <= j < |log| && log[j] == Apply(cur, a).value;
      }
    }
  }

  /** After every castable spell of `cur` and the rest were tried, every
      step out of `cur` leads to a visited node. */
  lemma CloseNode(start: Witch, cur: Witch, log: seq<Witch>, popped: nat, visited: set<Witch>,
                  prev: map<Witch, Option<Witch>>, actions: map<Witch, Option<Action>>,
                  depth: map<Witch, nat>, seen: set<Witch>)
    requires Expanding(start, cur, log, popped, visited, prev, actions, depth)
    requires seen <= visited && RestSuccessor(cur) in visited
    requires forall j {:trigger CastCovered(cur, cur.spells[j], seen)} ::
      0 <= j < |cur.spells| ==> CastCovered(cur, cur.spells[j], seen)
    ensures SearchState(start, log, popped, visited, prev, actions, depth)
  {
    forall a | Apply(cur, a).Some?
      ensures Apply(cur, a).value in visited
    {
      if a.Cast? {
        var j :| 0 <= j < |cur.spells| && cur.spells[j] == a.spell;
        CastCoveredGrows(cur, cur.spells[j], seen, visited);
      }
    }
    FinishExpansion(start, cur, log, popped, visited, prev, actions, depth);
  }

  /** Recording a new child of a visited node keeps the parent maps consistent. */
  lemma TreeExtend(start: Witch, visited: set<Witch>, prev: map<Witch, Option<Witch>>,
                   actions: map<Witch, Option<Action>>, depth: map<Witch, nat>,
                   cur: Witch, child: Witch, action: Action)
    requires Tree(start, visited, prev, actions, depth)
    requires cur in visited && child !in visited
    requires Apply(cur, action) == Some(child)
    ensures Tree(start, visited + {child}, prev[child := Some(cur)], actions[child := Some(action)],
                 depth[child := depth[cur] + 1])
  {
    var visited', prev', actions', depth' :=
      visited + {child}, prev[child := Some(cur)], actions[child := Some(action)], depth[child := depth[cur] + 1];
    forall x
      ensures ParentAt(start, visited', prev', actions', depth', x)
    {
      if x != child {
        assert ParentAt(start, visited, prev, actions, depth, x);
      }
    }
  }

  /** Appending a node no shallower than every enqueued one keeps depths monotone. */
  lemma MonotoneExtend(log: seq<Witch>, depth: map<Witch, nat>, child: Witch, d: nat)
    requires Monotone(log, depth)
    requires child !in depth
    requires forall j :: 0 <= j < |log| ==> depth[log[j]] <= d
    ensures Monotone(log + [child], depth[child := d])
  {
    var log', depth' := log + [child], depth[child := d];
    forall i, j
      ensures OrderedAt(log', depth', i, j)
    {
      if 0 <= i <= j < |log| {
        assert log'[i] == log[i] && log'[j] == log[j];
        assert OrderedAt(log, depth, i, j);
      } else if 0 <= i < j == |log| {
        assert log'[i] == log[i];
      }
    }
  }

  /** Visiting a new node keeps the closed nodes closed. */
  lemma ClosedExtend(log: seq<Witch>, n: nat, visited: set<Witch>, depth: map<Witch, nat>, child: Witch, d: nat)
    requires n <= |log|
    requires Closed(log, n, visited, depth)
    requires child !in depth
    ensures Closed(log + [child], n, visited + {child}, depth[child := d])
  {
    var log', visited', depth' := log + [child], visited + {child}, depth[child := d];
    forall i, a
      ensures ClosedAt(log', n, visited', depth', i, a)
    {
      if 0 <= i < n {
        assert log'[i] == log[i];
        assert ClosedAt(log, n, visited, depth, i, a);
      }
    }
  }

  /** Appending a node not yet in the list keeps it free of duplicates. */
  lemma NoDuplicatesExtend(log: seq<Witch>, child: Witch)
    requires NoDuplicates(log)
    requires child !in log
    ensures NoDuplicates(log + [child])
  {
    var log' := log + [child];
    forall i, j
      ensures DistinctAt(log', i, j)
    {
      if 0 <= i < j < |log| {
        assert log'[i] == log[i] && log'[j] == log[j];
        assert DistinctAt(log, i, j);
      } else if 0 <= i < j == |log| {
        assert log'[i] == log[i];
      }
    }
  }

  /** A child one level below `cur` keeps every enqueued node within one level of `cur`. */
  lemma BoundExtend(log: seq<Witch>, depth: map<Witch, nat>, cur: Witch, child: Witch)
    requires Monotone(log, depth)
    requires cur in depth && child !in depth
    requires forall j :: 0 <= j < |log| ==> depth[log[j]] <= depth[cur] + 1
    ensures forall j :: 0 <= j < |log + [child]| ==>
      depth[child := depth[cur] + 1][(log + [child])[j]] <= depth[child := depth[cur] + 1][cur] + 1
  {
    var log', depth' := log + [child], depth[child := depth[cur] + 1];
    forall j | 0 <= j < |log'|
      ensures depth'[log'[j]] <= depth'[cur] + 1
    {
      if j < |log| {
        assert log'[j] == log[j];
      }
    }
  }

  /** Visiting and enqueuing the same node keeps the visited set and the log in step. */
  lemma ListedExtend(visited: set<Witch>, log: seq<Witch>, child: Witch)
    requires Listed(visited, log)
    ensures Listed(visited + {child}, log + [child])
  {
    forall x
      ensures ListedAt(visited + {child}, log + [child], x)
    {
      assert ListedAt(visited, log, x);
      if x in log {
        var i :| 0 <= i < |log| && log[i] == x;
        assert (log + [child])[i] == x;
      }
      assert (log + [child])[|log|] == child;
    }
  }

  /** Registering a child of `cur` that was not yet visited keeps the expansion state. */
  lemma ExpandingExtend(start: Witch, cur: Witch, log: seq<Witch>, popped: nat, visited: set<Witch>,
                        prev: map<Witch, Option<Witch>>, actions: map<Witch, Option<Action>>,
                        depth: map<Witch, nat>, child: Witch, action: Action)
    requires Expanding(start, cur, log, popped, visited, prev, actions, depth)
    requires child !in visited
    requires Apply(cur, action) == Some(child)
    ensures Expanding(start, cur, log + [child], popped, visited + {child}, prev[child := Some(cur)],
                      actions[child := Some(action)], depth[child := depth[cur] + 1])
  {
    assert ListedAt(visited, log, cur);
    ListedExtend(visited, log, child);
    TreeExtend(start, visited, prev, actions, depth, cur, child, action);
    MonotoneExtend(log, depth, child, depth[cur] + 1);
    ClosedExtend(log, popped - 1, visited, depth, child, depth[cur] + 1);
    NoDuplicatesExtend(log, child);
    BoundExtend(log, depth, cur, child);
    assert (log + [child])[popped - 1] == cur;
    assert (log + [child])[0] == start;
  }

  /** Registers `child`, reached from `cur` by `action`, unless it was
      already visited: appended to the queue, recorded in `prev` and
      `actions`, added to `visited` (sol.py:95-100 and 115-119). */
  method Discover(ghost start: Witch, cur: Witch, child: Witch, action: Action, queue: seq<Witch>,
                  prev: map<Witch, Option<Witch>>, actions: map<Witch, Option<Action>>,
                  visited: set<Witch>, ghost depth: map<Witch, nat>, ghost log: seq<Witch>, ghost popped: nat)
    returns (queue': seq<Witch>, prev': map<Witch, Option<Witch>>, actions': map<Witch, Option<Action>>,
             visited': set<Witch>, ghost depth': map<Witch, nat>, ghost log': seq<Witch>)
    requires Expanding(start, cur, log, popped, visited, prev, actions, depth)
    requires queue == log[popped..]
    requires Apply(cur, action) == Some(child)
    ensures Expanding(start, cur, log', popped, visited', prev', actions', depth')
    ensures queue' == log'[popped..]
    ensures visited' == visited + {child}
    ensures log' == if child in visited then log else log + [child]
    ensures child in visited ==> queue' == queue && prev' == prev && actions' == actions
    ensures child !in visited ==>
      queue' == queue + [child] && prev' == prev[child := Some(cur)] && actions' == actions[child := Some(action)]
    ensures Extends(cur, visited, prev, actions, visited', prev', actions')
  {
    queue', prev', actions', visited', depth', log' := queue, prev, actions, visited, depth, log;
    if child in visited {
      ExtendsRefl(cur, visited, prev, actions);
    } else {
      ExtendsAdd(cur, visited, prev, actions, child, action);
      ExpandingExtend(start, cur, log, popped, visited, prev, actions, depth, child, action);
      assert (log + [child])[popped..] == log[popped..] + [child];
      queue' := queue + [child];
      prev' := prev[child := Some(cur)];
      actions' := actions[child := Some(action)];
      visited' := visited + {child};
      depth' := depth[child := depth[cur] + 1];
      log' := log + [child];
    }
  }

  /** `x`, if it is in `nodes`, has no negative tier or holds the same
      inventory as `start`. */
  ghost predicate NonnegativeIn(start: Witch, nodes: set<Witch>, x: Witch) {
    x in nodes ==> Nonnegative(x.inventory) || x.inventory == start.inventory
  }

  /** Every node of the set has no negative tier, or holds the start's
      inventory; so none has a negative tier if the start has none. */
  ghost predicate KeepsNonnegative(start: Witch, nodes: set<Witch>) {
    forall x {:trigger NonnegativeIn(start, nodes, x)} :: NonnegativeIn(start, nodes, x)
  }

  /** Adding a node with no negative tier keeps the property. */
  lemma KeepsNonnegativeAdd(start: Witch, nodes: set<Witch>, y: Witch)
    requires KeepsNonnegative(start, nodes) && Nonnegative(y.inventory)
    ensures KeepsNonnegative(start, nodes + {y})
  {
    forall x
      ensures NonnegativeIn(start, nodes + {y}, x)
    {
      assert NonnegativeIn(start, nodes, x);
    }
  }

  /** Adding the rest successor of a node of the set keeps the property:
      resting leaves the inventory alone. */
  lemma KeepsNonnegativeRest(start: Witch, nodes: set<Witch>, cur: Witch)
    requires KeepsNonnegative(start, nodes) && cur in nodes
    ensures KeepsNonnegative(start, nodes + {RestSuccessor(cur)})
  {
    assert NonnegativeIn(start, nodes, cur);
    forall x
      ensures NonnegativeIn(start, nodes + {RestSuccessor(cur)}, x)
    {
      assert NonnegativeIn(start, nodes, x);
    }
  }

  /** The property spelled out node by node. */
  lemma KeepsNonnegativeMeans(start: Witch, nodes: set<Witch>)
    requires KeepsNonnegative(start, nodes)
    ensures Nonnegative(start.inventory) ==> forall x :: x in nodes ==> Nonnegative(x.inventory)
  {
    forall x | x in nodes && Nonnegative(start.inventory)
      ensures Nonnegative(x.inventory)
    {
      assert NonnegativeIn(start, nodes, x);
    }
  }

  /** Casting `spell` from `cur`, if possible, leads to a visited node. */
  ghost predicate CastCovered(cur: Witch, spell: Spell, visited: set<Witch>) {
    Apply(cur, Cast(spell)).Some? ==> Apply(cur, Cast(spell)).value in visited
  }

  lemma CastCoveredGrows(cur: Witch, spell: Spell, visited: set<Witch>, visited': set<Witch>)
    requires CastCovered(cur, spell, visited)
    requires visited <= visited'
    ensures CastCovered(cur, spell, visited')
  {
  }

  /** What expanding `cur` may do to the parent maps, at node `x`: an entry
      already recorded is kept, and a newly visited node is recorded with
      `cur` as its parent and a step out of `cur` leading to it as its action. */
  ghost predicate ExtendsAt(cur: Witch, visited: set<Witch>, prev: map<Witch, Option<Witch>>,
                            actions: map<Witch, Option<Action>>, visited': set<Witch>,
                            prev': map<Witch, Option<Witch>>, actions': map<Witch, Option<Action>>, x: Witch)
  {
    && (x in visited && x in prev && x in actions ==>
          x in visited' && x in prev' && x in actions' && prev'[x] == prev[x] && actions'[x] == actions[x])
    && (x in visited' && x !in visited ==>
          && x in prev' && x in actions' && prev'[x] == Some(cur) && actions'[x].Some?
          && Apply(cur, actions'[x].value) == Some(x))
  }

  /** The new parent maps extend the old ones with children of `cur` only. */
  ghost predicate Extends(cur: Witch, visited: set<Witch>, prev: map<Witch, Option<Witch>>,
                          actions: map<Witch, Option<Action>>, visited': set<Witch>,
                          prev': map<Witch, Option<Witch>>, actions': map<Witch, Option<Action>>)
  {
    forall x {:trigger ExtendsAt(cur, visited, prev, actions, visited', prev', actions', x)} ::
      ExtendsAt(cur, visited, prev, actions, visited', prev', actions', x)
  }

  /** Leaving the maps alone extends them. */
  lemma ExtendsRefl(cur: Witch, visited: set<Witch>, prev: map<Witch, Option<Witch>>,
                    actions: map<Witch, Option<Action>>)
    ensures Extends(cur, visited, prev, actions, visited, prev, actions)
  {
    forall x
      ensures ExtendsAt(cur, visited, prev, actions, visited, prev, actions, x)
    {
    }
  }

  /** Recording one new child of `cur` extends the maps. */
  lemma ExtendsAdd(cur: Witch, visited: set<Witch>, prev: map<Witch, Option<Witch>>,
                   actions: map<Witch, Option<Action>>, child: Witch, action: Action)
    requires child !in visited && Apply(cur, action) == Some(child)
    ensures Extends(cur, visited, prev, actions, visited + {child}, prev[child := Some(cur)],
                    actions[child := Some(action)])
  {
    var visited', prev', actions' := visited + {child}, prev[child := Some(cur)], actions[child := Some(action)];
    forall x
      ensures ExtendsAt(cur, visited, prev, actions, visited', prev', actions', x)
    {
    }
  }

  /** Two extensions by children of `cur` make one. */
  lemma ExtendsTrans(cur: Witch, v0: set<Witch>, p0: map<Witch, Option<Witch>>, a0: map<Witch, Option<Action>>,
                     v1: set<Witch>, p1: map<Witch, Option<Witch>>, a1: map<Witch, Option<Action>>,
                     v2: set<Witch>, p2: map<Witch, Option<Witch>>, a2: map<Witch, Option<Action>>)
    requires Extends(cur, v0, p0, a0, v1, p1, a1) && Extends(cur, v1, p1, a1, v2, p2, a2)
    ensures Extends(cur, v0, p0, a0, v2, p2, a2)
  {
    forall x
      ensures ExtendsAt(cur, v0, p0, a0, v2, p2, a2, x)
    {
      assert ExtendsAt(cur, v0, p0, a0, v1, p1, a1, x);
      assert ExtendsAt(cur, v1, p1, a1, v2, p2, a2, x);
    }
  }

  /** One turn of the cast loop (sol.py:75-100): a spell that is not
      castable, or whose cast would leave a tier negative, is skipped;
      otherwise its cast successor is registered if new. */
  method TryCast(ghost start: Witch, cur: Witch, spell: Spell, queue: seq<Witch>,
                 prev: map<Witch, Option<Witch>>, actions: map<Witch, Option<Action>>,
                 visited: set<Witch>, ghost depth: map<Witch, nat>, ghost log: seq<Witch>, ghost popped: nat)
    returns (queue': seq<Witch>, prev': map<Witch, Option<Witch>>, actions': map<Witch, Option<Action>>,
             visited': set<Witch>, ghost depth': map<Witch, nat>, ghost log': seq<Witch>)
    requires Frontier(start, cur, log, popped, queue, visited, prev, actions, depth)
    requires spell in cur.spells
    ensures Frontier(start, cur, log', popped, queue', visited', prev', actions', depth')
    ensures log <= log' && visited <= visited'
    ensures CastCovered(cur, spell, visited')
    ensures var child := CastSuccessor(cur, spell);
      !spell.castable || !Nonnegative(child.inventory) ==>
        queue' == queue && prev' == prev && actions' == actions && visited' == visited
    ensures var child := CastSuccessor(cur, spell);
      spell.castable && Nonnegative(child.inventory) ==>
        && visited' == visited + {child}
        && (child in visited ==> queue' == queue && prev' == prev && actions' == actions)
        && (child !in visited ==>
              queue' == queue + [child] && prev' == prev[child := Some(cur)]
              && actions' == actions[child := Some(Cast(spell))])
    ensures Extends(cur, visited, prev, actions, visited', prev', actions')
  {
    queue', prev', actions', visited', depth', log' := queue, prev, actions, visited, depth, log;
    if !spell.castable {
      ExtendsRefl(cur, visited, prev, actions);
      return;
    }
    var newWitch := CastSuccessor(cur, spell);
    if !Nonnegative(newWitch.inventory) {
      ExtendsRefl(cur, visited, prev, actions);
      return;
    }
    queue', prev', actions', visited', depth', log' :=
      Discover(start, cur, newWitch, Cast(spell), queue, prev, actions, visited, depth, log, popped);
    KeepsNonnegativeAdd(start, visited, newWitch);
  }

  /** The cast loop of the expansion of `cur` (sol.py:74-100): each spell in
      order is tried, and afterwards every cast out of `cur` leads to a
      visited node. */
  method CastAll(ghost start: Witch, cur: Witch, queue: seq<Witch>,
                 prev: map<Witch, Option<Witch>>, actions: map<Witch, Option<Action>>,
                 visited: set<Witch>, ghost depth: map<Witch, nat>, ghost log: seq<Witch>, ghost popped: nat)
    returns (queue': seq<Witch>, prev': map<Witch, Option<Witch>>, actions': map<Witch, Option<Action>>,
             visited': set<Witch>, ghost depth': map<Witch, nat>, ghost log': seq<Witch>)
    requires Frontier(start, cur, log, popped, queue, visited, prev, actions, depth)
    ensures Frontier(start, cur, log', popped, queue', visited', prev', actions', depth')
    ensures log <= log' && visited <= visited'
    ensures Extends(cur, visited, prev, actions, visited', prev', actions')
    ensures forall j {:trigger CastCovered(cur, cur.spells[j], visited')} ::
      0 <= j < |cur.spells| ==> CastCovered(cur, cur.spells[j], visited')
  {
    queue', prev', actions', visited', depth', log' := queue, prev, actions, visited, depth, log;
    ExtendsRefl(cur, visited, prev, actions);
    for i := 0 to |cur.spells|
      invariant Frontier(start, cur, log', popped, queue', visited', prev', actions', depth')
      invariant log <= log' && visited <= visited'
      invariant Extends(cur, visited, prev, actions, visited', prev', actions')
      invariant forall j {:trigger CastCovered(cur, cur.spells[j], visited')} ::
        0 <= j < i ==> CastCovered(cur, cur.spells[j], visited')
    {
      ghost var seen, seenPrev, seenActions := visited', prev', actions';
      queue', prev', actions', visited', depth', log' :=
        TryCast(start, cur, cur.spells[i], queue', prev', actions', visited', depth', log', popped);
      ExtendsTrans(cur, visited, prev, actions, seen, seenPrev, seenActions, visited', prev', actions');
      forall j | 0 <= j < i + 1
        ensures CastCovered(cur, cur.spells[j], visited')
      {
        if j < i {
          CastCoveredGrows(cur, cur.spells[j], seen, visited');
        }
      }
    }
  }

  /** Expands the dequeued node `cur`: for each castable spell, in order,
      the cast successor unless some tier would go negative (sol.py:74-100);
      then the rest successor (sol.py:101-119). Each is registered if new. */
  method Expand(ghost start: Witch, cur: Witch, queue: seq<Witch>,
                prev: map<Witch, Option<Witch>>, actions: map<Witch, Option<Action>>,
                visited: set<Witch>, ghost depth: map<Witch, nat>, ghost log: seq<Witch>, ghost popped: nat)
    returns (queue': seq<Witch>, prev': map<Witch, Option<Witch>>, actions': map<Witch, Option<Action>>,
             visited': set<Witch>, ghost depth': map<Witch, nat>, ghost log': seq<Witch>)
    requires Expanding(start, cur, log, popped, visited, prev, actions, depth)
    requires queue == log[popped..]
    requires KeepsNonnegative(start, visited)
    ensures SearchState(start, log', popped, visited', prev', actions', depth')
    ensures queue' == log'[popped..]
    ensures log <= log' && visited <= visited'
    ensures Extends(cur, visited, prev, actions, visited', prev', actions')
    ensures KeepsNonnegative(start, visited')
  {
    queue', prev', actions', visited', depth', log' :=
      CastAll(start, cur, queue, prev, actions, visited, depth, log, popped);
    var restedWitch := RestSuccessor(cur);
    ghost var seen, seenPrev, seenActions := visited', prev', actions';
    queue', prev', actions', visited', depth', log' :=
      Discover(start, cur, restedWitch, Rest, queue', prev', actions', visited', depth', log', popped);
    ExtendsTrans(cur, visited, prev, actions, seen, seenPrev, seenActions, visited', prev', actions');
    KeepsNonnegativeRest(start, seen, cur);
    CloseNode(start, cur, log', popped, visited', prev', actions', depth', seen);
  }

  /** Breadth-first search from `start` for a node that can brew one of
      `targets`, dequeuing at most `fuel` nodes. Some(r) is what the source
      returns: the actions from the goal back to the start, or [] when the
      start already satisfies a target or the queue runs dry. None means the
      fuel ran out first. `enqueued` lists every node put on the queue. */
  method FastestBrew(start: Witch, targets: seq<Ingredients>, fuel: nat)
    returns (result: Option<seq<Action>>, ghost enqueued: seq<Witch>)
    ensures fuel > 0 && Satisfies(start, targets) ==> result == Some([])
    ensures result.Some? && result.value != [] ==> ReachesGoal(start, targets, Reverse(result.value))
    ensures result.Some? ==> forall plan :: ReachesGoal(start, targets, plan) ==> |result.value| <= |plan|
    ensures result == Some([]) && !Satisfies(start, targets) ==>
      forall plan :: !ReachesGoal(start, targets, plan)
    ensures result.None? ==>
      fuel < |enqueued| && forall i :: 0 <= i < fuel ==> !Satisfies(enqueued[i], targets)
    ensures result.None? ==> NearestFirst(start, targets, enqueued, fuel)
    ensures forall x :: x in enqueued ==> Reachable(start, x)
    ensures |enqueued| >= 1 && enqueued[0] == start && NoDuplicates(enqueued)
    ensures Nonnegative(start.inventory) ==> forall x :: x in enqueued ==> Nonnegative(x.inventory)
  {
    var queue := [start];
    var prev: map<Witch, Option<Witch>> := map[start := None];
    var actions: map<Witch, Option<Action>> := map[start := None];
    var visited := {start};
    ghost var depth: map<Witch, nat> := map[start := 0];
    ghost var log := [start];
    ghost var popped: nat := 0;
    var budget := fuel;
    while queue != []
      invariant SearchState(start, log, popped, visited, prev, actions, depth)
      invariant queue == log[popped..]
      invariant popped + budget == fuel
      invariant forall i :: 0 <= i < popped ==> !Satisfies(log[i], targets)
      invariant KeepsNonnegative(start, visited)
      decreases budget
    {
      if budget == 0 {
        KeepsNonnegativeMeans(start, visited);
        LogReachable(start, log, popped, visited, prev, actions, depth);
        DequeuedNoFartherThanGoal(start, targets, log, popped, visited, prev, actions, depth);
        return None, log;
      }
      budget := budget - 1;
      var cur := queue[0];
      assert cur == log[popped];
      queue := queue[1..];

      if AnyBrewable(cur.inventory, targets) {
        var plan := Rebuild(start, cur, visited, prev, actions, depth);
        FoundIsShortest(start, targets, log, popped, visited, prev, actions, depth, plan);
        KeepsNonnegativeMeans(start, visited);
        LogReachable(start, log, popped, visited, prev, actions, depth);
        return Some(plan), log;
      }
      BeginExpansion(start, cur, log, popped, visited, prev, actions, depth);
      popped := popped + 1;

      ghost var before := log;
      queue, prev, actions, visited, depth, log :=
        Expand(start, cur, queue, prev, actions, visited, depth, log, popped);
      assert forall j :: 0 <= j < popped ==> log[j] == before[j];
    }
    ExhaustedMeansUnreachable(start, targets, log, visited, prev, actions, depth);
    KeepsNonnegativeMeans(start, visited);
    LogReachable(start, log, popped, visited, prev, actions, depth);
    return Some([]), log;
  }

  /** Walks the parent pointers from `goal` back to the start, collecting the
      recorded actions in goal-to-start order (sol.py:64-71). */
  method Rebuild(start: Witch, goal: Witch, visited: set<Witch>, prev: map<Witch, Option<Witch>>,
                 actions: map<Witch, Option<Action>>, ghost depth: map<Witch, nat>)
    returns (result: seq<Action>)
    requires Tree(start, visited, prev, actions, depth)
    requires goal in visited
    ensures Run(start, Reverse(result)) == Some(goal)
    ensures |result| == depth[goal]
  {
    result := [];
    var cur: Option<Witch> := Some(goal);
    while cur.Some?
      invariant cur.Some? && cur.value in visited
      invariant Run(cur.value, Reverse(result)) == Some(goal)
      invariant |result| + depth[cur.value] == depth[goal]
      decreases depth[cur.value]
    {
      assert ParentAt(start, visited, prev, actions, depth, cur.value);
      var action := actions[cur.value];
      if action.None? {
        break;
      }
      ReverseSnoc(result, action.value);
      result := result + [action.value];
      cur := prev[cur.value];
    }
  }
}
