/** `astar` of generic_search.py: best-first search with unit step costs, a
    priority-queue frontier and a map from each state seen to the cheapest
    cost it has been reached with. */
module AStar {
  import opened Wrappers
  import opened Collections
  import opened Containers
  import opened SearchNodes
  import opened GenericSearch

  /** How a run of `astar` ends. `OutOfFuel` belongs to the model only: the
      loop is run for at most `fuel` rounds. */
  datatype Outcome<T> = Found(node: Node<T>) | Exhausted | OutOfFuel

  /** The priority `heappop` uses under `Node.__lt__` as written: the
      heuristic is added on both sides, so only the costs are compared. */
  function AsWrittenKey<T>(n: Node<T>): int {
    n.cost
  }

  /** The priority A* is meant to use: cost so far plus the estimate. */
  function EstimateKey<T>(n: Node<T>): int {
    n.cost + n.heuristic
  }

  /** The two keys order nodes exactly as the two comparisons do. */
  lemma {:induction false} KeysMatchComparisons<T>(a: Node<T>, b: Node<T>)
    ensures NodeLessAsWritten(a, b) <==> AsWrittenKey(a) < AsWrittenKey(b)
    ensures NodeLess(a, b) <==> EstimateKey(a) < EstimateKey(b)
  {
    AsWrittenOrdersByCost(a, b);
  }

  /** A node built by `astar`: its cost counts the steps from the root and
      its heuristic is the estimate for its own state. */
  ghost predicate Costed<T>(heuristic: T -> int, n: Node<T>) {
    n.cost == Depth(n) && n.heuristic == heuristic(n.state)
  }

  ghost predicate AllCosted<T>(heuristic: T -> int, nodes: seq<Node<T>>) {
    forall i :: 0 <= i < |nodes| ==> Costed(heuristic, nodes[i])
  }

  /** Each child is a node one step below `current`, for a successor whose
      state was unseen or dearer at the start of the loop. */
  ghost predicate ChildrenFresh<T>(current: Node<T>, succs: seq<T>, heuristic: T -> int, explored: map<T, int>,
                                   children: seq<Node<T>>) {
    forall k :: 0 <= k < |children| ==>
      && children[k].state in succs
      && children[k] == Node(children[k].state, Some(current), current.cost + 1, heuristic(children[k].state))
      && (children[k].state !in explored || explored[children[k].state] > current.cost + 1)
  }

  /** An entry differs from the starting one only for a child's state, at
      the child's cost. */
  ghost predicate EntriesFollow<T>(current: Node<T>, explored: map<T, int>, children: seq<Node<T>>,
                                   explored': map<T, int>) {
    forall s :: s in explored' ==>
      if s in StateSeq(children) then explored'[s] == current.cost + 1
      else s in explored && explored'[s] == explored[s]
  }

  /** The state of the loop over the successors `succs` of `current` after
      `j` of them: every successor seen so far has an entry, and the
      children and entries are as above. */
  ghost predicate Relaxing<T>(current: Node<T>, succs: seq<T>, heuristic: T -> int, explored: map<T, int>,
                              j: int, children: seq<Node<T>>, explored': map<T, int>) {
    && 0 <= j <= |succs|
    && explored'.Keys == explored.Keys + Elements(StateSeq(children))
    && (forall k :: 0 <= k < j ==> succs[k] in explored')
    && ChildrenFresh(current, succs, heuristic, explored, children)
    && EntriesFollow(current, explored, children, explored')
  }

  /** Pushing a fresh child keeps the children fresh. */
  lemma {:induction false} PushKeepsFresh<T>(current: Node<T>, succs: seq<T>, heuristic: T -> int,
                                             explored: map<T, int>, children: seq<Node<T>>, child: T)
    requires ChildrenFresh(current, succs, heuristic, explored, children)
    requires child in succs && (child !in explored || explored[child] > current.cost + 1)
    ensures ChildrenFresh(current, succs, heuristic, explored,
                          children + [Node(child, Some(current), current.cost + 1, heuristic(child))])
  {
    var children2 := children + [Node(child, Some(current), current.cost + 1, heuristic(child))];
    forall k | 0 <= k < |children2|
      ensures && children2[k].state in succs
              && children2[k] == Node(children2[k].state, Some(current), current.cost + 1, heuristic(children2[k].state))
              && (children2[k].state !in explored || explored[children2[k].state] > current.cost + 1)
    {
      if k < |children| {
        assert children2[k] == children[k];
      }
    }
  }

  /** Lowering the entry of a pushed child keeps the entries in step. */
  lemma {:induction false} PushKeepsEntries<T>(current: Node<T>, explored: map<T, int>, children: seq<Node<T>>,
                                               explored': map<T, int>, node: Node<T>)
    requires EntriesFollow(current, explored, children, explored')
    ensures EntriesFollow(current, explored, children + [node], explored'[node.state := current.cost + 1])
  {
    var children2 := children + [node];
    var explored2 := explored'[node.state := current.cost + 1];
    assert StateSeq(children2) == StateSeq(children) + [node.state];
    forall s | s in explored2
      ensures if s in StateSeq(children2) then explored2[s] == current.cost + 1
              else s in explored && explored2[s] == explored[s]
    {
      if s != node.state {
        assert s in StateSeq(children2) <==> s in StateSeq(children);
      }
    }
  }

  /** A turn of the loop that pushes the child: its state was unseen or
      dearer, and its entry drops to the child's cost. */
  lemma {:induction false} RelaxingPush<T>(current: Node<T>, succs: seq<T>, heuristic: T -> int,
                                           explored: map<T, int>, j: int, children: seq<Node<T>>,
                                           explored': map<T, int>)
    requires Relaxing(current, succs, heuristic, explored, j, children, explored') && j < |succs|
    requires succs[j] !in explored' || explored'[succs[j]] > current.cost + 1
    ensures Relaxing(current, succs, heuristic, explored, j + 1,
                     children + [Node(succs[j], Some(current), current.cost + 1, heuristic(succs[j]))],
                     explored'[succs[j] := current.cost + 1])
  {
    var child := succs[j];
    var node := Node(child, Some(current), current.cost + 1, heuristic(child));
    assert StateSeq(children + [node]) == StateSeq(children) + [child];
    assert child !in StateSeq(children);
    assert child !in explored || explored[child] > current.cost + 1;
    PushKeepsFresh(current, succs, heuristic, explored, children, child);
    PushKeepsEntries(current, explored, children, explored', node);
  }

  /** The `for child in successors(current_state)` loop of `astar`. A child
      costs one more than `current`; it is pushed only when its state is
      unseen or was seen at a strictly higher cost, and its entry then drops
      to the new cost. Every other entry stays as it was, so no entry ever
      grows, and every successor of `current` ends up with an entry. */
  method RelaxChildren<T(==)>(current: Node<T>, successors: T -> seq<T>, heuristic: T -> int,
                              explored: map<T, int>)
    returns (children: seq<Node<T>>, explored': map<T, int>)
    ensures explored'.Keys == explored.Keys + Elements(StateSeq(children))
    ensures SuccessorsIn(successors, current.state, explored'.Keys)
    ensures forall k :: 0 <= k < |children| ==>
      && children[k].state in successors(current.state)
      && children[k] == Node(children[k].state, Some(current), current.cost + 1, heuristic(children[k].state))
      && (children[k].state !in explored || explored[children[k].state] > current.cost + 1)
    ensures forall s :: s in explored' ==>
      if s in StateSeq(children) then explored'[s] == current.cost + 1
      else s in explored && explored'[s] == explored[s]
    ensures forall s :: s in explored ==> explored'[s] <= explored[s]
  {
    var succs := successors(current.state);
    var newCost := current.cost + 1;
    children := [];
    explored' := explored;
    var j := 0;
    while j < |succs|
      invariant Relaxing(current, succs, heuristic, explored, j, children, explored')
    {
      var child := succs[j];
      if child !in explored' || explored'[child] > newCost {
        RelaxingPush(current, succs, heuristic, explored, j, children, explored');
        explored' := explored'[child := newCost];
        children := children + [Node(child, Some(current), newCost, heuristic(child))];
      } else {
        RelaxingSkip(current, succs, heuristic, explored, j, children, explored');
      }
      j := j + 1;
    }
    RelaxingDone(current, succs, heuristic, explored, children, explored');
  }

  /** A turn of the loop that skips a child already seen at no higher
      cost. */
  lemma {:induction false} RelaxingSkip<T>(current: Node<T>, succs: seq<T>, heuristic: T -> int,
                                           explored: map<T, int>, j: int, children: seq<Node<T>>,
                                           explored': map<T, int>)
    requires Relaxing(current, succs, heuristic, explored, j, children, explored') && j < |succs|
    requires succs[j] in explored'
    ensures Relaxing(current, succs, heuristic, explored, j + 1, children, explored')
  {
  }

  /** At the end of the loop every successor has an entry, and no entry
      is higher than it was. */
  lemma {:induction false} RelaxingDone<T>(current: Node<T>, succs: seq<T>, heuristic: T -> int,
                                           explored: map<T, int>, children: seq<Node<T>>,
                                           explored': map<T, int>)
    requires Relaxing(current, succs, heuristic, explored, |succs|, children, explored')
    ensures forall i :: 0 <= i < |succs| ==> succs[i] in explored'.Keys
    ensures forall s :: s in explored ==> explored'[s] <= explored[s]
  {
    forall s | s in explored ensures explored'[s] <= explored[s] {
      if s in StateSeq(children) {
        var k :| 0 <= k < |children| && StateSeq(children)[k] == s;
        assert children[k].state == s;
      }
    }
  }

  /** Children of a costed node are costed. */
  lemma {:induction false} ChildrenAreCosted<T>(heuristic: T -> int, rest: seq<Node<T>>,
                                                current: Node<T>, children: seq<Node<T>>)
    requires AllCosted(heuristic, rest) && Costed(heuristic, current)
    requires forall k :: 0 <= k < |children| ==>
      children[k] == Node(children[k].state, Some(current), current.cost + 1, heuristic(children[k].state))
    ensures AllCosted(heuristic, rest + children)
  {
    var s := rest + children;
    forall i | 0 <= i < |s| ensures Costed(heuristic, s[i]) {
      if i >= |rest| {
        assert s[i] == children[i - |rest|];
      }
    }
  }

  /** The popped-node invariant still holds when the explored set grows. */
  lemma {:induction false} PoppedWidens<T>(initial: T, goal: T -> bool, successors: T -> seq<T>,
                                           rest: seq<Node<T>>, current: Node<T>,
                                           explored: set<T>, closed: set<T>, explored': set<T>)
    requires PoppedInvariant(initial, goal, successors, explored, rest, current, explored, closed)
    requires explored <= explored'
    ensures PoppedInvariant(initial, goal, successors, explored', rest, current, explored, closed)
  {
  }

  /** Popping a least node off the priority queue keeps the search
      invariant, wherever in the queue the node sits. */
  lemma {:induction false} PriorityPopKeepsInvariant<T>(initial: T, goal: T -> bool, successors: T -> seq<T>,
                                                        universe: set<T>, frontier: PriorityQueue<Node<T>>,
                                                        key: Node<T> -> int, explored: set<T>, closed: set<T>)
    requires !frontier.Empty()
    requires SearchInvariant(initial, goal, successors, universe, frontier.items, explored, closed)
    ensures PoppedInvariant(initial, goal, successors, universe, frontier.Pop(key).1.items,
                            frontier.Pop(key).0, explored, closed)
  {
    var items := frontier.items;
    var k := MinIndex(items, key);
    assert items == items[..k] + [items[k]] + items[k + 1..];
    PopKeepsInvariant(initial, goal, successors, universe, items[..k], items[k], items[k + 1..], explored, closed);
  }

  /** One round of `astar` after a non-goal node has been popped. The state
      of `current` joins `closed`; the explored states are those with an
      entry in the cost map. */
  method AStarExpand<T(==)>(initial: T, goal: T -> bool, successors: T -> seq<T>, heuristic: T -> int,
                            rest: seq<Node<T>>, current: Node<T>, explored: map<T, int>,
                            ghost closed: set<T>)
    returns (children: seq<Node<T>>, explored': map<T, int>)
    requires PoppedInvariant(initial, goal, successors, explored.Keys, rest, current, explored.Keys, closed)
    requires AllCosted(heuristic, rest) && Costed(heuristic, current)
    requires !goal(current.state)
    ensures SearchInvariant(initial, goal, successors, explored'.Keys, rest + children, explored'.Keys,
                            closed + {current.state})
    ensures AllCosted(heuristic, rest + children)
    ensures forall s :: s in explored ==> s in explored' && explored'[s] <= explored[s]
  {
    children, explored' := RelaxChildren(current, successors, heuristic, explored);
    PoppedWidens(initial, goal, successors, rest, current, explored.Keys, closed, explored'.Keys);
    ExpansionKeepsInvariant(initial, goal, successors, explored'.Keys, rest, current,
                            explored.Keys, closed, children, explored'.Keys);
    ChildrenAreCosted(heuristic, rest, current, children);
  }

  /** Popping a least node off the frontier keeps the popped-node invariant,
      and every node stays costed. */
  lemma {:induction false} AStarPop<T>(initial: T, goal: T -> bool, successors: T -> seq<T>, heuristic: T -> int,
                                       frontier: PriorityQueue<Node<T>>, key: Node<T> -> int,
                                       explored: set<T>, closed: set<T>)
    requires !frontier.Empty()
    requires SearchInvariant(initial, goal, successors, explored, frontier.items, explored, closed)
    requires AllCosted(heuristic, frontier.items)
    ensures PoppedInvariant(initial, goal, successors, explored, frontier.Pop(key).1.items,
                            frontier.Pop(key).0, explored, closed)
    ensures AllCosted(heuristic, frontier.Pop(key).1.items) && Costed(heuristic, frontier.Pop(key).0)
  {
    PriorityPopKeepsInvariant(initial, goal, successors, explored, frontier, key, explored, closed);
    RemovalKeepsCosted(heuristic, frontier.items, MinIndex(frontier.items, key));
  }

  /** Taking one node out of a costed list leaves a costed list. */
  lemma {:induction false} RemovalKeepsCosted<T>(heuristic: T -> int, items: seq<Node<T>>, k: nat)
    requires AllCosted(heuristic, items) && k < |items|
    ensures Costed(heuristic, items[k]) && AllCosted(heuristic, items[..k] + items[k + 1..])
  {
    var rest := items[..k] + items[k + 1..];
    forall i | 0 <= i < |rest| ensures Costed(heuristic, rest[i]) {
      if i < k {
        assert rest[i] == items[i];
      } else {
        assert rest[i] == items[i + 1];
      }
    }
  }

  /** `astar`, ordering the frontier by `key` (`AsWrittenKey` reproduces
      `Node.__lt__` as written, `EstimateKey` the intended order). A found
      node holds a goal state, its chain is a walk from `initial`, its cost
      is the number of steps of that walk and its heuristic is the estimate
      for the goal state. `Exhausted` comes only after the frontier ran
      empty, and then no walk from `initial` reaches a goal. Both hold
      whatever the key. */
  method Search<T(==)>(initial: T, goal: T -> bool, successors: T -> seq<T>, heuristic: T -> int,
                       key: Node<T> -> int, fuel: nat)
    returns (r: Outcome<T>)
    ensures r.Found? ==> && goal(r.node.state)
                         && IsPathFrom(initial, successors, Path(r.node))
                         && r.node.cost == |Path(r.node)| - 1
                         && r.node.heuristic == heuristic(r.node.state)
    ensures r.Exhausted? ==> forall p :: IsPathFrom(initial, successors, p) ==> !goal(p[|p| - 1])
  {
    var root := Node(initial, None, 0, heuristic(initial));
    var frontier := PriorityQueue([root]);
    var explored := map[initial := 0];
    ghost var closed: set<T> := {};
    assert StatesOf(frontier.items) == {initial};
    var rounds := 0;
    while !frontier.Empty()
      invariant SearchInvariant(initial, goal, successors, explored.Keys, frontier.items, explored.Keys, closed)
      invariant AllCosted(heuristic, frontier.items)
      invariant rounds <= fuel
      decreases fuel - rounds
    {
      if rounds == fuel {
        return OutOfFuel;
      }
      rounds := rounds + 1;
      AStarPop(initial, goal, successors, heuristic, frontier, key, explored.Keys, closed);
      var popped := frontier.Pop(key);
      var current := popped.0;
      var rest := popped.1;
      if goal(current.state) {
        ValidNodeSpellsWalk(initial, successors, current);
        return Found(current);
      }
      var children, explored' := AStarExpand(initial, goal, successors, heuristic, rest.items, current,
                                             explored, closed);
      frontier := PriorityQueue(rest.items + children);
      explored := explored';
      closed := closed + {current.state};
    }
    ExhaustedMeansNoGoal(initial, goal, successors, explored.Keys, explored.Keys, closed);
    return Exhausted;
  }
}
