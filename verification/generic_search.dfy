/** The uninformed half of generic_search.py: membership tests, and
    depth-first and breadth-first search over a state space given by a goal
    test and a successor function. */
module GenericSearch {
  import opened Wrappers
  import opened Collections
  import opened Containers
  import opened SearchNodes

  /** `linear_contains`: scans from the front and stops at the first match. */
  method LinearContains<T(==)>(items: seq<T>, key: T) returns (found: bool)
    ensures found <==> key in items
  {
    var i := 0;
    while i < |items|
      invariant 0 <= i <= |items|
      invariant key !in items[..i]
    {
      if items[i] == key {
        return true;
      }
      i := i + 1;
    }
    return false;
  }

  predicate Sorted(s: seq<int>) {
    forall i, j :: 0 <= i < j < |s| ==> s[i] <= s[j]
  }

  /** `binary_contains`. A `true` answer is always right; on a sorted
      sequence the answer is exact. Each round narrows `[low, high]`. */
  method BinaryContains(s: seq<int>, key: int) returns (found: bool)
    ensures found ==> key in s
    ensures Sorted(s) ==> (found <==> key in s)
  {
    var low := 0;
    var high := |s| - 1;
    while low <= high
      invariant 0 <= low <= high + 1 <= |s|
      invariant Sorted(s) ==> key !in s[..low] && key !in s[high + 1..]
      decreases high - low
    {
      var mid := (low + high) / 2;
      if s[mid] < key {
        low := mid + 1;
      } else if s[mid] > key {
        high := mid - 1;
      } else {
        return true;
      }
    }
    return false;
  }

  /** `p` is a walk through the state space starting at `initial`: each
      state is a successor of the one before. */
  ghost predicate IsPathFrom<T>(initial: T, successors: T -> seq<T>, p: seq<T>) {
    && |p| > 0
    && p[0] == initial
    && forall i :: 0 <= i < |p| - 1 ==> p[i + 1] in successors(p[i])
  }

  /** A set of states that holds every successor of its members. */
  ghost predicate ClosedUnder<T>(s: set<T>, successors: T -> seq<T>) {
    forall x, i :: x in s && 0 <= i < |successors(x)| ==> successors(x)[i] in s
  }

  /** Every successor of `x` lies in `s`. */
  ghost predicate SuccessorsIn<T>(successors: T -> seq<T>, x: T, s: set<T>) {
    forall i :: 0 <= i < |successors(x)| ==> successors(x)[i] in s
  }

  /** The states held by the nodes of a frontier. */
  ghost function StatesOf<T>(nodes: seq<Node<T>>): set<T> {
    Elements(StateSeq(nodes))
  }

  /** The states of a list of nodes, in order. */
  function StateSeq<T>(nodes: seq<Node<T>>): (r: seq<T>)
    ensures |r| == |nodes| && forall i :: 0 <= i < |nodes| ==> r[i] == nodes[i].state
  {
    if |nodes| == 0 then [] else StateSeq(nodes[..|nodes| - 1]) + [nodes[|nodes| - 1].state]
  }

  /** A node's parent chain is a chain of successors rooted at `initial`. */
  ghost predicate ValidNode<T>(initial: T, successors: T -> seq<T>, n: Node<T>) {
    match n.parent
    case None => n.state == initial
    case Some(p) => ValidNode(initial, successors, p) && n.state in successors(p.state)
  }

  /** Every node of a frontier is valid. */
  ghost predicate AllValid<T>(initial: T, successors: T -> seq<T>, nodes: seq<Node<T>>) {
    forall i :: 0 <= i < |nodes| ==> ValidNode(initial, successors, nodes[i])
  }

  /** A valid node's path, as `node_to_path` returns it, is a walk from
      `initial` to the node's state. */
  lemma {:induction false} ValidNodeSpellsWalk<T>(initial: T, successors: T -> seq<T>, n: Node<T>)
    requires ValidNode(initial, successors, n)
    ensures IsPathFrom(initial, successors, Path(n))
  {
    match n.parent
    case None =>
    case Some(p) =>
      ValidNodeSpellsWalk(initial, successors, p);
      var q := Path(p);
      assert Path(n) == q + [n.state];
      assert n.state in successors(q[|q| - 1]);
  }

  /** Every walk from `initial` stays inside a successor-closed set that
      holds `initial`. */
  lemma {:induction false} WalksStayInside<T>(initial: T, successors: T -> seq<T>, s: set<T>, p: seq<T>)
    requires initial in s && ClosedUnder(s, successors)
    requires IsPathFrom(initial, successors, p)
    ensures p[|p| - 1] in s
    decreases |p|
  {
    if |p| > 1 {
      WalksStayInside(initial, successors, s, p[..|p| - 1]);
      assert p[|p| - 1] in successors(p[|p| - 2]);
    }
  }

  /** The `for child in successors(current_state)` loop shared by `dfs` and
      `bfs`: every successor not yet explored is marked explored and gets a
      new child node, in the order the successors are listed, and no state
      gets two nodes. */
  method ExpandChildren<T(==)>(current: Node<T>, successors: T -> seq<T>, explored: set<T>)
    returns (children: seq<Node<T>>, explored': set<T>)
    ensures explored' == explored + Elements(StateSeq(children))
    ensures SuccessorsIn(successors, current.state, explored')
    ensures NoDup(StateSeq(children))
    ensures forall k :: 0 <= k < |children| ==>
      && children[k].state in successors(current.state)
      && children[k].state !in explored
      && children[k] == Node(children[k].state, Some(current), 0, 0)
  {
    var succs := successors(current.state);
    children := [];
    explored' := explored;
    var j := 0;
    while j < |succs|
      invariant Expanding(current, succs, explored, j, children, explored')
    {
      var child := succs[j];
      if child !in explored' {
        ExpandingPush(current, succs, explored, j, children, explored');
        explored' := explored' + {child};
        children := children + [Node(child, Some(current), 0, 0)];
      }
      j := j + 1;
    }
  }

  /** Each child is a new node below `current` for a successor that was
      unexplored. */
  ghost predicate ChildrenNew<T>(current: Node<T>, succs: seq<T>, explored: set<T>, children: seq<Node<T>>) {
    forall k :: 0 <= k < |children| ==>
      && children[k].state in succs
      && children[k].state !in explored
      && children[k] == Node(children[k].state, Some(current), 0, 0)
  }

  /** The state of the loop over the successors `succs` of `current` after
      `j` of them: the explored set has grown by the children's states,
      every successor seen so far is explored, and the children are new
      nodes for distinct successors. */
  ghost predicate Expanding<T>(current: Node<T>, succs: seq<T>, explored: set<T>, j: int,
                               children: seq<Node<T>>, explored': set<T>) {
    && 0 <= j <= |succs|
    && explored' == explored + Elements(StateSeq(children))
    && (forall k :: 0 <= k < j ==> succs[k] in explored')
    && NoDup(StateSeq(children))
    && ChildrenNew(current, succs, explored, children)
  }

  /** Adding a new node for an unexplored successor keeps the children new. */
  lemma {:induction false} PushKeepsNew<T>(current: Node<T>, succs: seq<T>, explored: set<T>,
                                           children: seq<Node<T>>, child: T)
    requires ChildrenNew(current, succs, explored, children)
    requires child in succs && child !in explored
    ensures ChildrenNew(current, succs, explored, children + [Node(child, Some(current), 0, 0)])
  {
    var children2 := children + [Node(child, Some(current), 0, 0)];
    forall k | 0 <= k < |children2|
      ensures && children2[k].state in succs
              && children2[k].state !in explored
              && children2[k] == Node(children2[k].state, Some(current), 0, 0)
    {
      if k < |children| {
        assert children2[k] == children[k];
      }
    }
  }

  /** Adding a state not among the children's keeps their states distinct. */
  lemma {:induction false} PushKeepsDistinct<T>(children: seq<Node<T>>, node: Node<T>)
    requires NoDup(StateSeq(children)) && node.state !in Elements(StateSeq(children))
    ensures StateSeq(children + [node]) == StateSeq(children) + [node.state]
    ensures NoDup(StateSeq(children + [node]))
  {
    assert StateSeq(children + [node]) == StateSeq(children) + [node.state];
    NoDupAppend(StateSeq(children), [node.state]);
  }

  /** A turn of the loop that pushes an unexplored successor. */
  lemma {:induction false} ExpandingPush<T>(current: Node<T>, succs: seq<T>, explored: set<T>, j: int,
                                            children: seq<Node<T>>, explored': set<T>)
    requires Expanding(current, succs, explored, j, children, explored') && j < |succs|
    requires succs[j] !in explored'
    ensures Expanding(current, succs, explored, j + 1, children + [Node(succs[j], Some(current), 0, 0)],
                      explored' + {succs[j]})
  {
    var child := succs[j];
    PushKeepsDistinct(children, Node(child, Some(current), 0, 0));
    PushKeepsNew(current, succs, explored, children, child);
  }

  /** The search loop's invariant, common to `dfs` and `bfs`. `closed` holds
      the states already expanded: none is a goal and all their successors
      are explored. Every explored state is expanded or waits in the
      frontier. */
  ghost predicate SearchInvariant<T>(initial: T, goal: T -> bool, successors: T -> seq<T>,
                                     universe: set<T>, frontier: seq<Node<T>>,
                                     explored: set<T>, closed: set<T>)
  {
    && initial in explored && explored <= universe
    && explored == closed + StatesOf(frontier)
    && AllValid(initial, successors, frontier)
    && (forall x, i :: x in closed && 0 <= i < |successors(x)| ==> successors(x)[i] in explored)
    && (forall x :: x in closed ==> !goal(x))
  }

  /** Once the frontier is empty, no walk from `initial` reaches a goal. */
  lemma {:induction false} ExhaustedMeansNoGoal<T>(initial: T, goal: T -> bool, successors: T -> seq<T>,
                                universe: set<T>, explored: set<T>, closed: set<T>)
    requires SearchInvariant(initial, goal, successors, universe, [], explored, closed)
    ensures forall p :: IsPathFrom(initial, successors, p) ==> !goal(p[|p| - 1])
  {
    assert StatesOf<T>([]) == {};
    forall p | IsPathFrom(initial, successors, p) ensures !goal(p[|p| - 1]) {
      WalksStayInside(initial, successors, closed, p);
    }
  }

  /** The invariant while `current` has been popped and is being expanded:
      its state is neither closed nor necessarily in the frontier. */
  ghost predicate PoppedInvariant<T>(initial: T, goal: T -> bool, successors: T -> seq<T>,
                                     universe: set<T>, rest: seq<Node<T>>, current: Node<T>,
                                     explored: set<T>, closed: set<T>)
  {
    && initial in explored && explored <= universe
    && explored == closed + StatesOf(rest) + {current.state}
    && AllValid(initial, successors, rest)
    && ValidNode(initial, successors, current)
    && (forall x, i :: x in closed && 0 <= i < |successors(x)| ==> successors(x)[i] in explored)
    && (forall x :: x in closed ==> !goal(x))
  }

  lemma {:induction false} StatesOfConcat<T>(a: seq<Node<T>>, b: seq<Node<T>>)
    ensures StatesOf(a + b) == StatesOf(a) + StatesOf(b)
  {
    assert StateSeq(a + b) == StateSeq(a) + StateSeq(b);
  }

  /** Popping a node off a frontier that keeps the invariant, wherever in
      the frontier the node sits. */
  lemma {:induction false} PopKeepsInvariant<T>(initial: T, goal: T -> bool, successors: T -> seq<T>,
                                                universe: set<T>, before: seq<Node<T>>, current: Node<T>,
                                                after: seq<Node<T>>, explored: set<T>, closed: set<T>)
    requires SearchInvariant(initial, goal, successors, universe, before + [current] + after, explored, closed)
    ensures PoppedInvariant(initial, goal, successors, universe, before + after, current, explored, closed)
  {
    var frontier := before + [current] + after;
    var rest := before + after;
    StatesOfConcat(before, [current]);
    StatesOfConcat(before + [current], after);
    StatesOfConcat(before, after);
    assert StatesOf([current]) == {current.state};
    assert current == frontier[|before|];
    forall i | 0 <= i < |rest| ensures ValidNode(initial, successors, rest[i]) {
      if i < |before| {
        assert rest[i] == frontier[i];
      } else {
        assert rest[i] == frontier[i + 1];
      }
    }
  }

  lemma {:induction false} StackPopKeepsInvariant<T>(initial: T, goal: T -> bool, successors: T -> seq<T>,
                                                     universe: set<T>, frontier: Stack<Node<T>>,
                                                     explored: set<T>, closed: set<T>)
    requires !frontier.Empty()
    requires SearchInvariant(initial, goal, successors, universe, frontier.items, explored, closed)
    ensures PoppedInvariant(initial, goal, successors, universe, frontier.Pop().1.items,
                            frontier.Pop().0, explored, closed)
  {
    var (current, rest) := frontier.Pop();
    assert frontier.items == rest.items + [current] + [];
    assert rest.items == rest.items + [];
    PopKeepsInvariant(initial, goal, successors, universe, rest.items, current, [], explored, closed);
  }

  lemma {:induction false} QueuePopKeepsInvariant<T>(initial: T, goal: T -> bool, successors: T -> seq<T>,
                                                     universe: set<T>, frontier: Queue<Node<T>>,
                                                     explored: set<T>, closed: set<T>)
    requires !frontier.Empty()
    requires SearchInvariant(initial, goal, successors, universe, frontier.items, explored, closed)
    ensures PoppedInvariant(initial, goal, successors, universe, frontier.Pop().1.items,
                            frontier.Pop().0, explored, closed)
  {
    var (current, rest) := frontier.Pop();
    assert frontier.items == [] + [current] + rest.items;
    assert rest.items == [] + rest.items;
    PopKeepsInvariant(initial, goal, successors, universe, [], current, rest.items, explored, closed);
  }

  lemma {:induction false} ChildrenAreValid<T>(initial: T, successors: T -> seq<T>, rest: seq<Node<T>>,
                            current: Node<T>, children: seq<Node<T>>)
    requires AllValid(initial, successors, rest)
    requires ValidNode(initial, successors, current)
    requires forall k :: 0 <= k < |children| ==>
      children[k].state in successors(current.state) && children[k].parent == Some(current)
    ensures AllValid(initial, successors, rest + children)
  {
    var s := rest + children;
    forall i | 0 <= i < |s| ensures ValidNode(initial, successors, s[i]) {
      if i >= |rest| {
        assert s[i] == children[i - |rest|];
      }
    }
  }

  lemma {:induction false} ExploredIsPartitioned<T>(rest: seq<Node<T>>, current: Node<T>, explored: set<T>,
                                 closed: set<T>, children: seq<Node<T>>, explored': set<T>)
    requires explored == closed + StatesOf(rest) + {current.state}
    requires explored' == explored + Elements(StateSeq(children))
    ensures explored' == (closed + {current.state}) + StatesOf(rest + children)
  {
    StatesOfConcat(rest, children);
  }

  lemma {:induction false} ClosedStaysClosed<T>(successors: T -> seq<T>, current: T, explored: set<T>,
                             closed: set<T>, explored': set<T>)
    requires forall x, i :: x in closed && 0 <= i < |successors(x)| ==> successors(x)[i] in explored
    requires SuccessorsIn(successors, current, explored')
    requires explored <= explored'
    ensures forall x, i :: x in closed + {current} && 0 <= i < |successors(x)| ==> successors(x)[i] in explored'
  {
    forall x, i | x in closed + {current} && 0 <= i < |successors(x)| ensures successors(x)[i] in explored' {
      if x != current {
        assert x in closed;
      }
    }
  }

  lemma {:induction false} ExploredStaysInside<T>(successors: T -> seq<T>, universe: set<T>, current: T,
                               explored: set<T>, children: seq<Node<T>>, explored': set<T>)
    requires SuccessorsIn(successors, current, universe)
    requires explored <= universe
    requires explored' == explored + Elements(StateSeq(children))
    requires forall k :: 0 <= k < |children| ==> children[k].state in successors(current)
    ensures explored' <= universe
  {
    var states := StateSeq(children);
    forall x | x in explored' ensures x in universe {
      if x !in explored {
        var k :| 0 <= k < |states| && states[k] == x;
        assert x == children[k].state;
        var succs := successors(current);
        var j :| 0 <= j < |succs| && succs[j] == x;
      }
    }
  }

  /** Pushing the expanded children keeps the invariant and moves the
      expanded state into `closed`. */
  lemma {:induction false} ExpansionKeepsInvariant<T>(initial: T, goal: T -> bool, successors: T -> seq<T>,
                                   universe: set<T>, rest: seq<Node<T>>, current: Node<T>,
                                   explored: set<T>, closed: set<T>,
                                   children: seq<Node<T>>, explored': set<T>)
    requires SuccessorsIn(successors, current.state, universe)
    requires PoppedInvariant(initial, goal, successors, universe, rest, current, explored, closed)
    requires !goal(current.state)
    requires explored' == explored + Elements(StateSeq(children))
    requires SuccessorsIn(successors, current.state, explored')
    requires forall k :: 0 <= k < |children| ==>
      children[k].state in successors(current.state) && children[k].parent == Some(current)
    ensures SearchInvariant(initial, goal, successors, universe, rest + children, explored', closed + {current.state})
  {
    ChildrenAreValid(initial, successors, rest, current, children);
    ExploredIsPartitioned(rest, current, explored, closed, children, explored');
    ClosedStaysClosed(successors, current.state, explored, closed, explored');
    ExploredStaysInside(successors, universe, current.state, explored, children, explored');
    forall x | x in closed + {current.state} ensures !goal(x) {
      if x != current.state {
        assert x in closed;
      }
    }
  }

  /** One expansion step shared by `dfs` and `bfs`: expand `current`, which
      is not a goal, and account for the states newly pushed. Either some
      state of the universe becomes explored, or nothing is pushed. */
  method Expand<T(==)>(initial: T, goal: T -> bool, successors: T -> seq<T>, ghost universe: set<T>,
                       rest: seq<Node<T>>, current: Node<T>, explored: set<T>, ghost closed: set<T>,
                       ghost pushed: seq<T>)
    returns (children: seq<Node<T>>, explored': set<T>)
    requires ClosedUnder(universe, successors)
    requires PoppedInvariant(initial, goal, successors, universe, rest, current, explored, closed)
    requires !goal(current.state)
    requires NoDup(pushed) && Elements(pushed) == explored
    ensures SearchInvariant(initial, goal, successors, universe, rest + children, explored',
                            closed + {current.state})
    ensures NoDup(pushed + StateSeq(children)) && Elements(pushed + StateSeq(children)) == explored'
    ensures |universe - explored'| < |universe - explored| || (children == [] && explored' == explored)
    ensures forall k :: 0 <= k < |children| ==> children[k].parent == Some(current) && children[k].state !in explored
  {
    children, explored' := ExpandChildren(current, successors, explored);
    assert SuccessorsIn(successors, current.state, universe);
    ExpansionKeepsInvariant(initial, goal, successors, universe, rest, current,
                            explored, closed, children, explored');
    PushedStaysDistinct(pushed, explored, StateSeq(children));
    ExpansionShrinks(universe, explored, children, explored');
  }

  /** Each expansion that pushes anything explores a new state of the
      universe, so the unexplored part of the universe shrinks. */
  lemma {:induction false} ExpansionShrinks<T>(universe: set<T>, explored: set<T>, children: seq<Node<T>>,
                                               explored': set<T>)
    requires explored' == explored + Elements(StateSeq(children)) && explored' <= universe
    requires forall k :: 0 <= k < |children| ==> children[k].state !in explored
    ensures |universe - explored'| < |universe - explored| || (children == [] && explored' == explored)
  {
    if |children| > 0 {
      assert StateSeq(children)[0] == children[0].state;
      assert children[0].state in universe - explored;
      assert universe - explored' < universe - explored;
    } else {
      assert Elements(StateSeq(children)) == {};
    }
  }

  /** `dfs`: the frontier is a stack, and a state is marked explored when it
      is pushed. A returned node holds a goal state and its chain is a walk
      from `initial`; `None` comes only after the frontier ran empty, and
      then no walk from `initial` reaches a goal. `pushed` lists the states
      in the order they were pushed: none twice, so at most as many pushes
      as there are states, and `expansions`, the number of nodes popped, is
      bounded by the same number. */
  method Dfs<T(==)>(initial: T, goal: T -> bool, successors: T -> seq<T>, ghost universe: set<T>)
    returns (r: Option<Node<T>>, pushed: seq<T>, expansions: nat)
    requires initial in universe && ClosedUnder(universe, successors)
    ensures r.Some? ==> goal(r.value.state) && IsPathFrom(initial, successors, Path(r.value))
    ensures r.None? ==> forall p :: IsPathFrom(initial, successors, p) ==> !goal(p[|p| - 1])
    ensures |pushed| > 0 && pushed[0] == initial && NoDup(pushed)
    ensures Elements(pushed) <= universe && |pushed| <= |universe|
    ensures expansions <= |pushed|
  {
    var root := Node(initial, None, 0, 0);
    var frontier := Stack([root]);
    var explored := {initial};
    ghost var closed: set<T> := {};
    pushed := [initial];
    expansions := 0;
    assert StatesOf(frontier.items) == {initial};
    while !frontier.Empty()
      invariant SearchInvariant(initial, goal, successors, universe, frontier.items, explored, closed)
      invariant |pushed| > 0 && pushed[0] == initial
      invariant NoDup(pushed) && Elements(pushed) == explored
      invariant expansions + |frontier.items| == |pushed|
      decreases |universe - explored|, |frontier.items|
    {
      var popped := frontier.Pop();
      var current := popped.0;
      var rest := popped.1;
      StackPopKeepsInvariant(initial, goal, successors, universe, frontier, explored, closed);
      expansions := expansions + 1;
      if goal(current.state) {
        ValidNodeSpellsWalk(initial, successors, current);
        ElementsCard(pushed);
        return Some(current), pushed, expansions;
      }
      var children, explored' := Expand(initial, goal, successors, universe, rest.items, current,
                                        explored, closed, pushed);
      pushed := pushed + StateSeq(children);
      frontier := Stack(rest.items + children);
      explored := explored';
      closed := closed + {current.state};
    }
    ExhaustedMeansNoGoal(initial, goal, successors, universe, explored, closed);
    ElementsCard(pushed);
    return None, pushed, expansions;
  }

  /** Appending added, distinct states to a duplicate-free list keeps it
      duplicate-free. */
  lemma {:induction false} PushedStaysDistinct<T>(pushed: seq<T>, explored: set<T>, added: seq<T>)
    requires NoDup(pushed) && Elements(pushed) == explored
    requires NoDup(added) && forall k :: 0 <= k < |added| ==> added[k] !in explored
    ensures NoDup(pushed + added) && Elements(pushed + added) == explored + Elements(added)
  {
    var s := pushed + added;
    forall i, j | 0 <= i < j < |s| ensures s[i] != s[j] {
      if j >= |pushed| && i < |pushed| {
        assert s[i] in Elements(pushed);
        assert s[j] == added[j - |pushed|];
      } else if i >= |pushed| {
        assert s[i] == added[i - |pushed|] && s[j] == added[j - |pushed|];
      }
    }
  }

  /** Node depths never decrease from the front of a `bfs` queue to its
      back, and none exceeds the front's depth by more than one. */
  ghost predicate DepthsLayered<T>(frontier: seq<Node<T>>) {
    forall i, j :: 0 <= i <= j < |frontier| ==> Depth(frontier[i]) <= Depth(frontier[j]) <= Depth(frontier[0]) + 1
  }

  /** Every state that a walk from `initial` reaches in fewer steps than
      the depth of the front node has already been expanded. */
  ghost predicate NearStatesClosed<T(!new)>(initial: T, successors: T -> seq<T>, frontier: seq<Node<T>>, closed: set<T>) {
    |frontier| > 0 ==>
      forall p :: IsPathFrom(initial, successors, p) && |p| - 1 < Depth(frontier[0]) ==> p[|p| - 1] in closed
  }

  /** No walk from `initial` reaches the state of a frontier node in fewer
      steps than the node's depth. */
  ghost predicate NoShortcuts<T(!new)>(initial: T, successors: T -> seq<T>, frontier: seq<Node<T>>) {
    forall i, p :: 0 <= i < |frontier| && IsPathFrom(initial, successors, p) && p[|p| - 1] == frontier[i].state ==>
      Depth(frontier[i]) <= |p| - 1
  }

  /** The invariant that makes `bfs` find a nearest goal: the queue is
      ordered by depth in at most two layers, the states nearer than the
      front are expanded, and every queued node's depth is the length of a
      shortest walk to its state. */
  ghost predicate Layered<T(!new)>(initial: T, successors: T -> seq<T>, frontier: seq<Node<T>>, closed: set<T>) {
    && DepthsLayered(frontier)
    && NearStatesClosed(initial, successors, frontier, closed)
    && NoShortcuts(initial, successors, frontier)
  }

  /** Under the layering every walk of at most the front's depth ends at an
      explored state: a shorter one at an expanded state, and one exactly as
      long at a successor of an expanded state. */
  lemma {:induction false} NearStatesExplored<T(!new)>(initial: T, goal: T -> bool, successors: T -> seq<T>,
                                                 universe: set<T>, frontier: seq<Node<T>>,
                                                 explored: set<T>, closed: set<T>, p: seq<T>)
    requires |frontier| > 0
    requires SearchInvariant(initial, goal, successors, universe, frontier, explored, closed)
    requires NearStatesClosed(initial, successors, frontier, closed)
    requires IsPathFrom(initial, successors, p) && |p| - 1 <= Depth(frontier[0])
    ensures p[|p| - 1] in explored
  {
    if |p| - 1 == Depth(frontier[0]) && |p| > 1 {
      var q := p[..|p| - 1];
      assert IsPathFrom(initial, successors, q);
      var x := q[|q| - 1];
      assert x in closed;
      var succs := successors(x);
      assert p[|p| - 1] in succs;
      var i :| 0 <= i < |succs| && succs[i] == p[|p| - 1];
    }
  }

  /** Removing the front node and appending children one level deeper keeps
      the queue in layers. */
  lemma {:induction false} DepthsStayLayered<T>(frontier: seq<Node<T>>, children: seq<Node<T>>)
    requires |frontier| > 0 && DepthsLayered(frontier)
    requires forall k :: 0 <= k < |children| ==> children[k].parent == Some(frontier[0])
    ensures DepthsLayered(frontier[1..] + children)
  {
    var d := Depth(frontier[0]);
    var f := frontier[1..] + children;
    forall i | 0 <= i < |f| ensures d <= Depth(f[i]) <= d + 1 && (i >= |frontier| - 1 ==> Depth(f[i]) == d + 1) {
      if i < |frontier| - 1 {
        assert f[i] == frontier[i + 1];
      } else {
        assert f[i] == children[i - |frontier| + 1];
      }
    }
    forall i, j | 0 <= i <= j < |f| ensures Depth(f[i]) <= Depth(f[j]) <= Depth(f[0]) + 1 {
      if j < |frontier| - 1 {
        assert f[i] == frontier[i + 1] && f[j] == frontier[j + 1];
      }
    }
  }

  /** A child pushed for an unexplored state cannot be reached in fewer
      steps than its depth, one more than the front's. */
  lemma {:induction false} NoShortcutsKept<T(!new)>(initial: T, goal: T -> bool, successors: T -> seq<T>,
                                              universe: set<T>, frontier: seq<Node<T>>,
                                              explored: set<T>, closed: set<T>, children: seq<Node<T>>)
    requires |frontier| > 0
    requires SearchInvariant(initial, goal, successors, universe, frontier, explored, closed)
    requires NearStatesClosed(initial, successors, frontier, closed) && NoShortcuts(initial, successors, frontier)
    requires forall k :: 0 <= k < |children| ==> children[k].parent == Some(frontier[0]) && children[k].state !in explored
    ensures NoShortcuts(initial, successors, frontier[1..] + children)
  {
    var f := frontier[1..] + children;
    forall i, p | 0 <= i < |f| && IsPathFrom(initial, successors, p) && p[|p| - 1] == f[i].state
      ensures Depth(f[i]) <= |p| - 1
    {
      if i < |frontier| - 1 {
        assert f[i] == frontier[i + 1];
      } else {
        var c := children[i - |frontier| + 1];
        assert f[i] == c && Depth(c) == Depth(frontier[0]) + 1;
        if |p| - 1 <= Depth(frontier[0]) {
          NearStatesExplored(initial, goal, successors, universe, frontier, explored, closed, p);
          assert false;
        }
      }
    }
  }

  /** After the front node is expanded, every state nearer than the new
      front is expanded: when the front moves one layer down, the states of
      the old layer were all in the queue at that layer and have all been
      popped. */
  lemma {:induction false} NearStatesStayClosed<T(!new)>(initial: T, goal: T -> bool, successors: T -> seq<T>,
                                                   universe: set<T>, frontier: seq<Node<T>>,
                                                   explored: set<T>, closed: set<T>, children: seq<Node<T>>)
    requires |frontier| > 0
    requires SearchInvariant(initial, goal, successors, universe, frontier, explored, closed)
    requires Layered(initial, successors, frontier, closed)
    requires forall k :: 0 <= k < |children| ==> children[k].parent == Some(frontier[0])
    ensures NearStatesClosed(initial, successors, frontier[1..] + children, closed + {frontier[0].state})
  {
    var f := frontier[1..] + children;
    var d := Depth(frontier[0]);
    if |f| > 0 {
      DepthsStayLayered(frontier, children);
      assert d <= Depth(f[0]) <= d + 1 by {
        if |frontier| > 1 {
          assert f[0] == frontier[1];
        } else {
          assert f[0] == children[0];
        }
      }
      forall p | IsPathFrom(initial, successors, p) && |p| - 1 < Depth(f[0])
        ensures p[|p| - 1] in closed + {frontier[0].state}
      {
        var x := p[|p| - 1];
        if |p| - 1 == d {
          NearStatesExplored(initial, goal, successors, universe, frontier, explored, closed, p);
        }
      }
    }
  }

  /** One `bfs` expansion keeps the layering. */
  lemma {:induction false} ExpansionKeepsLayers<T(!new)>(initial: T, goal: T -> bool, successors: T -> seq<T>,
                                                   universe: set<T>, frontier: seq<Node<T>>,
                                                   explored: set<T>, closed: set<T>, children: seq<Node<T>>)
    requires |frontier| > 0
    requires SearchInvariant(initial, goal, successors, universe, frontier, explored, closed)
    requires Layered(initial, successors, frontier, closed)
    requires forall k :: 0 <= k < |children| ==> children[k].parent == Some(frontier[0]) && children[k].state !in explored
    ensures Layered(initial, successors, frontier[1..] + children, closed + {frontier[0].state})
  {
    DepthsStayLayered(frontier, children);
    NoShortcutsKept(initial, goal, successors, universe, frontier, explored, closed, children);
    NearStatesStayClosed(initial, goal, successors, universe, frontier, explored, closed, children);
  }

  /** A goal at the front of a layered queue is a nearest goal: no walk
      from `initial` reaches a goal in fewer steps than its path has. */
  lemma {:induction false} FrontGoalIsNearest<T(!new)>(initial: T, goal: T -> bool, successors: T -> seq<T>,
                                                 universe: set<T>, frontier: seq<Node<T>>,
                                                 explored: set<T>, closed: set<T>)
    requires |frontier| > 0 && goal(frontier[0].state)
    requires SearchInvariant(initial, goal, successors, universe, frontier, explored, closed)
    requires NearStatesClosed(initial, successors, frontier, closed)
    ensures forall p :: IsPathFrom(initial, successors, p) && goal(p[|p| - 1]) ==> |Path(frontier[0])| <= |p|
  {
    forall p | IsPathFrom(initial, successors, p) && goal(p[|p| - 1]) ensures |Path(frontier[0])| <= |p| {
    }
  }

  /** `bfs`: as `dfs`, with a queue as the frontier. Because the queue is
      worked through layer by layer, a returned goal is a nearest one: its
      path has no more states than any walk from `initial` to a goal. */
  method Bfs<T(==, !new)>(initial: T, goal: T -> bool, successors: T -> seq<T>, ghost universe: set<T>)
    returns (r: Option<Node<T>>, pushed: seq<T>, expansions: nat)
    requires initial in universe && ClosedUnder(universe, successors)
    ensures r.Some? ==> goal(r.value.state) && IsPathFrom(initial, successors, Path(r.value))
    ensures r.Some? ==> forall p :: IsPathFrom(initial, successors, p) && goal(p[|p| - 1]) ==> |Path(r.value)| <= |p|
    ensures r.None? ==> forall p :: IsPathFrom(initial, successors, p) ==> !goal(p[|p| - 1])
    ensures |pushed| > 0 && pushed[0] == initial && NoDup(pushed)
    ensures Elements(pushed) <= universe && |pushed| <= |universe|
    ensures expansions <= |pushed|
  {
    var root := Node(initial, None, 0, 0);
    var frontier := Queue([root]);
    var explored := {initial};
    ghost var closed: set<T> := {};
    pushed := [initial];
    expansions := 0;
    assert StatesOf(frontier.items) == {initial};
    assert Layered(initial, successors, frontier.items, closed);
    while !frontier.Empty()
      invariant SearchInvariant(initial, goal, successors, universe, frontier.items, explored, closed)
      invariant Layered(initial, successors, frontier.items, closed)
      invariant |pushed| > 0 && pushed[0] == initial
      invariant NoDup(pushed) && Elements(pushed) == explored
      invariant expansions + |frontier.items| == |pushed|
      decreases |universe - explored|, |frontier.items|
    {
      var popped := frontier.Pop();
      var current := popped.0;
      var rest := popped.1;
      QueuePopKeepsInvariant(initial, goal, successors, universe, frontier, explored, closed);
      expansions := expansions + 1;
      if goal(current.state) {
        FrontGoalIsNearest(initial, goal, successors, universe, frontier.items, explored, closed);
        ValidNodeSpellsWalk(initial, successors, current);
        ElementsCard(pushed);
        return Some(current), pushed, expansions;
      }
      var children, explored' := Expand(initial, goal, successors, universe, rest.items, current,
                                        explored, closed, pushed);
      ExpansionKeepsLayers(initial, goal, successors, universe, frontier.items, explored, closed, children);
      pushed := pushed + StateSeq(children);
      frontier := Queue(rest.items + children);
      explored := explored';
      closed := closed + {current.state};
    }
    ExhaustedMeansNoGoal(initial, goal, successors, universe, explored, closed);
    ElementsCard(pushed);
    return None, pushed, expansions;
  }
}
