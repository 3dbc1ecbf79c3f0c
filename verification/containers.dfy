/** The three frontier containers of generic_search.py: a LIFO stack, a FIFO
    queue and a min-priority queue, as immutable values. */
module Containers {

  /** `Stack`: pushes and pops at the back of a list. */
  datatype Stack<T> = Stack(items: seq<T>) {

    /** `Stack.empty` */
    predicate Empty() {
      |items| == 0
    }

    function Push(x: T): Stack<T> {
      Stack(items + [x])
    }

    /** `Stack.pop`: the popped item and the remaining stack. */
    function Pop(): (T, Stack<T>)
      requires !Empty()
    {
      (items[|items| - 1], Stack(items[..|items| - 1]))
    }
  }

  /** `Queue`: pushes at the back of a deque and pops from the front. */
  datatype Queue<T> = Queue(items: seq<T>) {

    /** `Queue.empty` */
    predicate Empty() {
      |items| == 0
    }

    function Push(x: T): Queue<T> {
      Queue(items + [x])
    }

    /** `Queue.pop`: the popped item and the remaining queue. */
    function Pop(): (T, Queue<T>)
      requires !Empty()
    {
      (items[0], Queue(items[1..]))
    }
  }

  /** Pushing every element of `xs`, in order. */
  function PushAllStack<T>(s: Stack<T>, xs: seq<T>): Stack<T>
    decreases |xs|
  {
    if |xs| == 0 then s else PushAllStack(s.Push(xs[0]), xs[1..])
  }

  function PushAllQueue<T>(q: Queue<T>, xs: seq<T>): Queue<T>
    decreases |xs|
  {
    if |xs| == 0 then q else PushAllQueue(q.Push(xs[0]), xs[1..])
  }

  /** A stack is empty exactly when every push has been popped again, and
      `pop` undoes the last `push`: it returns the most recently pushed item
      and the stack as it was before. */
  lemma {:induction false} StackLastInFirstOut<T>(s: Stack<T>, x: T)
    ensures !s.Push(x).Empty()
    ensures s.Push(x).Pop() == (x, s)
  {
    assert (s.items + [x])[..|s.items|] == s.items;
  }

  /** After pushing a non-empty run `xs` onto a stack, `pop` returns the
      last element of `xs`. */
  lemma {:induction false} StackPopsLatest<T>(s: Stack<T>, xs: seq<T>)
    requires |xs| > 0
    ensures PushAllStack(s, xs) == Stack(s.items + xs)
    ensures PushAllStack(s, xs).Pop().0 == xs[|xs| - 1]
    decreases |xs|
  {
    if |xs| == 1 {
      assert PushAllStack(s, xs) == PushAllStack(s.Push(xs[0]), []);
    } else {
      StackPopsLatest(s.Push(xs[0]), xs[1..]);
      assert s.items + [xs[0]] + xs[1..] == s.items + xs;
    }
  }

  /** `pop` on a queue returns its earliest pushed item: pushing onto a
      non-empty queue does not change what `pop` returns, and pushing onto an
      empty queue makes the pushed item the next one out. */
  lemma {:induction false} QueueFirstInFirstOut<T>(q: Queue<T>, x: T)
    ensures !q.Push(x).Empty()
    ensures q.Empty() ==> q.Push(x).Pop() == (x, q)
    ensures !q.Empty() ==> q.Push(x).Pop() == (q.Pop().0, q.Pop().1.Push(x))
  {
    if !q.Empty() {
      assert (q.items + [x])[1..] == q.items[1..] + [x];
    } else {
      assert (q.items + [x])[1..] == q.items;
    }
  }

  /** After pushing a non-empty run `xs` onto an empty queue, `pop` returns
      the first element of `xs`. */
  lemma {:induction false} QueuePopsEarliest<T>(q: Queue<T>, xs: seq<T>)
    ensures PushAllQueue(q, xs) == Queue(q.items + xs)
    ensures q.Empty() && |xs| > 0 ==> PushAllQueue(q, xs).Pop().0 == xs[0]
    decreases |xs|
  {
    if |xs| == 0 {
      assert q.items + xs == q.items;
    } else {
      QueuePopsEarliest(q.Push(xs[0]), xs[1..]);
      assert q.items + [xs[0]] + xs[1..] == q.items + xs;
    }
  }

  /** The index of the first element of `items` whose `key` is least. */
  function MinIndex<T>(items: seq<T>, key: T -> int): (k: nat)
    requires |items| > 0
    ensures k < |items|
    ensures forall i :: 0 <= i < |items| ==> key(items[k]) <= key(items[i])
  {
    if |items| == 1 then 0
    else
      var k := MinIndex(items[1..], key);
      if key(items[0]) <= key(items[k + 1]) then 0 else k + 1
  }

  /** `PriorityQueue`, ordered by `key`: `heappop` returns an item that no
      other held item is less than. The source's binary heap breaks ties in
      an order of its own; this model takes the first least item. */
  datatype PriorityQueue<T> = PriorityQueue(items: seq<T>) {

    predicate Empty() {
      |items| == 0
    }

    function Push(x: T): PriorityQueue<T> {
      PriorityQueue(items + [x])
    }

    /** `PriorityQueue.pop`: a least item under `key`, and the queue that
        holds everything else. */
    function Pop(key: T -> int): (r: (T, PriorityQueue<T>))
      requires !Empty()
      ensures r.0 in items
      ensures forall x :: x in items ==> key(r.0) <= key(x)
      ensures multiset(r.1.items) + multiset{r.0} == multiset(items)
      ensures |r.1.items| == |items| - 1
    {
      var k := MinIndex(items, key);
      assert items == items[..k] + [items[k]] + items[k + 1..];
      (items[k], PriorityQueue(items[..k] + items[k + 1..]))
    }
  }
}
