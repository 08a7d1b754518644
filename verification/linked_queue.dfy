/** `Queue`: a first-in first-out queue on a doubly linked list between two
    sentinel nodes. New items are linked in directly after the `first`
    sentinel and leave from directly before the `last` sentinel.

    The heap of node objects is an arena `nodes`; a reference is an index
    into it and `null` is `None`. Node 0 is `first` and node 1 is `last`.
    Unlinked nodes stay in the arena, unreachable. */
module LinkedQueue {
  import opened Wrappers

  datatype Node<T> = Node(prev: Option<nat>, next: Option<nat>, value: Option<T>)

  datatype Queue<T> = Queue(nodes: seq<Node<T>>, size: nat)

  const First: nat := 0
  const Last: nat := 1

  predicate InArena<T>(nodes: seq<Node<T>>, path: seq<nat>) {
    forall k :: 0 <= k < |path| ==> path[k] < |nodes|
  }

  /** Consecutive nodes of `path` point at each other: `n.next.prev == n`. */
  predicate Linked<T>(nodes: seq<Node<T>>, path: seq<nat>)
    requires InArena(nodes, path)
  {
    forall k :: 0 <= k < |path| - 1 ==>
      nodes[path[k]].next == Some(path[k + 1]) && nodes[path[k + 1]].prev == Some(path[k])
  }

  /** `path` is the whole list, from `first` to `last`, with a value in
      every node between the sentinels. */
  ghost predicate IsChain<T>(nodes: seq<Node<T>>, path: seq<nat>) {
    && 2 <= |path| && path[0] == First && path[|path| - 1] == Last
    && InArena(nodes, path) && Distinct(path) && Linked(nodes, path)
    && nodes[First].prev == None && nodes[Last].next == None
    && forall k :: 0 < k < |path| - 1 ==> nodes[path[k]].value.Some?
  }

  /** `size` counts the nodes between the sentinels. */
  ghost predicate Valid<T>(q: Queue<T>) {
    exists path :: IsChain(q.nodes, path) && |path| == q.size + 2
  }

  /** Following `next` from `first` determines the chain. */
  lemma {:induction false} ChainUnique<T>(nodes: seq<Node<T>>, p1: seq<nat>, p2: seq<nat>)
    requires IsChain(nodes, p1) && IsChain(nodes, p2)
    ensures p1 == p2
  {
    var n := if |p1| < |p2| then |p1| else |p2|;
    forall k | 0 <= k < n
      ensures p1[k] == p2[k]
    {
      ChainPrefix(nodes, p1, p2, k);
    }
    assert |p1| == |p2|;
  }

  lemma {:induction false} ChainPrefix<T>(nodes: seq<Node<T>>, p1: seq<nat>, p2: seq<nat>, k: nat)
    requires IsChain(nodes, p1) && IsChain(nodes, p2) && k < |p1| && k < |p2|
    ensures p1[k] == p2[k]
    decreases k
  {
    if k > 0 {
      ChainPrefix(nodes, p1, p2, k - 1);
      assert nodes[p1[k - 1]].next == Some(p1[k]);
      assert nodes[p2[k - 1]].next == Some(p2[k]);
    }
  }

  ghost function Chain<T>(q: Queue<T>): (p: seq<nat>)
    requires Valid(q)
    ensures IsChain(q.nodes, p) && |p| == q.size + 2
  {
    var p :| IsChain(q.nodes, p) && |p| == q.size + 2; p
  }

  /** The items queued, oldest (nearest `last`) first. */
  ghost function Contents<T>(q: Queue<T>): (r: seq<T>)
    requires Valid(q)
    ensures |r| == q.size
  {
    var p := Chain(q);
    seq(q.size, i requires 0 <= i < q.size => q.nodes[p[q.size - i]].value.value)
  }

  /** `Queue()`: the two sentinels linked to each other. */
  function New<T>(): (q: Queue<T>)
    ensures Valid(q) && Contents(q) == []
  {
    var q := Queue([Node(None, Some(Last), None), Node(Some(First), None, None)], 0);
    assert IsChain(q.nodes, [First, Last]);
    q
  }

  /** The sentinels' neighbours exist in a valid queue. */
  lemma SentinelLinks<T>(q: Queue<T>)
    requires Valid(q)
    ensures q.nodes[First].next.Some? && q.nodes[First].next.value < |q.nodes|
    ensures q.nodes[Last].prev.Some? && q.nodes[Last].prev.value < |q.nodes|
    ensures q.size > 0 ==> var t := q.nodes[Last].prev.value;
      q.nodes[t].prev.Some? && q.nodes[t].prev.value < |q.nodes| && q.nodes[t].value.Some?
  {
    var p := Chain(q);
    assert q.nodes[p[0]].next == Some(p[1]);
    assert q.nodes[p[q.size + 1]].prev == Some(p[q.size]);
    if q.size > 0 {
      assert q.nodes[p[q.size]].prev == Some(p[q.size - 1]);
    }
  }

  /** `enqueue(item)`: a new node between `first` and its old successor. */
  function Enqueue<T>(q: Queue<T>, item: T): (r: Queue<T>)
    requires Valid(q)
    ensures Valid(r) && Contents(r) == Contents(q) + [item]
    ensures Chain(r) == [First, |q.nodes|] + Chain(q)[1..]
  {
    SentinelLinks(q);
    var next := q.nodes[First].next.value;
    var n := |q.nodes|;
    var nodes := q.nodes[First := q.nodes[First].(next := Some(n))];
    var nodes := nodes[next := nodes[next].(prev := Some(n))] + [Node(Some(First), Some(next), Some(item))];
    var r := Queue(nodes, q.size + 1);
    EnqueueChain(q, item, r);
    r
  }

  /** The nodes after `enqueue` links `first`, the new node `n`, and then
      the old chain from `first`'s old successor on. */
  lemma EnqueuePath<T>(nodes: seq<Node<T>>, p: seq<nat>, item: T, nodes': seq<Node<T>>)
    requires IsChain(nodes, p)
    requires var next, n := p[1], |nodes|;
      var step := nodes[First := nodes[First].(next := Some(n))];
      nodes' == step[next := step[next].(prev := Some(n))] + [Node(Some(First), Some(next), Some(item))]
    ensures IsChain(nodes', [First, |nodes|] + p[1..])
  {
    var n := |nodes|;
    var p' := [First, n] + p[1..];
    assert InArena(nodes', p');
    assert Distinct(p');
    forall k | 0 <= k < |p'| - 1
      ensures nodes'[p'[k]].next == Some(p'[k + 1]) && nodes'[p'[k + 1]].prev == Some(p'[k])
    {
      if k >= 2 {
        assert p'[k] == p[k - 1] && p'[k + 1] == p[k];
        assert nodes[p[k - 1]].next == Some(p[k]) && nodes[p[k]].prev == Some(p[k - 1]);
      }
    }
  }

  lemma EnqueueChain<T>(q: Queue<T>, item: T, r: Queue<T>)
    requires Valid(q)
    requires q.nodes[First].next.Some? && q.nodes[First].next.value < |q.nodes|
    requires var next, n := q.nodes[First].next.value, |q.nodes|;
      var nodes := q.nodes[First := q.nodes[First].(next := Some(n))];
      r == Queue(nodes[next := nodes[next].(prev := Some(n))] + [Node(Some(First), Some(next), Some(item))], q.size + 1)
    ensures Valid(r) && Contents(r) == Contents(q) + [item]
    ensures Chain(r) == [First, |q.nodes|] + Chain(q)[1..]
  {
    var p := Chain(q);
    assert q.nodes[p[0]].next == Some(p[1]);
    var p' := [First, |q.nodes|] + p[1..];
    EnqueuePath(q.nodes, p, item, r.nodes);
    ChainUnique(r.nodes, Chain(r), p');
    var c, c' := Contents(q), Contents(r);
    forall i | 0 <= i < q.size
      ensures c'[i] == c[i]
    {
      assert p'[r.size - i] == p[q.size - i];
    }
    assert c' == c + [item];
  }

  /** `dequeue()`: an empty queue is an error and stays as it was; otherwise
      the node before `last` is unlinked and its value returned. */
  function Dequeue<T>(q: Queue<T>): (r: (Queue<T>, Result<T>))
    requires Valid(q)
    ensures Valid(r.0)
    ensures q.size == 0 ==> r == (q, Err(EmptyCollection))
    ensures q.size > 0 ==>
      && r.1 == Ok(Contents(q)[0]) && Contents(r.0) == Contents(q)[1..]
      && Chain(r.0) == Chain(q)[..q.size] + [Last]
  {
    if IsEmpty(q) then
      (q, Err(EmptyCollection))
    else
      SentinelLinks(q);
      var result := q.nodes[Last].prev.value;
      var before := q.nodes[result].prev.value;
      var nodes := q.nodes[Last := q.nodes[Last].(prev := Some(before))];
      var nodes := nodes[before := nodes[before].(next := Some(Last))];
      var r := (Queue(nodes, q.size - 1), Ok(q.nodes[result].value.value));
      DequeueChain(q, r.0, r.1);
      r
  }

  /** The nodes after `dequeue` link the old chain minus the node before
      `last`. */
  lemma DequeuePath<T>(nodes: seq<Node<T>>, p: seq<nat>, nodes': seq<Node<T>>)
    requires IsChain(nodes, p) && |p| >= 3
    requires var u := p[|p| - 3];
      var step := nodes[Last := nodes[Last].(prev := Some(u))];
      nodes' == step[u := step[u].(next := Some(Last))]
    ensures IsChain(nodes', p[..|p| - 2] + [Last])
  {
    var s := |p| - 2;
    var p' := p[..s] + [Last];
    assert InArena(nodes', p');
    assert Distinct(p');
    forall k | 0 <= k < |p'| - 1
      ensures nodes'[p'[k]].next == Some(p'[k + 1]) && nodes'[p'[k + 1]].prev == Some(p'[k])
    {
      if k < s - 1 {
        assert nodes[p[k]].next == Some(p[k + 1]) && nodes[p[k + 1]].prev == Some(p[k]);
      }
    }
  }

  lemma DequeueChain<T>(q: Queue<T>, q': Queue<T>, x: Result<T>)
    requires Valid(q) && q.size > 0
    requires q.nodes[Last].prev.Some? && q.nodes[Last].prev.value < |q.nodes|
    requires var t := q.nodes[Last].prev.value;
      q.nodes[t].prev.Some? && q.nodes[t].prev.value < |q.nodes| && q.nodes[t].value.Some?
    requires var t := q.nodes[Last].prev.value; var u := q.nodes[t].prev.value;
      var nodes := q.nodes[Last := q.nodes[Last].(prev := Some(u))];
      q' == Queue(nodes[u := nodes[u].(next := Some(Last))], q.size - 1) && x == Ok(q.nodes[t].value.value)
    ensures Valid(q') && x == Ok(Contents(q)[0]) && Contents(q') == Contents(q)[1..]
    ensures Chain(q') == Chain(q)[..q.size] + [Last]
  {
    var p, s := Chain(q), q.size;
    assert q.nodes[p[s + 1]].prev == Some(p[s]);
    assert q.nodes[p[s]].prev == Some(p[s - 1]);
    var p' := p[..s] + [Last];
    DequeuePath(q.nodes, p, q'.nodes);
    ChainUnique(q'.nodes, Chain(q'), p');
    var c, c' := Contents(q), Contents(q');
    forall i | 0 <= i < q'.size
      ensures c'[i] == c[i + 1]
    {
      assert p'[q'.size - i] == p[q.size - (i + 1)];
    }
    assert c' == c[1..];
  }

  function IsEmpty<T>(q: Queue<T>): (r: bool)
    requires Valid(q)
    ensures r <==> Contents(q) == []
  {
    q.size == 0
  }

  // ---------------------------------------------------------------------------
  // First in, first out

  /** Enqueues `xs` in order. */
  method EnqueueAll<T>(q: Queue<T>, xs: seq<T>) returns (r: Queue<T>)
    requires Valid(q)
    ensures Valid(r) && Contents(r) == Contents(q) + xs
  {
    r := q;
    var j := 0;
    while j < |xs|
      invariant 0 <= j <= |xs| && Valid(r)
      invariant Contents(r) == Contents(q) + xs[..j]
    {
      r := Enqueue(r, xs[j]);
      assert xs[..j + 1] == xs[..j] + [xs[j]];
      j := j + 1;
    }
    assert xs[..|xs|] == xs;
  }

  /** Dequeues `k` times from a queue holding at least `k` items: every
      dequeue succeeds and the oldest `k` items come back in order. */
  method DequeueMany<T>(q: Queue<T>, k: nat) returns (q': Queue<T>, items: seq<T>)
    requires Valid(q) && k <= q.size
    ensures Valid(q') && Contents(q') == Contents(q)[k..]
    ensures items == Contents(q)[..k]
  {
    var c := Contents(q);
    q', items := q, [];
    var j := 0;
    while j < k
      invariant 0 <= j <= k && Valid(q')
      invariant Contents(q') == c[j..]
      invariant items == c[..j]
    {
      var taken := Dequeue(q');
      assert c[j..][1..] == c[j + 1..];
      assert c[..j + 1] == c[..j] + [c[j]];
      q', items := taken.0, items + [taken.1.value];
      j := j + 1;
    }
  }

  /** Enqueueing `xs` and then dequeueing everything returns what was queued
      before followed by `xs`, in order, and leaves the queue empty. */
  method EnqueueThenDequeue<T>(q: Queue<T>, xs: seq<T>) returns (q': Queue<T>, items: seq<T>)
    requires Valid(q)
    ensures Valid(q') && Contents(q') == []
    ensures items == Contents(q) + xs
  {
    var full := EnqueueAll(q, xs);
    q', items := DequeueMany(full, full.size);
  }
}
