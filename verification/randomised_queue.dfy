/** `RandomisedQueue`: a bag on a resizing array. Each enqueue swaps the new
    item into a uniformly chosen slot; here that slot is a parameter. */
module RandomisedQueue {
  import opened Wrappers
  import opened ResizingArray

  type Queue<T> = Buffer<T>

  function New<T>(): (q: Queue<T>)
    ensures Valid(q) && Contents(q) == [] && Capacity(q) == 1
  {
    Empty()
  }

  /** `enqueue(item)` with `getRandomInt(0, size + 1)` returning `index`: the
      item lands at `index` and whatever was there moves to the end. */
  function Enqueue<T>(q: Queue<T>, item: T, index: nat): (r: Queue<T>)
    requires Valid(q) && index <= q.size
    ensures Valid(r)
    ensures multiset(Contents(r)) == multiset(Contents(q)) + multiset{item}
    ensures index < q.size ==> Contents(r) == Contents(q)[index := item] + [Contents(q)[index]]
    ensures index == q.size ==> Contents(r) == Contents(q) + [item]
    ensures Capacity(r) == if q.size == Capacity(q) then 2 * Capacity(q) else Capacity(q)
  {
    var g := Grow(q);
    var r := Buffer(g.slots[g.size := g.slots[index]][index := Some(item)], g.size + 1);
    var c := Contents(q);
    if index < q.size then
      assert Contents(r) == c[index := item] + [c[index]];
      SwapInMultiset(c, index, item);
      r
    else
      assert Contents(r) == c + [item];
      r
  }

  /** Overwriting slot `i` with `item` and appending the old occupant adds
      exactly `item` to the multiset. */
  lemma SwapInMultiset<T>(c: seq<T>, i: nat, item: T)
    requires i < |c|
    ensures multiset(c[i := item] + [c[i]]) == multiset(c) + multiset{item}
  {
    assert c == c[..i] + [c[i]] + c[i + 1..];
    assert c[i := item] == c[..i] + [item] + c[i + 1..];
  }

  /** `dequeue()`: an empty queue is an error and stays as it was; otherwise
      the item in the last occupied slot leaves the bag and is returned, and
      the other items keep their slots. The randomness is all in `enqueue`. */
  function Dequeue<T>(q: Queue<T>): (r: (Queue<T>, Result<T>))
    requires Valid(q)
    ensures Valid(r.0)
    ensures q.size == 0 ==> r == (q, Err(EmptyCollection))
    ensures q.size > 0 ==>
      && r.1.Ok? && r.1.value == Contents(q)[q.size - 1]
      && Contents(r.0) == Contents(q)[..q.size - 1]
      && multiset(Contents(r.0)) + multiset{r.1.value} == multiset(Contents(q))
      && Capacity(r.0) == if 4 * (q.size - 1) < Capacity(q) && q.size > 1 then Capacity(q) / 2 else Capacity(q)
  {
    if IsEmpty(q) then
      (q, Err(EmptyCollection))
    else
      var (q', item) := TakeLast(q);
      (q', Ok(item))
  }

  function IsEmpty<T>(q: Queue<T>): (r: bool)
    requires Valid(q)
    ensures r <==> Contents(q) == []
  {
    q.size == 0
  }

  // ---------------------------------------------------------------------------
  // Enqueue k, dequeue k

  /** Legal random choices for enqueueing `n` items onto a queue of `size`. */
  predicate LegalPicks(picks: seq<nat>, size: nat) {
    forall k :: 0 <= k < |picks| ==> picks[k] <= size + k
  }

  /** Enqueues `xs` in order, the `k`-th at slot `picks[k]`. */
  function EnqueueAll<T>(q: Queue<T>, xs: seq<T>, picks: seq<nat>): (r: Queue<T>)
    requires Valid(q) && |picks| == |xs| && LegalPicks(picks, q.size)
    ensures Valid(r) && r.size == q.size + |xs|
    ensures multiset(Contents(r)) == multiset(Contents(q)) + multiset(xs)
    decreases |xs|
  {
    if |xs| == 0 then q
    else
      assert LegalPicks(picks[1..], q.size + 1) by {
        forall k | 0 <= k < |picks| - 1 ensures picks[1..][k] <= q.size + 1 + k {
          assert picks[k + 1] <= q.size + (k + 1);
        }
      }
      assert xs == [xs[0]] + xs[1..];
      EnqueueAll(Enqueue(q, xs[0], picks[0]), xs[1..], picks[1..])
  }

  /** Dequeues until empty: every dequeue succeeds and the items returned
      are exactly the items held. */
  method DequeueAll<T>(q: Queue<T>) returns (q': Queue<T>, items: seq<T>)
    requires Valid(q)
    ensures Valid(q') && Contents(q') == []
    ensures multiset(items) == multiset(Contents(q))
  {
    q', items := q, [];
    while q'.size > 0
      invariant Valid(q')
      invariant multiset(items) + multiset(Contents(q')) == multiset(Contents(q))
      decreases q'.size
    {
      var taken := Dequeue(q');
      q', items := taken.0, items + [taken.1.value];
    }
  }

  /** Enqueueing `xs` into an empty queue, whatever slots are picked, and then
      dequeueing everything returns a permutation of `xs`. */
  method EnqueueThenDequeue<T>(xs: seq<T>, picks: seq<nat>) returns (items: seq<T>)
    requires |picks| == |xs| && LegalPicks(picks, 0)
    ensures |items| == |xs| && multiset(items) == multiset(xs)
  {
    var full := EnqueueAll(New(), xs, picks);
    var _, out := DequeueAll(full);
    items := out;
    assert |multiset(items)| == |items| && |multiset(xs)| == |xs|;
  }
}
