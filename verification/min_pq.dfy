/** `MinPQ`: a priority queue whose `delMin` returns the smallest item,
    on the binary heap ordered by `more`. */
module MinPQ {
  import opened Wrappers
  import BinaryHeap

  type PQ = BinaryHeap.Heap

  predicate Valid(pq: PQ) {
    BinaryHeap.Valid(BinaryHeap.MinFirst, pq)
  }

  function Items(pq: PQ): multiset<int>
    requires Valid(pq)
  {
    BinaryHeap.Items(pq)
  }

  /** `MinPQ()`: an empty queue. */
  function New(): (pq: PQ)
    ensures Valid(pq) && Items(pq) == multiset{}
  {
    BinaryHeap.New()
  }

  /** `insert(item)`: adds exactly `item`. */
  method Insert(pq: PQ, item: int) returns (pq': PQ)
    requires Valid(pq)
    ensures Valid(pq') && pq'.size == pq.size + 1
    ensures Items(pq') == Items(pq) + multiset{item}
  {
    pq' := BinaryHeap.Insert(BinaryHeap.MinFirst, pq, item);
  }

  /** `delMin()`: an empty queue is an error and stays as it was;
      otherwise a smallest item is removed and returned. */
  method DelMin(pq: PQ) returns (pq': PQ, r: Result<int>)
    requires Valid(pq)
    ensures Valid(pq')
    ensures pq.size == 0 ==> pq' == pq && r == Err(EmptyCollection)
    ensures pq.size > 0 ==>
      && r.Ok? && r.value in Items(pq) && pq'.size == pq.size - 1
      && (forall x :: x in Items(pq) ==> r.value <= x)
      && Items(pq') == Items(pq) - multiset{r.value}
  {
    pq', r := BinaryHeap.DelTop(BinaryHeap.MinFirst, pq);
  }

  function IsEmpty(pq: PQ): (r: bool)
    requires Valid(pq)
    ensures r <==> pq.size == 0
    ensures r <==> Items(pq) == multiset{}
  {
    BinaryHeap.IsEmpty(pq)
  }

  /** Calling `delMin` until the queue is empty yields every item, in
      non-decreasing order. */
  method Drain(pq: PQ) returns (pq': PQ, out: seq<int>)
    requires Valid(pq)
    ensures Valid(pq') && pq'.size == 0
    ensures multiset(out) == Items(pq)
    ensures forall i :: 0 <= i < |out| - 1 ==> out[i] <= out[i + 1]
  {
    pq', out := BinaryHeap.Drain(BinaryHeap.MinFirst, pq);
    assert forall i :: 0 <= i < |out| - 1 ==> !BinaryHeap.Below(BinaryHeap.MinFirst, out[i], out[i + 1]);
  }

  /** Inserting `xs` into a new queue and then draining it returns `xs`
      rearranged into non-decreasing order. */
  method InsertThenDrain(xs: seq<int>) returns (out: seq<int>)
    ensures multiset(out) == multiset(xs)
    ensures forall i :: 0 <= i < |out| - 1 ==> out[i] <= out[i + 1]
  {
    var pq := New();
    var j := 0;
    while j < |xs|
      invariant 0 <= j <= |xs| && Valid(pq)
      invariant Items(pq) == multiset(xs[..j])
    {
      pq := Insert(pq, xs[j]);
      assert xs[..j + 1] == xs[..j] + [xs[j]];
      j := j + 1;
    }
    assert xs[..|xs|] == xs;
    var _, drained := Drain(pq);
    out := drained;
  }
}
