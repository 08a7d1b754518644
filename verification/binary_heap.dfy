/** The 1-indexed binary heap behind `MaxPQ` and `MinPQ`. The two files
    differ only in the comparison (`less` in one, `more` in the other), so
    the heap is written once over an `Order`. Items are their own priorities.
    `arr[0]` is never read; `arr[1..size]` holds the items. */
module BinaryHeap {
  import opened Wrappers

  /** `MaxFirst` for `MaxPQ` (largest at the root), `MinFirst` for `MinPQ`. */
  datatype Order = MaxFirst | MinFirst

  /** `less(a, b)` of `MaxPQ` and `more(a, b)` of `MinPQ`: the item `x` must
      not sit above `y`. A strict order in both cases. */
  predicate Below(o: Order, x: int, y: int): (b: bool)
    ensures b ==> x != y
  {
    if o.MaxFirst? then x < y else x > y
  }

  /** Both comparisons are strict total orders: irreflexive, asymmetric,
      transitive, and any two distinct items are comparable. */
  lemma BelowStrictOrder(o: Order, x: int, y: int, z: int)
    ensures !Below(o, x, x)
    ensures Below(o, x, y) ==> !Below(o, y, x)
    ensures Below(o, x, y) && Below(o, y, z) ==> Below(o, x, z)
    ensures x != y ==> Below(o, x, y) || Below(o, y, x)
  {
  }

  /** `parentIndex(i)`: `Math.floor(i / 2)`. */
  function Parent(i: nat): (p: nat)
    ensures i >= 2 ==> 1 <= p < i && (i == 2 * p || i == 2 * p + 1)
  {
    i / 2
  }

  datatype Heap = Heap(arr: seq<int>, size: nat)

  /** The item at `i` is not below its parent. */
  predicate ParentOk(o: Order, a: seq<int>, i: nat)
    requires 2 <= i < |a|
  {
    !Below(o, a[Parent(i)], a[i])
  }

  predicate HeapOrdered(o: Order, a: seq<int>) {
    forall i :: 2 <= i < |a| ==> ParentOk(o, a, i)
  }

  predicate Valid(o: Order, h: Heap) {
    |h.arr| == h.size + 1 && HeapOrdered(o, h.arr)
  }

  /** The items held, as a multiset. */
  function Items(h: Heap): multiset<int>
    requires |h.arr| >= 1
  {
    multiset(h.arr[1..])
  }

  /** `exch(i, j)`: swaps two slots, so the items are only permuted. */
  function Exch(a: seq<int>, i: nat, j: nat): (r: seq<int>)
    requires 1 <= i < |a| && 1 <= j < |a|
    ensures |r| == |a| && r[0] == a[0] && r[i] == a[j] && r[j] == a[i]
    ensures forall k :: 0 <= k < |a| && k != i && k != j ==> r[k] == a[k]
    ensures multiset(r[1..]) == multiset(a[1..])
  {
    var r := a[i := a[j]][j := a[i]];
    assert r[1..] == a[1..][i - 1 := a[j]][j - 1 := a[i]];
    r
  }

  // ---------------------------------------------------------------------------
  // swim

  /** Heap order everywhere except possibly between `k` and its parent. */
  predicate OrderedExceptAt(o: Order, a: seq<int>, k: nat) {
    forall i :: 2 <= i < |a| && i != k ==> ParentOk(o, a, i)
  }

  /** The parent of `k` is not below the children of `k`. */
  predicate ParentAboveChildren(o: Order, a: seq<int>, k: nat) {
    forall c :: 2 <= c < |a| && Parent(c) == k && k >= 2 ==> !Below(o, a[Parent(k)], a[c])
  }

  /** `swim(k)`: moves the item at `k` up past every parent it should not be
      below, restoring heap order. */
  method Swim(o: Order, a: seq<int>, k: nat) returns (a': seq<int>)
    requires 1 <= k < |a| && OrderedExceptAt(o, a, k) && ParentAboveChildren(o, a, k)
    ensures |a'| == |a| && a'[0] == a[0] && HeapOrdered(o, a')
    ensures multiset(a'[1..]) == multiset(a[1..])
  {
    a' := a;
    var i := k;
    while i > 1 && Below(o, a'[Parent(i)], a'[i])
      invariant 1 <= i < |a'| == |a| && a'[0] == a[0]
      invariant multiset(a'[1..]) == multiset(a[1..])
      invariant OrderedExceptAt(o, a', i) && ParentAboveChildren(o, a', i)
      decreases i
    {
      var p := Parent(i);
      var b := Exch(a', p, i);
      forall j | 2 <= j < |b| && j != p
        ensures ParentOk(o, b, j)
      {
        if Parent(j) == p && j != i {
          assert ParentOk(o, a', j);
        } else if Parent(j) == i {
          assert ParentAboveChildren(o, a', i);
        } else if j != i {
          assert ParentOk(o, a', j);
        }
      }
      if p >= 2 {
        assert ParentOk(o, a', p);
        forall c | 2 <= c < |b| && Parent(c) == p
          ensures !Below(o, b[Parent(p)], b[c])
        {
          if c != i {
            assert ParentOk(o, a', c);
          }
        }
      }
      a', i := b, p;
    }
  }

  // ---------------------------------------------------------------------------
  // sink

  /** Heap order everywhere except possibly between `k` and its children. */
  predicate OrderedExceptBelow(o: Order, a: seq<int>, k: nat) {
    forall i :: 2 <= i < |a| && Parent(i) != k ==> ParentOk(o, a, i)
  }

  /** `sink(k)`: moves the item at `k` down, each time exchanging it with its
      upper child, until neither child is above it. */
  method Sink(o: Order, a: seq<int>, k: nat) returns (a': seq<int>)
    requires 1 <= k && |a| >= 1 && OrderedExceptBelow(o, a, k) && ParentAboveChildren(o, a, k)
    ensures |a'| == |a| && a'[0] == a[0] && HeapOrdered(o, a')
    ensures multiset(a'[1..]) == multiset(a[1..])
  {
    var size := |a| - 1;
    a' := a;
    var i := k;
    while 2 * i <= size
      invariant 1 <= i && |a'| == |a| && a'[0] == a[0]
      invariant multiset(a'[1..]) == multiset(a[1..])
      invariant OrderedExceptBelow(o, a', i) && ParentAboveChildren(o, a', i)
      decreases |a| - i
    {
      var c := 2 * i;
      if c < size && Below(o, a'[c], a'[c + 1]) {
        c := c + 1;
      }
      if !Below(o, a'[i], a'[c]) {
        SinkStops(o, a', i, c);
        return;
      }
      SinkStepOk(o, a', i, c);
      a', i := Exch(a', i, c), c;
    }
    LeafOrdered(o, a', i);
  }

  /** The loop exit of `sink` when the item is not below its upper child. */
  lemma SinkStops(o: Order, a: seq<int>, i: nat, c: nat)
    requires OrderedExceptBelow(o, a, i) && 2 * i <= c <= 2 * i + 1 && c < |a|
    requires c < |a| - 1 && c == 2 * i ==> !Below(o, a[c], a[c + 1])
    requires c == 2 * i + 1 ==> Below(o, a[c - 1], a[c])
    requires !Below(o, a[i], a[c])
    ensures HeapOrdered(o, a)
  {
    forall j | 2 <= j < |a| && Parent(j) == i
      ensures ParentOk(o, a, j)
    {
    }
  }

  /** The loop exit of `sink` when the item has no children. */
  lemma LeafOrdered(o: Order, a: seq<int>, i: nat)
    requires OrderedExceptBelow(o, a, i) && 2 * i >= |a|
    ensures HeapOrdered(o, a)
  {
  }

  /** One exchange of `sink` keeps the loop invariant, one level down. */
  lemma SinkStepOk(o: Order, a: seq<int>, i: nat, c: nat)
    requires OrderedExceptBelow(o, a, i) && ParentAboveChildren(o, a, i)
    requires 1 <= i && 2 * i <= c <= 2 * i + 1 && c < |a|
    requires c < |a| - 1 && c == 2 * i ==> !Below(o, a[c], a[c + 1])
    requires c == 2 * i + 1 ==> Below(o, a[c - 1], a[c])
    requires Below(o, a[i], a[c])
    ensures OrderedExceptBelow(o, Exch(a, i, c), c) && ParentAboveChildren(o, Exch(a, i, c), c)
  {
    var b := Exch(a, i, c);
    forall j | 2 <= j < |b| && Parent(j) != c
      ensures ParentOk(o, b, j)
    {
      if j == i {
        assert ParentAboveChildren(o, a, i);
      } else if Parent(j) != i {
        assert ParentOk(o, a, j);
      }
    }
    forall d | 2 <= d < |b| && Parent(d) == c
      ensures !Below(o, b[Parent(c)], b[d])
    {
      assert ParentOk(o, a, d);
    }
  }

  // ---------------------------------------------------------------------------
  // The root

  /** No item of a heap is above the item at the root. */
  lemma {:induction false} RootAbove(o: Order, a: seq<int>, i: nat)
    requires HeapOrdered(o, a) && 1 <= i < |a|
    ensures !Below(o, a[1], a[i])
    decreases i
  {
    if i >= 2 {
      RootAbove(o, a, Parent(i));
      assert ParentOk(o, a, i);
    }
  }

  lemma RootIsTop(o: Order, h: Heap)
    requires Valid(o, h) && h.size > 0
    ensures h.arr[1] in Items(h)
    ensures forall x :: x in Items(h) ==> !Below(o, h.arr[1], x)
  {
    assert h.arr[1..][0] == h.arr[1];
    forall x | x in Items(h)
      ensures !Below(o, h.arr[1], x)
    {
      var j :| 0 <= j < |h.arr[1..]| && h.arr[1..][j] == x;
      RootAbove(o, h.arr, j + 1);
    }
  }

  // ---------------------------------------------------------------------------
  // Operations

  function New(): (h: Heap)
    ensures forall o :: Valid(o, h)
    ensures h.size == 0 && Items(h) == multiset{}
  {
    Heap([0], 0)
  }

  /** `insert(item)`: appended at `++size`, then swum up. */
  method Insert(o: Order, h: Heap, item: int) returns (h': Heap)
    requires Valid(o, h)
    ensures Valid(o, h') && h'.size == h.size + 1
    ensures Items(h') == Items(h) + multiset{item}
  {
    var a := h.arr + [item];
    assert a[1..] == h.arr[1..] + [item];
    assert OrderedExceptAt(o, a, h.size + 1) by {
      forall i | 2 <= i < |a| && i != h.size + 1
        ensures ParentOk(o, a, i)
      {
        assert ParentOk(o, h.arr, i);
      }
    }
    var a' := Swim(o, a, h.size + 1);
    h' := Heap(a', h.size + 1);
  }

  /** `delMax()` / `delMin()`: an empty heap is an error and stays as it was;
      otherwise the root, which no item is above, is removed and returned. */
  method DelTop(o: Order, h: Heap) returns (h': Heap, r: Result<int>)
    requires Valid(o, h)
    ensures Valid(o, h')
    ensures h.size == 0 ==> h' == h && r == Err(EmptyCollection)
    ensures h.size > 0 ==>
      && r.Ok? && r.value in Items(h) && h'.size == h.size - 1
      && (forall x :: x in Items(h) ==> !Below(o, r.value, x))
      && Items(h') == Items(h) - multiset{r.value}
  {
    if IsEmpty(h) {
      return h, Err(EmptyCollection);
    }
    var top := h.arr[1];
    RootIsTop(o, h);
    // exch(1, size--): the old root now sits in the dropped slot `size + 1`
    var a := Exch(h.arr, 1, h.size)[..h.size];
    DropRoot(o, h, a);
    var a' := Sink(o, a, 1);
    h', r := Heap(a', h.size - 1), Ok(top);
  }

  /** After the root is exchanged with the last item and the last slot is
      dropped, only the new root can be out of order, and the root's item
      has left the multiset. */
  lemma DropRoot(o: Order, h: Heap, a: seq<int>)
    requires Valid(o, h) && h.size > 0 && a == Exch(h.arr, 1, h.size)[..h.size]
    ensures OrderedExceptBelow(o, a, 1) && ParentAboveChildren(o, a, 1)
    ensures multiset(a[1..]) == Items(h) - multiset{h.arr[1]}
  {
    var b := Exch(h.arr, 1, h.size);
    assert b[1..] == a[1..] + [h.arr[1]];
    forall j | 2 <= j < |a| && Parent(j) != 1
      ensures ParentOk(o, a, j)
    {
      assert ParentOk(o, h.arr, j);
    }
  }

  function IsEmpty(h: Heap): (r: bool)
    requires |h.arr| == h.size + 1
    ensures r <==> Items(h) == multiset{}
  {
    h.size == 0
  }

  // ---------------------------------------------------------------------------
  // Draining

  /** Consecutive items are never out of order. */
  predicate Sorted(o: Order, s: seq<int>) {
    forall i :: 0 <= i < |s| - 1 ==> !Below(o, s[i], s[i + 1])
  }

  /** Removes the top until the heap is empty: the items come out in order,
      and they are exactly the items held. */
  method Drain(o: Order, h: Heap) returns (h': Heap, out: seq<int>)
    requires Valid(o, h)
    ensures Valid(o, h') && h'.size == 0
    ensures multiset(out) == Items(h) && Sorted(o, out)
  {
    h', out := h, [];
    while !IsEmpty(h')
      invariant Valid(o, h')
      invariant multiset(out) + Items(h') == Items(h)
      invariant Sorted(o, out)
      invariant |out| > 0 ==> forall x :: x in Items(h') ==> !Below(o, out[|out| - 1], x)
      decreases h'.size
    {
      var rest, r := DelTop(o, h');
      DrainStep(o, out, r.value, Items(h'), Items(rest));
      out := out + [r.value];
      h' := rest;
    }
  }

  /** Appending a top of the remaining items keeps the output sorted, and the
      new last output is a top of what remains after it. */
  lemma DrainStep(o: Order, out: seq<int>, top: int, before: multiset<int>, after: multiset<int>)
    requires Sorted(o, out)
    requires |out| > 0 ==> forall x :: x in before ==> !Below(o, out[|out| - 1], x)
    requires top in before && forall x :: x in before ==> !Below(o, top, x)
    requires after == before - multiset{top}
    ensures Sorted(o, out + [top])
    ensures forall x :: x in after ==> !Below(o, top, x)
  {
    forall x | x in after ensures x in before {
      assert after[x] <= before[x];
    }
  }
}
