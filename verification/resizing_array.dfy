/** The resizing array shared by `Stack` and `RandomisedQueue`: a backing
    array whose length is the capacity, of which the first `size` slots are
    occupied. A slot past `size` is `None` (JavaScript's `undefined` or `null`). */
module ResizingArray {
  import opened Wrappers

  datatype Buffer<T> = Buffer(slots: seq<Option<T>>, size: nat)

  function Capacity<T>(b: Buffer<T>): nat {
    |b.slots|
  }

  predicate IsPowerOfTwo(n: nat)
    decreases n
  {
    n == 1 || (n >= 2 && n % 2 == 0 && IsPowerOfTwo(n / 2))
  }

  /** The occupied slots are exactly the first `size`, and the capacity is a
      power of two (it starts at 1 and is only ever doubled or halved). */
  predicate Valid<T>(b: Buffer<T>) {
    && b.size <= |b.slots|
    && IsPowerOfTwo(|b.slots|)
    && forall i :: 0 <= i < |b.slots| ==> (b.slots[i].Some? <==> i < b.size)
  }

  /** The items held, bottom (first pushed) first. */
  function Contents<T>(b: Buffer<T>): (r: seq<T>)
    requires Valid(b)
    ensures |r| == b.size
    ensures forall i :: 0 <= i < b.size ==> b.slots[i] == Some(r[i])
  {
    seq(b.size, i requires 0 <= i < b.size && Valid(b) => b.slots[i].value)
  }

  /** `new Array(1)` with `size = 0`. */
  function Empty<T>(): (b: Buffer<T>)
    ensures Valid(b) && Contents(b) == [] && Capacity(b) == 1
  {
    Buffer([None], 0)
  }

  /** `resize(capacity)`: a fresh array of the new length holding a copy of
      the occupied prefix. */
  function Resize<T>(b: Buffer<T>, capacity: nat): (r: Buffer<T>)
    requires b.size <= |b.slots| && b.size <= capacity
    ensures Capacity(r) == capacity && r.size == b.size
    ensures r.slots[..b.size] == b.slots[..b.size]
    ensures forall i :: b.size <= i < capacity ==> r.slots[i] == None
  {
    Buffer(seq(capacity, i requires 0 <= i < capacity => if i < b.size then b.slots[i] else None), b.size)
  }

  /** The step before an insertion: a full array doubles its capacity. */
  function Grow<T>(b: Buffer<T>): (r: Buffer<T>)
    requires Valid(b)
    ensures Valid(r) && Contents(r) == Contents(b) && r.size < Capacity(r)
    ensures Capacity(r) == if b.size == Capacity(b) then 2 * Capacity(b) else Capacity(b)
  {
    if b.size >= Capacity(b) then Resize(b, 2 * b.size) else b
  }

  /** The shared body of `pop` and `dequeue` on a non-empty array: clear the
      last occupied slot, return its item, and halve the capacity when the
      array has become less than a quarter full (but not empty). */
  function TakeLast<T>(b: Buffer<T>): (r: (Buffer<T>, T))
    requires Valid(b) && b.size > 0
    ensures Valid(r.0)
    ensures Contents(b) == Contents(r.0) + [r.1]
    ensures Capacity(r.0) ==
      if 0 < b.size - 1 && 4 * (b.size - 1) < Capacity(b) then Capacity(b) / 2 else Capacity(b)
  {
    var size := b.size - 1;
    var item := b.slots[size].value;
    var cleared := Buffer(b.slots[size := None], size);
    if 0 < size && 4 * size < Capacity(b) then
      (Resize(cleared, Capacity(b) / 2), item)
    else
      (cleared, item)
  }
}
