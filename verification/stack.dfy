/** `Stack`: a last-in first-out stack on a resizing array. */
module Stack {
  import opened Wrappers
  import opened ResizingArray

  type Stack<T> = Buffer<T>

  /** `Stack()`: capacity 1, nothing held. */
  function New<T>(): (s: Stack<T>)
    ensures Valid(s) && Contents(s) == [] && Capacity(s) == 1
  {
    Empty()
  }

  /** `push(item)`: the item goes on top; the capacity doubles exactly when
      the array was full. */
  function Push<T>(s: Stack<T>, item: T): (r: Stack<T>)
    requires Valid(s)
    ensures Valid(r) && Contents(r) == Contents(s) + [item]
    ensures Capacity(r) == if s.size == Capacity(s) then 2 * Capacity(s) else Capacity(s)
  {
    var g := Grow(s);
    var r := Buffer(g.slots[g.size := Some(item)], g.size + 1);
    assert Contents(r) == Contents(g) + [item];
    r
  }

  /** `pop()`: an empty stack is an error and stays as it was; otherwise the
      top item is removed and returned. */
  function Pop<T>(s: Stack<T>): (r: (Stack<T>, Result<T>))
    requires Valid(s)
    ensures Valid(r.0)
    ensures s.size == 0 ==> r == (s, Err(EmptyCollection))
    ensures s.size > 0 ==>
      && r.1 == Ok(Contents(s)[s.size - 1])
      && Contents(r.0) == Contents(s)[..s.size - 1]
      && Capacity(r.0) == if 4 * (s.size - 1) < Capacity(s) && s.size > 1 then Capacity(s) / 2 else Capacity(s)
  {
    if IsEmpty(s) then
      (s, Err(EmptyCollection))
    else
      var (s', item) := TakeLast(s);
      assert Contents(s) == Contents(s') + [item];
      (s', Ok(item))
  }

  function IsEmpty<T>(s: Stack<T>): (r: bool)
    requires Valid(s)
    ensures r <==> Contents(s) == []
  {
    s.size == 0
  }

  // ---------------------------------------------------------------------------
  // Last in, first out

  /** Pushes `xs` in order. */
  function PushAll<T>(s: Stack<T>, xs: seq<T>): (r: Stack<T>)
    requires Valid(s)
    ensures Valid(r) && Contents(r) == Contents(s) + xs
    decreases |xs|
  {
    if |xs| == 0 then s
    else
      var r := PushAll(Push(s, xs[0]), xs[1..]);
      assert Contents(s) + xs == Contents(s) + [xs[0]] + xs[1..];
      r
  }

  function Reverse<T>(xs: seq<T>): (r: seq<T>)
    ensures |r| == |xs|
  {
    if |xs| == 0 then [] else Reverse(xs[1..]) + [xs[0]]
  }

  /** Pops `k` times from a stack holding at least `k` items: every pop
      succeeds, and the items come back topmost first. */
  method PopMany<T>(s: Stack<T>, k: nat) returns (s': Stack<T>, items: seq<T>)
    requires Valid(s) && k <= s.size
    ensures Valid(s') && Contents(s') == Contents(s)[..s.size - k]
    ensures items == Reverse(Contents(s)[s.size - k..])
  {
    var c := Contents(s);
    s', items := s, [];
    var j := 0;
    while j < k
      invariant 0 <= j <= k && Valid(s')
      invariant Contents(s') == c[..|c| - j]
      invariant items == Reverse(c[|c| - j..])
    {
      var popped := Pop(s');
      assert c[|c| - (j + 1)..][1..] == c[|c| - j..];
      s', items := popped.0, items + [popped.1.value];
      j := j + 1;
    }
  }

  /** Pushing `xs` onto any stack and then popping `|xs|` times returns `xs`
      reversed and restores its contents (the capacity may differ). */
  method PushThenPop<T>(s: Stack<T>, xs: seq<T>) returns (s': Stack<T>, items: seq<T>)
    requires Valid(s)
    ensures Valid(s') && Contents(s') == Contents(s)
    ensures items == Reverse(xs)
  {
    var full := PushAll(s, xs);
    s', items := PopMany(full, |xs|);
    assert Contents(full)[..full.size - |xs|] == Contents(s);
    assert Contents(full)[full.size - |xs|..] == xs;
  }
}
