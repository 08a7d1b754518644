# algorithms — a Dafny model

This project models the core of the JavaScript library `algorithms` in
Dafny and proves properties of the model. The core has two parts.

- **The prime engine** (`lib/primes.js`). It keeps a cache of primes that
  starts as `[2, 3, 5, 7, 11]`. `sieveUpTo` extends the cache with a
  segmented sieve of Eratosthenes. `primeFactors` factorises an integer by
  trial division with the cached primes up to the ceiling of its square root.
  `allFactors` expands a factorisation into the list of all divisors.
  `primes()` and `clearCache()` expose and reset the cache.
- **The containers**:
  - a resizing-array stack (`lib/stack.js`);
  - a resizing-array randomised queue (`lib/randomised-queue.js`);
  - a doubly linked FIFO queue with two sentinel nodes (`lib/queue.js`);
  - binary-heap max- and min-priority queues (`lib/maxPQ.js`, `lib/minPQ.js`);
  - weighted quick-union with path halving (`lib/union-find.js`).

Every stateful object is a value. An operation takes the old state and
returns the new one, with its result. A thrown `Error` becomes an `Err` of
`Result` (module `Wrappers`). The cases are:

- `EmptyCollection`: pop or dequeue on an empty container.
- `InvalidParameter`: an argument that is not a number, or a number with a
  fractional part.
- `MissingSize`: `UnionFind()` called without a size.
- `RangeError`: `new Array` given a length outside `[0, 2^32)`. For a negative
  argument to `primeFactors` or `allFactors`, `Math.ceil(Math.sqrt(n))` is
  `NaN`, and `sieveUpTo` passes a `NaN` length to `new Array`.

In every error case the state is unchanged.

Modules and what they hold:

- `NumberTheory`: divisibility, primality, powers, least divisors, gcd and
  Euclid's lemma. All proved from first principles.
- `PrimeCache`: the cache invariant, `primes()` and `clearCache()`.
- `Sieve`: `sieveUpTo`, including its `removeMultiples` offset arithmetic
  and the segment scan.
- `Factorisation`: prime-power lists, which stand for the factorisation
  objects, whose integer keys JavaScript enumerates in ascending order.
  Also the uniqueness half of the fundamental theorem of arithmetic.
- `Factorise`: `primeFactors`.
- `Divisors`: `allFactors`.
- `Examples`: the library's documented examples, proved outright.
- `ResizingArray`, `Stack`, `RandomisedQueue`, `LinkedQueue`: the
  array-backed and linked containers.
- `BinaryHeap`: the heap, parameterised by order. `MaxPQ` and `MinPQ` use it
  with `less` and `more` as the order.
- `UnionFind`: the union-find structure.

Modelling notes:

- The linked queue's node objects live in an arena: a sequence indexed by
  reference. A ghost path from `first` to `last` is its shape invariant.
- The union-find forest is shown acyclic by a ghost rank function. The rank
  is chosen existentially, and `Find` is proved not to depend on the choice.
- The random slot chosen by `enqueue` in the randomised queue is a parameter.
  Every property holds for every choice.

## Model

| member | source | states |
|---|---|---|
| PrimeCache.ClearCache | lib/primes.js:79 | the reset cache satisfies the cache invariant and holds exactly the primes up to 11 |
| PrimeCache.Primes | lib/primes.js:78 | `primes()` is ascending, starts with the seed, and holds exactly the primes up to its largest entry |
| PrimeCache.ValidMembership | lib/primes.js:2-29 | a number is in a valid cache iff it is a prime no larger than the last entry |
| PrimeCache.ValidDetermined | lib/primes.js:2-29 | two valid caches with the same largest entry are equal |
| Sieve.FirstMultipleOffset | lib/primes.js:13 | the offset is the least `i` below `p` at which `p` divides `min + i` |
| Sieve.RemoveMultiples | lib/primes.js:12-18 | afterwards slot `j` is marked iff it was marked before or `p` divides `min + j`; the length is unchanged |
| Sieve.MarkWithCache | lib/primes.js:20 | after crossing off with every cached prime, slot `j` is marked iff some cached prime divides `min + j` |
| Sieve.UnmarkedIsPrime | lib/primes.js:23-26 | a number that no smaller prime divides is prime |
| Sieve.MarkedIsComposite | lib/primes.js:23 | a number that a smaller prime divides is not prime |
| Sieve.ScanSegment | lib/primes.js:22-28 | the scan only appends, and the cache then holds exactly the primes below the segment's end, ascending |
| Sieve.SieveUpTo | lib/primes.js:4-29 | the cache stays valid and only grows; it is unchanged when `max` is below the largest prime plus 2; afterwards it holds exactly the old entries and the primes in (last, max], and every prime up to `max` |
| Factorise.CeilSqrt | lib/primes.js:34 | the result is the least `r` with `n <= r * r` |
| Factorise.DivideOut | lib/primes.js:41-44 | `m` equals `p^e` times the result, `p` no longer divides it, and non-divisors of `m` stay non-divisors |
| Factorise.TrialStep | lib/primes.js:38-44 | one outer pass keeps the trial-division invariant: recorded prime powers times the cofactor equal `n`, and no processed prime divides the cofactor |
| Factorise.TrialDivision | lib/primes.js:37-45 | the loop stops at the first cached prime above `max` with the invariant intact |
| Factorise.LeftoverIsPrime | lib/primes.js:47 | a cofactor above 1 left after trial division up to the square-root bound is a prime above that bound |
| Factorise.AddLeftover | lib/primes.js:47-48 | recording the leftover completes a factorisation of `n` whose keys all divide `n` |
| Factorise.PrimeFactors | lib/primes.js:32-49 | negative input is a `RangeError` with the cache untouched; 0 gives `{}`; for `n >= 1` the result is an ascending list of distinct primes with positive exponents multiplying to `n`; every key except possibly a last one above the bound is cached; the cache grows by exactly the primes up to the bound |
| Factorisation.KeyDividesProduct | lib/primes.js:41-43 | each key of a factorisation divides the number it multiplies out to |
| Factorisation.PrimeDividesIffKey | lib/primes.js:41-47 | a prime divides the product iff it is a key |
| Factorisation.FactorisationUnique | lib/primes.js:32-49 | two factorisations with the same product are identical, so `primeFactors` returns the one factorisation of `n` |
| Divisors.AppendScaled | lib/primes.js:65-67 | the inner loop appends each earlier divisor times the current power, in order |
| Divisors.ExpandKey | lib/primes.js:58-68 | one key with exponent `e` extends the list to `e + 1` blocks, the `i`-th being the old list times `p^i` |
| Divisors.ExpandDivisors | lib/primes.js:57-71 | for a factorisation, the expansion has no repeats and holds exactly the divisors of the product |
| Divisors.AllFactors | lib/primes.js:57-71 | the list starts with 1 and has one entry per divisor, Π(e+1) entries; for a factorisation they are distinct and are exactly the divisors of its product |
| Divisors.AllFactorsOf | lib/primes.js:51-72 | a fraction or a non-number is `InvalidParameter`; a negative number is `RangeError`; 0 gives `[1]`; `n >= 1` gives each divisor of `n` once, starting with 1; for `n >= 0` the cache grows by exactly the primes up to ⌈√n⌉, as `primeFactors` sieves; an object is expanded without touching the cache |
| Examples.PrimesTo100Exact | test/primes.js:8-11 | the listed 25 numbers are exactly the primes up to 100 |
| Examples.SieveTo100 | test/primes.js:32-35 | after `clearCache()` and `sieveUpTo(100)` the cache is exactly those 25 primes |
| Examples.Factorise45276 | test/primes.js:81-89 | `primeFactors(2*2*3*7*7*7*11)` is `{2: 2, 3: 1, 7: 3, 11: 1}` |
| ResizingArray.Empty | lib/stack.js:9-10 | a new array has capacity 1 and holds nothing |
| ResizingArray.Resize | lib/stack.js:12-20 | the new array has the requested capacity, keeps the first `size` slots and is empty beyond them |
| ResizingArray.Grow | lib/stack.js:23 | the capacity doubles exactly when the array is full, and the contents are kept |
| ResizingArray.TakeLast | lib/stack.js:31-38 | removes the last item, and halves the capacity exactly when the remaining size is positive and below a quarter |
| Stack.New | lib/stack.js:7-10 | an empty stack of capacity 1 |
| Stack.Push | lib/stack.js:22-26 | the item goes on top, and the capacity doubles exactly when the array was full |
| Stack.Pop | lib/stack.js:28-41 | an empty stack gives `EmptyCollection` and is unchanged; otherwise the top is returned and removed, with the quarter-full halving rule |
| Stack.IsEmpty | lib/stack.js:43-45 | true iff the stack holds nothing |
| Stack.PushAll | lib/stack.js:22-26 | pushing a list appends it to the contents |
| Stack.PopMany | lib/stack.js:28-41 | `k` pops return the top `k` items, topmost first, and leave the rest |
| Stack.PushThenPop | test/stack.js:83-91 | pushing a list then popping as many times returns it reversed and restores its contents (the capacity may differ) |
| RandomisedQueue.New | lib/randomised-queue.js:9-12 | an empty queue of capacity 1 |
| RandomisedQueue.Enqueue | lib/randomised-queue.js:24-30 | the bag gains exactly the item; it lands in the chosen slot and that slot's old item moves to the end; the capacity doubles when full |
| RandomisedQueue.Dequeue | lib/randomised-queue.js:32-44 | an empty queue gives `EmptyCollection` and is unchanged; otherwise the last slot's item is returned and leaves the bag, the other items keep their slots, and the halving rule applies |
| RandomisedQueue.IsEmpty | lib/randomised-queue.js:46-48 | true iff the queue holds nothing |
| RandomisedQueue.EnqueueAll | lib/randomised-queue.js:24-30 | enqueueing a list, with any legal slot choices, adds exactly its items |
| RandomisedQueue.DequeueAll | lib/randomised-queue.js:32-44 | dequeueing until empty returns exactly the items held |
| RandomisedQueue.EnqueueThenDequeue | test/randomised-queue.js:94-105 | whatever slots are chosen, the items come back as a permutation of the input |
| LinkedQueue.ChainUnique | lib/queue.js:14-20 | the `next` links from `first` determine the list |
| LinkedQueue.New | lib/queue.js:4-12 | the two sentinels linked to each other form an empty queue |
| LinkedQueue.Enqueue | lib/queue.js:22-27 | the item joins the back of the contents, and the new node is linked directly after `first` |
| LinkedQueue.Dequeue | lib/queue.js:29-38 | an empty queue gives `EmptyCollection` and is unchanged; otherwise the oldest item is returned and its node, the one before `last`, is unlinked |
| LinkedQueue.IsEmpty | lib/queue.js:40-42 | true iff the queue holds nothing |
| LinkedQueue.EnqueueAll | lib/queue.js:22-27 | enqueueing a list appends it to the contents |
| LinkedQueue.DequeueMany | lib/queue.js:29-38 | `k` dequeues return the oldest `k` items in order and leave the rest |
| LinkedQueue.EnqueueThenDequeue | test/queue.js:92-101 | enqueueing a list and dequeueing everything returns the old contents followed by the list, and empties the queue |
| BinaryHeap.Below | lib/maxPQ.js:15-17 | `less(a, b)`, and `more(a, b)` of lib/minPQ.js:19-21: the strict comparison that decides which item sits higher; its laws are in `BelowStrictOrder` |
| BinaryHeap.BelowStrictOrder | lib/maxPQ.js:15-17 | both comparisons are irreflexive, asymmetric and transitive, and relate any two distinct items |
| BinaryHeap.Parent | lib/maxPQ.js:23-25 | for `i >= 2` the parent is below `i`, and `i` is one of its two children |
| BinaryHeap.Exch | lib/maxPQ.js:9-13 | swaps two slots, leaves the others and keeps the items |
| BinaryHeap.Swim | lib/maxPQ.js:27-32 | restores heap order when only the given slot may sit above its parent, keeping the items |
| BinaryHeap.Sink | lib/maxPQ.js:34-42 | restores heap order when only the given slot may sit below its children, keeping the items |
| BinaryHeap.RootIsTop | lib/maxPQ.js:52 | in a heap-ordered array slot 1 holds an item that no item is above |
| BinaryHeap.Insert | lib/maxPQ.js:44-47 | the heap stays ordered and gains exactly the item |
| BinaryHeap.DelTop | lib/maxPQ.js:49-57 | an empty heap gives `EmptyCollection` and is unchanged; otherwise a top item is returned and removed once, and the heap stays ordered |
| BinaryHeap.IsEmpty | lib/maxPQ.js:59-61 | true iff the heap holds nothing |
| BinaryHeap.Drain | lib/maxPQ.js:49-57 | removing the top until empty yields exactly the items, sorted in the heap's order |
| MaxPQ.New | lib/maxPQ.js:5-7 | an empty max-queue |
| MaxPQ.Insert | lib/maxPQ.js:44-47 | adds exactly the item |
| MaxPQ.DelMax | lib/maxPQ.js:49-57 | an empty queue gives `EmptyCollection` and is unchanged; otherwise the result is an item no smaller than any other, and it is removed once |
| MaxPQ.IsEmpty | lib/maxPQ.js:59-61 | true iff the queue holds nothing |
| MaxPQ.Drain | lib/maxPQ.js:49-57 | `delMax` until empty yields the items in non-increasing order |
| MaxPQ.InsertThenDrain | test/maxPQ.js:90-99 | inserting a list and draining returns it sorted into non-increasing order |
| MinPQ.New | lib/minPQ.js:9-11 | an empty min-queue |
| MinPQ.Insert | lib/minPQ.js:48-51 | adds exactly the item |
| MinPQ.DelMin | lib/minPQ.js:53-61 | an empty queue gives `EmptyCollection` and is unchanged; otherwise the result is an item no larger than any other, and it is removed once |
| MinPQ.IsEmpty | lib/minPQ.js:63-65 | true iff the queue holds nothing |
| MinPQ.Drain | lib/minPQ.js:53-61 | `delMin` until empty yields the items in non-decreasing order |
| MinPQ.InsertThenDrain | test/minPQ.js:90-99 | inserting a list and draining returns it sorted into non-decreasing order |
| UnionFind.New | lib/union-find.js:12-23 | no size gives `MissingSize`; a size that is negative or at least 2^32 gives `RangeError`; otherwise `n` singleton trees of size 1, and two elements are connected iff they are equal |
| UnionFind.RootsAreFixed | lib/union-find.js:30 | an element is its own root iff it is its own parent |
| UnionFind.HalveRoot | lib/union-find.js:32 | pointing a node at its grandparent keeps the forest acyclic and changes no element's root |
| UnionFind.Root | lib/union-find.js:27-37 | returns the root of `p`'s tree; path halving changes no root and no size |
| UnionFind.Link | lib/union-find.js:51-57 | one linking step, `id[a] = b; sz[b] += sz[a]`, changes only `a`'s parent and `b`'s size; its effect on roots is stated by `LinkMerges` |
| UnionFind.LinkMerges | lib/union-find.js:51-57 | linking root `a` under root `b` sends exactly `a`'s tree to `b` and keeps the forest acyclic |
| UnionFind.UnionRoots | lib/union-find.js:44-57 | equal roots change no root and no size (paths may still be halved); otherwise the smaller tree's root goes under the larger's (`q`'s under `p`'s on a tie) and the surviving root's size is the sum |
| UnionFind.UnionJoinsAll | lib/union-find.js:40-58 | after the merge two elements are connected iff they were before, or one was with `p` and the other with `q` |
| UnionFind.Union | lib/union-find.js:40-58 | a missing or non-numeric argument is `InvalidParameter` with no change; otherwise the two components merge as above and nothing else is joined |
| UnionFind.UnionTwice | test/union-find.js:72-80 | a second `union(p, q)` changes no root and no size |
| UnionFind.Connected | lib/union-find.js:61-66 | a missing or non-numeric argument is `InvalidParameter`; otherwise true iff both have the same root; roots and sizes are unchanged |

## Left out

- JavaScript numbers are doubles. The model uses unbounded integers.
  Precision loss above 2^53, `NaN` and `Infinity` inputs, and the test with
  an out-of-range value (test/primes.js:60-62) are not modelled.
- Sieve.SieveUpTo: a segment of 2^32 or more slots makes `new Array` throw
  a `RangeError`; the model has no such limit. Through `primeFactors` this
  needs `n` above 2^64, which is past double precision anyway. The same
  holds for the capacities of the resizing arrays, which only reach 2^32
  after 2^31 items.
- Factorise.CeilSqrt: the exact integer ceiling square root stands in for
  `Math.ceil(Math.sqrt(n))`. Rounding in the floating-point square root of
  very large `n` is not modelled.
- Sieve.SieveUpTo: `max` is an integer. A fractional `max` reaches
  `new Array` with a fractional length, which throws; that is not modelled.
- Factorise.PrimeFactors: it takes an integer. The non-integer error at
  lib/primes.js:33 is modelled once, in `Divisors.AllFactorsOf`, through
  the `Fraction` argument.
- The `typeof` dispatch of `allFactors` has four outcomes in the model:
  integral number, fractional number, factorisation object, anything else.
- Divisors.AllFactorsOf: for an object argument the model assumes integer
  keys and natural exponents. Other objects are outside the model.
- `null` arguments are not modelled. `new Array(null)` in
  `UnionFind(null)` makes a one-element array.
- `primes()` returns the live array, so a caller could mutate the cache.
  The model returns a value.
- When both arguments of `union` or `connected` are numbers, they must lie
  in `[0, n)`. Outside that range the source computes with `undefined`
  entries; this is not modelled. A non-number argument is modelled for any
  value of the other, as the type check comes first.
- The priority-queue `getPriority` hook, objects with a `priority()`
  method, is left out. Items are integers compared directly.
- Items in the stack and the queues are of any type `T`. JavaScript's
  distinction between `null` and `undefined` in cleared slots is not kept:
  empty slots are `None`.
- Nodes unlinked by the linked queue's `dequeue` stay in the arena,
  unreachable. JavaScript would garbage-collect them.
- Heap slot 0 is a placeholder, as the source never uses it.
- BinaryHeap.DelTop: the old top is dropped from the array before `sink`
  runs rather than after. `sink` never reads past `size`, so the result is
  the same.
- The export line `module.exports = MaxPQ` in lib/minPQ.js:74 names a
  function that file does not define. The model takes the evidently
  intended `MinPQ`.
- UnionFind.Union: it returns `Ok(())` for the source's `undefined`.
- Random numbers (`lib/helpers.js`) become the explicit `index` parameter of
  the randomised queue's `enqueue`. Uniformity is not modelled.
- Timing and complexity tests are not modelled, and neither is amortised cost.
