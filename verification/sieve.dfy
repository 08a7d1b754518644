/** `sieveUpTo`: extends the prime cache with a segmented Sieve of Eratosthenes
    over the new segment [largest cached prime + 2, max]. */
module Sieve {
  import opened NumberTheory
  import opened PrimeCache

  /** Some entry of `ps` divides `x`. */
  ghost predicate HasDivisorIn(x: int, ps: seq<nat>) {
    exists t :: 0 <= t < |ps| && Divides(ps[t], x)
  }

  lemma HasDivisorInAppend(x: int, ps: seq<nat>, p: nat)
    ensures HasDivisorIn(x, ps + [p]) <==> HasDivisorIn(x, ps) || Divides(p, x)
  {
    var qs := ps + [p];
    if HasDivisorIn(x, ps) {
      var t :| 0 <= t < |ps| && Divides(ps[t], x);
      assert qs[t] == ps[t];
    }
    if Divides(p, x) {
      assert qs[|ps|] == p;
    }
    if HasDivisorIn(x, qs) {
      var t :| 0 <= t < |qs| && Divides(qs[t], x);
      if t < |ps| {
        assert qs[t] == ps[t];
      }
    }
  }

  /** After a multiple `x` of `p`, the next `p - 1` integers are not multiples of `p`. */
  lemma NoMultipleBefore(x: int, p: nat, k: int)
    requires Divides(p, x) && 0 < k < p
    ensures !Divides(p, x + k)
  {
    var q := x / p;
    assert x + k == p * q + k;
    DivModUnique(x + k, p, q, k);
  }

  /** `p` divides the value `min + j` at offset `j` of the segment starting at `min`. */
  predicate DividesAt(p: nat, min: nat, j: int) {
    Divides(p, min + j)
  }

  /** The least non-negative offset `i` such that `p` divides `min + i`:
      zero when `p` divides `min`, else `p` less the remainder. */
  function FirstMultipleOffset(min: nat, p: nat): (i: nat)
    requires p > 0
    ensures i < p && DividesAt(p, min, i)
    ensures forall j :: 0 <= j < i ==> !DividesAt(p, min, j)
  {
    var r := min % p;
    var q := min / p;
    assert min == p * q + r;
    if r != 0 then
      assert min + (p - r) == p * (q + 1);
      DividesMultiple(p, q + 1);
      assert forall j :: 0 <= j < p - r ==> !DividesAt(p, min, j) by {
        forall j | 0 <= j < p - r
          ensures !DividesAt(p, min, j)
        {
          assert min + j == p * q + (r + j);
          DivModUnique(min + j, p, q, r + j);
        }
      }
      p - r
    else
      0
  }

  /** `removeMultiples(p)`: marks exactly the segment positions whose value
      `min + j` is a multiple of `p`, leaving every other mark as it was. */
  method RemoveMultiples(marks: seq<bool>, min: nat, p: nat) returns (marks': seq<bool>)
    requires p > 0
    ensures |marks'| == |marks|
    ensures forall j :: 0 <= j < |marks| ==> marks'[j] == (marks[j] || DividesAt(p, min, j))
  {
    var multiple := FirstMultipleOffset(min, p);
    marks' := marks;
    while multiple < |marks'|
      invariant |marks'| == |marks|
      invariant DividesAt(p, min, multiple)
      invariant forall j :: 0 <= j < |marks| ==>
        marks'[j] == (marks[j] || (j < multiple && DividesAt(p, min, j)))
      decreases |marks| - multiple
    {
      marks' := marks'[multiple := true];
      forall j | multiple < j < multiple + p
        ensures !DividesAt(p, min, j)
      {
        NoMultipleBefore(min + multiple, p, j - multiple);
      }
      assert DividesAt(p, min, multiple + p) by {
        var q := (min + multiple) / p;
        assert min + multiple + p == p * (q + 1);
        DividesMultiple(p, q + 1);
      }
      multiple := multiple + p;
    }
  }

  /** Sieves the segment of `marks`, which starts at `min`, with every cached prime. */
  method MarkWithCache(cache: seq<nat>, min: nat, len: nat) returns (marks: seq<bool>)
    requires forall i :: 0 <= i < |cache| ==> cache[i] > 0
    ensures |marks| == len
    ensures forall j :: 0 <= j < len ==> marks[j] == HasDivisorIn(min + j, cache)
  {
    marks := seq(len, _ => false);
    var k := 0;
    while k < |cache|
      invariant 0 <= k <= |cache|
      invariant |marks| == len
      invariant forall j :: 0 <= j < len ==> marks[j] == HasDivisorIn(min + j, cache[..k])
    {
      marks := RemoveMultiples(marks, min, cache[k]);
      assert cache[..k + 1] == cache[..k] + [cache[k]];
      forall j | 0 <= j < len
        ensures marks[j] == HasDivisorIn(min + j, cache[..k + 1])
      {
        HasDivisorInAppend(min + j, cache[..k], cache[k]);
      }
      k := k + 1;
    }
    assert cache[..k] == cache;
  }

  /** Every prime below `bound` is in `ps`, and every entry of `ps` is a prime below `bound`. */
  ghost predicate PrimesBelow(ps: seq<nat>, bound: int) {
    && StrictlyIncreasing(ps)
    && (forall t :: 0 <= t < |ps| ==> IsPrime(ps[t]) && ps[t] < bound)
    && (forall n :: 2 <= n < bound ==> (IsPrime(n) <==> n in ps))
  }

  /** A number that no prime below it divides is itself prime. */
  lemma UnmarkedIsPrime(ps: seq<nat>, x: nat)
    requires x >= 2 && PrimesBelow(ps, x) && !HasDivisorIn(x, ps)
    ensures IsPrime(x)
  {
    var p := LeastDivisor(x);
    LeastDivisorIsPrime(x);
    assert p == x;
  }

  /** A number divided by a prime below it is not prime. */
  lemma MarkedIsComposite(ps: seq<nat>, x: nat)
    requires PrimesBelow(ps, x) && HasDivisorIn(x, ps)
    ensures !IsPrime(x)
  {
    var t :| 0 <= t < |ps| && Divides(ps[t], x);
    assert 2 <= ps[t] < x;
  }

  /** The left-to-right scan of the segment [min, min + |marks|): each unmarked
      position is a new prime, appended and then used to mark its own multiples. */
  method ScanSegment(cache: seq<nat>, min: nat, marks: seq<bool>) returns (cache': seq<nat>)
    requires min >= 2 && PrimesBelow(cache, min)
    requires forall j :: 0 <= j < |marks| ==> marks[j] == HasDivisorIn(min + j, cache)
    ensures cache <= cache' && PrimesBelow(cache', min + |marks|)
  {
    var len := |marks|;
    var marks := marks;
    cache' := cache;
    var i := 0;
    while i < len
      invariant 0 <= i <= len == |marks|
      invariant cache <= cache' && PrimesBelow(cache', min + i)
      invariant forall j :: i <= j < len ==> marks[j] == HasDivisorIn(min + j, cache')
    {
      var x := i + min;
      if !marks[i] { // found a prime
        UnmarkedIsPrime(cache', x);
        var before := cache';
        cache' := cache' + [x];
        marks := RemoveMultiples(marks, min, x);
        forall j | i < j < len
          ensures marks[j] == HasDivisorIn(min + j, cache')
        {
          HasDivisorInAppend(min + j, before, x);
        }
      } else {
        MarkedIsComposite(cache', x);
      }
      i := i + 1;
    }
  }

  /** `sieveUpTo(max)`: afterwards the cache holds every prime up to `max`.
      The old entries stay in place and only the primes in
      (largest cached prime, max] are appended, in ascending order; when
      `max` is below the largest cached prime + 2 nothing changes. */
  method SieveUpTo(cache: seq<nat>, max: int) returns (cache': seq<nat>)
    requires Valid(cache)
    ensures Valid(cache')
    ensures cache <= cache'
    ensures max < Last(cache) + 2 ==> cache' == cache
    ensures forall n :: n in cache' <==> n in cache || (Last(cache) < n <= max && IsPrime(n))
    ensures forall n :: 2 <= n <= max && IsPrime(n) ==> n in cache'
  {
    var maxPrime := Last(cache);
    ValidLast(cache);
    SuccessorOfOddPrimeIsComposite(maxPrime);
    if max < maxPrime + 2 {
      forall n | 2 <= n <= max && IsPrime(n)
        ensures n in cache
      {
        ValidMembership(cache, n);
      }
      return cache;
    }
    var min := maxPrime + 2;
    var marks := MarkWithCache(cache, min, max - min + 1);
    // every number below the segment is prime exactly when it is cached,
    // since maxPrime + 1 is even
    forall n | 2 <= n < min
      ensures IsPrime(n) <==> n in cache
    {
      ValidMembership(cache, n);
    }
    assert forall t :: 0 <= t < |cache| ==> cache[t] <= maxPrime;
    cache' := ScanSegment(cache, min, marks);
    assert cache'[..|Seed|] == cache[..|Seed|];
    forall n | n in cache'
      ensures n in cache || (maxPrime < n <= max && IsPrime(n))
    {
      if n <= maxPrime {
        ValidMembership(cache, n);
      }
    }
  }
}
