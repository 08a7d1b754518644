/** The engine's cache of primes: an ascending list that starts as the seed
    [2, 3, 5, 7, 11], is only ever extended by the sieve, and can be reset. */
module PrimeCache {
  import opened NumberTheory

  /** The contents of a freshly created or cleared cache. */
  const Seed: seq<nat> := [2, 3, 5, 7, 11]

  function Last(c: seq<nat>): nat
    requires |c| > 0
  {
    c[|c| - 1]
  }

  predicate StrictlyIncreasing(c: seq<nat>) {
    forall i, j :: 0 <= i < j < |c| ==> c[i] < c[j]
  }

  /** The cache invariant: the seed comes first, the entries ascend strictly,
      each is prime, and no prime up to the largest entry is missing. */
  ghost predicate Valid(c: seq<nat>) {
    && |c| >= |Seed| && c[..|Seed|] == Seed
    && StrictlyIncreasing(c)
    && (forall i :: 0 <= i < |c| ==> IsPrime(c[i]))
    && (forall n :: 2 <= n <= Last(c) && IsPrime(n) ==> n in c)
  }

  /** A valid cache holds exactly the primes up to its largest entry. */
  lemma ValidMembership(c: seq<nat>, n: int)
    requires Valid(c)
    ensures n in c <==> 2 <= n <= Last(c) && IsPrime(n)
  {
    if n in c {
      var i :| 0 <= i < |c| && c[i] == n;
      assert i == |c| - 1 || c[i] < Last(c);
    }
  }

  /** The largest entry of a valid cache is an odd prime, at least 11. */
  lemma ValidLast(c: seq<nat>)
    requires Valid(c)
    ensures Last(c) >= 11 && IsPrime(Last(c))
  {
    assert c[4] == 11;
  }

  lemma SeedPrimes()
    ensures forall n :: 2 <= n <= 11 ==> (IsPrime(n) <==> n in Seed)
  {
    forall d | 2 <= d < 11 ensures !Divides(d, 11) { }
    forall d | 2 <= d < 7 ensures !Divides(d, 7) { }
    assert Divides(2, 4) && Divides(2, 6) && Divides(2, 8) && Divides(3, 9) && Divides(2, 10);
  }

  /** `clearCache()`: whatever the cache grew to, it is reset to the seed, which
      is exactly the list of primes up to 11 and satisfies the invariant. */
  function ClearCache(c: seq<nat>): (r: seq<nat>)
    ensures Valid(r)
    ensures forall n :: n in r <==> 2 <= n <= 11 && IsPrime(n)
    ensures |r| == 5 && r[0] == 2 && Last(r) == 11
  {
    SeedValid();
    Seed
  }

  lemma SeedValid()
    ensures Valid(Seed)
    ensures forall n :: n in Seed <==> 2 <= n <= 11 && IsPrime(n)
  {
    SeedPrimes();
    assert IsPrime(2) && IsPrime(3) && IsPrime(5) && IsPrime(7) && IsPrime(11);
    assert StrictlyIncreasing(Seed);
    assert Last(Seed) == 11;
  }

  /** `primes()`: the cache itself, an ascending list holding exactly the
      primes up to its largest entry. */
  function Primes(c: seq<nat>): (r: seq<nat>)
    requires Valid(c)
    ensures StrictlyIncreasing(r) && |r| >= |Seed| && r[..|Seed|] == Seed
    ensures forall n :: n in r <==> 2 <= n <= Last(c) && IsPrime(n)
  {
    assert forall n :: n in c <==> 2 <= n <= Last(c) && IsPrime(n) by {
      forall n ensures n in c <==> 2 <= n <= Last(c) && IsPrime(n) {
        ValidMembership(c, n);
      }
    }
    c
  }

  /** Two strictly ascending lists with the same members are equal. */
  lemma {:induction false} IncreasingUnique(a: seq<nat>, b: seq<nat>)
    requires StrictlyIncreasing(a) && StrictlyIncreasing(b)
    requires forall n :: n in a <==> n in b
    ensures a == b
    decreases |a|
  {
    assert (|a| > 0 ==> a[0] in a) && (|b| > 0 ==> b[0] in b);
    if |a| == 0 || |b| == 0 {
      assert |a| == 0 && |b| == 0;
    } else {
      assert a[0] in b && b[0] in a;
      var i :| 0 <= i < |b| && b[i] == a[0];
      var j :| 0 <= j < |a| && a[j] == b[0];
      assert b[0] <= b[i] && a[0] <= a[j];
      forall n ensures n in a[1..] <==> n in b[1..] {
        assert n in a[1..] <==> n in a && n != a[0] by {
          if n in a[1..] {
            var k :| 0 <= k < |a[1..]| && a[1..][k] == n;
            assert a[k + 1] == n;
          }
          if n in a && n != a[0] {
            var k :| 0 <= k < |a| && a[k] == n;
            assert a[1..][k - 1] == n;
          }
        }
        assert n in b[1..] <==> n in b && n != b[0] by {
          if n in b[1..] {
            var k :| 0 <= k < |b[1..]| && b[1..][k] == n;
            assert b[k + 1] == n;
          }
          if n in b && n != b[0] {
            var k :| 0 <= k < |b| && b[k] == n;
            assert b[1..][k - 1] == n;
          }
        }
      }
      IncreasingUnique(a[1..], b[1..]);
      assert a == [a[0]] + a[1..] && b == [b[0]] + b[1..];
    }
  }

  /** A valid cache is determined by its largest entry. */
  lemma ValidDetermined(c: seq<nat>, d: seq<nat>)
    requires Valid(c) && Valid(d) && Last(c) == Last(d)
    ensures c == d
  {
    forall n ensures n in c <==> n in d {
      ValidMembership(c, n);
      ValidMembership(d, n);
    }
    IncreasingUnique(c, d);
  }
}
