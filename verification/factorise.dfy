/** `primeFactors(n)`: trial division by the cached primes up to the ceiling
    of the square root of `n`, after sieving the cache up to that bound. */
module Factorise {
  import opened Wrappers
  import opened NumberTheory
  import opened PrimeCache
  import opened Sieve
  import opened Factorisation

  /** Search upwards from `r` for the least root whose square reaches `n`. */
  function CeilSqrtFrom(n: nat, r: nat): (s: nat)
    requires r == 0 || (r - 1) * (r - 1) < n
    ensures r <= s && n <= s * s && (s == 0 || (s - 1) * (s - 1) < n)
    decreases n - r
  {
    if n <= r * r then r
    else
      assert r < n by {
        if r >= n { MulMonotone(n, r, r); MulMonotone(1, r, n); }
      }
      CeilSqrtFrom(n, r + 1)
  }

  /** The exact integer counterpart of `Math.ceil(Math.sqrt(n))`: the least `r`
      with `n <= r * r`. */
  function CeilSqrt(n: nat): (r: nat)
    ensures n <= r * r
    ensures r == 0 || (r - 1) * (r - 1) < n
  {
    CeilSqrtFrom(n, 0)
  }

  /** A prime whose square exceeds `n`'s ceiling square root squared is too big. */
  lemma AboveRootSquared(q: nat, r: nat, n: nat)
    requires q * q <= n && n <= r * r
    ensures q <= r
  {
    if q > r {
      SquareMonotone(r, q);
    }
  }

  /** Dividing `m` by one of its divisors keeps every non-divisor of `m` a non-divisor. */
  lemma QuotientKeepsNonDivisor(d: nat, m: nat, p: nat)
    requires Divides(p, m) && d > 0 && !Divides(d, m)
    ensures !Divides(d, m / p)
  {
    var q := m / p;
    assert m == q * p;
    if Divides(d, q) {
      DividesProductLeft(d, q, p);
    }
  }

  lemma MoveFactor(a: int, b: int, m: int, m': int, n: int)
    requires a * m == n && m == b * m'
    ensures (a * b) * m' == n
  {
    MulSwap(a, b, m');
  }

  /** One division of the trial-division inner loop keeps `m == p^e * m'`. */
  lemma DivideStep(m: nat, p: nat, e: nat, m': nat)
    requires p >= 2 && m' >= 1 && Divides(p, m') && m == Power(p, e) * m'
    ensures m' / p >= 1 && m' / p < m' && m == Power(p, e + 1) * (m' / p)
  {
    var q := m' / p;
    DividesQuotient(p, m');
    assert q >= 1;
    MulAtLeast(q, p - 1);
    assert m' == q * (p - 1) + q;
    MulSwap(Power(p, e), p, q);
  }

  /** Divides `m` by `p` for as long as `p` divides it, counting the divisions. */
  method DivideOut(m: nat, p: nat) returns (m': nat, e: nat)
    requires m >= 1 && p >= 2
    ensures m' >= 1 && m == Power(p, e) * m' && !Divides(p, m')
    ensures forall d :: d > 0 && !Divides(d, m) ==> !Divides(d, m')
  {
    m', e := m, 0;
    while m' % p == 0
      invariant m' >= 1 && m == Power(p, e) * m'
      invariant forall d :: d > 0 && !Divides(d, m) ==> !Divides(d, m')
      decreases m'
    {
      DivideStep(m, p, e, m');
      forall d | d > 0 && !Divides(d, m)
        ensures !Divides(d, m' / p)
      {
        QuotientKeepsNonDivisor(d, m', p);
      }
      m', e := m' / p, e + 1;
    }
  }

  /** The state of trial division after the primes `ps[..i]`: `factors` times the
      cofactor `m` is `n`, the recorded keys are among `ps[..i]`, so below `ps[i]`, and at most
      `max`, and none of `ps[..i]` divides `m` any more. */
  ghost predicate TrialState(ps: seq<nat>, n: nat, max: nat, factors: seq<PrimePower>, m: nat, i: nat) {
    && i <= |ps|
    && m >= 1 && Product(factors) * m == n
    && IsFactorisation(factors)
    && (forall k :: 0 <= k < |factors| ==>
          factors[k].prime in ps && factors[k].prime <= max && (i < |ps| ==> factors[k].prime < ps[i]))
    && (forall t :: 0 <= t < i ==> !Divides(ps[t], m) && ps[t] <= max)
  }

  /** Appending a prime above every key, with a positive exponent, keeps a factorisation. */
  lemma AppendFactor(factors: seq<PrimePower>, p: nat, e: nat)
    requires IsFactorisation(factors) && IsPrime(p) && e >= 1
    requires forall k :: 0 <= k < |factors| ==> factors[k].prime < p
    ensures IsFactorisation(factors + [PrimePower(p, e)])
  {
    var f := factors + [PrimePower(p, e)];
    forall i, j | 0 <= i < j < |f| ensures f[i].prime < f[j].prime {
      if j == |f| - 1 {
        assert f[i] == factors[i];
      } else {
        assert f[i] == factors[i] && f[j] == factors[j];
      }
    }
  }

  /** The key-bound and non-divisor parts of the trial-division state carry
      over from `ps[..i]` to `ps[..i + 1]` once `ps[i]` is divided out. */
  lemma TrialStateAdvance(ps: seq<nat>, n: nat, max: nat, factors: seq<PrimePower>, m: nat, i: nat,
                          factors': seq<PrimePower>, m': nat)
    requires StrictlyIncreasing(ps)
    requires TrialState(ps, n, max, factors, m, i) && i < |ps| && ps[i] <= max
    requires m' >= 1 && Product(factors') * m' == n && IsFactorisation(factors')
    requires factors' == factors || (|factors'| == |factors| + 1 && factors'[..|factors|] == factors && factors'[|factors|].prime == ps[i])
    requires !Divides(ps[i], m') && forall d :: d > 0 && !Divides(d, m) ==> !Divides(d, m')
    ensures TrialState(ps, n, max, factors', m', i + 1)
  {
    forall k | 0 <= k < |factors'|
      ensures factors'[k].prime in ps && factors'[k].prime <= max
      ensures i + 1 < |ps| ==> factors'[k].prime < ps[i + 1]
    {
      if k < |factors| {
        assert factors'[k] == factors[k];
      }
    }
    forall t | 0 <= t < i + 1
      ensures !Divides(ps[t], m') && ps[t] <= max
    {
      if t < i {
        assert !Divides(ps[t], m);
      }
    }
  }

  /** One pass of the outer loop: divide the prime `ps[i]` out of `m` and record it. */
  method TrialStep(ps: seq<nat>, n: nat, max: nat, factors: seq<PrimePower>, m: nat, i: nat)
    returns (factors': seq<PrimePower>, m': nat)
    requires StrictlyIncreasing(ps) && forall t :: 0 <= t < |ps| ==> IsPrime(ps[t])
    requires TrialState(ps, n, max, factors, m, i) && i < |ps| && ps[i] <= max
    ensures TrialState(ps, n, max, factors', m', i + 1)
  {
    var p := ps[i];
    var e;
    m', e := DivideOut(m, p);
    factors' := factors;
    if e > 0 {
      MoveFactor(Product(factors), Power(p, e), m, m', n);
      ProductAppend(factors, PrimePower(p, e));
      AppendFactor(factors, p, e);
      factors' := factors + [PrimePower(p, e)];
      assert factors'[..|factors|] == factors;
    }
    TrialStateAdvance(ps, n, max, factors, m, i, factors', m');
  }

  /** The trial-division loop of `primeFactors`: walks the ascending primes `ps`
      until one exceeds `max`, dividing each out of `n` as often as it goes and
      recording it with its exponent when it divided at least once. Stops at
      index `i`, leaving the cofactor `m`. */
  method TrialDivision(ps: seq<nat>, n: nat, max: nat) returns (factors: seq<PrimePower>, m: nat, i: nat)
    requires n >= 1 && StrictlyIncreasing(ps)
    requires forall t :: 0 <= t < |ps| ==> IsPrime(ps[t])
    ensures TrialState(ps, n, max, factors, m, i)
    ensures i == |ps| || ps[i] > max
  {
    factors, m, i := [], n, 0;
    while i < |ps|
      invariant TrialState(ps, n, max, factors, m, i)
    {
      if ps[i] > max {
        return;
      }
      factors, m := TrialStep(ps, n, max, factors, m, i);
      i := i + 1;
    }
  }

  /** What trial division leaves over, when more than 1, is a prime above `max`:
      every prime up to `max` has been divided out, and a composite would have a
      prime divisor whose square is at most `n <= max * max`. */
  lemma LeftoverIsPrime(ps: seq<nat>, i: nat, n: nat, m: nat, max: nat)
    requires StrictlyIncreasing(ps) && i <= |ps| && (i == |ps| || ps[i] > max)
    requires forall q :: 2 <= q <= max && IsPrime(q) ==> q in ps
    requires forall t :: 0 <= t < i ==> !Divides(ps[t], m)
    requires 1 < m <= n <= max * max
    ensures IsPrime(m) && m > max
  {
    forall q | 2 <= q <= max && IsPrime(q)
      ensures !Divides(q, m)
    {
      var t :| 0 <= t < |ps| && ps[t] == q;
      assert t < i;
    }
    if !IsPrime(m) {
      CompositeHasSmallPrimeDivisor(m);
      var q := LeastDivisor(m);
      AboveRootSquared(q, max, max * max);
    }
    if m <= max {
      DividesMultiple(m, 1);
    }
  }

  /** What `primeFactors(n)` promises of its result for `n >= 1`, given the
      trial-division bound `max` and the cache after sieving: distinct primes in
      ascending order with exponents at least 1 that multiply out to `n`, each
      dividing `n`; every key except possibly the last is at most `max` and cached,
      and a last key above `max` has exponent 1. */
  ghost predicate FactorsOf(f: seq<PrimePower>, n: nat, max: nat, cache: seq<nat>) {
    && IsFactorisation(f) && Product(f) == n
    && (forall k :: 0 <= k < |f| ==> Divides(f[k].prime, n))
    && (forall k :: 0 <= k < |f| ==>
          || (f[k].prime <= max && f[k].prime in cache)
          || (k == |f| - 1 && f[k].prime > max && f[k].exponent == 1))
  }

  /** The cofactor left by trial division is at most the number factorised. */
  lemma CofactorBound(factors: seq<PrimePower>, m: nat, n: nat)
    requires IsFactorisation(factors) && m >= 1 && Product(factors) * m == n
    ensures m <= n
  {
    ProductPositive(factors);
    MulAtLeast(m, Product(factors));
  }

  /** Every key of a factorisation of `n` divides `n`. */
  lemma KeysDivide(f: seq<PrimePower>, n: nat)
    requires IsFactorisation(f) && Product(f) == n
    ensures forall k :: 0 <= k < |f| ==> Divides(f[k].prime, n)
  {
    forall k | 0 <= k < |f|
      ensures Divides(f[k].prime, n)
    {
      KeyDividesProduct(f, k);
    }
  }

  /** A leftover cofactor above 1 is a prime above `max`. */
  lemma LeftoverPrime(cache: seq<nat>, n: nat, max: nat, factors: seq<PrimePower>, m: nat, i: nat)
    requires Valid(cache) && n >= 1 && n <= max * max
    requires forall q :: 2 <= q <= max && IsPrime(q) ==> q in cache
    requires TrialState(cache, n, max, factors, m, i) && (i == |cache| || cache[i] > max)
    requires m > 1
    ensures IsPrime(m) && m > max
  {
    CofactorBound(factors, m, n);
    LeftoverIsPrime(cache, i, n, m, max);
  }

  /** Recorded with exponent 1 after the trial-division keys, a prime cofactor
      above `max` completes the factorisation. */
  lemma LeftoverFactors(cache: seq<nat>, n: nat, max: nat, factors: seq<PrimePower>, m: nat)
    requires IsFactorisation(factors) && Product(factors) * m == n
    requires forall k :: 0 <= k < |factors| ==> factors[k].prime in cache && factors[k].prime <= max
    requires IsPrime(m) && m > max
    ensures FactorsOf(factors + [PrimePower(m, 1)], n, max, cache)
  {
    var f := factors + [PrimePower(m, 1)];
    AppendFactor(factors, m, 1);
    LeftoverProduct(factors, m, n);
    LeftoverKeys(cache, max, factors, m);
    KeysDivide(f, n);
  }

  lemma LeftoverProduct(factors: seq<PrimePower>, m: nat, n: nat)
    requires Product(factors) * m == n
    ensures Product(factors + [PrimePower(m, 1)]) == n
  {
    ProductAppend(factors, PrimePower(m, 1));
    assert Power(m, 1) == m;
  }

  lemma LeftoverKeys(cache: seq<nat>, max: nat, factors: seq<PrimePower>, m: nat)
    requires forall k :: 0 <= k < |factors| ==> factors[k].prime in cache && factors[k].prime <= max
    requires m > max
    ensures var f := factors + [PrimePower(m, 1)];
      forall k :: 0 <= k < |f| ==>
        || (f[k].prime <= max && f[k].prime in cache)
        || (k == |f| - 1 && f[k].prime > max && f[k].exponent == 1)
  {
    var f := factors + [PrimePower(m, 1)];
    forall k | 0 <= k < |f|
      ensures || (f[k].prime <= max && f[k].prime in cache)
              || (k == |f| - 1 && f[k].prime > max && f[k].exponent == 1)
    {
      if k < |factors| {
        assert f[k] == factors[k];
      }
    }
  }

  /** Records the leftover cofactor with exponent 1, when it exceeds 1. */
  method AddLeftover(cache: seq<nat>, n: nat, max: nat, factors: seq<PrimePower>, m: nat, i: nat)
    returns (f: seq<PrimePower>)
    requires Valid(cache) && n >= 1 && n <= max * max
    requires forall q :: 2 <= q <= max && IsPrime(q) ==> q in cache
    requires TrialState(cache, n, max, factors, m, i) && (i == |cache| || cache[i] > max)
    ensures FactorsOf(f, n, max, cache)
  {
    if m > 1 {
      LeftoverPrime(cache, n, max, factors, m, i);
      LeftoverFactors(cache, n, max, factors, m);
      f := factors + [PrimePower(m, 1)];
    } else {
      assert Product(factors) == n;
      KeysDivide(factors, n);
      f := factors;
    }
  }

  /** `primeFactors(n)`. For `n >= 1` the result is a factorisation of `n` as
      `FactorsOf` describes, with the ceiling square root of `n` as bound. The
      cache only grows by sieving up to that bound. `n == 0` gives the empty
      factorisation; a negative `n` fails (the sieve's array allocation throws)
      before the cache is touched. */
  method PrimeFactors(cache: seq<nat>, n: int) returns (cache': seq<nat>, r: Result<seq<PrimePower>>)
    requires Valid(cache)
    ensures Valid(cache')
    ensures n < 0 ==> cache' == cache && r == Err(RangeError)
    ensures n >= 0 ==> r.Ok? && cache <= cache'
    ensures n >= 0 ==> forall q :: q in cache' <==> q in cache || (Last(cache) < q <= CeilSqrt(n) && IsPrime(q))
    ensures n == 0 ==> r == Ok([])
    ensures n >= 1 ==> r.Ok? && FactorsOf(r.value, n, CeilSqrt(n), cache')
  {
    if n < 0 {
      return cache, Err(RangeError);
    }
    var max := CeilSqrt(n);
    cache' := SieveUpTo(cache, max);
    if n == 0 {
      // 2 > Math.ceil(Math.sqrt(0)): the loop stops at once and 0 > 1 fails
      return cache', Ok([]);
    }
    ValidMembership(cache', 0);
    var factors, m, i := TrialDivision(cache', n, max);
    var f := AddLeftover(cache', n, max, factors, m, i);
    r := Ok(f);
  }
}
