/** `allFactors`: expands a factorisation into the list of all divisors by
    repeated prefix multiplication. */
module Divisors {
  import opened Wrappers
  import opened NumberTheory
  import opened PrimeCache
  import opened Factorisation
  import opened Factorise

  /** The brute-force divisor set: every `d` in [1, n] that divides `n`. */
  ghost function Divisors(n: nat): set<nat> {
    set d | 1 <= d <= n && Divides(d, n)
  }

  /** Π (exponent + 1): the number of divisors a factorisation has. */
  function DivisorCount(f: seq<PrimePower>): nat {
    if |f| == 0 then 1 else DivisorCount(f[..|f| - 1]) * (f[|f| - 1].exponent + 1)
  }

  /** Each entry of `ds` multiplied by `k`, in order. */
  function Scale(ds: seq<nat>, k: nat): (r: seq<nat>)
    ensures |r| == |ds| && forall j :: 0 <= j < |ds| ==> r[j] == ds[j] * k
  {
    seq(|ds|, j requires 0 <= j < |ds| => ds[j] * k)
  }

  /** What the inner loops append for one key: `ds` followed by `ds` scaled by
      `p`, `p^2`, ..., `p^e`. */
  function ExpandPower(ds: seq<nat>, p: nat, e: nat): (r: seq<nat>)
    ensures |r| == |ds| * (e + 1) && r[..|ds|] == ds
    decreases e
  {
    if e == 0 then ds else ExpandPower(ds, p, e - 1) + Scale(ds, Power(p, e))
  }

  /** The divisor list built from `ds` by expanding each key of `f` in turn. */
  function Expand(ds: seq<nat>, f: seq<PrimePower>): (r: seq<nat>)
    ensures |r| >= |ds| && r[..|ds|] == ds
  {
    if |f| == 0 then ds
    else ExpandPower(Expand(ds, f[..|f| - 1]), f[|f| - 1].prime, f[|f| - 1].exponent)
  }

  // ---------------------------------------------------------------------------
  // Membership in an expansion

  lemma {:induction false} ExpandPowerMember(ds: seq<nat>, p: nat, e: nat, x: nat) returns (a: nat, i: nat)
    requires x in ExpandPower(ds, p, e)
    ensures a in ds && i <= e && x == a * Power(p, i)
    decreases e
  {
    if e == 0 {
      a, i := x, 0;
    } else {
      var front := ExpandPower(ds, p, e - 1);
      if x in front {
        a, i := ExpandPowerMember(ds, p, e - 1, x);
      } else {
        var back := Scale(ds, Power(p, e));
        assert x in back;
        var j :| 0 <= j < |back| && back[j] == x;
        a, i := ds[j], e;
      }
    }
  }

  lemma {:induction false} ExpandPowerContains(ds: seq<nat>, p: nat, e: nat, a: nat, i: nat)
    requires a in ds && i <= e
    ensures a * Power(p, i) in ExpandPower(ds, p, e)
    decreases e
  {
    if i < e {
      ExpandPowerContains(ds, p, e - 1, a, i);
    } else if e == 0 {
      assert a * Power(p, i) == a;
    } else {
      var j :| 0 <= j < |ds| && ds[j] == a;
      var back := Scale(ds, Power(p, e));
      assert back[j] == a * Power(p, i);
      assert ExpandPower(ds, p, e) == ExpandPower(ds, p, e - 1) + back;
    }
  }

  // ---------------------------------------------------------------------------
  // Divisors of M * p^e

  /** A divisor of `M` times `p^i` with `i <= e` divides `M * p^e`. */
  lemma ScaledDivisor(a: nat, m: nat, p: nat, i: nat, e: nat)
    requires Divides(a, m) && p >= 1 && i <= e
    ensures Divides(a * Power(p, i), m * Power(p, e))
  {
    var s := m / a;
    var q, rest := Power(p, i), Power(p, e - i);
    assert m == a * s;
    PowerAdd(p, i, e - i);
    MulRearrange(a, s, q, rest);
    MulPositive(a, q);
    DividesMultiple(a * q, s * rest);
  }

  /** Cancelling a common positive factor keeps divisibility. */
  lemma CancelCommon(x: nat, n: nat, p: nat)
    requires p >= 1 && Divides(p * x, p * n)
    ensures Divides(x, n)
  {
    var k := (p * n) / (p * x);
    assert p * n == (p * x) * k;
    MulSwap(x, p, k);
    MulCancel(p, n, x * k);
    DividesMultiple(x, k);
  }

  /** Every divisor of `M * p^e` (with `p` prime) is a divisor of `M` times a power `p^i`, `i <= e`. */
  lemma {:induction false} SplitDivisor(x: nat, m: nat, p: nat, e: nat) returns (a: nat, i: nat)
    requires IsPrime(p) && Divides(x, m * Power(p, e))
    ensures Divides(a, m) && i <= e && x == a * Power(p, i)
    decreases e
  {
    if e == 0 {
      a, i := x, 0;
    } else {
      var below := Power(p, e - 1);
      var rest := m * below;
      MulSwap(m, p, below);
      assert m * Power(p, e) == rest * p;
      if Divides(p, x) {
        var x' := x / p;
        assert x == p * x';
        assert rest * p == p * rest;
        CancelCommon(x', rest, p);
        var i';
        a, i' := SplitDivisor(x', m, p, e - 1);
        MulSwap(a, p, Power(p, i'));
        i := i' + 1;
      } else {
        CancelPrime(x, rest, p);
        a, i := SplitDivisor(x, m, p, e - 1);
      }
    }
  }

  lemma DivisorsMember(d: nat, n: nat)
    requires n >= 1
    ensures d in Divisors(n) <==> Divides(d, n)
  {
    if Divides(d, n) {
      DividesBounded(d, n);
    }
  }

  /** When `ds` lists the divisors of `M`, expanding by `p^e` lists the divisors of `M * p^e`. */
  lemma ExpandPowerDivisors(ds: seq<nat>, m: nat, p: nat, e: nat)
    requires m >= 1 && IsPrime(p)
    requires forall d :: d in ds <==> d in Divisors(m)
    ensures forall x :: x in ExpandPower(ds, p, e) <==> x in Divisors(m * Power(p, e))
  {
    var n := m * Power(p, e);
    MulAtLeast(m, Power(p, e));
    forall x | x in ExpandPower(ds, p, e)
      ensures x in Divisors(n)
    {
      var a, i := ExpandPowerMember(ds, p, e, x);
      DivisorsMember(a, m);
      ScaledDivisor(a, m, p, i, e);
      DivisorsMember(x, n);
    }
    forall x | x in Divisors(n)
      ensures x in ExpandPower(ds, p, e)
    {
      DivisorsMember(x, n);
      var a, i := SplitDivisor(x, m, p, e);
      DivisorsMember(a, m);
      ExpandPowerContains(ds, p, e, a, i);
    }
  }

  // ---------------------------------------------------------------------------
  // Distinctness

  lemma {:induction false} ExpandPowerDistinct(ds: seq<nat>, p: nat, e: nat)
    requires p >= 2 && Distinct(ds) && forall d :: d in ds ==> !Divides(p, d)
    ensures Distinct(ExpandPower(ds, p, e))
    decreases e
  {
    if e > 0 {
      ExpandPowerDistinct(ds, p, e - 1);
      var front, back := ExpandPower(ds, p, e - 1), Scale(ds, Power(p, e));
      var all := front + back;
      forall s, t | 0 <= s < t < |all|
        ensures all[s] != all[t]
      {
        if t >= |front| {
          var jt := t - |front|;
          assert all[t] == ds[jt] * Power(p, e);
          if s >= |front| {
            var js := s - |front|;
            PowerCancel(ds[js], ds[jt], p, e, e);
          } else {
            var a, i := ExpandPowerMember(ds, p, e - 1, all[s]);
            PowerCancel(a, ds[jt], p, i, e);
          }
        }
      }
    }
  }

  // ---------------------------------------------------------------------------
  // The divisor list of a whole factorisation

  lemma {:induction false} ExpandShape(f: seq<PrimePower>)
    ensures |Expand([1], f)| == DivisorCount(f) && Expand([1], f)[0] == 1
    decreases |f|
  {
    if |f| > 0 {
      ExpandShape(f[..|f| - 1]);
    }
  }

  /** The expansion of a factorisation of `n` lists every divisor of `n` exactly once. */
  lemma {:induction false} ExpandDivisors(f: seq<PrimePower>)
    requires IsFactorisation(f)
    ensures Distinct(Expand([1], f))
    ensures forall x :: x in Expand([1], f) <==> x in Divisors(Product(f))
    decreases |f|
  {
    if |f| == 0 {
      DivisorsMember(1, 1);
      DividesMultiple(1, 1);
    } else {
      var init, last := f[..|f| - 1], f[|f| - 1];
      assert IsFactorisation(init);
      ExpandDivisors(init);
      var ds, m := Expand([1], init), Product(init);
      ProductPositive(init);
      ExpandPowerDivisors(ds, m, last.prime, last.exponent);
      NonKeyDoesNotDivide(init, last.prime);
      forall d | d in ds
        ensures !Divides(last.prime, d)
      {
        DivisorsMember(d, m);
        if Divides(last.prime, d) {
          DividesTransitive(last.prime, d, m);
          assert false;
        }
      }
      ExpandPowerDistinct(ds, last.prime, last.exponent);
    }
  }

  // ---------------------------------------------------------------------------
  // The loops of allFactors

  /** Appends `ds[j] * k` for `j` in `[0, |ds|)`: the innermost loop. */
  method AppendScaled(factors: seq<nat>, ds: seq<nat>, k: nat) returns (factors': seq<nat>)
    requires |ds| <= |factors| && factors[..|ds|] == ds
    ensures factors' == factors + Scale(ds, k)
  {
    factors' := factors;
    var j := 0;
    while j < |ds|
      invariant 0 <= j <= |ds|
      invariant factors' == factors + Scale(ds, k)[..j]
    {
      factors' := factors' + [factors'[j] * k];
      j := j + 1;
    }
  }

  /** One key of the factorisation: the current list followed by its copies
      scaled by `p`, `p^2`, ..., `p^e`. */
  method ExpandKey(factors: seq<nat>, p: nat, e: nat) returns (factors': seq<nat>)
    ensures factors' == ExpandPower(factors, p, e)
  {
    var numPrevious := |factors|;
    factors' := factors;
    var currPower := 1;
    var i := 0;
    while i < e
      invariant 0 <= i <= e
      invariant currPower == Power(p, i)
      invariant factors' == ExpandPower(factors, p, i)
    {
      currPower := currPower * p;
      factors' := AppendScaled(factors', factors, currPower);
      i := i + 1;
    }
  }

  /** The list of divisors built from a factorisation, key by key in order. */
  method AllFactors(f: seq<PrimePower>) returns (factors: seq<nat>)
    ensures factors == Expand([1], f)
    ensures |factors| == DivisorCount(f) && factors[0] == 1
    ensures IsFactorisation(f) ==> Distinct(factors)
    ensures IsFactorisation(f) ==> forall x :: x in factors <==> x in Divisors(Product(f))
  {
    factors := [1];
    var k := 0;
    while k < |f|
      invariant 0 <= k <= |f|
      invariant factors == Expand([1], f[..k])
    {
      assert f[..k + 1][..k] == f[..k];
      factors := ExpandKey(factors, f[k].prime, f[k].exponent);
      k := k + 1;
    }
    assert f[..|f|] == f;
    ExpandShape(f);
    if IsFactorisation(f) {
      ExpandDivisors(f);
    }
  }

  /** The kinds of argument `allFactors` distinguishes: an integral number, a
      number with a fractional part, a factorisation object, or anything else.
      `Factors` admits any list of prime powers, including unsorted or
      repeated keys that no object can hold; the divisor property of
      `AllFactorsOf` is promised only when the list is a factorisation. */
  datatype Argument = Integer(n: int) | Fraction | Factors(f: seq<PrimePower>) | Other

  /** `allFactors`: a number is factorised first (which may grow the cache),
      a factorisation object is expanded directly. */
  method AllFactorsOf(cache: seq<nat>, x: Argument) returns (cache': seq<nat>, r: Result<seq<nat>>)
    requires Valid(cache)
    ensures Valid(cache') && cache <= cache'
    ensures !x.Integer? ==> cache' == cache
    ensures x.Integer? && x.n >= 0 ==>
      forall q :: q in cache' <==> q in cache || (Last(cache) < q <= CeilSqrt(x.n) && IsPrime(q))
    ensures x.Fraction? || x.Other? ==> r == Err(InvalidParameter)
    ensures x.Integer? && x.n < 0 ==> cache' == cache && r == Err(RangeError)
    ensures x.Integer? && x.n == 0 ==> r == Ok([1])
    ensures x.Integer? && x.n >= 1 ==>
      && r.Ok? && Distinct(r.value) && |r.value| >= 1 && r.value[0] == 1 && x.n in r.value
      && forall d :: d in r.value <==> d in Divisors(x.n)
    ensures x.Factors? ==> r.Ok? && |r.value| == DivisorCount(x.f) >= 1 && r.value[0] == 1
    ensures x.Factors? && IsFactorisation(x.f) ==>
      r.Ok? && Distinct(r.value) && forall d :: d in r.value <==> d in Divisors(Product(x.f))
  {
    match x {
      case Integer(n) =>
        var pfs;
        cache', pfs := PrimeFactors(cache, n);
        if pfs.IsFailure() {
          return cache', Err(pfs.error);
        }
        var factors := AllFactors(pfs.value);
        if n >= 1 {
          DivisorsMember(n, n);
          DividesMultiple(n, 1);
        }
        r := Ok(factors);
      case Factors(f) =>
        var factors := AllFactors(f);
        return cache, Ok(factors);
      case _ =>
        return cache, Err(InvalidParameter);
    }
  }
}
