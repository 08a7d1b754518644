/** Prime factorisations as the library returns them: an object whose keys are
    primes and whose values are their exponents, enumerated in ascending key order. */
module Factorisation {
  import opened NumberTheory

  /** One key/value pair of a factorisation object: `prime ^ exponent`. */
  datatype PrimePower = PrimePower(prime: nat, exponent: nat)

  /** The number a list of prime powers multiplies out to. */
  function Product(f: seq<PrimePower>): nat
  {
    if |f| == 0 then 1
    else Product(f[..|f| - 1]) * Power(f[|f| - 1].prime, f[|f| - 1].exponent)
  }

  predicate KeysIncreasing(f: seq<PrimePower>) {
    forall i, j :: 0 <= i < j < |f| ==> f[i].prime < f[j].prime
  }

  /** Distinct prime keys in ascending order, each with an exponent of at least 1. */
  ghost predicate IsFactorisation(f: seq<PrimePower>) {
    && KeysIncreasing(f)
    && forall i :: 0 <= i < |f| ==> IsPrime(f[i].prime) && f[i].exponent >= 1
  }

  lemma {:induction false} ProductPositive(f: seq<PrimePower>)
    requires IsFactorisation(f)
    ensures Product(f) >= 1
    decreases |f|
  {
    if |f| > 0 {
      ProductPositive(f[..|f| - 1]);
      MulAtLeast(Product(f[..|f| - 1]), Power(f[|f| - 1].prime, f[|f| - 1].exponent));
    }
  }

  lemma ProductAppend(f: seq<PrimePower>, x: PrimePower)
    ensures Product(f + [x]) == Product(f) * Power(x.prime, x.exponent)
  {
    assert (f + [x])[..|f|] == f;
  }

  /** Each key of a factorisation divides the number it multiplies out to. */
  lemma {:induction false} KeyDividesProduct(f: seq<PrimePower>, k: nat)
    requires IsFactorisation(f) && k < |f|
    ensures Divides(f[k].prime, Product(f))
    decreases |f|
  {
    var init, last := f[..|f| - 1], f[|f| - 1];
    var pw := Power(last.prime, last.exponent);
    if k == |f| - 1 {
      assert pw == last.prime * Power(last.prime, last.exponent - 1);
      DividesMultiple(last.prime, Power(last.prime, last.exponent - 1));
      assert Product(f) == pw * Product(init);
      DividesProductLeft(last.prime, pw, Product(init));
    } else {
      KeyDividesProduct(init, k);
      DividesProductLeft(f[k].prime, Product(init), pw);
    }
  }

  /** `a * p^i == b * p^j` with neither `a` nor `b` divisible by `p` forces `i == j` and `a == b`. */
  lemma {:induction false} PowerCancel(a: nat, b: nat, p: nat, i: nat, j: nat)
    requires p >= 2 && !Divides(p, a) && !Divides(p, b)
    ensures a * Power(p, i) == b * Power(p, j) ==> i == j && a == b
    decreases i + j
  {
    if a * Power(p, i) == b * Power(p, j) {
      if i > 0 && j > 0 {
        MulSwap(a, p, Power(p, i - 1));
        MulSwap(b, p, Power(p, j - 1));
        MulCancel(p, a * Power(p, i - 1), b * Power(p, j - 1));
        PowerCancel(a, b, p, i - 1, j - 1);
      } else if i > 0 {
        MulSwap(a, p, Power(p, i - 1));
        DividesMultiple(p, a * Power(p, i - 1));
        assert false;
      } else if j > 0 {
        MulSwap(b, p, Power(p, j - 1));
        DividesMultiple(p, b * Power(p, j - 1));
        assert false;
      }
    }
  }

  // ---------------------------------------------------------------------------
  // Primes that are not keys

  lemma {:induction false} PrimeDividesPower(q: nat, p: nat, e: nat)
    requires IsPrime(q) && IsPrime(p)
    ensures Divides(q, Power(p, e)) ==> q == p
    decreases e
  {
    DivModUnique(1, q, 0, 1);
    if e > 0 && Divides(q, Power(p, e)) {
      assert Power(p, e) == p * Power(p, e - 1);
      EuclidLemma(q, p, Power(p, e - 1));
      if Divides(q, p) {
        DividesBounded(q, p);
      } else {
        PrimeDividesPower(q, p, e - 1);
      }
    }
  }

  /** A prime that is not a key of a factorisation does not divide its product. */
  lemma {:induction false} NonKeyDoesNotDivide(f: seq<PrimePower>, q: nat)
    requires IsFactorisation(f) && IsPrime(q)
    requires forall k :: 0 <= k < |f| ==> f[k].prime != q
    ensures !Divides(q, Product(f))
    decreases |f|
  {
    if |f| == 0 {
      DivModUnique(1, q, 0, 1);
    } else {
      var init, last := f[..|f| - 1], f[|f| - 1];
      NonKeyDoesNotDivide(init, q);
      if Divides(q, Product(f)) {
        EuclidLemma(q, Product(init), Power(last.prime, last.exponent));
        PrimeDividesPower(q, last.prime, last.exponent);
        assert false;
      }
    }
  }

  // ---------------------------------------------------------------------------
  // Uniqueness

  /** A prime divides the product of a factorisation exactly when it is one
      of its keys. */
  lemma PrimeDividesIffKey(f: seq<PrimePower>, q: nat)
    requires IsFactorisation(f) && IsPrime(q)
    ensures Divides(q, Product(f)) <==> exists k :: 0 <= k < |f| && f[k].prime == q
  {
    if exists k :: 0 <= k < |f| && f[k].prime == q {
      var k :| 0 <= k < |f| && f[k].prime == q;
      KeyDividesProduct(f, k);
    } else {
      NonKeyDoesNotDivide(f, q);
    }
  }

  /** The largest key of a factorisation is the largest prime dividing its
      product, so two factorisations of one number end with the same key. */
  lemma SameLastKey(f: seq<PrimePower>, g: seq<PrimePower>)
    requires IsFactorisation(f) && IsFactorisation(g) && Product(f) == Product(g)
    requires |f| > 0 && |g| > 0
    ensures f[|f| - 1].prime <= g[|g| - 1].prime
  {
    var p := f[|f| - 1].prime;
    KeyDividesProduct(f, |f| - 1);
    PrimeDividesIffKey(g, p);
    var k :| 0 <= k < |g| && g[k].prime == p;
    assert k == |g| - 1 || g[k].prime < g[|g| - 1].prime;
  }

  /** The fundamental theorem of arithmetic, uniqueness half: a number has
      only one factorisation. */
  lemma {:induction false} FactorisationUnique(f: seq<PrimePower>, g: seq<PrimePower>)
    requires IsFactorisation(f) && IsFactorisation(g) && Product(f) == Product(g)
    ensures f == g
    decreases |f| + |g|
  {
    if |f| == 0 && |g| > 0 {
      KeyDividesProduct(g, |g| - 1);
      DividesBounded(g[|g| - 1].prime, 1);
      assert false;
    } else if |g| == 0 && |f| > 0 {
      KeyDividesProduct(f, |f| - 1);
      DividesBounded(f[|f| - 1].prime, 1);
      assert false;
    } else if |f| > 0 {
      SameLastKey(f, g);
      SameLastKey(g, f);
      var fi, gi := f[..|f| - 1], g[..|g| - 1];
      var p, ef, eg := f[|f| - 1].prime, f[|f| - 1].exponent, g[|g| - 1].exponent;
      assert IsFactorisation(fi) && IsFactorisation(gi);
      NonKeyDoesNotDivide(fi, p);
      NonKeyDoesNotDivide(gi, p);
      PowerCancel(Product(fi), Product(gi), p, ef, eg);
      FactorisationUnique(fi, gi);
      assert f == fi + [f[|f| - 1]] && g == gi + [g[|g| - 1]];
    }
  }
}
