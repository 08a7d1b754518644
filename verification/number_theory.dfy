/** Divisibility, primality and powers over the integers, with the handful of
    facts (Euclid's lemma among them) that the prime engine's proofs rest on. */
module NumberTheory {

  /** `d` is a positive divisor of `n`. */
  predicate Divides(d: nat, n: int) {
    d > 0 && n % d == 0
  }

  /** `n` is a prime: at least 2, with no divisor strictly between 1 and itself. */
  ghost predicate IsPrime(n: int) {
    n >= 2 && forall d :: 2 <= d < n ==> !Divides(d, n)
  }

  function Power(b: nat, e: nat): (r: nat)
    ensures b > 0 ==> r > 0
    decreases e
  {
    if e == 0 then 1 else b * Power(b, e - 1)
  }

  // ---------------------------------------------------------------------------
  // Euclidean division

  lemma {:induction false} MulAtLeast(p: int, k: int)
    requires p > 0 && k >= 1
    ensures p * k >= p
    decreases k
  {
    if k > 1 {
      MulAtLeast(p, k - 1);
      assert p * k == p * (k - 1) + p;
    }
  }

  lemma MulAtMost(p: int, k: int)
    requires p > 0 && k <= -1
    ensures p * k <= -p
  {
    MulAtLeast(p, -k);
    assert p * k == -(p * -k);
  }

  lemma MulRearrange(a: int, b: int, c: int, d: int)
    ensures (a * b) * (c * d) == (a * c) * (b * d)
  {
  }

  lemma MulSwap(a: int, p: int, q: int)
    ensures p * (a * q) == a * (p * q) && a * (p * q) == (a * q) * p
    ensures a * (p * q) == (p * a) * q
  {
  }

  lemma MulCancel(p: int, x: int, y: int)
    requires p != 0 && p * x == p * y
    ensures x == y
  {
    assert p * (x - y) == 0;
  }

  lemma MulPositive(a: int, b: int)
    requires a > 0 && b > 0
    ensures a * b > 0
  {
  }

  /** Quotient and remainder are the unique pair with `a == p * q + r`, `0 <= r < p`. */
  lemma DivModUnique(a: int, p: int, q: int, r: int)
    requires p > 0 && 0 <= r < p && a == p * q + r
    ensures a % p == r && a / p == q
  {
    var q', r' := a / p, a % p;
    assert p * (q - q') == r' - r;
    if q - q' >= 1 {
      MulAtLeast(p, q - q');
    } else if q - q' <= -1 {
      MulAtMost(p, q - q');
    }
  }

  lemma DividesMultiple(d: nat, k: int)
    requires d > 0
    ensures Divides(d, d * k) && (d * k) / d == k
  {
    DivModUnique(d * k, d, k, 0);
  }

  lemma DividesQuotient(d: nat, n: int)
    requires Divides(d, n)
    ensures n == d * (n / d)
  {
  }

  lemma DividesTransitive(a: nat, b: nat, c: int)
    requires Divides(a, b) && Divides(b, c)
    ensures Divides(a, c)
  {
    var j, k := b / a, c / b;
    assert b == a * j;
    assert c == b * k;
    assert c == a * (j * k);
    DividesMultiple(a, j * k);
  }

  /** A divisor of both `a` and `b` divides every integer combination of them. */
  lemma DividesCombination(d: nat, a: int, b: int, x: int, y: int)
    requires Divides(d, a) && Divides(d, b)
    ensures Divides(d, a * x + b * y)
  {
    var j, k := a / d, b / d;
    assert a == d * j && b == d * k;
    assert a * x + b * y == d * (j * x + k * y);
    DividesMultiple(d, j * x + k * y);
  }

  lemma DividesProductLeft(d: nat, a: int, b: int)
    requires Divides(d, a)
    ensures Divides(d, a * b)
  {
    DividesMultiple(d, 0);
    DividesCombination(d, a, 0, b, 0);
  }

  lemma DividesBounded(d: nat, n: int)
    requires Divides(d, n) && n > 0
    ensures d <= n
  {
    var k := n / d;
    assert n == d * k;
    if k <= 0 {
      if k <= -1 { MulAtMost(d, k); }
    } else {
      MulAtLeast(d, k);
    }
  }

  lemma MulMonotone(a: nat, b: nat, c: nat)
    requires a <= b
    ensures a * c <= b * c
  {
    if a < b && c > 0 {
      MulAtLeast(c, b - a);
      assert b * c - a * c == c * (b - a);
    }
  }

  /** The square is strictly monotone on the naturals. */
  lemma SquareMonotone(a: nat, b: nat)
    requires a < b
    ensures a * a < b * b
  {
    MulMonotone(a, b, a);
    MulMonotone(a, b, b);
    assert a * b < b * b by {
      MulAtLeast(b, b - a);
      assert b * b - a * b == b * (b - a);
    }
  }

  // ---------------------------------------------------------------------------
  // Least divisor and primes

  /** The least divisor of `n` that is at least `k`, given none below `k` but above 1. */
  function LeastDivisorFrom(n: nat, k: nat): (d: nat)
    requires 2 <= k <= n
    requires forall j :: 2 <= j < k ==> !Divides(j, n)
    ensures k <= d <= n && Divides(d, n)
    ensures forall j :: 2 <= j < d ==> !Divides(j, n)
    decreases n - k
  {
    if n % k == 0 then k
    else
      assert Divides(n, n) by { DividesMultiple(n, 1); }
      LeastDivisorFrom(n, k + 1)
  }

  /** The least divisor of `n` above 1. */
  function LeastDivisor(n: nat): (d: nat)
    requires n >= 2
    ensures 2 <= d <= n && Divides(d, n)
    ensures forall j :: 2 <= j < d ==> !Divides(j, n)
  {
    LeastDivisorFrom(n, 2)
  }

  /** The least divisor above 1 of any `n >= 2` is a prime. */
  lemma LeastDivisorIsPrime(n: nat)
    requires n >= 2
    ensures IsPrime(LeastDivisor(n))
  {
    var d := LeastDivisor(n);
    forall j | 2 <= j < d
      ensures !Divides(j, d)
    {
      if Divides(j, d) {
        DividesTransitive(j, d, n);
      }
    }
  }

  /** Every `n >= 2` that is not prime has a prime divisor strictly below it. */
  lemma CompositeHasPrimeDivisor(n: nat)
    requires n >= 2 && !IsPrime(n)
    ensures exists p :: 2 <= p < n && IsPrime(p) && Divides(p, n)
  {
    var p := LeastDivisor(n);
    LeastDivisorIsPrime(n);
  }

  /** A composite `n` has a prime divisor whose square is at most `n`. */
  lemma CompositeHasSmallPrimeDivisor(n: nat)
    requires n >= 2 && !IsPrime(n)
    ensures var p := LeastDivisor(n); IsPrime(p) && p * p <= n
  {
    var p := LeastDivisor(n);
    LeastDivisorIsPrime(n);
    var k := n / p;
    assert n == p * k;
    assert k >= 2;
    assert Divides(k, n) by {
      assert n == k * p;
      DividesMultiple(k, p);
    }
    assert p <= k;
    MulMonotone(p, k, p);
  }

  /** Prime numbers at least 3 are odd, so their successor is even. */
  lemma SuccessorOfOddPrimeIsComposite(p: int)
    requires IsPrime(p) && p >= 3
    ensures !IsPrime(p + 1)
  {
    assert !Divides(2, p);
    assert Divides(2, p + 1);
  }

  // ---------------------------------------------------------------------------
  // Greatest common divisor and Euclid's lemma

  function Gcd(a: nat, b: nat): nat
    decreases b
  {
    if b == 0 then a else Gcd(b, a % b)
  }

  lemma {:induction false} GcdDivides(a: nat, b: nat)
    requires a > 0 || b > 0
    ensures Divides(Gcd(a, b), a) && Divides(Gcd(a, b), b)
    decreases b
  {
    if b == 0 {
      DividesMultiple(a, 1);
      DividesMultiple(a, 0);
    } else {
      GcdDivides(b, a % b);
      var g := Gcd(a, b);
      assert a == b * (a / b) + a % b;
      DividesCombination(g, b, a % b, a / b, 1);
    }
  }

  /** Bezout coefficients: `a * x + b * y == Gcd(a, b)`. */
  function Bezout(a: nat, b: nat): (r: (int, int))
    ensures a * r.0 + b * r.1 == Gcd(a, b)
    decreases b
  {
    if b == 0 then (1, 0)
    else
      var (x, y) := Bezout(b, a % b);
      var q := a / b;
      assert a % b == a - b * q;
      assert b * x + (a - b * q) * y == a * y + b * (x - q * y);
      (y, x - q * y)
  }

  /** The greatest common divisor of a prime and a number it does not divide is 1. */
  lemma GcdWithPrime(p: nat, a: nat)
    requires IsPrime(p) && !Divides(p, a)
    ensures Gcd(p, a) == 1
  {
    var g := Gcd(p, a);
    GcdDivides(p, a);
    DividesBounded(g, p);
  }

  /** Euclid's lemma: a prime dividing a product divides one of the factors. */
  lemma EuclidLemma(p: nat, a: nat, b: nat)
    requires IsPrime(p) && Divides(p, a * b)
    ensures Divides(p, a) || Divides(p, b)
  {
    if !Divides(p, a) {
      GcdWithPrime(p, a);
      var (x, y) := Bezout(p, a);
      assert p * x + a * y == 1;
      assert b == p * (b * x) + (a * b) * y;
      DividesMultiple(p, 1);
      DividesCombination(p, p, a * b, b * x, y);
    }
  }

  /** A number not divisible by the prime `p` that divides `a * p` divides `a`. */
  lemma CancelPrime(y: nat, a: nat, p: nat)
    requires IsPrime(p) && !Divides(p, y) && Divides(y, a * p)
    ensures Divides(y, a)
  {
    GcdWithPrime(p, y);
    var (x, s) := Bezout(p, y);
    assert p * x + y * s == 1;
    assert a == (a * p) * x + y * (a * s);
    DividesMultiple(y, 1);
    DividesCombination(y, a * p, y, x, a * s);
  }

  // ---------------------------------------------------------------------------
  // Powers

  lemma {:induction false} PowerAdd(b: nat, i: nat, j: nat)
    ensures Power(b, i + j) == Power(b, i) * Power(b, j)
    decreases i
  {
    if i > 0 {
      PowerAdd(b, i - 1, j);
      assert Power(b, i + j) == b * Power(b, i - 1 + j);
    }
  }
}
