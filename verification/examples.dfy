/** Worked instances of the engine's operations on the numbers its own
    documentation uses. */
module Examples {
  import opened Wrappers
  import opened NumberTheory
  import opened PrimeCache
  import opened Sieve
  import opened Factorisation
  import opened Factorise

  /** The twenty-five primes below 100. */
  const PrimesTo100: seq<nat> :=
    [2, 3, 5, 7, 11, 13, 17, 19, 23, 29, 31, 37, 41, 43, 47,
     53, 59, 61, 67, 71, 73, 79, 83, 89, 97]

  /** A number below 100 that none of 2 to 9 divides is prime: a composite
      would have a prime divisor whose square is at most itself. */
  lemma PrimeByTrial(p: nat)
    requires 2 <= p < 100
    requires !Divides(2, p) && !Divides(3, p) && !Divides(4, p) && !Divides(5, p)
    requires !Divides(6, p) && !Divides(7, p) && !Divides(8, p) && !Divides(9, p)
    ensures IsPrime(p)
  {
    if !IsPrime(p) {
      CompositeHasSmallPrimeDivisor(p);
      var q := LeastDivisor(p);
      if 10 <= q {
        MulMonotone(10, q, q);
      }
      assert false;
    }
  }

  lemma PrimesFrom13To47()
    ensures IsPrime(13) && IsPrime(17) && IsPrime(19) && IsPrime(23) && IsPrime(29)
    ensures IsPrime(31) && IsPrime(37) && IsPrime(41) && IsPrime(43) && IsPrime(47)
  {
    PrimeByTrial(13);
    PrimeByTrial(17);
    PrimeByTrial(19);
    PrimeByTrial(23);
    PrimeByTrial(29);
    PrimeByTrial(31);
    PrimeByTrial(37);
    PrimeByTrial(41);
    PrimeByTrial(43);
    PrimeByTrial(47);
  }

  lemma PrimesFrom53To97()
    ensures IsPrime(53) && IsPrime(59) && IsPrime(61) && IsPrime(67) && IsPrime(71)
    ensures IsPrime(73) && IsPrime(79) && IsPrime(83) && IsPrime(89) && IsPrime(97)
  {
    PrimeByTrial(53);
    PrimeByTrial(59);
    PrimeByTrial(61);
    PrimeByTrial(67);
    PrimeByTrial(71);
    PrimeByTrial(73);
    PrimeByTrial(79);
    PrimeByTrial(83);
    PrimeByTrial(89);
    PrimeByTrial(97);
  }

  /** Every number from 12 to 100 missing from the list has a divisor among
      2, 3, 5 and 7. */
  lemma CompositesTo100(n: int)
    requires 12 <= n <= 100 && n !in PrimesTo100
    ensures !IsPrime(n)
  {
    if n % 2 == 0 {
      assert Divides(2, n);
    } else if n % 3 == 0 {
      assert Divides(3, n);
    } else if n % 5 == 0 {
      assert Divides(5, n);
    } else {
      assert Divides(7, n);
    }
  }

  lemma PrimesTo100Exact(n: int)
    ensures n in PrimesTo100 <==> 2 <= n <= 100 && IsPrime(n)
  {
    SeedPrimes();
    PrimesFrom13To47();
    PrimesFrom53To97();
    if 12 <= n <= 100 && n !in PrimesTo100 {
      CompositesTo100(n);
    }
  }

  /** `sieveUpTo(100)` on a freshly cleared cache leaves exactly the primes
      below 100 in it, in ascending order. */
  method SieveTo100() returns (c: seq<nat>)
    ensures c == PrimesTo100
  {
    var cleared := ClearCache([]);
    c := SieveUpTo(cleared, 100);
    forall n ensures n in c <==> n in PrimesTo100 {
      PrimesTo100Exact(n);
    }
    PrimesTo100Increasing();
    IncreasingUnique(c, PrimesTo100);
  }

  lemma PrimesTo100Increasing()
    ensures StrictlyIncreasing(PrimesTo100)
  {
    var s := PrimesTo100;
    forall i, j | 0 <= i < j < |s| ensures s[i] < s[j] {
      assert forall k :: 0 <= k < |s| - 1 ==> s[k] < s[k + 1];
      AscendingSteps(s, i, j);
    }
  }

  /** The factorisation of 2 * 2 * 3 * 7 * 7 * 7 * 11. */
  const Factors45276: seq<PrimePower> :=
    [PrimePower(2, 2), PrimePower(3, 1), PrimePower(7, 3), PrimePower(11, 1)]

  lemma Factors45276Correct()
    ensures IsFactorisation(Factors45276) && Product(Factors45276) == 45276
  {
    SeedPrimes();
    var f := Factors45276;
    assert Power(2, 2) == 4 && Power(3, 1) == 3 && Power(11, 1) == 11;
    assert Power(7, 3) == 343 by {
      assert Power(7, 1) == 7 && Power(7, 2) == 49;
    }
    assert Product(f[..0]) == 1;
    assert Product(f[..1]) == 4 by { assert f[..1][..0] == f[..0]; }
    assert Product(f[..2]) == 12 by { assert f[..2][..1] == f[..1]; }
    assert Product(f[..3]) == 4116 by { assert f[..3][..2] == f[..2]; }
    assert f[..4] == f;
  }

  /** `primeFactors(45276)` is `{2: 2, 3: 1, 7: 3, 11: 1}`. */
  method Factorise45276() returns (r: Result<seq<PrimePower>>)
    ensures r == Ok(Factors45276)
  {
    var cleared := ClearCache([]);
    var _, res := PrimeFactors(cleared, 45276);
    Factors45276Correct();
    FactorisationUnique(res.value, Factors45276);
    r := res;
  }

  /** Ascending neighbours make a strictly ascending list. */
  lemma {:induction false} AscendingSteps(s: seq<nat>, i: nat, j: nat)
    requires forall k :: 0 <= k < |s| - 1 ==> s[k] < s[k + 1]
    requires i < j < |s|
    ensures s[i] < s[j]
    decreases j - i
  {
    if i + 1 < j {
      AscendingSteps(s, i + 1, j);
    }
  }
}
