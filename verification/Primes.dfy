/** Primes, and Euclid's theorem, which is what makes the search for the next one end. */
module Primes {

  ghost predicate Multiple(n: int, d: int, k: int) {
    n == d * k
  }

  ghost predicate Divides(d: int, n: int) {
    exists k :: Multiple(n, d, k)
  }

  ghost predicate IsPrime(n: int) {
    n >= 2 && forall d :: 2 <= d < n ==> !Divides(d, n)
  }

  lemma SmallMultiple(d: int, k: int)
    requires d > 0 && -d < d * k < d
    ensures k == 0
  {
  }

  /** The remainder test of the program. */
  lemma RemainderZero(n: int, d: int)
    requires d > 0
    ensures n % d == 0 <==> Divides(d, n)
  {
    if n % d == 0 {
      assert Multiple(n, d, n / d);
    }
    if Divides(d, n) {
      var k :| Multiple(n, d, k);
      assert d * (k - n / d) == n % d;
      SmallMultiple(d, k - n / d);
    }
  }

  lemma DividesProduct(d: int, m: int, n: int)
    requires Divides(d, m)
    ensures Divides(d, m * n)
  {
    var k :| Multiple(m, d, k);
    assert m * n == d * (k * n);
    assert Multiple(m * n, d, k * n);
  }

  lemma DividesDifference(d: int, m: int, n: int)
    requires Divides(d, m) && Divides(d, n)
    ensures Divides(d, m - n)
  {
    var j :| Multiple(m, d, j);
    var k :| Multiple(n, d, k);
    assert Multiple(m - n, d, j - k);
  }

  lemma DividesTransitive(c: int, d: int, n: int)
    requires Divides(c, d) && Divides(d, n)
    ensures Divides(c, n)
  {
    var k :| Multiple(n, d, k);
    DividesProduct(c, d, k);
  }

  lemma DividesItself(n: int)
    ensures Divides(n, n) && Divides(n, 0)
  {
    assert Multiple(n, n, 1) && Multiple(0, n, 0);
  }

  // ---------- least divisors ----------

  /** The least divisor from d up. */
  ghost function LeastDivisor(n: int, d: int): (p: int)
    requires 2 <= d <= n
    ensures d <= p <= n && Divides(p, n)
    ensures forall c :: d <= c < p ==> !Divides(c, n)
    decreases n - d
  {
    DividesItself(n);
    if Divides(d, n) then d else LeastDivisor(n, d + 1)
  }

  lemma LeastDivisorIsPrime(n: int)
    requires n >= 2
    ensures IsPrime(LeastDivisor(n, 2))
  {
    var p := LeastDivisor(n, 2);
    forall d | 2 <= d < p ensures !Divides(d, p) {
      if Divides(d, p) {
        DividesTransitive(d, p, n);
      }
    }
  }

  /** A composite number has a divisor no greater than its square root: trial division may stop there. */
  lemma TrialDivision(n: int, r: int)
    requires n >= 2 && r >= 2 && r * r > n
    requires forall d :: 2 <= d < r ==> !Divides(d, n)
    ensures IsPrime(n)
  {
    forall d | 2 <= d < n ensures !Divides(d, n) {
      if Divides(d, n) {
        var k :| Multiple(n, d, k);
        Cofactor(n, d, k, r);
        assert Divides(k, n) by {
          assert n == k * d;
          assert Multiple(n, k, d);
        }
      }
    }
  }

  lemma Cofactor(n: int, d: int, k: int, r: int)
    requires n == d * k && 2 <= d < n && r >= 2 && r * r > n
    ensures k >= 2 && (d < r || k < r)
  {
  }

  // ---------- Euclid ----------

  ghost function Factorial(n: nat): int {
    if n == 0 then 1 else n * Factorial(n - 1)
  }

  lemma {:induction false} FactorialDivisible(n: nat, d: nat)
    requires 1 <= d <= n
    ensures Divides(d, Factorial(n))
  {
    if d == n {
      DividesItself(n);
      DividesProduct(n, n, Factorial(n - 1));
    } else {
      FactorialDivisible(n - 1, d);
      DividesProduct(d, Factorial(n - 1), n);
      assert Factorial(n - 1) * n == Factorial(n);
    }
  }

  lemma {:induction false} FactorialPositive(n: nat)
    ensures Factorial(n) >= 1
  {
    if n > 0 {
      FactorialPositive(n - 1);
      assert n * Factorial(n - 1) >= 1 * Factorial(n - 1);
    }
  }

  lemma OneHasNoDivisor(p: int)
    requires p >= 2
    ensures !Divides(p, 1)
  {
    forall k ensures !Multiple(1, p, k) {
      if p * k == 1 {
        SmallMultiple(p, k);
      }
    }
  }

  /** There is a prime above every n. */
  lemma Euclid(n: nat) returns (p: int)
    ensures p > n && IsPrime(p)
  {
    var f := Factorial(n);
    FactorialPositive(n);
    p := LeastDivisor(f + 1, 2);
    LeastDivisorIsPrime(f + 1);
    if p <= n {
      FactorialDivisible(n, p);
      OneHasNoDivisor(p);
      DividesDifference(p, f + 1, f);
    }
  }

  ghost predicate NextPrime(p: int, q: int) {
    q > p && IsPrime(q) && forall k :: p < k < q ==> !IsPrime(k)
  }

  /** The first prime from k up, below a known one. */
  ghost function PrimeFrom(k: int, bound: int): (q: int)
    requires k <= bound && IsPrime(bound)
    ensures k <= q <= bound && IsPrime(q) && forall j :: k <= j < q ==> !IsPrime(j)
    decreases bound - k
  {
    if IsPrime(k) then k else PrimeFrom(k + 1, bound)
  }

  lemma NextPrimeExists(p: nat) returns (q: int)
    ensures NextPrime(p, q)
  {
    var bound := Euclid(p);
    q := PrimeFrom(p + 1, bound);
  }

  lemma NextPrimeUnique(p: int, q: int, q': int)
    requires NextPrime(p, q) && NextPrime(p, q')
    ensures q == q'
  {
  }
}
