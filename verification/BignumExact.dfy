/** When mul_bignum, which never extends a sign, is the product of the signed numbers. */
module BignumExact {
  import opened Integers
  import opened BignumValues
  import opened BignumRows

  lemma {:induction false} PowerSum(m: nat, n: nat)
    ensures Power(m + n) == Power(m) * Power(n)
  {
    if m > 0 {
      PowerSum(m - 1, n);
      Associate(BASE, Power(m - 1), Power(n));
    }
  }

  lemma Associate(x: int, y: int, z: int)
    ensures (x * y) * z == x * (y * z)
  {
  }

  lemma SignedRange(ws: seq<int>)
    requires IsWords(ws) && ws != []
    ensures -Power(|ws|) <= 2 * Signed(ws) < Power(|ws|)
  {
    SignedUnsigned(ws);
    UnsignedRange(ws);
  }

  /** The product of a and b as unsigned residues of p and q, read back as a signed residue of p*q. */
  function Wrapped(a: int, b: int, p: int, q: int): int {
    var u := (if a < 0 then a + p else a) * (if b < 0 then b + q else b);
    if 2 * u >= p * q then u - p * q else u
  }

  lemma NoZeroDivisor(x: int, y: int)
    ensures x * y == 0 <==> x == 0 || y == 0
  {
  }

  lemma BothNonnegative(a: int, b: int, p: int, q: int)
    requires 0 <= 2 * a < p && 0 <= 2 * b < q
    ensures Wrapped(a, b, p, q) == a * b
  {
    assert a * b <= a * q by { MulMonotone(a, b, q); }
    assert 2 * a * q <= p * q by { MulMonotone(q, 2 * a, p); }
    if 2 * (a * b) >= p * q {
      assert 2 * (a * b) <= 2 * (a * q);
      assert a * (2 * b) <= a * (q - 1) by { MulMonotone(a, 2 * b, q - 1); }
      assert p * q > a * q by { assert (p - a) * q > 0 by { MulPositive(p - a, q); } }
    }
  }

  lemma MulPositive(x: int, y: int)
    requires x > 0 && y > 0
    ensures x * y > 0
  {
  }

  lemma OneNegative(a: int, b: int, p: int, q: int)
    requires -p <= 2 * a < 0 <= 2 * b < q
    ensures Wrapped(a, b, p, q) == a * b <==> b == 0
    ensures Wrapped(b, a, q, p) == a * b <==> b == 0
  {
    assert (a + p) * b == a * b + p * b;
    assert p * (b - q) == p * b - p * q;
    assert b * (a + p) == (a + p) * b && q * p == p * q && b * a == a * b;
    NoZeroDivisor(p, b);
    NoZeroDivisor(p, b - q);
    if b == 0 {
      MulPositive(p, q);
    }
  }

  lemma BothNegative(a: int, b: int, p: int, q: int)
    requires -p <= 2 * a < 0 && -q <= 2 * b < 0
    ensures Wrapped(a, b, p, q) == a * b <==> 2 * a == -p && 2 * b == -q
  {
    var u := (a + p) * (b + q);
    assert u == a * b + a * q + p * b + p * q;
    assert (2 * a + p) * q == 2 * (a * q) + p * q;
    assert (2 * b + q) * p == 2 * (p * b) + p * q;
    assert (-a) * q == -(a * q);
    assert p * (-b) == -(p * b);
    MulPositive(-a, q);
    MulPositive(p, -b);
    MulPositive(p, q);
    MulMonotone(q, 0, 2 * a + p);
    MulMonotone(p, 0, 2 * b + q);
    NoZeroDivisor(2 * a + p, q);
    NoZeroDivisor(2 * b + q, p);
    if 2 * a == -p && 2 * b == -q {
      assert p == -2 * a && q == -2 * b;
      assert u == a * b;
      assert p * q == 4 * (a * b);
    }
  }

  /**
   mul_bignum is exact just when both numbers are nonnegative, one is zero, or
   both are the least number of their length.
   */
  lemma ProductExact(a: seq<int>, b: seq<int>)
    requires IsWords(a) && IsWords(b) && a != [] && b != []
    ensures SignedProduct(a, b) == Signed(a) * Signed(b) <==>
      || (Signed(a) >= 0 && Signed(b) >= 0)
      || Signed(a) == 0 || Signed(b) == 0
      || (2 * Signed(a) == -Power(|a|) && 2 * Signed(b) == -Power(|b|))
  {
    var x, y, p, q := Signed(a), Signed(b), Power(|a|), Power(|b|);
    SignedUnsigned(a);
    SignedUnsigned(b);
    SignedRange(a);
    SignedRange(b);
    PowerSum(|a|, |b|);
    assert SignedProduct(a, b) == Wrapped(x, y, p, q);
    ExactCases(x, y, p, q);
  }

  /** v is the least number of some length. */
  ghost predicate Least(v: int) {
    exists k: nat :: IsLeast(v, k)
  }

  ghost predicate IsLeast(v: int, k: nat) {
    k >= 1 && 2 * v == -Power(k)
  }

  /** The least number of k words. */
  ghost function LeastWords(k: nat): (ws: seq<int>)
    requires k >= 1
    ensures |ws| == k && IsWords(ws) && ws[k - 1] == 0x8000
  {
    if k == 1 then [0x8000] else [0] + LeastWords(k - 1)
  }

  lemma {:induction false} LeastWordsValue(k: nat)
    requires k >= 1
    ensures 2 * Signed(LeastWords(k)) == -Power(k)
  {
    assert Power(1) == BASE * Power(0);
    if k > 1 {
      LeastWordsValue(k - 1);
      assert LeastWords(k)[1..] == LeastWords(k - 1);
    }
  }

  /** A canonical number that is the least of some length is the least of its own. */
  lemma LeastOfItsLength(ws: seq<int>)
    requires IsWords(ws) && Canonical(ws)
    ensures Least(Signed(ws)) <==> 2 * Signed(ws) == -Power(|ws|)
  {
    hide Signed, Power;
    if 2 * Signed(ws) == -Power(|ws|) {
      assert IsLeast(Signed(ws), |ws|);
    }
    if Least(Signed(ws)) {
      var k: nat :| IsLeast(Signed(ws), k);
      LeastWordsValue(k);
      CanonicalUnique(ws, LeastWords(k));
    }
  }

  /** When the program prints the true product. */
  ghost predicate Exact(x: int, y: int) {
    (x >= 0 && y >= 0) || x == 0 || y == 0 || (Least(x) && Least(y))
  }

  lemma CanonicalExact(a: seq<int>, b: seq<int>)
    requires IsWords(a) && IsWords(b) && Canonical(a) && Canonical(b)
    ensures SignedProduct(a, b) == Signed(a) * Signed(b) <==> Exact(Signed(a), Signed(b))
  {
    hide Signed, SignedProduct, Power;
    ProductExact(a, b);
    LeastOfItsLength(a);
    LeastOfItsLength(b);
  }

  lemma ExactCases(x: int, y: int, p: int, q: int)
    requires -p <= 2 * x < p && -q <= 2 * y < q
    ensures Wrapped(x, y, p, q) == x * y <==>
      (x >= 0 && y >= 0) || x == 0 || y == 0 || (2 * x == -p && 2 * y == -q)
  {
    if x >= 0 && y >= 0 {
      BothNonnegative(x, y, p, q);
    } else if x >= 0 {
      OneNegative(y, x, q, p);
    } else if y >= 0 {
      OneNegative(x, y, p, q);
    } else {
      BothNegative(x, y, p, q);
    }
  }

  /** -1 times 1 comes out as 65535. */
  lemma MinusOneTimesOne()
    ensures Signed([0xffff]) == -1 && Signed([1]) == 1
    ensures SignedProduct([0xffff], [1]) == 0xffff
  {
    assert Unsigned([0xffff]) == 0xffff + BASE * Unsigned([0xffff][1..]);
    assert Unsigned([1]) == 1 + BASE * Unsigned([1][1..]);
    assert Power(2) == BASE * Power(1) && Power(1) == BASE * Power(0);
  }
}
