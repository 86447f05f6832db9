/**
 svd_pythag: the hypotenuse by a cubically convergent iteration. The stop test
 `t != 4.0` compares 4 + r with 4 in floating point; over the reals it is
 "r is still at least delta", for any positive delta.
 */
module Pythag {
  import opened Reals

  function Dmax(a: real, b: real): real {
    if a > b then a else b
  }

  function Dmin(a: real, b: real): real {
    if a < b then a else b
  }

  /** delta * 16^k. */
  ghost function Reach(delta: real, k: nat): real {
    if k == 0 then delta else 16.0 * Reach(delta, k - 1)
  }

  lemma {:induction false} ReachGrows(delta: real, k: nat, x: real)
    requires delta > 0.0 && x == k as real + 1.0
    ensures Reach(delta, k) >= delta * x
  {
    if k > 0 {
      ReachGrows(delta, k - 1, x - 1.0);
      Grow(delta, x);
    }
  }

  lemma Grow(delta: real, x: real)
    requires delta > 0.0 && x >= 2.0
    ensures 16.0 * (delta * (x - 1.0)) >= delta * x
  {
    Scale(delta, 1.0, x);
  }

  lemma FloorBound(x: real)
    requires x > 0.0
    ensures x.Floor >= 0 && (x.Floor + 1) as real > x
  {
  }

  lemma ReciprocalPositive(delta: real)
    requires delta > 0.0
    ensures 1.0 / delta > 0.0
  {
    var x := 1.0 / delta;
    if x < 0.0 {
      PositiveProduct(delta, -x, -1.0);
    }
  }

  lemma Inverse(delta: real, x: real, p: real)
    requires delta > 0.0 && x == 1.0 / delta && p == delta * x
    ensures p == 1.0
  {
  }

  lemma Exceeds(delta: real, x: real, y: real, p: real)
    requires delta > 0.0 && x == 1.0 / delta && x < y && p == delta * y
    ensures p > 1.0
  {
    Inverse(delta, x, delta * x);
    Scale(delta, x, y);
  }

  /** delta * 16^k passes 1 for some k. */
  lemma EnoughSteps(delta: real) returns (k: nat)
    requires delta > 0.0
    ensures Reach(delta, k) > 1.0
  {
    var x := 1.0 / delta;
    ReciprocalPositive(delta);
    FloorBound(x);
    k := x.Floor + 1;
    var y := k as real + 1.0;
    ReachGrows(delta, k, y);
    Exceeds(delta, x, y, delta * y);
  }

  lemma Scale(c: real, x: real, y: real)
    requires c > 0.0 && x < y
    ensures c * x < c * y
  {
    PositiveProduct(c, y - x, c * (y - x));
  }

  /** One pass of the loop. */
  ghost predicate Pass(p: real, r: real, p': real, r': real) {
    r >= 0.0
    && var s := r / (4.0 + r);
    var u := 1.0 + 2.0 * s;
    u > 0.0 && p' == p * u && r' == r * ((s / u) * (s / u))
  }

  /** A pass keeps p^2 (1 + r), does not lower p, and takes r to at most r^3 / 16. */
  lemma PassKeeps(p: real, r: real, p': real, r': real)
    requires Pass(p, r, p', r') && p > 0.0
    ensures p' * p' * (1.0 + r') == p * p * (1.0 + r)
    ensures p' >= p
    ensures 0.0 <= r' <= r * (r * r) / 16.0
  {
    var s := r / (4.0 + r);
    var u := 1.0 + 2.0 * s;
    assert s >= 0.0 && s * (4.0 + r) == r;
    Conserved(p, r, s, u, s / u);
    Shrinks(r, s, u, s / u);
    assert p * u >= p by {
      assert p * u == p + 2.0 * (p * s);
      if s > 0.0 {
        PositiveProduct(p, s, p * s);
      }
    }
  }

  lemma Conserved(p: real, r: real, s: real, u: real, q: real)
    requires s * (4.0 + r) == r && u == 1.0 + 2.0 * s && s == q * u
    ensures (p * u) * (p * u) * (1.0 + r * (q * q)) == p * p * (1.0 + r)
  {
    calc {
      u * u * (1.0 + r * (q * q));
      u * u + r * ((q * u) * (q * u));
      u * u + r * (s * s);
      1.0 + 4.0 * s + 4.0 * (s * s) + r * (s * s);
      1.0 + 4.0 * s + s * (s * (4.0 + r));
      1.0 + 4.0 * s + s * r;
      1.0 + s * (4.0 + r);
      1.0 + r;
    }
    var w := 1.0 + r * (q * q);
    assert (p * u) * (p * u) * w == p * p * (u * u * w);
  }

  lemma Shrinks(r: real, s: real, u: real, q: real)
    requires r >= 0.0 && s == r / (4.0 + r) && u == 1.0 + 2.0 * s && q == s / u
    ensures 0.0 <= r * (q * q) <= r * (r * r) / 16.0
  {
    assert 0.0 <= s <= r / 4.0 by {
      assert s * (4.0 + r) == r;
    }
    assert u >= 1.0;
    assert 0.0 <= q <= s by {
      assert q * u == s;
      if q > s {
        Scale(q, 1.0, u);
      }
    }
    SquareMonotone(q, r / 4.0);
    assert (r / 4.0) * (r / 4.0) == r * r / 16.0;
    MulMonotone(r, q * q, r * r / 16.0);
    SquareNonnegative(q, q * q);
    MulMonotone(r, 0.0, q * q);
  }

  lemma SquareMonotone(x: real, y: real)
    requires 0.0 <= x <= y
    ensures x * x <= y * y
  {
    assert y * y - x * x == (y - x) * (y + x);
    if x < y {
      PositiveProduct(y - x, y + x, (y - x) * (y + x));
    }
  }

  lemma MulMonotone(c: real, x: real, y: real)
    requires c >= 0.0 && x <= y
    ensures c * x <= c * y
  {
    if c > 0.0 && x < y {
      Scale(c, x, y);
    }
  }

  /** r'^3 / 16 is at most a sixteenth of r when r is at most 1. */
  lemma SixteenthOf(r: real, r': real)
    requires 0.0 <= r <= 1.0 && r' <= r * (r * r) / 16.0
    ensures r' <= r / 16.0
  {
    SquareMonotone(r, 1.0);
    MulMonotone(r, r * r, 1.0);
  }

  /** The result against the exact sum of squares x. */
  ghost predicate Within(p: real, x: real, delta: real) {
    p >= 0.0 && p * p <= x <= p * p * (1.0 + delta)
  }

  lemma StoppedWithin(p: real, r: real, x: real, delta: real)
    requires p >= 0.0 && 0.0 <= r < delta && p * p * (1.0 + r) == x
    ensures Within(p, x, delta)
  {
    var pp := p * p;
    SquareNonnegative(p, pp);
    MulMonotone(pp, 1.0, 1.0 + r);
    MulMonotone(pp, 1.0 + r, 1.0 + delta);
  }

  lemma StartRatio(p: real, q: real, temp: real)
    requires p > 0.0 && 0.0 <= q <= p && temp == q / p
    ensures 0.0 <= temp * temp <= 1.0
    ensures p * p * (1.0 + temp * temp) == p * p + q * q
  {
    assert temp * p == q;
    assert 0.0 <= temp <= 1.0 by {
      if temp > 1.0 {
        Scale(p, 1.0, temp);
      }
      if temp < 0.0 {
        Scale(p, temp, 0.0);
      }
    }
    SquareMonotone(temp, 1.0);
    SquareNonnegative(temp, temp * temp);
    assert p * p * (temp * temp) == (temp * p) * (temp * p);
  }

  lemma AbsSquares(a: real, b: real, p: real, q: real)
    requires p == Dmax(Abs(a), Abs(b)) && q == Dmin(Abs(a), Abs(b))
    ensures 0.0 <= q <= p && p * p + q * q == a * a + b * b
  {
  }

  /** svd_pythag: within delta of the hypotenuse, from below. */
  method SvdPythag(a: real, b: real, delta: real) returns (p: real)
    requires delta > 0.0
    ensures Within(p, a * a + b * b, delta)
  {
    hide Within, Reach, Dmax, Dmin;
    p := Dmax(Abs(a), Abs(b));
    ghost var x := a * a + b * b;
    ghost var q := Dmin(Abs(a), Abs(b));
    AbsSquares(a, b, p, q);
    if p != 0.0 {
      var temp := Dmin(Abs(a), Abs(b)) / p;
      StartRatio(p, q, temp);
      var r := temp * temp;
      var t := 4.0 + r;
      ghost var k := EnoughSteps(delta);
      while r >= delta
        invariant p > 0.0 && 0.0 <= r <= 1.0 && t == 4.0 + r
        invariant p * p * (1.0 + r) == x
        invariant r < Reach(delta, k)
        decreases k
      {
        ghost var p0, r0 := p, r;
        var s := r / t;
        var u := 1.0 + 2.0 * s;
        Positive(r, t, s, u);
        p := p * u;
        temp := s / u;
        r := r * (temp * temp);
        t := 4.0 + r;
        assert Pass(p0, r0, p, r);
        PassKeeps(p0, r0, p, r);
        SixteenthOf(r0, r);
        StepsLeft(delta, k, r0, r);
        k := k - 1;
      }
      StoppedWithin(p, r, x, delta);
    } else {
      StoppedWithin(0.0, 0.0, x, delta);
    }
  }

  lemma Positive(r: real, t: real, s: real, u: real)
    requires r >= 0.0 && t == 4.0 + r && s == r / t && u == 1.0 + 2.0 * s
    ensures s >= 0.0 && u > 0.0
  {
  }

  lemma StepsLeft(delta: real, k: nat, r: real, r': real)
    requires delta > 0.0 && delta <= r < Reach(delta, k) && r' <= r / 16.0
    ensures k > 0 && r' < Reach(delta, k - 1)
  {
  }
}
