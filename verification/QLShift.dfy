/**
 What the shift is, and what a pass does in terms of it. With an exact
 hypotenuse the shift is an eigenvalue of the leading 2 by 2 block; a block of
 two is therefore finished in one sweep, and a block of three never is.
 */
module QLShift {
  import opened Reals
  import opened QLSweep
  import opened QLSimilarity

  /** The value the shift stands for: what is taken off the diagonal. */
  function ShiftValue(ar: Arith, d: seq<real>, e: seq<real>, l: nat, m: nat): real
    requires l < m < |d| == |e|
  {
    d[m] - Shift(ar, d, e, l, m)
  }

  lemma ShiftSquare(g: real, r: real, h: real)
    requires r >= 0.0 && r * r == g * g + 1.0 && h == g + FSign(r, g)
    ensures h * h == 2.0 * (g * h) + 1.0 && h * h >= 1.0
  {
    var f := FSign(r, g);
    assert f * f == r * r;
    assert h * h - 2.0 * (g * h) == (g + f) * (g + f) - 2.0 * (g * (g + f)) == f * f - g * g;
    assert g * f >= 0.0;
    SquareNonnegative(g, g * g);
    assert h * h == g * g + 2.0 * (g * f) + f * f;
  }

  /** The shifted diagonal entries y = a / h and z = a * h of the leading block [[x0, a], [a, x1]]. */
  lemma ShiftScalars(a: real, x0: real, x1: real, g: real, h: real, hh: real, y: real, z: real)
    requires a != 0.0 && 2.0 * (a * g) == x1 - x0 && h != 0.0 && hh == h * h
    requires hh == 2.0 * (g * h) + 1.0 && hh >= 1.0
    requires y * h == a && z == x1 - x0 + y
    ensures y * z == a * a && z == y * hh
  {
    assert (2.0 * (a * g) + y) * h == 2.0 * (a * (g * h)) + a == a * hh;
    assert (z - a * h) * h == 0.0;
    ZeroProduct(z - a * h, h);
    assert y * z == y * h * a;
  }

  /** x is an eigenvalue of [[x0, a], [a, x1]], the one nearer to x0, when the divisor of the shift is h. */
  lemma ShiftedPair(a: real, x0: real, x1: real, g: real, r: real, h: real, x: real)
    requires a != 0.0 && 2.0 * (a * g) == x1 - x0 && (x0 - x) * h == a
    requires r >= 0.0 && r * r == g * g + 1.0 && h == g + FSign(r, g)
    ensures Times(x0 - x, x1 - x) == Times(a, a) && Abs(x0 - x) <= Abs(x1 - x)
    ensures x0 == x1 ==> x == x0 - a
  {
    ShiftSquare(g, r, h);
    hide FSign;
    if x0 == x1 {
      ZeroProduct(g, a);
      EvenShift(g, r, h);
    }
    ShiftScalars(a, x0, x1, g, h, h * h, x0 - x, x1 - x);
    Farther(x0 - x, x1 - x, h * h);
  }

  lemma ShiftQuotients(ar: Arith, d: seq<real>, e: seq<real>, l: nat, m: nat, g: real, h: real)
    requires l < m < |d| == |e| && e[l] != 0.0 && h != 0.0
    requires g == Quotient(ar, d[l + 1] - d[l], 2.0 * e[l]) && h == ShiftDivisor(ar, g)
    ensures 2.0 * (e[l] * g) == d[l + 1] - d[l]
    ensures (d[l] - ShiftValue(ar, d, e, l, m)) * h == e[l]
  {
    assert g * (2.0 * e[l]) == d[l + 1] - d[l];
    assert d[l] - ShiftValue(ar, d, e, l, m) == e[l] / h;
  }

  /** The shift is an eigenvalue of the leading 2 by 2 block, the one nearer to d[l]. */
  lemma ShiftIsEigenvalue(ar: Arith, d: seq<real>, e: seq<real>, l: nat, m: nat)
    requires Exact(ar) && l < m < |d| == |e| && e[l] != 0.0
    ensures var x := ShiftValue(ar, d, e, l, m);
            && Times(d[l] - x, d[l + 1] - x) == Times(e[l], e[l])
            && Abs(d[l] - x) <= Abs(d[l + 1] - x)
            && (d[l] == d[l + 1] ==> x == d[l] - e[l])
  {
    var g := Quotient(ar, d[l + 1] - d[l], 2.0 * e[l]);
    var r := ar.hyp(g, 1.0);
    assert IsHypotenuse(r, g, 1.0);
    var h := ShiftDivisor(ar, g);
    hide Quotient, ShiftValue, FSign, Times, Abs;
    ShiftSquare(g, r, h);
    ShiftQuotients(ar, d, e, l, m, g, h);
    ShiftedPair(e[l], d[l], d[l + 1], g, r, h, ShiftValue(ar, d, e, l, m));
  }

  /** With equal diagonal entries the divisor is 1. */
  lemma EvenShift(g: real, r: real, h: real)
    requires g == 0.0 && r >= 0.0 && r * r == g * g + 1.0 && h == g + FSign(r, g)
    ensures h == 1.0
  {
    assert (r - 1.0) * (r + 1.0) == 0.0;
    ZeroProduct(r - 1.0, r + 1.0);
  }

  lemma Farther(y: real, z: real, k: real)
    requires z == y * k && k >= 1.0
    ensures Abs(y) <= Abs(z)
  {
    assert z - y == y * (k - 1.0);
    if y >= 0.0 {
      assert y * (k - 1.0) >= 0.0;
    } else {
      assert (-y) * (k - 1.0) >= 0.0;
    }
  }

  // ---------- one pass, shifted ----------

  /**
   A pass whose block [[x, b], [b, q]] and pair (f, g) fit together: its rotation takes the
   shifted second column to (0, r) as well. Then its results hang on the one number w.
   */
  ghost predicate Fits(x: real, b: real, q: real, k': Cursor, v: real, w: real) {
    Times(k'.c, b) == Times(k'.s, q - v) && w == Times(k'.c, x - v) - Times(k'.s, b)
  }

  lemma ShiftedScalars(x: real, b: real, q: real, s: real, c: real, t: real, w: real, p: real, g: real)
    requires Times(s, s) + Times(c, c) == 1.0 && t == (x - q) * s + 2.0 * c * b
    requires Times(c, b) == Times(s, q) && w == Times(c, x) - Times(s, b) && p == s * t && g == c * t - b
    ensures x - p == Times(c, w) && g == Times(s, w)
  {
    RotatedLow(x, b, q, s, c, t, w, 0.0);
    RotatedLower(x, b, q, s, c, t, w, 0.0);
  }

  lemma CursorScalars(ar: Arith, x: real, b: real, q: real, f: real, g: real, r: real, k': Cursor)
    requires r != 0.0 && IsHypotenuse(r, f, g) && k' == NextCursor(ar, x, b, q, f, g, r)
    ensures Times(k'.s, r) == f && Times(k'.c, r) == g && Times(k'.s, k'.s) + Times(k'.c, k'.c) == 1.0
    ensures Times(k'.c, f) == Times(k'.s, g) && (f != 0.0 ==> k'.s != 0.0)
  {
    RotationScalars(f, g, r, k'.s, k'.c);
  }

  lemma ShiftedPass(ar: Arith, x: real, b: real, q: real, f: real, g: real, r: real, k': Cursor, v: real, w: real)
    requires r != 0.0 && IsHypotenuse(r, f, g) && k' == NextCursor(ar, x, b, q, f, g, r)
    requires Fits(x, b, q, k', v, w)
    ensures x - v - k'.p == Times(k'.c, w) && k'.g == Times(k'.s, w)
  {
    hide NextCursor, IsHypotenuse, Times;
    var t := (x - q) * k'.s + 2.0 * k'.c * b;
    CursorScalars(ar, x, b, q, f, g, r, k');
    CursorEnds(ar, x, b, q, f, g, r, k', t);
    assert (x - v) - (q - v) == x - q;
    ShiftedScalars(x - v, b, q - v, k'.s, k'.c, t, w, k'.p, k'.g);
  }

  // ---------- a block of two ----------

  lemma PairTurns(y: real, z: real, a: real, s: real, c: real, r: real, w: real)
    requires a != 0.0 && r != 0.0 && Times(s, r) == a && Times(c, r) == z && Times(y, z) == Times(a, a)
    requires w == Times(c, y) - Times(s, a)
    ensures w == 0.0 && Times(s, w) == 0.0
  {
    assert w * r == (c * r) * y - (s * r) * a;
    ZeroProduct(w, r);
  }

  /** [[x, a], [a, q]], shifted by an eigenvalue of its own: the pass leaves zero off the diagonal. */
  lemma PairConverges(ar: Arith, x: real, a: real, q: real, g: real, r: real, k': Cursor, v: real)
    requires a != 0.0 && r != 0.0 && IsHypotenuse(r, a, g) && k' == NextCursor(ar, x, a, q, a, g, r)
    requires g == q - v && Times(x - v, q - v) == Times(a, a)
    ensures k'.g == 0.0
  {
    hide NextCursor, IsHypotenuse, Times;
    CursorScalars(ar, x, a, q, a, g, r, k');
    var w := Times(k'.c, x - v) - Times(k'.s, a);
    ShiftedPass(ar, x, a, q, a, g, r, k', v, w);
    PairTurns(x - v, q - v, a, k'.s, k'.c, r, w);
  }

  // ---------- a block of three ----------

  /** The two passes over a block [[x0, a, 0], [a, x1, b], [0, b, x2]] with shift v. */
  ghost predicate TwoPasses(ar: Arith, x0: real, x1: real, x2: real, a: real, b: real, v: real,
                            r1: real, k1: Cursor, r2: real, k2: Cursor)
  {
    && a != 0.0 && b != 0.0 && Times(x0 - v, x1 - v) == Times(a, a)
    && r1 != 0.0 && IsHypotenuse(r1, b, x2 - v) && k1 == NextCursor(ar, x1, b, x2, b, x2 - v, r1)
    && r2 != 0.0 && IsHypotenuse(r2, Times(k1.s, a), k1.g)
    && k2 == NextCursor(ar, x0, Times(k1.c, a), x1 - k1.p, Times(k1.s, a), k1.g, r2)
  }

  /**
   The two passes in shifted terms: (s, c), r1 and w belong to the first, (s2, c2), r2 and u to the
   second. The diagonal is y, z, g before the sweep.
   */
  ghost predicate PassScalars(y: real, z: real, g: real, a: real, b: real, s: real, c: real, r1: real, w: real,
                              s2: real, c2: real, r2: real, u: real)
  {
    && a != 0.0 && b != 0.0 && Times(y, z) == Times(a, a)
    && FirstScalars(z, g, b, s, c, r1, w) && SecondScalars(y, a, b, s, c, w, s2, c2, r2, u)
  }

  ghost predicate FirstScalars(z: real, g: real, b: real, s: real, c: real, r1: real, w: real) {
    && s != 0.0 && r1 > 0.0 && Times(s, s) + Times(c, c) == 1.0 && w == Times(c, z) - Times(s, b)
    && Times(s, r1) == b && Times(c, r1) == g && Times(c, b) == Times(s, g)
  }

  ghost predicate SecondScalars(y: real, a: real, b: real, s: real, c: real, w: real,
                                s2: real, c2: real, r2: real, u: real)
  {
    && s2 != 0.0 && r2 > 0.0
    && Times(c2, r2) == Times(s, w) && Times(r2, r2) == Times(Times(s, s), Times(a, a) + Times(w, w))
    && Times(u, r2) == -Times(Times(s, s), Times(b, y))
  }

  lemma RadiusPositive(r: real, f: real, g: real)
    requires IsHypotenuse(r, f, g) && r != 0.0
    ensures r > 0.0
  {
  }

  lemma FirstPass(ar: Arith, x1: real, x2: real, b: real, v: real, r1: real, k1: Cursor, w: real)
    requires b != 0.0 && r1 != 0.0 && IsHypotenuse(r1, b, x2 - v) && k1 == NextCursor(ar, x1, b, x2, b, x2 - v, r1)
    requires w == Times(k1.c, x1 - v) - Times(k1.s, b)
    ensures x1 - v - k1.p == Times(k1.c, w) && k1.g == Times(k1.s, w)
    ensures FirstScalars(x1 - v, x2 - v, b, k1.s, k1.c, r1, w)
  {
    hide NextCursor, IsHypotenuse, Times;
    RadiusPositive(r1, b, x2 - v);
    CursorScalars(ar, x1, b, x2, b, x2 - v, r1, k1);
    ShiftedPass(ar, x1, b, x2, b, x2 - v, r1, k1, v, w);
  }

  lemma SecondFits(s: real, c: real, a: real, w: real, s2: real, c2: real, f: real, g: real, bb: real, qv: real)
    requires s != 0.0 && f == Times(s, a) && g == Times(s, w) && bb == Times(c, a) && qv == Times(c, w)
    requires Times(c2, f) == Times(s2, g)
    ensures Times(c2, bb) == Times(s2, qv)
  {
    assert (c2 * a - s2 * w) * s == c2 * f - s2 * g;
    ZeroProduct(c2 * a - s2 * w, s);
    assert c2 * bb - s2 * qv == (c2 * a - s2 * w) * c;
  }

  lemma RadiusSquare(s: real, a: real, w: real, r: real, f: real, g: real)
    requires IsHypotenuse(r, f, g) && f == Times(s, a) && g == Times(s, w)
    ensures Times(r, r) == Times(Times(s, s), Times(a, a) + Times(w, w))
  {
    assert (s * a) * (s * a) + (s * w) * (s * w) == (s * s) * (a * a + w * w);
  }

  lemma TurnedAgain(s: real, c: real, a: real, b: real, y: real, z: real, w: real, f: real, bb: real, g: real,
                    s2: real, c2: real, r2: real, u: real)
    requires Times(y, z) == Times(a, a) && w == Times(c, z) - Times(s, b)
    requires f == Times(s, a) && bb == Times(c, a) && g == Times(s, w)
    requires Times(s2, r2) == f && Times(c2, r2) == g && u == Times(c2, y) - Times(s2, bb)
    ensures Times(u, r2) == -Times(Times(s, s), Times(b, y))
  {
    assert u * r2 == (c2 * r2) * y - (s2 * r2) * bb == (s * w) * y - (s * a) * (c * a);
    assert u * r2 == s * (w * y - c * (a * a));
    assert w * y - c * (a * a) == -(s * (b * y));
  }

  lemma SecondPass(ar: Arith, x0: real, q: real, a: real, b: real, v: real, s: real, c: real, z: real, w: real,
                   f: real, bb: real, g: real, r2: real, k2: Cursor, u: real)
    requires f == Times(s, a) && bb == Times(c, a) && g == Times(s, w) && q - v == Times(c, w) && s != 0.0 && f != 0.0
    requires r2 != 0.0 && IsHypotenuse(r2, f, g) && k2 == NextCursor(ar, x0, bb, q, f, g, r2)
    requires u == Times(k2.c, x0 - v) - Times(k2.s, bb)
    requires Times(x0 - v, z) == Times(a, a) && w == Times(c, z) - Times(s, b)
    ensures x0 - v - k2.p == Times(k2.c, u) && k2.g == Times(k2.s, u)
    ensures SecondScalars(x0 - v, a, b, s, c, w, k2.s, k2.c, r2, u)
  {
    hide NextCursor, IsHypotenuse, Times;
    CursorScalars(ar, x0, bb, q, f, g, r2, k2);
    SecondFits(s, c, a, w, k2.s, k2.c, f, g, bb, q - v);
    ShiftedPass(ar, x0, bb, q, f, g, r2, k2, v, u);
    RadiusPositive(r2, f, g);
    RadiusSquare(s, a, w, r2, f, g);
    TurnedAgain(s, c, a, b, x0 - v, z, w, f, bb, g, k2.s, k2.c, r2, u);
  }

  lemma TimesNonzero(x: real, y: real)
    requires x != 0.0 && y != 0.0
    ensures Times(x, y) != 0.0
  {
    NonzeroProduct(x, y, x * y);
  }

  /** The two passes and what they leave in the arrays, on w and u. */
  lemma BothPasses(ar: Arith, x0: real, x1: real, x2: real, a: real, b: real, v: real,
                   r1: real, k1: Cursor, r2: real, k2: Cursor)
    returns (w: real, u: real)
    requires TwoPasses(ar, x0, x1, x2, a, b, v, r1, k1, r2, k2)
    ensures PassScalars(x0 - v, x1 - v, x2 - v, a, b, k1.s, k1.c, r1, w, k2.s, k2.c, r2, u)
    ensures x1 - v - k1.p == Times(k1.c, w) && x0 - v - k2.p == Times(k2.c, u) && k2.g == Times(k2.s, u)
  {
    hide NextCursor, IsHypotenuse, Times, SecondScalars;
    var f, bb := Times(k1.s, a), Times(k1.c, a);
    w := Times(k1.c, x1 - v) - Times(k1.s, b);
    u := Times(k2.c, x0 - v) - Times(k2.s, bb);
    FirstPass(ar, x1, x2, b, v, r1, k1, w);
    TimesNonzero(k1.s, a);
    SecondPass(ar, x0, x1 - k1.p, a, b, v, k1.s, k1.c, x1 - v, w, f, bb, k1.g, r2, k2, u);
  }

  lemma TurnedNonzero(y: real, z: real, g: real, a: real, b: real, s: real, c: real, r1: real, w: real,
                      s2: real, c2: real, r2: real, u: real)
    requires PassScalars(y, z, g, a, b, s, c, r1, w, s2, c2, r2, u)
    ensures u != 0.0
  {
    hide Times;
    TimesNonzero(a, a);
    TimesFactor(y, z);
    TimesNonzero(s, s);
    TimesNonzero(b, y);
    TimesNonzero(Times(s, s), Times(b, y));
    TimesFactor(u, r2);
  }

  lemma TimesFactor(x: real, y: real)
    requires Times(x, y) != 0.0
    ensures x != 0.0
  {
    FactorNonzero(x, y, x * y);
  }

  /** A sweep of a block of three leaves its first off-diagonal entry nonzero. */
  lemma TripleStays(ar: Arith, x0: real, x1: real, x2: real, a: real, b: real, v: real,
                    r1: real, k1: Cursor, r2: real, k2: Cursor)
    requires TwoPasses(ar, x0, x1, x2, a, b, v, r1, k1, r2, k2)
    ensures k2.g != 0.0
  {
    hide TwoPasses, FirstScalars, Times;
    var w, u := BothPasses(ar, x0, x1, x2, a, b, v, r1, k1, r2, k2);
    TurnedNonzero(x0 - v, x1 - v, x2 - v, a, b, k1.s, k1.c, r1, w, k2.s, k2.c, r2, u);
    TimesNonzero(k2.s, u);
  }
}
