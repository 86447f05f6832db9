/**
 What the comments of imtql2 and imtqlb promise, held against the iteration in
 exact arithmetic: that z holds eigenvectors for the eigenvalues up to the
 promised index, that ierr is 0 for a normal return only, and that the
 eigenvalues at the indices 0 to ierr are correct on the error exit. These are
 theorems on the iteration over the reals, where the convergence test accepts
 an exact zero only; in double arithmetic rounding ends the runs meant here.
 */
module QLPromises {
  import opened Reals
  import opened LinearAlgebra
  import opened QLSweep
  import opened QLSimilarity
  import opened QLRuns
  import opened QLShift
  import opened QLBlocks
  import opened QLOrder
  import opened QLTheorems
  import opened QLRefinement

  // ---------- eigenvalues of a matrix and of its conjugate ----------

  /** A vector as a matrix of one column. */
  ghost function Column(v: Vector): (m: Matrix)
    ensures IsMatrix(m, |v|, 1) && Col(m, 0) == v
  {
    var m := seq(|v|, r requires 0 <= r < |v| => [v[r]]);
    assert Col(m, 0) == v;
    m
  }

  lemma ApplyIsProduct(m: Matrix, n: nat, v: Vector)
    requires IsMatrix(m, |m|, n) && |v| == n
    ensures Product(m, Column(v), 1) == Column(Apply(m, n, v))
  {
    var p, q := Product(m, Column(v), 1), Column(Apply(m, n, v));
    forall r | 0 <= r < |m| ensures p[r] == q[r] {
      assert p[r][0] == Dot(m[r], v) == Col(q, 0)[r] == q[r][0];
    }
  }

  lemma ApplyProduct(a: Matrix, b: Matrix, n: nat, v: Vector)
    requires IsMatrix(a, |a|, |b|) && IsMatrix(b, |b|, n) && |v| == n
    ensures Apply(Product(a, b, n), n, v) == Apply(a, |b|, Apply(b, n, v))
  {
    ProductAssociative(a, b, Column(v), n, 1);
    ApplyIsProduct(Product(a, b, n), n, v);
    ApplyIsProduct(b, n, v);
    ApplyIsProduct(a, |b|, Apply(b, n, v));
    assert Col(Column(Apply(Product(a, b, n), n, v)), 0) == Col(Column(Apply(a, |b|, Apply(b, n, v))), 0);
  }

  lemma ApplyIdentity(n: nat, v: Vector)
    requires |v| == n
    ensures Apply(Identity(n), n, v) == v
  {
    forall r | 0 <= r < n ensures Apply(Identity(n), n, v)[r] == v[r] {
      UnitDotTo(r, v, n);
    }
  }

  lemma ApplyScaled(m: Matrix, n: nat, x: real, v: Vector, w: Vector)
    requires IsMatrix(m, |m|, n) && |v| == |w| == n && forall k :: 0 <= k < n ==> w[k] == x * v[k]
    ensures forall r :: 0 <= r < |m| ==> Apply(m, n, w)[r] == x * Apply(m, n, v)[r]
  {
    forall r | 0 <= r < |m| ensures Apply(m, n, w)[r] == x * Apply(m, n, v)[r] {
      assert w == Combine(x, v, 0.0, v);
      DotToCombine(m[r], x, v, 0.0, v, n);
    }
  }

  lemma ProductWithTranspose(z: Matrix, n: nat, a: nat, b: nat)
    requires IsMatrix(z, n, n) && a < n && b < n
    ensures Product(z, Transpose(z, n), n)[a][b] == RowGram(z, n)[a][b]
    ensures Product(Transpose(z, n), z, n)[a][b] == Dot(Col(z, a), Col(z, b))
  {
    hide Dot;
    var zt := Transpose(z, n);
    assert Col(zt, b) == z[b];
    ProductEntry(z, zt, n, a, b);
    ProductEntry(zt, z, n, a, b);
  }

  lemma OrthonormalProducts(z: Matrix, n: nat)
    requires IsMatrix(z, n, n)
    ensures RowGram(z, n) == Identity(n) ==> Product(z, Transpose(z, n), n) == Identity(n)
    ensures OrthonormalColumns(z, n) ==> Product(Transpose(z, n), z, n) == Identity(n)
  {
    hide Dot, RowGram, Product, Transpose;
    if RowGram(z, n) == Identity(n) {
      forall a, b | 0 <= a < n && 0 <= b < n ensures Product(z, Transpose(z, n), n)[a][b] == Identity(n)[a][b] {
        ProductWithTranspose(z, n, a, b);
      }
      MatricesEqual(Product(z, Transpose(z, n), n), Identity(n), n);
    }
    if OrthonormalColumns(z, n) {
      forall a, b | 0 <= a < n && 0 <= b < n ensures Product(Transpose(z, n), z, n)[a][b] == Identity(n)[a][b] {
        ProductWithTranspose(z, n, a, b);
      }
      MatricesEqual(Product(Transpose(z, n), z, n), Identity(n), n);
    }
  }

  /** An eigenvalue of T is one of T', when T Z == Z T' and Z is orthonormal both ways. */
  lemma EigenvaluePasses(t: Matrix, z: Matrix, t': Matrix, n: nat, x: real)
    requires IsMatrix(z, n, n) && Residual(t, z, t', n)
    requires RowGram(z, n) == Identity(n) && OrthonormalColumns(z, n) && IsEigenvalue(t, n, x)
    ensures IsEigenvalue(t', n, x)
  {
    hide Dot, RowGram, OrthonormalColumns;
    var v :| IsEigenvector(t, n, x, v);
    var zt := Transpose(z, n);
    var u := Apply(zt, n, v);
    OrthonormalProducts(z, n);
    var tv := Apply(t, n, v);
    assert v == Apply(z, n, u) by {
      ApplyProduct(z, zt, n, v);
      ApplyIdentity(n, v);
    }
    assert Apply(t', n, u) == Apply(zt, n, tv) by {
      ApplyProduct(zt, z, n, Apply(t', n, u));
      ApplyIdentity(n, Apply(t', n, u));
      ApplyProduct(z, t', n, u);
      ApplyProduct(t, z, n, u);
    }
    ApplyScaled(zt, n, x, v, tv);
    SomeNonzero(z, n, u);
    assert IsEigenvector(t', n, x, u);
  }

  lemma SomeNonzero(z: Matrix, n: nat, u: Vector)
    requires IsMatrix(z, n, n) && |u| == n && exists k :: 0 <= k < n && Apply(z, n, u)[k] != 0.0
    ensures exists k :: 0 <= k < n && u[k] != 0.0
  {
    if forall k :: 0 <= k < n ==> u[k] == 0.0 {
      forall k | 0 <= k < n ensures Apply(z, n, u)[k] == 0.0 {
        DotToSymmetric(z[k], u, n);
        ZeroDot(u, z[k], n);
      }
    }
  }

  lemma DotThree(u: Vector, v: Vector)
    requires |u| == |v| == 3
    ensures Dot(u, v) == u[0] * v[0] + u[1] * v[1] + u[2] * v[2]
  {
    assert DotTo(u, v, 1) == u[0] * v[0];
    assert DotTo(u, v, 2) == DotTo(u, v, 1) + u[1] * v[1];
  }

  lemma ThreeUnknowns(d0: real, d1: real, d2: real, e0: real, e1: real, u0: real, u1: real, u2: real)
    requires e0 != 0.0 && e1 != 0.0 && d0 != d2
    requires d0 * u0 + e0 * u1 == d0 * u0
    requires e0 * u0 + d1 * u1 + e1 * u2 == d0 * u1
    requires e1 * u1 + d2 * u2 == d0 * u2
    ensures u0 == u1 == u2 == 0.0
  {
    ZeroProduct(u1, e0);
    assert (d2 - d0) * u2 == 0.0;
    ZeroProduct(u2, d2 - d0);
    ZeroProduct(u0, e0);
  }

  /** The rows of a 3 by 3 tridiagonal matrix, applied. */
  lemma TriThree(d: seq<real>, e: seq<real>, u: Vector)
    requires |d| == |e| == |u| == 3
    ensures var t := Tri(d, e);
            && Dot(t[0], u) == d[0] * u[0] + e[0] * u[1]
            && Dot(t[1], u) == e[0] * u[0] + d[1] * u[1] + e[1] * u[2]
            && Dot(t[2], u) == e[1] * u[1] + d[2] * u[2]
  {
    hide Dot;
    var t := Tri(d, e);
    DotThree(t[0], u);
    DotThree(t[1], u);
    DotThree(t[2], u);
    assert t[0] == [d[0], e[0], 0.0] && t[1] == [e[0], d[1], e[1]] && t[2] == [0.0, e[1], d[2]];
  }

  lemma NoneButZero(d: seq<real>, e: seq<real>, u: Vector)
    requires |d| == |e| == 3 && e[0] != 0.0 && e[1] != 0.0 && d[0] != d[2]
    ensures !IsEigenvector(Tri(d, e), 3, d[0], u)
  {
    hide Dot, Tri;
    var t := Tri(d, e);
    if IsEigenvector(t, 3, d[0], u) {
      TriThree(d, e, u);
      assert Dot(t[0], u) == d[0] * u[0] && Dot(t[1], u) == d[0] * u[1] && Dot(t[2], u) == d[0] * u[2];
      ThreeUnknowns(d[0], d[1], d[2], e[0], e[1], u[0], u[1], u[2]);
      assert false;
    }
  }

  lemma EqualEnds(d: seq<real>, e: seq<real>, u: Vector)
    requires |d| == |e| == 3 && e[1] != 0.0 && d[0] == d[2] && u == [e[1], 0.0, -e[0]]
    ensures IsEigenvector(Tri(d, e), 3, d[0], u)
  {
    hide Dot, Tri;
    var t := Tri(d, e);
    TriThree(d, e, u);
    assert e[0] * e[1] + d[1] * 0.0 + e[1] * (-e[0]) == 0.0;
    assert Dot(t[0], u) == d[0] * u[0] && Dot(t[1], u) == d[0] * u[1] && Dot(t[2], u) == d[0] * u[2];
    assert u[0] != 0.0;
  }

  /** The first diagonal entry of an unreduced 3 by 3 matrix is an eigenvalue exactly when it equals the last. */
  lemma FirstIsEigenvalue(d: seq<real>, e: seq<real>)
    requires |d| == |e| == 3 && e[0] != 0.0 && e[1] != 0.0
    ensures IsEigenvalue(Tri(d, e), 3, d[0]) <==> d[0] == d[2]
  {
    hide IsEigenvector;
    if d[0] == d[2] {
      EqualEnds(d, e, [e[1], 0.0, -e[0]]);
    } else {
      forall u ensures !IsEigenvector(Tri(d, e), 3, d[0], u) {
        NoneButZero(d, e, u);
      }
    }
  }

  // ---------- a 3 by 3 matrix whose ends move apart ----------

  /**
   A shifted state, diagonal y, z, g: the shift is below d[1] and d[2], and not above the
   least eigenvalue of the trailing block.
   */
  ghost predicate Rising(y: real, z: real, g: real, a: real, b: real) {
    && a != 0.0 && b != 0.0 && Times(y, z) == Times(a, a)
    && y > 0.0 && z > 0.0 && g > 0.0 && Times(z, g) >= Times(b, b)
  }

  /** After a sweep the shift separates d[0] from the trailing block. */
  ghost predicate Separates(y: real, z: real, g: real, b: real) {
    y <= 0.0 && z > 0.0 && g > 0.0 && Times(z, g) >= Times(b, b)
  }

  /** The products of the first pass with its radius. */
  lemma FirstProducts(z: real, g: real, b: real, s: real, c: real, r: real, w: real)
    requires Times(s, r) == b && Times(c, r) == g && w == Times(c, z) - Times(s, b)
    ensures Times(Times(s, b), r) == Times(b, b) && Times(w, r) == Times(z, g) - Times(b, b)
  {
    assert (s * b) * r == (s * r) * b;
    assert w * r == (c * r) * z - (s * r) * b;
  }

  /** The first pass: w is at least 0 and at most c * z. */
  lemma FirstSigns(y: real, z: real, g: real, a: real, b: real, s: real, c: real, r: real, w: real)
    requires Rising(y, z, g, a, b) && FirstScalars(z, g, b, s, c, r, w)
    ensures c > 0.0 && Times(s, b) > 0.0 && 0.0 <= w <= Times(c, z)
  {
    hide Times;
    FirstProducts(z, g, b, s, c, r, w);
    TimesSigns(b, b);
    TimesQuotient(c, r);
    TimesQuotient(Times(s, b), r);
    TimesQuotient(w, r);
  }

  lemma TimesQuotient(x: real, r: real)
    requires r > 0.0
    ensures Times(x, r) > 0.0 ==> x > 0.0
    ensures Times(x, r) >= 0.0 ==> x >= 0.0
    ensures Times(x, r) <= 0.0 ==> x <= 0.0
  {
    PositiveQuotient(x, r, x * r);
  }

  /** The new first entry, shifted, times the square of the second radius. */
  lemma FirstEntry(y: real, s: real, b: real, w: real, c2: real, r2: real, u: real)
    requires Times(c2, r2) == Times(s, w) && Times(u, r2) == -Times(Times(s, s), Times(b, y))
    ensures Times(Times(c2, u), Times(r2, r2)) == -Times(Times(s, s), Times(Times(w, Times(s, b)), y))
  {
    assert (c2 * u) * (r2 * r2) == (c2 * r2) * (u * r2) == (s * w) * (-((s * s) * (b * y)));
  }

  lemma FirstNegative(y: real, s: real, b: real, w: real, q: real, r2: real)
    requires y > 0.0 && Times(s, b) > 0.0 && w >= 0.0 && r2 > 0.0
    requires Times(q, Times(r2, r2)) == -Times(Times(s, s), Times(Times(w, Times(s, b)), y))
    ensures q <= 0.0
  {
    var sb, rr := s * b, r2 * r2;
    NonnegativeProduct(w, sb);
    NonnegativeProduct(w * sb, y);
    SquareNonnegative(s, s * s);
    NonnegativeProduct(s * s, (w * sb) * y);
    PositiveProduct(r2, r2, rr);
    PositiveQuotient(q, rr, -((s * s) * ((w * sb) * y)));
  }

  lemma ScaledDifference(c: real, z: real, s: real, b: real, sg: real)
    requires c * b == sg
    ensures c * (c * z - s * b) == (c * c) * z - s * sg
  {
    assert c * (s * b) == s * (c * b);
  }

  /** The new last entry, shifted. */
  lemma LastEntry(z: real, g: real, s: real, c: real, b: real, w: real, ss: real)
    requires ss == Times(s, s) && ss + Times(c, c) == 1.0
    requires Times(c, b) == Times(s, g) && w == Times(c, z) - Times(s, b)
    ensures g + z - Times(c, w) == g + Times(ss, z) + Times(ss, g)
  {
    var cc := c * c;
    ScaledDifference(c, z, s, b, s * g);
    assert c * w == cc * z - s * (s * g);
    assert cc * z == (1.0 - ss) * z == z - ss * z;
  }

  lemma LastGrows(z: real, g: real, s: real, c: real, b: real, w: real, ss: real)
    requires z > 0.0 && g > 0.0 && ss == Times(s, s) && ss + Times(c, c) == 1.0
    requires Times(c, b) == Times(s, g) && w == Times(c, z) - Times(s, b)
    ensures g + z - Times(c, w) >= Times(ss, z) && g + z - Times(c, w) > 0.0
  {
    hide Times;
    LastEntry(z, g, s, c, b, w, ss);
    TimesSigns(s, s);
    TimesSigns(ss, g);
    TimesSigns(ss, z);
  }

  /** Where the new first entry q comes from. */
  lemma FirstQuotient(y: real, s: real, k: real, q: real, r2: real, n2: real)
    requires s != 0.0 && Times(q, Times(r2, r2)) == -Times(Times(s, s), Times(k, y))
    requires Times(r2, r2) == Times(Times(s, s), n2)
    ensures Times(q, n2) == -Times(k, y)
  {
    var ss := s * s;
    assert q * (ss * n2) == (q * n2) * ss && ss * (k * y) == (k * y) * ss;
    assert (q * n2 + k * y) * ss == 0.0;
    SquareNonzero(s, ss);
    ZeroProduct(q * n2 + k * y, ss);
  }

  /** The new second entry r, times n2 == x + w * w. */
  lemma SecondProduct(y: real, c: real, w: real, sb: real, m: real, n2: real, q: real, r: real)
    requires Times(q, n2) == -Times(Times(w, sb), y) && w == m - sb && r == Times(c, w) + y - q
    ensures Times(r, n2) == (c * w + y) * n2 + w * (m - w) * y
  {
    assert r * n2 == (c * w + y) * n2 - q * n2;
    assert sb == m - w;
  }

  lemma ExpandTrailing(y: real, z: real, c: real, w: real, x: real, n2: real, m: real, k: real)
    requires x == y * z && n2 == x + w * w && m == c * z && k == (c * w + y) * n2 + w * (m - w) * y
    ensures z * k == x * x + 2.0 * (m * (w * x)) + m * (w * (w * w))
  {
    assert k == c * w * x + c * w * w * w + y * x + y * w * w + w * m * y - w * w * y;
    assert k == c * w * x + c * w * w * w + y * x + w * m * y;
    assert z * (c * w * x) == m * (w * x) && z * (c * w * w * w) == m * (w * (w * w));
    assert z * (y * x) == x * x && z * (w * m * y) == m * (w * x);
  }

  lemma AtLeastSquare(w: real, x: real, m: real, n2: real, k: real)
    requires 0.0 <= w <= m && x > 0.0 && n2 == x + w * w
    requires k == x * x + 2.0 * (m * (w * x)) + m * (w * (w * w))
    ensures k >= n2 * n2
  {
    NonnegativeProduct(w, x);
    NonnegativeProduct(m - w, w * x);
    SquareNonnegative(w, w * w);
    NonnegativeProduct(w, w * w);
    NonnegativeProduct(m - w, w * (w * w));
    assert n2 * n2 == x * x + 2.0 * (w * (w * x)) + w * (w * (w * w));
  }

  lemma ScaledSecond(y: real, z: real, c: real, w: real, x: real, n2: real, m: real, r: real)
    requires x == Times(y, z) && n2 == x + Times(w, w) && m == Times(c, z) && 0.0 <= w <= m && x > 0.0
    requires Times(r, n2) == (c * w + y) * n2 + w * (m - w) * y
    ensures Times(Times(z, r), n2) >= Times(n2, n2)
  {
    var k := r * n2;
    ExpandTrailing(y, z, c, w, x, n2, m, k);
    AtLeastSquare(w, x, m, n2, z * k);
    assert z * (r * n2) == (z * r) * n2;
  }

  lemma TimesDivided(x: real, y: real)
    requires y > 0.0 && Times(x, y) >= Times(y, y)
    ensures x >= y
  {
    PositiveQuotient(x - y, y, (x - y) * y);
  }

  /** z times the new second entry r is at least n2. */
  lemma SecondEntry(y: real, z: real, c: real, w: real, sb: real, x: real, n2: real, q: real, r: real)
    requires 0.0 <= w <= Times(c, z) && x == Times(y, z) && x > 0.0 && n2 == x + Times(w, w)
    requires Times(q, n2) == -Times(Times(w, sb), y) && w == Times(c, z) - sb && r == Times(c, w) + y - q
    ensures Times(z, r) >= n2
  {
    hide Times;
    var m := Times(c, z);
    SecondProduct(y, c, w, sb, m, n2, q, r);
    ScaledSecond(y, z, c, w, x, n2, m, r);
    TimesSigns(w, w);
    TimesDivided(Times(z, r), n2);
  }

  lemma TrailingProduct(z: real, ss: real, n2: real, p: real, r: real)
    requires ss >= 0.0 && r >= 0.0 && p >= Times(ss, z) && Times(z, r) >= n2
    ensures Times(r, p) >= Times(ss, n2)
  {
    NonnegativeProduct(p - ss * z, r);
    NonnegativeProduct(ss, z * r - n2);
    assert p * r == (p - ss * z) * r + ss * (z * r - n2) + ss * n2;
  }

  lemma TimesSigns(x: real, y: real)
    ensures Times(x, x) >= 0.0
    ensures x != 0.0 ==> Times(x, x) > 0.0
    ensures x >= 0.0 && y >= 0.0 ==> Times(x, y) >= 0.0
  {
    SquareNonnegative(x, x * x);
    if x != 0.0 {
      SquareNonzero(x, x * x);
    }
    if x >= 0.0 && y >= 0.0 {
      NonnegativeProduct(x, y);
    }
  }

  lemma RisingScalars(y: real, z: real, g: real, a: real, b: real, s: real, c: real, r1: real, w: real,
                      s2: real, c2: real, r2: real, u: real, q: real, r: real, p: real)
    requires Rising(y, z, g, a, b) && PassScalars(y, z, g, a, b, s, c, r1, w, s2, c2, r2, u)
    requires q == Times(c2, u) && r == Times(c, w) + y - q && p == g + z - Times(c, w)
    ensures Separates(q, r, p, r2)
  {
    hide Times;
    var ss, sb, n2 := Times(s, s), Times(s, b), Times(a, a) + Times(w, w);
    FirstSigns(y, z, g, a, b, s, c, r1, w);
    FirstEntry(y, s, b, w, c2, r2, u);
    FirstNegative(y, s, b, w, q, r2);
    LastGrows(z, g, s, c, b, w, ss);
    FirstQuotient(y, s, Times(w, sb), q, r2, n2);
    TimesSigns(a, a);
    TimesSigns(s, s);
    TimesSigns(c, w);
    SecondEntry(y, z, c, w, sb, Times(a, a), n2, q, r);
    TrailingProduct(z, ss, n2, p, r);
  }

  lemma RisingSweep(ar: Arith, x0: real, x1: real, x2: real, a: real, b: real, v: real,
                    r1: real, k1: Cursor, r2: real, k2: Cursor)
    requires TwoPasses(ar, x0, x1, x2, a, b, v, r1, k1, r2, k2)
    requires Rising(x0 - v, x1 - v, x2 - v, a, b)
    ensures Separates(x0 - k2.p - v, x1 - k1.p + k2.p - v, x2 + k1.p - v, r2)
  {
    hide TwoPasses, PassScalars, Rising, Separates, Times;
    var w, u := BothPasses(ar, x0, x1, x2, a, b, v, r1, k1, r2, k2);
    RisingScalars(x0 - v, x1 - v, x2 - v, a, b, k1.s, k1.c, r1, w, k2.s, k2.c, r2, u,
                  x0 - k2.p - v, x1 - k1.p + k2.p - v, x2 + k1.p - v);
  }

  /** The next shift lies below d[0], so the state rises again. */
  lemma RisesAgain(ar: Arith, d: seq<real>, e: seq<real>, v: real)
    requires Exact(ar) && |d| == |e| >= 3 && e[0] != 0.0 && e[1] != 0.0
    requires Separates(d[0] - v, d[1] - v, d[2] - v, e[1])
    ensures Rises(ar, d, e)
  {
    var v' := ShiftValue(ar, d, e, 0, 2);
    ShiftIsEigenvalue(ar, d, e, 0, 2);
    RisesBelow(d[0], d[1], d[2], e[0], e[1], v, v');
  }

  lemma RisesBelow(x0: real, x1: real, x2: real, a: real, b: real, v: real, v': real)
    requires a != 0.0 && b != 0.0 && Separates(x0 - v, x1 - v, x2 - v, b)
    requires Times(x0 - v', x1 - v') == Times(a, a) && Abs(x0 - v') <= Abs(x1 - v')
    ensures Rising(x0 - v', x1 - v', x2 - v', a, b)
  {
    TimesSigns(a, a);
    BothPositive(x0 - v', x1 - v', Times(a, a));
    hide Times;
    Wider(x1 - v, x2 - v, x1 - v', x2 - v');
  }

  lemma BothPositive(y: real, z: real, p: real)
    requires Times(y, z) == p && p > 0.0 && y < z && Abs(y) <= Abs(z)
    ensures y > 0.0 && z > 0.0
  {
    if y < 0.0 && z > 0.0 {
      PositiveProduct(-y, z, -p);
    }
  }

  lemma Wider(z: real, g: real, z': real, g': real)
    requires 0.0 < z <= z' && 0.0 < g <= g'
    ensures Times(z, g) <= Times(z', g')
  {
    NonnegativeProduct(z' - z, g);
    NonnegativeProduct(z', g' - g);
    assert z' * g' == z * g + (z' - z) * g + z' * (g' - g);
  }

  /** The leading block of three rises at its own shift. */
  ghost predicate Rises(ar: Arith, d: seq<real>, e: seq<real>) {
    && |d| == |e| >= 3
    && var v := ShiftValue(ar, d, e, 0, 2);
       Rising(d[0] - v, d[1] - v, d[2] - v, e[0], e[1])
  }

  /** A leading block of three that rises is given up with d[0] < d[2]. */
  lemma {:induction false} RisingStops(ar: Arith, st: State, n: nat, iteration: nat)
    requires Exact(ar) && n >= 3 && Shaped(st, n) && iteration <= 30
    requires Unreduced(st.e, 0, 2) && Rises(ar, st.d, st.e)
    requires iteration == 0 || st.d[0] < st.d[2]
    ensures var o := Iterate(ar, st, 0, iteration);
            o.Stopped? && Unreduced(o.st.e, 0, 2) && o.st.d[0] < o.st.d[2]
    decreases 30 - iteration
  {
    hide Sweep, ShiftValue, Rising;
    SplitUnreduced(st.d, st.e, 0, 2);
    if iteration < 30 {
      RisingStep(ar, st, n);
      RisingStops(ar, Sweep(ar, st, 0, 2), n, iteration + 1);
    }
  }

  lemma RisingStep(ar: Arith, st: State, n: nat)
    requires Exact(ar) && n >= 3 && Shaped(st, n) && Unreduced(st.e, 0, 2) && Rises(ar, st.d, st.e)
    ensures var st' := Sweep(ar, st, 0, 2);
            Unreduced(st'.e, 0, 2) && Rises(ar, st'.d, st'.e) && st'.d[0] < st'.d[2]
  {
    hide Sweep, ShiftValue, Rising, TwoPasses, Shift, Times, Exact;
    var st', v := Sweep(ar, st, 0, 2), ShiftValue(ar, st.d, st.e, 0, 2);
    SweepKeepsInside(ar, st, n, 0, 2);
    var r1, k1, r2, k2 := SweepTriple(ar, st, n, 0);
    TripleStays(ar, st.d[0], st.d[1], st.d[2], st.e[0], st.e[1], v, r1, k1, r2, k2);
    RisingSweep(ar, st.d[0], st.d[1], st.d[2], st.e[0], st.e[1], v, r1, k1, r2, k2);
    RisesAgain(ar, st'.d, st'.e, v);
  }

  // ---------- a leading block of three on its own ----------

  /** st3 is the leading block of three of st. */
  ghost predicate Leads(st: State, n: nat, st3: State) {
    n >= 3 && Shaped(st, n) && Shaped(st3, 3) && st3.d == st.d[..3] && st3.e == st.e[..3]
  }

  lemma SweepLeads(ar: Arith, st: State, n: nat, st3: State)
    requires Exact(ar) && Leads(st, n, st3) && Unreduced(st.e, 0, 2)
    ensures Leads(Sweep(ar, st, 0, 2), n, Sweep(ar, st3, 0, 2))
  {
    ShiftLeads(ar, st, n, st3);
    hide Sweep, Shift, Times, NextCursor, Exact;
    var r1, k1, r2, k2 := SweepTriple(ar, st, n, 0);
    var q1, h1, q2, h2 := SweepTriple(ar, st3, 3, 0);
    assert h1 == k1 && h2 == k2;
    var s, s3 := Sweep(ar, st, 0, 2), Sweep(ar, st3, 0, 2);
    assert s3.d == s.d[..3] && s3.e == s.e[..3];
  }

  lemma ShiftLeads(ar: Arith, st: State, n: nat, st3: State)
    requires Leads(st, n, st3)
    ensures Shift(ar, st3.d, st3.e, 0, 2) == Shift(ar, st.d, st.e, 0, 2)
    ensures ShiftValue(ar, st3.d, st3.e, 0, 2) == ShiftValue(ar, st.d, st.e, 0, 2)
  {
  }

  /** A leading block of three goes through the same sweeps on its own. */
  lemma {:induction false} IterateLeads(ar: Arith, st: State, n: nat, st3: State, iteration: nat)
    requires Exact(ar) && Leads(st, n, st3) && Unreduced(st.e, 0, 2) && Unreduced(st3.e, 0, 2) && iteration <= 30
    ensures var o, o3 := Iterate(ar, st, 0, iteration), Iterate(ar, st3, 0, iteration);
            o.Stopped? && o3.Stopped? && Leads(o.st, n, o3.st)
    decreases 30 - iteration
  {
    hide Sweep, Exact;
    SplitUnreduced(st.d, st.e, 0, 2);
    SplitUnreduced(st3.d, st3.e, 0, 2);
    if iteration < 30 {
      SweepLeads(ar, st, n, st3);
      TripleAgain(ar, st, n);
      TripleAgain(ar, st3, 3);
      IterateLeads(ar, Sweep(ar, st, 0, 2), n, Sweep(ar, st3, 0, 2), iteration + 1);
    }
  }

  lemma TripleAgain(ar: Arith, st: State, n: nat)
    requires Exact(ar) && n >= 3 && Shaped(st, n) && Unreduced(st.e, 0, 2)
    ensures Unreduced(Sweep(ar, st, 0, 2).e, 0, 2)
  {
    hide Sweep, ShiftValue, TwoPasses, Shift, Times, Exact;
    SweepKeepsInside(ar, st, n, 0, 2);
    var r1, k1, r2, k2 := SweepTriple(ar, st, n, 0);
    TripleStays(ar, st.d[0], st.d[1], st.d[2], st.e[0], st.e[1], ShiftValue(ar, st.d, st.e, 0, 2), r1, k1, r2, k2);
  }

  // ---------- the promises, for the exact iteration ----------

  /**
   When the flag stored on giving up is 0, as on a normal return: never unless e[0] and e[1]
   are nonzero, always for a leading block of three.
   */
  lemma GivenUpAtZero(ar: Arith, st: State, n: nat)
    requires Exact(ar) && Shaped(st, n) && n >= 1 && st.e[n - 1] == 0.0
    ensures var o := Solve(ar, st, 0);
            && (o.Stopped? && o.l == 0 ==> n >= 3 && st.e[0] != 0.0 && st.e[1] != 0.0)
            && (n >= 3 && Unreduced(st.e, 0, 2) ==> o.Stopped? && o.l == 0)
  {
    hide Iterate;
    var m := Split(st.d, st.e, 0);
    SplitIsUnreduced(st.d, st.e, 0);
    if m == 0 {
      IterateNothing(ar, st, n, 0);
    } else if m == 1 {
      PairCompletes(ar, st, n, 0);
    }
    if n >= 3 && Unreduced(st.e, 0, 2) {
      TripleStops(ar, st, n, 0, 0);
    }
    if m <= 1 && n >= 1 {
      LaterStop(ar, Iterate(ar, st, 0, 0).st, 1);
    }
  }

  lemma {:induction false} LaterStop(ar: Arith, st: State, l: nat)
    requires Shaped(st, |st.d|) && l <= |st.d|
    ensures Solve(ar, st, l).Stopped? ==> Solve(ar, st, l).l >= l
    decreases |st.d| - l
  {
    hide Iterate;
    if l < |st.d| && Iterate(ar, st, l, 0).Completed? {
      LaterStop(ar, Iterate(ar, st, l, 0).st, l + 1);
    }
  }

  /** The index up to which the comments promise eigenpairs. */
  function Promised(o: Outcome, n: nat): nat
    requires n >= 1
  {
    if o.Stopped? then o.l else n - 1
  }

  /**
   The promise on the vectors, from the identity: the columns up to the promised
   index are eigenvectors exactly when no two neighbouring entries of e are nonzero.
   */
  lemma VectorsAsPromised(ar: Arith, d: seq<real>, e: seq<real>, n: nat)
    requires Exact(ar) && |d| == |e| == n && n >= 1 && Reduced(e, 0)
    ensures var o := Solve(ar, State(d, e, Identity(n)), 0);
            var fin := Delivered(o);
            (forall j :: 0 <= j < n && j <= Promised(o, n) ==> EigenColumn(Tri(d, e), fin.rows, fin.d[j], n, j))
            <==> !HasJoined(e, 0)
  {
    hide Solve, Dot, Tri;
    var st := State(d, e, Identity(n));
    IdentityStart(Tri(d, e), n);
    Imtql2Delivers(ar, Tri(d, e), st, n);
    CompletesIff(ar, st, n, 0);
    var o := Solve(ar, st, 0);
    var fin := Delivered(o);
    if o.Completed? {
      forall j | 0 <= j < n ensures EigenColumn(Tri(d, e), fin.rows, fin.d[j], n, j) {
      }
    }
  }

  /**
   The promise on the eigenvalues, for imtql2 and imtqlb in exact arithmetic: a matrix whose
   leading block of three rises is given up with ierr 0, and the d[0] stored is no
   eigenvalue of that block.
   */
  lemma WrongEigenvalue(ar: Arith, d: seq<real>, e: seq<real>, n: nat)
    requires Exact(ar) && |d| == |e| == n && n >= 3 && Unreduced(e, 0, 2) && Rises(ar, d, e)
    ensures var o, ob := Solve(ar, State(d, e, Identity(n)), 0), SolveBounds(ar, State(d, e, [Unit(n, 0)]), 0);
            && o.Stopped? && ob.Stopped? && o.l == ob.l == 0
            && o.st.d[0] == ob.st.d[0] && !IsEigenvalue(Tri(d[..3], e[..3]), 3, o.st.d[0])
  {
    hide Iterate, IsEigenvalue, Tri, Exact;
    var st, st3 := State(d, e, Identity(n)), State(d[..3], e[..3], Identity(3));
    IterateLeads(ar, st, n, st3, 0);
    SameAtZero(ar, st, n);
    ShiftLeads(ar, st, n, st3);
    WrongOnItsOwn(ar, st3);
  }

  lemma WrongOnItsOwn(ar: Arith, st: State)
    requires Exact(ar) && Shaped(st, 3) && st.rows == Identity(3) && Unreduced(st.e, 0, 2) && Rises(ar, st.d, st.e)
    ensures !IsEigenvalue(Tri(st.d, st.e), 3, Iterate(ar, st, 0, 0).st.d[0])
  {
    hide Iterate, IsEigenvalue, Dot, Tri, Exact;
    var t, o := Tri(st.d, st.e), Iterate(ar, st, 0, 0);
    RisingStops(ar, st, 3, 0);
    IdentityStart(t, 3);
    IterateIsSimilarity(ar, t, st, 3, 0, 0);
    FirstIsEigenvalue(o.st.d, o.st.e);
    if IsEigenvalue(t, 3, o.st.d[0]) {
      EigenvaluePasses(t, o.st.rows, Tri(o.st.d, o.st.e), 3, o.st.d[0]);
    }
  }

  /** Given up at 0, imtqlb has the same diagonal. */
  lemma SameAtZero(ar: Arith, st: State, n: nat)
    requires n >= 1 && Shaped(st, n) && st.rows == Identity(n) && Iterate(ar, st, 0, 0).Stopped?
    ensures var o, ob := Solve(ar, st, 0), SolveBounds(ar, State(st.d, st.e, [Unit(n, 0)]), 0);
            && o == Iterate(ar, st, 0, 0) && o.l == 0
            && ob.Stopped? && ob.l == 0 && ob.st.d == o.st.d
  {
    hide Iterate;
    assert Only(st, 0) == State(st.d, st.e, [Unit(n, 0)]);
    IterateRowwise(ar, st, 0, 0, 0);
  }

  /** Diagonal 0, off-diagonal 1, order 3, in exact arithmetic: given up at 0, and the d[0] stored is no eigenvalue. */
  lemma ZerosAndOnes(ar: Arith, d: seq<real>, e: seq<real>)
    requires Exact(ar) && d == [0.0, 0.0, 0.0] && e == [1.0, 1.0, 0.0]
    ensures var o, ob := Solve(ar, State(d, e, Identity(3)), 0), SolveBounds(ar, State(d, e, [Unit(3, 0)]), 0);
            && o.Stopped? && ob.Stopped? && o.l == ob.l == 0
            && o.st.d[0] == ob.st.d[0] && !IsEigenvalue(Tri(d, e), 3, o.st.d[0])
  {
    hide Solve, SolveBounds;
    var r := ar.hyp(0.0, 1.0);
    assert IsHypotenuse(r, 0.0, 1.0);
    UnitRoot(r);
    assert ShiftValue(ar, d, e, 0, 2) == -1.0;
    assert d[..3] == d && e[..3] == e;
    WrongEigenvalue(ar, d, e, 3);
  }

  lemma UnitRoot(r: real)
    requires r >= 0.0 && r * r == 1.0
    ensures r == 1.0
  {
    assert (r - 1.0) * (r + 1.0) == 0.0;
    ZeroProduct(r - 1.0, r + 1.0);
  }
}
