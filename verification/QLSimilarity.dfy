/**
 Exact arithmetic: every pass of a sweep is a plane rotation of the whole
 matrix, no divisor is ever zero, and so every outcome of the iteration, the
 give-up exit included, is a similarity of the matrix it started from.
 */
module QLSimilarity {
  import opened Reals
  import opened LinearAlgebra
  import opened QLSweep

  // ---------- the matrices ----------

  ghost function TriEntry(d: seq<real>, e: seq<real>, a: nat, b: nat): real
    requires a < |d| == |e| && b < |d|
  {
    if a == b then d[a]
    else if b == a + 1 then e[a]
    else if a == b + 1 then e[b]
    else 0.0
  }

  /** The symmetric tridiagonal matrix with diagonal d and off-diagonal e[0..n-1]. */
  ghost function Tri(d: seq<real>, e: seq<real>): (m: Matrix)
    requires |d| == |e|
    ensures IsMatrix(m, |d|, |d|)
    ensures forall a, b :: 0 <= a < |d| && 0 <= b < |d| ==> m[a][b] == TriEntry(d, e, a, b)
  {
    seq(|d|, a requires 0 <= a < |d| => seq(|d|, b requires 0 <= b < |d| => TriEntry(d, e, a, b)))
  }

  /** Entry (lo, hi), lo <= hi, of the matrix a sweep works on when pass i is next. */
  ghost function MidUpper(d: seq<real>, e: seq<real>, m: nat, i: int, k: Cursor, lo: nat, hi: nat): real
    requires lo <= hi < |d| == |e|
  {
    if hi == lo then (if lo == i + 1 then d[lo] - k.p else d[lo])
    else if hi == lo + 1 then
      (if lo == m then 0.0 else if lo == i then Times(k.c, e[lo]) else if lo == i + 1 then k.g else e[lo])
    else if hi == lo + 2 && lo == i && hi <= m then Times(k.s, e[lo])
    else 0.0
  }

  ghost function MidEntry(d: seq<real>, e: seq<real>, m: nat, i: int, k: Cursor, a: nat, b: nat): real
    requires a < |d| == |e| && b < |d|
  {
    if a <= b then MidUpper(d, e, m, i, k, a, b) else MidUpper(d, e, m, i, k, b, a)
  }

  /** Tridiagonal but for one bulge at (i, i+2): what a sweep holds when pass i is next. */
  ghost function Mid(d: seq<real>, e: seq<real>, m: nat, i: int, k: Cursor): (w: Matrix)
    requires |d| == |e|
    ensures IsMatrix(w, |d|, |d|)
    ensures forall a, b :: 0 <= a < |d| && 0 <= b < |d| ==> w[a][b] == MidEntry(d, e, m, i, k, a, b)
  {
    seq(|d|, a requires 0 <= a < |d| => seq(|d|, b requires 0 <= b < |d| => MidEntry(d, e, m, i, k, a, b)))
  }

  lemma MatricesEqual(a: Matrix, b: Matrix, n: nat)
    requires IsMatrix(a, n, n) && IsMatrix(b, n, n)
    requires forall x, y :: 0 <= x < n && 0 <= y < n ==> a[x][y] == b[x][y]
    ensures a == b
  {
    forall x | 0 <= x < n ensures a[x] == b[x] {
    }
  }

  // ---------- one pass is one rotation ----------

  lemma SquareOfQuotient(f: real, r: real, s: real)
    requires r != 0.0 && s == f / r
    ensures f * f == (s * s) * (r * r)
  {
    assert f == s * r;
  }

  lemma OneFromScaled(ss: real, cc: real, rr: real, ff: real, gg: real)
    requires rr == ff + gg && ff == ss * rr && gg == cc * rr && rr > 0.0
    ensures ss + cc == 1.0
  {
    assert (ss + cc - 1.0) * rr == ss * rr + cc * rr - rr;
    ZeroProduct(ss + cc - 1.0, rr);
  }

  lemma UnitFromQuotients(f: real, g: real, s: real, c: real, r: real)
    requires r != 0.0 && r * r == f * f + g * g && s == f / r && c == g / r
    ensures s * s + c * c == 1.0
  {
    var rr := r * r;
    SquareNonzero(r, rr);
    SquareOfQuotient(f, r, s);
    SquareOfQuotient(g, r, c);
    OneFromScaled(s * s, c * c, rr, f * f, g * g);
  }

  lemma RotationScalars(f: real, g: real, r: real, s: real, c: real)
    requires r != 0.0 && r * r == f * f + g * g
    requires s == f / r && c == g / r
    ensures s * s + c * c == 1.0
    ensures s * f + c * g == r
    ensures c * f - s * g == 0.0
    ensures f != 0.0 ==> s != 0.0
  {
    UnitFromQuotients(f, g, s, c, r);
    assert f == s * r && g == c * r;
    assert s * (s * r) + c * (c * r) == (s * s + c * c) * r;
    assert c * (s * r) == s * (c * r);
  }

  /** The block [[x, b], [b, q]], its columns already rotated to u00, u01, u10, u11, with its rows rotated too. */
  ghost predicate BlockFacts(u00: real, u01: real, u10: real, u11: real,
                             x: real, q: real, s: real, c: real, p: real, g: real)
  {
    && c * u00 - s * u10 == x - p
    && s * u01 + c * u11 == q + p
    && c * u01 - s * u11 == g
    && s * u00 + c * u10 == g
  }

  lemma RotatedLow(x: real, b: real, q: real, s: real, c: real, t: real, u00: real, u10: real)
    requires s * s + c * c == 1.0 && t == (x - q) * s + 2.0 * c * b
    requires u00 == c * x - s * b && u10 == c * b - s * q
    ensures c * u00 - s * u10 == x - s * t
  {
    calc {
      c * u00 - s * u10;
      c * (c * x - s * b) - s * (c * b - s * q);
      c * c * x - 2.0 * s * c * b + s * s * q;
      { assert c * c == 1.0 - s * s; }
      (1.0 - s * s) * x - 2.0 * s * c * b + s * s * q;
      x - s * ((x - q) * s + 2.0 * c * b);
      x - s * t;
    }
  }

  lemma RotatedHigh(x: real, b: real, q: real, s: real, c: real, t: real, u01: real, u11: real)
    requires s * s + c * c == 1.0 && t == (x - q) * s + 2.0 * c * b
    requires u01 == s * x + c * b && u11 == s * b + c * q
    ensures s * u01 + c * u11 == q + s * t
  {
    calc {
      s * u01 + c * u11;
      s * (s * x + c * b) + c * (s * b + c * q);
      s * s * x + 2.0 * s * c * b + c * c * q;
      { assert c * c == 1.0 - s * s; }
      s * s * x + 2.0 * s * c * b + (1.0 - s * s) * q;
      q + s * ((x - q) * s + 2.0 * c * b);
      q + s * t;
    }
  }

  lemma RotatedUpper(x: real, b: real, q: real, s: real, c: real, t: real, u01: real, u11: real)
    requires s * s + c * c == 1.0 && t == (x - q) * s + 2.0 * c * b
    requires u01 == s * x + c * b && u11 == s * b + c * q
    ensures c * u01 - s * u11 == c * t - b
  {
    calc {
      c * u01 - s * u11;
      c * (s * x + c * b) - s * (s * b + c * q);
      c * s * x + c * c * b - s * s * b - c * s * q;
      { assert s * s == 1.0 - c * c; }
      c * s * x + c * c * b - (1.0 - c * c) * b - c * s * q;
      c * ((x - q) * s + 2.0 * c * b) - b;
      c * t - b;
    }
  }

  lemma RotatedLower(x: real, b: real, q: real, s: real, c: real, t: real, u00: real, u10: real)
    requires s * s + c * c == 1.0 && t == (x - q) * s + 2.0 * c * b
    requires u00 == c * x - s * b && u10 == c * b - s * q
    ensures s * u00 + c * u10 == c * t - b
  {
    calc {
      s * u00 + c * u10;
      s * (c * x - s * b) + c * (c * b - s * q);
      c * s * x - s * s * b + c * c * b - c * s * q;
      { assert s * s == 1.0 - c * c; }
      c * s * x - (1.0 - c * c) * b + c * c * b - c * s * q;
      c * ((x - q) * s + 2.0 * c * b) - b;
      c * t - b;
    }
  }

  lemma RotatedBlock(x: real, b: real, q: real, s: real, c: real, t: real,
                     u00: real, u01: real, u10: real, u11: real, p: real, g: real)
    requires s * s + c * c == 1.0 && p == s * t && g == c * t - b
    requires t == (x - q) * s + 2.0 * c * b
    requires u00 == c * x - s * b && u01 == s * x + c * b
    requires u10 == c * b - s * q && u11 == s * b + c * q
    ensures BlockFacts(u00, u01, u10, u11, x, q, s, c, p, g)
  {
    RotatedLow(x, b, q, s, c, t, u00, u10);
    RotatedHigh(x, b, q, s, c, t, u01, u11);
    RotatedUpper(x, b, q, s, c, t, u01, u11);
    RotatedLower(x, b, q, s, c, t, u00, u10);
  }

  /** The entries of a conjugated matrix, its columns rotated first. */
  lemma ConjugateEntry(m: Matrix, n: nat, i: nat, s: real, c: real, a: nat, b: nat)
    requires IsMatrix(m, n, n) && i + 1 < n && a < n && b < n
    ensures Conjugate(m, n, i, s, c)[a][b] ==
      var w := RotateColumns(m, i, s, c);
      if a == i then c * w[i][b] - s * w[i + 1][b]
      else if a == i + 1 then s * w[i][b] + c * w[i + 1][b]
      else w[a][b]
  {
  }

  lemma RotateColumnsEntry(m: Matrix, n: nat, i: nat, s: real, c: real, a: nat, b: nat)
    requires IsMatrix(m, n, n) && i + 1 < n && a < n && b < n
    ensures RotateColumns(m, i, s, c)[a][b] ==
      if b == i then c * m[a][i] - s * m[a][i + 1]
      else if b == i + 1 then s * m[a][i] + c * m[a][i + 1]
      else m[a][b]
  {
  }

  lemma CursorEnds(ar: Arith, x: real, b: real, q: real, f: real, g: real, r: real, k': Cursor, t: real)
    requires k' == NextCursor(ar, x, b, q, f, g, r) && t == (x - q) * k'.s + 2.0 * k'.c * b
    ensures k'.p == k'.s * t && k'.g == k'.c * t - b
  {
  }

  lemma CursorRotation(ar: Arith, x: real, b: real, q: real, f: real, g: real, r: real, k': Cursor)
    requires r != 0.0 && IsHypotenuse(r, f, g) && k' == NextCursor(ar, x, b, q, f, g, r)
    ensures k'.s * k'.s + k'.c * k'.c == 1.0
    ensures k'.s * f + k'.c * g == r && k'.c * f - k'.s * g == 0.0
    ensures f != 0.0 ==> k'.s != 0.0
  {
    RotationScalars(f, g, r, k'.s, k'.c);
  }

  /** The block of one pass, its columns rotated to u00, u01, u10, u11. */
  lemma NextCursorBlock(ar: Arith, x: real, b: real, q: real, f: real, g: real, r: real, k': Cursor, s: real, c: real,
                        u00: real, u01: real, u10: real, u11: real)
    requires k' == NextCursor(ar, x, b, q, f, g, r) && s == k'.s && c == k'.c && s * s + c * c == 1.0
    requires u00 == c * x - s * b && u01 == s * x + c * b
    requires u10 == c * b - s * q && u11 == s * b + c * q
    ensures BlockFacts(u00, u01, u10, u11, x, q, s, c, k'.p, k'.g)
  {
    hide NextCursor, BlockFacts;
    var t := (x - q) * s + 2.0 * c * b;
    CursorEnds(ar, x, b, q, f, g, r, k', t);
    RotatedBlock(x, b, q, s, c, t, u00, u01, u10, u11, k'.p, k'.g);
  }

  /** One pass, in scalars: a unit rotation that maps (f, g) to (r, 0) and the block to its new entries. */
  lemma NextCursorRotates(ar: Arith, x: real, b: real, q: real, f: real, g: real, r: real, k': Cursor,
                          u00: real, u01: real, u10: real, u11: real)
    requires r != 0.0 && IsHypotenuse(r, f, g) && k' == NextCursor(ar, x, b, q, f, g, r)
    requires u00 == k'.c * x - k'.s * b && u01 == k'.s * x + k'.c * b
    requires u10 == k'.c * b - k'.s * q && u11 == k'.s * b + k'.c * q
    ensures k'.s * k'.s + k'.c * k'.c == 1.0
    ensures k'.s * f + k'.c * g == r && k'.c * f - k'.s * g == 0.0
    ensures f != 0.0 ==> k'.s != 0.0
    ensures BlockFacts(u00, u01, u10, u11, x, q, k'.s, k'.c, k'.p, k'.g)
  {
    hide NextCursor, BlockFacts, IsHypotenuse;
    CursorRotation(ar, x, b, q, f, g, r, k');
    NextCursorBlock(ar, x, b, q, f, g, r, k', k'.s, k'.c, u00, u01, u10, u11);
  }

  lemma OffBlockEntry(st: State, st': State, n: nat, m: nat, i: nat, k: Cursor, k': Cursor, f: real, y: nat)
    requires Shaped(st, n) && Shaped(st', n) && i < m < n && y < n && y != i && y != i + 1
    requires f == Times(k.s, st.e[i])
    requires k'.s * f + k'.c * k.g == st'.e[i + 1]
    requires k'.c * f - k'.s * k.g == 0.0
    requires st'.e == st.e[i + 1 := st'.e[i + 1]]
    ensures var w, w' := Mid(st.d, st.e, m, i, k), Mid(st'.d, st'.e, m, i - 1, k');
            && w'[i][y] == w'[y][i] == k'.c * w[i][y] - k'.s * w[i + 1][y]
            && w'[i + 1][y] == w'[y][i + 1] == k'.s * w[i][y] + k'.c * w[i + 1][y]
  {
    var w, w' := Mid(st.d, st.e, m, i, k), Mid(st'.d, st'.e, m, i - 1, k');
    if y == i + 2 && y <= m {
      assert w[i][y] == f && w[i + 1][y] == k.g;
      assert w'[i][y] == w'[y][i] == 0.0 && w'[i + 1][y] == w'[y][i + 1] == st'.e[i + 1];
    } else if y + 1 == i {
      assert w[i][y] == st.e[y] && w[i + 1][y] == 0.0;
      assert w'[i][y] == w'[y][i] == k'.c * st.e[y] && w'[i + 1][y] == w'[y][i + 1] == k'.s * st.e[y];
    } else {
      assert w[i][y] == 0.0 && w[i + 1][y] == 0.0;
      assert w'[i][y] == w'[y][i] == 0.0 && w'[i + 1][y] == w'[y][i + 1] == 0.0;
    }
  }

  /** The four block entries of the matrix before and after a pass, in the arrays' terms. */
  lemma BlockEntries(st: State, st': State, n: nat, m: nat, i: nat, k: Cursor, k': Cursor)
    requires Shaped(st, n) && Shaped(st', n) && i < m < n
    requires st'.d == st.d[i + 1 := (st.d[i + 1] - k.p) + k'.p]
    ensures var w, w' := Mid(st.d, st.e, m, i, k), Mid(st'.d, st'.e, m, i - 1, k');
            && w[i][i] == st.d[i] && w[i + 1][i + 1] == st.d[i + 1] - k.p
            && w[i][i + 1] == w[i + 1][i] == Times(k.c, st.e[i])
            && w'[i][i] == st.d[i] - k'.p && w'[i + 1][i + 1] == st.d[i + 1] - k.p + k'.p
            && w'[i][i + 1] == k'.g && w'[i + 1][i] == k'.g
  {
  }

  lemma OffBlockMatches(m: Matrix, w: Matrix, n: nat, i: nat, s: real, c: real, y: nat)
    requires IsMatrix(m, n, n) && IsMatrix(w, n, n) && i + 1 < n && y < n && y != i && y != i + 1
    requires w[i][y] == w[y][i] == c * m[i][y] - s * m[i + 1][y]
    requires w[i + 1][y] == w[y][i + 1] == s * m[i][y] + c * m[i + 1][y]
    requires m[i][y] == m[y][i] && m[i + 1][y] == m[y][i + 1]
    ensures var v := Conjugate(m, n, i, s, c);
            w[i][y] == v[i][y] && w[i + 1][y] == v[i + 1][y] && w[y][i] == v[y][i] && w[y][i + 1] == v[y][i + 1]
  {
    ConjugateEntry(m, n, i, s, c, i, y);
    ConjugateEntry(m, n, i, s, c, i + 1, y);
    ConjugateEntry(m, n, i, s, c, y, i);
    ConjugateEntry(m, n, i, s, c, y, i + 1);
    RotateColumnsEntry(m, n, i, s, c, i, y);
    RotateColumnsEntry(m, n, i, s, c, i + 1, y);
    RotateColumnsEntry(m, n, i, s, c, y, i);
    RotateColumnsEntry(m, n, i, s, c, y, i + 1);
  }

  lemma BlockMatches(st: State, st': State, n: nat, m: nat, i: nat, k: Cursor, k': Cursor)
    requires Shaped(st, n) && Shaped(st', n) && i < m < n
    requires st'.d == st.d[i + 1 := (st.d[i + 1] - k.p) + k'.p]
    requires var u := RotateColumns(Mid(st.d, st.e, m, i, k), i, k'.s, k'.c);
             BlockFacts(u[i][i], u[i][i + 1], u[i + 1][i], u[i + 1][i + 1],
                        st.d[i], st.d[i + 1] - k.p, k'.s, k'.c, k'.p, k'.g)
    ensures var w, v := Mid(st'.d, st'.e, m, i - 1, k'), Conjugate(Mid(st.d, st.e, m, i, k), n, i, k'.s, k'.c);
            && w[i][i] == v[i][i] && w[i][i + 1] == v[i][i + 1]
            && w[i + 1][i] == v[i + 1][i] && w[i + 1][i + 1] == v[i + 1][i + 1]
  {
    var before := Mid(st.d, st.e, m, i, k);
    BlockEntries(st, st', n, m, i, k, k');
    ConjugateEntry(before, n, i, k'.s, k'.c, i, i);
    ConjugateEntry(before, n, i, k'.s, k'.c, i, i + 1);
    ConjugateEntry(before, n, i, k'.s, k'.c, i + 1, i);
    ConjugateEntry(before, n, i, k'.s, k'.c, i + 1, i + 1);
  }

  lemma BlockColumns(st: State, n: nat, m: nat, i: nat, k: Cursor, s: real, c: real, x: real, b: real, q: real)
    requires Shaped(st, n) && i < m < n
    requires x == st.d[i] && b == Times(k.c, st.e[i]) && q == st.d[i + 1] - k.p
    ensures var u := RotateColumns(Mid(st.d, st.e, m, i, k), i, s, c);
            && u[i][i] == c * x - s * b && u[i][i + 1] == s * x + c * b
            && u[i + 1][i] == c * b - s * q && u[i + 1][i + 1] == s * b + c * q
  {
    var before := Mid(st.d, st.e, m, i, k);
    BlockEntries(st, st.(d := st.d[i + 1 := q + k.p]), n, m, i, k, k);
    RotateColumnsEntry(before, n, i, s, c, i, i);
    RotateColumnsEntry(before, n, i, s, c, i, i + 1);
    RotateColumnsEntry(before, n, i, s, c, i + 1, i);
    RotateColumnsEntry(before, n, i, s, c, i + 1, i + 1);
  }

  lemma RadiusIsHypotenuse(ar: Arith, e: seq<real>, i: nat, k: Cursor, f: real)
    requires Exact(ar) && i < |e| && f == Times(k.s, e[i])
    ensures IsHypotenuse(PassRadius(ar, e, i, k), f, k.g)
  {
  }

  lemma PassFacts(ar: Arith, st: State, n: nat, m: nat, i: nat, k: Cursor,
                  f: real, b: real, q: real, r: real, k': Cursor)
    requires Shaped(st, n) && i < m < n
    requires f == Times(k.s, st.e[i]) && b == Times(k.c, st.e[i]) && q == st.d[i + 1] - k.p
    requires IsHypotenuse(r, f, k.g) && r != 0.0 && k' == NextCursor(ar, st.d[i], b, q, f, k.g, r)
    ensures var u := RotateColumns(Mid(st.d, st.e, m, i, k), i, k'.s, k'.c);
            && k'.s * k'.s + k'.c * k'.c == 1.0
            && (f != 0.0 ==> k'.s != 0.0)
            && k'.s * f + k'.c * k.g == r
            && k'.c * f - k'.s * k.g == 0.0
            && BlockFacts(u[i][i], u[i][i + 1], u[i + 1][i], u[i + 1][i + 1], st.d[i], q, k'.s, k'.c, k'.p, k'.g)
  {
    hide MidEntry, MidUpper, BlockFacts, Rotate, Low, High, NextCursor, Times;
    var u := RotateColumns(Mid(st.d, st.e, m, i, k), i, k'.s, k'.c);
    BlockColumns(st, n, m, i, k, k'.s, k'.c, st.d[i], b, q);
    NextCursorRotates(ar, st.d[i], b, q, f, k.g, r, k', u[i][i], u[i][i + 1], u[i + 1][i], u[i + 1][i + 1]);
  }

  /** The pass at i, r not zero, applies the plane rotation (s, c) at (i, i+1) to the whole matrix. */
  lemma PassIsRotation(ar: Arith, st: State, n: nat, m: nat, i: nat, k: Cursor)
    requires Exact(ar) && Shaped(st, n)
    requires i < m < n && PassRadius(ar, st.e, i, k) != 0.0
    ensures var k' := PassCursor(ar, st.d, st.e, i, k);
            var st' := PassState(ar, st, i, k);
            && k'.s * k'.s + k'.c * k'.c == 1.0
            && (Times(k.s, st.e[i]) != 0.0 ==> k'.s != 0.0)
            && Mid(st'.d, st'.e, m, i - 1, k') == Conjugate(Mid(st.d, st.e, m, i, k), n, i, k'.s, k'.c)
  {
    var f, r := Times(k.s, st.e[i]), PassRadius(ar, st.e, i, k);
    RadiusIsHypotenuse(ar, st.e, i, k, f);
    PassCore(ar, st, PassState(ar, st, i, k), n, m, i, k, f, Times(k.c, st.e[i]), st.d[i + 1] - k.p, r,
             PassCursor(ar, st.d, st.e, i, k));
  }

  lemma PassCore(ar: Arith, st: State, st': State, n: nat, m: nat, i: nat, k: Cursor,
                 f: real, b: real, q: real, r: real, k': Cursor)
    requires Shaped(st, n) && Shaped(st', n) && i < m < n
    requires f == Times(k.s, st.e[i]) && b == Times(k.c, st.e[i]) && q == st.d[i + 1] - k.p
    requires IsHypotenuse(r, f, k.g) && r != 0.0 && k' == NextCursor(ar, st.d[i], b, q, f, k.g, r)
    requires st'.d == st.d[i + 1 := q + k'.p] && st'.e == st.e[i + 1 := r]
    ensures k'.s * k'.s + k'.c * k'.c == 1.0
    ensures f != 0.0 ==> k'.s != 0.0
    ensures Mid(st'.d, st'.e, m, i - 1, k') == Conjugate(Mid(st.d, st.e, m, i, k), n, i, k'.s, k'.c)
  {
    PassFacts(ar, st, n, m, i, k, f, b, q, r, k');
    PassEntries(st, st', n, m, i, k, f, k');
  }

  lemma OffBlockRotated(st: State, st': State, n: nat, m: nat, i: nat, k: Cursor, k': Cursor, f: real, y: nat)
    requires Shaped(st, n) && Shaped(st', n) && i < m < n && y < n && y != i && y != i + 1
    requires f == Times(k.s, st.e[i])
    requires k'.s * f + k'.c * k.g == st'.e[i + 1]
    requires k'.c * f - k'.s * k.g == 0.0
    requires st'.e == st.e[i + 1 := st'.e[i + 1]]
    ensures var w, v := Mid(st'.d, st'.e, m, i - 1, k'), Conjugate(Mid(st.d, st.e, m, i, k), n, i, k'.s, k'.c);
            w[i][y] == v[i][y] && w[i + 1][y] == v[i + 1][y] && w[y][i] == v[y][i] && w[y][i + 1] == v[y][i + 1]
  {
    OffBlockEntry(st, st', n, m, i, k, k', f, y);
    OffBlockMatches(Mid(st.d, st.e, m, i, k), Mid(st'.d, st'.e, m, i - 1, k'), n, i, k'.s, k'.c, y);
  }

  lemma PassEntries(st: State, st': State, n: nat, m: nat, i: nat, k: Cursor, f: real, k': Cursor)
    requires Shaped(st, n) && Shaped(st', n) && i < m < n
    requires st'.d == st.d[i + 1 := (st.d[i + 1] - k.p) + k'.p]
    requires st'.e == st.e[i + 1 := st'.e[i + 1]]
    requires f == Times(k.s, st.e[i])
    requires k'.s * f + k'.c * k.g == st'.e[i + 1]
    requires k'.c * f - k'.s * k.g == 0.0
    requires var u := RotateColumns(Mid(st.d, st.e, m, i, k), i, k'.s, k'.c);
             BlockFacts(u[i][i], u[i][i + 1], u[i + 1][i], u[i + 1][i + 1],
                        st.d[i], st.d[i + 1] - k.p, k'.s, k'.c, k'.p, k'.g)
    ensures Mid(st'.d, st'.e, m, i - 1, k') == Conjugate(Mid(st.d, st.e, m, i, k), n, i, k'.s, k'.c)
  {
    var w, v := Mid(st'.d, st'.e, m, i - 1, k'), Conjugate(Mid(st.d, st.e, m, i, k), n, i, k'.s, k'.c);
    BlockMatches(st, st', n, m, i, k, k');
    forall y | 0 <= y < n && y != i && y != i + 1
      ensures w[i][y] == v[i][y] && w[i + 1][y] == v[i + 1][y] && w[y][i] == v[y][i] && w[y][i + 1] == v[y][i + 1]
    {
      OffBlockRotated(st, st', n, m, i, k, k', f, y);
    }
    forall x, y | 0 <= x < n && 0 <= y < n && x != i && x != i + 1 && y != i && y != i + 1
      ensures w[x][y] == v[x][y]
    {
      FarEntry(st, st', n, m, i, k, k', x, y);
    }
    MatricesEqual(w, v, n);
  }

  lemma FarEntry(st: State, st': State, n: nat, m: nat, i: nat, k: Cursor, k': Cursor, x: nat, y: nat)
    requires Shaped(st, n) && Shaped(st', n) && i < m < n && x < n && y < n
    requires x != i && x != i + 1 && y != i && y != i + 1
    requires st'.d == st.d[i + 1 := st'.d[i + 1]] && st'.e == st.e[i + 1 := st'.e[i + 1]]
    ensures Mid(st'.d, st'.e, m, i - 1, k')[x][y] == Conjugate(Mid(st.d, st.e, m, i, k), n, i, k'.s, k'.c)[x][y]
  {
    ConjugateEntry(Mid(st.d, st.e, m, i, k), n, i, k'.s, k'.c, x, y);
    RotateColumnsEntry(Mid(st.d, st.e, m, i, k), n, i, k'.s, k'.c, x, y);
  }
}
