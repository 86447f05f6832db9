/**
 When a sweep splits its block, for blocks of every length: with an exact
 hypotenuse the sweep of an unreduced block leaves e[l] zero exactly when the
 eigenvalue of the leading 2 by 2 block nearer to d[l] is an eigenvalue of the
 whole block. The passes carry, up to a factor, the one vector that solves all
 rows of the shifted block but the first.
 */
module QLDeflation {
  import opened Reals
  import opened LinearAlgebra
  import opened QLSweep
  import opened QLSimilarity
  import opened QLRuns
  import opened QLShift
  import opened QLBlocks

  // ---------- the eigenvalue of the leading 2 by 2 block ----------

  /** x is the eigenvalue of [[d0, a], [a, d1]] nearer to d0, and d0 - a if both are as near. */
  ghost predicate NearEigenvalue(d0: real, d1: real, a: real, x: real) {
    && (d0 - x) * (d1 - x) == a * a
    && Abs(d0 - x) <= Abs(d1 - x)
    && (d0 == d1 ==> x == d0 - a)
  }

  /** Two roots of y * (y + t) == p are equal or add up to -t. */
  lemma TwoRoots(y: real, y': real, t: real)
    requires y * (y + t) == y' * (y' + t)
    ensures y == y' || y + y' == -t
  {
    assert (y - y') * (y + y' + t) == y * (y + t) - y' * (y' + t);
    if y + y' + t != 0.0 {
      ZeroProduct(y - y', y + y' + t);
    }
  }

  lemma NearUnique(d0: real, d1: real, a: real, x: real, x': real)
    requires NearEigenvalue(d0, d1, a, x) && NearEigenvalue(d0, d1, a, x')
    ensures x == x'
  {
    var y, y', t := d0 - x, d0 - x', d1 - d0;
    assert d1 - x == y + t && d1 - x' == y' + t;
    TwoRoots(y, y', t);
  }

  lemma ShiftIsNear(ar: Arith, d: seq<real>, e: seq<real>, l: nat, m: nat)
    requires Exact(ar) && l < m < |d| == |e| && e[l] != 0.0
    ensures NearEigenvalue(d[l], d[l + 1], e[l], ShiftValue(ar, d, e, l, m))
  {
    hide ShiftValue, Exact;
    ShiftIsEigenvalue(ar, d, e, l, m);
  }

  // ---------- the vector that solves all rows but the first ----------

  /** Entry j of the vector that is 1 at m and solves rows j + 1 to m of the block shifted by x. */
  ghost function Tail(d: seq<real>, e: seq<real>, x: real, m: nat, j: nat): real
    requires j <= m + 1 && m < |d| == |e| && forall k :: j <= k < m ==> e[k] != 0.0
    decreases m + 1 - j
  {
    if j == m + 1 then 0.0 else if j == m then 1.0
    else -(Times(d[j + 1] - x, Tail(d, e, x, m, j + 1)) + Times(e[j + 1], Tail(d, e, x, m, j + 2))) / e[j]
  }

  /** What row j lacks when the entries below j are left out. */
  ghost function Lack(d: seq<real>, e: seq<real>, x: real, m: nat, j: nat): real
    requires j <= m < |d| == |e| && forall k :: j <= k < m ==> e[k] != 0.0
  {
    Times(d[j] - x, Tail(d, e, x, m, j)) + Times(e[j], Tail(d, e, x, m, j + 1))
  }

  lemma TailStep(d: seq<real>, e: seq<real>, x: real, m: nat, j: nat)
    requires j < m < |d| == |e| && forall k :: j <= k < m ==> e[k] != 0.0
    ensures Times(e[j], Tail(d, e, x, m, j)) == -Lack(d, e, x, m, j + 1)
  {
    var y := Lack(d, e, x, m, j + 1);
    assert Tail(d, e, x, m, j) == -y / e[j];
    assert e[j] * (-y / e[j]) == -y;
  }

  // ---------- what the passes carry ----------

  /**
   The scalars before the pass at i - 1, against the block as it was: g is s times a number w, the
   shifted diagonal entry at i is c times w, and c and w are the tail entry and the lack at i, both
   times a factor f that is not zero.
   */
  ghost predicate Carries(d: seq<real>, e: seq<real>, x: real, m: nat, i: nat, k: Cursor, w: real, f: real)
    requires i <= m < |d| == |e| && forall j :: i <= j < m ==> e[j] != 0.0
  {
    && k.s != 0.0 && f != 0.0
    && k.g == Times(k.s, w) && d[i] - x - k.p == Times(k.c, w)
    && k.c == Times(f, Tail(d, e, x, m, i)) && w == Times(f, Lack(d, e, x, m, i))
  }

  lemma CarriesStart(ar: Arith, d: seq<real>, e: seq<real>, l: nat, m: nat)
    requires l < m < |d| == |e| && e[m] == 0.0
    ensures var x := ShiftValue(ar, d, e, l, m);
            Carries(d, e, x, m, m, StartCursor(ar, d, e, l, m), d[m] - x, 1.0)
  {
    hide Shift;
  }

  /** The factor of the next pass, on plain numbers: e is the entry at i, (s, c) the old scalars, (s2, c2) the new. */
  lemma FactorStep(s: real, c: real, w: real, e: real, y: real, r: real, c2: real, s2: real, w2: real,
                   f: real, tail: real, lack: real, tail2: real, f2: real)
    requires c == Times(f, tail) && w == Times(f, lack) && Times(e, tail2) == -lack
    requires Times(s2, r) == Times(s, e) && Times(c2, r) == Times(s, w) && w2 == Times(c2, y) - Times(s2, Times(c, e))
    requires r != 0.0 && f2 == -(s * f * e) / r
    ensures c2 == Times(f2, tail2) && w2 == Times(f2, Times(y, tail2) + Times(e, tail))
  {
    assert f2 * r == -(s * f * e);
    FactorCosine(s, w, e, r, c2, f, lack, tail2, f2);
    FactorNumber(s, c, w, e, y, r, c2, s2, w2, f, tail, lack, tail2, f2);
  }

  lemma FactorCosine(s: real, w: real, e: real, r: real, c2: real, f: real, lack: real, tail2: real, f2: real)
    requires w == f * lack && e * tail2 == -lack && c2 * r == s * w && r != 0.0 && f2 * r == -(s * f * e)
    ensures c2 == f2 * tail2
  {
    assert (c2 - f2 * tail2) * r == s * (f * lack) + (s * f) * (e * tail2) == 0.0;
    ZeroProduct(c2 - f2 * tail2, r);
  }

  lemma FactorNumber(s: real, c: real, w: real, e: real, y: real, r: real, c2: real, s2: real, w2: real,
                     f: real, tail: real, lack: real, tail2: real, f2: real)
    requires c == f * tail && w == f * lack && e * tail2 == -lack
    requires s2 * r == s * e && c2 * r == s * w && w2 == c2 * y - s2 * (c * e)
    requires r != 0.0 && f2 * r == -(s * f * e)
    ensures w2 == f2 * (y * tail2 + e * tail)
  {
    var u := f2 * (y * tail2 + e * tail);
    NumberTimesRadius(s, c, w, e, y, r, c2, s2, w2);
    FactorTimesRadius(s, c, w, e, y, r, f, tail, lack, tail2, f2);
    assert (w2 - u) * r == w2 * r - u * r == 0.0;
    ZeroProduct(w2 - u, r);
  }

  lemma NumberTimesRadius(s: real, c: real, w: real, e: real, y: real, r: real, c2: real, s2: real, w2: real)
    requires s2 * r == s * e && c2 * r == s * w && w2 == c2 * y - s2 * (c * e)
    ensures w2 * r == (s * w) * y - (s * e) * (c * e)
  {
    assert (c2 * y) * r == (c2 * r) * y;
    assert (s2 * (c * e)) * r == (s2 * r) * (c * e);
  }

  lemma FactorTimesRadius(s: real, c: real, w: real, e: real, y: real, r: real,
                          f: real, tail: real, lack: real, tail2: real, f2: real)
    requires c == f * tail && w == f * lack && e * tail2 == -lack && f2 * r == -(s * f * e)
    ensures (f2 * (y * tail2 + e * tail)) * r == (s * w) * y - (s * e) * (c * e)
  {
    var k, a := s * f * e, y * tail2 + e * tail;
    assert (f2 * a) * r == (f2 * r) * a == -k * (y * tail2) - k * (e * tail);
    assert k * (y * tail2) == ((s * f) * y) * (e * tail2) == -(((s * f) * y) * lack) == -((s * w) * y);
    assert k * (e * tail) == (s * e) * ((f * tail) * e);
  }

  lemma FactorNonzero(s: real, f: real, e: real, r: real)
    requires s != 0.0 && f != 0.0 && e != 0.0 && r != 0.0
    ensures -(s * f * e) / r != 0.0
  {
    NonzeroProduct(s, f, s * f);
    NonzeroProduct(s * f, e, s * f * e);
    var q := -(s * f * e) / r;
    assert q * r == -(s * f * e);
  }

  /** The pass at i, state st, against the block d, e as it was when the sweep began. */
  lemma CarriesStep(ar: Arith, st: State, d: seq<real>, e: seq<real>, x: real, m: nat, i: nat, k: Cursor, w: real,
                    f: real)
    returns (w': real, f': real)
    requires Exact(ar) && i < m < |d| == |e| == |st.d| == |st.e| && forall j :: i <= j < m ==> e[j] != 0.0
    requires st.d[i] == d[i] && st.d[i + 1] == d[i + 1] && st.e[i] == e[i]
    requires Carries(d, e, x, m, i + 1, k, w, f)
    ensures PassRadius(ar, st.e, i, k) != 0.0
    ensures Carries(d, e, x, m, i, PassCursor(ar, st.d, st.e, i, k), w', f')
  {
    var ff, bb, q := Times(k.s, e[i]), Times(k.c, e[i]), d[i + 1] - k.p;
    var r, k' := PassRadius(ar, st.e, i, k), PassCursor(ar, st.d, st.e, i, k);
    RadiusIsHypotenuse(ar, st.e, i, k, ff);
    TailStep(d, e, x, m, i);
    hide Times, NextCursor, IsHypotenuse, Exact, Tail, PassRadius;
    TimesNonzero(k.s, e[i]);
    RadiusNonzero(ff, k.g, r);
    CursorScalars(ar, d[i], bb, q, ff, k.g, r, k');
    SecondFits(k.s, k.c, e[i], w, k'.s, k'.c, ff, k.g, bb, q - x);
    w' := Times(k'.c, d[i] - x) - Times(k'.s, bb);
    f' := -(k.s * f * e[i]) / r;
    ShiftedPass(ar, d[i], bb, q, ff, k.g, r, k', x, w');
    FactorNonzero(k.s, f, e[i], r);
    FactorStep(k.s, k.c, w, e[i], d[i] - x, r, k'.c, k'.s, w', f, Tail(d, e, x, m, i + 1), Lack(d, e, x, m, i + 1),
               Tail(d, e, x, m, i), f');
  }

  lemma {:induction false} PassesCarry(ar: Arith, st: State, d: seq<real>, e: seq<real>, x: real, l: nat, m: nat,
                                       i: int, k: Cursor, w: real, f: real)
    returns (w': real, f': real)
    requires Exact(ar) && Shaped(st, |st.d|) && l < m < |d| == |e| == |st.d| && l - 1 <= i < m
    requires forall j :: l <= j < m ==> e[j] != 0.0
    requires (forall j :: l <= j <= i + 1 ==> st.d[j] == d[j]) && forall j :: l <= j <= i ==> st.e[j] == e[j]
    requires Carries(d, e, x, m, i + 1, k, w, f)
    ensures !Passes(ar, st, k, l, i).underflow
    ensures Carries(d, e, x, m, l, Passes(ar, st, k, l, i).k, w', f')
    decreases i - l + 1
  {
    hide Carries, PassCursor, PassRadius, Exact;
    if i < l {
      w', f' := w, f;
    } else {
      w', f' := CarriesStep(ar, st, d, e, x, m, i, k, w, f);
      var st', k' := PassState(ar, st, i, k), PassCursor(ar, st.d, st.e, i, k);
      w', f' := PassesCarry(ar, st', d, e, x, l, m, i - 1, k', w', f');
    }
  }

  lemma LastScalar(d: seq<real>, e: seq<real>, x: real, m: nat, l: nat, k: Cursor, w: real, f: real)
    requires l <= m < |d| == |e| && (forall j :: l <= j < m ==> e[j] != 0.0) && Carries(d, e, x, m, l, k, w, f)
    ensures k.g == 0.0 <==> Lack(d, e, x, m, l) == 0.0
  {
    var y := Lack(d, e, x, m, l);
    if y != 0.0 {
      NonzeroProduct(f, y, w);
      NonzeroProduct(k.s, w, k.g);
    }
  }

  /** The sweep leaves e[l] zero exactly when the first row lacks nothing. */
  lemma SweepLacks(ar: Arith, st: State, n: nat, l: nat, m: nat)
    requires Exact(ar) && Shaped(st, n) && l < m < n && Unreduced(st.e, l, m)
    ensures Sweep(ar, st, l, m).e[l] == 0.0 <==> Lack(st.d, st.e, ShiftValue(ar, st.d, st.e, l, m), m, l) == 0.0
  {
    hide Carries, Lack, Shift, Passes, Exact;
    var x, k := ShiftValue(ar, st.d, st.e, l, m), StartCursor(ar, st.d, st.e, l, m);
    CarriesStart(ar, st.d, st.e, l, m);
    var w, f := PassesCarry(ar, st, st.d, st.e, x, l, m, m - 1, k, st.d[m] - x, 1.0);
    LastScalar(st.d, st.e, x, m, l, Passes(ar, st, k, l, m - 1).k, w, f);
  }

  // ---------- the block and its eigenvectors ----------

  /** A dot product with a vector that is zero but for x at j - 1, y at j and z at j + 1. */
  lemma {:induction false} DotToThree(u: Vector, v: Vector, j: nat, n: nat, x: real, y: real, z: real)
    requires j < |u| && |u| == |v| && n <= |u|
    requires (j > 0 ==> u[j - 1] == x) && u[j] == y && (j + 1 < |u| ==> u[j + 1] == z)
    requires forall k :: 0 <= k < |u| && k != j - 1 && k != j && k != j + 1 ==> u[k] == 0.0
    ensures DotTo(u, v, n) == (if 0 < j <= n then x * v[j - 1] else 0.0)
      + (if j < n then y * v[j] else 0.0) + (if j + 1 < n then z * v[j + 1] else 0.0)
  {
    if n > 0 {
      DotToThree(u, v, j, n - 1, x, y, z);
    }
  }

  lemma TriEntries(d: seq<real>, e: seq<real>, r: nat)
    requires |d| == |e| && r < |d|
    ensures |Tri(d, e)| == |d| && |Tri(d, e)[r]| == |d|
    ensures forall k :: 0 <= k < |d| ==>
      Tri(d, e)[r][k] == if k == r then d[r] else if k == r + 1 then e[r] else if k == r - 1 then e[k] else 0.0
  {
  }

  /** Row r of a tridiagonal matrix against v. */
  lemma TriRow(d: seq<real>, e: seq<real>, v: Vector, r: nat)
    requires |d| == |e| == |v| && r < |d|
    ensures Dot(Tri(d, e)[r], v) == (if r > 0 then e[r - 1] * v[r - 1] else 0.0) + d[r] * v[r]
      + (if r + 1 < |d| then e[r] * v[r + 1] else 0.0)
  {
    hide Tri, DotTo;
    TriEntries(d, e, r);
    DotToThree(Tri(d, e)[r], v, r, |v|, if r > 0 then e[r - 1] else 0.0, d[r], e[r]);
  }

  /** Row r of the block l..m against v, shifted by x. */
  ghost function RowLeft(d: seq<real>, e: seq<real>, x: real, l: nat, m: nat, v: Vector, r: nat): real
    requires l <= m < |d| == |e| && |v| == m - l + 1 && r < |v|
  {
    (if r > 0 then Times(e[l + r - 1], v[r - 1]) else 0.0) + Times(d[l + r] - x, v[r])
    + (if r + 1 < |v| then Times(e[l + r], v[r + 1]) else 0.0)
  }

  lemma BlockRow(d: seq<real>, e: seq<real>, x: real, l: nat, m: nat, v: Vector, r: nat)
    requires l <= m < |d| == |e| && |v| == m - l + 1 && r < |v|
    ensures Dot(Tri(d[l..m + 1], e[l..m + 1])[r], v) == x * v[r] <==> RowLeft(d, e, x, l, m, v, r) == 0.0
  {
    hide Dot, Tri;
    TriRow(d[l..m + 1], e[l..m + 1], v, r);
    assert (d[l + r] - x) * v[r] == d[l + r] * v[r] - x * v[r];
  }

  ghost predicate Solves(d: seq<real>, e: seq<real>, x: real, l: nat, m: nat, v: Vector)
    requires l <= m < |d| == |e|
  {
    && |v| == m - l + 1 && (exists k :: 0 <= k < |v| && v[k] != 0.0)
    && forall r :: 0 <= r < |v| ==> RowLeft(d, e, x, l, m, v, r) == 0.0
  }

  lemma SolvesIsEigenvector(d: seq<real>, e: seq<real>, x: real, l: nat, m: nat, v: Vector)
    requires l <= m < |d| == |e|
    ensures Solves(d, e, x, l, m, v) <==> IsEigenvector(Tri(d[l..m + 1], e[l..m + 1]), m - l + 1, x, v)
  {
    hide Dot, Tri, RowLeft;
    if |v| == m - l + 1 {
      forall r | 0 <= r < |v|
        ensures Dot(Tri(d[l..m + 1], e[l..m + 1])[r], v) == x * v[r] <==> RowLeft(d, e, x, l, m, v, r) == 0.0
      {
        BlockRow(d, e, x, l, m, v, r);
      }
    }
  }

  /** The tail from l on, as a vector. */
  ghost function TailVector(d: seq<real>, e: seq<real>, x: real, l: nat, m: nat): (v: Vector)
    requires l <= m < |d| == |e| && forall k :: l <= k < m ==> e[k] != 0.0
    ensures |v| == m - l + 1 && forall r :: 0 <= r < |v| ==> v[r] == Tail(d, e, x, m, l + r)
  {
    seq(m - l + 1, r requires 0 <= r < m - l + 1 => Tail(d, e, x, m, l + r))
  }

  lemma LackAtEnd(d: seq<real>, e: seq<real>, x: real, m: nat, j: nat)
    requires j <= m < |d| == |e| && e[m] == 0.0 && forall k :: j <= k < m ==> e[k] != 0.0
    ensures Lack(d, e, x, m, j) == Times(d[j] - x, Tail(d, e, x, m, j))
      + if j < m then Times(e[j], Tail(d, e, x, m, j + 1)) else 0.0
  {
  }

  /** The tail solves the block when the first row lacks nothing. */
  lemma TailSolves(d: seq<real>, e: seq<real>, x: real, l: nat, m: nat)
    requires Unreduced(e, l, m) && |d| == |e| && Lack(d, e, x, m, l) == 0.0
    ensures Solves(d, e, x, l, m, TailVector(d, e, x, l, m))
  {
    hide Times, Lack;
    var v := TailVector(d, e, x, l, m);
    forall r | 0 <= r < |v| ensures RowLeft(d, e, x, l, m, v, r) == 0.0 {
      LackAtEnd(d, e, x, m, l + r);
      if r > 0 {
        TailStep(d, e, x, m, l + r - 1);
      }
    }
    assert v[m - l] == Tail(d, e, x, m, m) == 1.0;
  }

  lemma NextEntry(e: real, u: real, y: real, v: real, v': real, t: real, tail: real, tail': real, lack: real, b: real)
    requires e != 0.0 && Times(e, u) + Times(y, v) + Times(b, v') == 0.0 && v == Times(t, tail) && v' == Times(t, tail')
    requires lack == Times(y, tail) + Times(b, tail')
    ensures forall z :: Times(e, z) == -lack ==> u == Times(t, z)
  {
    assert y * v + b * v' == t * lack;
    forall z | Times(e, z) == -lack ensures u == Times(t, z) {
      assert (u - t * z) * e == 0.0;
      ZeroProduct(u - t * z, e);
    }
  }

  /** Any solution is its last entry times the tail. */
  lemma {:induction false} SolutionIsTail(d: seq<real>, e: seq<real>, x: real, l: nat, m: nat, v: Vector, r: nat)
    requires Unreduced(e, l, m) && |d| == |e| && |v| == m - l + 1 && r < |v|
    requires forall q :: 0 <= q < |v| ==> RowLeft(d, e, x, l, m, v, q) == 0.0
    ensures v[r] == Times(v[m - l], Tail(d, e, x, m, l + r))
    decreases m - r
  {
    if r < m - l {
      SolutionIsTail(d, e, x, l, m, v, r + 1);
      var t, j := v[m - l], l + r;
      if r + 1 < m - l {
        SolutionIsTail(d, e, x, l, m, v, r + 2);
      }
      LackAtEnd(d, e, x, m, j + 1);
      TailStep(d, e, x, m, j);
      assert RowLeft(d, e, x, l, m, v, r + 1) == 0.0;
      hide Times;
      TimesZeros(t);
      var b := if r + 1 < m - l then e[j + 1] else 0.0;
      var v', tail' := if r + 1 < m - l then v[r + 2] else 0.0, if r + 1 < m - l then Tail(d, e, x, m, j + 2) else 0.0;
      NextEntry(e[j], v[r], d[j + 1] - x, v[r + 1], v', t, Tail(d, e, x, m, j + 1), tail', Lack(d, e, x, m, j + 1), b);
    }
  }

  lemma TimesZeros(t: real)
    ensures Times(t, 0.0) == Times(0.0, 0.0) == 0.0
  {
  }

  lemma ScaledLack(t: real, y: real, tail: real, b: real, tail': real)
    requires t != 0.0 && Times(y, Times(t, tail)) + Times(b, Times(t, tail')) == 0.0
    ensures Times(y, tail) + Times(b, tail') == 0.0
  {
    assert (y * tail + b * tail') * t == 0.0;
    ZeroProduct(y * tail + b * tail', t);
  }

  /** If anything solves the block, the first row lacks nothing. */
  lemma SolvedLacksNothing(d: seq<real>, e: seq<real>, x: real, l: nat, m: nat, v: Vector)
    requires l < m && Unreduced(e, l, m) && |d| == |e| && Solves(d, e, x, l, m, v)
    ensures Lack(d, e, x, m, l) == 0.0
  {
    var t := v[m - l];
    forall r | 0 <= r < |v| ensures v[r] == Times(t, Tail(d, e, x, m, l + r)) {
      SolutionIsTail(d, e, x, l, m, v, r);
    }
    if t == 0.0 {
      forall r | 0 <= r < |v| ensures v[r] == 0.0 {
        assert v[r] == Times(t, Tail(d, e, x, m, l + r));
      }
      assert false;
    }
    assert RowLeft(d, e, x, l, m, v, 0) == 0.0;
    ScaledLack(t, d[l] - x, Tail(d, e, x, m, l), e[l], Tail(d, e, x, m, l + 1));
  }

  /**
   Exact arithmetic, every block length: the sweep of an unreduced block splits off its first row
   exactly when the near eigenvalue of its leading 2 by 2 block is an eigenvalue of all of it.
   */
  lemma SweepSplitsIff(ar: Arith, st: State, n: nat, l: nat, m: nat, x: real)
    requires Exact(ar) && Shaped(st, n) && l < m < n && Unreduced(st.e, l, m)
    requires NearEigenvalue(st.d[l], st.d[l + 1], st.e[l], x)
    ensures Sweep(ar, st, l, m).e[l] == 0.0
      <==> IsEigenvalue(Tri(st.d[l..m + 1], st.e[l..m + 1]), m - l + 1, x)
  {
    hide Sweep, Lack, Solves, IsEigenvector, Exact, NearEigenvalue;
    var t := Tri(st.d[l..m + 1], st.e[l..m + 1]);
    ShiftIsNear(ar, st.d, st.e, l, m);
    NearUnique(st.d[l], st.d[l + 1], st.e[l], x, ShiftValue(ar, st.d, st.e, l, m));
    SweepLacks(ar, st, n, l, m);
    if Lack(st.d, st.e, x, m, l) == 0.0 {
      TailSolves(st.d, st.e, x, l, m);
      SolvesIsEigenvector(st.d, st.e, x, l, m, TailVector(st.d, st.e, x, l, m));
    }
    if IsEigenvalue(t, m - l + 1, x) {
      var v :| IsEigenvector(t, m - l + 1, x, v);
      SolvesIsEigenvector(st.d, st.e, x, l, m, v);
      SolvedLacksNothing(st.d, st.e, x, l, m, v);
    }
  }
}
