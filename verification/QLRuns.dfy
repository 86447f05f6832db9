/**
 Whole runs of the QL iteration: what every sweep and every outcome keeps.
 The frame and the trace need nothing of the arithmetic; the similarity, the
 orthonormality and the absence of zero divisors need an exact hypotenuse.
 */
module QLRuns {
  import opened Reals
  import opened LinearAlgebra
  import opened QLSweep
  import opened QLSimilarity

  // ---------- any arithmetic: frame and trace ----------

  /** Below l nothing is left to do: the off-diagonal is zero there, and at the very end. */
  ghost predicate Reduced(e: seq<real>, l: nat) {
    |e| >= 1 && l <= |e| && e[|e| - 1] == 0.0 && forall k :: 0 <= k < l ==> e[k] == 0.0
  }

  ghost function Sum(d: seq<real>, n: nat): real
    requires n <= |d|
  {
    if n == 0 then 0.0 else Sum(d, n - 1) + d[n - 1]
  }

  ghost function Trace(d: seq<real>): real {
    Sum(d, |d|)
  }

  lemma {:induction false} SumUpdate(d: seq<real>, i: nat, x: real, n: nat)
    requires i < |d| && n <= |d|
    ensures Sum(d[i := x], n) == if i < n then Sum(d, n) - d[i] + x else Sum(d, n)
  {
    if n > 0 {
      SumUpdate(d, i, x, n - 1);
    }
  }

  lemma {:induction false} PassesFrame(ar: Arith, st: State, k: Cursor, l: nat, m: nat, i: int)
    requires Shaped(st, |st.d|) && l < m < |st.d| && l - 1 <= i < m
    ensures var end := Passes(ar, st, k, l, i);
            && (forall j :: 0 <= j < |st.d| && (j < l || j > m) ==> end.st.d[j] == st.d[j] && end.st.e[j] == st.e[j])
            && Trace(end.st.d) - end.k.p == Trace(st.d) - k.p
    decreases i - l + 1
  {
    if i >= l && PassRadius(ar, st.e, i, k) != 0.0 {
      var st', k' := PassState(ar, st, i, k), PassCursor(ar, st.d, st.e, i, k);
      SumUpdate(st.d, i + 1, (st.d[i + 1] - k.p) + k'.p, |st.d|);
      PassesFrame(ar, st', k', l, m, i - 1);
    }
  }

  /** A sweep of the block l..m changes nothing outside it, cuts it at m, and keeps the trace. */
  lemma SweepFrame(ar: Arith, st: State, l: nat, m: nat)
    requires Shaped(st, |st.d|) && l < m < |st.d| && Reduced(st.e, l)
    ensures var st' := Sweep(ar, st, l, m);
            && Reduced(st'.e, l) && st'.e[m] == 0.0
            && (forall j :: 0 <= j < |st.d| && (j < l || j > m) ==> st'.d[j] == st.d[j] && st'.e[j] == st.e[j])
            && Trace(st'.d) == Trace(st.d)
  {
    hide Passes, Shift, Sum;
    var end := Passes(ar, st, StartCursor(ar, st.d, st.e, l, m), l, m - 1);
    PassesFrame(ar, st, StartCursor(ar, st.d, st.e, l, m), l, m, m - 1);
    var j := if end.underflow then end.i + 1 else l;
    SumUpdate(end.st.d, j, end.st.d[j] - end.k.p, |st.d|);
  }

  /** Every run, with any arithmetic: the trace is kept, and what is done stays done. */
  lemma {:induction false} IterateFrame(ar: Arith, st: State, l: nat, iteration: nat)
    requires Shaped(st, |st.d|) && l < |st.d| && iteration <= 30 && Reduced(st.e, l)
    ensures var o := Iterate(ar, st, l, iteration);
            && Trace(o.st.d) == Trace(st.d)
            && (forall j :: 0 <= j < l ==> o.st.d[j] == st.d[j])
            && (o.Completed? ==> Reduced(o.st.e, l + 1))
            && (o.Stopped? ==> o.l == l && Reduced(o.st.e, l) && o.st.e[l] != 0.0)
    decreases 30 - iteration
  {
    var m := Split(st.d, st.e, l);
    if m != l && iteration < 30 {
      SweepFrame(ar, st, l, m);
      IterateFrame(ar, Sweep(ar, st, l, m), l, iteration + 1);
    }
  }

  /** The frame of a run from l on: trace kept; all off-diagonals zero, or stopped at a nonzero one. */
  ghost predicate Framed(d: seq<real>, l: nat, o: Outcome) {
    && Shaped(o.st, |d|) && Trace(o.st.d) == Trace(d)
    && (o.Completed? ==> forall j :: 0 <= j < |d| ==> o.st.e[j] == 0.0)
    && (o.Stopped? ==> l <= o.l < |d| && Reduced(o.st.e, o.l) && o.st.e[o.l] != 0.0)
  }

  lemma {:induction false} SolveFrame(ar: Arith, st: State, l: nat)
    requires Shaped(st, |st.d|) && l <= |st.d| && Reduced(st.e, l)
    ensures Framed(st.d, l, Solve(ar, st, l))
    decreases |st.d| - l
  {
    hide Iterate;
    if l < |st.d| {
      IterateFrame(ar, st, l, 0);
      var o := Iterate(ar, st, l, 0);
      if o.Completed? {
        SolveFrame(ar, o.st, l + 1);
      }
    }
  }

  // ---------- exact arithmetic ----------

  lemma RadiusNonzero(f: real, g: real, r: real)
    requires f != 0.0 && IsHypotenuse(r, f, g)
    ensures r != 0.0
  {
    SquareNonzero(f, f * f);
    SquareNonnegative(g, g * g);
  }

  /** A and the rotated rows Z satisfy A * Z == Z * M. */
  ghost predicate Residual(a: Matrix, z: Matrix, m: Matrix, n: nat) {
    IsMatrix(a, |z|, |z|) && IsMatrix(z, |z|, n) && IsMatrix(m, n, n) && Product(a, z, n) == Product(z, m, n)
  }

  /** What the rotations leave of the rows: their dot products, and orthonormality of the columns. */
  ghost predicate SameGeometry(z: Matrix, z': Matrix, n: nat) {
    && IsMatrix(z, |z|, n) && IsMatrix(z', |z|, n)
    && RowGram(z', n) == RowGram(z, n)
    && (OrthonormalColumns(z, n) ==> OrthonormalColumns(z', n))
  }

  /** One pass at a nonzero entry: no underflow, the residual law and the geometry kept. */
  lemma PassRotates(ar: Arith, a: Matrix, st: State, k: Cursor, n: nat, m: nat, i: nat)
    requires Exact(ar) && Shaped(st, n) && i < m < n && k.s != 0.0 && st.e[i] != 0.0
    requires Residual(a, st.rows, Mid(st.d, st.e, m, i, k), n)
    ensures var st', k' := PassState(ar, st, i, k), PassCursor(ar, st.d, st.e, i, k);
            && PassRadius(ar, st.e, i, k) != 0.0 && k'.s != 0.0
            && Residual(a, st'.rows, Mid(st'.d, st'.e, m, i - 1, k'), n)
            && SameGeometry(st.rows, st'.rows, n)
  {
    hide NextCursor, RowGram, OrthonormalColumns, Product, Rotate;
    var f := Times(k.s, st.e[i]);
    var r := PassRadius(ar, st.e, i, k);
    NonzeroProduct(k.s, st.e[i], f);
    RadiusIsHypotenuse(ar, st.e, i, k, f);
    RadiusNonzero(f, k.g, r);
    var k' := PassCursor(ar, st.d, st.e, i, k);
    PassIsRotation(ar, st, n, m, i, k);
    RotationKeepsResidual(a, st.rows, Mid(st.d, st.e, m, i, k), n, i, k'.s, k'.c);
    RotationKeepsRowGram(st.rows, n, i, k'.s, k'.c);
    if OrthonormalColumns(st.rows, n) {
      RotationKeepsOrthonormal(st.rows, n, i, k'.s, k'.c);
    }
  }

  lemma SameGeometryAgain(z: Matrix, z': Matrix, z'': Matrix, n: nat)
    requires SameGeometry(z, z', n) && SameGeometry(z', z'', n)
    ensures SameGeometry(z, z'', n)
  {
  }

  lemma SameGeometryItself(z: Matrix, n: nat)
    requires IsMatrix(z, |z|, n)
    ensures SameGeometry(z, z, n)
  {
  }

  lemma {:induction false} PassesRotate(ar: Arith, a: Matrix, st: State, k: Cursor, n: nat, l: nat, m: nat, i: int)
    requires Exact(ar) && Shaped(st, n) && l < m < n && l - 1 <= i < m
    requires k.s != 0.0 && forall j :: l <= j <= i ==> st.e[j] != 0.0
    requires Residual(a, st.rows, Mid(st.d, st.e, m, i, k), n)
    ensures var end := Passes(ar, st, k, l, i);
            && !end.underflow
            && Residual(a, end.st.rows, Mid(end.st.d, end.st.e, m, l - 1, end.k), n)
            && SameGeometry(st.rows, end.st.rows, n)
    decreases i - l + 1
  {
    hide PassCursor, PassRadius, Residual, SameGeometry, Exact, Mid;
    if i >= l {
      var st', k' := PassState(ar, st, i, k), PassCursor(ar, st.d, st.e, i, k);
      PassRotates(ar, a, st, k, n, m, i);
      PassesRotate(ar, a, st', k', n, l, m, i - 1);
      SameGeometryAgain(st.rows, st'.rows, Passes(ar, st, k, l, i).st.rows, n);
    } else {
      SameGeometryItself(st.rows, n);
    }
  }

  lemma StartIsTri(ar: Arith, st: State, n: nat, l: nat, m: nat)
    requires Shaped(st, n) && l < m < n && st.e[m] == 0.0
    ensures Mid(st.d, st.e, m, m - 1, StartCursor(ar, st.d, st.e, l, m)) == Tri(st.d, st.e)
  {
    MatricesEqual(Mid(st.d, st.e, m, m - 1, StartCursor(ar, st.d, st.e, l, m)), Tri(st.d, st.e), n);
  }

  lemma SettledIsTri(end: SweepEnd, n: nat, l: nat, m: nat)
    requires Shaped(end.st, n) && l < m < n && !end.underflow && end.i == l - 1
    requires l > 0 ==> end.st.e[l - 1] == 0.0
    ensures var st' := Settle(end, l, m);
            Tri(st'.d, st'.e) == Mid(end.st.d, end.st.e, m, l - 1, end.k)
  {
    var st' := Settle(end, l, m);
    MatricesEqual(Tri(st'.d, st'.e), Mid(end.st.d, end.st.e, m, l - 1, end.k), n);
  }

  /** One sweep with exact arithmetic is a similarity: A*Z == Z*T survives it. */
  lemma SweepIsSimilarity(ar: Arith, a: Matrix, st: State, n: nat, l: nat)
    requires Exact(ar) && Shaped(st, n) && l < n && Reduced(st.e, l)
    requires l < Split(st.d, st.e, l)
    requires Residual(a, st.rows, Tri(st.d, st.e), n)
    ensures var m := Split(st.d, st.e, l);
            var st' := Sweep(ar, st, l, m);
            && !Passes(ar, st, StartCursor(ar, st.d, st.e, l, m), l, m - 1).underflow
            && Residual(a, st'.rows, Tri(st'.d, st'.e), n)
            && SameGeometry(st.rows, st'.rows, n)
  {
    hide Passes, Shift, Mid, Tri, Residual, SameGeometry, Trace, Exact;
    var m := Split(st.d, st.e, l);
    var k := StartCursor(ar, st.d, st.e, l, m);
    var end := Passes(ar, st, k, l, m - 1);
    StartIsTri(ar, st, n, l, m);
    PassesRotate(ar, a, st, k, n, l, m, m - 1);
    PassesFrame(ar, st, k, l, m, m - 1);
    SettledIsTri(end, n, l, m);
  }

  lemma {:induction false} IterateIsSimilarity(ar: Arith, a: Matrix, st: State, n: nat, l: nat, iteration: nat)
    requires Exact(ar) && Shaped(st, n) && l < n && Reduced(st.e, l) && iteration <= 30
    requires Residual(a, st.rows, Tri(st.d, st.e), n)
    ensures var o := Iterate(ar, st, l, iteration);
            && Residual(a, o.st.rows, Tri(o.st.d, o.st.e), n)
            && SameGeometry(st.rows, o.st.rows, n)
    decreases 30 - iteration
  {
    var m := Split(st.d, st.e, l);
    if m != l && iteration < 30 {
      SweepIsSimilarity(ar, a, st, n, l);
      SweepFrame(ar, st, l, m);
      IterateIsSimilarity(ar, a, Sweep(ar, st, l, m), n, l, iteration + 1);
    }
  }

  /**
   Every outcome of the iteration, completed or given up: if A*Z == Z*T at the
   start then A*Z' == Z'*T' at the end, and Z' has Z's geometry.
   */
  lemma {:induction false} SolveIsSimilarity(ar: Arith, a: Matrix, st: State, n: nat, l: nat)
    requires Exact(ar) && Shaped(st, n) && l <= n && Reduced(st.e, l)
    requires Residual(a, st.rows, Tri(st.d, st.e), n)
    ensures var o := Solve(ar, st, l);
            && Residual(a, o.st.rows, Tri(o.st.d, o.st.e), n)
            && SameGeometry(st.rows, o.st.rows, n)
    decreases n - l
  {
    hide Iterate;
    if l < n {
      IterateFrame(ar, st, l, 0);
      IterateIsSimilarity(ar, a, st, n, l, 0);
      var o := Iterate(ar, st, l, 0);
      if o.Completed? {
        SolveIsSimilarity(ar, a, o.st, n, l + 1);
      }
    }
  }

  /** No divisor of the shift of an unreduced block is zero; SweepIsSimilarity adds that no radius is. */
  lemma ShiftDivisorsNonzero(ar: Arith, st: State, n: nat, l: nat)
    requires Exact(ar) && Shaped(st, n) && l < n
    requires l < Split(st.d, st.e, l)
    ensures 2.0 * st.e[l] != 0.0
    ensures ShiftDivisor(ar, Quotient(ar, st.d[l + 1] - st.d[l], 2.0 * st.e[l])) != 0.0
  {
    var g := Quotient(ar, st.d[l + 1] - st.d[l], 2.0 * st.e[l]);
    var r := ar.hyp(g, 1.0);
    assert IsHypotenuse(r, g, 1.0);
    SquareNonnegative(g, g * g);
    if r == 0.0 {
      assert r * r == 0.0;
    }
  }
}
