/**
 What imtql2 delivers, for every matrix and both exits: eigenpairs in ascending
 order when the outer loop completes, a similarity with exactly the first l
 eigenpairs settled when it gives up at l.
 */
module QLTheorems {
  import opened Sequences
  import opened LinearAlgebra
  import opened QLSweep
  import opened QLSimilarity
  import opened QLRuns
  import opened QLOrder

  lemma {:induction false} DotToPair(u: Vector, v: Vector, j: nat, n: nat)
    requires j < |u| && |u| == |v| && n <= |u|
    requires forall k :: 0 <= k < |v| && k != j && k != j + 1 ==> v[k] == 0.0
    ensures DotTo(u, v, n) ==
      (if j < n then u[j] * v[j] else 0.0) + (if j + 1 < n then u[j + 1] * v[j + 1] else 0.0)
  {
    if n > 0 {
      DotToPair(u, v, j, n - 1);
    }
  }

  /** Column j of Z * T where the entry above the diagonal is zero. */
  lemma TimesTriColumn(z: Matrix, d: seq<real>, e: seq<real>, n: nat, r: nat, j: nat)
    requires IsMatrix(z, |z|, n) && |d| == |e| == n && r < |z| && j < n
    requires j > 0 ==> e[j - 1] == 0.0
    ensures Product(z, Tri(d, e), n)[r][j] == d[j] * z[r][j] + if j + 1 < n then e[j] * z[r][j + 1] else 0.0
  {
    DotToPair(z[r], Col(Tri(d, e), j), j, n);
  }

  lemma ResidualIsEigen(a: Matrix, z: Matrix, d: seq<real>, e: seq<real>, n: nat)
    requires |d| == |e| == n && forall k :: 0 <= k < n ==> e[k] == 0.0
    requires IsMatrix(a, |z|, |z|) && IsMatrix(z, |z|, n)
    ensures Residual(a, z, Tri(d, e), n) <==> EigenColumns(a, z, d, n)
  {
    var p, q := Product(a, z, n), Product(z, Tri(d, e), n);
    forall r, j | 0 <= r < |z| && 0 <= j < n
      ensures q[r][j] == d[j] * z[r][j] && p[r][j] == Dot(a[r], Col(z, j))
    {
      TimesTriColumn(z, d, e, n, r, j);
    }
    if EigenColumns(a, z, d, n) {
      forall r | 0 <= r < |z| ensures p[r] == q[r] {
        forall j | 0 <= j < n ensures p[r][j] == q[r][j] {
        }
      }
    }
  }

  lemma NoZeroColumn(z: Matrix, n: nat, j: nat, x: real)
    requires IsMatrix(z, |z|, n) && j < n && OrthonormalColumns(z, n) && x != 0.0
    ensures exists r :: 0 <= r < |z| && x * z[r][j] != 0.0
  {
    var v := Col(z, j);
    assert Dot(v, v) == 1.0;
    if forall r :: 0 <= r < |z| ==> x * z[r][j] == 0.0 {
      forall r | 0 <= r < |z| ensures v[r] == 0.0 {
        assert x * z[r][j] == 0.0;
      }
      ZeroDot(v, v, |z|);
    }
  }

  /** Entry r of A times column j, one column to the left of which e is zero. */
  lemma ResidualEntryAt(a: Matrix, z: Matrix, d: seq<real>, e: seq<real>, n: nat, r: nat, j: nat)
    requires |d| == |e| == n && r < |z| && j + 1 < n && Residual(a, z, Tri(d, e), n)
    requires j > 0 ==> e[j - 1] == 0.0
    ensures Dot(a[r], Col(z, j)) == d[j] * z[r][j] + e[j] * z[r][j + 1]
  {
    hide Dot, Tri;
    TimesTriColumn(z, d, e, n, r, j);
    ProductEntry(a, z, n, r, j);
  }

  /** Where e[j] is zero as well, column j is an eigenvector; where it is not, the column is none. */
  lemma StoppedColumn(a: Matrix, z: Matrix, d: seq<real>, e: seq<real>, n: nat, j: nat)
    requires |d| == |e| == n && j + 1 < n && Residual(a, z, Tri(d, e), n)
    requires j > 0 ==> e[j - 1] == 0.0
    ensures e[j] == 0.0 ==> EigenColumn(a, z, d[j], n, j)
    ensures e[j] != 0.0 && OrthonormalColumns(z, n) ==> !EigenColumn(a, z, d[j], n, j)
  {
    hide Dot, Tri, OrthonormalColumns;
    forall r | 0 <= r < |z| ensures Dot(a[r], Col(z, j)) == d[j] * z[r][j] + e[j] * z[r][j + 1] {
      ResidualEntryAt(a, z, d, e, n, r, j);
    }
    if e[j] != 0.0 && OrthonormalColumns(z, n) && EigenColumn(a, z, d[j], n, j) {
      NoZeroColumn(z, n, j + 1, e[j]);
      assert false;
    }
  }

  /**
   Given up at l, against the promise that z holds the eigenvectors of the stored
   eigenvalues: the columns below l are eigenvectors, and column l is not.
   */
  lemma StoppedColumns(a: Matrix, z: Matrix, d: seq<real>, e: seq<real>, n: nat, l: nat)
    requires |d| == |e| == n && l + 1 < n && Reduced(e, l) && e[l] != 0.0
    requires Residual(a, z, Tri(d, e), n)
    ensures forall j :: 0 <= j < l ==> EigenColumn(a, z, d[j], n, j)
    ensures OrthonormalColumns(z, n) ==> !EigenColumn(a, z, d[l], n, l)
  {
    hide EigenColumn, OrthonormalColumns, Residual;
    forall j | 0 <= j < l ensures EigenColumn(a, z, d[j], n, j) {
      StoppedColumn(a, z, d, e, n, j);
    }
    StoppedColumn(a, z, d, e, n, l);
  }

  lemma {:induction false} OrderKeepsTrace(st: State, l: nat)
    requires Shaped(st, |st.d|) && 1 <= l
    ensures Trace(Order(st, l).d) == Trace(st.d)
    decreases |st.d| - l
  {
    if l < |st.d| {
      var i, k := l - 1, Least(st.d, l - 1, l);
      SumUpdate(st.d, i, st.d[k], |st.d|);
      SumUpdate(st.d[i := st.d[k]], k, st.d[i], |st.d|);
      OrderKeepsTrace(OrderStep(st, l), l + 1);
    }
  }

  /** The final state of imtql2 on an outcome. */
  function Delivered(o: Outcome): (st: State)
    requires Shaped(o.st, |o.st.d|)
    ensures Shaped(st, |o.st.d|) && |st.rows| == |o.st.rows|
  {
    if o.Stopped? then o.st else Order(o.st, 1)
  }

  /**
   Both exits of imtql2, exact arithmetic, any starting rows Z with A*Z == Z*T:
   completed, every column is an eigenvector of A for its entry of the ascending
   diagonal; given up at l, A*Z == Z*T still holds and precisely the columns
   below l are sure to be eigenvectors. The rows' products, the orthonormality
   of the columns and the trace are those of the start.
   */
  lemma Imtql2Delivers(ar: Arith, a: Matrix, st: State, n: nat)
    requires Exact(ar) && Shaped(st, n) && n >= 1 && Reduced(st.e, 0)
    requires Residual(a, st.rows, Tri(st.d, st.e), n)
    ensures var o := Solve(ar, st, 0);
            var fin := Delivered(o);
            && (o.Completed? ==> EigenColumns(a, fin.rows, fin.d, n) && Ascending(fin.d))
            && (o.Stopped? ==>
                  && o.l + 1 < n
                  && Residual(a, fin.rows, Tri(fin.d, fin.e), n)
                  && (forall j :: 0 <= j < o.l ==> EigenColumn(a, fin.rows, fin.d[j], n, j))
                  && (OrthonormalColumns(st.rows, n) ==> !EigenColumn(a, fin.rows, fin.d[o.l], n, o.l)))
            && SameGeometry(st.rows, fin.rows, n)
            && Trace(fin.d) == Trace(st.d)
  {
    hide Solve;
    var o := Solve(ar, st, 0);
    SolveFrame(ar, st, 0);
    SolveIsSimilarity(ar, a, st, n, 0);
    if o.Completed? {
      ResidualIsEigen(a, o.st.rows, o.st.d, o.st.e, n);
      OrderKeepsEigen(a, o.st, n, 1);
      OrderKeepsGeometry(o.st, n, 1);
      OrderSorts(o.st, 1);
      OrderKeepsTrace(o.st, 1);
    } else {
      StoppedColumns(a, o.st.rows, o.st.d, o.st.e, n, o.l);
    }
  }

  // ---------- starting from the identity ----------

  lemma {:induction false} UnitDotTo(j: nat, v: Vector, n: nat)
    requires n <= |v| && j < |v|
    ensures DotTo(Unit(|v|, j), v, n) == if j < n then v[j] else 0.0
  {
    if n > 0 {
      UnitDotTo(j, v, n - 1);
    }
  }

  lemma IdentityStart(t: Matrix, n: nat)
    requires IsMatrix(t, n, n)
    ensures Residual(t, Identity(n), t, n)
    ensures RowGram(Identity(n), n) == Identity(n)
    ensures OrthonormalColumns(Identity(n), n)
  {
    var id := Identity(n);
    ProductIdentity(t, n);
    forall r | 0 <= r < n ensures Product(id, t, n)[r] == t[r] {
      forall j | 0 <= j < n ensures Product(id, t, n)[r][j] == t[r][j] {
        UnitDotTo(r, Col(t, j), n);
      }
    }
    forall x, y | 0 <= x < n && 0 <= y < n ensures Dot(id[x], id[y]) == id[x][y] {
      UnitDotTo(x, id[y], n);
    }
    forall x | 0 <= x < n ensures RowGram(id, n)[x] == id[x] {
    }
    forall y | 0 <= y < n ensures Col(id, y) == id[y] {
    }
  }

  ghost function Zeros(n: nat): (e: seq<real>)
    ensures |e| == n && forall k :: 0 <= k < n ==> e[k] == 0.0
  {
    seq(n, k => 0.0)
  }

  /**
   The decomposition: started from the identity, imtql2 always delivers Z with
   orthonormal rows and columns such that T == Z * T' * transpose(Z), where T'
   is diagonal and ascending on completion.
   */
  lemma Imtql2Decomposes(ar: Arith, d: seq<real>, e: seq<real>, n: nat)
    requires Exact(ar) && |d| == |e| == n && n >= 1 && Reduced(e, 0)
    ensures var o := Solve(ar, State(d, e, Identity(n)), 0);
            var fin := Delivered(o);
            var t' := if o.Completed? then Tri(fin.d, Zeros(n)) else Tri(fin.d, fin.e);
            && Tri(d, e) == Product(Product(fin.rows, t', n), Transpose(fin.rows, n), n)
            && RowGram(fin.rows, n) == Identity(n) && OrthonormalColumns(fin.rows, n)
            && (o.Completed? ==> Ascending(fin.d))
  {
    hide Solve;
    var st := State(d, e, Identity(n));
    IdentityStart(Tri(d, e), n);
    Imtql2Delivers(ar, Tri(d, e), st, n);
    var o := Solve(ar, st, 0);
    var fin := Delivered(o);
    var t' := if o.Completed? then Tri(fin.d, Zeros(n)) else Tri(fin.d, fin.e);
    if o.Completed? {
      ResidualIsEigen(Tri(d, e), fin.rows, fin.d, Zeros(n), n);
    }
    SimilarityFromResidual(Tri(d, e), fin.rows, t', n);
  }
}
