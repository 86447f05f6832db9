/**
 Products with a sparse matrix, against the dense matrix whose cells add up
 the values stored for them.
 */
module SparseProducts {
  import opened Reals
  import opened LinearAlgebra
  import opened SparseValues

  ghost function Total(vs: seq<real>): real {
    if vs == [] then 0.0 else Total(vs[..|vs| - 1]) + vs[|vs| - 1]
  }

  /** Sum of value times x at its key, in the order stored. */
  ghost function Weighted(es: seq<Entry>, x: Vector): real
    requires KeysWithin(es, |x|)
  {
    if es == [] then 0.0
    else
      var e := es[|es| - 1];
      Weighted(es[..|es| - 1], x) + Times(e.1, x[e.0])
  }

  /** The total stored under every key below n. */
  ghost function Totals(es: seq<Entry>, n: nat): (v: Vector)
    ensures |v| == n && forall k :: 0 <= k < n ==> v[k] == Total(Picks(es, k))
  {
    seq(n, k => Total(Picks(es, k)))
  }

  lemma {:induction false} DotToChange(u: Vector, u': Vector, x: Vector, k: nat, n: nat)
    requires |u| == |u'| == |x| && k < |u| && n <= |u|
    requires forall j :: 0 <= j < |u| && j != k ==> u'[j] == u[j]
    ensures DotTo(u', x, n) == if k < n then DotTo(u, x, n) + (u'[k] - u[k]) * x[k] else DotTo(u, x, n)
  {
    if n > 0 {
      DotToChange(u, u', x, k, n - 1);
      if n == k + 1 {
        assert u'[k] * x[k] == u[k] * x[k] + (u'[k] - u[k]) * x[k];
      }
    }
  }

  lemma TotalAppend(vs: seq<real>, v: real)
    ensures Total(vs + [v]) == Total(vs) + v && Total(vs + []) == Total(vs)
  {
    assert (vs + [v])[..|vs|] == vs && vs + [] == vs;
  }

  lemma TotalsAppend(es: seq<Entry>, e: Entry, n: nat, k: nat)
    requires k < n
    ensures Totals(es + [e], n)[k] == Totals(es, n)[k] + if e.0 == k then e.1 else 0.0
  {
    PicksAppend(es, e, k);
    TotalAppend(Picks(es, k), e.1);
  }

  lemma {:induction false} ZeroTotals(n: nat, x: Vector, m: nat)
    requires |x| == n && m <= n
    ensures DotTo(Totals([], n), x, m) == 0.0
  {
    if m > 0 {
      ZeroTotals(n, x, m - 1);
      assert Totals([], n)[m - 1] == 0.0;
    }
  }

  lemma {:induction false} WeightedDense(es: seq<Entry>, x: Vector)
    requires KeysWithin(es, |x|)
    ensures Weighted(es, x) == Dot(Totals(es, |x|), x)
  {
    if es == [] {
      ZeroTotals(|x|, x, |x|);
    } else {
      hide Times, Dot, Totals;
      var es', e := es[..|es| - 1], es[|es| - 1];
      WeightedDense(es', x);
      assert es == es' + [e];
      forall k | 0 <= k < |x| ensures Totals(es, |x|)[k] == Totals(es', |x|)[k] + if e.0 == k then e.1 else 0.0 {
        TotalsAppend(es', e, |x|, k);
      }
      TotalsChange(Totals(es', |x|), Totals(es, |x|), x, e.0, e.1);
    }
  }

  lemma TotalsChange(u: Vector, u': Vector, x: Vector, k: nat, v: real)
    requires |u| == |u'| == |x| && k < |u|
    requires forall j :: 0 <= j < |u| ==> u'[j] == u[j] + if j == k then v else 0.0
    ensures Dot(u', x) == Dot(u, x) + Times(v, x[k])
  {
    DotToChange(u, u', x, k, |u|);
    assert u'[k] - u[k] == v;
  }

  /** The dense matrix of s, duplicates of a cell added up. */
  ghost function Additive(s: Sparse): (m: Matrix)
    requires WellFormed(s)
    ensures IsMatrix(m, s.rows, s.cols)
    ensures forall r, c :: 0 <= r < s.rows && 0 <= c < s.cols ==> m[r][c] == Total(Picks(Column(s, c), r))
  {
    seq(s.rows, r requires 0 <= r < s.rows =>
      seq(s.cols, c requires 0 <= c < s.cols => Total(Picks(Column(s, c), r))))
  }

  /** svd_opa's result at row r: the row's entries against x. */
  lemma RowIsDense(s: Sparse, x: Vector, r: nat)
    requires WellFormed(s) && |x| == s.cols && r < s.rows
    ensures KeysWithin(Row(s, r), s.cols)
    ensures Weighted(Row(s, r), x) == Dot(Additive(s)[r], x)
  {
    RowSorted(s, r, |s.value|);
    WeightedDense(Row(s, r), x);
    var u := Totals(Row(s, r), s.cols);
    forall c | 0 <= c < s.cols ensures u[c] == Additive(s)[r][c] {
      CellBothWays(s, r, c, |s.value|);
    }
    assert u == Additive(s)[r];
  }

  /** svd_opb's second half at column c: the column's entries against t. */
  lemma ColumnIsDense(s: Sparse, t: Vector, c: nat)
    requires WellFormed(s) && |t| == s.rows && c < s.cols
    ensures KeysWithin(Column(s, c), s.rows)
    ensures Weighted(Column(s, c), t) == Dot(Col(Additive(s), c), t)
  {
    ColumnWithin(s, c, |s.value|);
    WeightedDense(Column(s, c), t);
    assert Totals(Column(s, c), s.rows) == Col(Additive(s), c);
  }

  /** What svd_opa and svd_opb compute. */
  ghost function Opa(s: Sparse, x: Vector): (y: Vector)
    requires WellFormed(s) && |x| == s.cols
    ensures |y| == s.rows
  {
    Apply(Additive(s), s.cols, x)
  }

  ghost function Opb(s: Sparse, x: Vector): (y: Vector)
    requires WellFormed(s) && |x| == s.cols
    ensures |y| == s.cols
  {
    Apply(Transpose(Additive(s), s.cols), s.rows, Opa(s, x))
  }

  lemma TransposeAdditive(s: Sparse, t: Sparse)
    requires IsTranspose(s, t)
    ensures Additive(t) == Transpose(Additive(s), s.cols)
  {
    forall c, r | 0 <= c < s.cols && 0 <= r < s.rows
      ensures Additive(t)[c][r] == Transpose(Additive(s), s.cols)[c][r]
    {
      TransposeCells(s, t, r, c);
    }
    forall c | 0 <= c < s.cols ensures Additive(t)[c] == Transpose(Additive(s), s.cols)[c] {
    }
  }

  /** B*x, with B = A'A, is A' (the transpose the program makes) applied to A*x. */
  lemma OpbIsTwoProducts(s: Sparse, t: Sparse, x: Vector)
    requires IsTranspose(s, t) && |x| == s.cols
    ensures Opb(s, x) == Opa(t, Opa(s, x))
  {
    TransposeAdditive(s, t);
  }

  /** <z, B*x> == <A*z, A*x>. */
  lemma OpbAdjoint(s: Sparse, z: Vector, x: Vector)
    requires WellFormed(s) && |x| == |z| == s.cols
    ensures Dot(z, Opb(s, x)) == Dot(Opa(s, z), Opa(s, x))
  {
    var m := Additive(s);
    var mt := Transpose(m, s.cols);
    var um := Opa(s, z);
    forall r | 0 <= r < s.rows ensures um[r] == DotTo(z, Col(mt, r), s.cols) {
      assert Col(mt, r) == m[r];
      DotToSymmetric(z, m[r], s.cols);
    }
    DotToAssociative(z, mt, s.rows, Opa(s, x), s.cols, Opb(s, x), um);
  }

  lemma {:induction false} DotToNonnegative(u: Vector, n: nat)
    requires n <= |u|
    ensures DotTo(u, u, n) >= 0.0
  {
    if n > 0 {
      DotToNonnegative(u, n - 1);
      SquareNonnegative(u[n - 1], u[n - 1] * u[n - 1]);
    }
  }

  /** B is symmetric, and <x, B*x>, whose square root becomes a singular value, is never negative. */
  lemma OpbSymmetric(s: Sparse, z: Vector, x: Vector)
    requires WellFormed(s) && |x| == |z| == s.cols
    ensures Dot(z, Opb(s, x)) == Dot(x, Opb(s, z))
    ensures Dot(x, Opb(s, x)) >= 0.0
  {
    OpbAdjoint(s, z, x);
    OpbAdjoint(s, x, z);
    OpbAdjoint(s, x, x);
    DotToSymmetric(Opa(s, z), Opa(s, x), s.rows);
    DotToNonnegative(Opa(s, x), s.rows);
  }
}
