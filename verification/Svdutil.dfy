/**
 The two products with a sparse matrix of svdutil.c, as loops over its columns.
 */
module Svdutil {
  import opened Reals
  import opened LinearAlgebra
  import opened SparseValues
  import opened SparseTranspose
  import opened SparseProducts
  import opened Svdlib

  /** y[r] when the entries before place i have been added in. */
  ghost predicate Accumulated(s: Sparse, x: Vector, y: seq<real>, i: nat) {
    && WellFormed(s) && |x| == s.cols && |y| == s.rows && i <= |s.value|
    && forall r :: 0 <= r < s.rows ==> KeysWithin(RowTo(s, r, i), s.cols) && y[r] == Weighted(RowTo(s, r, i), x)
  }

  lemma AccumulateStep(s: Sparse, x: Vector, y: seq<real>, i: nat, c: nat)
    requires Accumulated(s, x, y, i) && i < |s.value| && InColumn(s, i, c)
    ensures var r := s.rowind[i];
            0 <= r < s.rows && Accumulated(s, x, y[r := y[r] + Times(s.value[i], x[c])], i + 1)
  {
    ColumnUnique(s, i, c, ColumnAt(s, i));
    var i' := i + 1;
    forall r | 0 <= r < s.rows ensures KeysWithin(RowTo(s, r, i'), s.cols) {
      RowSorted(s, r, i');
    }
    var r := s.rowind[i];
    assert RowTo(s, r, i + 1)[..|RowTo(s, r, i)|] == RowTo(s, r, i);
  }

  lemma AccumulateStart(s: Sparse, x: Vector, y: seq<real>)
    requires WellFormed(s) && |x| == s.cols && |y| == s.rows && forall r :: 0 <= r < s.rows ==> y[r] == 0.0
    ensures Accumulated(s, x, y, 0)
  {
  }

  lemma AccumulatedIsProduct(s: Sparse, x: Vector, y: seq<real>)
    requires Accumulated(s, x, y, |s.value|)
    ensures y == Opa(s, x)
  {
    forall r | 0 <= r < s.rows ensures y[r] == Opa(s, x)[r] {
      RowIsDense(s, x, r);
    }
  }

  /** The product loop of svd_opa and of svd_opb: y += A * x, from y zero. */
  method Accumulate(A: SMat, x: array<real>, y: array<real>)
    requires A.Valid() && x.Length == A.cols && y.Length == A.rows && x != y && y != A.value
    requires forall r :: 0 <= r < A.rows ==> y[r] == 0.0
    modifies y
    ensures y[..] == Opa(A.Now(), x[..])
  {
    hide RowTo, ColumnTo, Weighted;
    ghost var s, xs := A.Now(), x[..];
    AccumulateStart(s, xs, y[..]);
    var i := 0;
    while i < A.cols
      invariant i <= A.cols && A.Now() == s && x[..] == xs
      invariant Accumulated(s, xs, y[..], Begin(s, i))
    {
      var end := A.pointr[i + 1];
      var j := A.pointr[i];
      ColumnBounds(s, i);
      while j < end
        invariant Begin(s, i) <= j <= Begin(s, i + 1) == end <= |s.value| && A.Now() == s && x[..] == xs
        invariant Accumulated(s, xs, y[..], j)
      {
        AccumulateStep(s, xs, y[..], j, i);
        ghost var ys := y[..];
        assert A.value[j] * x[i] == Times(s.value[j], xs[i]);
        y[A.rowind[j]] := y[A.rowind[j]] + A.value[j] * x[i];
        assert y[..] == ys[s.rowind[j] := ys[s.rowind[j]] + Times(s.value[j], xs[i])];
        j := j + 1;
      }
      i := i + 1;
    }
    AccumulatedIsProduct(s, xs, y[..]);
  }

  /** svd_opa: y = A * x. */
  method SvdOpa(A: SMat, x: array<real>, y: array<real>)
    requires A.Valid() && x.Length == A.cols && y.Length == A.rows && x != y && y != A.value
    modifies y
    ensures y[..] == Opa(A.Now(), x[..])
  {
    var r := 0;
    while r < A.rows
      invariant r <= A.rows && forall k :: 0 <= k < r ==> y[k] == 0.0
    {
      y[r] := 0.0;
      r := r + 1;
    }
    Accumulate(A, x, y);
  }

  lemma {:induction false} WeightedStep(s: Sparse, c: nat, t: Vector, j: nat)
    requires WellFormed(s) && InColumn(s, j, c) && j < |s.value| && |t| == s.rows
    ensures KeysWithin(ColumnTo(s, c, j), s.rows) && KeysWithin(ColumnTo(s, c, j + 1), s.rows)
    ensures Weighted(ColumnTo(s, c, j + 1), t) == Weighted(ColumnTo(s, c, j), t) + Times(s.value[j], t[s.rowind[j]])
  {
    ColumnWithin(s, c, j);
    ColumnWithin(s, c, j + 1);
    assert ColumnTo(s, c, j + 1)[..|ColumnTo(s, c, j)|] == ColumnTo(s, c, j);
  }

  /** Column c is empty before its first place and complete after its last. */
  lemma ColumnEnds(s: Sparse, c: nat)
    requires WellFormed(s) && c < s.cols
    ensures ColumnTo(s, c, Begin(s, c)) == [] && ColumnTo(s, c, Begin(s, c + 1)) == Column(s, c)
  {
    ColumnIsSlice(s, c, Begin(s, c));
    ColumnIsSlice(s, c, Begin(s, c + 1));
    ColumnIsSlice(s, c, |s.value|);
  }

  /** svd_opb: y = A' * A * x, by way of temp = A * x. */
  method SvdOpb(A: SMat, x: array<real>, y: array<real>, temp: array<real>)
    requires A.Valid() && x.Length == A.cols && y.Length == A.cols && temp.Length == A.rows
    requires x != y && x != temp && y != temp && y != A.value && temp != A.value
    modifies y, temp
    ensures y[..] == Opb(A.Now(), x[..]) && temp[..] == Opa(A.Now(), x[..])
  {
    hide RowTo, ColumnTo, Weighted;
    ghost var s, xs := A.Now(), x[..];
    var i := 0;
    while i < A.cols
      invariant i <= A.cols && (forall k :: 0 <= k < i ==> y[k] == 0.0) && A.Now() == s && x[..] == xs
    {
      y[i] := 0.0;
      i := i + 1;
    }
    i := 0;
    while i < A.rows
      invariant i <= A.rows && (forall k :: 0 <= k < i ==> temp[k] == 0.0) && A.Now() == s && x[..] == xs
      invariant forall k :: 0 <= k < A.cols ==> y[k] == 0.0
    {
      temp[i] := 0.0;
      i := i + 1;
    }
    Accumulate(A, x, temp);
    ghost var t := temp[..];
    i := 0;
    while i < A.cols
      invariant i <= A.cols && A.Now() == s && temp[..] == t && x[..] == xs
      invariant forall k :: 0 <= k < i ==> y[k] == Opb(s, xs)[k]
      invariant forall k :: i <= k < A.cols ==> y[k] == 0.0
    {
      OneColumn(A, y, temp, i);
      ColumnIsDense(s, t, i);
      i := i + 1;
    }
    assert y[..] == Opb(s, xs);
  }

  /** The second loop of svd_opb at column i. */
  method OneColumn(A: SMat, y: array<real>, temp: array<real>, i: nat)
    requires A.Valid() && y.Length == A.cols && temp.Length == A.rows && y != temp && y != A.value
    requires i < A.cols && y[i] == 0.0
    modifies y
    ensures KeysWithin(Column(A.Now(), i), A.rows)
    ensures y[..] == old(y[..])[i := Weighted(Column(A.Now(), i), temp[..])]
  {
    hide ColumnTo;
    ghost var s, t, ys := A.Now(), temp[..], y[..];
    ColumnEnds(s, i);
    ColumnBounds(s, i);
    ColumnWithin(s, i, |s.value|);
    ColumnWithin(s, i, Begin(s, i));
    var end := A.pointr[i + 1];
    var j := A.pointr[i];
    while j < end
      invariant Begin(s, i) <= j <= Begin(s, i + 1) == end <= |s.value| && A.Now() == s && temp[..] == t
      invariant KeysWithin(ColumnTo(s, i, j), s.rows)
      invariant y[..] == ys[i := Weighted(ColumnTo(s, i, j), t)]
    {
      WeightedStep(s, i, t, j);
      assert A.value[j] * temp[A.rowind[j]] == Times(s.value[j], t[s.rowind[j]]);
      y[i] := y[i] + A.value[j] * temp[A.rowind[j]];
      j := j + 1;
    }
  }
}
