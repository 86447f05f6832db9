/**
 The matrix objects of svdlib.c and the loops that fill them.
 */
module Svdlib {
  import opened LinearAlgebra
  import opened SparseValues
  import opened SparseTranspose
  import opened SparseDense

  /** struct smat: columns in compressed storage. */
  class SMat {
    const rows: nat
    const cols: nat
    const vals: nat
    const pointr: array<int>
    const rowind: array<int>
    const value: array<real>

    /** svdNewSMat: the pointers are cleared, the entries are not. */
    constructor (rows: nat, cols: nat, vals: nat)
      ensures this.rows == rows && this.cols == cols && this.vals == vals
      ensures Shape() && fresh(pointr) && fresh(rowind) && fresh(value)
      ensures forall c :: 0 <= c <= cols ==> pointr[c] == 0
    {
      this.rows, this.cols, this.vals := rows, cols, vals;
      pointr := new int[cols + 1](_ => 0);
      rowind := new int[vals];
      value := new real[vals];
    }

    ghost predicate Shape() {
      pointr.Length == cols + 1 && rowind.Length == vals && value.Length == vals && pointr != rowind
    }

    ghost function Now(): Sparse
      reads pointr, rowind, value
    {
      Sparse(rows, cols, pointr[..], rowind[..], value[..])
    }

    ghost predicate Valid()
      reads pointr, rowind, value
    {
      Shape() && WellFormed(Now())
    }
  }

  /** svdTransposeS. */
  method TransposeS(S: SMat) returns (N: SMat)
    requires S.Valid() && S.rows >= 1
    ensures fresh(N) && N.Valid() && fresh(N.pointr) && fresh(N.rowind) && fresh(N.value)
    ensures IsTranspose(S.Now(), N.Now())
  {
    hide RowTo, Below, Block, ColumnTo;
    ghost var s := S.Now();
    N := new SMat(S.cols, S.rows, S.vals);
    CountStart(s, N.pointr[..]);
    var i := 0;
    while i < S.vals
      invariant 0 <= i <= S.vals && Counted(s, N.pointr[..], i) && S.Now() == s
    {
      CountStep(s, N.pointr[..], i);
      ghost var p := N.pointr[..];
      N.pointr[S.rowind[i]] := N.pointr[S.rowind[i]] + 1;
      assert N.pointr[..] == p[s.rowind[i] := p[s.rowind[i]] + 1];
      i := i + 1;
    }
    ShiftStart(s, N.pointr[..]);
    ghost var p0 := N.pointr[..];
    N.pointr[S.rows] := S.vals - N.pointr[S.rows - 1];
    assert N.pointr[..] == p0[s.rows := |s.value| - p0[s.rows - 1]];
    var r := S.rows - 1;
    while r > 0
      invariant 0 <= r < S.rows && Shifting(s, N.pointr[..], r) && S.Now() == s
    {
      ShiftStep(s, N.pointr[..], r);
      ghost var p := N.pointr[..];
      N.pointr[r] := N.pointr[r + 1] - N.pointr[r - 1];
      assert N.pointr[..] == p[r := p[r + 1] - p[r - 1]];
      r := r - 1;
    }
    FillStart(s, N.pointr[..], N.rowind[..], N.value[..]);
    ghost var p1 := N.pointr[..];
    N.pointr[0] := 0;
    assert N.pointr[..] == p1[0 := 0];
    FillColumns(S, N);
    FilledIsTranspose(s, N.pointr[..], N.rowind[..], N.value[..]);
  }

  /** The last loops of svdTransposeS: every entry to its slot. */
  method FillColumns(S: SMat, N: SMat)
    requires S.Valid() && N.Shape() && N.rows == S.cols && N.cols == S.rows && N.vals == S.vals
    requires S.pointr != N.pointr && S.pointr != N.rowind && S.rowind != N.pointr && S.rowind != N.rowind
    requires S.value != N.value
    requires Filled(S.Now(), N.pointr[..], N.rowind[..], N.value[..], 0)
    modifies N.pointr, N.rowind, N.value
    ensures S.Now() == old(S.Now())
    ensures Filled(S.Now(), N.pointr[..], N.rowind[..], N.value[..], S.vals)
  {
    hide Filled, RowTo, ColumnTo;
    ghost var s := S.Now();
    var c := 0;
    var i := 0;
    while c < S.cols
      invariant c <= S.cols && S.Now() == s && i == S.pointr[c] && 0 <= i <= S.vals
      invariant Filled(s, N.pointr[..], N.rowind[..], N.value[..], i)
    {
      ColumnBounds(s, c);
      while i < S.pointr[c + 1]
        invariant Begin(s, c) <= i <= Begin(s, c + 1) <= S.vals && S.Now() == s
        invariant Filled(s, N.pointr[..], N.rowind[..], N.value[..], i)
      {
        ghost var p, ri, va := N.pointr[..], N.rowind[..], N.value[..];
        FillStep(s, p, ri, va, i, c);
        var r := S.rowind[i];
        var j := N.pointr[r + 1];
        N.pointr[r + 1] := N.pointr[r + 1] + 1;
        N.rowind[j] := c;
        N.value[j] := S.value[i];
        assert N.pointr[..] == p[r + 1 := j + 1];
        assert N.rowind[..] == ri[j := c];
        assert N.value[..] == va[j := s.value[i]];
        i := i + 1;
      }
      c := c + 1;
    }
  }

  /** struct dmat. */
  class DMat {
    const rows: nat
    const cols: nat
    const value: array2<real>

    /** svdNewDMat: all zero. */
    constructor (rows: nat, cols: nat)
      ensures this.rows == rows && this.cols == cols && Shape() && fresh(value)
      ensures forall r, c :: 0 <= r < rows && 0 <= c < cols ==> value[r, c] == 0.0
    {
      this.rows, this.cols := rows, cols;
      value := new real[rows, cols]((_, _) => 0.0);
    }

    ghost predicate Shape() {
      value.Length0 == rows && value.Length1 == cols
    }

    ghost function Cells(): (m: Matrix)
      requires Shape()
      reads value
      ensures IsMatrix(m, rows, cols)
      ensures forall r, c :: 0 <= r < rows && 0 <= c < cols ==> m[r][c] == value[r, c]
    {
      seq(rows, r requires 0 <= r < rows && Shape() reads value =>
        seq(cols, c requires 0 <= c < cols && Shape() reads value => value[r, c]))
    }
  }

  lemma CellsEqual(a: Matrix, b: Matrix, rows: nat, cols: nat)
    requires IsMatrix(a, rows, cols) && IsMatrix(b, rows, cols)
    requires forall r, c :: 0 <= r < rows && 0 <= c < cols ==> a[r][c] == b[r][c]
    ensures a == b
  {
    forall r | 0 <= r < rows ensures a[r] == b[r] {
    }
  }

  /** svdTransposeD. */
  method TransposeD(D: DMat) returns (N: DMat)
    requires D.Shape() && D.cols >= 1
    ensures fresh(N) && N.Shape() && N.rows == D.cols && N.cols == D.rows
    ensures N.Cells() == Transpose(D.Cells(), D.cols)
  {
    N := new DMat(D.cols, D.rows);
    var r := 0;
    while r < D.rows
      invariant r <= D.rows
      invariant forall p, q :: 0 <= p < r && 0 <= q < D.cols ==> N.value[q, p] == D.value[p, q]
    {
      var c := 0;
      while c < D.cols
        invariant c <= D.cols
        invariant forall p, q :: 0 <= p < r && 0 <= q < D.cols ==> N.value[q, p] == D.value[p, q]
        invariant forall q :: 0 <= q < c ==> N.value[q, r] == D.value[r, q]
      {
        N.value[c, r] := D.value[r, c];
        c := c + 1;
      }
      r := r + 1;
    }
    CellsEqual(N.Cells(), Transpose(D.Cells(), D.cols), D.cols, D.rows);
  }

  /** svdConvertStoD. */
  method ConvertStoD(S: SMat) returns (D: DMat)
    requires S.Valid() && S.rows >= 1
    ensures fresh(D) && D.Shape() && D.rows == S.rows && D.cols == S.cols
    ensures D.Cells() == Dense(S.Now())
  {
    hide ColumnTo, CellTo;
    ghost var s := S.Now();
    D := new DMat(S.rows, S.cols);
    CellStart(s);
    var i, c := 0, 0;
    while i < S.vals
      invariant 0 <= i <= S.vals && S.Now() == s && c <= S.cols && s.pointr[c] <= i
      invariant forall r, q :: 0 <= r < S.rows && 0 <= q < S.cols ==> D.value[r, q] == CellTo(s, r, q, i)
    {
      while S.pointr[c + 1] <= i
        invariant c < S.cols && s.pointr[c] <= i < s.pointr[S.cols]
        decreases S.cols - c
      {
        c := c + 1;
      }
      assert InColumn(s, i, c);
      D.value[S.rowind[i], c] := S.value[i];
      i := i + 1;
      forall r, q | 0 <= r < S.rows && 0 <= q < S.cols ensures D.value[r, q] == CellTo(s, r, q, i) {
        CellStep(s, r, q, i - 1, c);
      }
    }
    CellsEqual(D.Cells(), Dense(s), S.rows, S.cols);
  }

  /** svdConvertDtoS. */
  method ConvertDtoS(D: DMat) returns (S: SMat)
    requires D.Shape() && D.rows >= 1
    ensures fresh(S) && fresh(S.pointr) && fresh(S.rowind) && fresh(S.value)
    ensures S.Valid() && S.rows == D.rows && S.cols == D.cols && IsSparseOf(D.Cells(), S.Now())
  {
    hide PackedTo, CountCols, CountRows;
    ghost var m := D.Cells();
    var n := CountNonzero(D);
    CountsAgree(m, D.cols);
    S := new SMat(D.rows, D.cols, n);
    PackedNothing(m, S.pointr[..], S.rowind[..], S.value[..]);
    n := 0;
    var j := 0;
    while j < D.cols
      invariant j <= D.cols && D.Cells() == m && n == CountCols(m, D.cols, j) && S.vals == CountCols(m, D.cols, D.cols)
      invariant PackedTo(m, S.pointr[..], S.rowind[..], S.value[..], j)
    {
      PackedPointer(m, S.pointr[..], S.rowind[..], S.value[..], j, j, n);
      ghost var p := S.pointr[..];
      S.pointr[j] := n;
      assert S.pointr[..] == p[j := n];
      n := FillColumn(D, S, j, n);
      j := j + 1;
    }
    PackedPointer(m, S.pointr[..], S.rowind[..], S.value[..], j, j, S.vals);
    ghost var p := S.pointr[..];
    S.pointr[S.cols] := S.vals;
    assert S.pointr[..] == p[j := S.vals];
    PackedIsSparse(m, S.Now());
  }

  /** The counting loops of svdConvertDtoS. */
  method CountNonzero(D: DMat) returns (n: nat)
    requires D.Shape()
    ensures n == CountRows(D.Cells(), D.cols, D.rows)
  {
    ghost var m := D.Cells();
    n := 0;
    var i := 0;
    while i < D.rows
      invariant i <= D.rows && n == CountRows(m, D.cols, i)
    {
      var j := 0;
      while j < D.cols
        invariant j <= D.cols && n == CountRows(m, D.cols, i) + CountTo(m[i], j)
      {
        if D.value[i, j] != 0.0 {
          n := n + 1;
        }
        j := j + 1;
      }
      i := i + 1;
    }
  }

  /** The inner filling loop of svdConvertDtoS: the nonzero cells of column j from place n0 on. */
  method FillColumn(D: DMat, S: SMat, j: nat, n0: nat) returns (n: nat)
    requires D.Shape() && S.Shape() && S.rows == D.rows && S.cols == D.cols && j < D.cols
    requires n0 == CountCols(D.Cells(), D.cols, j) && S.vals == CountCols(D.Cells(), D.cols, D.cols)
    requires S.pointr[j] == n0
    requires PackedTo(D.Cells(), S.pointr[..], S.rowind[..], S.value[..], j)
    modifies S.rowind, S.value
    ensures n == CountCols(D.Cells(), D.cols, j + 1)
    ensures PackedTo(D.Cells(), S.pointr[..], S.rowind[..], S.value[..], j + 1)
  {
    hide PackedTo, PackedFrom, CountCols, CountTo, NonzeroTo;
    ghost var m := D.Cells();
    ghost var v := Col(m, j);
    n := n0;
    FillColumnStart(m, S.rowind[..], S.value[..], j, D.cols, n0);
    var i := 0;
    while i < D.rows
      invariant i <= D.rows && D.Cells() == m && n == n0 + CountTo(v, i)
      invariant PackedTo(m, S.pointr[..], S.rowind[..], S.value[..], j)
      invariant PackedFrom(S.rowind[..], S.value[..], n0, NonzeroTo(v, i))
    {
      NonzeroStep(v, i);
      NonzeroLength(v, i);
      if D.value[i, j] != 0.0 {
        assert v[i] == D.value[i, j];
        CountToMonotone(v, i + 1, D.rows);
        CountColsMonotone(m, D.cols, j + 1, D.cols);
        CountColsStep(m, D.cols, j);
        NonzeroLength(v, D.rows);
        ghost var ri, va := S.rowind[..], S.value[..];
        PackedPush(m, S.pointr[..], ri, va, j, n0, NonzeroTo(v, i), i, v[i]);
        S.rowind[n] := i;
        S.value[n] := D.value[i, j];
        assert S.rowind[..] == ri[n := i] && S.value[..] == va[n := v[i]];
        n := n + 1;
      } else {
        assert v[i] == D.value[i, j];
      }
      i := i + 1;
    }
    PackedColumn(m, S.pointr[..], S.rowind[..], S.value[..], j);
  }
}
