/**
 Sparse and dense forms of one matrix. A dense cell takes the last value stored
 for it; a sparse column takes the nonzero cells from the top down.
 */
module SparseDense {
  import opened LinearAlgebra
  import opened SparseValues
  import opened SparseTranspose

  ghost function LastOf(vs: seq<real>): real {
    if vs == [] then 0.0 else vs[|vs| - 1]
  }

  /** What svdConvertStoD leaves in cell (r, c) when the entries before place i are in. */
  ghost function CellTo(s: Sparse, r: nat, c: nat, i: nat): real
    requires WellFormed(s) && c < s.cols && i <= |s.value|
  {
    LastOf(Picks(ColumnTo(s, c, i), r))
  }

  lemma CellStep(s: Sparse, r: nat, c: nat, i: nat, k: nat)
    requires WellFormed(s) && c < s.cols && i < |s.value| && InColumn(s, i, k)
    ensures CellTo(s, r, c, i + 1) == if c == k && r == s.rowind[i] then s.value[i] else CellTo(s, r, c, i)
  {
    if InColumn(s, i, c) {
      ColumnUnique(s, i, c, k);
      PicksAppend(ColumnTo(s, c, i), (s.rowind[i], s.value[i]), r);
    }
  }

  /** The dense form of s. */
  ghost function Dense(s: Sparse): (m: Matrix)
    requires WellFormed(s)
    ensures IsMatrix(m, s.rows, s.cols)
    ensures forall r, c :: 0 <= r < s.rows && 0 <= c < s.cols ==> m[r][c] == CellTo(s, r, c, |s.value|)
  {
    seq(s.rows, r requires 0 <= r < s.rows => seq(s.cols, c requires 0 <= c < s.cols => CellTo(s, r, c, |s.value|)))
  }

  /** Place k is stored for cell (r, c). */
  ghost predicate StoredFor(s: Sparse, r: nat, c: nat, k: nat)
    requires WellFormed(s) && c < s.cols
  {
    k < |s.value| && s.pointr[c] <= k < s.pointr[c + 1] && s.rowind[k] == r
  }

  /** x is the last value stored for cell (r, c) before place i, or zero if there is none. */
  ghost predicate LastStored(s: Sparse, r: nat, c: nat, i: nat, x: real)
    requires WellFormed(s) && c < s.cols
  {
    || (x == 0.0 && forall k :: 0 <= k < i ==> !StoredFor(s, r, c, k))
    || exists k :: 0 <= k < i && StoredFor(s, r, c, k) && s.value[k] == x
         && forall j :: k < j < i ==> !StoredFor(s, r, c, j)
  }

  lemma StoredIff(s: Sparse, r: nat, c: nat, i: nat, b: nat)
    requires WellFormed(s) && c < s.cols && i < |s.value| && InColumn(s, i, b)
    ensures StoredFor(s, r, c, i) <==> b == c && s.rowind[i] == r
  {
    if InColumn(s, i, c) {
      ColumnUnique(s, i, c, b);
    }
  }

  lemma CellNone(s: Sparse, r: nat, c: nat)
    requires WellFormed(s) && c < s.cols
    ensures CellTo(s, r, c, 0) == 0.0
  {
    PicksNone(r);
  }

  lemma LastStoredStep(s: Sparse, r: nat, c: nat, i: nat, x: real, y: real)
    requires WellFormed(s) && c < s.cols && i < |s.value| && LastStored(s, r, c, i, x)
    requires y == if StoredFor(s, r, c, i) then s.value[i] else x
    ensures LastStored(s, r, c, i + 1, y)
  {
    hide StoredFor, WellFormed;
    if !StoredFor(s, r, c, i) && exists k :: 0 <= k < i && StoredFor(s, r, c, k) {
      var k :| 0 <= k < i && StoredFor(s, r, c, k) && s.value[k] == x
        && forall j :: k < j < i ==> !StoredFor(s, r, c, j);
      assert forall j :: k < j < i + 1 ==> !StoredFor(s, r, c, j);
    }
  }

  lemma CellIsLastStep(s: Sparse, r: nat, c: nat, i: nat)
    requires WellFormed(s) && c < s.cols && i < |s.value| && LastStored(s, r, c, i, CellTo(s, r, c, i))
    ensures LastStored(s, r, c, i + 1, CellTo(s, r, c, i + 1))
  {
    hide CellTo, StoredFor, LastStored, WellFormed;
    var b := ColumnAt(s, i);
    CellStep(s, r, c, i, b);
    StoredIff(s, r, c, i, b);
    LastStoredStep(s, r, c, i, CellTo(s, r, c, i), CellTo(s, r, c, i + 1));
  }

  lemma {:induction false} CellIsLast(s: Sparse, r: nat, c: nat, i: nat)
    requires WellFormed(s) && c < s.cols && i <= |s.value|
    ensures LastStored(s, r, c, i, CellTo(s, r, c, i))
  {
    hide CellTo, StoredFor;
    if i == 0 {
      CellNone(s, r, c);
    } else {
      hide LastStored;
      CellIsLast(s, r, c, i - 1);
      CellIsLastStep(s, r, c, i - 1);
    }
  }

  /** Every cell of the dense form is the last value stored for it, or zero. */
  lemma DenseIsLast(s: Sparse, r: nat, c: nat)
    requires WellFormed(s) && r < s.rows && c < s.cols
    ensures LastStored(s, r, c, |s.value|, Dense(s)[r][c])
  {
    CellIsLast(s, r, c, |s.value|);
  }

  /** Transposing and making dense commute, duplicates included: the fill keeps their order. */
  lemma DenseTranspose(s: Sparse, t: Sparse)
    requires IsTranspose(s, t)
    ensures Dense(t) == Transpose(Dense(s), s.cols)
  {
    forall c, r | 0 <= c < s.cols && 0 <= r < s.rows ensures Dense(t)[c][r] == Transpose(Dense(s), s.cols)[c][r] {
      TransposeCells(s, t, r, c);
    }
    forall c | 0 <= c < s.cols ensures Dense(t)[c] == Transpose(Dense(s), s.cols)[c] {
    }
  }

  // ---------- dense to sparse ----------

  /** The nonzero entries among the first n of a dense column. */
  ghost function NonzeroTo(v: Vector, n: nat): (es: seq<Entry>)
    requires n <= |v|
  {
    if n == 0 then []
    else if v[n - 1] != 0.0 then NonzeroTo(v, n - 1) + [(n - 1, v[n - 1])]
    else NonzeroTo(v, n - 1)
  }

  ghost function Nonzero(v: Vector): seq<Entry> {
    NonzeroTo(v, |v|)
  }

  lemma {:induction false} NonzeroPicks(v: Vector, n: nat, k: int)
    requires n <= |v|
    ensures Picks(NonzeroTo(v, n), k) == if 0 <= k < n && v[k] != 0.0 then [v[k]] else []
  {
    hide Picks;
    if n == 0 {
      PicksNone(k);
    } else {
      NonzeroPicks(v, n - 1, k);
      if v[n - 1] != 0.0 {
        PicksAppend(NonzeroTo(v, n - 1), (n - 1, v[n - 1]), k);
      }
    }
  }

  lemma {:induction false} NonzeroSorted(v: Vector, n: nat)
    requires n <= |v|
    ensures SortedKeys(NonzeroTo(v, n)) && KeysWithin(NonzeroTo(v, n), n)
  {
    if n > 0 {
      NonzeroSorted(v, n - 1);
    }
  }

  /** s is what svdConvertDtoS makes of the dense matrix m. */
  ghost predicate IsSparseOf(m: Matrix, s: Sparse) {
    && WellFormed(s) && IsMatrix(m, s.rows, s.cols)
    && forall c :: 0 <= c < s.cols ==> Column(s, c) == Nonzero(Col(m, c))
  }

  /** Dense to sparse and back is the identity. */
  lemma DenseRoundTrip(m: Matrix, s: Sparse)
    requires IsSparseOf(m, s)
    ensures Dense(s) == m
  {
    forall r, c | 0 <= r < s.rows && 0 <= c < s.cols ensures Dense(s)[r][c] == m[r][c] {
      NonzeroPicks(Col(m, c), s.rows, r);
    }
    forall r | 0 <= r < s.rows ensures Dense(s)[r] == m[r] {
    }
  }

  ghost predicate CleanCell(p: seq<real>) {
    |p| <= 1 && p != [0.0]
  }

  /** At most one value is stored for a cell, and none of them is zero. */
  ghost predicate CleanColumn(s: Sparse, c: nat)
    requires WellFormed(s) && c < s.cols
  {
    forall k :: CleanCell(Picks(Column(s, c), k))
  }

  /**
   Sparse to dense and back sorts a column by row and keeps all its values
   exactly when no cell is stored twice and no zero is stored.
   */
  lemma SparseRoundTrip(s: Sparse, u: Sparse, c: nat)
    requires WellFormed(s) && IsSparseOf(Dense(s), u) && u.rows == s.rows && u.cols == s.cols && c < s.cols
    ensures SortedKeys(Column(u, c))
    ensures SamePicks(Column(u, c), Column(s, c)) <==> CleanColumn(s, c)
  {
    NonzeroSorted(Col(Dense(s), c), s.rows);
    hide Picks, Column, Cleaned, CleanCell;
    var a, b := Column(u, c), Column(s, c);
    forall k ensures Picks(a, k) == Picks(b, k) <==> CleanCell(Picks(b, k)) {
      RoundTripCell(s, u, c, k);
      CleanedIs(Picks(b, k));
    }
  }

  /** The last value, unless it is zero. */
  ghost function Cleaned(p: seq<real>): seq<real> {
    if LastOf(p) != 0.0 then [LastOf(p)] else []
  }

  lemma CleanedIs(p: seq<real>)
    ensures Cleaned(p) == p <==> CleanCell(p)
  {
    if |p| == 1 {
      assert p == [p[0]];
    }
  }

  lemma RoundTripCell(s: Sparse, u: Sparse, c: nat, k: int)
    requires WellFormed(s) && IsSparseOf(Dense(s), u) && u.rows == s.rows && u.cols == s.cols && c < s.cols
    ensures Picks(Column(u, c), k) == Cleaned(Picks(Column(s, c), k))
  {
    NonzeroPicks(Col(Dense(s), c), s.rows, k);
    if !(0 <= k < s.rows) {
      ColumnWithin(s, c, |s.value|);
      PicksOutside(Column(s, c), s.rows, k);
    }
  }

  lemma TwoEntries(s: Sparse)
    requires WellFormed(s) && s.cols == 1 && s.rowind == [0, 0] && s.value == [1.0, 2.0]
    ensures Picks(Column(s, 0), 0) == [1.0, 2.0]
  {
    hide Picks;
    var x, y: Entry := (0, 1.0), (0, 2.0);
    assert Begin(s, 0) == 0 && Begin(s, 1) == 2;
    assert ColumnTo(s, 0, 1) == [] + [x];
    assert Column(s, 0) == [x] + [y];
    PicksNone(0);
    PicksAppend([], x, 0);
    PicksAppend([x], y, 0);
    assert [] + [x] == [x];
  }

  lemma PicksNone(k: int)
    ensures Picks([], k) == []
  {
  }

  /** A cell stored twice, as 1 and then 2, is 2 in the dense form, and its column does not survive the round trip. */
  lemma StoredTwice(s: Sparse)
    requires s == Sparse(1, 1, [0, 2], [0, 0], [1.0, 2.0])
    ensures WellFormed(s) && Dense(s) == [[2.0]] && !CleanColumn(s, 0)
  {
    hide Picks, ColumnTo, Column;
    TwoEntries(s);
    assert !CleanCell(Picks(Column(s, 0), 0));
    LastCell(s);
    assert Dense(s)[0] == [2.0];
  }

  lemma LastCell(s: Sparse)
    requires WellFormed(s) && s.rows == s.cols == 1 && Picks(Column(s, 0), 0) == [1.0, 2.0]
    ensures Dense(s)[0][0] == 2.0
  {
    hide Picks, ColumnTo;
  }

  // ---------- counting the nonzero cells by rows and by columns ----------

  ghost function One(x: real): nat {
    if x != 0.0 then 1 else 0
  }

  /** Nonzero cells in the first n entries of a vector. */
  ghost function CountTo(v: Vector, n: nat): nat
    requires n <= |v|
  {
    if n == 0 then 0 else CountTo(v, n - 1) + One(v[n - 1])
  }

  lemma {:induction false} NonzeroLength(v: Vector, n: nat)
    requires n <= |v|
    ensures |NonzeroTo(v, n)| == CountTo(v, n)
  {
    if n > 0 {
      NonzeroLength(v, n - 1);
    }
  }

  /** Nonzero cells of the first r rows of m, the order svdConvertDtoS counts in. */
  ghost function CountRows(m: Matrix, cols: nat, r: nat): nat
    requires IsMatrix(m, |m|, cols) && r <= |m|
  {
    if r == 0 then 0 else CountRows(m, cols, r - 1) + CountTo(m[r - 1], cols)
  }

  /** Nonzero cells of the first c columns, the order it fills in. */
  ghost function CountCols(m: Matrix, cols: nat, c: nat): nat
    requires IsMatrix(m, |m|, cols) && c <= cols
  {
    if c == 0 then 0 else CountCols(m, cols, c - 1) + CountTo(Col(m, c - 1), |m|)
  }

  lemma {:induction false} CountPrefix(v: Vector, w: Vector, n: nat)
    requires n <= |v| && n <= |w| && forall k :: 0 <= k < n ==> v[k] == w[k]
    ensures CountTo(v, n) == CountTo(w, n)
  {
    if n > 0 {
      CountPrefix(v, w, n - 1);
    }
  }

  lemma {:induction false} CountColsDropRow(m: Matrix, cols: nat, c: nat)
    requires IsMatrix(m, |m|, cols) && c <= cols && m != []
    ensures CountCols(m, cols, c) == CountCols(m[..|m| - 1], cols, c) + CountTo(m[|m| - 1], c)
  {
    if c > 0 {
      CountColsDropRow(m, cols, c - 1);
      CountPrefix(Col(m, c - 1), Col(m[..|m| - 1], c - 1), |m| - 1);
    }
  }

  lemma {:induction false} CountNone(m: Matrix, cols: nat, c: nat)
    requires m == [] && c <= cols
    ensures CountCols(m, cols, c) == 0
  {
    if c > 0 {
      CountNone(m, cols, c - 1);
    }
  }

  lemma {:induction false} CountRowsPrefix(m: Matrix, cols: nat, r: nat)
    requires IsMatrix(m, |m|, cols) && r < |m|
    ensures CountRows(m[..|m| - 1], cols, r) == CountRows(m, cols, r)
  {
    if r > 0 {
      CountRowsPrefix(m, cols, r - 1);
    }
  }

  /** The two counts agree, so the second pass fills exactly the entries the first made room for. */
  lemma {:induction false} CountsAgree(m: Matrix, cols: nat)
    requires IsMatrix(m, |m|, cols)
    ensures CountRows(m, cols, |m|) == CountCols(m, cols, cols)
  {
    if m == [] {
      CountNone(m, cols, cols);
    } else {
      CountsAgree(m[..|m| - 1], cols);
      CountRowsPrefix(m, cols, |m| - 1);
      CountColsDropRow(m, cols, cols);
    }
  }

  lemma {:induction false} CountColsMonotone(m: Matrix, cols: nat, c: nat, c': nat)
    requires IsMatrix(m, |m|, cols) && c <= c' <= cols
    ensures CountCols(m, cols, c) <= CountCols(m, cols, c')
  {
    if c < c' {
      CountColsMonotone(m, cols, c, c' - 1);
    }
  }

  lemma {:induction false} CountToMonotone(v: Vector, n: nat, n': nat)
    requires n <= n' <= |v|
    ensures CountTo(v, n) <= CountTo(v, n')
  {
    if n < n' {
      CountToMonotone(v, n, n' - 1);
    }
  }

  // ---------- the filled arrays ----------

  lemma CellStart(s: Sparse)
    requires WellFormed(s)
    ensures forall r, c :: 0 <= r < s.rows && 0 <= c < s.cols ==> CellTo(s, r, c, 0) == 0.0
  {
  }

  /** The entries es lie at places from, from + 1, ... */
  ghost predicate PackedFrom(ri: seq<int>, va: seq<real>, from: nat, es: seq<Entry>) {
    && |ri| == |va| && from + |es| <= |ri|
    && forall k :: 0 <= k < |es| ==> (ri[from + k], va[from + k]) == es[k]
  }

  /** Columns 0..j-1 of m are in place, one after the other. */
  ghost predicate PackedTo(m: Matrix, p: seq<int>, ri: seq<int>, va: seq<real>, j: nat) {
    && |p| >= 1 && IsMatrix(m, |m|, |p| - 1) && j < |p|
    && forall c :: 0 <= c < j ==>
         p[c] == CountCols(m, |p| - 1, c) && PackedFrom(ri, va, CountCols(m, |p| - 1, c), Nonzero(Col(m, c)))
  }

  lemma PackedPush(m: Matrix, p: seq<int>, ri: seq<int>, va: seq<real>, j: nat, from: nat, es: seq<Entry>,
                   i: nat, x: real)
    requires PackedTo(m, p, ri, va, j) && from == CountCols(m, |p| - 1, j)
    requires PackedFrom(ri, va, from, es) && from + |es| < |ri|
    ensures PackedTo(m, p, ri[from + |es| := i], va[from + |es| := x], j)
    ensures PackedFrom(ri[from + |es| := i], va[from + |es| := x], from, es + [(i, x)])
  {
    hide CountCols, NonzeroTo;
    forall c | 0 <= c < j
      ensures PackedFrom(ri[from + |es| := i], va[from + |es| := x], CountCols(m, |p| - 1, c), Nonzero(Col(m, c)))
    {
      CountColsStep(m, |p| - 1, c);
      CountColsMonotone(m, |p| - 1, c + 1, j);
    }
  }

  lemma PackedColumn(m: Matrix, p: seq<int>, ri: seq<int>, va: seq<real>, j: nat)
    requires PackedTo(m, p, ri, va, j) && j + 1 < |p| && p[j] == CountCols(m, |p| - 1, j)
    requires PackedFrom(ri, va, CountCols(m, |p| - 1, j), NonzeroTo(Col(m, j), |m|))
    ensures PackedTo(m, p, ri, va, j + 1)
    ensures CountCols(m, |p| - 1, j + 1) == CountCols(m, |p| - 1, j) + CountTo(Col(m, j), |m|)
  {
    hide CountCols, NonzeroTo, PackedFrom, CountTo;
    CountColsStep(m, |p| - 1, j);
    NonzeroLength(Col(m, j), |m|);
  }

  lemma PackedPointer(m: Matrix, p: seq<int>, ri: seq<int>, va: seq<real>, j: nat, k: nat, x: int)
    requires PackedTo(m, p, ri, va, j) && j <= k < |p|
    ensures PackedTo(m, p[k := x], ri, va, j)
  {
    hide CountCols, PackedFrom, NonzeroTo;
    assert |p[k := x]| == |p|;
  }

  lemma NonzeroStep(v: Vector, i: nat)
    requires i < |v|
    ensures NonzeroTo(v, i + 1) == if v[i] != 0.0 then NonzeroTo(v, i) + [(i, v[i])] else NonzeroTo(v, i)
    ensures CountTo(v, i + 1) == CountTo(v, i) + if v[i] != 0.0 then 1 else 0
    ensures NonzeroTo(v, 0) == [] && CountTo(v, 0) == 0
  {
  }

  lemma FillColumnStart(m: Matrix, ri: seq<int>, va: seq<real>, j: nat, cols: nat, from: nat)
    requires IsMatrix(m, |m|, cols) && j < cols && from == CountCols(m, cols, j)
    requires |ri| == |va| == CountCols(m, cols, cols)
    ensures PackedFrom(ri, va, from, NonzeroTo(Col(m, j), 0)) && CountTo(Col(m, j), 0) == 0
  {
    CountColsMonotone(m, cols, j, cols);
  }

  lemma PackedNothing(m: Matrix, p: seq<int>, ri: seq<int>, va: seq<real>)
    requires |p| >= 1 && IsMatrix(m, |m|, |p| - 1)
    ensures PackedTo(m, p, ri, va, 0) && CountCols(m, |p| - 1, 0) == 0
  {
  }

  lemma CountColsStep(m: Matrix, cols: nat, c: nat)
    requires IsMatrix(m, |m|, cols) && c < cols
    ensures CountCols(m, cols, c + 1) == CountCols(m, cols, c) + |Nonzero(Col(m, c))|
  {
    NonzeroLength(Col(m, c), |m|);
  }

  lemma PackedAt(m: Matrix, cols: nat, p: seq<int>, ri: seq<int>, va: seq<real>, j: nat, c: nat)
    requires cols == |p| - 1 && PackedTo(m, p, ri, va, j) && c < j
    ensures c < cols && p[c] == CountCols(m, cols, c)
    ensures PackedFrom(ri, va, CountCols(m, cols, c), Nonzero(Col(m, c)))
  {
  }

  lemma {:induction false} PackedPlace(m: Matrix, cols: nat, p: seq<int>, ri: seq<int>, va: seq<real>, i: nat, j: nat)
    requires cols == |p| - 1 && IsMatrix(m, |m|, cols) && j <= cols && PackedTo(m, p, ri, va, j)
    requires i < CountCols(m, cols, j) && i < |ri|
    ensures 0 <= ri[i] < |m|
    decreases j
  {
    hide CountCols, PackedTo;
    if j == 0 {
      PackedNothing(m, p, ri, va);
    } else {
      var b := CountCols(m, cols, j - 1);
      CountColsStep(m, cols, j - 1);
      if i < b {
        PackedShorter(m, p, ri, va, j);
        PackedPlace(m, cols, p, ri, va, i, j - 1);
      } else {
        PackedAt(m, cols, p, ri, va, j, j - 1);
        NonzeroSorted(Col(m, j - 1), |m|);
        assert (ri[b + (i - b)], va[b + (i - b)]) == Nonzero(Col(m, j - 1))[i - b];
      }
    }
  }

  lemma PackedShorter(m: Matrix, p: seq<int>, ri: seq<int>, va: seq<real>, j: nat)
    requires PackedTo(m, p, ri, va, j) && j > 0
    ensures PackedTo(m, p, ri, va, j - 1)
  {
  }

  lemma PackedWellFormed(m: Matrix, s: Sparse)
    requires |s.pointr| == s.cols + 1 && |m| == s.rows && PackedTo(m, s.pointr, s.rowind, s.value, s.cols)
    requires |s.rowind| == |s.value| == CountCols(m, s.cols, s.cols) == s.pointr[s.cols]
    requires IsMatrix(m, s.rows, s.cols)
    ensures WellFormed(s) && forall c :: 0 <= c <= s.cols ==> s.pointr[c] == CountCols(m, s.cols, c)
  {
    hide CountCols, PackedTo;
    forall c | 0 <= c <= s.cols ensures s.pointr[c] == CountCols(m, s.cols, c) {
      if c < s.cols {
        PackedAt(m, s.cols, s.pointr, s.rowind, s.value, s.cols, c);
      }
    }
    PackedNothing(m, s.pointr, s.rowind, s.value);
    forall c, c' | 0 <= c <= c' <= s.cols ensures s.pointr[c] <= s.pointr[c'] {
      CountColsMonotone(m, s.cols, c, c');
    }
    forall i | 0 <= i < |s.rowind| ensures 0 <= s.rowind[i] < s.rows {
      PackedPlace(m, s.cols, s.pointr, s.rowind, s.value, i, s.cols);
    }
  }

  lemma PackedIsSparse(m: Matrix, s: Sparse)
    requires |s.pointr| == s.cols + 1 && |m| == s.rows && PackedTo(m, s.pointr, s.rowind, s.value, s.cols)
    requires |s.rowind| == |s.value| == CountCols(m, s.cols, s.cols) == s.pointr[s.cols]
    requires IsMatrix(m, s.rows, s.cols)
    ensures IsSparseOf(m, s)
  {
    hide CountCols, PackedTo, ColumnTo, NonzeroTo, WellFormed;
    PackedWellFormed(m, s);
    forall c | 0 <= c < s.cols ensures Column(s, c) == Nonzero(Col(m, c)) {
      ColumnIsSlice(s, c, |s.value|);
      CountColsStep(m, s.cols, c);
      PackedAt(m, s.cols, s.pointr, s.rowind, s.value, s.cols, c);
      ColumnBounds(s, c);
    }
  }
}
