/**
 The file formats of svdlib.c as token streams: a number is one token and is
 read back exactly. In the text variants a numeral without a fraction serves as
 a value too; a binary writer puts no integer in a value's place, so its files
 hold the same tokens. `Holds...` says what a file of the format contains, place
 by place; `...Readable` says which files the reader accepts.
 */
module SvdFormats {
  import opened LinearAlgebra
  import opened SparseValues
  import opened SparseDense

  datatype Token = Int(v: int) | Real(x: real)

  /** A token read as a value. */
  function Value(t: Token): real {
    if t.Int? then t.v as real else t.x
  }

  // ---------- the SVDLIB sparse format: each column's length, then its entries ----------

  /** Entry k of the matrix, when it lies in column c. */
  ghost predicate EntryIs(file: seq<Token>, c: nat, k: nat, row: int, x: real) {
    5 + c + 2 * k < |file| && file[4 + c + 2 * k] == Int(row) && Value(file[5 + c + 2 * k]) == x
  }

  ghost predicate HoldsColumn(file: seq<Token>, s: Sparse, c: nat)
    requires WellFormed(s) && c < s.cols
  {
    && 3 + c + 2 * Begin(s, c) < |file|
    && file[3 + c + 2 * Begin(s, c)] == Int(Begin(s, c + 1) - Begin(s, c))
    && forall k :: Begin(s, c) <= k < Begin(s, c + 1) ==> EntryIs(file, c, k, s.rowind[k], s.value[k])
  }

  ghost predicate Holds(file: seq<Token>, s: Sparse) {
    && WellFormed(s) && |file| >= 3 && file[..3] == [Int(s.rows), Int(s.cols), Int(|s.value|)]
    && forall c :: 0 <= c < s.cols ==> HoldsColumn(file, s, c)
  }

  /** The pass of the reader's inner loop: a length that is not positive reads nothing. */
  ghost function Length(t: Token): nat {
    if t.Int? && t.v > 0 then t.v else 0
  }

  /** Entries announced by the columns before c, as far as the file goes. */
  ghost function Place(file: seq<Token>, c: nat): (p: nat) {
    if c == 0 then 0
    else
      var p := Place(file, c - 1);
      if 2 + c + 2 * p < |file| then p + Length(file[2 + c + 2 * p]) else p
  }

  ghost predicate EntryReadable(file: seq<Token>, c: nat, k: nat) {
    5 + c + 2 * k < |file| && file[4 + c + 2 * k].Int?
  }

  ghost predicate ColumnReadable(file: seq<Token>, c: nat, vals: int) {
    && 3 + c + 2 * Place(file, c) < |file| && file[3 + c + 2 * Place(file, c)].Int?
    && Place(file, c + 1) <= vals
    && forall k :: Place(file, c) <= k < Place(file, c + 1) ==> EntryReadable(file, c, k)
  }

  /** Three sizes, at least zero. */
  ghost predicate HeaderReadable(file: seq<Token>) {
    |file| >= 3 && file[0].Int? && file[1].Int? && file[2].Int? && file[0].v >= 0 && file[1].v >= 0 && file[2].v >= 0
  }

  ghost predicate Readable(file: seq<Token>) {
    HeaderReadable(file) && forall c :: 0 <= c < file[1].v ==> ColumnReadable(file, c, file[2].v)
  }

  /** t is what the reader stores for a file it accepts; places that no column covers keep what was there. */
  ghost predicate ReadAs(file: seq<Token>, t: Sparse)
    requires Readable(file)
  {
    && t.rows == file[0].v && t.cols == file[1].v && |t.value| == |t.rowind| == file[2].v && |t.pointr| == t.cols + 1
    && t.pointr[t.cols] == |t.value|
    && (forall c :: 0 <= c < t.cols ==> t.pointr[c] == Place(file, c))
    && forall c :: 0 <= c < t.cols ==> ColumnRead(file, t, c)
  }

  ghost predicate ColumnRead(file: seq<Token>, t: Sparse, c: nat) {
    && |t.value| == |t.rowind|
    && forall k :: Place(file, c) <= k < Place(file, c + 1) && k < |t.value| ==>
         EntryIs(file, c, k, t.rowind[k], t.value[k])
  }

  lemma {:induction false} PlaceIsBegin(file: seq<Token>, s: Sparse, c: nat)
    requires Holds(file, s) && c <= s.cols
    ensures Place(file, c) == Begin(s, c)
  {
    if c > 0 {
      PlaceIsBegin(file, s, c - 1);
      assert HoldsColumn(file, s, c - 1);
    }
  }

  lemma SameEntry(file: seq<Token>, c: nat, k: nat, row: int, x: real, row': int, x': real)
    requires EntryIs(file, c, k, row, x) && EntryIs(file, c, k, row', x')
    ensures row == row' && x == x'
  {
  }

  /** What the row and the value of an entry are, from the two tokens at its place. */
  lemma EntryMeans(file: seq<Token>, c: nat, k: nat, row: int, x: real)
    requires EntryIs(file, c, k, row, x)
    ensures 5 + c + 2 * k < |file| && file[4 + c + 2 * k] == Int(row)
    ensures x == if file[5 + c + 2 * k].Int? then file[5 + c + 2 * k].v as real else file[5 + c + 2 * k].x
  {
  }

  /** A file that holds s is accepted, and there is nothing but s to read from it. */
  lemma HeldIsRead(file: seq<Token>, s: Sparse)
    requires Holds(file, s)
    ensures Readable(file)
    ensures forall t :: ReadAs(file, t) ==> t == s
  {
    hide Place, EntryIs, ColumnTo;
    assert file[0] == file[..3][0] && file[1] == file[..3][1] && file[2] == file[..3][2];
    forall c | 0 <= c < s.cols ensures ColumnReadable(file, c, |s.value|) {
      HeldColumn(file, s, c);
    }
    forall t | ReadAs(file, t) ensures t == s {
      forall c | 0 <= c < s.cols ensures t.pointr[c] == s.pointr[c] {
        PlaceIsBegin(file, s, c);
      }
      assert t.pointr == s.pointr;
      forall k | 0 <= k < |s.value| ensures t.rowind[k] == s.rowind[k] && t.value[k] == s.value[k] {
        var c := ColumnAt(s, k);
        PlaceIsBegin(file, s, c);
        PlaceIsBegin(file, s, c + 1);
        assert ColumnRead(file, t, c) && HoldsColumn(file, s, c);
        SameEntry(file, c, k, t.rowind[k], t.value[k], s.rowind[k], s.value[k]);
      }
    }
  }

  lemma HeldColumn(file: seq<Token>, s: Sparse, c: nat)
    requires Holds(file, s) && c < s.cols
    ensures ColumnReadable(file, c, |s.value|)
  {
    PlaceIsBegin(file, s, c);
    PlaceIsBegin(file, s, c + 1);
    assert HoldsColumn(file, s, c);
    forall k | Place(file, c) <= k < Place(file, c + 1) ensures EntryReadable(file, c, k) {
      assert EntryIs(file, c, k, s.rowind[k], s.value[k]);
    }
  }

  /**
   The converse: a matrix read from an accepted file is well formed and written back unchanged
   when no length is negative, the lengths add up to the announced total and the rows are in range.
   */
  lemma ReadIsHeld(file: seq<Token>, t: Sparse)
    requires Readable(file) && ReadAs(file, t) && Place(file, t.cols) == |t.value|
    requires forall c :: 0 <= c < t.cols ==> LengthSound(file, c)
    requires forall k :: 0 <= k < |t.rowind| ==> 0 <= t.rowind[k] < t.rows
    ensures Holds(file, t)
  {
    hide EntryIs;
    forall c | 0 <= c <= t.cols ensures t.pointr[c] == Place(file, c) {
    }
    forall c, c' | 0 <= c <= c' <= t.cols ensures t.pointr[c] <= t.pointr[c'] {
      PlaceAscends(file, c, c');
    }
    forall c | 0 <= c < t.cols ensures HoldsColumn(file, t, c) {
      assert ColumnReadable(file, c, |t.value|) && ColumnRead(file, t, c) && LengthSound(file, c);
    }
  }

  ghost predicate LengthSound(file: seq<Token>, c: nat) {
    var q := 3 + c + 2 * Place(file, c);
    q < |file| && file[q].Int? && file[q].v >= 0
  }

  lemma {:induction false} PlaceAscends(file: seq<Token>, c: nat, c': nat)
    requires c <= c'
    ensures Place(file, c) <= Place(file, c')
  {
    if c < c' {
      PlaceAscends(file, c, c' - 1);
    }
  }

  /** A dense matrix saved in the sparse format and loaded as dense again is itself. */
  lemma DenseThroughSparse(file: seq<Token>, m: Matrix, s: Sparse, t: Sparse)
    requires IsSparseOf(m, s) && Holds(file, s) && Readable(file) && ReadAs(file, t)
    ensures WellFormed(t) && Dense(t) == m
  {
    hide Holds, Readable, ReadAs, IsSparseOf, Dense;
    HeldIsRead(file, s);
    assert t == s;
    DenseRoundTrip(m, s);
    assert WellFormed(s) by {
      HeldWellFormed(file, s);
    }
  }

  lemma HeldWellFormed(file: seq<Token>, s: Sparse)
    requires Holds(file, s)
    ensures WellFormed(s)
  {
  }

  /** An integer in a value's place spelled as a real, or the same token. */
  ghost predicate Respelled(t: Token, t': Token) {
    t' == t || (t.Int? && t' == Real(t.v as real))
  }

  /** file' is file with the integer at p spelled as a real. */
  ghost predicate RespelledAt(file: seq<Token>, file': seq<Token>, p: nat) {
    && p < |file| == |file'| && file[p].Int? && file'[p] == Real(file[p].v as real)
    && forall q :: 0 <= q < |file| && q != p ==> file'[q] == file[q]
  }

  /** The value of entry k is where no length is, and no row index. */
  lemma LengthElsewhere(file: seq<Token>, c: nat, k: nat, b: nat)
    requires Place(file, c) <= k < Place(file, c + 1)
    ensures 5 + c + 2 * k != 3 + b + 2 * Place(file, b)
  {
    hide Place;
    if b <= c {
      PlaceAscends(file, b, c);
    } else {
      PlaceAscends(file, c + 1, b);
    }
  }

  lemma RowElsewhere(file: seq<Token>, c: nat, k: nat, b: nat, j: nat)
    requires Place(file, c) <= k < Place(file, c + 1) && Place(file, b) <= j < Place(file, b + 1)
    ensures 5 + c + 2 * k != 4 + b + 2 * j
  {
    hide Place;
    if b < c {
      PlaceAscends(file, b + 1, c);
    } else if b > c {
      PlaceAscends(file, c + 1, b);
    }
  }

  lemma SameStep(file: seq<Token>, file': seq<Token>, p: nat, b: nat)
    requires RespelledAt(file, file', p) && Place(file', b) == Place(file, b) && p != 3 + b + 2 * Place(file, b)
    ensures Place(file', b + 1) == Place(file, b + 1)
  {
  }

  lemma PlaceStart(file: seq<Token>)
    ensures Place(file, 0) == 0
  {
  }

  lemma {:induction false} PlaceRespelled(file: seq<Token>, file': seq<Token>, c: nat, k: nat, b: nat)
    requires Place(file, c) <= k < Place(file, c + 1) && RespelledAt(file, file', 5 + c + 2 * k)
    ensures Place(file', b) == Place(file, b)
  {
    hide Place, RespelledAt;
    if b == 0 {
      PlaceStart(file);
      PlaceStart(file');
    } else {
      PlaceRespelled(file, file', c, k, b - 1);
      LengthElsewhere(file, c, k, b - 1);
      SameStep(file, file', 5 + c + 2 * k, b - 1);
    }
  }

  lemma EntryRespelled(file: seq<Token>, file': seq<Token>, p: nat, c: nat, k: nat, row: int, x: real)
    requires RespelledAt(file, file', p) && p != 4 + c + 2 * k
    ensures EntryReadable(file', c, k) <==> EntryReadable(file, c, k)
    ensures EntryIs(file', c, k, row, x) <==> EntryIs(file, c, k, row, x)
  {
  }

  lemma ColumnReadableRespelled(file: seq<Token>, file': seq<Token>, c: nat, k: nat, b: nat, vals: int)
    requires Place(file, c) <= k < Place(file, c + 1) && RespelledAt(file, file', 5 + c + 2 * k)
    ensures ColumnReadable(file', b, vals) <==> ColumnReadable(file, b, vals)
  {
    hide Place, EntryReadable, EntryIs;
    PlaceRespelled(file, file', c, k, b);
    PlaceRespelled(file, file', c, k, b + 1);
    LengthElsewhere(file, c, k, b);
    forall j: nat | Place(file, b) <= j < Place(file, b + 1)
      ensures EntryReadable(file', b, j) <==> EntryReadable(file, b, j)
    {
      RowElsewhere(file, c, k, b, j);
      EntryRespelled(file, file', 5 + c + 2 * k, b, j, 0, 0.0);
    }
    hide RespelledAt;
  }

  lemma ColumnReadRespelled(file: seq<Token>, file': seq<Token>, c: nat, k: nat, b: nat, t: Sparse)
    requires Place(file, c) <= k < Place(file, c + 1) && RespelledAt(file, file', 5 + c + 2 * k)
    ensures ColumnRead(file', t, b) <==> ColumnRead(file, t, b)
  {
    hide Place, EntryReadable, EntryIs, RespelledAt;
    PlaceRespelled(file, file', c, k, b);
    PlaceRespelled(file, file', c, k, b + 1);
    forall j: nat | Place(file, b) <= j < Place(file, b + 1) && j < |t.value| == |t.rowind|
      ensures EntryIs(file', b, j, t.rowind[j], t.value[j]) <==> EntryIs(file, b, j, t.rowind[j], t.value[j])
    {
      RowElsewhere(file, c, k, b, j);
      EntryRespelled(file, file', 5 + c + 2 * k, b, j, t.rowind[j], t.value[j]);
    }
  }

  lemma HeaderRespelled(file: seq<Token>, file': seq<Token>, p: nat)
    requires RespelledAt(file, file', p) && p >= 3
    ensures HeaderReadable(file') <==> HeaderReadable(file)
    ensures HeaderReadable(file) ==> file'[0] == file[0] && file'[1] == file[1] && file'[2] == file[2]
  {
  }

  /** An integer in the place of a stored value may be spelled as a real: the same matrix is loaded. */
  lemma SparseRespelled(file: seq<Token>, file': seq<Token>, c: nat, k: nat)
    requires Place(file, c) <= k < Place(file, c + 1) && RespelledAt(file, file', 5 + c + 2 * k)
    ensures Readable(file') <==> Readable(file)
    ensures Readable(file) ==> forall t :: ReadAs(file', t) <==> ReadAs(file, t)
  {
    HeaderRespelled(file, file', 5 + c + 2 * k);
    hide Place, ColumnRead, ColumnReadable, RespelledAt, HeaderReadable;
    if HeaderReadable(file) {
      forall b: nat ensures ColumnReadable(file', b, file[2].v) <==> ColumnReadable(file, b, file[2].v) {
        ColumnReadableRespelled(file, file', c, k, b, file[2].v);
      }
      if Readable(file) {
        forall t ensures ReadAs(file', t) <==> ReadAs(file, t) {
          ReadAsRespelled(file, file', c, k, t);
        }
      }
    }
  }

  lemma ReadAsRespelled(file: seq<Token>, file': seq<Token>, c: nat, k: nat, t: Sparse)
    requires Place(file, c) <= k < Place(file, c + 1) && RespelledAt(file, file', 5 + c + 2 * k)
    requires Readable(file) && Readable(file')
    ensures ReadAs(file', t) <==> ReadAs(file, t)
  {
    HeaderRespelled(file, file', 5 + c + 2 * k);
    hide Place, ColumnRead, ColumnReadable, RespelledAt, HeaderReadable;
    forall b: nat ensures Place(file', b) == Place(file, b) && (ColumnRead(file', t, b) <==> ColumnRead(file, t, b)) {
      PlaceRespelled(file, file', c, k, b);
      ColumnReadRespelled(file, file', c, k, b, t);
    }
  }

  // ---------- the Harwell-Boeing format: pointers, rows, values, counted from one ----------

  /** The third line's numbers, then the numbers after the format line. */
  datatype HBFile = HBFile(sizes: seq<Token>, body: seq<Token>)

  ghost predicate RowsAt(body: seq<Token>, from: nat, rows: seq<int>) {
    && from + |rows| <= |body|
    && forall i :: from <= i < from + |rows| ==> body[i] == Int(rows[i - from] + 1)
  }

  ghost predicate ValuesAt(body: seq<Token>, from: nat, values: seq<real>) {
    && from + |values| <= |body|
    && forall i :: from <= i < from + |values| ==> Value(body[i]) == values[i - from]
  }

  ghost predicate HoldsHB(file: HBFile, s: Sparse) {
    && WellFormed(s) && file.sizes == [Int(s.rows), Int(s.cols), Int(|s.value|), Int(0)]
    && s.cols + 1 + 2 * |s.value| <= |file.body|
    && (forall c :: 0 <= c <= s.cols ==> file.body[c] == Int(s.pointr[c] + 1))
    && RowsAt(file.body, s.cols + 1, s.rowind) && ValuesAt(file.body, s.cols + 1 + |s.value|, s.value)
  }

  ghost predicate SizesReadable(file: HBFile) {
    && |file.sizes| >= 4 && (forall i :: 0 <= i < 4 ==> file.sizes[i].Int?) && file.sizes[3].v == 0
    && file.sizes[0].v >= 0 && file.sizes[1].v >= 0 && file.sizes[2].v >= 0
  }

  ghost predicate ReadableHB(file: HBFile) {
    SizesReadable(file) &&
    var cols, vals := file.sizes[1].v, file.sizes[2].v;
    && |file.body| >= cols + 1 + 2 * vals
    && (forall i :: 0 <= i < cols + 1 + vals ==> file.body[i].Int?)
  }

  /** The last pointer is stored as the number of entries, whatever the file says. */
  ghost predicate ReadAsHB(file: HBFile, t: Sparse)
    requires ReadableHB(file)
  {
    && t.rows == file.sizes[0].v && t.cols == file.sizes[1].v && |t.value| == |t.rowind| == file.sizes[2].v
    && |t.pointr| == t.cols + 1 && t.pointr[t.cols] == |t.value|
    && (forall c :: 0 <= c < t.cols ==> file.body[c] == Int(t.pointr[c] + 1))
    && RowsAt(file.body, t.cols + 1, t.rowind) && ValuesAt(file.body, t.cols + 1 + |t.value|, t.value)
  }

  lemma HeldIsReadHB(file: HBFile, s: Sparse)
    requires HoldsHB(file, s)
    ensures ReadableHB(file)
    ensures forall t :: ReadAsHB(file, t) ==> t == s
  {
    var cols, vals := s.cols, |s.value|;
    forall t | ReadAsHB(file, t) ensures t == s {
      forall c | 0 <= c < cols ensures t.pointr[c] == s.pointr[c] {
        assert file.body[c] == Int(s.pointr[c] + 1);
      }
      forall k | 0 <= k < vals ensures t.rowind[k] == s.rowind[k] && t.value[k] == s.value[k] {
        assert file.body[cols + 1 + k] == Int(s.rowind[k] + 1) && Value(file.body[cols + 1 + vals + k]) == s.value[k];
      }
      assert t.pointr == s.pointr && t.rowind == s.rowind && t.value == s.value;
    }
  }

  /** Values may be spelled as integers or as reals: the same matrix is loaded. */
  lemma HBRespelled(file: HBFile, file': HBFile)
    requires SizesReadable(file) && file'.sizes == file.sizes && |file'.body| == |file.body|
    requires var first := file.sizes[1].v + 1 + file.sizes[2].v;
             && (forall q :: 0 <= q < |file.body| && q < first ==> file'.body[q] == file.body[q])
             && forall q :: first <= q < |file.body| ==> Respelled(file.body[q], file'.body[q])
    ensures ReadableHB(file') <==> ReadableHB(file)
    ensures ReadableHB(file) ==> forall t :: ReadAsHB(file', t) <==> ReadAsHB(file, t)
  {
    forall t | ReadableHB(file) ensures ReadAsHB(file', t) <==> ReadAsHB(file, t) {
      var first := file.sizes[1].v + 1 + file.sizes[2].v;
      if |t.value| == file.sizes[2].v {
        SameValues(file.body, file'.body, first, t.value);
      }
      if |t.rowind| == file.sizes[2].v {
        SameRows(file.body, file'.body, file.sizes[1].v + 1, t.rowind);
      }
    }
  }

  lemma SameValues(body: seq<Token>, body': seq<Token>, from: nat, values: seq<real>)
    requires |body'| == |body| && forall q :: from <= q < |body| ==> Respelled(body[q], body'[q])
    ensures ValuesAt(body', from, values) <==> ValuesAt(body, from, values)
  {
    assert forall q :: from <= q < |body| ==> Value(body'[q]) == Value(body[q]);
  }

  lemma SameRows(body: seq<Token>, body': seq<Token>, from: nat, rows: seq<int>)
    requires |body'| == |body| && forall q :: 0 <= q < |body| && q < from + |rows| ==> body'[q] == body[q]
    ensures RowsAt(body', from, rows) <==> RowsAt(body, from, rows)
  {
  }

  // ---------- the dense format: sizes, then the rows ----------

  ghost function Cell(cols: nat, i: nat, j: nat): nat {
    2 + i * cols + j
  }

  ghost predicate CellIs(file: seq<Token>, cols: nat, i: nat, j: nat, x: real) {
    Cell(cols, i, j) < |file| && Value(file[Cell(cols, i, j)]) == x
  }

  ghost predicate HoldsDense(file: seq<Token>, m: Matrix, rows: nat, cols: nat) {
    && IsMatrix(m, rows, cols) && |file| >= 2 && file[..2] == [Int(rows), Int(cols)]
    && forall i, j :: 0 <= i < rows && 0 <= j < cols ==> CellIs(file, cols, i, j, m[i][j])
  }

  ghost predicate CellReadable(file: seq<Token>, cols: nat, i: nat, j: nat) {
    Cell(cols, i, j) < |file|
  }

  ghost predicate DenseHeader(file: seq<Token>) {
    |file| >= 2 && file[0].Int? && file[1].Int? && file[0].v >= 1 && file[1].v >= 0
  }

  ghost predicate DenseReadable(file: seq<Token>) {
    DenseHeader(file) && forall i, j :: 0 <= i < file[0].v && 0 <= j < file[1].v ==> CellReadable(file, file[1].v, i, j)
  }

  lemma HeldIsReadDense(file: seq<Token>, m: Matrix, rows: nat, cols: nat)
    requires HoldsDense(file, m, rows, cols) && rows >= 1
    ensures DenseReadable(file)
    ensures forall w :: HoldsDense(file, w, rows, cols) ==> w == m
  {
    hide Cell;
    assert file[0] == file[..2][0] && file[1] == file[..2][1];
    forall i, j | 0 <= i < rows && 0 <= j < cols ensures CellReadable(file, cols, i, j) {
      assert CellIs(file, cols, i, j, m[i][j]);
    }
    forall w | HoldsDense(file, w, rows, cols) ensures w == m {
      forall i | 0 <= i < rows ensures w[i] == m[i] {
        forall j | 0 <= j < cols ensures w[i][j] == m[i][j] {
          assert CellIs(file, cols, i, j, m[i][j]) && CellIs(file, cols, i, j, w[i][j]);
        }
      }
    }
  }

  /** What the value of a cell is, from the token at its place. */
  lemma CellMeans(file: seq<Token>, cols: nat, i: nat, j: nat, x: real)
    requires CellIs(file, cols, i, j, x)
    ensures var p := 2 + i * cols + j;
            2 <= p < |file| && x == if file[p].Int? then file[p].v as real else file[p].x
  {
    assert i * cols >= 0;
  }

  /** The cells may be spelled as integers or as reals: the same matrix is loaded. */
  lemma DenseRespelled(file: seq<Token>, file': seq<Token>)
    requires |file'| == |file| >= 2 && file'[..2] == file[..2]
    requires forall q :: 2 <= q < |file| ==> Respelled(file[q], file'[q])
    ensures DenseReadable(file') <==> DenseReadable(file)
    ensures forall m, rows: nat, cols: nat :: HoldsDense(file', m, rows, cols) <==> HoldsDense(file, m, rows, cols)
  {
    hide CellIs, CellReadable, Respelled;
    assert file'[0] == file'[..2][0] == file[0] && file'[1] == file'[..2][1] == file[1];
    forall i: nat, j: nat, cols: nat ensures CellReadable(file', cols, i, j) <==> CellReadable(file, cols, i, j)
    {
      CellRespelled(file, file', cols, i, j, 0.0);
    }
    forall i: nat, j: nat, cols: nat, x ensures CellIs(file', cols, i, j, x) <==> CellIs(file, cols, i, j, x)
    {
      CellRespelled(file, file', cols, i, j, x);
    }
  }

  lemma CellRespelled(file: seq<Token>, file': seq<Token>, cols: nat, i: nat, j: nat, x: real)
    requires |file'| == |file| && forall q :: 2 <= q < |file| ==> Respelled(file[q], file'[q])
    ensures CellReadable(file', cols, i, j) <==> CellReadable(file, cols, i, j)
    ensures CellIs(file', cols, i, j, x) <==> CellIs(file, cols, i, j, x)
  {
    assert i * cols >= 0;
  }

  /**
   A sparse matrix saved in a dense format and loaded again: every column comes back sorted by row,
   with the same values exactly when no cell is stored twice and no zero is stored.
   */
  lemma SparseThroughDense(file: seq<Token>, s: Sparse, m: Matrix, u: Sparse, c: nat)
    requires WellFormed(s) && s.rows >= 1 && HoldsDense(file, Dense(s), s.rows, s.cols) && c < s.cols
    requires HoldsDense(file, m, s.rows, s.cols) && IsSparseOf(m, u) && u.rows == s.rows && u.cols == s.cols
    ensures SortedKeys(Column(u, c))
    ensures SamePicks(Column(u, c), Column(s, c)) <==> CleanColumn(s, c)
  {
    HeldIsReadDense(file, Dense(s), s.rows, s.cols);
    SparseRoundTrip(s, u, c);
  }
}
