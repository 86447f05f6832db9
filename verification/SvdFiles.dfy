/**
 The readers and writers of svdlib.c over the token streams of `SvdFormats`.
 `Failed` is a reader's error return, and also a file that announces sizes
 below zero or more entries than it made room for.
 */
module SvdFiles {
  import opened SparseValues
  import opened SparseTranspose
  import opened SparseDense
  import opened Svdlib
  import opened SvdFormats

  datatype Loaded = Failed | Matrix(m: SMat)

  datatype LoadedDense = NotDense | DenseMatrix(d: DMat)

  // ---------- SVDLIB sparse text and binary ----------

  /** Column c as the writers put it: its length, then the row and the value of each entry. */
  ghost predicate ColumnWritten(file: seq<Token>, s: Sparse, c: nat)
    requires WellFormed(s) && c < s.cols
  {
    && 3 + c + 2 * s.pointr[c] < |file| && file[3 + c + 2 * s.pointr[c]] == Int(s.pointr[c + 1] - s.pointr[c])
    && forall k :: s.pointr[c] <= k < s.pointr[c + 1] ==> EntryWritten(file, c, k, s.rowind[k], s.value[k])
  }

  ghost predicate EntryWritten(file: seq<Token>, c: nat, k: nat, row: int, x: real) {
    5 + c + 2 * k < |file| && file[4 + c + 2 * k] == Int(row) && file[5 + c + 2 * k] == Real(x)
  }

  lemma ExtendColumn(file: seq<Token>, more: seq<Token>, s: Sparse, c: nat)
    requires WellFormed(s) && c < s.cols && ColumnWritten(file, s, c)
    ensures ColumnWritten(file + more, s, c)
  {
    assert Begin(s, c) == s.pointr[c];
    forall k | s.pointr[c] <= k < s.pointr[c + 1] ensures EntryWritten(file + more, c, k, s.rowind[k], s.value[k]) {
      assert EntryWritten(file, c, k, s.rowind[k], s.value[k]);
    }
  }

  /** What is written is what the format says. */
  lemma WrittenHolds(file: seq<Token>, s: Sparse, c: nat)
    requires WellFormed(s) && c < s.cols && ColumnWritten(file, s, c)
    ensures HoldsColumn(file, s, c)
  {
    assert Begin(s, c) == s.pointr[c] && Begin(s, c + 1) == s.pointr[c + 1];
    forall k | Begin(s, c) <= k < Begin(s, c + 1) ensures EntryIs(file, c, k, s.rowind[k], s.value[k]) {
      assert EntryWritten(file, c, k, s.rowind[k], s.value[k]);
    }
  }

  /** svdWriteSparseTextFile and svdWriteSparseBinaryFile. */
  method WriteSparse(S: SMat) returns (file: seq<Token>)
    requires S.Valid()
    ensures Holds(file, S.Now()) && |file| == 3 + S.cols + 2 * S.vals
    ensures file[..3] == [Int(S.rows), Int(S.cols), Int(S.vals)]
    ensures forall c :: 0 <= c < S.cols ==> ColumnWritten(file, S.Now(), c)
  {
    hide HoldsColumn, ColumnWritten;
    ghost var s := S.Now();
    file := [Int(S.rows), Int(S.cols), Int(S.vals)];
    var c, v := 0, 0;
    while c < S.cols
      invariant c <= S.cols && v == Begin(s, c) && |file| == 3 + c + 2 * v
      invariant file[..3] == [Int(s.rows), Int(s.cols), Int(|s.value|)]
      invariant forall b :: 0 <= b < c ==> ColumnWritten(file, s, b)
    {
      ghost var before := file;
      file, v := WriteColumn(S, c, v, file);
      forall b | 0 <= b < c ensures ColumnWritten(file, s, b) {
        ExtendColumn(before, file[|before|..], s, b);
        assert before + file[|before|..] == file;
      }
      assert file[..3] == before[..3];
      c := c + 1;
    }
    forall b | 0 <= b < S.cols ensures HoldsColumn(file, s, b) {
      WrittenHolds(file, s, b);
    }
  }

  /** The loop body of the sparse writers: one column's length and entries. */
  method WriteColumn(S: SMat, c: nat, v0: nat, file0: seq<Token>) returns (file: seq<Token>, v: nat)
    requires S.Valid() && c < S.cols && v0 == Begin(S.Now(), c) && |file0| == 3 + c + 2 * v0
    ensures v == Begin(S.Now(), c + 1) && |file| == 4 + c + 2 * v && file0 <= file
    ensures ColumnWritten(file, S.Now(), c)
  {
    ghost var s := S.Now();
    file, v := file0 + [Int(S.pointr[c + 1] - S.pointr[c])], v0;
    ColumnBounds(s, c);
    while v < S.pointr[c + 1]
      invariant v0 <= v <= Begin(s, c + 1) && |file| == 4 + c + 2 * v && file0 <= file
      invariant file[3 + c + 2 * v0] == Int(Begin(s, c + 1) - Begin(s, c))
      invariant forall k :: v0 <= k < v ==> EntryWritten(file, c, k, s.rowind[k], s.value[k])
    {
      file := file + [Int(S.rowind[v]), Real(S.value[v])];
      v := v + 1;
    }
  }

  /** Entry k of column c as the readers store it: its row, and its value in either spelling. */
  ghost predicate EntryStored(file: seq<Token>, t: Sparse, c: nat, k: nat) {
    && k < |t.rowind| == |t.value| && 5 + c + 2 * k < |file| && file[4 + c + 2 * k] == Int(t.rowind[k])
    && t.value[k] == if file[5 + c + 2 * k].Int? then file[5 + c + 2 * k].v as real else file[5 + c + 2 * k].x
  }

  /** Column c, begun by its length, from its first entry on; the next column begins after them. */
  ghost predicate ColumnStored(file: seq<Token>, t: Sparse, c: nat) {
    c + 1 < |t.pointr| && t.pointr[c] >= 0 &&
    var q, first := 3 + c + 2 * t.pointr[c], t.pointr[c];
    && q < |file| && file[q].Int?
    && (c + 1 < t.cols ==> t.pointr[c + 1] == first + if file[q].v > 0 then file[q].v else 0)
    && forall k :: first <= k < first + file[q].v ==> EntryStored(file, t, c, k)
  }

  /** The sizes, and the columns one after another. */
  ghost predicate Stored(file: seq<Token>, t: Sparse) {
    && |t.pointr| == t.cols + 1 && t.pointr[t.cols] == |t.value| == |t.rowind| && (t.cols > 0 ==> t.pointr[0] == 0)
    && |file| >= 3 && file[0] == Int(t.rows) && file[1] == Int(t.cols) && file[2] == Int(|t.value|)
    && forall c :: 0 <= c < t.cols ==> ColumnStored(file, t, c)
  }

  lemma ColumnIsStored(file: seq<Token>, t: Sparse, c: nat)
    requires Readable(file) && ReadAs(file, t) && c < t.cols
    ensures ColumnStored(file, t, c)
  {
    assert ColumnReadable(file, c, |t.value|) && ColumnRead(file, t, c);
    var first := Place(file, c);
    assert Place(file, c + 1) == first + Length(file[3 + c + 2 * first]);
    hide Place, EntryReadable, EntryIs;
    forall k | first <= k < first + file[3 + c + 2 * first].v ensures EntryStored(file, t, c, k) {
      EntryMeans(file, c, k, t.rowind[k], t.value[k]);
    }
  }

  lemma ReadIsStored(file: seq<Token>, t: Sparse)
    requires Readable(file) && ReadAs(file, t)
    ensures Stored(file, t)
  {
    PlaceStart(file);
    hide Place, ColumnStored, ColumnRead, ColumnReadable;
    forall c | 0 <= c < t.cols ensures ColumnStored(file, t, c) {
      ColumnIsStored(file, t, c);
    }
  }

  lemma {:induction false} StoredPlace(file: seq<Token>, t: Sparse, c: nat)
    requires Stored(file, t) && c <= t.cols
    ensures Place(file, c) <= |t.value| && (c < t.cols ==> Place(file, c) == t.pointr[c])
  {
    hide EntryStored;
    if c == 0 {
      PlaceStart(file);
    } else {
      StoredPlace(file, t, c - 1);
      assert ColumnStored(file, t, c - 1);
      var q, first := 3 + (c - 1) + 2 * t.pointr[c - 1], t.pointr[c - 1];
      assert Place(file, c) == first + Length(file[q]);
      if file[q].v > 0 {
        StoredWithin(file, t, c - 1, first + file[q].v - 1);
      }
    }
  }

  lemma StoredWithin(file: seq<Token>, t: Sparse, c: nat, k: nat)
    requires ColumnStored(file, t, c)
    requires t.pointr[c] <= k < t.pointr[c] + file[3 + c + 2 * t.pointr[c]].v
    ensures k < |t.value| && EntryReadable(file, c, k)
  {
    assert EntryStored(file, t, c, k);
  }

  /** Every file that a matrix can be read from is accepted. */
  lemma StoredIsReadable(file: seq<Token>, t: Sparse)
    requires Stored(file, t)
    ensures Readable(file)
  {
    forall c | 0 <= c < t.cols ensures ColumnReadable(file, c, |t.value|) {
      StoredPlace(file, t, c);
      StoredPlace(file, t, c + 1);
      assert ColumnStored(file, t, c);
      hide EntryStored, EntryReadable;
      forall k | Place(file, c) <= k < Place(file, c + 1) ensures EntryReadable(file, c, k) {
        StoredWithin(file, t, c, k);
      }
    }
  }

  lemma NothingStored(file: seq<Token>)
    ensures !Readable(file) ==> forall t :: !Stored(file, t)
  {
    forall t | Stored(file, t) ensures Readable(file) {
      StoredIsReadable(file, t);
    }
  }

  /** svdLoadSparseTextFile and svdLoadSparseBinaryFile: the files accepted, and what is read from them. */
  method LoadSparse(file: seq<Token>) returns (r: Loaded)
    ensures r.Matrix? <==> Readable(file)
    ensures r.Matrix? ==> fresh(r.m) && r.m.Shape() && ReadAs(file, r.m.Now())
    ensures r.Matrix? ==> Stored(file, r.m.Now())
    ensures r.Failed? ==> forall t :: !Stored(file, t)
  {
    hide Stored, Place, ColumnRead, ColumnReadable;
    NothingStored(file);
    if |file| < 3 || !file[0].Int? || !file[1].Int? || !file[2].Int? {
      return Failed;
    }
    var rows, cols, vals := file[0].v, file[1].v, file[2].v;
    if rows < 0 || cols < 0 || vals < 0 {
      return Failed;
    }
    var S := new SMat(rows, cols, vals);
    var c, v := 0, 0;
    PlaceStart(file);
    while c < cols
      invariant 0 <= c <= cols && v == Place(file, c) <= vals && S.Shape()
      invariant S.rows == rows && S.cols == cols && S.vals == vals
      invariant fresh(S) && fresh(S.pointr) && fresh(S.rowind) && fresh(S.value)
      invariant forall b :: 0 <= b < c ==> ColumnReadable(file, b, vals)
      invariant forall b :: 0 <= b < c ==> S.pointr[b] == Place(file, b)
      invariant forall b :: 0 <= b < c ==> ColumnRead(file, S.Now(), b)
    {
      ghost var t := S.Now();
      var ok;
      ok, v := LoadColumn(file, S, c, v);
      if !ok {
        assert !ColumnReadable(file, c, vals);
        return Failed;
      }
      forall b | 0 <= b < c ensures ColumnRead(file, S.Now(), b) {
        ReadBefore(file, t, S.Now(), b, c);
      }
      c := c + 1;
    }
    ghost var t := S.Now();
    S.pointr[cols] := vals;
    forall b | 0 <= b < cols ensures ColumnRead(file, S.Now(), b) {
      SameColumns(file, t, S.Now(), b);
    }
    ReadIsStored(file, S.Now());
    return Matrix(S);
  }

  /** Entries stored from column c on leave the columns before it as they were read. */
  lemma ReadBefore(file: seq<Token>, t: Sparse, u: Sparse, b: nat, c: nat)
    requires ColumnRead(file, t, b) && b < c && |u.value| == |t.value| && |u.rowind| == |t.rowind|
    requires forall k :: 0 <= k < Place(file, c) && k < |t.value| ==>
      u.rowind[k] == t.rowind[k] && u.value[k] == t.value[k]
    ensures ColumnRead(file, u, b)
  {
    PlaceAscends(file, b + 1, c);
  }

  lemma SameColumns(file: seq<Token>, t: Sparse, u: Sparse, b: nat)
    requires ColumnRead(file, t, b) && u.value == t.value && u.rowind == t.rowind
    ensures ColumnRead(file, u, b)
  {
  }

  /** The loop body of the sparse readers: column c, whose length is the next token. */
  method LoadColumn(file: seq<Token>, S: SMat, c: nat, v0: nat) returns (ok: bool, v: nat)
    requires S.Shape() && c < S.cols && v0 == Place(file, c) <= S.vals
    modifies S.pointr, S.rowind, S.value
    ensures ok <==> ColumnReadable(file, c, S.vals)
    ensures ok ==> v == Place(file, c + 1) <= S.vals && S.pointr[c] == v0 && ColumnRead(file, S.Now(), c)
    ensures ok ==> forall k :: v0 <= k < v ==> EntryStored(file, S.Now(), c, k)
    ensures forall b :: 0 <= b < S.pointr.Length && b != c ==> S.pointr[b] == old(S.pointr[b])
    ensures forall k :: 0 <= k < v0 ==> S.rowind[k] == old(S.rowind[k]) && S.value[k] == old(S.value[k])
  {
    v := v0;
    var q := 3 + c + 2 * v;
    if q >= |file| || !file[q].Int? {
      return false, v;
    }
    var n := file[q].v;
    assert Place(file, c + 1) == v0 + Length(file[q]);
    q := q + 1;
    S.pointr[c] := v;
    var i := 0;
    while i < n
      invariant 0 <= i && (i <= n || i == 0) && v == v0 + i <= S.vals && q == 4 + c + 2 * v
      invariant S.pointr[c] == v0 && forall b :: 0 <= b < S.pointr.Length && b != c ==> S.pointr[b] == old(S.pointr[b])
      invariant forall k :: 0 <= k < v0 ==> S.rowind[k] == old(S.rowind[k]) && S.value[k] == old(S.value[k])
      invariant forall k :: v0 <= k < v ==> EntryReadable(file, c, k) && EntryIs(file, c, k, S.rowind[k], S.value[k])
    {
      if q + 1 >= |file| || !file[q].Int? {
        assert !EntryReadable(file, c, v);
        return false, v;
      }
      if v >= S.vals {
        return false, v;
      }
      S.rowind[v] := file[q].v;
      S.value[v] := Value(file[q + 1]);
      q := q + 2;
      i, v := i + 1, v + 1;
    }
    forall k | v0 <= k < v ensures EntryStored(file, S.Now(), c, k) {
      EntryMeans(file, c, k, S.rowind[k], S.value[k]);
    }
    ok := true;
  }

  // ---------- Harwell-Boeing ----------

  /** svdWriteSparseTextHBFile, from its third line on. */
  method WriteSparseHB(S: SMat) returns (file: HBFile)
    requires S.Valid()
    ensures HoldsHB(file, S.Now())
    ensures CountedFromOne(file, S.Now())
  {
    hide HoldsHB, WellFormed, CountedFromOne, CountedAt, RealsAt;
    var body := WriteCounted(S.pointr, []);
    ghost var pointers := body;
    body := WriteCounted(S.rowind, body);
    ghost var indices := body;
    body := WriteValues(S.value, body);
    file := HBFile([Int(S.rows), Int(S.cols), Int(S.vals), Int(0)], body);
    AllCounted(file, S.Now(), pointers, indices);
    CountedHolds(file, S.Now());
  }

  /** The whole body as the writer puts it: pointers and rows counted from one, then the values. */
  ghost predicate CountedFromOne(file: HBFile, s: Sparse) {
    var rows, values := |s.pointr|, |s.pointr| + |s.rowind|;
    && file.sizes == [Int(s.rows), Int(s.cols), Int(|s.value|), Int(0)] && |file.body| == values + |s.value|
    && (forall q :: 0 <= q < rows ==> file.body[q] == Int(s.pointr[q] + 1))
    && (forall q :: rows <= q < values ==> file.body[q] == Int(s.rowind[q - rows] + 1))
    && (forall q :: values <= q < |file.body| ==> file.body[q] == Real(s.value[q - values]))
  }

  ghost predicate CountedAt(body: seq<Token>, from: nat, xs: seq<int>) {
    |body| == from + |xs| && forall q :: from <= q < |body| ==> body[q] == Int(xs[q - from] + 1)
  }

  ghost predicate RealsAt(body: seq<Token>, from: nat, xs: seq<real>) {
    |body| == from + |xs| && forall q :: from <= q < |body| ==> body[q] == Real(xs[q - from])
  }

  lemma AllCounted(file: HBFile, s: Sparse, pointers: seq<Token>, indices: seq<Token>)
    requires file.sizes == [Int(s.rows), Int(s.cols), Int(|s.value|), Int(0)]
    requires pointers <= indices <= file.body
    requires CountedAt(pointers, 0, s.pointr) && CountedAt(indices, |pointers|, s.rowind)
    requires RealsAt(file.body, |indices|, s.value)
    ensures CountedFromOne(file, s)
  {
  }

  lemma CountedHolds(file: HBFile, s: Sparse)
    requires WellFormed(s) && CountedFromOne(file, s)
    ensures HoldsHB(file, s)
  {
  }

  /** The pointer and row loops of svdWriteSparseTextHBFile: integers counted from one. */
  method WriteCounted(a: array<int>, body0: seq<Token>) returns (body: seq<Token>)
    ensures body0 <= body && CountedAt(body, |body0|, a[..])
  {
    body := body0;
    var i := 0;
    while i < a.Length
      invariant i <= a.Length && |body| == |body0| + i && body0 <= body
      invariant forall q :: |body0| <= q < |body| ==> body[q] == Int(a[q - |body0|] + 1)
    {
      body := body + [Int(a[i] + 1)];
      i := i + 1;
    }
  }

  /** The value loop of svdWriteSparseTextHBFile. */
  method WriteValues(a: array<real>, body0: seq<Token>) returns (body: seq<Token>)
    ensures body0 <= body && RealsAt(body, |body0|, a[..])
  {
    body := body0;
    var i := 0;
    while i < a.Length
      invariant i <= a.Length && |body| == |body0| + i && body0 <= body
      invariant forall q :: |body0| <= q < |body| ==> body[q] == Real(a[q - |body0|])
    {
      body := body + [Real(a[i])];
      i := i + 1;
    }
  }

  /** The sizes, pointers and rows one below the numbers in the file, and the values in either spelling. */
  ghost predicate StoredHB(file: HBFile, t: Sparse) {
    var rows, values := t.cols + 1, t.cols + 1 + |t.value|;
    && |file.sizes| >= 4 && file.sizes[..4] == [Int(t.rows), Int(t.cols), Int(|t.value|), Int(0)]
    && |t.pointr| == t.cols + 1 && t.pointr[t.cols] == |t.value| == |t.rowind| && |file.body| >= values + |t.value|
    && (forall q :: 0 <= q < values ==> file.body[q].Int?)
    && (forall q :: 0 <= q < t.cols ==> t.pointr[q] == file.body[q].v - 1)
    && (forall q :: rows <= q < values ==> t.rowind[q - rows] == file.body[q].v - 1)
    && (forall q :: values <= q < values + |t.value| ==>
          t.value[q - values] == if file.body[q].Int? then file.body[q].v as real else file.body[q].x)
  }

  lemma ReadIsStoredHB(file: HBFile, t: Sparse)
    requires ReadableHB(file) && ReadAsHB(file, t)
    ensures StoredHB(file, t)
  {
  }

  /** Every file that a matrix can be read from is accepted. */
  lemma NothingStoredHB(file: HBFile)
    ensures !ReadableHB(file) ==> forall t :: !StoredHB(file, t)
  {
    forall t | StoredHB(file, t) ensures ReadableHB(file) {
      assert file.sizes[..4][3] == Int(0) && file.sizes[..4][0] == file.sizes[0];
      assert file.sizes[..4][1] == file.sizes[1] && file.sizes[..4][2] == file.sizes[2];
    }
  }

  /** svdLoadSparseTextHBFile, from its third line on. */
  method LoadSparseHB(file: HBFile) returns (r: Loaded)
    ensures r.Matrix? <==> ReadableHB(file)
    ensures r.Matrix? ==> fresh(r.m) && r.m.Shape() && ReadAsHB(file, r.m.Now())
    ensures r.Matrix? ==> StoredHB(file, r.m.Now())
    ensures r.Failed? ==> forall t :: !StoredHB(file, t)
  {
    NothingStoredHB(file);
    var sizes, body := file.sizes, file.body;
    if |sizes| < 4 || !sizes[0].Int? || !sizes[1].Int? || !sizes[2].Int? || !sizes[3].Int? || sizes[3].v != 0 {
      return Failed;
    }
    var rows, cols, vals := sizes[0].v, sizes[1].v, sizes[2].v;
    if rows < 0 || cols < 0 || vals < 0 {
      return Failed;
    }
    BodyReadable(file);
    hide ReadableHB, ReadAsHB, StoredHB, IntsAt, RowsAt, ValuesAt;
    var S := new SMat(rows, cols, vals);
    var ok := ReadCounted(body, 0, S.pointr);
    if !ok {
      return Failed;
    }
    ghost var pointr := S.pointr[..];
    S.pointr[cols] := vals;
    ok := ReadCounted(body, cols + 1, S.rowind);
    if !ok {
      return Failed;
    }
    ok := ReadValues(body, cols + 1 + vals, S.value);
    if !ok {
      return Failed;
    }
    assert S.pointr[..] == pointr[cols := vals];
    BodyRead(file, S.Now(), pointr);
    ReadIsStoredHB(file, S.Now());
    return Matrix(S);
  }

  ghost predicate IntsAt(body: seq<Token>, from: nat, n: nat) {
    from + n <= |body| && forall i :: from <= i < from + n ==> body[i].Int?
  }

  lemma BodyReadable(file: HBFile)
    requires SizesReadable(file)
    ensures var cols, vals := file.sizes[1].v, file.sizes[2].v;
            ReadableHB(file) <==> IntsAt(file.body, 0, cols + 1) && IntsAt(file.body, cols + 1, vals)
                                  && cols + 1 + vals + vals <= |file.body|
  {
  }

  lemma BodyRead(file: HBFile, t: Sparse, pointr: seq<int>)
    requires ReadableHB(file) && t.rows == file.sizes[0].v && t.cols == file.sizes[1].v
    requires |t.value| == |t.rowind| == file.sizes[2].v
    requires |pointr| == t.cols + 1 && t.pointr == pointr[t.cols := |t.value|] && RowsAt(file.body, 0, pointr)
    requires RowsAt(file.body, t.cols + 1, t.rowind) && ValuesAt(file.body, t.cols + 1 + |t.value|, t.value)
    ensures ReadAsHB(file, t)
  {
    hide ValuesAt;
  }

  /** The pointer and row loops of svdLoadSparseTextHBFile: integers counted from one. */
  method ReadCounted(body: seq<Token>, from: nat, a: array<int>) returns (ok: bool)
    requires from <= |body|
    modifies a
    ensures ok <==> IntsAt(body, from, a.Length)
    ensures ok ==> RowsAt(body, from, a[..])
  {
    var i := 0;
    while i < a.Length
      invariant i <= a.Length && from + i <= |body|
      invariant forall k :: from <= k < from + i ==> body[k] == Int(a[k - from] + 1)
    {
      if from + i >= |body| || !body[from + i].Int? {
        return false;
      }
      a[i] := body[from + i].v - 1;
      i := i + 1;
    }
    ok := true;
  }

  /** The value loop of svdLoadSparseTextHBFile. */
  method ReadValues(body: seq<Token>, from: nat, a: array<real>) returns (ok: bool)
    requires from <= |body|
    modifies a
    ensures ok <==> from + a.Length <= |body|
    ensures ok ==> ValuesAt(body, from, a[..])
    ensures ok ==> forall k :: 0 <= k < a.Length ==>
      a[k] == if body[from + k].Int? then body[from + k].v as real else body[from + k].x
  {
    var i := 0;
    while i < a.Length
      invariant i <= a.Length && from + i <= |body|
      invariant forall k :: from <= k < from + i ==> Value(body[k]) == a[k - from]
    {
      if from + i >= |body| {
        return false;
      }
      a[i] := Value(body[from + i]);
      i := i + 1;
    }
    ok := true;
  }

  // ---------- dense text and binary ----------

  /** Cell (i, j) as the writers put it. */
  ghost predicate CellWritten(file: seq<Token>, cols: nat, i: nat, j: nat, x: real) {
    Cell(cols, i, j) < |file| && file[Cell(cols, i, j)] == Real(x)
  }

  /** The same with its place written out. */
  ghost predicate CellAt(file: seq<Token>, cols: nat, i: nat, j: nat, x: real) {
    var p := 2 + i * cols + j;
    2 <= p < |file| && file[p] == Real(x)
  }

  lemma WrittenMeans(file: seq<Token>, cols: nat, i: nat, j: nat, x: real)
    requires CellWritten(file, cols, i, j, x)
    ensures CellIs(file, cols, i, j, x) && CellAt(file, cols, i, j, x)
  {
    assert i * cols >= 0;
  }

  /** svdWriteDenseTextFile and svdWriteDenseBinaryFile. */
  method WriteDense(D: DMat) returns (file: seq<Token>)
    requires D.Shape()
    ensures HoldsDense(file, D.Cells(), D.rows, D.cols) && |file| == 2 + D.rows * D.cols
    ensures file[..2] == [Int(D.rows), Int(D.cols)]
    ensures forall i, j :: 0 <= i < D.rows && 0 <= j < D.cols ==> CellAt(file, D.cols, i, j, D.value[i, j])
  {
    hide Cell, CellAt;
    file := [Int(D.rows), Int(D.cols)];
    var i := 0;
    CellStart(D.cols);
    while i < D.rows
      invariant 2 <= |file| && i <= D.rows && |file| == Cell(D.cols, i, 0) && file[..2] == [Int(D.rows), Int(D.cols)]
      invariant forall p, q :: 0 <= p < i && 0 <= q < D.cols ==> CellWritten(file, D.cols, p, q, D.value[p, q])
    {
      var j := 0;
      while j < D.cols
        invariant 2 <= |file| && j <= D.cols && |file| == Cell(D.cols, i, j) && file[..2] == [Int(D.rows), Int(D.cols)]
        invariant forall p, q :: 0 <= p < i && 0 <= q < D.cols ==> CellWritten(file, D.cols, p, q, D.value[p, q])
        invariant forall q :: 0 <= q < j ==> CellWritten(file, D.cols, i, q, D.value[i, q])
      {
        file := file + [Real(D.value[i, j])];
        CellNext(D.cols, i, j);
        j := j + 1;
      }
      CellNext(D.cols, i, j);
      i := i + 1;
    }
    CellNext(D.cols, i, 0);
    WrittenCells(file, D);
  }

  lemma WrittenCells(file: seq<Token>, D: DMat)
    requires D.Shape() && |file| >= 2 && file[..2] == [Int(D.rows), Int(D.cols)]
    requires forall p, q :: 0 <= p < D.rows && 0 <= q < D.cols ==> CellWritten(file, D.cols, p, q, D.value[p, q])
    ensures HoldsDense(file, D.Cells(), D.rows, D.cols)
    ensures forall i, j :: 0 <= i < D.rows && 0 <= j < D.cols ==> CellAt(file, D.cols, i, j, D.value[i, j])
  {
    hide Cell, CellWritten, CellIs, CellAt;
    forall p, q | 0 <= p < D.rows && 0 <= q < D.cols
      ensures CellIs(file, D.cols, p, q, D.value[p, q]) && CellAt(file, D.cols, p, q, D.value[p, q])
    {
      WrittenMeans(file, D.cols, p, q, D.value[p, q]);
    }
    HoldsCells(file, D);
  }

  lemma HoldsCells(file: seq<Token>, D: DMat)
    requires D.Shape() && |file| >= 2 && file[..2] == [Int(D.rows), Int(D.cols)]
    requires forall p, q :: 0 <= p < D.rows && 0 <= q < D.cols ==> CellIs(file, D.cols, p, q, D.value[p, q])
    ensures HoldsDense(file, D.Cells(), D.rows, D.cols)
  {
  }

  lemma CellStart(cols: nat)
    ensures Cell(cols, 0, 0) == 2
  {
  }

  lemma CellNext(cols: nat, i: nat, j: nat)
    ensures Cell(cols, i, j + 1) == Cell(cols, i, j) + 1
    ensures Cell(cols, i, cols) == Cell(cols, i + 1, 0) && Cell(cols, i, 0) == 2 + i * cols
    ensures Cell(cols, i, j) >= 2
  {
  }

  /** Cell (i, j) as the readers store it, in either spelling. */
  ghost predicate CellStored(file: seq<Token>, cols: nat, i: nat, j: nat, x: real) {
    var p := 2 + i * cols + j;
    && 2 <= p < |file|
    && x == if file[p].Int? then file[p].v as real else file[p].x
  }

  lemma DenseIsStored(file: seq<Token>, D: DMat)
    requires D.Shape()
    requires forall i, j :: 0 <= i < D.rows && 0 <= j < D.cols ==> CellIs(file, D.cols, i, j, D.value[i, j])
    ensures forall i, j :: 0 <= i < D.rows && 0 <= j < D.cols ==> CellStored(file, D.cols, i, j, D.value[i, j])
  {
    hide Cell, CellIs;
    forall i, j | 0 <= i < D.rows && 0 <= j < D.cols ensures CellStored(file, D.cols, i, j, D.value[i, j]) {
      CellMeans(file, D.cols, i, j, D.value[i, j]);
    }
  }

  /** svdLoadDenseTextFile and svdLoadDenseBinaryFile; svdNewDMat needs a row. */
  method LoadDense(file: seq<Token>) returns (r: LoadedDense)
    ensures r.DenseMatrix? <==> DenseReadable(file)
    ensures r.DenseMatrix? ==> fresh(r.d) && r.d.Shape() && r.d.rows == file[0].v && r.d.cols == file[1].v
    ensures r.DenseMatrix? ==> HoldsDense(file, r.d.Cells(), file[0].v, file[1].v)
    ensures r.DenseMatrix? ==> forall i, j :: 0 <= i < r.d.rows && 0 <= j < r.d.cols ==>
      CellStored(file, r.d.cols, i, j, r.d.value[i, j])
  {
    hide Cell, CellStored;
    if |file| < 2 || !file[0].Int? || !file[1].Int? || file[0].v < 1 || file[1].v < 0 {
      return NotDense;
    }
    var rows, cols := file[0].v, file[1].v;
    var D := new DMat(rows, cols);
    var q, i := 2, 0;
    CellStart(cols);
    while i < rows
      invariant 0 <= i <= rows && q == Cell(cols, i, 0)
      invariant forall p, t :: 0 <= p < i && 0 <= t < cols ==> CellIs(file, cols, p, t, D.value[p, t])
    {
      var j := 0;
      while j < cols
        invariant 0 <= j <= cols && q == Cell(cols, i, j)
        invariant forall p, t :: 0 <= p < i && 0 <= t < cols ==> CellIs(file, cols, p, t, D.value[p, t])
        invariant forall t :: 0 <= t < j ==> CellIs(file, cols, i, t, D.value[i, t])
      {
        if q >= |file| {
          assert !CellReadable(file, cols, i, j);
          return NotDense;
        }
        D.value[i, j] := Value(file[q]);
        CellNext(cols, i, j);
        q, j := q + 1, j + 1;
      }
      CellNext(cols, i, j);
      i := i + 1;
    }
    forall p, t | 0 <= p < rows && 0 <= t < cols ensures CellReadable(file, cols, p, t) {
      assert CellIs(file, cols, p, t, D.value[p, t]);
    }
    assert file[..2] == [Int(rows), Int(cols)];
    HoldsCells(file, D);
    DenseIsStored(file, D);
    return DenseMatrix(D);
  }

  /** svdWriteSparseMatrix in a dense format. */
  method WriteAsDense(S: SMat) returns (file: seq<Token>)
    requires S.Valid() && S.rows >= 1
    ensures HoldsDense(file, Dense(S.Now()), S.rows, S.cols)
  {
    var D := ConvertStoD(S);
    file := WriteDense(D);
  }

  /** svdWriteDenseMatrix in the SVDLIB sparse format. */
  method WriteAsSparse(D: DMat) returns (file: seq<Token>)
    requires D.Shape() && D.rows >= 1
    ensures exists s :: IsSparseOf(D.Cells(), s) && Holds(file, s)
  {
    var S := ConvertDtoS(D);
    file := WriteSparse(S);
  }

  /** svdLoadSparseMatrix in a dense format. */
  method LoadAsSparse(file: seq<Token>) returns (r: Loaded)
    ensures r.Matrix? <==> DenseReadable(file)
    ensures r.Matrix? ==> r.m.Valid() && r.m.rows == file[0].v && r.m.cols == file[1].v
    ensures r.Matrix? ==> exists m :: HoldsDense(file, m, file[0].v, file[1].v) && IsSparseOf(m, r.m.Now())
    ensures r.Matrix? ==> forall i, j :: 0 <= i < r.m.rows && 0 <= j < r.m.cols ==>
      CellStored(file, r.m.cols, i, j, Dense(r.m.Now())[i][j])
  {
    hide CellStored, Dense;
    var d := LoadDense(file);
    match d
    case NotDense =>
      r := Failed;
    case DenseMatrix(D) =>
      var S := ConvertDtoS(D);
      assert HoldsDense(file, D.Cells(), file[0].v, file[1].v);
      DenseRoundTrip(D.Cells(), S.Now());
      r := Matrix(S);
  }
}
