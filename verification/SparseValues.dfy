/**
 Compressed-column sparse matrices on values. An entry is known by its place in
 storage; duplicates of a cell are allowed and their order matters. `Picks`
 reads one cell: the values stored for it, in storage order.
 */
module SparseValues {

  datatype Sparse = Sparse(rows: nat, cols: nat, pointr: seq<int>, rowind: seq<int>, value: seq<real>)

  ghost predicate WellFormed(s: Sparse) {
    && |s.pointr| == s.cols + 1 && |s.rowind| == |s.value|
    && s.pointr[0] == 0 && s.pointr[s.cols] == |s.value|
    && (forall c, c' :: 0 <= c <= c' <= s.cols ==> s.pointr[c] <= s.pointr[c'])
    && (forall i :: 0 <= i < |s.rowind| ==> 0 <= s.rowind[i] < s.rows)
  }

  /** Where column c begins. */
  ghost function Begin(s: Sparse, c: nat): (i: nat)
    requires WellFormed(s) && c <= s.cols
    ensures i <= |s.value| && i == s.pointr[c]
  {
    assert s.pointr[0] <= s.pointr[c] <= s.pointr[s.cols];
    s.pointr[c]
  }

  type Entry = (int, real)

  /** The entries of column c stored before place i, as (row, value). */
  ghost function ColumnTo(s: Sparse, c: nat, i: nat): (es: seq<Entry>)
    requires WellFormed(s) && c < s.cols && i <= |s.value|
    decreases i
  {
    if i == 0 then []
    else if Begin(s, c) <= i - 1 < Begin(s, c + 1) then ColumnTo(s, c, i - 1) + [(s.rowind[i - 1], s.value[i - 1])]
    else ColumnTo(s, c, i - 1)
  }

  ghost function Column(s: Sparse, c: nat): seq<Entry>
    requires WellFormed(s) && c < s.cols
  {
    ColumnTo(s, c, |s.value|)
  }

  /** The column that place i belongs to. */
  ghost predicate InColumn(s: Sparse, i: nat, c: nat)
    requires WellFormed(s)
  {
    c < s.cols && Begin(s, c) <= i < Begin(s, c + 1)
  }

  ghost function ColumnOf(s: Sparse, i: nat, c: nat): (k: nat)
    requires WellFormed(s) && c < s.cols && Begin(s, c) <= i < |s.value|
    ensures InColumn(s, i, k)
    decreases s.cols - c
  {
    if i < Begin(s, c + 1) then c else ColumnOf(s, i, c + 1)
  }

  lemma ColumnUnique(s: Sparse, i: nat, c: nat, c': nat)
    requires WellFormed(s) && InColumn(s, i, c) && InColumn(s, i, c')
    ensures c == c'
  {
    if c < c' {
    } else if c' < c {
    }
  }

  ghost function ColumnAt(s: Sparse, i: nat): (c: nat)
    requires WellFormed(s) && i < |s.value|
    ensures InColumn(s, i, c)
  {
    ColumnOf(s, i, 0)
  }

  /** The entries of row r stored before place i, as (column, value). */
  ghost function RowTo(s: Sparse, r: int, i: nat): (es: seq<Entry>)
    requires WellFormed(s) && i <= |s.value|
  {
    if i == 0 then []
    else if s.rowind[i - 1] == r then RowTo(s, r, i - 1) + [(ColumnAt(s, i - 1), s.value[i - 1])]
    else RowTo(s, r, i - 1)
  }

  ghost function Row(s: Sparse, r: int): seq<Entry>
    requires WellFormed(s)
  {
    RowTo(s, r, |s.value|)
  }

  /** The values stored under key k, in order. */
  ghost function Picks(es: seq<Entry>, k: int): seq<real> {
    if es == [] then []
    else
      var e := es[|es| - 1];
      Picks(es[..|es| - 1], k) + if e.0 == k then [e.1] else []
  }

  lemma PicksAppend(es: seq<Entry>, e: Entry, k: int)
    ensures Picks(es + [e], k) == Picks(es, k) + if e.0 == k then [e.1] else []
  {
    assert (es + [e])[..|es|] == es;
  }

  /** The same cell read along its row and along its column. */
  lemma {:induction false} CellBothWays(s: Sparse, r: nat, c: nat, i: nat)
    requires WellFormed(s) && c < s.cols && i <= |s.value|
    ensures Picks(RowTo(s, r, i), c) == Picks(ColumnTo(s, c, i), r)
  {
    if i > 0 {
      CellBothWays(s, r, c, i - 1);
      var k := ColumnAt(s, i - 1);
      if InColumn(s, i - 1, c) {
        ColumnUnique(s, i - 1, c, k);
      }
      PicksAppend(RowTo(s, r, i - 1), (k, s.value[i - 1]), c);
      PicksAppend(ColumnTo(s, c, i - 1), (s.rowind[i - 1], s.value[i - 1]), r);
    }
  }

  // ---------- transposes ----------

  /** t is the transpose the program makes of s: the rows of s, in storage order, as its columns. */
  ghost predicate IsTranspose(s: Sparse, t: Sparse) {
    && WellFormed(s) && WellFormed(t) && t.rows == s.cols && t.cols == s.rows
    && |t.value| == |s.value|
    && forall r :: 0 <= r < s.rows ==> Column(t, r) == Row(s, r)
  }

  /** Cell (r, c) of s is cell (c, r) of its transpose: same values, same order. */
  lemma TransposeCells(s: Sparse, t: Sparse, r: nat, c: nat)
    requires IsTranspose(s, t) && r < s.rows && c < s.cols
    ensures Picks(Column(t, r), c) == Picks(Column(s, c), r)
  {
    CellBothWays(s, r, c, |s.value|);
  }

  ghost predicate SortedKeys(es: seq<Entry>) {
    forall i, j :: 0 <= i < j < |es| ==> es[i].0 <= es[j].0
  }

  lemma {:induction false} RowSorted(s: Sparse, r: int, i: nat)
    requires WellFormed(s) && i <= |s.value|
    ensures SortedKeys(RowTo(s, r, i))
    ensures forall k :: 0 <= k < |RowTo(s, r, i)| ==>
      0 <= RowTo(s, r, i)[k].0 < s.cols && (i < |s.value| ==> RowTo(s, r, i)[k].0 <= ColumnAt(s, i))
  {
    if i > 0 {
      RowSorted(s, r, i - 1);
      if i < |s.value| {
        ColumnsAscend(s, i - 1);
      }
    }
  }

  lemma ColumnsAscend(s: Sparse, i: nat)
    requires WellFormed(s) && i + 1 < |s.value|
    ensures ColumnAt(s, i) <= ColumnAt(s, i + 1)
  {
    var c, c' := ColumnAt(s, i), ColumnAt(s, i + 1);
    if c' < c {
    }
  }

  lemma {:induction false} PicksFound(es: seq<Entry>, k: int)
    requires SortedKeys(es) && Picks(es, k) != []
    ensures es != [] && es[|es| - 1].0 >= k
  {
    if es[|es| - 1].0 != k {
      PicksFound(es[..|es| - 1], k);
    }
  }

  lemma LastKeyBound(a: seq<Entry>, b: seq<Entry>)
    requires a != [] && SortedKeys(b) && Picks(a, a[|a| - 1].0) == Picks(b, a[|a| - 1].0)
    ensures b != [] && b[|b| - 1].0 >= a[|a| - 1].0
  {
    var k := a[|a| - 1].0;
    assert Picks(a, k) != [];
    PicksFound(b, k);
  }

  /** Lists with equal last keys and equal values under every key: the last entries agree and may be dropped. */
  lemma DropLast(a: seq<Entry>, x: Entry, b: seq<Entry>, y: Entry, k: int)
    requires x.0 == y.0 && Picks(a + [x], x.0) == Picks(b + [y], x.0) && Picks(a + [x], k) == Picks(b + [y], k)
    ensures x == y && Picks(a, k) == Picks(b, k)
  {
    PicksAppend(a, x, x.0);
    PicksAppend(b, y, x.0);
    var p, q := Picks(a + [x], x.0), Picks(b + [y], x.0);
    assert p[|p| - 1] == x.1 && q[|q| - 1] == y.1;
    PicksAppend(a, x, k);
    PicksAppend(b, y, k);
    if k == x.0 {
      assert p[..|p| - 1] == Picks(a, k) && q[..|q| - 1] == Picks(b, k);
    } else {
      assert Picks(a, k) + [] == Picks(a, k) && Picks(b, k) + [] == Picks(b, k);
    }
  }

  ghost predicate SamePicks(a: seq<Entry>, b: seq<Entry>) {
    forall k :: Picks(a, k) == Picks(b, k)
  }

  /** Sorted lists with the same values under every key are the same list. */
  lemma {:induction false} StableSortUnique(a: seq<Entry>, b: seq<Entry>)
    requires SortedKeys(a) && SortedKeys(b) && SamePicks(a, b)
    ensures a == b
  {
    hide Picks;
    if b != [] {
      LastKeyBound(b, a);
    }
    if a != [] {
      LastKeyBound(a, b);
      var a', b' := a[..|a| - 1], b[..|b| - 1];
      var x, y := a[|a| - 1], b[|b| - 1];
      assert a == a' + [x] && b == b' + [y];
      DropLast(a', x, b', y, 0);
      forall k ensures Picks(a', k) == Picks(b', k) {
        DropLast(a', x, b', y, k);
      }
      StableSortUnique(a', b');
    }
  }

  ghost predicate KeysWithin(es: seq<Entry>, n: nat) {
    forall i :: 0 <= i < |es| ==> 0 <= es[i].0 < n
  }

  lemma {:induction false} PicksOutside(es: seq<Entry>, n: nat, k: int)
    requires KeysWithin(es, n) && !(0 <= k < n)
    ensures Picks(es, k) == []
  {
    if es != [] {
      PicksOutside(es[..|es| - 1], n, k);
    }
  }

  lemma {:induction false} ColumnWithin(s: Sparse, c: nat, i: nat)
    requires WellFormed(s) && c < s.cols && i <= |s.value|
    ensures KeysWithin(ColumnTo(s, c, i), s.rows)
  {
    if i > 0 {
      ColumnWithin(s, c, i - 1);
    }
  }

  /** Transposing twice sorts every column by row, stably: StableSortUnique says there is one such list. */
  lemma TransposeTwice(s: Sparse, t: Sparse, u: Sparse, c: nat)
    requires IsTranspose(s, t) && IsTranspose(t, u) && c < s.cols
    ensures SortedKeys(Column(u, c))
    ensures SamePicks(Column(u, c), Column(s, c))
  {
    RowSorted(t, c, |t.value|);
    forall k ensures Picks(Column(u, c), k) == Picks(Column(s, c), k) {
      if 0 <= k < s.rows {
        TransposeCells(t, u, c, k);
        TransposeCells(s, t, k, c);
      } else {
        ColumnWithin(s, c, |s.value|);
        PicksOutside(Column(s, c), s.rows, k);
        PicksOutside(Column(u, c), s.rows, k);
      }
    }
  }
}
