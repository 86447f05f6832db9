/**
 The eigen-solvers of las2.c in the form the program has: nested loops that
 rewrite d, e, z and bnd in place and set the global error flag.
 */
module Las2 {
  import opened Sequences
  import opened Reals
  import opened LinearAlgebra
  import opened QLSweep
  import opened QLOrder
  import opened QLRefinement
  import opened QLChains

  /** Where row r of a row-major array with n columns starts. */
  ghost function RowStart(n: nat, r: nat): nat {
    if r == 0 then 0 else RowStart(n, r - 1) + n
  }

  lemma {:induction false} RowStartProduct(n: nat, r: nat)
    ensures RowStart(n, r) == n * r
  {
    if r > 0 {
      RowStartProduct(n, r - 1);
      assert n * r == n * (r - 1) + n;
    }
  }

  lemma {:induction false} RowsApart(n: nat, q: nat, r: nat)
    requires q < r
    ensures RowStart(n, q) + n <= RowStart(n, r)
  {
    if q + 1 < r {
      RowsApart(n, q, r - 1);
    }
  }

  ghost function RowOf(zs: seq<real>, nm: nat, n: nat, r: nat): (v: Vector)
    requires |zs| == RowStart(n, nm) && r < nm
    ensures |v| == n
  {
    RowsApart(n, r, nm);
    zs[RowStart(n, r)..RowStart(n, r) + n]
  }

  /** The rows of a row-major array of nm rows of length n. */
  ghost function Rows(zs: seq<real>, nm: nat, n: nat): (m: Matrix)
    requires |zs| == RowStart(n, nm)
    ensures IsMatrix(m, nm, n)
  {
    seq(nm, r requires 0 <= r < nm => RowOf(zs, nm, n, r))
  }

  /** Cells of row r rewritten: another row q does not change. */
  lemma OtherRow(zs: seq<real>, zs': seq<real>, nm: nat, n: nat, r: nat, q: nat)
    requires |zs| == |zs'| == RowStart(n, nm) && r < nm && q < nm && q != r
    requires forall k :: 0 <= k < |zs| && !(RowStart(n, r) <= k < RowStart(n, r) + n) ==> zs'[k] == zs[k]
    ensures Rows(zs', nm, n)[q] == Rows(zs, nm, n)[q]
  {
    RowsApart(n, q, nm);
    if q < r {
      RowsApart(n, q, r);
    } else {
      RowsApart(n, r, q);
    }
  }

  /** Two neighbouring cells of row r rewritten: that row changes there and no other row does. */
  lemma RowsUpdate(zs: seq<real>, zs': seq<real>, nm: nat, n: nat, r: nat, i: nat)
    requires |zs| == |zs'| == RowStart(n, nm) && r < nm && i + 1 < n && RowStart(n, r) + n <= |zs|
    requires forall k :: 0 <= k < |zs| && k != RowStart(n, r) + i && k != RowStart(n, r) + i + 1 ==> zs'[k] == zs[k]
    ensures Rows(zs', nm, n) == Rows(zs, nm, n)[r :=
              Rows(zs, nm, n)[r][i := zs'[RowStart(n, r) + i]][i + 1 := zs'[RowStart(n, r) + i + 1]]]
  {
    var rows, rows' := Rows(zs, nm, n), Rows(zs', nm, n);
    var row := rows[r][i := zs'[RowStart(n, r) + i]][i + 1 := zs'[RowStart(n, r) + i + 1]];
    assert rows'[r] == row;
    forall q | 0 <= q < nm && q != r ensures rows'[q] == rows[q] {
      OtherRow(zs, zs', nm, n, r, q);
    }
  }

  lemma RowsRotate(zs: seq<real>, zs': seq<real>, nm: nat, n: nat, r: nat, i: nat, s: real, c: real)
    requires |zs| == RowStart(n, nm) && r < nm && i + 1 < n && RowStart(n, r) + n <= |zs|
    requires var j := RowStart(n, r) + i;
             zs' == zs[j + 1 := High(zs[j], zs[j + 1], s, c)][j := Low(zs[j], zs[j + 1], s, c)]
    ensures Rows(zs', nm, n) == Rows(zs, nm, n)[r := Rotate(Rows(zs, nm, n)[r], i, s, c)]
  {
    var j := RowStart(n, r) + i;
    var row := Rows(zs, nm, n)[r];
    assert row[i] == zs[j] && row[i + 1] == zs[j + 1];
    RowsUpdate(zs, zs', nm, n, r, i);
    assert Rotate(row, i, s, c) == row[i := zs'[j]][i + 1 := zs'[j + 1]];
  }

  /** One pass's rotation of every row of z. */
  method RotateRowsOf(z: array<real>, nm: nat, n: nat, i: nat, s: real, c: real)
    requires z.Length >= RowStart(n, nm) && i + 1 < n
    modifies z
    ensures z[RowStart(n, nm)..] == old(z[RowStart(n, nm)..])
    ensures Rows(z[..RowStart(n, nm)], nm, n) == RotateColumns(old(Rows(z[..RowStart(n, nm)], nm, n)), i, s, c)
  {
    hide RowOf;
    ghost var rows := Rows(z[..RowStart(n, nm)], nm, n);
    var nnm := n * nm;
    RowStartProduct(n, nm);
    var k := 0;
    ghost var r := 0;
    while k < nnm
      invariant r <= nm && k == RowStart(n, r) && z[RowStart(n, nm)..] == old(z[RowStart(n, nm)..])
      invariant forall q :: 0 <= q < nm ==>
        Rows(z[..RowStart(n, nm)], nm, n)[q] == if q < r then Rotate(rows[q], i, s, c) else rows[q]
    {
      RowsApart(n, r, nm);
      ghost var before := z[..RowStart(n, nm)];
      var index := k + i;
      var f := z[index + 1];
      z[index + 1] := s * z[index] + c * f;
      assert z[index] == before[index] && z[index + 1] == High(before[index], f, s, c);
      z[index] := c * z[index] - s * f;
      assert z[index] == Low(before[index], f, s, c);
      assert z[..RowStart(n, nm)]
          == before[index + 1 := High(before[index], f, s, c)][index := Low(before[index], f, s, c)];
      RowsRotate(before, z[..RowStart(n, nm)], nm, n, r, i, s, c);
      k := k + n;
      r := r + 1;
    }
    if r < nm {
      RowsApart(n, r, nm);
      assert false;
    }
    assert Rows(z[..RowStart(n, nm)], nm, n) == RotateColumns(rows, i, s, c);
  }

  /** The arrays of imtql2 as one value. */
  ghost function Now(d: array<real>, e: array<real>, z: array<real>, nm: nat, n: nat): (st: State)
    requires d.Length >= n && e.Length >= n && z.Length >= RowStart(n, nm)
    reads d, e, z
    ensures Shaped(st, n)
  {
    State(d[..n], e[..n], Rows(z[..RowStart(n, nm)], nm, n))
  }

  /** What lies beyond the part of the arrays that imtql2 works on. */
  ghost function Rest(d: array<real>, e: array<real>, z: array<real>, nm: nat, n: nat)
    : (seq<real>, seq<real>, seq<real>)
    requires d.Length >= n && e.Length >= n && z.Length >= RowStart(n, nm)
    reads d, e, z
  {
    (d[n..], e[n..], z[RowStart(n, nm)..])
  }

  /** The first negligible off-diagonal entry from l on, or the last index. */
  method FindSplit(n: nat, d: array<real>, e: array<real>, l: nat) returns (m: nat)
    requires d.Length >= n && e.Length >= n && l < n
    ensures m == Split(d[..n], e[..n], l)
  {
    var last := n - 1;
    m := l;
    while m < n
      invariant l <= m < n && Split(d[..n], e[..n], m) == Split(d[..n], e[..n], l)
    {
      if m == last {
        break;
      }
      var test := Abs(d[m]) + Abs(d[m + 1]);
      if test + Abs(e[m]) == test {
        break;
      }
      m := m + 1;
    }
  }

  /** The scalar part of a pass: d[i] = x, and b, q, f, g, r as the loop body has formed them. */
  method Turn(ar: Arith, x: real, b: real, q: real, f: real, g0: real, r0: real)
    returns (s: real, c: real, p: real, g: real)
    requires r0 != 0.0
    ensures Cursor(s, c, p, g) == NextCursor(ar, x, b, q, f, g0, r0)
  {
    s := f / r0;
    c := g0 / r0;
    var r := (x - q) * s + 2.0 * c * b;
    assert s == Quotient(ar, f, r0) && c == Quotient(ar, g0, r0) && r == Slope(x, b, q, s, c);
    p := s * r;
    g := c * r - b;
    assert p == Times(s, r) && g == Times(c, r) - b;
  }

  /** The pass at i of imtql2; on a zero hypotenuse only e[i+1] is written. */
  method PassVectors(ar: Arith, nm: nat, n: nat, d: array<real>, e: array<real>, z: array<real>, i: nat,
                     s0: real, c0: real, p0: real, g0: real)
    returns (s: real, c: real, p: real, g: real, underflow: bool)
    requires d.Length >= n && e.Length >= n && z.Length >= RowStart(n, nm) && i + 1 < n
    requires d != e && d != z && e != z
    modifies d, e, z
    ensures Rest(d, e, z, nm, n) == old(Rest(d, e, z, nm, n))
    ensures var st, k := old(Now(d, e, z, nm, n)), Cursor(s0, c0, p0, g0);
            && underflow == (PassRadius(ar, st.e, i, k) == 0.0)
            && (underflow ==> Cursor(s, c, p, g) == k && Now(d, e, z, nm, n) == st.(e := st.e[i + 1 := 0.0]))
            && (!underflow ==> && Cursor(s, c, p, g) == PassCursor(ar, st.d, st.e, i, k)
                               && Now(d, e, z, nm, n) == PassState(ar, st, i, k))
  {
    s, c, p, g, underflow := s0, c0, p0, g0, false;
    var f := s * e[i];
    var b := c * e[i];
    var r := ar.hyp(f, g);
    assert f == Times(s, e[i]) && b == Times(c, e[i]);
    e[i + 1] := r;
    if r == 0.0 {
      underflow := true;
    } else {
      var q := d[i + 1] - p;
      s, c, p, g := Turn(ar, d[i], b, q, f, g, r);
      d[i + 1] := q + p;
      RotateRowsOf(z, nm, n, i, s, c);
    }
  }

  /** The shift of the block l..m. */
  method FormShift(ar: Arith, n: nat, d: array<real>, e: array<real>, l: nat, m: nat) returns (g: real)
    requires d.Length >= n && e.Length >= n && l < m < n
    ensures g == Shift(ar, d[..n], e[..n], l, m)
  {
    var p := d[l];
    g := Quotient(ar, d[l + 1] - p, 2.0 * e[l]);
    var r := ar.hyp(g, 1.0);
    g := d[m] - p + Quotient(ar, e[l], g + FSign(r, g));
  }

  /** What follows the passes in both routines; the rows are not touched. */
  method Recover(n: nat, d: array<real>, e: array<real>, l: nat, m: nat, i: int, ghost s: real, ghost c: real,
                 p: real, g: real, underflow: bool, ghost rows: seq<seq<real>>)
    requires d.Length >= n && e.Length >= n && d != e && l < m < n && -1 <= i < n - 1 && IsMatrix(rows, |rows|, n)
    modifies d, e
    ensures d[n..] == old(d[n..]) && e[n..] == old(e[n..])
    ensures State(d[..n], e[..n], rows)
         == Settle(SweepEnd(State(old(d[..n]), old(e[..n]), rows), Cursor(s, c, p, g), i, underflow), l, m)
    ensures forall j :: 0 <= j < n ==> d[j] == old(d[j]) - if j == (if underflow then i + 1 else l) then p else 0.0
    ensures forall j :: 0 <= j < n ==> e[j] == if j == m then 0.0 else if j == l && !underflow then g else old(e[j])
  {
    if underflow {
      d[i + 1] := d[i + 1] - p;
      e[m] := 0.0;
    } else {
      d[l] := d[l] - p;
      e[l] := g;
      e[m] := 0.0;
    }
  }

  /** One sweep of imtql2 over the block l..m. */
  method SweepVectors(ar: Arith, nm: nat, n: nat, d: array<real>, e: array<real>, z: array<real>, l: nat, m: nat)
    requires d.Length >= n && e.Length >= n && z.Length >= RowStart(n, nm) && l < m < n
    requires d != e && d != z && e != z
    modifies d, e, z
    ensures Rest(d, e, z, nm, n) == old(Rest(d, e, z, nm, n))
    ensures Now(d, e, z, nm, n) == Sweep(ar, old(Now(d, e, z, nm, n)), l, m)
  {
    hide NextCursor, Shift, Times, Settle, PassState, PassCursor, PassRadius;
    var g := FormShift(ar, n, d, e, l, m);
    var s, c, p := 1.0, 1.0, 0.0;
    var underflow := false;
    var i := m - 1;
    ghost var end := Passes(ar, Now(d, e, z, nm, n), Cursor(s, c, p, g), l, i);
    while !underflow && i >= l
      invariant l - 1 <= i < m && Rest(d, e, z, nm, n) == old(Rest(d, e, z, nm, n))
      invariant end == if underflow then SweepEnd(Now(d, e, z, nm, n), Cursor(s, c, p, g), i, true)
                       else Passes(ar, Now(d, e, z, nm, n), Cursor(s, c, p, g), l, i)
      decreases i - l + 1, !underflow
    {
      s, c, p, g, underflow := PassVectors(ar, nm, n, d, e, z, i, s, c, p, g);
      if !underflow {
        i := i - 1;
      }
    }
    Recover(n, d, e, l, m, i, s, c, p, g, underflow, Rows(z[..RowStart(n, nm)], nm, n));
  }

  lemma SwappedElsewhere(zs: seq<real>, a: nat, b: nat)
    requires a < |zs| && b < |zs|
    ensures forall j :: 0 <= j < |zs| && j != a && j != b ==> Swapped(zs, a, b)[j] == zs[j]
  {
  }

  lemma SliceSwap(zs: seq<real>, start: nat, n: nat, i: nat, k: nat)
    requires start + n <= |zs| && i < n && k < n
    ensures Swapped(zs, start + i, start + k)[start..start + n] == Swapped(zs[start..start + n], i, k)
  {
    var row, row' := zs[start..start + n], Swapped(zs, start + i, start + k)[start..start + n];
    forall j | 0 <= j < n ensures row'[j] == Swapped(row, i, k)[j] {
      assert row'[j] == Swapped(zs, start + i, start + k)[start + j];
    }
  }

  lemma RowSlice(zs: seq<real>, nm: nat, n: nat, r: nat)
    requires |zs| == RowStart(n, nm) && r < nm && RowStart(n, r) + n <= |zs|
    ensures Rows(zs, nm, n)[r] == zs[RowStart(n, r)..RowStart(n, r) + n]
  {
  }

  lemma OneRowSwap(zs: seq<real>, nm: nat, n: nat, r: nat, i: nat, k: nat)
    requires |zs| == RowStart(n, nm) && r < nm && i < n && k < n && RowStart(n, r) + n <= |zs|
    ensures Rows(Swapped(zs, RowStart(n, r) + i, RowStart(n, r) + k), nm, n)[r] == Swapped(Rows(zs, nm, n)[r], i, k)
  {
    hide Rows, RowStart, Swapped;
    RowSlice(zs, nm, n, r);
    RowSlice(Swapped(zs, RowStart(n, r) + i, RowStart(n, r) + k), nm, n, r);
    SliceSwap(zs, RowStart(n, r), n, i, k);
  }

  lemma RowsSwap(zs: seq<real>, zs': seq<real>, nm: nat, n: nat, r: nat, i: nat, k: nat)
    requires |zs| == RowStart(n, nm) && r < nm && i < n && k < n && RowStart(n, r) + n <= |zs|
    requires zs' == Swapped(zs, RowStart(n, r) + i, RowStart(n, r) + k)
    ensures Rows(zs', nm, n) == Rows(zs, nm, n)[r := Swapped(Rows(zs, nm, n)[r], i, k)]
  {
    var rows, rows' := Rows(zs, nm, n), Rows(zs', nm, n);
    OneRowSwap(zs, nm, n, r, i, k);
    hide Swapped, RowOf, RowStart, Rows;
    forall q | 0 <= q < nm && q != r ensures rows'[q] == rows[q] {
      OtherRowSwap(zs, zs', nm, n, r, i, k, q);
    }
    assert rows' == rows[r := Swapped(rows[r], i, k)];
  }

  lemma OtherRowSwap(zs: seq<real>, zs': seq<real>, nm: nat, n: nat, r: nat, i: nat, k: nat, q: nat)
    requires |zs| == RowStart(n, nm) && r < nm && i < n && k < n && RowStart(n, r) + n <= |zs| && q < nm && q != r
    requires zs' == Swapped(zs, RowStart(n, r) + i, RowStart(n, r) + k)
    ensures Rows(zs', nm, n)[q] == Rows(zs, nm, n)[q]
  {
    SwappedElsewhere(zs, RowStart(n, r) + i, RowStart(n, r) + k);
    hide Swapped, RowOf, RowStart, Rows;
    OtherRow(zs, zs', nm, n, r, q);
  }

  /** Columns i and k of z exchanged. */
  method SwapColumnsOf(z: array<real>, nm: nat, n: nat, i: nat, k: nat)
    requires z.Length >= RowStart(n, nm) && i < n && k < n
    modifies z
    ensures z[RowStart(n, nm)..] == old(z[RowStart(n, nm)..])
    ensures forall r :: 0 <= r < nm ==>
      Rows(z[..RowStart(n, nm)], nm, n)[r] == Swapped(old(Rows(z[..RowStart(n, nm)], nm, n))[r], i, k)
  {
    hide RowOf;
    ghost var rows := Rows(z[..RowStart(n, nm)], nm, n);
    var nnm := n * nm;
    RowStartProduct(n, nm);
    var j := 0;
    ghost var r := 0;
    while j < nnm
      invariant r <= nm && j == RowStart(n, r) && z[RowStart(n, nm)..] == old(z[RowStart(n, nm)..])
      invariant forall q :: 0 <= q < nm ==>
        Rows(z[..RowStart(n, nm)], nm, n)[q] == if q < r then Swapped(rows[q], i, k) else rows[q]
    {
      RowsApart(n, r, nm);
      ghost var before := z[..RowStart(n, nm)];
      var p := z[j + i];
      z[j + i] := z[j + k];
      z[j + k] := p;
      assert z[..RowStart(n, nm)] == Swapped(before, j + i, j + k);
      RowsSwap(before, z[..RowStart(n, nm)], nm, n, r, i, k);
      j := j + n;
      r := r + 1;
    }
    if r < nm {
      RowsApart(n, r, nm);
      assert false;
    }
  }

  /** The scan for the least entry of d[i..]. */
  method FindLeast(n: nat, d: array<real>, i: nat) returns (k: nat, p: real)
    requires d.Length >= n && i + 1 <= n
    ensures k == Least(d[..n], i, i + 1) && p == d[k]
  {
    k := i;
    p := d[i];
    var j := i + 1;
    while j < n
      invariant i < j <= n && i <= k < j && p == d[k]
      invariant Least(d[..n], k, j) == Least(d[..n], i, i + 1)
    {
      if d[j] < p {
        k := j;
        p := d[j];
      }
      j := j + 1;
    }
  }

  /** One step of the ordering stage of imtql2. */
  method OrderStepVectors(nm: nat, n: nat, d: array<real>, e: array<real>, z: array<real>, l: nat)
    requires d.Length >= n && e.Length >= n && z.Length >= RowStart(n, nm) && 1 <= l < n
    requires d != e && d != z && e != z
    modifies d, z
    ensures Rest(d, e, z, nm, n) == old(Rest(d, e, z, nm, n))
    ensures Now(d, e, z, nm, n) == OrderStep(old(Now(d, e, z, nm, n)), l)
  {
    ghost var st := Now(d, e, z, nm, n);
    var i := l - 1;
    var k, p := FindLeast(n, d, i);
    if k != i {
      d[k] := d[i];
      d[i] := p;
      SwapColumnsOf(z, nm, n, i, k);
      assert d[..n] == Swapped(st.d, i, k);
      assert Rows(z[..RowStart(n, nm)], nm, n) == SwapColumns(st, i, k).rows;
    }
  }

  /** The ordering stage of imtql2. */
  method OrderVectors(nm: nat, n: nat, d: array<real>, e: array<real>, z: array<real>)
    requires d.Length >= n && e.Length >= n && z.Length >= RowStart(n, nm) && n >= 1
    requires d != e && d != z && e != z
    modifies d, z
    ensures Rest(d, e, z, nm, n) == old(Rest(d, e, z, nm, n))
    ensures Now(d, e, z, nm, n) == Order(old(Now(d, e, z, nm, n)), 1)
  {
    var l := 1;
    while l < n
      invariant 1 <= l <= n && Rest(d, e, z, nm, n) == old(Rest(d, e, z, nm, n))
      invariant Order(Now(d, e, z, nm, n), l) == Order(old(Now(d, e, z, nm, n)), 1)
    {
      OrderStepVectors(nm, n, d, e, z, l);
      l := l + 1;
    }
  }

  /** The first step of both solvers: the subdiagonal moved to start at index 0. */
  method ShiftDown(n: nat, e: array<real>)
    requires e.Length >= n && n >= 1
    modifies e
    ensures e[n..] == old(e[n..])
    ensures e[..n] == Shifted(old(e[..n]))
  {
    var last := n - 1;
    var i := 1;
    while i < n
      invariant 1 <= i <= n
      invariant forall k :: 0 <= k < i - 1 ==> e[k] == old(e[k + 1])
      invariant forall k :: i - 1 <= k < e.Length ==> e[k] == old(e[k])
    {
      e[i - 1] := e[i];
      i := i + 1;
    }
    e[last] := 0.0;
  }

  /** The arrays of imtqlb as one value. */
  ghost function NowB(d: array<real>, e: array<real>, bnd: array<real>, n: nat): (st: State)
    requires d.Length >= n && e.Length >= n && bnd.Length >= n
    reads d, e, bnd
    ensures SingleRow(st, n)
  {
    State(d[..n], e[..n], [bnd[..n]])
  }

  /** What lies beyond the part of the arrays that imtqlb works on. */
  ghost function RestB(d: array<real>, e: array<real>, bnd: array<real>, n: nat): (seq<real>, seq<real>, seq<real>)
    requires d.Length >= n && e.Length >= n && bnd.Length >= n
    reads d, e, bnd
  {
    (d[n..], e[n..], bnd[n..])
  }

  /** One pass's rotation of bnd. */
  method RotateBounds(bnd: array<real>, n: nat, i: nat, s: real, c: real)
    requires i + 1 < n <= bnd.Length
    modifies bnd
    ensures bnd[n..] == old(bnd[n..])
    ensures bnd[..n] == Rotate(old(bnd[..n]), i, s, c)
  {
    var f := bnd[i + 1];
    bnd[i + 1] := s * bnd[i] + c * f;
    assert bnd[i] == old(bnd[i]) && bnd[i + 1] == High(old(bnd[i]), f, s, c);
    bnd[i] := c * bnd[i] - s * f;
    assert bnd[i] == Low(old(bnd[i]), f, s, c);
  }

  /** The pass at i of imtqlb; on a zero hypotenuse only e[i+1] is written. */
  method PassBounds(ar: Arith, n: nat, d: array<real>, e: array<real>, bnd: array<real>, i: nat,
                    s0: real, c0: real, p0: real, g0: real)
    returns (s: real, c: real, p: real, g: real, underflow: bool)
    requires d.Length >= n && e.Length >= n && bnd.Length >= n && i + 1 < n
    requires d != e && d != bnd && e != bnd
    modifies d, e, bnd
    ensures RestB(d, e, bnd, n) == old(RestB(d, e, bnd, n))
    ensures var st, k := old(NowB(d, e, bnd, n)), Cursor(s0, c0, p0, g0);
            && underflow == (PassRadius(ar, st.e, i, k) == 0.0)
            && (underflow ==> Cursor(s, c, p, g) == k && NowB(d, e, bnd, n) == st.(e := st.e[i + 1 := 0.0]))
            && (!underflow ==> && Cursor(s, c, p, g) == PassCursor(ar, st.d, st.e, i, k)
                               && NowB(d, e, bnd, n) == PassState(ar, st, i, k))
  {
    s, c, p, g, underflow := s0, c0, p0, g0, false;
    var f := s * e[i];
    var b := c * e[i];
    var r := ar.hyp(f, g);
    assert f == Times(s, e[i]) && b == Times(c, e[i]);
    e[i + 1] := r;
    if r == 0.0 {
      underflow := true;
    } else {
      var q := d[i + 1] - p;
      s, c, p, g := Turn(ar, d[i], b, q, f, g, r);
      d[i + 1] := q + p;
      RotateBounds(bnd, n, i, s, c);
    }
  }

  /** One sweep of imtqlb over the block l..m. */
  method SweepBounds(ar: Arith, n: nat, d: array<real>, e: array<real>, bnd: array<real>, l: nat, m: nat)
    requires d.Length >= n && e.Length >= n && bnd.Length >= n && l < m < n
    requires d != e && d != bnd && e != bnd
    modifies d, e, bnd
    ensures RestB(d, e, bnd, n) == old(RestB(d, e, bnd, n))
    ensures NowB(d, e, bnd, n) == Sweep(ar, old(NowB(d, e, bnd, n)), l, m)
  {
    hide NextCursor, Shift, Times, Settle, PassState, PassCursor, PassRadius;
    var g := FormShift(ar, n, d, e, l, m);
    var s, c, p := 1.0, 1.0, 0.0;
    var underflow := false;
    var i := m - 1;
    ghost var end := Passes(ar, NowB(d, e, bnd, n), Cursor(s, c, p, g), l, i);
    while !underflow && i >= l
      invariant l - 1 <= i < m && RestB(d, e, bnd, n) == old(RestB(d, e, bnd, n))
      invariant end == if underflow then SweepEnd(NowB(d, e, bnd, n), Cursor(s, c, p, g), i, true)
                       else Passes(ar, NowB(d, e, bnd, n), Cursor(s, c, p, g), l, i)
      decreases i - l + 1, !underflow
    {
      s, c, p, g, underflow := PassBounds(ar, n, d, e, bnd, i, s, c, p, g);
      if !underflow {
        i := i - 1;
      }
    }
    Recover(n, d, e, l, m, i, s, c, p, g, underflow, [bnd[..n]]);
  }

  /** v0 with its entries from i to l-1 shifted up by one, whatever is left at i. */
  ghost predicate Opened<T>(v0: seq<T>, v: seq<T>, l: nat, i: nat) {
    |v| == |v0| && i <= l < |v| && forall j :: 0 <= j < |v| && j != i ==> v[j] == v0[if i < j <= l then j - 1 else j]
  }

  lemma OpenedStart<T>(v: seq<T>, l: nat)
    requires l < |v|
    ensures Opened(v, v, l, l)
  {
  }

  lemma OpenedAt<T>(v0: seq<T>, v: seq<T>, l: nat, i: nat, j: nat)
    requires Opened(v0, v, l, i) && j < i
    ensures |v| == |v0| && v[j] == v0[j]
  {
  }

  lemma SlotStep(d: seq<real>, p: real, i: nat)
    requires i <= |d|
    ensures Slot(d, p, i) == if i >= 1 && p < d[i - 1] then Slot(d, p, i - 1) else i
  {
  }

  lemma OpenedStep<T>(v0: seq<T>, v: seq<T>, l: nat, i: nat)
    requires Opened(v0, v, l, i) && i >= 1
    ensures Opened(v0, v[i := v[i - 1]], l, i - 1)
  {
  }

  lemma OpenedFilled<T>(v0: seq<T>, v: seq<T>, l: nat, i: nat)
    requires Opened(v0, v, l, i)
    ensures v[i := v0[l]] == Moved(v0, l, i)
  {
    var w, u := v[i := v0[l]], Moved(v0, l, i);
    forall j | 0 <= j < |v| ensures w[j] == u[j] {
      if j < i {
      } else if j == i {
      } else if j <= l {
      } else {
      }
    }
  }

  /** A move within the first n entries is a move of those. */
  lemma MovedPart<T>(v: seq<T>, n: nat, l: nat, s: nat)
    requires s <= l < n <= |v|
    ensures Moved(v, l, s)[..n] == Moved(v[..n], l, s) && Moved(v, l, s)[n..] == v[n..]
  {
  }

  lemma {:induction false} SlotPart(v: seq<real>, n: nat, p: real, i: nat)
    requires i <= n <= |v|
    ensures Slot(v[..n], p, i) == Slot(v, p, i)
  {
    if i > 0 {
      SlotPart(v, n, p, i - 1);
    }
  }

  /** Eigenvalue l and its bound moved down to their place among those before. */
  method InsertBounds(n: nat, d: array<real>, e: array<real>, bnd: array<real>, l: nat)
    requires d.Length >= n && e.Length >= n && bnd.Length >= n && l < n
    requires d != e && d != bnd && e != bnd
    modifies d, bnd
    ensures RestB(d, e, bnd, n) == old(RestB(d, e, bnd, n))
    ensures NowB(d, e, bnd, n) == Inserted(old(NowB(d, e, bnd, n)), l)
  {
    hide Opened, Moved, Slot;
    OpenedStart(d[..], l);
    OpenedStart(bnd[..], l);
    var p := d[l];
    var f := bnd[l];
    var exchange := true;
    var i := l;
    if l != 0 {
      while i >= 1 && exchange
        invariant i <= l
        invariant Slot(old(d[..]), p, l) == if exchange then Slot(old(d[..]), p, i) else i
        invariant Opened(old(d[..]), d[..], l, i) && Opened(old(bnd[..]), bnd[..], l, i)
        decreases i, exchange
      {
        SlotStep(old(d[..]), p, i);
        OpenedAt(old(d[..]), d[..], l, i, i - 1);
        if p < d[i - 1] {
          OpenedStep(old(d[..]), d[..], l, i);
          OpenedStep(old(bnd[..]), bnd[..], l, i);
          ghost var dv, bv := d[..], bnd[..];
          d[i] := d[i - 1];
          bnd[i] := bnd[i - 1];
          assert d[..] == dv[i := dv[i - 1]] && bnd[..] == bv[i := bv[i - 1]];
          i := i - 1;
        } else {
          exchange := false;
        }
      }
    }
    SlotStep(old(d[..]), p, 0);
    if exchange {
      i := 0;
    }
    OpenedFilled(old(d[..]), d[..], l, i);
    OpenedFilled(old(bnd[..]), bnd[..], l, i);
    ghost var dv, bv := d[..], bnd[..];
    d[i] := p;
    bnd[i] := f;
    assert d[..] == dv[i := p] && bnd[..] == bv[i := f];
    MovedPart(old(d[..]), n, l, i);
    MovedPart(old(bnd[..]), n, l, i);
    SlotPart(old(d[..]), n, p, l);
    assert old(d[..n]) == old(d[..])[..n] && old(bnd[..n]) == old(bnd[..])[..n];
    assert d[..n] == d[..][..n] && bnd[..n] == bnd[..][..n];
    assert d[n..] == d[..][n..] && bnd[n..] == bnd[..][n..];
  }

  /** The first loop of imtqlb: bnd is the first unit vector, the subdiagonal is moved down. */
  method PrepareBounds(n: nat, e: array<real>, bnd: array<real>)
    requires e.Length >= n && bnd.Length >= n && n >= 1 && e != bnd
    modifies e, bnd
    ensures e[n..] == old(e[n..]) && bnd[n..] == old(bnd[n..])
    ensures e[..n] == Shifted(old(e[..n])) && bnd[..n] == Unit(n, 0)
  {
    bnd[0] := 1.0;
    var last := n - 1;
    var i := 1;
    while i < n
      invariant 1 <= i <= n
      invariant forall k :: 0 <= k < i - 1 ==> e[k] == old(e[k + 1])
      invariant forall k :: i - 1 <= k < e.Length ==> e[k] == old(e[k])
      invariant bnd[0] == 1.0 && forall k :: 1 <= k < i ==> bnd[k] == 0.0
      invariant forall k :: i <= k < bnd.Length ==> bnd[k] == old(bnd[k])
    {
      bnd[i] := 0.0;
      e[i - 1] := e[i];
      i := i + 1;
    }
    e[last] := 0.0;
  }

  class Solver {
    /** The global error flag. */
    var ierr: int

    /** The sweeps for eigenvalue l, of which there are at most 30. */
    method IterateVectors(ar: Arith, nm: nat, n: nat, d: array<real>, e: array<real>, z: array<real>, l: nat)
      returns (stopped: bool)
      requires d.Length >= n && e.Length >= n && z.Length >= RowStart(n, nm) && l < n
      requires d != e && d != z && e != z
      modifies this, d, e, z
      ensures Rest(d, e, z, nm, n) == old(Rest(d, e, z, nm, n))
      ensures var o := Iterate(ar, old(Now(d, e, z, nm, n)), l, 0);
              && stopped == o.Stopped? && Now(d, e, z, nm, n) == o.st
              && ierr == (if stopped then l else old(ierr))
      ensures SweptTo(ar, old(Now(d, e, z, nm, n)), Now(d, e, z, nm, n), n, l, stopped)
    {
      hide Sweep, Rows, SweptTo;
      IterateSweeps(ar, Now(d, e, z, nm, n), n, l);
      ghost var o := Iterate(ar, Now(d, e, z, nm, n), l, 0);
      var iteration := 0;
      while iteration <= 30
        invariant iteration <= 30 && ierr == old(ierr) && Rest(d, e, z, nm, n) == old(Rest(d, e, z, nm, n))
        invariant Iterate(ar, Now(d, e, z, nm, n), l, iteration) == o
      {
        var m := FindSplit(n, d, e, l);
        if m != l {
          if iteration == 30 {
            ierr := l;
            return true;
          }
          iteration := iteration + 1;
          SweepVectors(ar, nm, n, d, e, z, l, m);
        } else {
          break;
        }
      }
      return false;
    }

    /** The outer loop of imtql2. */
    method SolveVectors(ar: Arith, nm: nat, n: nat, d: array<real>, e: array<real>, z: array<real>)
      returns (stopped: bool)
      requires d.Length >= n && e.Length >= n && z.Length >= RowStart(n, nm)
      requires d != e && d != z && e != z
      modifies this, d, e, z
      ensures Rest(d, e, z, nm, n) == old(Rest(d, e, z, nm, n))
      ensures var o := Solve(ar, old(Now(d, e, z, nm, n)), 0);
              && stopped == o.Stopped? && Now(d, e, z, nm, n) == o.st
              && ierr == (if o.Stopped? then o.l else old(ierr))
      ensures exists cs ::
        && IsRun(ar, old(Now(d, e, z, nm, n)), Now(d, e, z, nm, n), n, 0, false, cs, stopped)
        && (stopped ==> ierr == |cs| - 1)
    {
      hide Iterate, IsRun;
      ghost var o := Solve(ar, Now(d, e, z, nm, n), 0);
      ghost var cs := SolveRun(ar, Now(d, e, z, nm, n), n, 0);
      var l := 0;
      while l < n
        invariant l <= n && ierr == old(ierr) && Rest(d, e, z, nm, n) == old(Rest(d, e, z, nm, n))
        invariant Solve(ar, Now(d, e, z, nm, n), l) == o
      {
        stopped := IterateVectors(ar, nm, n, d, e, z, l);
        if stopped {
          return;
        }
        l := l + 1;
      }
      stopped := false;
    }

    method Imtql2(ar: Arith, nm: nat, n: nat, d: array<real>, e: array<real>, z: array<real>)
      requires d.Length >= n && e.Length >= n && z.Length >= RowStart(n, nm) && n >= 1
      requires d != e && d != z && e != z
      modifies this, d, e, z
      ensures Rest(d, e, z, nm, n) == old(Rest(d, e, z, nm, n))
      ensures n == 1 ==> ierr == old(ierr) && Now(d, e, z, nm, n) == old(Now(d, e, z, nm, n))
      ensures n >= 2 ==>
        var o := Solve(ar, old(State(d[..n], Shifted(e[..n]), Rows(z[..RowStart(n, nm)], nm, n))), 0);
        && ierr == (if o.Stopped? then o.l else 0)
        && Now(d, e, z, nm, n) == (if o.Stopped? then o.st else Order(o.st, 1))
      ensures n >= 2 ==>
        var st := old(State(d[..n], Shifted(e[..n]), Rows(z[..RowStart(n, nm)], nm, n)));
        RanVectors(ar, st, Now(d, e, z, nm, n), n, ierr)
    {
      hide RanVectors;
      if n == 1 {
        return;
      }
      ierr := 0;
      ShiftDown(n, e);
      SolveRuns(ar, Now(d, e, z, nm, n), n);
      var stopped := SolveVectors(ar, nm, n, d, e, z);
      if !stopped {
        OrderVectors(nm, n, d, e, z);
      }
    }

    /** The sweeps for eigenvalue l, and its insertion when they have converged. */
    method IterateBounds(ar: Arith, n: nat, d: array<real>, e: array<real>, bnd: array<real>, l: nat)
      returns (stopped: bool)
      requires d.Length >= n && e.Length >= n && bnd.Length >= n && l < n
      requires d != e && d != bnd && e != bnd
      modifies this, d, e, bnd
      ensures RestB(d, e, bnd, n) == old(RestB(d, e, bnd, n))
      ensures var o := Iterate(ar, old(NowB(d, e, bnd, n)), l, 0);
              && stopped == o.Stopped?
              && NowB(d, e, bnd, n) == (if stopped then o.st else Inserted(o.st, l))
              && ierr == (if stopped then l else old(ierr))
      ensures exists st ::
        && SweptTo(ar, old(NowB(d, e, bnd, n)), st, n, l, stopped) && SingleRow(st, n)
        && NowB(d, e, bnd, n) == if stopped then st else Inserted(st, l)
    {
      hide Sweep, Inserted, SweptTo;
      IterateSweeps(ar, NowB(d, e, bnd, n), n, l);
      ghost var o := Iterate(ar, NowB(d, e, bnd, n), l, 0);
      var iteration := 0;
      while iteration <= 30
        invariant iteration <= 31 && ierr == old(ierr) && RestB(d, e, bnd, n) == old(RestB(d, e, bnd, n))
        invariant iteration <= 30 ==> Iterate(ar, NowB(d, e, bnd, n), l, iteration) == o
        invariant iteration == 31 ==> o.Completed? && NowB(d, e, bnd, n) == Inserted(o.st, l)
      {
        var m := FindSplit(n, d, e, l);
        if m != l {
          if iteration == 30 {
            ierr := l;
            return true;
          }
          iteration := iteration + 1;
          SweepBounds(ar, n, d, e, bnd, l, m);
        } else {
          InsertBounds(n, d, e, bnd, l);
          iteration := 31;
        }
      }
      return false;
    }

    method Imtqlb(ar: Arith, n: nat, d: array<real>, e: array<real>, bnd: array<real>)
      requires d.Length >= n && e.Length >= n && bnd.Length >= n && n >= 1
      requires d != e && d != bnd && e != bnd
      modifies this, d, e, bnd
      ensures RestB(d, e, bnd, n) == old(RestB(d, e, bnd, n))
      ensures n == 1 ==> ierr == old(ierr) && NowB(d, e, bnd, n) == old(NowB(d, e, bnd, n))
      ensures n >= 2 ==>
        var o := SolveBounds(ar, old(State(d[..n], Shifted(e[..n]), [Unit(n, 0)])), 0);
        && ierr == (if o.Stopped? then o.l else 0)
        && NowB(d, e, bnd, n) == o.st
      ensures n >= 2 ==>
        var st := old(State(d[..n], Shifted(e[..n]), [Unit(n, 0)]));
        RanBounds(ar, st, NowB(d, e, bnd, n), n, ierr)
    {
      hide Iterate, Inserted, RanBounds, IsRun, SweptTo;
      if n == 1 {
        return;
      }
      ierr := 0;
      PrepareBounds(n, e, bnd);
      ghost var o := SolveBounds(ar, NowB(d, e, bnd, n), 0);
      SolveBoundsRuns(ar, NowB(d, e, bnd, n), n);
      var l := 0;
      while l < n
        invariant l <= n && ierr == 0 && RestB(d, e, bnd, n) == old(RestB(d, e, bnd, n))
        invariant SolveBounds(ar, NowB(d, e, bnd, n), l) == o
      {
        var stopped := IterateBounds(ar, n, d, e, bnd, l);
        if stopped {
          return;
        }
        l := l + 1;
      }
    }
  }
}
