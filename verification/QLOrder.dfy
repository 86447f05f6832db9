/**
 The ordering stage of imtql2, on values: selection of the least remaining
 eigenvalue, its column carried along. It sorts, it only permutes the pairs
 (eigenvalue, column), and it keeps every property of the pairs.
 */
module QLOrder {
  import opened Sequences
  import opened LinearAlgebra
  import opened QLSweep

  /** The index found by scanning j, j+1, ... for an entry strictly below the best, k, so far. */
  function Least(d: seq<real>, k: nat, j: nat): (b: nat)
    requires k < j <= |d|
    ensures b < |d| && (b == k || b >= j)
    ensures d[b] <= d[k] && forall i :: j <= i < |d| ==> d[b] <= d[i]
    ensures b != k ==> d[b] < d[k] && forall i :: j <= i < b ==> d[b] < d[i]
    decreases |d| - j
  {
    if j == |d| then k else Least(d, if d[j] < d[k] then j else k, j + 1)
  }

  function SwapColumns(st: State, i: nat, k: nat): (st': State)
    requires Shaped(st, |st.d|) && i < |st.d| && k < |st.d|
    ensures Shaped(st', |st.d|) && |st'.rows| == |st.rows|
    ensures forall r :: 0 <= r < |st.rows| ==> st'.rows[r] == Swapped(st.rows[r], i, k)
  {
    State(Swapped(st.d, i, k), st.e, seq(|st.rows|, r requires 0 <= r < |st.rows| => Swapped(st.rows[r], i, k)))
  }

  /** Step l of the ordering: the least of d[l-1..] is brought to l-1. */
  function OrderStep(st: State, l: nat): (st': State)
    requires Shaped(st, |st.d|) && 1 <= l < |st.d|
    ensures Shaped(st', |st.d|) && |st'.rows| == |st.rows|
  {
    var k := Least(st.d, l - 1, l);
    if k != l - 1 then SwapColumns(st, l - 1, k) else st
  }

  function Order(st: State, l: nat): (st': State)
    requires Shaped(st, |st.d|) && 1 <= l
    ensures Shaped(st', |st.d|) && |st'.rows| == |st.rows|
    decreases |st.d| - l
  {
    if l >= |st.d| then st else Order(OrderStep(st, l), l + 1)
  }

  // ---------- it sorts ----------

  ghost predicate SettledBelow(d: seq<real>, b: int) {
    forall i, j :: 0 <= i < b && i < j < |d| ==> d[i] <= d[j]
  }

  lemma {:induction false} OrderSorts(st: State, l: nat)
    requires Shaped(st, |st.d|) && 1 <= l && SettledBelow(st.d, l - 1)
    ensures Ascending(Order(st, l).d)
    decreases |st.d| - l
  {
    if l < |st.d| {
      var d, d' := st.d, OrderStep(st, l).d;
      forall i, j | 0 <= i < l && i < j < |d| ensures d'[i] <= d'[j] {
        if i == l - 1 {
          assert d'[i] == d[Least(d, l - 1, l)];
        }
      }
      OrderSorts(OrderStep(st, l), l + 1);
    }
  }

  // ---------- it permutes ----------

  lemma {:induction false} OrderPermutes(st: State, l: nat, r: nat)
    requires Shaped(st, |st.d|) && 1 <= l && r < |st.rows|
    ensures multiset(Zip(Order(st, l).d, Order(st, l).rows[r])) == multiset(Zip(st.d, st.rows[r]))
    ensures multiset(Order(st, l).d) == multiset(st.d)
    decreases |st.d| - l
  {
    if l < |st.d| {
      ZipSwapped(st.d, st.rows[r], l - 1, Least(st.d, l - 1, l));
      SwappedMultiset(st.d, l - 1, Least(st.d, l - 1, l));
      OrderPermutes(OrderStep(st, l), l + 1, r);
    }
  }

  // ---------- it keeps what the pairs have ----------

  /** Column j of z is an eigenvector of a for d[j], for every j. */
  ghost predicate EigenColumns(a: Matrix, z: Matrix, d: seq<real>, n: nat) {
    && IsMatrix(a, |z|, |z|) && IsMatrix(z, |z|, n) && |d| == n
    && forall r, j :: 0 <= r < |z| && 0 <= j < n ==> Dot(a[r], Col(z, j)) == d[j] * z[r][j]
  }

  /** Column j alone. */
  ghost predicate EigenColumn(a: Matrix, z: Matrix, x: real, n: nat, j: nat) {
    && IsMatrix(a, |z|, |z|) && IsMatrix(z, |z|, n) && j < n
    && forall r :: 0 <= r < |z| ==> Dot(a[r], Col(z, j)) == x * z[r][j]
  }

  lemma ColSwapped(st: State, n: nat, i: nat, k: nat, j: nat)
    requires Shaped(st, n) && i < n && k < n && j < n
    ensures Col(SwapColumns(st, i, k).rows, j) == Col(st.rows, if j == i then k else if j == k then i else j)
  {
  }

  lemma {:induction false} DotToUpdate(u: Vector, v: Vector, i: nat, x: real, y: real, n: nat)
    requires i < |u| && |u| == |v| && n <= |u|
    ensures DotTo(u[i := x], v[i := y], n) == if i < n then DotTo(u, v, n) - u[i] * v[i] + x * y else DotTo(u, v, n)
  {
    if n > 0 {
      DotToUpdate(u, v, i, x, y, n - 1);
    }
  }

  lemma SwappedDot(u: Vector, v: Vector, i: nat, k: nat)
    requires i < |u| && k < |u| && |u| == |v|
    ensures Dot(Swapped(u, i, k), Swapped(v, i, k)) == Dot(u, v)
  {
    DotToUpdate(u, v, i, u[k], v[k], |u|);
    DotToUpdate(u[i := u[k]], v[i := v[k]], k, u[i], v[i], |u|);
  }

  lemma SwapKeepsGeometry(st: State, n: nat, i: nat, k: nat)
    requires Shaped(st, n) && i < n && k < n
    ensures RowGram(SwapColumns(st, i, k).rows, n) == RowGram(st.rows, n)
    ensures OrthonormalColumns(st.rows, n) ==> OrthonormalColumns(SwapColumns(st, i, k).rows, n)
  {
    var z, z' := st.rows, SwapColumns(st, i, k).rows;
    forall a, b | 0 <= a < |z| && 0 <= b < |z| ensures RowGram(z', n)[a][b] == RowGram(z, n)[a][b] {
      SwappedDot(z[a], z[b], i, k);
    }
    forall a | 0 <= a < |z| ensures RowGram(z', n)[a] == RowGram(z, n)[a] {
    }
    if OrthonormalColumns(z, n) {
      forall a, b | 0 <= a < n && 0 <= b < n
        ensures Dot(Col(z', a), Col(z', b)) == if a == b then 1.0 else 0.0
      {
        ColSwapped(st, n, i, k, a);
        ColSwapped(st, n, i, k, b);
      }
    }
  }

  lemma SwapKeepsPair(a: Matrix, st: State, n: nat, i: nat, k: nat, r: nat, j: nat)
    requires Shaped(st, n) && i < n && k < n && EigenColumns(a, st.rows, st.d, n) && r < |st.rows| && j < n
    ensures var st' := SwapColumns(st, i, k);
            Dot(a[r], Col(st'.rows, j)) == st'.d[j] * st'.rows[r][j]
  {
    hide Dot;
    var st' := SwapColumns(st, i, k);
    ColSwapped(st, n, i, k, j);
    var j' := if j == i then k else if j == k then i else j;
    assert st'.d[j] == st.d[j'] && st'.rows[r][j] == st.rows[r][j'];
    assert Dot(a[r], Col(st.rows, j')) == st.d[j'] * st.rows[r][j'];
  }

  lemma SwapKeepsEigen(a: Matrix, st: State, n: nat, i: nat, k: nat)
    requires Shaped(st, n) && i < n && k < n && EigenColumns(a, st.rows, st.d, n)
    ensures EigenColumns(a, SwapColumns(st, i, k).rows, SwapColumns(st, i, k).d, n)
  {
    hide Dot;
    var st' := SwapColumns(st, i, k);
    forall r, j | 0 <= r < |st.rows| && 0 <= j < n
      ensures Dot(a[r], Col(st'.rows, j)) == st'.d[j] * st'.rows[r][j]
    {
      SwapKeepsPair(a, st, n, i, k, r, j);
    }
  }

  lemma {:induction false} OrderKeepsEigen(a: Matrix, st: State, n: nat, l: nat)
    requires Shaped(st, n) && 1 <= l && EigenColumns(a, st.rows, st.d, n)
    ensures EigenColumns(a, Order(st, l).rows, Order(st, l).d, n)
    decreases n - l
  {
    if l < n {
      SwapKeepsEigen(a, st, n, l - 1, Least(st.d, l - 1, l));
      OrderKeepsEigen(a, OrderStep(st, l), n, l + 1);
    }
  }

  lemma {:induction false} OrderKeepsGeometry(st: State, n: nat, l: nat)
    requires Shaped(st, n) && 1 <= l
    ensures RowGram(Order(st, l).rows, n) == RowGram(st.rows, n)
    ensures OrthonormalColumns(st.rows, n) ==> OrthonormalColumns(Order(st, l).rows, n)
    decreases n - l
  {
    if l < n {
      SwapKeepsGeometry(st, n, l - 1, Least(st.d, l - 1, l));
      OrderKeepsGeometry(OrderStep(st, l), n, l + 1);
    }
  }
}
