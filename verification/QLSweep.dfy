/**
 The implicit QL iteration shared by imtqlb and imtql2, on values: one pass of
 the inner loop, a sweep of passes, the iteration for one eigenvalue, and the
 outer loop. `rows` is whatever is rotated along: all rows of z in imtql2, the
 single row bnd in imtqlb.
 */
module QLSweep {
  import opened Reals
  import opened LinearAlgebra

  /** The hypotenuse routine, and what a division by zero delivers; nothing is assumed of either. */
  datatype Arith = Arith(hyp: (real, real) -> real, overZero: real -> real)

  ghost predicate IsHypotenuse(r: real, x: real, y: real) {
    r >= 0.0 && r * r == x * x + y * y
  }

  /** The hypotenuse routine is exact. */
  ghost predicate Exact(ar: Arith) {
    forall x: real, y: real :: IsHypotenuse(ar.hyp(x, y), x, y)
  }

  function Quotient(ar: Arith, x: real, y: real): real {
    if y != 0.0 then x / y else ar.overZero(x)
  }

  function FSign(a: real, b: real): real {
    if (a >= 0.0 && b >= 0.0) || (a < 0.0 && b < 0.0) then a else -a
  }

  datatype State = State(d: seq<real>, e: seq<real>, rows: seq<seq<real>>)

  ghost predicate Shaped(st: State, n: nat) {
    |st.d| == n && |st.e| == n && IsMatrix(st.rows, |st.rows|, n)
  }

  /** The scalars carried from pass to pass. */
  datatype Cursor = Cursor(s: real, c: real, p: real, g: real)

  datatype SweepEnd = SweepEnd(st: State, k: Cursor, i: int, underflow: bool)

  datatype Outcome = Completed(st: State) | Stopped(l: nat, st: State)

  /** The convergence test; in exact arithmetic it holds just when e[m] is zero. */
  predicate Negligible(d: seq<real>, e: seq<real>, m: nat)
    requires m + 1 < |d| && m < |e|
  {
    Abs(d[m]) + Abs(d[m + 1]) + Abs(e[m]) == Abs(d[m]) + Abs(d[m + 1])
  }

  /** The end of the unreduced block that starts at l. */
  function Split(d: seq<real>, e: seq<real>, l: nat): (m: nat)
    requires l < |d| == |e|
    ensures l <= m < |d|
    ensures forall k :: l <= k < m ==> e[k] != 0.0
    ensures m + 1 == |d| || e[m] == 0.0
    decreases |d| - l
  {
    if l + 1 == |d| || Negligible(d, e, l) then l else Split(d, e, l + 1)
  }

  function ShiftDivisor(ar: Arith, g: real): real {
    g + FSign(ar.hyp(g, 1.0), g)
  }

  function Shift(ar: Arith, d: seq<real>, e: seq<real>, l: nat, m: nat): real
    requires l < m < |d| == |e|
  {
    var g := Quotient(ar, d[l + 1] - d[l], 2.0 * e[l]);
    d[m] - d[l] + Quotient(ar, e[l], ShiftDivisor(ar, g))
  }

  function PassRadius(ar: Arith, e: seq<real>, i: nat, k: Cursor): real
    requires i < |e|
  {
    ar.hyp(Times(k.s, e[i]), k.g)
  }

  function Slope(x: real, b: real, q: real, s: real, c: real): real {
    (x - q) * s + 2.0 * c * b
  }

  /** The scalars of one pass, from the block [[x, b], [b, q]] and the pair (f, g) of hypotenuse r. */
  function NextCursor(ar: Arith, x: real, b: real, q: real, f: real, g: real, r: real): Cursor {
    var s := Quotient(ar, f, r);
    var c := Quotient(ar, g, r);
    var t := Slope(x, b, q, s, c);
    Cursor(s, c, Times(s, t), Times(c, t) - b)
  }

  /** The scalars after the pass at i. */
  function PassCursor(ar: Arith, d: seq<real>, e: seq<real>, i: nat, k: Cursor): Cursor
    requires i + 1 < |d| && i < |e|
  {
    NextCursor(ar, d[i], Times(k.c, e[i]), d[i + 1] - k.p, Times(k.s, e[i]), k.g, PassRadius(ar, e, i, k))
  }

  /** The arrays after the pass at i. */
  function PassState(ar: Arith, st: State, i: nat, k: Cursor): (st': State)
    requires i + 1 < |st.d| && Shaped(st, |st.d|)
    ensures Shaped(st', |st.d|) && |st'.rows| == |st.rows|
  {
    var k' := PassCursor(ar, st.d, st.e, i, k);
    State(st.d[i + 1 := (st.d[i + 1] - k.p) + k'.p],
          st.e[i + 1 := PassRadius(ar, st.e, i, k)],
          RotateColumns(st.rows, i, k'.s, k'.c))
  }

  /** Passes i, i-1, ..., l, cut short by an underflow. */
  function Passes(ar: Arith, st: State, k: Cursor, l: nat, i: int): (end: SweepEnd)
    requires l - 1 <= i < |st.d| - 1 && Shaped(st, |st.d|)
    ensures Shaped(end.st, |st.d|) && |end.st.rows| == |st.rows|
    ensures l - 1 <= end.i <= i && (end.underflow || end.i == l - 1)
    decreases i - l + 1
  {
    if i < l then SweepEnd(st, k, i, false)
    else if PassRadius(ar, st.e, i, k) == 0.0 then
      SweepEnd(st.(e := st.e[i + 1 := 0.0]), k, i, true)
    else
      Passes(ar, PassState(ar, st, i, k), PassCursor(ar, st.d, st.e, i, k), l, i - 1)
  }

  /** What follows the passes: put p and g back, and cut the block at m. */
  function Settle(end: SweepEnd, l: nat, m: nat): (st': State)
    requires Shaped(end.st, |end.st.d|) && l < m < |end.st.d|
    requires -1 <= end.i < |end.st.d| - 1
    ensures Shaped(st', |end.st.d|) && |st'.rows| == |end.st.rows|
  {
    var st := end.st;
    if end.underflow then
      st.(d := st.d[end.i + 1 := st.d[end.i + 1] - end.k.p], e := st.e[m := 0.0])
    else
      st.(d := st.d[l := st.d[l] - end.k.p], e := st.e[l := end.k.g][m := 0.0])
  }

  function StartCursor(ar: Arith, d: seq<real>, e: seq<real>, l: nat, m: nat): Cursor
    requires l < m < |d| == |e|
  {
    Cursor(1.0, 1.0, 0.0, Shift(ar, d, e, l, m))
  }

  function Sweep(ar: Arith, st: State, l: nat, m: nat): (st': State)
    requires Shaped(st, |st.d|) && l < m < |st.d|
    ensures Shaped(st', |st.d|) && |st'.rows| == |st.rows|
  {
    Settle(Passes(ar, st, StartCursor(ar, st.d, st.e, l, m), l, m - 1), l, m)
  }

  /** Sweeps until e[l] is negligible; gives up when 30 sweeps were not enough. */
  function Iterate(ar: Arith, st: State, l: nat, iteration: nat): (o: Outcome)
    requires Shaped(st, |st.d|) && l < |st.d| && iteration <= 30
    ensures Shaped(o.st, |st.d|) && |o.st.rows| == |st.rows|
    ensures o.Stopped? ==> o.l == l
    decreases 30 - iteration
  {
    var m := Split(st.d, st.e, l);
    if m == l then Completed(st)
    else if iteration == 30 then Stopped(l, st)
    else Iterate(ar, Sweep(ar, st, l, m), l, iteration + 1)
  }

  /** The outer loop from l on. */
  function Solve(ar: Arith, st: State, l: nat): (o: Outcome)
    requires Shaped(st, |st.d|) && l <= |st.d|
    ensures Shaped(o.st, |st.d|) && |o.st.rows| == |st.rows|
    decreases |st.d| - l
  {
    if l == |st.d| then Completed(st)
    else
      var o := Iterate(ar, st, l, 0);
      if o.Stopped? then o else Solve(ar, o.st, l + 1)
  }

  /** The subdiagonal moved to start at index 0, as both routines do first. */
  function Shifted(e: seq<real>): (r: seq<real>)
    requires |e| >= 1
    ensures |r| == |e| && r[|e| - 1] == 0.0 && forall k :: 0 <= k < |e| - 1 ==> r[k] == e[k + 1]
  {
    e[1..] + [0.0]
  }
}
