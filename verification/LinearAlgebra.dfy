/**
 Finite real vectors and matrices (row-major sequences of rows), with just the
 algebra the eigen-solvers and the sparse kernels need: dot products, matrix
 products, and plane rotations of two neighbouring coordinates.
 */
module LinearAlgebra {

  type Vector = seq<real>
  type Matrix = seq<seq<real>>

  ghost predicate IsMatrix(m: Matrix, rows: nat, cols: nat) {
    |m| == rows && forall r :: 0 <= r < rows ==> |m[r]| == cols
  }

  // ---------- dot products ----------

  /** Sum of u[k] * v[k] over k < n. */
  ghost function DotTo(u: Vector, v: Vector, n: nat): real
    requires n <= |u| && n <= |v|
  {
    if n == 0 then 0.0 else DotTo(u, v, n - 1) + u[n - 1] * v[n - 1]
  }

  ghost function Dot(u: Vector, v: Vector): real
    requires |u| == |v|
  {
    DotTo(u, v, |u|)
  }

  /** The vector a*u + b*v. */
  ghost function Combine(a: real, u: Vector, b: real, v: Vector): (w: Vector)
    requires |u| == |v|
    ensures |w| == |u| && forall k :: 0 <= k < |u| ==> w[k] == a * u[k] + b * v[k]
  {
    seq(|u|, k requires 0 <= k < |u| => a * u[k] + b * v[k])
  }

  lemma {:induction false} DotToCombine(x: Vector, a: real, u: Vector, b: real, v: Vector, n: nat)
    requires |u| == |v| && n <= |u| && n <= |x|
    ensures DotTo(x, Combine(a, u, b, v), n) == a * DotTo(x, u, n) + b * DotTo(x, v, n)
  {
    if n > 0 {
      DotToCombine(x, a, u, b, v, n - 1);
      var w := Combine(a, u, b, v);
      DistributeProduct(x[n - 1], a, u[n - 1], b, v[n - 1]);
      DistributeSum(a, DotTo(x, u, n - 1), x[n - 1] * u[n - 1]);
      DistributeSum(b, DotTo(x, v, n - 1), x[n - 1] * v[n - 1]);
    }
  }

  lemma DistributeProduct(x: real, a: real, u: real, b: real, v: real)
    ensures x * (a * u + b * v) == a * (x * u) + b * (x * v)
  {
  }

  lemma DistributeSum(a: real, x: real, y: real)
    ensures a * (x + y) == a * x + a * y
  {
  }

  lemma {:induction false} DotToSymmetric(u: Vector, v: Vector, n: nat)
    requires n <= |u| && n <= |v|
    ensures DotTo(u, v, n) == DotTo(v, u, n)
  {
    if n > 0 {
      DotToSymmetric(u, v, n - 1);
    }
  }

  lemma DotCombineRight(x: Vector, a: real, u: Vector, b: real, v: Vector)
    requires |u| == |v| == |x|
    ensures Dot(x, Combine(a, u, b, v)) == a * Dot(x, u) + b * Dot(x, v)
  {
    DotToCombine(x, a, u, b, v, |x|);
  }

  lemma DotCombineLeft(a: real, u: Vector, b: real, v: Vector, x: Vector)
    requires |u| == |v| == |x|
    ensures Dot(Combine(a, u, b, v), x) == a * Dot(u, x) + b * Dot(v, x)
  {
    DotToSymmetric(Combine(a, u, b, v), x, |x|);
    DotToSymmetric(u, x, |x|);
    DotToSymmetric(v, x, |x|);
    DotToCombine(x, a, u, b, v, |x|);
  }

  // ---------- plane rotations ----------

  /** The two coordinates of (x, y) rotated. */
  function Low(x: real, y: real, s: real, c: real): real {
    c * x - s * y
  }

  function High(x: real, y: real, s: real, c: real): real {
    s * x + c * y
  }

  /** Rotates coordinates i and i+1: (x, y) becomes (c*x - s*y, s*x + c*y). */
  function Rotate(u: Vector, i: nat, s: real, c: real): (w: Vector)
    requires i + 1 < |u|
    ensures |w| == |u|
  {
    u[i := Low(u[i], u[i + 1], s, c)][i + 1 := High(u[i], u[i + 1], s, c)]
  }

  lemma RotatedPairProduct(a: real, b: real, x: real, y: real, s: real, c: real)
    requires s * s + c * c == 1.0
    ensures (c * a - s * b) * (c * x - s * y) + (s * a + c * b) * (s * x + c * y) == a * x + b * y
  {
    assert (c * a - s * b) * (c * x - s * y) == c * c * (a * x) - c * s * (a * y) - s * c * (b * x) + s * s * (b * y);
    assert (s * a + c * b) * (s * x + c * y) == s * s * (a * x) + s * c * (a * y) + c * s * (b * x) + c * c * (b * y);
    assert (s * s + c * c) * (a * x) == s * s * (a * x) + c * c * (a * x);
    assert (s * s + c * c) * (b * y) == s * s * (b * y) + c * c * (b * y);
  }

  lemma {:induction false} DotToPrefix(u: Vector, v: Vector, u': Vector, v': Vector, n: nat)
    requires n <= |u| && n <= |v| && n <= |u'| && n <= |v'|
    requires forall k :: 0 <= k < n ==> u[k] == u'[k] && v[k] == v'[k]
    ensures DotTo(u, v, n) == DotTo(u', v', n)
  {
    if n > 0 {
      DotToPrefix(u, v, u', v', n - 1);
    }
  }

  /** Two pairs of vectors whose products differ only at k and k+1, with the same sum there. */
  lemma {:induction false} DotToPairSwap(u: Vector, v: Vector, u': Vector, v': Vector, k: nat, n: nat)
    requires k + 2 <= n && n <= |u| && n <= |v| && n <= |u'| && n <= |v'|
    requires forall j :: 0 <= j < n && j != k && j != k + 1 ==> u[j] == u'[j] && v[j] == v'[j]
    requires u[k] * v[k] + u[k + 1] * v[k + 1] == u'[k] * v'[k] + u'[k + 1] * v'[k + 1]
    ensures DotTo(u, v, n) == DotTo(u', v', n)
  {
    if n == k + 2 {
      DotToPrefix(u, v, u', v', k);
      assert DotTo(u, v, n) == DotTo(u, v, k + 1) + u[k + 1] * v[k + 1];
      assert DotTo(u', v', n) == DotTo(u', v', k + 1) + u'[k + 1] * v'[k + 1];
    } else {
      DotToPairSwap(u, v, u', v', k, n - 1);
    }
  }

  lemma RotateDot(u: Vector, v: Vector, i: nat, s: real, c: real)
    requires i + 1 < |u| && |u| == |v|
    requires s * s + c * c == 1.0
    ensures Dot(Rotate(u, i, s, c), Rotate(v, i, s, c)) == Dot(u, v)
  {
    RotatedPairProduct(u[i], u[i + 1], v[i], v[i + 1], s, c);
    DotToPairSwap(Rotate(u, i, s, c), Rotate(v, i, s, c), u, v, i, |u|);
  }

  // ---------- matrices ----------

  ghost function Col(m: Matrix, j: nat): (v: Vector)
    requires forall r :: 0 <= r < |m| ==> j < |m[r]|
    ensures |v| == |m| && forall r :: 0 <= r < |m| ==> v[r] == m[r][j]
  {
    seq(|m|, r requires 0 <= r < |m| => m[r][j])
  }

  ghost function Transpose(m: Matrix, cols: nat): (t: Matrix)
    requires IsMatrix(m, |m|, cols)
    ensures IsMatrix(t, cols, |m|)
    ensures forall j :: 0 <= j < cols ==> t[j] == Col(m, j)
  {
    seq(cols, j requires 0 <= j < cols => Col(m, j))
  }

  ghost function Product(a: Matrix, b: Matrix, cols: nat): (p: Matrix)
    requires IsMatrix(a, |a|, |b|) && IsMatrix(b, |b|, cols)
    ensures IsMatrix(p, |a|, cols)
    ensures forall r, j :: 0 <= r < |a| && 0 <= j < cols ==> p[r][j] == Dot(a[r], Col(b, j))
  {
    seq(|a|, r requires 0 <= r < |a| =>
      seq(cols, j requires 0 <= j < cols => Dot(a[r], Col(b, j))))
  }

  /** The matrix times a vector. */
  ghost function Apply(m: Matrix, n: nat, v: Vector): (w: Vector)
    requires IsMatrix(m, |m|, n) && |v| == n
    ensures |w| == |m| && forall r :: 0 <= r < |m| ==> w[r] == Dot(m[r], v)
  {
    seq(|m|, r requires 0 <= r < |m| => Dot(m[r], v))
  }

  ghost predicate IsEigenvector(t: Matrix, n: nat, x: real, v: Vector) {
    && IsMatrix(t, n, n) && |v| == n && (exists k :: 0 <= k < n && v[k] != 0.0)
    && forall r :: 0 <= r < n ==> Dot(t[r], v) == x * v[r]
  }

  ghost predicate IsEigenvalue(t: Matrix, n: nat, x: real) {
    exists v :: IsEigenvector(t, n, x, v)
  }

  ghost function Unit(n: nat, i: nat): (v: Vector)
    ensures |v| == n && forall k :: 0 <= k < n ==> v[k] == if k == i then 1.0 else 0.0
  {
    seq(n, k => if k == i then 1.0 else 0.0)
  }

  ghost function Identity(n: nat): (m: Matrix)
    ensures IsMatrix(m, n, n)
    ensures forall i :: 0 <= i < n ==> m[i] == Unit(n, i)
  {
    seq(n, i requires 0 <= i < n => Unit(n, i))
  }

  /** Every row rotated: the product of m with the rotation, from the right. */
  function RotateColumns(m: Matrix, i: nat, s: real, c: real): (w: Matrix)
    requires forall r :: 0 <= r < |m| ==> i + 1 < |m[r]|
    ensures |w| == |m| && forall r :: 0 <= r < |m| ==> w[r] == Rotate(m[r], i, s, c)
  {
    seq(|m|, r requires 0 <= r < |m| => Rotate(m[r], i, s, c))
  }

  /** Rows i and i+1 combined: the product of the inverse rotation with m. */
  ghost function RotateRows(m: Matrix, i: nat, s: real, c: real): (w: Matrix)
    requires i + 1 < |m| && |m[i]| == |m[i + 1]|
    ensures |w| == |m|
  {
    m[i := Combine(c, m[i], -s, m[i + 1])][i + 1 := Combine(s, m[i], c, m[i + 1])]
  }

  /** The matrix seen in the rotated basis. */
  ghost function Conjugate(m: Matrix, n: nat, i: nat, s: real, c: real): (w: Matrix)
    requires IsMatrix(m, n, n) && i + 1 < n
    ensures IsMatrix(w, n, n)
  {
    RotateRows(RotateColumns(m, i, s, c), i, s, c)
  }

  lemma ColOfRotateColumns(m: Matrix, cols: nat, i: nat, s: real, c: real, j: nat)
    requires IsMatrix(m, |m|, cols) && i + 1 < cols && j < cols
    ensures Col(RotateColumns(m, i, s, c), j) ==
      if j == i then Combine(c, Col(m, i), -s, Col(m, i + 1))
      else if j == i + 1 then Combine(s, Col(m, i), c, Col(m, i + 1))
      else Col(m, j)
  {
    var lhs := Col(RotateColumns(m, i, s, c), j);
    if j == i {
      var rhs := Combine(c, Col(m, i), -s, Col(m, i + 1));
      forall r | 0 <= r < |m| ensures lhs[r] == rhs[r] {
        assert lhs[r] == Rotate(m[r], i, s, c)[i];
      }
      assert lhs == rhs;
    } else if j == i + 1 {
      var rhs := Combine(s, Col(m, i), c, Col(m, i + 1));
      forall r | 0 <= r < |m| ensures lhs[r] == rhs[r] {
        assert lhs[r] == Rotate(m[r], i, s, c)[i + 1];
      }
      assert lhs == rhs;
    } else {
      assert lhs == Col(m, j);
    }
  }

  lemma ColOfRotateRows(m: Matrix, cols: nat, i: nat, s: real, c: real, j: nat)
    requires IsMatrix(m, |m|, cols) && i + 1 < |m| && j < cols
    ensures Col(RotateRows(m, i, s, c), j) == Rotate(Col(m, j), i, s, c)
  {
    var lhs, rhs := Col(RotateRows(m, i, s, c), j), Rotate(Col(m, j), i, s, c);
    forall k | 0 <= k < |m| ensures lhs[k] == rhs[k] {
    }
    assert lhs == rhs;
  }

  lemma ProductEntry(a: Matrix, b: Matrix, cols: nat, r: nat, j: nat)
    requires IsMatrix(a, |a|, |b|) && IsMatrix(b, |b|, cols)
    requires r < |a| && j < cols
    ensures Product(a, b, cols)[r][j] == Dot(a[r], Col(b, j))
  {
  }

  /** A dot product with a rotated column set, entry by entry. */
  lemma DotRotatedColumn(x: Vector, m: Matrix, cols: nat, i: nat, s: real, c: real, j: nat)
    requires IsMatrix(m, |m|, cols) && i + 1 < cols && j < cols && |x| == |m|
    ensures Dot(x, Col(RotateColumns(m, i, s, c), j)) ==
      if j == i then Low(Dot(x, Col(m, i)), Dot(x, Col(m, i + 1)), s, c)
      else if j == i + 1 then High(Dot(x, Col(m, i)), Dot(x, Col(m, i + 1)), s, c)
      else Dot(x, Col(m, j))
  {
    hide Dot, RotateColumns;
    ColOfRotateColumns(m, cols, i, s, c, j);
    if j == i {
      DotCombineRight(x, c, Col(m, i), -s, Col(m, i + 1));
    } else if j == i + 1 {
      DotCombineRight(x, s, Col(m, i), c, Col(m, i + 1));
    }
  }

  /** The residual law: if A*Z == Z*M, it still holds after Z and M are rotated. */
  lemma RotationKeepsResidual(a: Matrix, z: Matrix, m: Matrix, n: nat, i: nat, s: real, c: real)
    requires IsMatrix(a, |z|, |z|) && IsMatrix(z, |z|, n) && IsMatrix(m, n, n) && i + 1 < n
    requires s * s + c * c == 1.0
    requires Product(a, z, n) == Product(z, m, n)
    ensures Product(a, RotateColumns(z, i, s, c), n)
         == Product(RotateColumns(z, i, s, c), Conjugate(m, n, i, s, c), n)
  {
    var z' := RotateColumns(z, i, s, c);
    var m' := Conjugate(m, n, i, s, c);
    forall r, j | 0 <= r < |z| && 0 <= j < n
      ensures Product(a, z', n)[r][j] == Product(z', m', n)[r][j]
    {
      ResidualEntry(a, z, m, n, i, s, c, r, j);
    }
    forall r | 0 <= r < |z| ensures Product(a, z', n)[r] == Product(z', m', n)[r] {
    }
  }

  lemma ResidualEntry(a: Matrix, z: Matrix, m: Matrix, n: nat, i: nat, s: real, c: real, r: nat, j: nat)
    requires IsMatrix(a, |z|, |z|) && IsMatrix(z, |z|, n) && IsMatrix(m, n, n) && i + 1 < n
    requires s * s + c * c == 1.0
    requires Product(a, z, n) == Product(z, m, n)
    requires r < |z| && j < n
    ensures Dot(a[r], Col(RotateColumns(z, i, s, c), j))
         == Dot(Rotate(z[r], i, s, c), Col(Conjugate(m, n, i, s, c), j))
  {
    var w := RotateColumns(m, i, s, c);
    forall k | 0 <= k < n ensures Dot(a[r], Col(z, k)) == Dot(z[r], Col(m, k)) {
      assert Product(a, z, n)[r][k] == Product(z, m, n)[r][k];
    }
    DotRotatedColumn(a[r], z, n, i, s, c, j);
    DotRotatedColumn(z[r], m, n, i, s, c, j);
    ColOfRotateRows(w, n, i, s, c, j);
    RotateDot(z[r], Col(w, j), i, s, c);
  }

  // ---------- Gram matrices ----------

  /** z * transpose(z): the dot products of all pairs of rows. */
  ghost function RowGram(z: Matrix, n: nat): Matrix
    requires IsMatrix(z, |z|, n)
  {
    seq(|z|, a requires 0 <= a < |z| => seq(|z|, b requires 0 <= b < |z| => Dot(z[a], z[b])))
  }

  ghost predicate OrthonormalColumns(z: Matrix, n: nat)
    requires IsMatrix(z, |z|, n)
  {
    forall a, b :: 0 <= a < n && 0 <= b < n ==> Dot(Col(z, a), Col(z, b)) == if a == b then 1.0 else 0.0
  }

  lemma RotationKeepsRowGram(z: Matrix, n: nat, i: nat, s: real, c: real)
    requires IsMatrix(z, |z|, n) && i + 1 < n
    requires s * s + c * c == 1.0
    ensures RowGram(RotateColumns(z, i, s, c), n) == RowGram(z, n)
  {
    var z' := RotateColumns(z, i, s, c);
    forall a, b | 0 <= a < |z| && 0 <= b < |z|
      ensures RowGram(z', n)[a][b] == RowGram(z, n)[a][b]
    {
      RotateDot(z[a], z[b], i, s, c);
    }
    forall a | 0 <= a < |z| ensures RowGram(z', n)[a] == RowGram(z, n)[a] {
    }
  }

  lemma RotationKeepsOrthonormal(z: Matrix, n: nat, i: nat, s: real, c: real)
    requires IsMatrix(z, |z|, n) && i + 1 < n
    requires s * s + c * c == 1.0
    requires OrthonormalColumns(z, n)
    ensures OrthonormalColumns(RotateColumns(z, i, s, c), n)
  {
    var z' := RotateColumns(z, i, s, c);
    forall a, b | 0 <= a < n && 0 <= b < n
      ensures Dot(Col(z', a), Col(z', b)) == if a == b then 1.0 else 0.0
    {
      RotatedPair(z, n, i, s, c, a, b);
    }
  }

  lemma RotatedPair(z: Matrix, n: nat, i: nat, s: real, c: real, a: nat, b: nat)
    requires IsMatrix(z, |z|, n) && i + 1 < n && a < n && b < n
    requires s * s + c * c == 1.0 && OrthonormalColumns(z, n)
    ensures Dot(Col(RotateColumns(z, i, s, c), a), Col(RotateColumns(z, i, s, c), b)) == if a == b then 1.0 else 0.0
  {
    hide Low, High, Dot;
    var u := Col(RotateColumns(z, i, s, c), a);
    DotRotatedColumn(u, z, n, i, s, c, b);
    RotatedAgainst(z, n, i, s, c, a, i);
    RotatedAgainst(z, n, i, s, c, a, i + 1);
    RotatedAgainst(z, n, i, s, c, a, b);
    UnitPair(Dot(u, Col(z, i)), Dot(u, Col(z, i + 1)), s, c, a == i, a == i + 1);
  }

  lemma UnitPair(x: real, y: real, s: real, c: real, low: bool, high: bool)
    requires s * s + c * c == 1.0 && !(low && high)
    requires x == if low then c else if high then s else 0.0
    requires y == if low then -s else if high then c else 0.0
    ensures Low(x, y, s, c) == if low then 1.0 else 0.0
    ensures High(x, y, s, c) == if high then 1.0 else 0.0
  {
  }

  lemma RotatedAgainst(z: Matrix, n: nat, i: nat, s: real, c: real, a: nat, k: nat)
    requires IsMatrix(z, |z|, n) && i + 1 < n && a < n && k < n
    requires OrthonormalColumns(z, n)
    ensures Dot(Col(RotateColumns(z, i, s, c), a), Col(z, k)) ==
      if a == i then (if k == i then c else if k == i + 1 then -s else 0.0)
      else if a == i + 1 then (if k == i then s else if k == i + 1 then c else 0.0)
      else if a == k then 1.0 else 0.0
  {
    DotToSymmetric(Col(RotateColumns(z, i, s, c), a), Col(z, k), |z|);
    DotRotatedColumn(Col(z, k), z, n, i, s, c, a);
    assert Dot(Col(z, k), Col(z, a)) == if k == a then 1.0 else 0.0;
    assert Dot(Col(z, k), Col(z, i)) == if k == i then 1.0 else 0.0;
    assert Dot(Col(z, k), Col(z, i + 1)) == if k == i + 1 then 1.0 else 0.0;
  }

  // ---------- products with the identity and associativity ----------

  lemma {:induction false} DotToUnit(u: Vector, j: nat, n: nat)
    requires n <= |u| && j < |u|
    ensures DotTo(u, Unit(|u|, j), n) == if j < n then u[j] else 0.0
  {
    if n > 0 {
      DotToUnit(u, j, n - 1);
    }
  }

  /** Sum over k of u[k] * (m[k] . v): one side of the associativity of products. */
  lemma {:induction false} DotToAssociative(u: Vector, m: Matrix, cols: nat, v: Vector, n: nat, mv: Vector, um: Vector)
    requires IsMatrix(m, |m|, cols) && |u| == |m| == |mv| && |v| == cols == |um| && n <= |m|
    requires forall k :: 0 <= k < |m| ==> mv[k] == Dot(m[k], v)
    requires forall j :: 0 <= j < cols ==> um[j] == DotTo(u, Col(m, j), n)
    ensures DotTo(u, mv, n) == Dot(um, v)
  {
    if n == 0 {
      ZeroDot(um, v, cols);
    } else {
      var um' := seq(cols, j requires 0 <= j < cols => DotTo(u, Col(m, j), n - 1));
      DotToAssociative(u, m, cols, v, n - 1, mv, um');
      LastRowAdded(u, m, cols, n, um, um');
      DotCombineLeft(1.0, um', u[n - 1], m[n - 1], v);
    }
  }

  lemma LastRowAdded(u: Vector, m: Matrix, cols: nat, n: nat, um: Vector, um': Vector)
    requires IsMatrix(m, |m|, cols) && |u| == |m| && |um| == |um'| == cols && 1 <= n <= |m|
    requires forall j :: 0 <= j < cols ==> um[j] == DotTo(u, Col(m, j), n)
    requires forall j :: 0 <= j < cols ==> um'[j] == DotTo(u, Col(m, j), n - 1)
    ensures um == Combine(1.0, um', u[n - 1], m[n - 1])
  {
    var w := Combine(1.0, um', u[n - 1], m[n - 1]);
    forall j | 0 <= j < cols ensures um[j] == w[j] {
      assert DotTo(u, Col(m, j), n) == DotTo(u, Col(m, j), n - 1) + u[n - 1] * Col(m, j)[n - 1];
    }
  }

  lemma {:induction false} ZeroDot(u: Vector, v: Vector, n: nat)
    requires n <= |u| && n <= |v|
    requires forall k :: 0 <= k < n ==> u[k] == 0.0
    ensures DotTo(u, v, n) == 0.0
  {
    if n > 0 {
      ZeroDot(u, v, n - 1);
    }
  }

  lemma ProductAssociative(a: Matrix, b: Matrix, c: Matrix, mid: nat, cols: nat)
    requires IsMatrix(a, |a|, |b|) && IsMatrix(b, |b|, mid) && IsMatrix(c, mid, cols)
    ensures Product(Product(a, b, mid), c, cols) == Product(a, Product(b, c, cols), cols)
  {
    var ab, bc := Product(a, b, mid), Product(b, c, cols);
    forall r, j | 0 <= r < |a| && 0 <= j < cols
      ensures Product(ab, c, cols)[r][j] == Product(a, bc, cols)[r][j]
    {
      DotToAssociative(a[r], b, mid, Col(c, j), |b|, Col(bc, j), ab[r]);
    }
    forall r | 0 <= r < |a| ensures Product(ab, c, cols)[r] == Product(a, bc, cols)[r] {
    }
  }

  lemma ProductIdentity(a: Matrix, n: nat)
    requires IsMatrix(a, |a|, n)
    ensures Product(a, Identity(n), n) == a
  {
    forall r, j | 0 <= r < |a| && 0 <= j < n
      ensures Product(a, Identity(n), n)[r][j] == a[r][j]
    {
      assert Col(Identity(n), j) == Unit(n, j);
      DotToUnit(a[r], j, n);
    }
    forall r | 0 <= r < |a| ensures Product(a, Identity(n), n)[r] == a[r] {
    }
  }

  /** From A*Z == Z*M and orthonormal rows, A is recovered as Z * M * transpose(Z). */
  lemma SimilarityFromResidual(a: Matrix, z: Matrix, m: Matrix, n: nat)
    requires IsMatrix(a, n, n) && IsMatrix(z, n, n) && IsMatrix(m, n, n)
    requires Product(a, z, n) == Product(z, m, n)
    requires RowGram(z, n) == Identity(n)
    ensures a == Product(Product(z, m, n), Transpose(z, n), n)
  {
    var zt := Transpose(z, n);
    assert Product(z, zt, n) == Identity(n) by {
      forall r, j | 0 <= r < n && 0 <= j < n ensures Product(z, zt, n)[r][j] == RowGram(z, n)[r][j] {
        assert Col(zt, j) == z[j];
      }
      forall r | 0 <= r < n ensures Product(z, zt, n)[r] == RowGram(z, n)[r] {
      }
    }
    ProductAssociative(a, z, zt, n, n);
    ProductIdentity(a, n);
  }
}
