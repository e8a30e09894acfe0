/**
 * Fixed-size linear algebra of the rasterizer (src/geometry.hpp), over the reals.
 *
 * A `vec<n>` is a sequence of n reals and a `mat<nrows, ncols>` a sequence of
 * nrows rows of ncols reals each; the template dimensions become explicit
 * lengths and the predicate IsMat.  The loops of the source that accumulate
 * into a zero-initialised `res` count DOWN from the last index, so every sum
 * here adds its terms from the last index to the first (DotFrom, DetSum).
 */
module Geometry {

  type Vec = seq<real>
  type Mat = seq<seq<real>>

  // ---------------------------------------------------------------------
  // The named-field specialisations vec<2>, vec<3>, vec<4>
  // ---------------------------------------------------------------------

  datatype Vec2 = Vec2(x: real, y: real) {
    function ToSeq(): (s: Vec)
      ensures |s| == 2
    {
      [x, y]
    }

    /** vec<2>::operator[]: `i ? y : x`, defined only for 0 <= i < 2. */
    function At(i: int): (r: real)
      requires 0 <= i < 2
      ensures r == ToSeq()[i]
    {
      if i != 0 then y else x
    }
  }

  datatype Vec3 = Vec3(x: real, y: real, z: real) {
    function ToSeq(): (s: Vec)
      ensures |s| == 3
    {
      [x, y, z]
    }

    /** vec<3>::operator[]: `i ? (i == 1 ? y : z) : x`, defined only for 0 <= i < 3. */
    function At(i: int): (r: real)
      requires 0 <= i < 3
      ensures r == ToSeq()[i]
    {
      if i != 0 then (if i == 1 then y else z) else x
    }
  }

  datatype Vec4 = Vec4(x: real, y: real, z: real, w: real) {
    function ToSeq(): (s: Vec)
      ensures |s| == 4
    {
      [x, y, z, w]
    }

    /** vec<4>::operator[]: `i < 2 ? (i ? y : x) : (i == 2 ? z : w)`, defined only for 0 <= i < 4. */
    function At(i: int): (r: real)
      requires 0 <= i < 4
      ensures r == ToSeq()[i]
    {
      if i < 2 then (if i != 0 then y else x) else (if i == 2 then z else w)
    }

    /** The first two components, as a vec<2>. */
    function XY(): (r: Vec2)
      ensures r.ToSeq() == ToSeq()[..2]
    {
      Vec2(x, y)
    }

    /** The first three components, as a vec<3>. */
    function XYZ(): (r: Vec3)
      ensures r.ToSeq() == ToSeq()[..3]
    {
      Vec3(x, y, z)
    }
  }

  // ---------------------------------------------------------------------
  // Vector arithmetic
  // ---------------------------------------------------------------------

  /** The dot product's countdown loop: the terms k..n-1, added from n-1 down to k. */
  function DotFrom(a: Vec, b: Vec, k: nat): real
    requires |a| == |b| && k <= |a|
    decreases |a| - k
  {
    if k == |a| then 0.0 else DotFrom(a, b, k + 1) + a[k] * b[k]
  }

  /** operator*(vec, vec): the dot product. */
  function Dot(a: Vec, b: Vec): real
    requires |a| == |b|
  {
    DotFrom(a, b, 0)
  }

  /** The dot product as the source's loop computes it, `for (int i{n}; i--; res += lhs[i] * rhs[i])`. */
  method DotLoop(a: Vec, b: Vec) returns (res: real)
    requires |a| == |b|
    ensures res == Dot(a, b)
  {
    res := 0.0;
    var i := |a|;
    while i > 0
      invariant 0 <= i <= |a|
      invariant res == DotFrom(a, b, i)
    {
      i := i - 1;
      res := res + a[i] * b[i];
    }
  }

  function Add(a: Vec, b: Vec): (r: Vec)
    requires |a| == |b|
    ensures |r| == |a|
    ensures forall i :: 0 <= i < |a| ==> r[i] == a[i] + b[i]
  {
    seq(|a|, i requires 0 <= i < |a| => a[i] + b[i])
  }

  function Sub(a: Vec, b: Vec): (r: Vec)
    requires |a| == |b|
    ensures |r| == |a|
    ensures forall i :: 0 <= i < |a| ==> r[i] == a[i] - b[i]
  {
    seq(|a|, i requires 0 <= i < |a| => a[i] - b[i])
  }

  /** operator*(vec, double). */
  function Scale(a: Vec, s: real): (r: Vec)
    ensures |r| == |a|
    ensures forall i :: 0 <= i < |a| ==> r[i] == a[i] * s
  {
    seq(|a|, i requires 0 <= i < |a| => a[i] * s)
  }

  /** operator*(double, vec), which the source defines as `rhs * lhs`. */
  function ScaleLeft(s: real, a: Vec): (r: Vec)
    ensures |r| == |a|
    ensures forall i :: 0 <= i < |a| ==> r[i] == s * a[i]
  {
    Scale(a, s)
  }

  /** operator/(vec, double); the source divides by zero into infinities, here it is excluded. */
  function Div(a: Vec, s: real): (r: Vec)
    requires s != 0.0
    ensures |r| == |a|
    ensures forall i :: 0 <= i < |a| ==> r[i] == a[i] / s
  {
    seq(|a|, i requires 0 <= i < |a| => a[i] / s)
  }

  /** cross(vec3, vec3), by the component formula of the source. */
  function Cross(a: Vec3, b: Vec3): Vec3
  {
    Vec3(a.y * b.z - a.z * b.y, a.z * b.x - a.x * b.z, a.x * b.y - a.y * b.x)
  }

  /**
   * normalized(v).  The norm is `std::sqrt(v * v)`, which cannot be computed
   * over Dafny's reals, so the caller passes the value `len` of norm(v): the
   * non-negative real whose square is v * v.
   */
  function Normalized(v: Vec, len: real): (r: Vec)
    requires 0.0 <= len && len * len == Dot(v, v)
    ensures |r| == |v|
    ensures len == 0.0 ==> r == v
    ensures len != 0.0 ==> Scale(r, len) == v
  {
    if len == 0.0 then v
    else
      var r := Div(v, len);
      assert Scale(r, len) == v by {
        forall i | 0 <= i < |v| ensures Scale(r, len)[i] == v[i] {
          assert r[i] * len == v[i] / len * len;
        }
      }
      r
  }

  // ---------------------------------------------------------------------
  // Lemmas about vectors
  // ---------------------------------------------------------------------

  lemma {:induction false} DotFromComm(a: Vec, b: Vec, k: nat)
    requires |a| == |b| && k <= |a|
    ensures DotFrom(a, b, k) == DotFrom(b, a, k)
    decreases |a| - k
  {
    if k < |a| {
      DotFromComm(a, b, k + 1);
    }
  }

  /** The dot product is symmetric. */
  lemma DotComm(a: Vec, b: Vec)
    requires |a| == |b|
    ensures Dot(a, b) == Dot(b, a)
  {
    DotFromComm(a, b, 0);
  }

  lemma {:induction false} DotFromAdd(a: Vec, b: Vec, c: Vec, k: nat)
    requires |a| == |b| == |c| && k <= |a|
    ensures DotFrom(Add(a, b), c, k) == DotFrom(a, c, k) + DotFrom(b, c, k)
    decreases |a| - k
  {
    if k < |a| {
      DotFromAdd(a, b, c, k + 1);
    }
  }

  /** The dot product distributes over vector addition. */
  lemma DotAddLeft(a: Vec, b: Vec, c: Vec)
    requires |a| == |b| == |c|
    ensures Dot(Add(a, b), c) == Dot(a, c) + Dot(b, c)
  {
    DotFromAdd(a, b, c, 0);
  }

  lemma {:induction false} DotFromScale(a: Vec, s: real, b: Vec, k: nat)
    requires |a| == |b| && k <= |a|
    ensures DotFrom(Scale(a, s), b, k) == s * DotFrom(a, b, k)
    decreases |a| - k
  {
    if k < |a| {
      DotFromScale(a, s, b, k + 1);
    }
  }

  /** Scaling one factor scales the dot product. */
  lemma DotScaleLeft(a: Vec, s: real, b: Vec)
    requires |a| == |b|
    ensures Dot(Scale(a, s), b) == s * Dot(a, b)
  {
    DotFromScale(a, s, b, 0);
  }

  /** Subtraction undoes addition. */
  lemma SubAddCancel(a: Vec, b: Vec)
    requires |a| == |b|
    ensures Sub(Add(a, b), b) == a
  {
  }

  /** Dividing by s undoes scaling by s. */
  lemma DivScaleCancel(a: Vec, s: real)
    requires s != 0.0
    ensures Div(Scale(a, s), s) == a
  {
    var r := Div(Scale(a, s), s);
    forall i | 0 <= i < |a| ensures r[i] == a[i] {
      assert r[i] == a[i] * s / s;
    }
  }

  lemma Dot3(a: Vec, b: Vec)
    requires |a| == |b| == 3
    ensures Dot(a, b) == a[2] * b[2] + a[1] * b[1] + a[0] * b[0]
  {
    assert DotFrom(a, b, 2) == a[2] * b[2];
    assert DotFrom(a, b, 1) == a[2] * b[2] + a[1] * b[1];
  }

  /** Over the reals the cross product is orthogonal to both of its factors. */
  lemma CrossOrthogonal(a: Vec3, b: Vec3)
    ensures Dot(Cross(a, b).ToSeq(), a.ToSeq()) == 0.0
    ensures Dot(Cross(a, b).ToSeq(), b.ToSeq()) == 0.0
  {
    Dot3(Cross(a, b).ToSeq(), a.ToSeq());
    Dot3(Cross(a, b).ToSeq(), b.ToSeq());
  }

  /** With a nonzero norm, `normalized` yields a unit vector. */
  lemma NormalizedIsUnit(v: Vec, len: real)
    requires 0.0 < len && len * len == Dot(v, v)
    ensures Dot(Normalized(v, len), Normalized(v, len)) == 1.0
  {
    var r := Normalized(v, len);
    var inv := 1.0 / len;
    assert r == Scale(v, inv) by {
      forall i | 0 <= i < |v| ensures r[i] == Scale(v, inv)[i] {
        assert v[i] / len == v[i] * (1.0 / len);
      }
    }
    DotScaleLeft(v, inv, r);
    DotComm(v, r);
    DotScaleLeft(v, inv, v);
    assert Dot(r, r) == inv * (inv * Dot(v, v));
    assert inv * (inv * (len * len)) == 1.0;
  }

  // ---------------------------------------------------------------------
  // Matrices
  // ---------------------------------------------------------------------

  /** m is a mat<r, c>. */
  predicate IsMat(m: Mat, r: nat, c: nat)
  {
    |m| == r && forall i :: 0 <= i < r ==> |m[i]| == c
  }

  predicate IsSquare(m: Mat)
  {
    IsMat(m, |m|, |m|)
  }

  /** mat::transpose: res[i][j] = rows[j][i]. */
  function Transpose(m: Mat, c: nat): (t: Mat)
    requires IsMat(m, |m|, c)
    ensures IsMat(t, c, |m|)
    ensures forall i, j :: 0 <= i < c && 0 <= j < |m| ==> t[i][j] == m[j][i]
  {
    seq(c, i requires 0 <= i < c => seq(|m|, j requires 0 <= j < |m| => m[j][i]))
  }

  /** Transposing twice gives back the original matrix. */
  lemma TransposeInvolution(m: Mat, c: nat)
    requires IsMat(m, |m|, c)
    ensures Transpose(Transpose(m, c), |m|) == m
  {
    var t := Transpose(Transpose(m, c), |m|);
    forall i | 0 <= i < |m| ensures t[i] == m[i] {
      assert |t[i]| == |m[i]|;
    }
  }

  /** Column j of m. */
  function Column(m: Mat, j: nat): (col: Vec)
    requires forall i :: 0 <= i < |m| ==> j < |m[i]|
    ensures |col| == |m|
    ensures forall i :: 0 <= i < |m| ==> col[i] == m[i][j]
  {
    seq(|m|, i requires 0 <= i < |m| => m[i][j])
  }

  /**
   * operator*(mat, mat): res[i][j] accumulates lhs[i][k] * rhs[k][j] for k
   * from C1-1 down to 0, which is the dot product of row i with column j.
   */
  function MatMul(l: Mat, r: Mat, c2: nat): (p: Mat)
    requires IsMat(l, |l|, |r|) && IsMat(r, |r|, c2)
    ensures IsMat(p, |l|, c2)
    ensures forall i, j :: 0 <= i < |l| && 0 <= j < c2 ==> p[i][j] == Dot(l[i], Column(r, j))
  {
    seq(|l|, i requires 0 <= i < |l| =>
      seq(c2, j requires 0 <= j < c2 => Dot(l[i], Column(r, j))))
  }

  /** The triple loop of operator*(mat, mat) for one entry, `for (int k{C1}; k--; res[i][j] += lhs[i][k] * rhs[k][j])`. */
  method MatMulEntry(l: Mat, r: Mat, c2: nat, i: nat, j: nat) returns (res: real)
    requires IsMat(l, |l|, |r|) && IsMat(r, |r|, c2)
    requires i < |l| && j < c2
    ensures res == MatMul(l, r, c2)[i][j]
  {
    res := 0.0;
    var k := |r|;
    while k > 0
      invariant 0 <= k <= |r|
      invariant res == DotFrom(l[i], Column(r, j), k)
    {
      k := k - 1;
      res := res + l[i][k] * r[k][j];
    }
  }

  /** operator*(mat, vec): res[i] = lhs[i] * rhs. */
  function MatVec(m: Mat, v: Vec): (r: Vec)
    requires IsMat(m, |m|, |v|)
    ensures |r| == |m|
  {
    seq(|m|, i requires 0 <= i < |m| => Dot(m[i], v))
  }

  /** operator*(vec, mat): the single row of the 1-row matrix {v} times m. */
  function VecMat(v: Vec, m: Mat, c: nat): (r: Vec)
    requires IsMat(m, |v|, c)
    ensures |r| == c
  {
    MatMul([v], m, c)[0]
  }

  /** The column vector of v, a mat<n, 1>. */
  function ColumnMatrix(v: Vec): (m: Mat)
    ensures IsMat(m, |v|, 1)
  {
    seq(|v|, i requires 0 <= i < |v| => [v[i]])
  }

  /** The matrix-vector product is row i dotted with v, the same as multiplying by v's column matrix. */
  lemma MatVecIsProduct(m: Mat, v: Vec)
    requires IsMat(m, |m|, |v|)
    ensures forall i :: 0 <= i < |m| ==> MatVec(m, v)[i] == Dot(m[i], v)
    ensures forall i :: 0 <= i < |m| ==> MatVec(m, v)[i] == MatMul(m, ColumnMatrix(v), 1)[i][0]
  {
    assert Column(ColumnMatrix(v), 0) == v;
  }

  /** The vector-matrix product: entry j is v dotted with column j of m, the transpose of m times v. */
  lemma VecMatIsTransposedProduct(v: Vec, m: Mat, c: nat)
    requires IsMat(m, |v|, c)
    ensures forall j :: 0 <= j < c ==> VecMat(v, m, c)[j] == Dot(v, Column(m, j))
    ensures VecMat(v, m, c) == MatVec(Transpose(m, c), v)
  {
    var t := Transpose(m, c);
    forall j | 0 <= j < c ensures VecMat(v, m, c)[j] == MatVec(t, v)[j] {
      assert t[j] == Column(m, j);
      DotComm(v, t[j]);
    }
  }

  /** The transpose of a product is the product of the transposes in reverse order. */
  lemma TransposeOfProduct(l: Mat, r: Mat, c2: nat)
    requires IsMat(l, |l|, |r|) && IsMat(r, |r|, c2)
    ensures Transpose(MatMul(l, r, c2), c2) == MatMul(Transpose(r, c2), Transpose(l, |r|), |l|)
  {
    var lhs := Transpose(MatMul(l, r, c2), c2);
    var rt, lt := Transpose(r, c2), Transpose(l, |r|);
    var rhs := MatMul(rt, lt, |l|);
    forall i | 0 <= i < c2 ensures lhs[i] == rhs[i] {
      forall j | 0 <= j < |l| ensures lhs[i][j] == rhs[i][j] {
        assert rt[i] == Column(r, i);
        assert Column(lt, j) == l[j];
        DotComm(l[j], Column(r, i));
      }
    }
  }

  function MatAdd(a: Mat, b: Mat, c: nat): (r: Mat)
    requires IsMat(a, |a|, c) && IsMat(b, |a|, c)
    ensures IsMat(r, |a|, c)
    ensures forall i, j :: 0 <= i < |a| && 0 <= j < c ==> r[i][j] == a[i][j] + b[i][j]
  {
    seq(|a|, i requires 0 <= i < |a| => seq(c, j requires 0 <= j < c => a[i][j] + b[i][j]))
  }

  function MatSub(a: Mat, b: Mat, c: nat): (r: Mat)
    requires IsMat(a, |a|, c) && IsMat(b, |a|, c)
    ensures IsMat(r, |a|, c)
    ensures forall i, j :: 0 <= i < |a| && 0 <= j < c ==> r[i][j] == a[i][j] - b[i][j]
  {
    seq(|a|, i requires 0 <= i < |a| => seq(c, j requires 0 <= j < c => a[i][j] - b[i][j]))
  }

  /** operator*(mat, double): every row scaled. */
  function MatScale(m: Mat, s: real): (r: Mat)
    ensures |r| == |m|
    ensures forall i :: 0 <= i < |m| ==> |r[i]| == |m[i]|
    ensures forall i, j :: 0 <= i < |m| && 0 <= j < |m[i]| ==> r[i][j] == m[i][j] * s
  {
    seq(|m|, i requires 0 <= i < |m| => Scale(m[i], s))
  }

  /** operator/(mat, double): every row divided. */
  function MatDiv(m: Mat, s: real): (r: Mat)
    requires s != 0.0
    ensures |r| == |m|
    ensures forall i :: 0 <= i < |m| ==> r[i] == Div(m[i], s)
  {
    seq(|m|, i requires 0 <= i < |m| => Div(m[i], s))
  }

  /** A scaled matrix applied to v is the scaled image of v. */
  lemma MatVecOfScaled(m: Mat, s: real, v: Vec)
    requires IsMat(m, |m|, |v|)
    ensures IsMat(MatScale(m, s), |m|, |v|) && MatVec(MatScale(m, s), v) == Scale(MatVec(m, v), s)
  {
    var sm := MatScale(m, s);
    var l, r := MatVec(sm, v), Scale(MatVec(m, v), s);
    forall i | 0 <= i < |m| ensures l[i] == r[i] {
      assert sm[i] == Scale(m[i], s);
      DotScaleLeft(m[i], s, v);
    }
  }

  /** Dividing a matrix by s undoes scaling it by s. */
  lemma MatDivScaleCancel(m: Mat, s: real)
    requires s != 0.0
    ensures MatDiv(MatScale(m, s), s) == m
  {
    var r := MatDiv(MatScale(m, s), s);
    forall i | 0 <= i < |m| ensures r[i] == m[i] {
      assert MatScale(m, s)[i] == Scale(m[i], s);
      DivScaleCancel(m[i], s);
    }
  }

  /** Matrix subtraction undoes matrix addition. */
  lemma MatSubAddCancel(a: Mat, b: Mat, c: nat)
    requires IsMat(a, |a|, c) && IsMat(b, |a|, c)
    ensures MatSub(MatAdd(a, b, c), b, c) == a
  {
    var r := MatSub(MatAdd(a, b, c), b, c);
    forall i | 0 <= i < |a| ensures r[i] == a[i] {
      assert |r[i]| == |a[i]|;
    }
  }

  // ---------------------------------------------------------------------
  // Cofactors, determinant, inverse
  // ---------------------------------------------------------------------

  /** The row (or column) of the matrix that submatrix index i reads: i + int(row <= i). */
  function Skip(i: int, row: int): int
  {
    i + if row <= i then 1 else 0
  }

  /**
   * The submatrix that mat::cofactor builds: entry (i, j) is
   * rows[i + int(row <= i)][j + int(col <= j)].  Like the source, any row and
   * col keep the indices in range.
   */
  function Submatrix(m: Mat, row: int, col: int): (s: Mat)
    requires IsSquare(m) && |m| >= 1
    ensures IsSquare(s) && |s| == |m| - 1
    ensures forall i, j :: 0 <= i < |s| && 0 <= j < |s| ==> s[i][j] == m[Skip(i, row)][Skip(j, col)]
  {
    var n := |m| - 1;
    seq(n, i requires 0 <= i < n => seq(n, j requires 0 <= j < n => m[Skip(i, row)][Skip(j, col)]))
  }

  function RemoveAt(s: seq<real>, k: nat): (r: seq<real>)
    requires k < |s|
    ensures |r| == |s| - 1
    ensures forall j :: 0 <= j < |r| ==> r[j] == s[Skip(j, k)]
  {
    s[..k] + s[k + 1..]
  }

  /** The matrix without row `row` and without column `col`, the textbook minor. */
  function Minor(m: Mat, row: nat, col: nat): (r: Mat)
    requires IsSquare(m) && row < |m| && col < |m|
    ensures |r| == |m| - 1
    ensures forall i :: 0 <= i < |r| ==> r[i] == RemoveAt(m[Skip(i, row)], col)
  {
    var rows := m[..row] + m[row + 1..];
    seq(|rows|, i requires 0 <= i < |rows| => RemoveAt(rows[i], col))
  }

  /** The index-skipping submatrix deletes exactly row `row` and column `col`. */
  lemma SubmatrixIsMinor(m: Mat, row: nat, col: nat)
    requires IsSquare(m) && row < |m| && col < |m|
    ensures Submatrix(m, row, col) == Minor(m, row, col)
  {
    var s, t := Submatrix(m, row, col), Minor(m, row, col);
    forall i | 0 <= i < |s| ensures s[i] == t[i] {
      assert |s[i]| == |t[i]|;
    }
  }

  /** dt<n>::det: 1x1 is the sole entry, otherwise the sum src[0][i] * cofactor(0, i). */
  function Det(m: Mat): real
    requires IsSquare(m)
    decreases |m|, 2, 0
  {
    if |m| == 1 then m[0][0] else DetSum(m, 0)
  }

  /** dt<n>::det's countdown loop: terms k..n-1, added from n-1 down to k. */
  function DetSum(m: Mat, k: nat): real
    requires IsSquare(m) && k <= |m|
    decreases |m|, 1, |m| - k
  {
    if k == |m| then 0.0 else DetSum(m, k + 1) + m[0][k] * Cofactor(m, 0, k)
  }

  /** mat::cofactor: the submatrix's determinant, negated iff row + col is odd. */
  function Cofactor(m: Mat, row: int, col: int): real
    requires IsSquare(m) && |m| >= 1
    decreases |m|, 0, 0
  {
    Det(Submatrix(m, row, col)) * (if (row + col) % 2 != 0 then -1.0 else 1.0)
  }

  /** The transposed adjugate that invertTranspose fills: entry (i, j) is cofactor(i, j). */
  function AdjugateTranspose(m: Mat): (a: Mat)
    requires IsSquare(m) && |m| >= 1
    ensures IsSquare(a) && |a| == |m|
    ensures forall i, j :: 0 <= i < |m| && 0 <= j < |m| ==> a[i][j] == Cofactor(m, i, j)
  {
    seq(|m|, i requires 0 <= i < |m| => seq(|m|, j requires 0 <= j < |m| => Cofactor(m, i, j)))
  }

  lemma {:induction false} DivisorIsDetSum(m: Mat, k: nat)
    requires IsSquare(m) && |m| >= 1 && k <= |m|
    ensures DotFrom(AdjugateTranspose(m)[0], m[0], k) == DetSum(m, k)
    decreases |m| - k
  {
    if k < |m| {
      DivisorIsDetSum(m, k + 1);
    }
  }

  /**
   * The divisor of invertTranspose, adjugateTranspose[0] * rows[0], is the
   * sum that det() computes, term by term in the same order (for n >= 2;
   * the 1x1 cofactor is the determinant of an empty matrix, 0).
   */
  lemma DivisorIsDet(m: Mat)
    requires IsSquare(m) && |m| >= 2
    ensures Dot(AdjugateTranspose(m)[0], m[0]) == Det(m)
  {
    DivisorIsDetSum(m, 0);
  }

  /** mat::invertTranspose: the transposed adjugate divided by the determinant. */
  function InvertTranspose(m: Mat): (r: Mat)
    requires IsSquare(m) && |m| >= 2 && Det(m) != 0.0
    ensures IsSquare(r) && |r| == |m|
    ensures forall i, j :: 0 <= i < |m| && 0 <= j < |m| ==> r[i][j] == Cofactor(m, i, j) / Det(m)
  {
    var a := AdjugateTranspose(m);
    DivisorIsDet(m);
    MatDiv(a, Dot(a[0], m[0]))
  }

  /** mat::invert: the transpose of invertTranspose. */
  function Invert(m: Mat): (r: Mat)
    requires IsSquare(m) && |m| >= 2 && Det(m) != 0.0
    ensures IsSquare(r) && |r| == |m|
    ensures forall i, j :: 0 <= i < |m| && 0 <= j < |m| ==> r[i][j] == Cofactor(m, j, i) / Det(m)
  {
    Transpose(InvertTranspose(m), |m|)
  }

  /** The n x n identity matrix. */
  function Identity(n: nat): (r: Mat)
    ensures IsSquare(r) && |r| == n
    ensures forall i, j :: 0 <= i < n && 0 <= j < n ==> r[i][j] == if i == j then 1.0 else 0.0
  {
    seq(n, i requires 0 <= i < n => seq(n, j requires 0 <= j < n => if i == j then 1.0 else 0.0))
  }

  lemma Dot2(a: Vec, b: Vec)
    requires |a| == |b| == 2
    ensures Dot(a, b) == a[1] * b[1] + a[0] * b[0]
  {
    assert DotFrom(a, b, 1) == a[1] * b[1];
  }

  /** invert() of a 2x2 matrix [[a, b], [c, e]] is [[e, -b], [-c, a]] / d, with d = ae - bc. */
  lemma Invert2(m: Mat, inv: Mat, d: real)
    requires IsSquare(m) && |m| == 2 && Det(m) != 0.0
    requires inv == Invert(m) && d == m[0][0] * m[1][1] - m[0][1] * m[1][0]
    ensures d != 0.0 && IsSquare(inv) && |inv| == 2
    ensures inv[0][0] == m[1][1] / d && inv[0][1] == -m[0][1] / d
    ensures inv[1][0] == -m[1][0] / d && inv[1][1] == m[0][0] / d
  {
    Det2(m);
    QuotientsOf(inv[0][0], Cofactor(m, 0, 0), m[1][1], d);
    QuotientsOf(inv[0][1], Cofactor(m, 1, 0), -m[0][1], d);
    QuotientsOf(inv[1][0], Cofactor(m, 0, 1), -m[1][0], d);
    QuotientsOf(inv[1][1], Cofactor(m, 1, 1), m[0][0], d);
  }

  /** A quotient by d of a value equal to y is y / d. */
  lemma QuotientsOf(q: real, x: real, y: real, d: real)
    requires d != 0.0 && q == x / d && x == y
    ensures q == y / d
  {}

  /** A square matrix whose entries are those of the identity is the identity. */
  lemma IdentityByEntries(p: Mat, n: nat)
    requires IsMat(p, n, n)
    requires forall i, j :: 0 <= i < n && 0 <= j < n ==> p[i][j] == if i == j then 1.0 else 0.0
    ensures p == Identity(n)
  {
    var id := Identity(n);
    forall i | 0 <= i < n ensures p[i] == id[i] {
      assert |p[i]| == |id[i]|;
    }
  }

  /** inv is adj transposed and divided by d, the shape invert() gives the adjugate transpose. */
  predicate ScaledTranspose(inv: Mat, adj: Mat, d: real)
    requires d != 0.0
  {
    IsSquare(inv) && IsSquare(adj) && |inv| == |adj| &&
    forall r, c :: 0 <= r < |inv| && 0 <= c < |inv| ==> inv[r][c] == adj[c][r] / d
  }

  lemma DivByMul(x: real, d: real)
    requires d != 0.0
    ensures x / d == x * (1.0 / d)
  {}

  /** Column j of adj transposed over d is row j of adj scaled by 1 / d. */
  lemma ScaledTransposeColumn(inv: Mat, adj: Mat, d: real, j: nat)
    requires d != 0.0 && ScaledTranspose(inv, adj, d) && j < |inv|
    ensures Column(inv, j) == Scale(adj[j], 1.0 / d)
  {
    var col, s := Column(inv, j), Scale(adj[j], 1.0 / d);
    forall k | 0 <= k < |inv| ensures col[k] == s[k] {
      DivByMul(adj[j][k], d);
    }
  }

  /** 1 / d times 0 or d is 0 or 1. */
  lemma ScaledQuotient(x: real, y: real, d: real, e: real)
    requires d != 0.0 && x == 1.0 / d * y && (e == 1.0 || e == 0.0) && y == e * d
    ensures x == e
  {}

  /** Entry (i, j) of m times inv, once row i of m dotted with row j of adj is d or 0. */
  lemma ProductEntry(m: Mat, inv: Mat, adj: Mat, d: real, i: nat, j: nat)
    requires d != 0.0 && ScaledTranspose(inv, adj, d) && IsMat(m, |inv|, |inv|) && i < |m| && j < |m|
    requires Dot(m[i], adj[j]) == if i == j then d else 0.0
    ensures Dot(m[i], Column(inv, j)) == if i == j then 1.0 else 0.0
  {
    var col := Column(inv, j);
    ScaledTransposeColumn(inv, adj, d, j);
    DotComm(m[i], col);
    DotScaleLeft(adj[j], 1.0 / d, m[i]);
    DotComm(adj[j], m[i]);
    ScaledQuotient(Dot(m[i], col), Dot(adj[j], m[i]), d, if i == j then 1.0 else 0.0);
  }

  /**
   * invert() is a right inverse wherever expanding the determinant along
   * any row gives det and pairing a row with the cofactors of another row
   * gives 0.
   */
  lemma RightInverseByAdjugate(m: Mat)
    requires IsSquare(m) && |m| >= 2 && Det(m) != 0.0
    requires forall i, j :: 0 <= i < |m| && 0 <= j < |m| ==> Dot(m[i], AdjugateTranspose(m)[j]) == if i == j then Det(m) else 0.0
    ensures MatMul(m, Invert(m), |m|) == Identity(|m|)
  {
    var n, inv, adj, d := |m|, Invert(m), AdjugateTranspose(m), Det(m);
    var p := MatMul(m, inv, n);
    assert ScaledTranspose(inv, adj, d);
    forall i, j | 0 <= i < n && 0 <= j < n ensures p[i][j] == if i == j then 1.0 else 0.0 {
      ProductEntry(m, inv, adj, d, i, j);
    }
    IdentityByEntries(p, n);
  }

  lemma TransposeIdentity(n: nat)
    ensures Transpose(Identity(n), n) == Identity(n)
  {
    var t, id := Transpose(Identity(n), n), Identity(n);
    forall i | 0 <= i < n ensures t[i] == id[i] {
      assert |t[i]| == |id[i]|;
    }
  }

  /** invert() of the transpose is the transpose of invert(), when transposing keeps det and mirrors the cofactors. */
  lemma InvertOfTranspose(m: Mat, t: Mat, d: real)
    requires IsSquare(m) && |m| >= 2 && d == Det(m) && d != 0.0 && t == Transpose(m, |m|)
    requires IsSquare(t) && Det(t) == d
    requires forall i, j :: 0 <= i < |m| && 0 <= j < |m| ==> Cofactor(t, i, j) == Cofactor(m, j, i)
    ensures Transpose(Invert(t), |m|) == Invert(m)
  {
    var n, it, im := |m|, Invert(t), Invert(m);
    var l := Transpose(it, n);
    forall i, j | 0 <= i < n && 0 <= j < n ensures l[i][j] == im[i][j] {
      QuotientsOf(it[j][i], Cofactor(t, i, j), Cofactor(m, j, i), d);
    }
    forall i | 0 <= i < n ensures l[i] == im[i] {
      assert |l[i]| == |im[i]|;
    }
  }

  /** A right inverse of the transpose, transposed, is a left inverse of m. */
  lemma LeftInverseByTranspose(m: Mat, t: Mat)
    requires IsSquare(m) && |m| >= 2 && Det(m) != 0.0 && t == Transpose(m, |m|)
    requires IsSquare(t) && Det(t) == Det(m)
    requires forall i, j :: 0 <= i < |m| && 0 <= j < |m| ==> Cofactor(t, i, j) == Cofactor(m, j, i)
    requires MatMul(t, Invert(t), |m|) == Identity(|m|)
    ensures MatMul(Invert(m), m, |m|) == Identity(|m|)
  {
    var n := |m|;
    TransposeOfProduct(t, Invert(t), n);
    TransposeIdentity(n);
    TransposeInvolution(m, n);
    InvertOfTranspose(m, t, Det(m));
  }

  /** The submatrix of the transpose is the transpose of the mirrored submatrix. */
  lemma SubmatrixOfTranspose(m: Mat, t: Mat, i: nat, j: nat)
    requires IsSquare(m) && |m| >= 1 && t == Transpose(m, |m|) && i < |m| && j < |m|
    ensures IsSquare(t) && Submatrix(t, i, j) == Transpose(Submatrix(m, j, i), |m| - 1)
  {
    var st, ts := Submatrix(t, i, j), Transpose(Submatrix(m, j, i), |m| - 1);
    forall x | 0 <= x < |st| ensures st[x] == ts[x] {
      assert |st[x]| == |ts[x]|;
    }
  }

  /** Transposing mirrors the cofactors, once it keeps the determinant of the submatrices. */
  lemma TransposeCofactor(m: Mat, t: Mat, i: nat, j: nat)
    requires IsSquare(m) && |m| >= 1 && t == Transpose(m, |m|) && i < |m| && j < |m|
    requires Det(Transpose(Submatrix(m, j, i), |m| - 1)) == Det(Submatrix(m, j, i))
    ensures IsSquare(t) && Cofactor(t, i, j) == Cofactor(m, j, i)
  {
    SubmatrixOfTranspose(m, t, i, j);
    assert (i + j) % 2 == (j + i) % 2;
  }

  lemma DetTranspose1(m: Mat)
    requires IsSquare(m) && |m| == 1
    ensures IsSquare(Transpose(m, 1)) && Det(Transpose(m, 1)) == Det(m)
  {
    assert Transpose(m, 1)[0][0] == m[0][0];
  }

  lemma DetTranspose2(m: Mat)
    requires IsSquare(m) && |m| == 2
    ensures IsSquare(Transpose(m, 2)) && Det(Transpose(m, 2)) == Det(m)
  {
    Det2(m);
    Det2(Transpose(m, 2));
  }

  lemma DetTranspose3(m: Mat)
    requires IsSquare(m) && |m| == 3
    ensures IsSquare(Transpose(m, 3)) && Det(Transpose(m, 3)) == Det(m)
  {
    var t := Transpose(m, 3);
    Det3Rows(m);
    Det3Rows(t);
    assert t[0] == [m[0][0], m[1][0], m[2][0]];
    assert t[1] == [m[0][1], m[1][1], m[2][1]];
    assert t[2] == [m[0][2], m[1][2], m[2][2]];
  }

  /** p dotted with q turned a quarter either way is a 2x2 expansion. */
  lemma QuarterTurnDots(p: Vec, q: Vec)
    requires |p| == |q| == 2
    ensures Dot(p, [q[1], -q[0]]) == Expansion2(p, q)
    ensures Dot(p, [-q[1], q[0]]) == Expansion2(q, p)
  {
    Dot2(p, [q[1], -q[0]]);
    Dot2(p, [-q[1], q[0]]);
  }

  /** Rows i and j of a 2x2 matrix and of its adjugate transpose pair to det when i = j and to 0 otherwise. */
  lemma AdjugateRows2(m: Mat)
    requires IsSquare(m) && |m| == 2
    ensures forall i, j :: 0 <= i < 2 && 0 <= j < 2 ==> Dot(m[i], AdjugateTranspose(m)[j]) == if i == j then Det(m) else 0.0
  {
    var adj, p, q := AdjugateTranspose(m), m[0], m[1];
    Det2(m);
    assert adj[0] == [q[1], -q[0]] && adj[1] == [-p[1], p[0]];
    QuarterTurnDots(p, q);
    QuarterTurnDots(q, q);
    QuarterTurnDots(p, p);
    QuarterTurnDots(q, p);
  }

  /** The cofactors of the transpose of a 2x2 matrix are the mirrored cofactors. */
  lemma TransposeCofactors2(m: Mat, t: Mat)
    requires IsSquare(m) && |m| == 2 && t == Transpose(m, 2)
    ensures IsSquare(t) && forall i, j :: 0 <= i < 2 && 0 <= j < 2 ==> Cofactor(t, i, j) == Cofactor(m, j, i)
  {
    forall i, j | 0 <= i < 2 && 0 <= j < 2 ensures Cofactor(t, i, j) == Cofactor(m, j, i) {
      DetTranspose1(Submatrix(m, j, i));
      TransposeCofactor(m, t, i, j);
    }
  }

  /** A 2x2 matrix with a nonzero determinant and its invert() multiply to the identity on either side. */
  lemma InvertIsInverse2(m: Mat)
    requires IsSquare(m) && |m| == 2 && Det(m) != 0.0
    ensures MatMul(m, Invert(m), 2) == Identity(2)
    ensures MatMul(Invert(m), m, 2) == Identity(2)
  {
    var t := Transpose(m, 2);
    AdjugateRows2(m);
    RightInverseByAdjugate(m);
    DetTranspose2(m);
    TransposeCofactors2(m, t);
    AdjugateRows2(t);
    RightInverseByAdjugate(t);
    LeftInverseByTranspose(m, t);
  }

  /** The cofactor (i, j) of a 3x3 matrix written out: rows a < b and columns c < e are those the submatrix keeps. */
  lemma Cofactor3(m: Mat, i: nat, j: nat, a: nat, b: nat, c: nat, e: nat)
    requires IsSquare(m) && |m| == 3 && i < 3 && j < 3
    requires a == Skip(0, i) && b == Skip(1, i) && c == Skip(0, j) && e == Skip(1, j)
    ensures Cofactor(m, i, j) ==
      if (i + j) % 2 != 0 then m[a][e] * m[b][c] - m[a][c] * m[b][e] else m[a][c] * m[b][e] - m[a][e] * m[b][c]
  {
    var s := Submatrix(m, i, j);
    Det2(s);
    assert s[0][0] == m[a][c] && s[0][1] == m[a][e] && s[1][0] == m[b][c] && s[1][1] == m[b][e];
  }

  /** A 3-vector as a vec3. */
  function AsVec3(s: Vec): (v: Vec3)
    requires |s| == 3
    ensures v.ToSeq() == s
  {
    Vec3(s[0], s[1], s[2])
  }

  /** The cofactors of row 0 of a 3x3 matrix are the cross product of rows 1 and 2. */
  lemma AdjugateRow0(m: Mat)
    requires IsSquare(m) && |m| == 3
    ensures AdjugateTranspose(m)[0] == Cross(AsVec3(m[1]), AsVec3(m[2])).ToSeq()
  {
    var row, x := AdjugateTranspose(m)[0], Cross(AsVec3(m[1]), AsVec3(m[2])).ToSeq();
    Cofactor3(m, 0, 0, 1, 2, 1, 2);
    Cofactor3(m, 0, 1, 1, 2, 0, 2);
    Cofactor3(m, 0, 2, 1, 2, 0, 1);
    assert row[0] == x[0] && row[1] == x[1] && row[2] == x[2];
  }

  /** The cofactors of row 1 of a 3x3 matrix are the cross product of rows 2 and 0. */
  lemma AdjugateRow1(m: Mat)
    requires IsSquare(m) && |m| == 3
    ensures AdjugateTranspose(m)[1] == Cross(AsVec3(m[2]), AsVec3(m[0])).ToSeq()
  {
    var row, x := AdjugateTranspose(m)[1], Cross(AsVec3(m[2]), AsVec3(m[0])).ToSeq();
    Cofactor3(m, 1, 0, 0, 2, 1, 2);
    Cofactor3(m, 1, 1, 0, 2, 0, 2);
    Cofactor3(m, 1, 2, 0, 2, 0, 1);
    assert row[0] == x[0] && row[1] == x[1] && row[2] == x[2];
  }

  /** The cofactors of row 2 of a 3x3 matrix are the cross product of rows 0 and 1. */
  lemma AdjugateRow2(m: Mat)
    requires IsSquare(m) && |m| == 3
    ensures AdjugateTranspose(m)[2] == Cross(AsVec3(m[0]), AsVec3(m[1])).ToSeq()
  {
    var row, x := AdjugateTranspose(m)[2], Cross(AsVec3(m[0]), AsVec3(m[1])).ToSeq();
    Cofactor3(m, 2, 0, 0, 1, 1, 2);
    Cofactor3(m, 2, 1, 0, 1, 0, 2);
    Cofactor3(m, 2, 2, 0, 1, 0, 1);
    assert row[0] == x[0] && row[1] == x[1] && row[2] == x[2];
  }

  /** The triple product p · (q × r) is the expansion of the matrix with rows p, q, r. */
  lemma TripleIsExpansion(p: Vec, q: Vec, r: Vec)
    requires |p| == |q| == |r| == 3
    ensures Dot(p, Cross(AsVec3(q), AsVec3(r)).ToSeq()) == Expansion3(p, q, r)
  {
    Dot3(p, Cross(AsVec3(q), AsVec3(r)).ToSeq());
  }

  /** Rows i and j of a 3x3 matrix and of its adjugate transpose pair to det when i = j and to 0 otherwise. */
  lemma AdjugateRows3(m: Mat)
    requires IsSquare(m) && |m| == 3
    ensures forall i, j :: 0 <= i < 3 && 0 <= j < 3 ==> Dot(m[i], AdjugateTranspose(m)[j]) == if i == j then Det(m) else 0.0
  {
    var adj := AdjugateTranspose(m);
    var p, q, r := m[0], m[1], m[2];
    AdjugateRow0(m);
    AdjugateRow1(m);
    AdjugateRow2(m);
    Det3Rows(m);
    Expansion3Swaps(p, q, r);
    Expansion3Swaps(q, p, r);
    Expansion3Swaps(r, q, p);
    TripleIsExpansion(p, q, r);
    TripleIsExpansion(q, r, p);
    TripleIsExpansion(r, p, q);
    CrossOrthogonal(AsVec3(q), AsVec3(r));
    CrossOrthogonal(AsVec3(r), AsVec3(p));
    CrossOrthogonal(AsVec3(p), AsVec3(q));
    forall i, j | 0 <= i < 3 && 0 <= j < 3 ensures Dot(m[i], adj[j]) == if i == j then Det(m) else 0.0 {
      DotComm(m[i], adj[j]);
    }
  }

  /** The cofactors of the transpose of a 3x3 matrix are the mirrored cofactors. */
  lemma TransposeCofactors3(m: Mat, t: Mat)
    requires IsSquare(m) && |m| == 3 && t == Transpose(m, 3)
    ensures IsSquare(t) && forall i, j :: 0 <= i < 3 && 0 <= j < 3 ==> Cofactor(t, i, j) == Cofactor(m, j, i)
  {
    forall i, j | 0 <= i < 3 && 0 <= j < 3 ensures Cofactor(t, i, j) == Cofactor(m, j, i) {
      DetTranspose2(Submatrix(m, j, i));
      TransposeCofactor(m, t, i, j);
    }
  }

  /** A 3x3 matrix with a nonzero determinant and its invert() multiply to the identity on either side. */
  lemma InvertIsInverse3(m: Mat)
    requires IsSquare(m) && |m| == 3 && Det(m) != 0.0
    ensures MatMul(m, Invert(m), 3) == Identity(3)
    ensures MatMul(Invert(m), m, 3) == Identity(3)
  {
    var t := Transpose(m, 3);
    AdjugateRows3(m);
    RightInverseByAdjugate(m);
    DetTranspose3(m);
    TransposeCofactors3(m, t);
    AdjugateRows3(t);
    RightInverseByAdjugate(t);
    LeftInverseByTranspose(m, t);
  }

  /** A 2x2 matrix with one row and one column deleted is the entry left over. */
  lemma Minor2(m: Mat, row: nat, col: nat)
    requires IsSquare(m) && |m| == 2 && row < 2 && col < 2
    ensures Det(Submatrix(m, row, col)) == m[1 - row][1 - col]
  {
    var s := Submatrix(m, row, col);
    assert s[0][0] == m[1 - row][1 - col];
  }

  /** Cofactors of odd position are negated minors, those of even position are the minors. */
  lemma CofactorSign(m: Mat, row: nat, col: nat)
    requires IsSquare(m) && |m| >= 1
    ensures Cofactor(m, row, col) == if (row + col) % 2 != 0 then -Det(Submatrix(m, row, col)) else Det(Submatrix(m, row, col))
  {
  }

  /** det() of a 2x2 matrix: the two terms of row 0, added from the last. */
  lemma DetByCofactors2(m: Mat)
    requires IsSquare(m) && |m| == 2
    ensures Det(m) == m[0][1] * Cofactor(m, 0, 1) + m[0][0] * Cofactor(m, 0, 0)
  {
    assert DetSum(m, 1) == m[0][1] * Cofactor(m, 0, 1);
  }

  /** det() of a 3x3 matrix: the three terms of row 0, added from the last. */
  lemma DetByCofactors3(m: Mat)
    requires IsSquare(m) && |m| == 3
    ensures Det(m) == m[0][2] * Cofactor(m, 0, 2) + m[0][1] * Cofactor(m, 0, 1) + m[0][0] * Cofactor(m, 0, 0)
  {
    assert DetSum(m, 2) == m[0][2] * Cofactor(m, 0, 2);
    assert DetSum(m, 1) == DetSum(m, 2) + m[0][1] * Cofactor(m, 0, 1);
  }

  /** The Laplace expansion of a 2x2 matrix is ad - bc. */
  lemma Det2(m: Mat)
    requires IsSquare(m) && |m| == 2
    ensures Det(m) == m[0][0] * m[1][1] - m[0][1] * m[1][0]
    ensures Cofactor(m, 0, 0) == m[1][1] && Cofactor(m, 0, 1) == -m[1][0]
    ensures Cofactor(m, 1, 0) == -m[0][1] && Cofactor(m, 1, 1) == m[0][0]
  {
    Minor2(m, 0, 0);
    Minor2(m, 0, 1);
    Minor2(m, 1, 0);
    Minor2(m, 1, 1);
    CofactorSign(m, 0, 0);
    CofactorSign(m, 0, 1);
    CofactorSign(m, 1, 0);
    CofactorSign(m, 1, 1);
    DetByCofactors2(m);
  }

  /** The determinant of the 2x2 submatrix that deletes row 0 and column col of a 3x3 matrix. */
  lemma Minor3(m: Mat, col: nat, a: nat, b: nat)
    requires IsSquare(m) && |m| == 3 && col < 3
    requires a == (if col == 0 then 1 else 0) && b == (if col == 2 then 1 else 2)
    ensures Det(Submatrix(m, 0, col)) == m[1][a] * m[2][b] - m[1][b] * m[2][a]
  {
    var s := Submatrix(m, 0, col);
    Det2(s);
    assert s[0][0] == m[1][a] && s[0][1] == m[1][b] && s[1][0] == m[2][a] && s[1][1] == m[2][b];
  }

  /** The 3x3 determinant by the rule of Sarrus. */
  lemma Det3(m: Mat)
    requires IsSquare(m) && |m| == 3
    ensures Det(m) ==
      m[0][0] * (m[1][1] * m[2][2] - m[1][2] * m[2][1])
      - m[0][1] * (m[1][0] * m[2][2] - m[1][2] * m[2][0])
      + m[0][2] * (m[1][0] * m[2][1] - m[1][1] * m[2][0])
  {
    Minor3(m, 0, 1, 2);
    Minor3(m, 1, 0, 2);
    Minor3(m, 2, 0, 1);
    DetByMinors3(m);
  }

  /** det() of a 3x3 matrix by the minors of row 0, signs alternating. */
  lemma DetByMinors3(m: Mat)
    requires IsSquare(m) && |m| == 3
    ensures Det(m) == m[0][0] * Det(Submatrix(m, 0, 0)) - m[0][1] * Det(Submatrix(m, 0, 1)) + m[0][2] * Det(Submatrix(m, 0, 2))
  {
    CofactorSign(m, 0, 0);
    CofactorSign(m, 0, 1);
    CofactorSign(m, 0, 2);
    DetByCofactors3(m);
    SignedSum3(m[0][0], m[0][1], m[0][2], Cofactor(m, 0, 0), Cofactor(m, 0, 1), Cofactor(m, 0, 2),
      Det(Submatrix(m, 0, 0)), Det(Submatrix(m, 0, 1)), Det(Submatrix(m, 0, 2)));
  }

  /** Row 0 times its cofactors, added from the last, with the sign of the middle cofactor taken out. */
  lemma SignedSum3(a0: real, a1: real, a2: real, c0: real, c1: real, c2: real, d0: real, d1: real, d2: real)
    requires c0 == d0 && c1 == -d1 && c2 == d2
    ensures a2 * c2 + a1 * c1 + a0 * c0 == a0 * d0 - a1 * d1 + a2 * d2
  {
  }

  function SwapRows(m: Mat, a: nat, b: nat): (r: Mat)
    requires a < |m| && b < |m|
    ensures |r| == |m|
  {
    m[a := m[b]][b := m[a]]
  }

  /** The 3x3 Laplace expansion along row p, written out for the rows p, q, r. */
  function Expansion3(p: Vec, q: Vec, r: Vec): real
    requires |p| == |q| == |r| == 3
  {
    p[0] * (q[1] * r[2] - q[2] * r[1]) - p[1] * (q[0] * r[2] - q[2] * r[0]) + p[2] * (q[0] * r[1] - q[1] * r[0])
  }

  lemma Det3Rows(m: Mat)
    requires IsSquare(m) && |m| == 3
    ensures Det(m) == Expansion3(m[0], m[1], m[2])
  {
    Det3(m);
  }

  lemma Expansion3Swaps(p: Vec, q: Vec, r: Vec)
    requires |p| == |q| == |r| == 3
    ensures Expansion3(q, p, r) == -Expansion3(p, q, r)
    ensures Expansion3(r, q, p) == -Expansion3(p, q, r)
    ensures Expansion3(p, r, q) == -Expansion3(p, q, r)
  {
  }

  lemma Det2Rows(m: Mat)
    requires IsSquare(m) && |m| == 2
    ensures Det(m) == Expansion2(m[0], m[1])
  {
    Det2(m);
  }

  function Expansion2(p: Vec, q: Vec): real
    requires |p| == |q| == 2
  {
    p[0] * q[1] - p[1] * q[0]
  }

  /** Two square matrices whose expansions are opposite have opposite determinants. */
  lemma OppositeExpansions2(m: Mat, s: Mat)
    requires IsSquare(m) && |m| == 2 && IsSquare(s) && |s| == 2
    requires Expansion2(s[0], s[1]) == -Expansion2(m[0], m[1])
    ensures Det(s) == -Det(m)
  {
    Det2Rows(m);
    Det2Rows(s);
  }

  lemma OppositeExpansions3(m: Mat, s: Mat)
    requires IsSquare(m) && |m| == 3 && IsSquare(s) && |s| == 3
    requires Expansion3(s[0], s[1], s[2]) == -Expansion3(m[0], m[1], m[2])
    ensures Det(s) == -Det(m)
  {
    Det3Rows(m);
    Det3Rows(s);
  }

  lemma Expansion2Swap(p: Vec, q: Vec)
    requires |p| == |q| == 2
    ensures Expansion2(q, p) == -Expansion2(p, q)
  {
  }

  lemma DetSwapRows2(m: Mat)
    requires IsSquare(m) && |m| == 2
    ensures IsSquare(SwapRows(m, 0, 1)) && Det(SwapRows(m, 0, 1)) == -Det(m)
  {
    var s := SwapRows(m, 0, 1);
    assert s[0] == m[1] && s[1] == m[0];
    Expansion2Swap(m[0], m[1]);
    OppositeExpansions2(m, s);
  }

  lemma DetSwapRows3(m: Mat, a: nat, b: nat)
    requires IsSquare(m) && |m| == 3 && a < b < 3
    ensures IsSquare(SwapRows(m, a, b)) && Det(SwapRows(m, a, b)) == -Det(m)
  {
    var s := SwapRows(m, a, b);
    var p, q, r := m[0], m[1], m[2];
    Expansion3Swaps(p, q, r);
    if a == 0 && b == 1 {
      assert s[0] == q && s[1] == p && s[2] == r;
    } else if a == 0 {
      assert s[0] == r && s[1] == q && s[2] == p;
    } else {
      assert s[0] == p && s[1] == r && s[2] == q;
    }
    OppositeExpansions3(m, s);
  }

  /** The determinant is alternating: swapping two rows of a 2x2 or 3x3 matrix negates it. */
  lemma DetSwapRows(m: Mat, a: nat, b: nat)
    requires IsSquare(m) && (|m| == 2 || |m| == 3) && a < b < |m|
    ensures IsSquare(SwapRows(m, a, b)) && Det(SwapRows(m, a, b)) == -Det(m)
  {
    if |m| == 2 {
      assert a == 0 && b == 1;
      DetSwapRows2(m);
    } else {
      DetSwapRows3(m, a, b);
    }
  }
}
