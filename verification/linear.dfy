/** The NumPy array operations the response model is built from: vectors as `seq<real>`,
    matrices as sequences of rows, `np.identity`, `np.diag`, `np.matmul`, elementwise
    products and differences, and broadcasting of a row vector over a matrix. */
module Linear {

  type Vector = seq<real>
  type Matrix = seq<seq<real>>

  // ---------------------------------------------------------------- vectors

  /** `np.full(n, c)`. */
  function Constant(n: nat, c: real): (v: Vector)
    ensures |v| == n && forall i :: 0 <= i < n ==> v[i] == c
  {
    seq(n, _ => c)
  }

  function Ones(n: nat): (v: Vector)
    ensures |v| == n && forall i :: 0 <= i < n ==> v[i] == 1.0
  {
    Constant(n, 1.0)
  }

  function Zeros(n: nat): (v: Vector)
    ensures |v| == n && forall i :: 0 <= i < n ==> v[i] == 0.0
  {
    Constant(n, 0.0)
  }

  /** `u * v` for arrays of one shape. */
  function Hadamard(u: Vector, v: Vector): (w: Vector)
    requires |u| == |v|
    ensures |w| == |u| && forall i :: 0 <= i < |u| ==> w[i] == u[i] * v[i]
  {
    seq(|u|, i requires 0 <= i < |u| => u[i] * v[i])
  }

  /** `u - v` for arrays of one shape. */
  function Subtract(u: Vector, v: Vector): (w: Vector)
    requires |u| == |v|
    ensures |w| == |u| && forall i :: 0 <= i < |u| ==> w[i] == u[i] - v[i]
  {
    seq(|u|, i requires 0 <= i < |u| => u[i] - v[i])
  }

  /** `c * v`. */
  function Scale(c: real, v: Vector): (w: Vector)
    ensures |w| == |v| && forall i :: 0 <= i < |v| ==> w[i] == c * v[i]
  {
    seq(|v|, i requires 0 <= i < |v| => c * v[i])
  }

  /** `np.sum(v)`. */
  function Sum(v: Vector): real {
    if |v| == 0 then 0.0 else v[0] + Sum(v[1..])
  }

  /** Scaling a vector scales its sum. */
  lemma {:induction false} SumOfScale(c: real, v: Vector)
    ensures Sum(Scale(c, v)) == c * Sum(v)
    decreases |v|
  {
    if |v| > 0 {
      SumOfScale(c, v[1..]);
      forall i | 0 <= i < |v| - 1 ensures Scale(c, v)[1..][i] == Scale(c, v[1..])[i] {
      }
      assert Scale(c, v)[1..] == Scale(c, v[1..]);
      assert Sum(Scale(c, v)) == c * v[0] + Sum(Scale(c, v[1..]));
    }
  }

  /** `np.diff(v)`: the differences of consecutive entries. */
  function Diff(v: Vector): (w: Vector)
    ensures |w| == if |v| == 0 then 0 else |v| - 1
    ensures forall i :: 0 <= i < |w| ==> w[i] == v[i + 1] - v[i]
  {
    if |v| == 0 then [] else seq(|v| - 1, i requires 0 <= i < |v| - 1 => v[i + 1] - v[i])
  }

  lemma {:induction false} SumOfConcat(u: Vector, v: Vector)
    ensures Sum(u + v) == Sum(u) + Sum(v)
  {
    if |u| > 0 {
      assert (u + v)[1..] == u[1..] + v;
      SumOfConcat(u[1..], v);
    } else {
      assert u + v == v;
    }
  }

  /** The differences of consecutive entries telescope. */
  lemma {:induction false} SumOfDiff(v: Vector)
    requires |v| > 0
    ensures Sum(Diff(v)) == v[|v| - 1] - v[0]
  {
    if |v| > 1 {
      assert Diff(v)[1..] == Diff(v[1..]);
      SumOfDiff(v[1..]);
    }
  }

  /** `np.dot(u, v)` for one-dimensional arrays. */
  function Dot(u: Vector, v: Vector): real
    requires |u| == |v|
  {
    if |u| == 0 then 0.0 else u[0] * v[0] + Dot(u[1..], v[1..])
  }

  /** The dot product is the sum of the elementwise product. */
  lemma {:induction false} DotIsSumOfProducts(u: Vector, v: Vector)
    requires |u| == |v|
    ensures Dot(u, v) == Sum(Hadamard(u, v))
  {
    if |u| > 0 {
      DotIsSumOfProducts(u[1..], v[1..]);
      assert forall i :: 0 <= i < |u| - 1 ==> Hadamard(u, v)[1..][i] == Hadamard(u[1..], v[1..])[i];
      assert Hadamard(u, v)[1..] == Hadamard(u[1..], v[1..]);
    }
  }

  lemma {:induction false} DotZeroLeft(u: Vector, v: Vector)
    requires |u| == |v|
    requires forall j :: 0 <= j < |u| ==> u[j] == 0.0
    ensures Dot(u, v) == 0.0
  {
    if |u| > 0 {
      DotZeroLeft(u[1..], v[1..]);
    }
  }

  /** A dot product with a vector that is zero except at `k` picks out index `k`. */
  lemma {:induction false} DotSparseLeft(u: Vector, v: Vector, k: nat)
    requires |u| == |v| && k < |u|
    requires forall j :: 0 <= j < |u| && j != k ==> u[j] == 0.0
    ensures Dot(u, v) == u[k] * v[k]
  {
    if k == 0 {
      DotZeroLeft(u[1..], v[1..]);
    } else {
      DotSparseLeft(u[1..], v[1..], k - 1);
    }
  }

  lemma {:induction false} DotSparseRight(u: Vector, v: Vector, k: nat)
    requires |u| == |v| && k < |u|
    requires forall j :: 0 <= j < |v| && j != k ==> v[j] == 0.0
    ensures Dot(u, v) == u[k] * v[k]
  {
    if k == 0 {
      DotZeroLeft(v[1..], u[1..]);
      DotCommutes(u[1..], v[1..]);
    } else {
      DotSparseRight(u[1..], v[1..], k - 1);
    }
  }

  lemma {:induction false} DotCommutes(u: Vector, v: Vector)
    requires |u| == |v|
    ensures Dot(u, v) == Dot(v, u)
  {
    if |u| > 0 {
      DotCommutes(u[1..], v[1..]);
    }
  }

  // ---------------------------------------------------------------- matrices

  /** The row length of a matrix (0 for a matrix without rows). */
  function Width(a: Matrix): nat {
    if |a| == 0 then 0 else |a[0]|
  }

  predicate IsMatrix(a: Matrix, rows: nat, cols: nat) {
    |a| == rows && forall i :: 0 <= i < |a| ==> |a[i]| == cols
  }

  predicate Rectangular(a: Matrix) {
    IsMatrix(a, |a|, Width(a))
  }

  /** `np.identity(n)`. */
  function Identity(n: nat): (m: Matrix)
    ensures IsMatrix(m, n, n)
    ensures forall i, j :: 0 <= i < n && 0 <= j < n ==> m[i][j] == if i == j then 1.0 else 0.0
  {
    seq(n, i => seq(n, j => if i == j then 1.0 else 0.0))
  }

  /** `np.diag(v)`: the square matrix with `v` on its diagonal. */
  function Diag(v: Vector): (m: Matrix)
    ensures IsMatrix(m, |v|, |v|)
    ensures forall i, j :: 0 <= i < |v| && 0 <= j < |v| ==> m[i][j] == if i == j then v[i] else 0.0
  {
    seq(|v|, i requires 0 <= i < |v| => seq(|v|, j => if i == j then v[i] else 0.0))
  }

  predicate IsDiagonal(m: Matrix) {
    IsMatrix(m, |m|, |m|) && forall i, j :: 0 <= i < |m| && 0 <= j < |m| && i != j ==> m[i][j] == 0.0
  }

  /** The diagonal of a square matrix. */
  function Diagonal(m: Matrix): (v: Vector)
    requires IsMatrix(m, |m|, |m|)
    ensures |v| == |m| && forall i :: 0 <= i < |m| ==> v[i] == m[i][i]
  {
    seq(|m|, i requires 0 <= i < |m| => m[i][i])
  }

  /** Matrices of one shape with the same entries are equal. */
  lemma MatrixEquality(a: Matrix, b: Matrix, rows: nat, cols: nat)
    requires IsMatrix(a, rows, cols) && IsMatrix(b, rows, cols)
    requires forall i, j :: 0 <= i < rows && 0 <= j < cols ==> a[i][j] == b[i][j]
    ensures a == b
  {
    forall i | 0 <= i < rows ensures a[i] == b[i] {
      assert forall j :: 0 <= j < cols ==> a[i][j] == b[i][j];
    }
  }

  /** A diagonal matrix is the `np.diag` of its diagonal. */
  lemma DiagOfDiagonal(m: Matrix)
    requires IsDiagonal(m)
    ensures Diag(Diagonal(m)) == m
  {
    MatrixEquality(Diag(Diagonal(m)), m, |m|, |m|);
  }

  /** The diagonal of `np.diag(v)` is `v`. */
  lemma DiagonalOfDiag(v: Vector)
    ensures Diagonal(Diag(v)) == v
  {
  }

  lemma DiagOfOnes(n: nat)
    ensures Diag(Ones(n)) == Identity(n)
  {
  }

  /** Column `j` of a matrix. */
  function Column(b: Matrix, j: nat): (c: Vector)
    requires forall t :: 0 <= t < |b| ==> j < |b[t]|
    ensures |c| == |b| && forall t :: 0 <= t < |b| ==> c[t] == b[t][j]
  {
    seq(|b|, t requires 0 <= t < |b| => b[t][j])
  }

  /** `np.matmul(a, b)` for two-dimensional arrays whose inner dimensions agree. */
  function MatMul(a: Matrix, b: Matrix): (m: Matrix)
    requires forall i :: 0 <= i < |a| ==> |a[i]| == |b|
    requires Rectangular(b)
    ensures IsMatrix(m, |a|, Width(b))
    ensures forall i, j :: 0 <= i < |a| && 0 <= j < Width(b) ==> m[i][j] == Dot(a[i], Column(b, j))
  {
    seq(|a|, i requires 0 <= i < |a| =>
      seq(Width(b), j requires 0 <= j < Width(b) => Dot(a[i], Column(b, j))))
  }

  /** `np.matmul(a, v)` for a two-dimensional `a` and a one-dimensional `v`. */
  function MatVec(a: Matrix, v: Vector): (w: Vector)
    requires forall i :: 0 <= i < |a| ==> |a[i]| == |v|
    ensures |w| == |a| && forall i :: 0 <= i < |a| ==> w[i] == Dot(a[i], v)
  {
    seq(|a|, i requires 0 <= i < |a| => Dot(a[i], v))
  }

  /** `np.matmul(u, b)` for a one-dimensional `u` and a two-dimensional `b`. */
  function VecMat(u: Vector, b: Matrix): (w: Vector)
    requires |u| == |b| && Rectangular(b)
    ensures |w| == Width(b) && forall j :: 0 <= j < Width(b) ==> w[j] == Dot(u, Column(b, j))
  {
    seq(Width(b), j requires 0 <= j < Width(b) => Dot(u, Column(b, j)))
  }

  /** `a - b` for matrices of one shape. */
  function MatSubtract(a: Matrix, b: Matrix): (m: Matrix)
    requires |a| == |b| && forall i :: 0 <= i < |a| ==> |a[i]| == |b[i]|
    ensures |m| == |a| && forall i :: 0 <= i < |a| ==> m[i] == Subtract(a[i], b[i])
  {
    seq(|a|, i requires 0 <= i < |a| => Subtract(a[i], b[i]))
  }

  /** `a - v` with a one-dimensional `v` broadcast across the rows of `a`: entry (r, c)
      is `a[r][c] - v[c]`. */
  function SubtractFromRows(a: Matrix, v: Vector): (m: Matrix)
    requires forall i :: 0 <= i < |a| ==> |a[i]| == |v|
    ensures |m| == |a| && forall i :: 0 <= i < |a| ==> m[i] == Subtract(a[i], v)
  {
    seq(|a|, i requires 0 <= i < |a| => Subtract(a[i], v))
  }

  // ---------------------------------------------------------------- products

  /** The identity is a left unit of the matrix product. */
  lemma MatMulIdentityLeft(a: Matrix)
    requires Rectangular(a)
    ensures MatMul(Identity(|a|), a) == a
  {
    var n := |a|;
    var m := MatMul(Identity(n), a);
    forall i, j | 0 <= i < n && 0 <= j < Width(a) ensures m[i][j] == a[i][j] {
      DotSparseLeft(Identity(n)[i], Column(a, j), i);
    }
    MatrixEquality(m, a, n, Width(a));
  }

  /** The identity is a right unit of the matrix product. */
  lemma MatMulIdentityRight(a: Matrix, n: nat)
    requires IsMatrix(a, |a|, n)
    ensures MatMul(a, Identity(n)) == a
  {
    var m := MatMul(a, Identity(n));
    assert n > 0 ==> Width(Identity(n)) == n;
    forall i, j | 0 <= i < |a| && 0 <= j < n ensures m[i][j] == a[i][j] {
      DotSparseRight(a[i], Column(Identity(n), j), j);
    }
    MatrixEquality(m, a, |a|, n);
  }

  /** A row vector times the identity is itself. */
  lemma VecMatIdentity(u: Vector)
    ensures VecMat(u, Identity(|u|)) == u
  {
    var n := |u|;
    forall j | 0 <= j < n ensures VecMat(u, Identity(n))[j] == u[j] {
      DotSparseRight(u, Column(Identity(n), j), j);
    }
  }

  /** Diagonal matrices multiply entrywise on their diagonals. */
  lemma DiagTimesDiag(u: Vector, v: Vector)
    requires |u| == |v|
    ensures MatMul(Diag(u), Diag(v)) == Diag(Hadamard(u, v))
  {
    var n := |u|;
    var m := MatMul(Diag(u), Diag(v));
    assert n > 0 ==> Width(Diag(v)) == n;
    forall i, j | 0 <= i < n && 0 <= j < n ensures m[i][j] == Diag(Hadamard(u, v))[i][j] {
      DotSparseLeft(Diag(u)[i], Column(Diag(v), j), i);
    }
    MatrixEquality(m, Diag(Hadamard(u, v)), n, n);
  }

  /** A diagonal matrix applied to a vector scales it entrywise. */
  lemma MatVecDiag(u: Vector, v: Vector)
    requires |u| == |v|
    ensures MatVec(Diag(u), v) == Hadamard(u, v)
  {
    forall i | 0 <= i < |u| ensures MatVec(Diag(u), v)[i] == u[i] * v[i] {
      DotSparseLeft(Diag(u)[i], v, i);
    }
  }

  lemma HadamardOnesLeft(v: Vector)
    ensures Hadamard(Ones(|v|), v) == v
  {
  }

  lemma HadamardCommutes(u: Vector, v: Vector)
    requires |u| == |v|
    ensures Hadamard(u, v) == Hadamard(v, u)
  {
  }
}
