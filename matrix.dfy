/**
 * The dense-matrix operations of gonum's mat package that the statistics
 * code uses, over real numbers: construction from row-major data, views
 * (slices, transposes, diagonals), stacking, products and entry-wise maps.
 * Operations whose shape preconditions gonum enforces with a panic carry
 * those preconditions as `requires`.
 */
module Matrices {
  datatype Matrix = Matrix(rows: nat, cols: nat, at: seq<seq<real>>)
  {
    /** The entries form a rows x cols grid. */
    predicate Valid() {
      |at| == rows && forall i | 0 <= i < rows :: |at[i]| == cols
    }
  }

  /** Left-to-right sum of a sequence of numbers. */
  function Total(xs: seq<real>): real {
    if xs == [] then 0.0 else Total(xs[..|xs| - 1]) + xs[|xs| - 1]
  }

  /** n copies of c add up to n * c. */
  lemma {:induction false} TotalConstant(xs: seq<real>, c: real)
    requires forall i | 0 <= i < |xs| :: xs[i] == c
    ensures Total(xs) == (|xs| as real) * c
    decreases |xs|
  {
    if xs != [] {
      TotalConstant(xs[..|xs| - 1], c);
    }
  }

  /** Sum of the products of corresponding entries. */
  function Dot(u: seq<real>, v: seq<real>): real
    requires |u| == |v|
  {
    DotUpTo(u, v, |u|)
  }

  /** Sum of the products of the first n pairs of entries, left to right. */
  function DotUpTo(u: seq<real>, v: seq<real>, n: nat): real
    requires n <= |u| == |v|
  {
    if n == 0 then 0.0 else DotUpTo(u, v, n - 1) + u[n - 1] * v[n - 1]
  }

  /** Index i * cols + j lies inside a rows x cols row-major block. */
  lemma RowMajorBound(rows: nat, cols: nat, i: nat, j: nat)
    requires i < rows && j < cols
    ensures 0 <= i * cols + j < rows * cols
  {
    assert i * cols + j < (i + 1) * cols;
    assert (i + 1) * cols <= rows * cols by {
      MulLeq(i + 1, rows, cols);
    }
  }

  lemma MulLeq(a: nat, b: nat, c: nat)
    requires a <= b
    ensures a * c <= b * c
  {
  }

  /** mat.NewDense(rows, cols, data): entry (i, j) is data[i * cols + j]. */
  function FromRowMajor(rows: nat, cols: nat, data: seq<real>): (m: Matrix)
    requires |data| == rows * cols
    ensures m.Valid() && m.rows == rows && m.cols == cols
  {
    Matrix(rows, cols, seq(rows, i requires 0 <= i < rows =>
      seq(cols, j requires 0 <= j < cols => RowMajorBound(rows, cols, i, j); data[i * cols + j])))
  }

  /** The rows x cols matrix of ones. */
  function OnesMatrix(rows: nat, cols: nat): (m: Matrix)
    ensures m.Valid() && m.rows == rows && m.cols == cols
  {
    Matrix(rows, cols, seq(rows, i => seq(cols, j => 1.0)))
  }

  /** mat.Col: column j, top to bottom. */
  function Col(a: Matrix, j: nat): (c: seq<real>)
    requires a.Valid() && j < a.cols
    ensures |c| == a.rows
  {
    seq(a.rows, i requires 0 <= i < a.rows => a.at[i][j])
  }

  /** Transpose (the T method): entry (i, j) of the result is entry (j, i) of a. */
  function Transpose(a: Matrix): (t: Matrix)
    requires a.Valid()
    ensures t.Valid() && t.rows == a.cols && t.cols == a.rows
  {
    Matrix(a.cols, a.rows, seq(a.cols, i requires 0 <= i < a.cols => Col(a, i)))
  }

  /** Slice(i, k, j, l): rows i..k-1 and columns j..l-1; gonum panics unless i < k <= rows and j < l <= cols. */
  function Slice(a: Matrix, i: nat, k: nat, j: nat, l: nat): (s: Matrix)
    requires a.Valid() && i < k <= a.rows && j < l <= a.cols
    ensures s.Valid() && s.rows == k - i && s.cols == l - j
  {
    Matrix(k - i, l - j, seq(k - i, r requires 0 <= r < k - i => a.at[i + r][j..l]))
  }

  /** Stack(a, b): the rows of a above the rows of b; gonum panics unless the column counts agree. */
  function Stack(a: Matrix, b: Matrix): (s: Matrix)
    requires a.Valid() && b.Valid() && a.cols == b.cols
    ensures s.Valid() && s.rows == a.rows + b.rows && s.cols == a.cols
  {
    Matrix(a.rows + b.rows, a.cols, a.at + b.at)
  }

  /** Mul: entry (i, j) is row i of a dotted with column j of b; gonum panics unless a.cols == b.rows. */
  function Mul(a: Matrix, b: Matrix): (c: Matrix)
    requires a.Valid() && b.Valid() && a.cols == b.rows
    ensures c.Valid() && c.rows == a.rows && c.cols == b.cols
  {
    Matrix(a.rows, b.cols, seq(a.rows, i requires 0 <= i < a.rows =>
      seq(b.cols, j requires 0 <= j < b.cols => Dot(a.at[i], Col(b, j)))))
  }

  /** Sub: entry-wise difference of two matrices of the same shape. */
  function Sub(a: Matrix, b: Matrix): (c: Matrix)
    requires a.Valid() && b.Valid() && a.rows == b.rows && a.cols == b.cols
    ensures c.Valid() && c.rows == a.rows && c.cols == a.cols
  {
    Matrix(a.rows, a.cols, seq(a.rows, i requires 0 <= i < a.rows =>
      seq(a.cols, j requires 0 <= j < a.cols => a.at[i][j] - b.at[i][j])))
  }

  /** Every entry multiplied by s. */
  function Scale(s: real, a: Matrix): (c: Matrix)
    requires a.Valid()
    ensures c.Valid() && c.rows == a.rows && c.cols == a.cols
  {
    Matrix(a.rows, a.cols, seq(a.rows, i requires 0 <= i < a.rows =>
      seq(a.cols, j requires 0 <= j < a.cols => s * a.at[i][j])))
  }

  /** Every entry squared. */
  function Square(a: Matrix): (c: Matrix)
    requires a.Valid()
    ensures c.Valid() && c.rows == a.rows && c.cols == a.cols
  {
    Matrix(a.rows, a.cols, seq(a.rows, i requires 0 <= i < a.rows =>
      seq(a.cols, j requires 0 <= j < a.cols => a.at[i][j] * a.at[i][j])))
  }

  /** DiagView of a square matrix: its diagonal, as a diagonal matrix of the same size. */
  function DiagView(a: Matrix): (d: Matrix)
    requires a.Valid() && a.rows == a.cols
    ensures d.Valid() && d.rows == a.rows && d.cols == a.rows
  {
    Matrix(a.rows, a.rows, seq(a.rows, i requires 0 <= i < a.rows =>
      seq(a.rows, j requires 0 <= j < a.rows => if i == j then a.at[i][i] else 0.0)))
  }

  /** mat.Sum: the sum of all entries, row after row. */
  function SumEntries(a: Matrix): real
    requires a.Valid()
  {
    Total(seq(a.rows, i requires 0 <= i < a.rows => Total(a.at[i])))
  }

  /** Transposing twice gives the matrix back. */
  lemma TransposeTwice(a: Matrix)
    requires a.Valid()
    ensures Transpose(Transpose(a)) == a
  {
    var t := Transpose(Transpose(a));
    forall i | 0 <= i < a.rows
      ensures t.at[i] == a.at[i]
    {
      assert |t.at[i]| == a.cols;
    }
  }

  /** Dot product with a vector that is zero except at position k. */
  lemma DotSingle(u: seq<real>, v: seq<real>, k: nat)
    requires |u| == |v| && k < |u|
    requires forall t | 0 <= t < |u| && t != k :: u[t] == 0.0
    ensures Dot(u, v) == u[k] * v[k]
  {
    DotUpToSingle(u, v, k, |u|);
  }

  lemma {:induction false} DotUpToSingle(u: seq<real>, v: seq<real>, k: nat, n: nat)
    requires n <= |u| == |v| && k < |u|
    requires forall t | 0 <= t < |u| && t != k :: u[t] == 0.0
    ensures DotUpTo(u, v, n) == if k < n then u[k] * v[k] else 0.0
    decreases n
  {
    if n > 0 {
      DotUpToSingle(u, v, k, n - 1);
    }
  }

  lemma DotZero(u: seq<real>, v: seq<real>)
    requires |u| == |v|
    requires forall t | 0 <= t < |u| :: u[t] == 0.0
    ensures Dot(u, v) == 0.0
  {
    DotUpToZero(u, v, |u|);
  }

  lemma {:induction false} DotUpToZero(u: seq<real>, v: seq<real>, n: nat)
    requires n <= |u| == |v|
    requires forall t | 0 <= t < |u| :: u[t] == 0.0
    ensures DotUpTo(u, v, n) == 0.0
    decreases n
  {
    if n > 0 {
      DotUpToZero(u, v, n - 1);
    }
  }

  lemma DotZeroRight(u: seq<real>, v: seq<real>)
    requires |u| == |v|
    requires forall t | 0 <= t < |v| :: v[t] == 0.0
    ensures Dot(u, v) == 0.0
  {
    DotUpToZeroRight(u, v, |u|);
  }

  lemma {:induction false} DotUpToZeroRight(u: seq<real>, v: seq<real>, n: nat)
    requires n <= |u| == |v|
    requires forall t | 0 <= t < |v| :: v[t] == 0.0
    ensures DotUpTo(u, v, n) == 0.0
    decreases n
  {
    if n > 0 {
      DotUpToZeroRight(u, v, n - 1);
    }
  }

  /** Dot product with a vector that is 1 at position p, -1 at position q and zero elsewhere. */
  lemma DotDifference(u: seq<real>, v: seq<real>, p: nat, q: nat)
    requires |u| == |v| && p < |u| && q < |u| && p != q
    requires v[p] == 1.0 && v[q] == -1.0
    requires forall t | 0 <= t < |v| && t != p && t != q :: v[t] == 0.0
    ensures Dot(u, v) == u[p] - u[q]
  {
    DotUpToDifference(u, v, p, q, |u|);
  }

  lemma {:induction false} DotUpToDifference(u: seq<real>, v: seq<real>, p: nat, q: nat, n: nat)
    requires n <= |u| == |v| && p < |u| && q < |u| && p != q
    requires v[p] == 1.0 && v[q] == -1.0
    requires forall t | 0 <= t < |v| && t != p && t != q :: v[t] == 0.0
    ensures DotUpTo(u, v, n) == (if p < n then u[p] else 0.0) - (if q < n then u[q] else 0.0)
    decreases n
  {
    if n > 0 {
      DotUpToDifference(u, v, p, q, n - 1);
    }
  }

  /** Any matrix sends an all-zero column to an all-zero column. */
  lemma MulZeroColumn(a: Matrix, z: Matrix)
    requires a.Valid() && z.Valid() && a.cols == z.rows && z.cols == 1
    requires forall t | 0 <= t < z.rows :: z.at[t][0] == 0.0
    ensures forall i | 0 <= i < a.rows :: Mul(a, z).at[i][0] == 0.0
  {
    forall i | 0 <= i < a.rows
      ensures Mul(a, z).at[i][0] == 0.0
    {
      DotZeroRight(a.at[i], Col(z, 0));
    }
  }

  /**
   * The diagonal view times a column of ones is the column of diagonal
   * entries: entry k of the product is entry (k, k) of a.
   */
  lemma DiagTimesOnes(a: Matrix, k: nat)
    requires a.Valid() && a.rows == a.cols && k < a.rows
    ensures Mul(DiagView(a), OnesMatrix(a.rows, 1)).at[k][0] == a.at[k][k]
  {
    var d := DiagView(a);
    var ones := OnesMatrix(a.rows, 1);
    DotSingle(d.at[k], Col(ones, 0), k);
  }

  /** The n x n identity matrix. */
  function Identity(n: nat): (m: Matrix)
    ensures m.Valid() && m.rows == n && m.cols == n
  {
    Matrix(n, n, seq(n, i => seq(n, j => if i == j then 1.0 else 0.0)))
  }

  /** Entry k of every row, top to bottom. */
  function Column(rows: seq<seq<real>>, k: nat): (c: seq<real>)
    requires forall j | 0 <= j < |rows| :: k < |rows[j]|
    ensures |c| == |rows|
  {
    seq(|rows|, j requires 0 <= j < |rows| => rows[j][k])
  }

  /** The dot product is linear in its first argument. */
  lemma {:induction false} DotLinear(s: seq<real>, a: seq<real>, x: real, b: seq<real>, w: seq<real>, n: nat)
    requires n <= |s| == |a| == |b| == |w|
    requires forall k | 0 <= k < |s| :: s[k] == a[k] + x * b[k]
    ensures DotUpTo(s, w, n) == DotUpTo(a, w, n) + x * DotUpTo(b, w, n)
    decreases n
  {
    if n > 0 {
      var k := n - 1;
      DotLinear(s, a, x, b, w, k);
      assert (a[k] + x * b[k]) * w[k] == a[k] * w[k] + x * (b[k] * w[k]);
    }
  }

  /** R w: each row of R dotted with w. */
  function MatVec(rows: seq<seq<real>>, w: seq<real>): (v: seq<real>)
    requires forall j | 0 <= j < |rows| :: |rows[j]| == |w|
    ensures |v| == |rows|
  {
    seq(|rows|, j requires 0 <= j < |rows| => Dot(rows[j], w))
  }

  /** u^T R over the first n rows: for each of the m columns, the first n entries of u and of that column dotted. */
  function VecMatUpTo(u: seq<real>, rows: seq<seq<real>>, m: nat, n: nat): (v: seq<real>)
    requires n <= |u| == |rows| && forall j | 0 <= j < |rows| :: |rows[j]| == m
    ensures |v| == m
  {
    seq(m, k requires 0 <= k < m => DotUpTo(u, Column(rows, k), n))
  }

  /**
   * Summing row by row or column by column gives the same double sum:
   * over the first n rows, u . (R w) == (u^T R) . w.
   */
  lemma {:induction false} DotSwap(u: seq<real>, rows: seq<seq<real>>, w: seq<real>, n: nat)
    requires n <= |rows| == |u| && forall j | 0 <= j < |rows| :: |rows[j]| == |w|
    ensures DotUpTo(u, MatVec(rows, w), n) == Dot(VecMatUpTo(u, rows, |w|, n), w)
    decreases n
  {
    var m := |w|;
    if n == 0 {
      DotZero(VecMatUpTo(u, rows, m, 0), w);
    } else {
      var k := n - 1;
      DotSwap(u, rows, w, k);
      var full, part := VecMatUpTo(u, rows, m, n), VecMatUpTo(u, rows, m, k);
      assert forall t | 0 <= t < m :: full[t] == part[t] + u[k] * rows[k][t];
      DotLinear(full, part, u[k], rows[k], w, m);
    }
  }

  /** Matrix multiplication is associative. */
  lemma MulAssoc(a: Matrix, b: Matrix, c: Matrix)
    requires a.Valid() && b.Valid() && c.Valid() && a.cols == b.rows && b.cols == c.rows
    ensures Mul(Mul(a, b), c) == Mul(a, Mul(b, c))
  {
    var ab, bc := Mul(a, b), Mul(b, c);
    var lhs, rhs := Mul(ab, c), Mul(a, bc);
    forall i | 0 <= i < a.rows
      ensures lhs.at[i] == rhs.at[i]
    {
      forall l | 0 <= l < c.cols
        ensures lhs.at[i][l] == rhs.at[i][l]
      {
        forall k | 0 <= k < b.cols
          ensures Col(b, k) == Column(b.at, k)
        {
        }
        assert ab.at[i] == VecMatUpTo(a.at[i], b.at, b.cols, b.rows);
        assert Col(bc, l) == MatVec(b.at, Col(c, l));
        DotSwap(a.at[i], b.at, Col(c, l), b.rows);
      }
    }
  }

  /** The identity matrix leaves what it multiplies unchanged. */
  lemma MulIdentity(b: Matrix)
    requires b.Valid()
    ensures Mul(Identity(b.rows), b) == b
  {
    var id, p := Identity(b.rows), Mul(Identity(b.rows), b);
    forall i | 0 <= i < b.rows
      ensures p.at[i] == b.at[i]
    {
      forall l | 0 <= l < b.cols
        ensures p.at[i][l] == b.at[i][l]
      {
        DotSingle(id.at[i], Col(b, l), i);
      }
    }
  }
}
