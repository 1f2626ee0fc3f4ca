/**
 * stats-analyses/linear_regression.go: ordinary least squares over real
 * numbers. The last column of the input is the response, the other columns
 * are the predictors, and an intercept column of ones is put in front of
 * them. Matrix inversion and the square root are parameters: `inverse`
 * answers None where gonum's Inverse reports an error, and `sqrt` stands for
 * math.Sqrt on non-negative numbers (SqrtContract). The residual variance
 * and the square roots are Floats, which keep +Inf and NaN apart; a t
 * statistic that would be NaN or infinite is None.
 */
module Regression {
  import opened Wrappers
  import opened Matrices
  import StatsUtil

  datatype RegressionError = InversionFailed

  /** The coefficients (a c x 1 column, intercept first) and one t statistic per coefficient. */
  datatype Fit = Fit(coeffs: Matrix, tstats: seq<Option<real>>)

  /** A float64 as far as the residual variance and its products need one. */
  datatype Float = Finite(value: real) | PosInf | NegInf | NaN

  /** What math.Sqrt computes on non-negative numbers: Sqrt(0) is 0 and every other root is the non-negative one. */
  ghost predicate SqrtContract(sqrt: real -> real) {
    && sqrt(0.0) == 0.0
    && forall v: real :: v >= 0.0 ==> sqrt(v) >= 0.0 && sqrt(v) * sqrt(v) == v
  }

  /** What gonum's Inverse promises about the shape of what it returns. */
  ghost predicate InverseShape(inverse: Matrix -> Option<Matrix>) {
    forall a: Matrix :: a.Valid() && a.rows == a.cols && inverse(a).Some? ==>
      inverse(a).value.Valid() && inverse(a).value.rows == a.rows && inverse(a).value.cols == a.rows
  }

  /** A column v, not all zero, that a sends to zero: a is singular. */
  ghost predicate NullColumn(a: Matrix, v: Matrix)
    requires a.Valid()
  {
    && v.Valid() && v.rows == a.cols && v.cols == 1
    && (exists t | 0 <= t < v.rows :: v.at[t][0] != 0.0)
    && forall i | 0 <= i < a.rows :: Mul(a, v).at[i][0] == 0.0
  }

  /** What gonum's Inverse does with an exactly singular matrix: it reports an error. */
  ghost predicate RejectsSingular(inverse: Matrix -> Option<Matrix>) {
    forall a: Matrix, v: Matrix | a.Valid() && a.rows == a.cols && NullColumn(a, v) :: inverse(a).None?
  }

  /** The input shapes LinearRegression can run on: gonum panics on an empty slice or view. */
  predicate Regressable(m: Matrix) {
    m.Valid() && m.rows >= 1 && m.cols >= 2
  }

  /**
   * The design matrix X: the transpose of ones(1, r) stacked on the
   * transposed predictor columns.
   */
  function Design(m: Matrix): (x: Matrix)
    requires Regressable(m)
    ensures x.Valid() && x.rows == m.rows && x.cols == m.cols
    ensures forall i | 0 <= i < x.rows :: x.at[i][0] == 1.0
    ensures forall i, k | 0 <= i < x.rows && 1 <= k < x.cols :: x.at[i][k] == m.at[i][k - 1]
  {
    var predictors := Slice(m, 0, m.rows, 0, m.cols - 1);
    Transpose(Stack(OnesMatrix(1, m.rows), Transpose(predictors)))
  }

  /** The response Y: the last column of the input, as an r x 1 matrix. */
  function Response(m: Matrix): (y: Matrix)
    requires Regressable(m)
    ensures y.Valid() && y.rows == m.rows && y.cols == 1
    ensures forall i | 0 <= i < y.rows :: y.at[i][0] == m.at[i][m.cols - 1]
  {
    Slice(m, 0, m.rows, m.cols - 1, m.cols)
  }

  /** X^T X, the matrix that is inverted. */
  function Gram(x: Matrix): (g: Matrix)
    requires x.Valid()
    ensures g.Valid() && g.rows == x.cols && g.cols == x.cols
  {
    Mul(Transpose(x), x)
  }

  /** inv(X^T X) X^T Y, multiplied in that order. */
  function Coefficients(x: Matrix, y: Matrix, inv: Matrix): (beta: Matrix)
    requires x.Valid() && y.Valid() && inv.Valid()
    requires y.rows == x.rows && inv.rows == x.cols && inv.cols == x.cols
    ensures beta.Valid() && beta.rows == x.cols && beta.cols == y.cols
  {
    Mul(Mul(inv, Transpose(x)), y)
  }

  /** Y - X beta. */
  function Residual(x: Matrix, y: Matrix, beta: Matrix): (res: Matrix)
    requires x.Valid() && y.Valid() && beta.Valid()
    requires beta.rows == x.cols && y.rows == x.rows && y.cols == beta.cols
    ensures res.Valid() && res.rows == y.rows && res.cols == y.cols
  {
    Sub(y, Mul(x, beta))
  }

  /**
   * The residual variance: the sum of squared residuals divided by r - c - 2.
   * Nothing guards the divisor; when it is zero Go divides by zero and gets
   * +Inf, or NaN when every residual is zero as well.
   */
  function SigmaHat(res: Matrix, r: nat, c: nat): (sigma: Float)
    requires res.Valid()
    ensures sigma.Finite? <==> r != c + 2
    ensures sigma.Finite? ==> sigma.value * ((r - c - 2) as real) == SumEntries(Square(res))
    ensures sigma.PosInf? <==> r == c + 2 && SumEntries(Square(res)) > 0.0
    ensures sigma.NaN? <==> r == c + 2 && SumEntries(Square(res)) == 0.0
    ensures !sigma.NegInf?
  {
    var d := r - c - 2;
    var rss := SumEntries(Square(res));
    SquaresNonNegative(res);
    if d != 0 then Finite(rss / (d as real))
    else if rss > 0.0 then PosInf
    else if rss < 0.0 then NegInf
    else NaN
  }

  /** Squares add up to a non-negative sum, so the zero divisor never gives -Inf. */
  lemma SquaresNonNegative(a: Matrix)
    requires a.Valid()
    ensures SumEntries(Square(a)) >= 0.0
  {
    var sq := Square(a);
    var totals := seq(sq.rows, i requires 0 <= i < sq.rows => Total(sq.at[i]));
    forall i | 0 <= i < sq.rows
      ensures totals[i] >= 0.0
    {
      forall j | 0 <= j < sq.cols
        ensures sq.at[i][j] >= 0.0
      {
        StatsUtil.SquareNonNegative(a.at[i][j]);
      }
      StatsUtil.TotalNonNegative(sq.at[i]);
    }
    StatsUtil.TotalNonNegative(totals);
  }

  /** float64 multiplication of sigma by a finite v: an infinity times zero is NaN. */
  function Times(sigma: Float, v: real): (p: Float)
    ensures sigma.Finite? ==> p == Finite(sigma.value * v)
    ensures sigma.PosInf? ==> (p.PosInf? <==> v > 0.0) && (p.NegInf? <==> v < 0.0)
  {
    if sigma.Finite? then Finite(sigma.value * v)
    else if sigma.NaN? || v == 0.0 then NaN
    else if (v > 0.0) == sigma.PosInf? then PosInf
    else NegInf
  }

  /** math.Sqrt: NaN below zero, for -Inf and for NaN; +Inf for +Inf. */
  function Root(v: Float, sqrt: real -> real): (root: Float)
    requires SqrtContract(sqrt)
    ensures root.Finite? <==> v.Finite? && v.value >= 0.0
    ensures root.Finite? ==> root.value >= 0.0 && root.value * root.value == v.value
    ensures root.PosInf? <==> v.PosInf?
  {
    if v.Finite? then (if v.value < 0.0 then NaN else Finite(sqrt(v.value)))
    else if v.PosInf? then PosInf
    else NaN
  }

  /**
   * DivElem on one entry: a NaN divisor gives NaN, a zero divisor an infinity
   * or NaN (None), and a finite coefficient over an infinity gives zero.
   */
  function Quotient(b: real, root: Float): (q: Option<real>)
    ensures q.Some? <==> !root.NaN? && root != Finite(0.0)
    ensures root.PosInf? || root.NegInf? ==> q == Some(0.0)
    ensures root.Finite? && root.value != 0.0 ==> q.value * root.value == b
  {
    if root.NaN? || root == Finite(0.0) then None
    else if root.Finite? then Some(b / root.value)
    else Some(0.0)
  }

  /**
   * The t statistics: sigma times inv, its diagonal taken through DiagView
   * times ones(c, 1), the entry-wise square root, and beta divided entry-wise
   * by that. The reals have no infinities, so for an infinite or NaN sigma
   * the diagonal entries are multiplied one by one (Times).
   */
  function TStatistics(beta: Matrix, inv: Matrix, sigma: Float, sqrt: real -> real): (t: seq<Option<real>>)
    requires beta.Valid() && inv.Valid() && inv.rows == inv.cols && beta.rows == inv.rows && beta.cols == 1
    requires SqrtContract(sqrt)
    ensures |t| == beta.rows
  {
    var c := inv.rows;
    var variances: seq<Float> :=
      if sigma.Finite? then
        var diag := Mul(DiagView(Scale(sigma.value, inv)), OnesMatrix(c, 1));
        seq(c, k requires 0 <= k < c => Finite(diag.at[k][0]))
      else seq(c, k requires 0 <= k < c => Times(sigma, inv.at[k][k]));
    seq(c, k requires 0 <= k < c => Quotient(beta.at[k][0], Root(variances[k], sqrt)))
  }

  /**
   * LinearRegression: fails only when X^T X cannot be inverted; otherwise
   * returns the coefficients and t statistics, whatever r - c - 2 is.
   */
  function LinearRegression(m: Matrix, inverse: Matrix -> Option<Matrix>, sqrt: real -> real)
    : (r: Result<Fit, RegressionError>)
    requires Regressable(m) && InverseShape(inverse) && SqrtContract(sqrt)
    ensures r.Err? <==> inverse(Gram(Design(m))).None?
    ensures r.Ok? ==> && r.value.coeffs.Valid() && r.value.coeffs.rows == m.cols
                      && r.value.coeffs.cols == 1 && |r.value.tstats| == m.cols
    ensures r.Ok? ==>
      var x, y := Design(m), Response(m);
      var inv := inverse(Gram(x)).value;
      var beta := Coefficients(x, y, inv);
      && r.value.coeffs == beta
      && r.value.tstats == TStatistics(beta, inv, SigmaHat(Residual(x, y, beta), m.rows, m.cols), sqrt)
  {
    var x := Design(m);
    var y := Response(m);
    match inverse(Gram(x))
    case None => Err(InversionFailed)
    case Some(inv) =>
      var beta := Coefficients(x, y, inv);
      var sigma := SigmaHat(Residual(x, y, beta), m.rows, m.cols);
      Ok(Fit(beta, TStatistics(beta, inv, sigma, sqrt)))
  }

  /**
   * Entry k of the t statistics is beta_k over the root of sigma * inv[k][k]:
   * for a finite sigma the DiagView product picks exactly that entry out.
   */
  lemma TStatisticEntry(beta: Matrix, inv: Matrix, sigma: Float, sqrt: real -> real, k: nat)
    requires beta.Valid() && inv.Valid() && inv.rows == inv.cols && beta.rows == inv.rows && beta.cols == 1
    requires SqrtContract(sqrt) && k < inv.rows
    ensures TStatistics(beta, inv, sigma, sqrt)[k] == Quotient(beta.at[k][0], Root(Times(sigma, inv.at[k][k]), sqrt))
  {
    var c := inv.rows;
    if sigma.Finite? {
      var scaled := Scale(sigma.value, inv);
      DiagTimesOnes(scaled, k);
      var diag := Mul(DiagView(scaled), OnesMatrix(c, 1));
      assert diag.at[k][0] == sigma.value * inv.at[k][k];
      var variances := seq(c, k requires 0 <= k < c => Finite(diag.at[k][0]));
      assert variances[k] == Times(sigma, inv.at[k][k]);
    }
  }

  /**
   * t_k = beta_k / sqrt(sigma * inv[k][k]) whenever the residual variance
   * is finite and sigma * inv[k][k] is positive.
   */
  lemma TStatisticFormula(beta: Matrix, inv: Matrix, sigma: real, sqrt: real -> real, k: nat)
    requires beta.Valid() && inv.Valid() && inv.rows == inv.cols && beta.rows == inv.rows && beta.cols == 1
    requires SqrtContract(sqrt) && k < inv.rows
    requires sigma * inv.at[k][k] > 0.0
    ensures sqrt(sigma * inv.at[k][k]) > 0.0
    ensures TStatistics(beta, inv, Finite(sigma), sqrt)[k] == Some(beta.at[k][0] / sqrt(sigma * inv.at[k][k]))
  {
    TStatisticEntry(beta, inv, Finite(sigma), sqrt, k);
    var v := sigma * inv.at[k][k];
    assert Times(Finite(sigma), inv.at[k][k]) == Finite(v);
    assert sqrt(v) * sqrt(v) == v;
    assert Root(Finite(v), sqrt) == Finite(sqrt(v));
  }

  /**
   * Where sigma * inv[k][k] is negative its square root is NaN, and where it
   * is zero beta_k is divided by zero: either way t_k is not finite.
   */
  lemma TStatisticNonFinite(beta: Matrix, inv: Matrix, sigma: real, sqrt: real -> real, k: nat)
    requires beta.Valid() && inv.Valid() && inv.rows == inv.cols && beta.rows == inv.rows && beta.cols == 1
    requires SqrtContract(sqrt) && k < inv.rows
    requires sigma * inv.at[k][k] <= 0.0
    ensures TStatistics(beta, inv, Finite(sigma), sqrt)[k].None?
  {
    TStatisticEntry(beta, inv, Finite(sigma), sqrt, k);
    var v := sigma * inv.at[k][k];
    assert Times(Finite(sigma), inv.at[k][k]) == Finite(v);
    if v == 0.0 {
      assert Root(Finite(v), sqrt) == Finite(0.0);
    }
  }

  /**
   * With exactly c + 2 observations the divisor r - c - 2 is zero: no error
   * is reported and the coefficients are still returned. The residual
   * variance is +Inf, so t_k is beta_k / +Inf = 0 where inv[k][k] is
   * positive and NaN elsewhere; when every residual is zero it is NaN, and so
   * is every t statistic.
   */
  lemma ZeroDivisor(m: Matrix, inverse: Matrix -> Option<Matrix>, sqrt: real -> real)
    requires Regressable(m) && InverseShape(inverse) && SqrtContract(sqrt)
    requires m.rows == m.cols + 2 && inverse(Gram(Design(m))).Some?
    ensures LinearRegression(m, inverse, sqrt).Ok?
    ensures var x, y := Design(m), Response(m);
      var inv := inverse(Gram(x)).value;
      var rss := SumEntries(Square(Residual(x, y, Coefficients(x, y, inv))));
      forall k | 0 <= k < m.cols ::
        LinearRegression(m, inverse, sqrt).value.tstats[k] == if rss > 0.0 && inv.at[k][k] > 0.0 then Some(0.0) else None
  {
    var x, y := Design(m), Response(m);
    var inv := inverse(Gram(x)).value;
    var beta := Coefficients(x, y, inv);
    var sigma := SigmaHat(Residual(x, y, beta), m.rows, m.cols);
    assert LinearRegression(m, inverse, sqrt) == Ok(Fit(beta, TStatistics(beta, inv, sigma, sqrt)));
    NonFiniteVariance(beta, inv, sigma, sqrt);
  }

  /**
   * A +Inf residual variance makes t_k = beta_k / +Inf = 0 where inv[k][k]
   * is positive and NaN elsewhere; a NaN variance makes every t_k NaN.
   */
  lemma NonFiniteVariance(beta: Matrix, inv: Matrix, sigma: Float, sqrt: real -> real)
    requires beta.Valid() && inv.Valid() && inv.rows == inv.cols && beta.rows == inv.rows && beta.cols == 1
    requires SqrtContract(sqrt) && (sigma.PosInf? || sigma.NaN?)
    ensures forall k | 0 <= k < inv.rows ::
      TStatistics(beta, inv, sigma, sqrt)[k] == if sigma.PosInf? && inv.at[k][k] > 0.0 then Some(0.0) else None
  {
    forall k | 0 <= k < inv.rows
      ensures TStatistics(beta, inv, sigma, sqrt)[k] == if sigma.PosInf? && inv.at[k][k] > 0.0 then Some(0.0) else None
    {
      TStatisticEntry(beta, inv, sigma, sqrt, k);
    }
  }

  /**
   * Two equal predictor columns p and q make X^T X singular: X sends the
   * column e_(p+1) - e_(q+1) to zero, so X^T X does as well, and the
   * inversion fails.
   */
  lemma EqualPredictorColumns(m: Matrix, inverse: Matrix -> Option<Matrix>, sqrt: real -> real, p: nat, q: nat)
    requires Regressable(m) && InverseShape(inverse) && SqrtContract(sqrt) && RejectsSingular(inverse)
    requires p < m.cols - 1 && q < m.cols - 1 && p != q
    requires forall i | 0 <= i < m.rows :: m.at[i][p] == m.at[i][q]
    ensures LinearRegression(m, inverse, sqrt) == Err(InversionFailed)
  {
    var v := EqualColumnsNull(m, p, q);
  }

  /** The column e_(p+1) - e_(q+1), which X^T X sends to zero when predictors p and q agree. */
  lemma EqualColumnsNull(m: Matrix, p: nat, q: nat) returns (v: Matrix)
    requires Regressable(m) && p < m.cols - 1 && q < m.cols - 1 && p != q
    requires forall i | 0 <= i < m.rows :: m.at[i][p] == m.at[i][q]
    ensures NullColumn(Gram(Design(m)), v)
  {
    var x := Design(m);
    var c := m.cols;
    v := Matrix(c, 1, seq(c, k requires 0 <= k < c =>
      [if k == p + 1 then 1.0 else if k == q + 1 then -1.0 else 0.0]));
    DesignSendsToZero(m, p, q, v);
    MulZeroColumn(Transpose(x), Mul(x, v));
    MulAssoc(Transpose(x), x, v);
    assert v.at[p + 1][0] != 0.0;
  }

  lemma DesignSendsToZero(m: Matrix, p: nat, q: nat, v: Matrix)
    requires Regressable(m) && p < m.cols - 1 && q < m.cols - 1 && p != q
    requires forall i | 0 <= i < m.rows :: m.at[i][p] == m.at[i][q]
    requires v.Valid() && v.rows == m.cols && v.cols == 1
    requires forall k | 0 <= k < m.cols :: v.at[k][0] == if k == p + 1 then 1.0 else if k == q + 1 then -1.0 else 0.0
    ensures forall i | 0 <= i < m.rows :: Mul(Design(m), v).at[i][0] == 0.0
  {
    var x := Design(m);
    forall i | 0 <= i < x.rows
      ensures Mul(x, v).at[i][0] == 0.0
    {
      DotDifference(x.at[i], Col(v, 0), p + 1, q + 1);
    }
  }

  /**
   * When the response is exactly a linear function X b of the predictors and
   * the inversion really inverts X^T X, the fitted coefficients are b.
   */
  lemma ExactFit(m: Matrix, inverse: Matrix -> Option<Matrix>, sqrt: real -> real, b: Matrix)
    requires Regressable(m) && InverseShape(inverse) && SqrtContract(sqrt)
    requires inverse(Gram(Design(m))).Some?
    requires Mul(inverse(Gram(Design(m))).value, Gram(Design(m))) == Identity(m.cols)
    requires b.Valid() && b.rows == m.cols && b.cols == 1 && Response(m) == Mul(Design(m), b)
    ensures LinearRegression(m, inverse, sqrt).Ok?
    ensures LinearRegression(m, inverse, sqrt).value.coeffs == b
  {
    var x, y := Design(m), Response(m);
    var inv := inverse(Gram(x)).value;
    var xt := Transpose(x);
    calc {
      Coefficients(x, y, inv);
      Mul(Mul(inv, xt), Mul(x, b));
      { MulAssoc(Mul(inv, xt), x, b); }
      Mul(Mul(Mul(inv, xt), x), b);
      { MulAssoc(inv, xt, x); }
      Mul(Mul(inv, Gram(x)), b);
      { MulIdentity(b); }
      b;
    }
  }

  /**
   * With coefficients that reproduce the response exactly, every residual is
   * zero and so is the residual variance, unless its divisor r - c - 2 is
   * zero, which makes it 0 / 0 = NaN.
   */
  lemma PerfectResidual(m: Matrix, b: Matrix)
    requires Regressable(m) && b.Valid() && b.rows == m.cols && b.cols == 1
    requires Response(m) == Mul(Design(m), b)
    ensures var res := Residual(Design(m), Response(m), b);
      && (forall i | 0 <= i < res.rows :: res.at[i][0] == 0.0)
      && SigmaHat(res, m.rows, m.cols) == if m.rows != m.cols + 2 then Finite(0.0) else NaN
  {
    var res := Residual(Design(m), Response(m), b);
    assert forall i, j | 0 <= i < res.rows && 0 <= j < res.cols :: res.at[i][j] == 0.0;
    SquaresOfZeros(res);
  }

  /** The squares of a zero matrix add up to zero. */
  lemma SquaresOfZeros(a: Matrix)
    requires a.Valid() && forall i, j | 0 <= i < a.rows && 0 <= j < a.cols :: a.at[i][j] == 0.0
    ensures SumEntries(Square(a)) == 0.0
  {
    var sq := Square(a);
    var totals := seq(sq.rows, i requires 0 <= i < sq.rows => Total(sq.at[i]));
    forall i | 0 <= i < sq.rows
      ensures totals[i] == 0.0
    {
      TotalConstant(sq.at[i], 0.0);
    }
    TotalConstant(totals, 0.0);
  }
}
