/**
 * stats-analyses/util.go: the helpers of the regression code. `ones` fills a
 * buffer with 1s, `sum` accumulates its arguments, and `mean` and `variance`
 * produce one statistic per column, computed here over real numbers as
 * gonum's stat.Mean and stat.Variance define them (unweighted mean; sample
 * variance with divisor n - 1).
 */
module StatsUtil {
  import opened Wrappers
  import opened Matrices

  /** ones(rows, cols): a rows * cols buffer set to 1 entry by entry, wrapped by mat.NewDense. */
  method Ones(rows: nat, cols: nat) returns (m: Matrix)
    requires rows >= 1 && cols >= 1
    ensures m.Valid() && m.rows == rows && m.cols == cols
    ensures forall i, j | 0 <= i < rows && 0 <= j < cols :: m.at[i][j] == 1.0
    ensures m == OnesMatrix(rows, cols)
  {
    var f := new real[rows * cols];
    for k := 0 to f.Length
      invariant forall t | 0 <= t < k :: f[t] == 1.0
    {
      f[k] := 1.0;
    }
    m := FromRowMajor(rows, cols, f[..]);
    forall i, j | 0 <= i < rows && 0 <= j < cols
      ensures m.at[i][j] == 1.0
    {
      RowMajorBound(rows, cols, i, j);
    }
    var ones := OnesMatrix(rows, cols);
    forall i | 0 <= i < rows
      ensures m.at[i] == ones.at[i]
    {
    }
  }

  /** sum(elem...): adds the arguments left to right, starting from 0. */
  method Sum(elems: seq<real>) returns (s: real)
    ensures s == Total(elems)
    ensures elems == [] ==> s == 0.0
  {
    s := 0.0;
    for i := 0 to |elems|
      invariant s == Total(elems[..i])
    {
      assert elems[..i + 1][..i] == elems[..i];
      s := s + elems[i];
    }
    assert elems[..|elems|] == elems;
  }

  /** Adding one more argument adds it to the sum. */
  lemma TotalAppend(xs: seq<real>, x: real)
    ensures Total(xs + [x]) == Total(xs) + x
  {
    assert (xs + [x])[..|xs|] == xs;
  }

  /** The sum of a concatenation is the sum of the sums. */
  lemma {:induction false} TotalConcat(xs: seq<real>, ys: seq<real>)
    ensures Total(xs + ys) == Total(xs) + Total(ys)
    decreases |ys|
  {
    if ys == [] {
      assert xs + ys == xs;
    } else {
      var n := |ys|;
      assert (xs + ys)[..|xs + ys| - 1] == xs + ys[..n - 1];
      TotalConcat(xs, ys[..n - 1]);
    }
  }

  /** A sum of non-negative numbers is non-negative. */
  lemma {:induction false} TotalNonNegative(xs: seq<real>)
    requires forall i | 0 <= i < |xs| :: xs[i] >= 0.0
    ensures Total(xs) >= 0.0
    decreases |xs|
  {
    if xs != [] {
      TotalNonNegative(xs[..|xs| - 1]);
    }
  }

  /** stat.Mean without weights: the sum over the count; None (NaN in Go) for no values. */
  function MeanOf(xs: seq<real>): (mu: Option<real>)
    ensures mu.Some? <==> xs != []
    ensures mu.Some? ==> mu.value * (|xs| as real) == Total(xs)
  {
    if xs == [] then None else Some(Total(xs) / (|xs| as real))
  }

  /** The squared deviations from the mean. */
  function Deviations(xs: seq<real>, mu: real): (ds: seq<real>)
    ensures |ds| == |xs|
  {
    seq(|xs|, i requires 0 <= i < |xs| => (xs[i] - mu) * (xs[i] - mu))
  }

  lemma SquareNonNegative(d: real)
    ensures d * d >= 0.0
  {
    if d < 0.0 {
      assert d * d == (-d) * (-d);
      assert (-d) * (-d) > 0.0;
    }
  }

  /**
   * stat.Variance without weights: the squared deviations from the mean
   * summed and divided by n - 1; None (NaN in Go) for fewer than two values.
   */
  function VarianceOf(xs: seq<real>): (v: Option<real>)
    ensures v.Some? <==> |xs| >= 2
    ensures v.Some? ==> v.value * ((|xs| - 1) as real) == Total(Deviations(xs, MeanOf(xs).value))
  {
    if |xs| < 2 then None
    else Some(Total(Deviations(xs, MeanOf(xs).value)) / ((|xs| - 1) as real))
  }

  /** The mean of equal values is that value. */
  lemma MeanOfConstant(xs: seq<real>, c: real)
    requires xs != [] && forall i | 0 <= i < |xs| :: xs[i] == c
    ensures MeanOf(xs) == Some(c)
  {
    TotalConstant(xs, c);
    var n := |xs| as real;
    assert n > 0.0;
    assert Total(xs) == n * c;
    assert Total(xs) / n == c;
  }

  /** The variance of equal values is zero. */
  lemma VarianceOfConstant(xs: seq<real>, c: real)
    requires |xs| >= 2 && forall i | 0 <= i < |xs| :: xs[i] == c
    ensures VarianceOf(xs) == Some(0.0)
  {
    MeanOfConstant(xs, c);
    TotalConstant(Deviations(xs, c), 0.0);
  }

  /** A variance, when defined, is never negative. */
  lemma VarianceNonNegative(xs: seq<real>)
    requires |xs| >= 2
    ensures VarianceOf(xs).Some? && VarianceOf(xs).value >= 0.0
  {
    var ds := Deviations(xs, MeanOf(xs).value);
    forall i | 0 <= i < |ds|
      ensures ds[i] >= 0.0
    {
      SquareNonNegative(xs[i] - MeanOf(xs).value);
    }
    TotalNonNegative(ds);
    var n := (|xs| - 1) as real;
    assert Total(ds) / n >= 0.0;
  }

  /** mean(m): the mean of each column, in column order. */
  method Mean(m: Matrix) returns (means: seq<Option<real>>)
    requires m.Valid()
    ensures |means| == m.cols
    ensures forall j | 0 <= j < m.cols :: means[j] == MeanOf(Col(m, j))
  {
    means := [];
    for j := 0 to m.cols
      invariant |means| == j
      invariant forall t | 0 <= t < j :: means[t] == MeanOf(Col(m, t))
    {
      var col := Col(m, j);
      var mu := MeanOf(col);
      means := means + [mu];
    }
  }

  /** variance(m): the variance of each column, in column order. */
  method Variance(m: Matrix) returns (vs: seq<Option<real>>)
    requires m.Valid()
    ensures |vs| == m.cols
    ensures forall j | 0 <= j < m.cols :: vs[j] == VarianceOf(Col(m, j))
  {
    vs := [];
    for j := 0 to m.cols
      invariant |vs| == j
      invariant forall t | 0 <= t < j :: vs[t] == VarianceOf(Col(m, t))
    {
      var col := Col(m, j);
      vs := vs + [VarianceOf(col)];
    }
  }

  /** Every column of a matrix of ones has mean 1 and, with two rows or more, variance 0. */
  lemma OnesStatistics(rows: nat, cols: nat, j: nat)
    requires rows >= 1 && j < cols
    ensures MeanOf(Col(OnesMatrix(rows, cols), j)) == Some(1.0)
    ensures rows >= 2 ==> VarianceOf(Col(OnesMatrix(rows, cols), j)) == Some(0.0)
  {
    var col := Col(OnesMatrix(rows, cols), j);
    MeanOfConstant(col, 1.0);
    if rows >= 2 {
      VarianceOfConstant(col, 1.0);
    }
  }
}
