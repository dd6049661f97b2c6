/**
  The lag scatter: this week's cases against last week's, for the rows
  whose one-week lag is defined, with a least-squares trend line drawn
  across the range of lags when there are at least two points.
*/
module LagAnalysis {
  import opened Wrappers
  import opened Seqs
  import opened Records

  function LagOf(r: Record): Option<real>
  {
    r.casesLag1w
  }

  predicate HasLag(r: Record)
  {
    r.casesLag1w.Some?
  }

  /** `rows.map(d => d.Cases_lag_1w).filter(v => v != null)`: the x values. */
  function LagXs(rows: seq<Record>): seq<real>
  {
    Defined(rows, LagOf)
  }

  /**
    `rows.map(d => d.Cases).filter((_, i) => rows[i].Cases_lag_1w != null)`:
    the y values, filtered by index against the lag column. A null case
    count enters the sums as zero, as JavaScript arithmetic reads it.
  */
  function LagYs(rows: seq<Record>): seq<real>
  {
    if |rows| == 0 then []
    else (if HasLag(rows[0]) then [Value(rows[0], Cases)] else []) + LagYs(rows[1..])
  }

  /**
    The two independently filtered arrays stay aligned: entry `i` of each
    comes from the `i`-th row with a defined lag.
  */
  lemma {:induction false} LagAligned(rows: seq<Record>)
    ensures |LagXs(rows)| == |LagYs(rows)| == |Filter(rows, HasLag)|
    ensures forall i :: 0 <= i < |LagXs(rows)| ==>
      Some(LagXs(rows)[i]) == Filter(rows, HasLag)[i].casesLag1w &&
      LagYs(rows)[i] == Value(Filter(rows, HasLag)[i], Cases)
  {
    if |rows| > 0 {
      LagAligned(rows[1..]);
      var r := rows[0];
      if HasLag(r) {
        assert LagXs(rows) == [r.casesLag1w.value] + LagXs(rows[1..]);
        assert LagYs(rows) == [Value(r, Cases)] + LagYs(rows[1..]);
        assert Filter(rows, HasLag) == [r] + Filter(rows[1..], HasLag);
      } else {
        assert LagXs(rows) == LagXs(rows[1..]);
      }
    }
  }

  // ---------------------------------------------------------------------
  // Least squares
  // ---------------------------------------------------------------------

  /** `xs.reduce((a, b) => a + b, 0)` over plain numbers. */
  function Sum(xs: seq<real>): real
  {
    if |xs| == 0 then 0.0 else xs[0] + Sum(xs[1..])
  }

  /** `xs.length` as a number: one for every entry. */
  function Count(xs: seq<real>): (n: real)
    ensures n >= 0.0
    ensures |xs| > 0 ==> n >= 1.0
  {
    if |xs| == 0 then 0.0 else 1.0 + Count(xs[1..])
  }

  lemma {:induction false} CountLength(xs: seq<real>)
    ensures Count(xs) == |xs| as real
  {
    if |xs| > 0 {
      CountLength(xs[1..]);
    }
  }

  /** The sum of pairwise products. */
  function Dot(xs: seq<real>, ys: seq<real>): real
    requires |xs| == |ys|
  {
    if |xs| == 0 then 0.0 else xs[0] * ys[0] + Dot(xs[1..], ys[1..])
  }

  lemma {:induction false} SumAppend(xs: seq<real>, x: real)
    ensures Sum(xs + [x]) == Sum(xs) + x
  {
    if |xs| > 0 {
      assert (xs + [x])[1..] == xs[1..] + [x];
      SumAppend(xs[1..], x);
    }
  }

  lemma {:induction false} DotAppend(xs: seq<real>, ys: seq<real>, x: real, y: real)
    requires |xs| == |ys|
    ensures Dot(xs + [x], ys + [y]) == Dot(xs, ys) + x * y
  {
    if |xs| > 0 {
      assert (xs + [x])[1..] == xs[1..] + [x];
      assert (ys + [y])[1..] == ys[1..] + [y];
      DotAppend(xs[1..], ys[1..], x, y);
    }
  }

  /** `n * x_sq_sum - x_sum * x_sum`, over the accumulated sums. */
  function Det(n: real, sx: real, sxx: real): real
  {
    n * sxx - sx * sx
  }

  /** The slope's denominator for the points with x values `xs`. */
  function Denominator(xs: seq<real>): real
  {
    Det(Count(xs), Sum(xs), Dot(xs, xs))
  }

  /** `m * ys`, entry by entry. */
  function Scale(m: real, ys: seq<real>): (r: seq<real>)
    ensures |r| == |ys|
  {
    if |ys| == 0 then [] else [m * ys[0]] + Scale(m, ys[1..])
  }

  /** `ys - zs`, entry by entry. */
  function Minus(ys: seq<real>, zs: seq<real>): (r: seq<real>)
    requires |ys| == |zs|
    ensures |r| == |ys|
  {
    if |ys| == 0 then [] else [ys[0] - zs[0]] + Minus(ys[1..], zs[1..])
  }

  /** `n` copies of `b`. */
  function Repeat(b: real, n: nat): (r: seq<real>)
    ensures |r| == n
    ensures forall i :: 0 <= i < n ==> r[i] == b
  {
    if n == 0 then [] else [b] + Repeat(b, n - 1)
  }

  lemma ScaleStep(x: real, a: real, m: real, d: real)
    ensures x * (m * a) + m * d == m * (x * a + d)
  {
  }

  lemma MinusStep(x: real, a: real, c: real, d: real, e: real)
    ensures x * (a - c) + (d - e) == (x * a + d) - (x * c + e)
  {
  }

  lemma RepeatStep(x: real, b: real, s: real)
    ensures x * b + b * s == b * (x + s)
  {
  }

  /** The dot product is linear in its second argument: scaling. */
  lemma {:induction false} DotScale(xs: seq<real>, ys: seq<real>, m: real)
    requires |xs| == |ys|
    ensures Dot(xs, Scale(m, ys)) == m * Dot(xs, ys)
  {
    if |xs| > 0 {
      DotScale(xs[1..], ys[1..], m);
      assert Scale(m, ys)[1..] == Scale(m, ys[1..]);
      ScaleStep(xs[0], ys[0], m, Dot(xs[1..], ys[1..]));
    }
  }

  /** The dot product is linear in its second argument: differences. */
  lemma {:induction false} DotMinus(xs: seq<real>, ys: seq<real>, zs: seq<real>)
    requires |xs| == |ys| == |zs|
    ensures Dot(xs, Minus(ys, zs)) == Dot(xs, ys) - Dot(xs, zs)
  {
    if |xs| > 0 {
      DotMinus(xs[1..], ys[1..], zs[1..]);
      assert Minus(ys, zs)[1..] == Minus(ys[1..], zs[1..]);
      MinusStep(xs[0], ys[0], zs[0], Dot(xs[1..], ys[1..]), Dot(xs[1..], zs[1..]));
    }
  }

  /** Weighting a constant by the x values sums the x values. */
  lemma {:induction false} DotRepeat(xs: seq<real>, b: real)
    ensures Dot(xs, Repeat(b, |xs|)) == b * Sum(xs)
  {
    if |xs| > 0 {
      DotRepeat(xs[1..], b);
      assert Repeat(b, |xs|)[1..] == Repeat(b, |xs| - 1);
      RepeatStep(xs[0], b, Sum(xs[1..]));
    }
  }

  lemma {:induction false} SumScale(ys: seq<real>, m: real)
    ensures Sum(Scale(m, ys)) == m * Sum(ys)
  {
    if |ys| > 0 {
      SumScale(ys[1..], m);
      assert Scale(m, ys)[1..] == Scale(m, ys[1..]);
    }
  }

  lemma {:induction false} SumMinus(ys: seq<real>, zs: seq<real>)
    requires |ys| == |zs|
    ensures Sum(Minus(ys, zs)) == Sum(ys) - Sum(zs)
  {
    if |ys| > 0 {
      SumMinus(ys[1..], zs[1..]);
      assert Minus(ys, zs)[1..] == Minus(ys[1..], zs[1..]);
    }
  }

  lemma {:induction false} SumRepeat(xs: seq<real>, b: real)
    ensures Sum(Repeat(b, |xs|)) == Count(xs) * b
  {
    if |xs| > 0 {
      SumRepeat(xs[1..], b);
      assert Repeat(b, |xs|)[1..] == Repeat(b, |xs| - 1);
    }
  }

  datatype Fit = Fit(slope: real, intercept: real)

  /** How far one point lies above the line of slope `m` and intercept `b`. */
  function Residual(x: real, y: real, m: real, b: real): real
  {
    y - (m * x + b)
  }

  /** The residual of every point against the line. */
  function Residuals(xs: seq<real>, ys: seq<real>, m: real, b: real): (r: seq<real>)
    requires |xs| == |ys|
    ensures |r| == |xs|
    ensures forall i :: 0 <= i < |xs| ==> r[i] == Residual(xs[i], ys[i], m, b)
  {
    if |xs| == 0 then [] else [Residual(xs[0], ys[0], m, b)] + Residuals(xs[1..], ys[1..], m, b)
  }

  /** The residuals are the y values less the scaled x values less the intercept. */
  lemma {:induction false} ResidualsSplit(xs: seq<real>, ys: seq<real>, m: real, b: real)
    requires |xs| == |ys|
    ensures Residuals(xs, ys, m, b) == Minus(Minus(ys, Scale(m, xs)), Repeat(b, |xs|))
  {
    if |xs| > 0 {
      ResidualsSplit(xs[1..], ys[1..], m, b);
      assert Scale(m, xs)[1..] == Scale(m, xs[1..]);
      assert Minus(ys, Scale(m, xs))[1..] == Minus(ys[1..], Scale(m, xs[1..]));
      assert Repeat(b, |xs|)[1..] == Repeat(b, |xs| - 1);
    }
  }

  function ResidualSum(xs: seq<real>, ys: seq<real>, m: real, b: real): real
    requires |xs| == |ys|
  {
    Sum(Residuals(xs, ys, m, b))
  }

  /** The residuals weighted by their x values. */
  function WeightedResidualSum(xs: seq<real>, ys: seq<real>, m: real, b: real): real
    requires |xs| == |ys|
  {
    Dot(xs, Residuals(xs, ys, m, b))
  }

  /** The residual sum, written over the accumulated sums. */
  lemma {:induction false} ResidualSumClosed(xs: seq<real>, ys: seq<real>, m: real, b: real)
    requires |xs| == |ys|
    ensures ResidualSum(xs, ys, m, b) == Sum(ys) - m * Sum(xs) - Sum(Repeat(b, |xs|))
  {
    ResidualsSplit(xs, ys, m, b);
    SumMinus(Minus(ys, Scale(m, xs)), Repeat(b, |xs|));
    SumMinus(ys, Scale(m, xs));
    SumScale(xs, m);
  }

  /** The weighted residual sum, written over the accumulated sums. */
  lemma {:induction false} WeightedResidualSumClosed(xs: seq<real>, ys: seq<real>, m: real, b: real)
    requires |xs| == |ys|
    ensures WeightedResidualSum(xs, ys, m, b) == Dot(xs, ys) - m * Dot(xs, xs) - b * Sum(xs)
  {
    ResidualsSplit(xs, ys, m, b);
    DotMinus(xs, Minus(ys, Scale(m, xs)), Repeat(b, |xs|));
    DotMinus(xs, ys, Scale(m, xs));
    DotScale(xs, xs, m);
    DotRepeat(xs, b);
  }

  /** `m = (n*xy_sum - x_sum*y_sum) / (n*x_sq_sum - x_sum*x_sum)`, `b = (y_sum - m*x_sum) / n`. */
  function ClosedForm(n: real, sx: real, sy: real, sxy: real, sxx: real): Fit
    requires n > 0.0 && Det(n, sx, sxx) != 0.0
  {
    var m := (n * sxy - sx * sy) / Det(n, sx, sxx);
    Fit(m, (sy - m * sx) / n)
  }

  /** The first normal equation over the sums: the residuals of `n` points add up to this. */
  function Balance(n: real, sx: real, sy: real, m: real, b: real): real
  {
    sy - m * sx - n * b
  }

  /** The second normal equation over the sums: the x-weighted residuals add up to this. */
  function Moment(sx: real, sxy: real, sxx: real, m: real, b: real): real
  {
    sxy - m * sxx - b * sx
  }

  /** The closed form solves both normal equations. */
  lemma ClosedFormSolves(n: real, sx: real, sy: real, sxy: real, sxx: real, m: real, b: real)
    requires n > 0.0 && Det(n, sx, sxx) != 0.0
    requires Fit(m, b) == ClosedForm(n, sx, sy, sxy, sxx)
    ensures Balance(n, sx, sy, m, b) == 0.0
    ensures Moment(sx, sxy, sxx, m, b) == 0.0
  {
    var d := Det(n, sx, sxx);
    assert m == (n * sxy - sx * sy) / d;
    assert b == (sy - m * sx) / n;
    assert m * d == n * sxy - sx * sy;
    assert b * n == sy - m * sx;
    var r2 := sxy - m * sxx - b * sx;
    assert n * r2 == n * sxy - m * (n * sxx) - (b * n) * sx;
    assert n * r2 == (n * sxy - sx * sy) - m * d;
  }

  /** A line meeting the first normal equation leaves residuals that sum to zero. */
  lemma {:induction false} ResidualsBalance(xs: seq<real>, ys: seq<real>, m: real, b: real)
    requires |xs| == |ys|
    requires Balance(Count(xs), Sum(xs), Sum(ys), m, b) == 0.0
    ensures ResidualSum(xs, ys, m, b) == 0.0
  {
    ResidualSumClosed(xs, ys, m, b);
    SumRepeat(xs, b);
  }

  /** A line meeting the second normal equation leaves residuals orthogonal to the x values. */
  lemma ResidualsUncorrelated(xs: seq<real>, ys: seq<real>, m: real, b: real)
    requires |xs| == |ys|
    requires Moment(Sum(xs), Dot(xs, ys), Dot(xs, xs), m, b) == 0.0
    ensures WeightedResidualSum(xs, ys, m, b) == 0.0
  {
    WeightedResidualSumClosed(xs, ys, m, b);
  }

  /** The source's fit over the points. */
  function LeastSquares(xs: seq<real>, ys: seq<real>): Fit
    requires |xs| == |ys| && |xs| > 0 && Denominator(xs) != 0.0
  {
    ClosedForm(Count(xs), Sum(xs), Sum(ys), Dot(xs, ys), Dot(xs, xs))
  }

  /**
    The source's closed-form fit satisfies both normal equations of least
    squares, which characterise the least-squares line when the
    denominator is non-zero: its residuals sum to zero and are orthogonal
    to the x values.
  */
  lemma {:induction false} NormalEquations(xs: seq<real>, ys: seq<real>)
    requires |xs| == |ys| && |xs| > 0 && Denominator(xs) != 0.0
    ensures ResidualSum(xs, ys, LeastSquares(xs, ys).slope, LeastSquares(xs, ys).intercept) == 0.0
    ensures WeightedResidualSum(xs, ys, LeastSquares(xs, ys).slope, LeastSquares(xs, ys).intercept) == 0.0
  {
    var m, b := LeastSquares(xs, ys).slope, LeastSquares(xs, ys).intercept;
    ClosedFormSolves(Count(xs), Sum(xs), Sum(ys), Dot(xs, ys), Dot(xs, xs), m, b);
    ResidualsBalance(xs, ys, m, b);
    ResidualsUncorrelated(xs, ys, m, b);
  }

  /** One more point extends each of the four running sums by its own term. */
  lemma SumsStep(xs: seq<real>, ys: seq<real>, i: nat)
    requires |xs| == |ys| && i < |xs|
    ensures Sum(xs[..i + 1]) == Sum(xs[..i]) + xs[i]
    ensures Sum(ys[..i + 1]) == Sum(ys[..i]) + ys[i]
    ensures Dot(xs[..i + 1], ys[..i + 1]) == Dot(xs[..i], ys[..i]) + xs[i] * ys[i]
    ensures Dot(xs[..i + 1], xs[..i + 1]) == Dot(xs[..i], xs[..i]) + xs[i] * xs[i]
  {
    assert xs[..i + 1] == xs[..i] + [xs[i]];
    assert ys[..i + 1] == ys[..i] + [ys[i]];
    SumAppend(xs[..i], xs[i]);
    SumAppend(ys[..i], ys[i]);
    DotAppend(xs[..i], ys[..i], xs[i], ys[i]);
    DotAppend(xs[..i], xs[..i], xs[i], xs[i]);
  }

  /** The trend line of the lag chart: none, a fitted line across the lag range, or one whose slope divides zero by zero. */
  datatype TrendLine =
    | NoLine
    | Line(fit: Fit, fromX: real, toX: real)
    | Degenerate(fromX: real, toX: real)

  /**
    The loop accumulating `x_sum`, `y_sum`, `xy_sum` and `x_sq_sum`, then the
    closed-form fit. With fewer than two points no line is drawn; when every
    lag is equal the denominator is zero and JavaScript's slope is not a
    number; otherwise the line is the least-squares fit, drawn from the
    smallest to the largest lag.
  */
  method FitTrend(xs: seq<real>, ys: seq<real>) returns (line: TrendLine)
    requires |xs| == |ys|
    ensures |xs| <= 1 <==> line == NoLine
    ensures line.Degenerate? ==> Denominator(xs) == 0.0 && line.fromX == Min(xs) && line.toX == Max(xs)
    ensures line.Line? ==>
      Denominator(xs) != 0.0 && line.fromX == Min(xs) && line.toX == Max(xs) &&
      ResidualSum(xs, ys, line.fit.slope, line.fit.intercept) == 0.0 &&
      WeightedResidualSum(xs, ys, line.fit.slope, line.fit.intercept) == 0.0
  {
    var n := |xs|;
    if n <= 1 {
      return NoLine;
    }
    var xSum, ySum, xySum, xSqSum := 0.0, 0.0, 0.0, 0.0;
    var i := 0;
    while i < n
      invariant 0 <= i <= n
      invariant xSum == Sum(xs[..i]) && ySum == Sum(ys[..i])
      invariant xySum == Dot(xs[..i], ys[..i]) && xSqSum == Dot(xs[..i], xs[..i])
    {
      SumsStep(xs, ys, i);
      xSum := xSum + xs[i];
      ySum := ySum + ys[i];
      xySum := xySum + xs[i] * ys[i];
      xSqSum := xSqSum + xs[i] * xs[i];
      i := i + 1;
    }
    assert xs[..n] == xs && ys[..n] == ys;
    assert xSum == Sum(xs) && ySum == Sum(ys) && xySum == Dot(xs, ys) && xSqSum == Dot(xs, xs);
    // `n` in the arithmetic is the length as a number
    var count := Count(xs);
    var denominator := Det(count, xSum, xSqSum);
    if denominator == 0.0 {
      return Degenerate(Min(xs), Max(xs));
    }
    var fit := ClosedForm(count, xSum, ySum, xySum, xSqSum);
    NormalEquations(xs, ys);
    assert fit == LeastSquares(xs, ys);
    line := Line(fit, Min(xs), Max(xs));
  }

  /** The lag chart: the aligned points and the trend line fitted to them. */
  method LagChart(rows: seq<Record>) returns (xs: seq<real>, ys: seq<real>, line: TrendLine)
    ensures |xs| == |ys| == |Filter(rows, HasLag)|
    ensures forall i :: 0 <= i < |xs| ==>
      Some(xs[i]) == Filter(rows, HasLag)[i].casesLag1w && ys[i] == Value(Filter(rows, HasLag)[i], Cases)
    ensures line.NoLine? <==> |Filter(rows, HasLag)| <= 1
    ensures line.Line? ==>
      line.fromX == Min(xs) && line.toX == Max(xs) &&
      ResidualSum(xs, ys, line.fit.slope, line.fit.intercept) == 0.0 &&
      WeightedResidualSum(xs, ys, line.fit.slope, line.fit.intercept) == 0.0
  {
    xs, ys := LagXs(rows), LagYs(rows);
    LagAligned(rows);
    line := FitTrend(xs, ys);
  }
}
