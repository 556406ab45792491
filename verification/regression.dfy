/**
 * Ordinary least squares with one predictor, as `fit_piecewise_regression`
 * applies it to each segment: the response is the segment's sensor values
 * and the predictor column is the local index 0, 1, ..., len - 1. The
 * library regression is replaced by its closed form over exact reals:
 *   slope     = sum((x - mean x)(y - mean y)) / sum((x - mean x)^2)
 *               (0 when the denominator is 0, the minimum-norm solution)
 *   intercept = mean y - slope * mean x
 * The fit and its properties are stated for any predictor column; the
 * segment fit is the instance whose predictor is the local index.
 */
module Regression {
  import opened Sums

  /** A fitted line `slope * x + intercept`. */
  datatype Line = Line(slope: real, intercept: real)

  /** The value the line predicts at `x`. */
  function Predict(l: Line, x: real): real
  {
    l.slope * x + l.intercept
  }

  /** The spread of the predictor: sum((x - mean x)^2). */
  function Spread(x: seq<real>): real
    requires |x| > 0
  {
    Sum(Product(Centered(x), Centered(x)))
  }

  /** How predictor and response vary together: sum((x - mean x)(y - mean y)). */
  function Covariation(x: seq<real>, y: seq<real>): real
    requires |x| == |y| > 0
  {
    Sum(Product(Centered(x), Centered(y)))
  }

  /** The least-squares slope; 0 when the predictor has no spread. */
  function FitSlope(x: seq<real>, y: seq<real>): real
    requires |x| == |y| > 0
  {
    if Spread(x) == 0.0 then 0.0 else Covariation(x, y) / Spread(x)
  }

  /** The least-squares line through the points (x[i], y[i]): the fitted
      slope, and the intercept that puts the point of means on the line. */
  function FitLine(x: seq<real>, y: seq<real>): Line
    requires |x| == |y| > 0
  {
    var slope := FitSlope(x, y);
    Line(slope, Mean(y) - slope * Mean(x))
  }

  /** Observed minus predicted, point by point. */
  function Residuals(x: seq<real>, y: seq<real>, l: Line): (e: seq<real>)
    requires |x| == |y|
    ensures |e| == |y|
  {
    seq(|y|, i requires 0 <= i < |y| => y[i] - Predict(l, x[i]))
  }

  /** The sum of squared residuals, the quantity least squares minimises. */
  function SquaredError(x: seq<real>, y: seq<real>, l: Line): real
    requires |x| == |y|
  {
    var e := Residuals(x, y, l);
    Sum(Product(e, e))
  }

  /** The predictor column of a segment: local indices 0 .. m - 1. */
  function LocalIndices(m: nat): (x: seq<real>)
    ensures |x| == m
  {
    seq(m, i => i as real)
  }

  /** The line fitted to one segment, against its local indices. The
      definition goes through `FitSegmentAfter`, whose recursion stands for
      nothing in the pipeline: it only keeps the verifier from unfolding
      the closed form except where `FitSegmentDefinition` is invoked, which
      keeps the proofs about the frame fast. */
  function FitSegment(y: seq<real>): Line
    requires |y| > 0
  {
    FitSegmentAfter(y, 1)
  }

  /** The segment's least-squares line, reached after `steps` recursive
      steps that change nothing (a device for verification speed only). */
  function FitSegmentAfter(y: seq<real>, steps: nat): Line
    requires |y| > 0
  {
    if steps == 0 then FitLine(LocalIndices(|y|), y) else FitSegmentAfter(y, steps - 1)
  }

  /** The segment fit is the least-squares fit against the local indices. */
  lemma FitSegmentDefinition(y: seq<real>)
    requires |y| > 0
    ensures FitSegment(y) == FitLine(LocalIndices(|y|), y)
  {
    assert FitSegmentAfter(y, 0) == FitLine(LocalIndices(|y|), y);
  }

  /** The residuals of a segment against a line over its local indices. */
  function SegmentResiduals(y: seq<real>, l: Line): (e: seq<real>)
    ensures |e| == |y|
  {
    Residuals(LocalIndices(|y|), y, l)
  }

  // ---------------------------------------------------------------------
  // The closed form and the normal equations

  /** The fitted line satisfies the closed-form equations: its slope times
      sum((x - mean x)^2) is sum((x - mean x)(y - mean y)) (with zero spread
      both sides are zero), and it passes through the point of means. */
  lemma FitLineClosedForm(x: seq<real>, y: seq<real>)
    requires |x| == |y| > 0
    ensures FitLine(x, y).slope * Spread(x) == Covariation(x, y)
    ensures Predict(FitLine(x, y), Mean(x)) == Mean(y)
  {
    if Spread(x) == 0.0 {
      FlatSlope(x, y);
    } else {
      SolvedSlope(x, y);
    }
  }

  /** With a non-zero spread the fitted slope solves the closed form. */
  lemma SolvedSlope(x: seq<real>, y: seq<real>)
    requires |x| == |y| > 0
    requires Spread(x) != 0.0
    ensures FitSlope(x, y) * Spread(x) == Covariation(x, y)
  {
    QuotientTimesDivisor(Covariation(x, y), Spread(x));
  }

  /** With zero spread the slope is 0 and so is the cross sum. */
  lemma FlatSlope(x: seq<real>, y: seq<real>)
    requires |x| == |y| > 0
    requires Spread(x) == 0.0
    ensures FitSlope(x, y) * Spread(x) == Covariation(x, y)
  {
    ZeroSpreadNoCross(x, Centered(y));
  }

  /** Scalar step: (p / q) q == p for a non-zero q. */
  lemma QuotientTimesDivisor(p: real, q: real)
    requires q != 0.0
    ensures (p / q) * q == p
  {
  }

  /** Scalar step: a square is zero only at zero. */
  lemma ZeroSquare(r: real)
    requires r * r == 0.0
    ensures r == 0.0
  {
    if r > 0.0 {
      PositiveSquare(r, r * r);
    } else if r < 0.0 {
      PositiveSquare(-r, r * r);
    }
  }

  /** A predictor with zero spread is constant: every centred value is 0. */
  lemma ZeroSpread(x: seq<real>)
    requires |x| > 0
    requires Spread(x) == 0.0
    ensures forall i :: 0 <= i < |x| ==> Centered(x)[i] == 0.0
  {
    var dx := Centered(x);
    SumOfSquares(dx);
    SumOfNonnegatives(Product(dx, dx));
    forall i | 0 <= i < |x|
      ensures dx[i] == 0.0
    {
      assert Product(dx, dx)[i] == dx[i] * dx[i];
      ZeroSquare(dx[i]);
    }
  }

  /** A predictor with zero spread is orthogonal to anything. */
  lemma ZeroSpreadNoCross(x: seq<real>, t: seq<real>)
    requires |x| == |t| > 0
    requires Spread(x) == 0.0
    ensures Sum(Product(Centered(x), t)) == 0.0
  {
    var p := Product(Centered(x), t);
    ZeroSpread(x);
    forall i | 0 <= i < |p|
      ensures p[i] == 0.0 * t[i] + 0.0
    {
    }
    SumAffine(p, t, 0.0, 0.0);
  }

  /** Scalar step: y - (a x + (my - a mx)) == (y - my) - a (x - mx). */
  lemma ShiftedLine(yi: real, xi: real, a: real, mx: real, my: real)
    ensures yi - (a * xi + (my - a * mx)) == (yi - my) - a * (xi - mx)
  {
  }

  /** Every residual of a line through the point of means is the centred
      value minus slope times the centred predictor. */
  lemma ResidualsCentered(x: seq<real>, y: seq<real>, l: Line)
    requires |x| == |y| > 0
    requires l.intercept == Mean(y) - l.slope * Mean(x)
    ensures var e, dx, dy := Residuals(x, y, l), Centered(x), Centered(y);
            forall i :: 0 <= i < |e| ==> e[i] == dy[i] - l.slope * dx[i]
  {
    forall i | 0 <= i < |y|
      ensures Residuals(x, y, l)[i] == Centered(y)[i] - l.slope * Centered(x)[i]
    {
      ShiftedLine(y[i], x[i], l.slope, Mean(x), Mean(y));
    }
  }

  /** A line through the point of means leaves residuals that sum to zero. */
  lemma ResidualsSumToZero(x: seq<real>, y: seq<real>, l: Line)
    requires |x| == |y| > 0
    requires l.intercept == Mean(y) - l.slope * Mean(x)
    ensures Sum(Residuals(x, y, l)) == 0.0
  {
    ResidualsCentered(x, y, l);
    SumDifference(Residuals(x, y, l), Centered(y), Centered(x), l.slope);
    CenteredSumsToZero(x);
    CenteredSumsToZero(y);
  }

  /** For a line through the point of means,
      sum(dx e) == sum(dx dy) - slope sum(dx dx). */
  lemma CrossOfResiduals(x: seq<real>, y: seq<real>, l: Line)
    requires |x| == |y| > 0
    requires l.intercept == Mean(y) - l.slope * Mean(x)
    ensures var dx, dy := Centered(x), Centered(y);
            Sum(Product(dx, Residuals(x, y, l))) == Sum(Product(dx, dy)) - l.slope * Sum(Product(dx, dx))
  {
    ResidualsCentered(x, y, l);
    CrossOfDifference(Centered(x), Centered(y), Residuals(x, y, l), l.slope);
  }

  /** A line through the point of means whose slope solves
      slope * sum(dx^2) == sum(dx dy) leaves residuals orthogonal to the
      centred predictor. */
  lemma ResidualsOrthogonal(x: seq<real>, y: seq<real>, l: Line)
    requires |x| == |y| > 0
    requires l.slope * Spread(x) == Covariation(x, y)
    requires l.intercept == Mean(y) - l.slope * Mean(x)
    ensures Sum(Product(Centered(x), Residuals(x, y, l))) == 0.0
  {
    CrossOfResiduals(x, y, l);
  }

  /** The normal equations of the fitted line: its residuals sum to zero
      (the fit has an intercept) and are orthogonal to the centred predictor. */
  lemma NormalEquations(x: seq<real>, y: seq<real>)
    requires |x| == |y| > 0
    ensures Sum(Residuals(x, y, FitLine(x, y))) == 0.0
    ensures Sum(Product(Centered(x), Residuals(x, y, FitLine(x, y)))) == 0.0
  {
    FittedResidualsSumToZero(x, y);
    FittedResidualsOrthogonal(x, y);
  }

  lemma FittedResidualsSumToZero(x: seq<real>, y: seq<real>)
    requires |x| == |y| > 0
    ensures Sum(Residuals(x, y, FitLine(x, y))) == 0.0
  {
    FitLineClosedForm(x, y);
    ResidualsSumToZero(x, y, FitLine(x, y));
  }

  lemma FittedResidualsOrthogonal(x: seq<real>, y: seq<real>)
    requires |x| == |y| > 0
    ensures Sum(Product(Centered(x), Residuals(x, y, FitLine(x, y)))) == 0.0
  {
    FitLineClosedForm(x, y);
    ResidualsOrthogonal(x, y, FitLine(x, y));
  }

  // ---------------------------------------------------------------------
  // Optimality: the fitted line minimises the squared error

  /** The pointwise gap `da x + db` between two lines whose slopes differ by
      `da` and whose intercepts differ by `db`. */
  function Gap(da: real, db: real, x: seq<real>): (d: seq<real>)
    ensures |d| == |x|
  {
    seq(|x|, i requires 0 <= i < |x| => da * x[i] + db)
  }

  /** Scalar step: the residual against another line is the residual
      against `l` plus the gap between the two lines. */
  lemma ResidualShift(yi: real, xi: real, l: Line, other: Line)
    ensures yi - Predict(other, xi)
         == (yi - Predict(l, xi)) + ((l.slope - other.slope) * xi + (l.intercept - other.intercept))
  {
  }

  /** Residuals against another line are residuals against `l` plus the gap. */
  lemma ResidualsShift(x: seq<real>, y: seq<real>, l: Line, other: Line)
    requires |x| == |y|
    ensures forall i :: 0 <= i < |y| ==>
      Residuals(x, y, other)[i] == Residuals(x, y, l)[i] + Gap(l.slope - other.slope, l.intercept - other.intercept, x)[i]
  {
    forall i | 0 <= i < |y|
      ensures Residuals(x, y, other)[i] == Residuals(x, y, l)[i] + Gap(l.slope - other.slope, l.intercept - other.intercept, x)[i]
    {
      assert Residuals(x, y, other)[i] == y[i] - Predict(other, x[i]);
      assert Residuals(x, y, l)[i] == y[i] - Predict(l, x[i]);
      assert Gap(l.slope - other.slope, l.intercept - other.intercept, x)[i] == (l.slope - other.slope) * x[i] + (l.intercept - other.intercept);
      ResidualShift(y[i], x[i], l, other);
    }
  }

  /** Scalar step: da x + db == da (x - mx) + (da mx + db). */
  lemma GapAt(xi: real, mx: real, da: real, db: real)
    ensures da * xi + db == da * (xi - mx) + (da * mx + db)
  {
  }

  /** Scalar step: e (a d + k) == a (d e) + k e. */
  lemma Distribute(e: real, d: real, t: real, a: real, k: real)
    requires t == a * d + k
    ensures e * t == a * (d * e) + k * e
  {
  }

  /** Pointwise, a residual times the gap is `da` times the residual times
      the centred predictor, plus `da mean(x) + db` times the residual. */
  lemma GapCrossPointwise(x: seq<real>, e: seq<real>, da: real, db: real)
    requires |x| == |e| > 0
    ensures var s, p := Product(e, Gap(da, db, x)), Product(Centered(x), e);
            forall i :: 0 <= i < |s| ==> s[i] == da * p[i] + (da * Mean(x) + db) * e[i]
  {
    var d, dx := Gap(da, db, x), Centered(x);
    forall i | 0 <= i < |x|
      ensures Product(e, d)[i] == da * Product(dx, e)[i] + (da * Mean(x) + db) * e[i]
    {
      GapAt(x[i], Mean(x), da, db);
      Distribute(e[i], dx[i], d[i], da, da * Mean(x) + db);
    }
  }

  /** Residuals that sum to zero and are orthogonal to the centred
      predictor are orthogonal to every gap between two lines. */
  lemma CrossTermVanishes(x: seq<real>, e: seq<real>, da: real, db: real)
    requires |x| == |e| > 0
    requires Sum(e) == 0.0
    requires Sum(Product(Centered(x), e)) == 0.0
    ensures Sum(Product(e, Gap(da, db, x))) == 0.0
  {
    GapCrossPointwise(x, e, da, db);
    SumCombination(Product(e, Gap(da, db, x)), Product(Centered(x), e), e, da, da * Mean(x) + db);
  }

  /** Scalar step: (e + d)^2 == (e^2 + d^2) + 2 e d. */
  lemma SquareOfSum(s: real, e: real, d: real)
    requires s == e + d
    ensures s * s == 1.0 * (e * e + d * d) + 2.0 * (e * d)
  {
  }

  /** sum((e + d)^2) == sum(e^2) + sum(d^2) + 2 sum(e d). */
  lemma SquaredSumSplit(e': seq<real>, e: seq<real>, d: seq<real>)
    requires |e'| == |e| == |d|
    requires forall i :: 0 <= i < |e| ==> e'[i] == e[i] + d[i]
    ensures Sum(Product(e', e')) == Sum(Product(e, e)) + Sum(Product(d, d)) + 2.0 * Sum(Product(e, d))
  {
    var ee, dd, ed := Product(e, e), Product(d, d), Product(e, d);
    var w := seq(|e|, i requires 0 <= i < |e| => ee[i] + dd[i]);
    SumCombination(w, ee, dd, 1.0, 1.0);
    SquaresSplitPointwise(e', e, d, w);
    SumCombination(Product(e', e'), w, ed, 1.0, 2.0);
  }

  /** Pointwise (e + d)^2 == w + 2 e d where w holds e^2 + d^2. */
  lemma SquaresSplitPointwise(e': seq<real>, e: seq<real>, d: seq<real>, w: seq<real>)
    requires |e'| == |e| == |d| == |w|
    requires forall i :: 0 <= i < |e| ==> e'[i] == e[i] + d[i]
    requires forall i :: 0 <= i < |e| ==> w[i] == Product(e, e)[i] + Product(d, d)[i]
    ensures var s := Product(e', e'); forall i :: 0 <= i < |s| ==> s[i] == 1.0 * w[i] + 2.0 * Product(e, d)[i]
  {
    forall i | 0 <= i < |e|
      ensures Product(e', e')[i] == 1.0 * w[i] + 2.0 * Product(e, d)[i]
    {
      SquareOfSum(e'[i], e[i], d[i]);
    }
  }

  /** Any line satisfying the normal equations has no larger squared error
      than any other line. */
  lemma NormalEquationsMinimise(x: seq<real>, y: seq<real>, l: Line, other: Line)
    requires |x| == |y| > 0
    requires Sum(Residuals(x, y, l)) == 0.0
    requires Sum(Product(Centered(x), Residuals(x, y, l))) == 0.0
    ensures SquaredError(x, y, l) <= SquaredError(x, y, other)
  {
    var d := Gap(l.slope - other.slope, l.intercept - other.intercept, x);
    CrossTermVanishes(x, Residuals(x, y, l), l.slope - other.slope, l.intercept - other.intercept);
    ResidualsShift(x, y, l, other);
    SquaredSumSplit(Residuals(x, y, other), Residuals(x, y, l), d);
    SumOfSquares(d);
  }

  /** The fitted line is a least-squares line: no other line has a smaller
      sum of squared residuals on the same points. */
  lemma LeastSquares(x: seq<real>, y: seq<real>, other: Line)
    requires |x| == |y| > 0
    ensures SquaredError(x, y, FitLine(x, y)) <= SquaredError(x, y, other)
  {
    NormalEquations(x, y);
    NormalEquationsMinimise(x, y, FitLine(x, y), other);
  }

  // ---------------------------------------------------------------------
  // Exact fits

  /** Scalar step: dividing sy == c sx + m d by m. */
  lemma MeanOfAffine(sy: real, sx: real, m: real, c: real, d: real)
    requires m > 0.0
    requires sy == c * sx + m * d
    ensures sy / m == c * (sx / m) + d
  {
    var w := sy / m - c * (sx / m) - d;
    assert w * m == 0.0;
  }

  /** Values on a line `c x + d` have mean `c * mean(x) + d`. */
  lemma MeanOnLine(x: seq<real>, y: seq<real>, l: Line)
    requires |x| == |y| > 0
    requires forall i :: 0 <= i < |y| ==> y[i] == Predict(l, x[i])
    ensures Mean(y) == l.slope * Mean(x) + l.intercept
  {
    SumAffine(y, x, l.slope, l.intercept);
    MeanOfAffine(Sum(y), Sum(x), |y| as real, l.slope, l.intercept);
  }

  /** Scalar step: a point on the line, minus the point of means on it. */
  lemma CenteredOnLine(yi: real, xi: real, my: real, mx: real, c: real, d: real)
    requires yi == c * xi + d && my == c * mx + d
    ensures yi - my == c * (xi - mx)
  {
  }

  /** Values on a line `c x + d` deviate from their mean by `c` times the
      centred predictor. */
  lemma LinearCentered(x: seq<real>, y: seq<real>, l: Line)
    requires |x| == |y| > 0
    requires forall i :: 0 <= i < |y| ==> y[i] == Predict(l, x[i])
    ensures Mean(y) == l.slope * Mean(x) + l.intercept
    ensures var dy := Centered(y); forall i :: 0 <= i < |dy| ==> dy[i] == l.slope * Centered(x)[i]
  {
    MeanOnLine(x, y, l);
    forall i | 0 <= i < |y|
      ensures Centered(y)[i] == l.slope * Centered(x)[i]
    {
      CenteredOnLine(y[i], x[i], Mean(y), Mean(x), l.slope, l.intercept);
    }
  }

  /** Scalar step: a non-zero factor cancels. */
  lemma Cancel(a: real, b: real, q: real)
    requires q != 0.0 && a * q == b * q
    ensures a == b
  {
    assert (a - b) * q == 0.0;
  }

  /** With a non-zero spread the closed-form equations have one solution:
      a line meeting them is the fitted line. */
  lemma FitLineUnique(x: seq<real>, y: seq<real>, l: Line)
    requires |x| == |y| > 0
    requires Spread(x) != 0.0
    requires l.slope * Spread(x) == Covariation(x, y)
    requires l.intercept == Mean(y) - l.slope * Mean(x)
    ensures FitLine(x, y) == l
  {
    FitLineClosedForm(x, y);
    Cancel(FitLine(x, y).slope, l.slope, Spread(x));
  }

  /** Points on a line `c x + d`: sum(dx dy) == c sum(dx dx). */
  lemma CrossOnLine(x: seq<real>, y: seq<real>, l: Line)
    requires |x| == |y| > 0
    requires forall i :: 0 <= i < |y| ==> y[i] == Predict(l, x[i])
    ensures l.slope * Spread(x) == Covariation(x, y)
  {
    LinearCentered(x, y, l);
    ScaledCross(Centered(x), Centered(y), l.slope);
  }

  /** Points on a line with a spread-out predictor: the fit recovers the
      line. */
  lemma RecoversLine(x: seq<real>, y: seq<real>, l: Line)
    requires |x| == |y| > 0
    requires forall i :: 0 <= i < |y| ==> y[i] == Predict(l, x[i])
    requires Spread(x) != 0.0
    ensures FitLine(x, y) == l
  {
    CrossOnLine(x, y, l);
    MeanOnLine(x, y, l);
    FitLineUnique(x, y, l);
  }

  /** Points on a line over a constant predictor: the fit is the flat line
      at the mean, which is every point's value. */
  lemma FlatExact(x: seq<real>, y: seq<real>, l: Line)
    requires |x| == |y| > 0
    requires forall i :: 0 <= i < |y| ==> y[i] == Predict(l, x[i])
    requires Spread(x) == 0.0
    ensures forall i :: 0 <= i < |y| ==> Residuals(x, y, FitLine(x, y))[i] == 0.0
  {
    ZeroSpread(x);
    LinearCentered(x, y, l);
    var f := FitLine(x, y);
    assert f == Line(0.0, Mean(y));
    forall i | 0 <= i < |y|
      ensures Residuals(x, y, f)[i] == 0.0
    {
      assert Centered(x)[i] == 0.0;
      assert Centered(y)[i] == l.slope * Centered(x)[i];
    }
  }

  /** Points that already lie on a line are fitted exactly: every residual
      is zero, and when the predictor is not constant the fit recovers that
      very line. */
  lemma ExactOnLinear(x: seq<real>, y: seq<real>, l: Line)
    requires |x| == |y| > 0
    requires forall i :: 0 <= i < |y| ==> y[i] == Predict(l, x[i])
    ensures Spread(x) != 0.0 ==> FitLine(x, y) == l
    ensures forall i :: 0 <= i < |y| ==> Residuals(x, y, FitLine(x, y))[i] == 0.0
  {
    if Spread(x) != 0.0 {
      RecoversLine(x, y, l);
    } else {
      FlatExact(x, y, l);
    }
  }

  /** A single point has a centred value of zero. */
  lemma SingletonCentered(s: seq<real>)
    requires |s| == 1
    ensures Centered(s) == [0.0]
  {
    SingletonSum(s);
  }

  /** A single point is fitted by the flat line through it: slope 0,
      intercept its value, residual zero. */
  lemma SinglePoint(x: seq<real>, y: seq<real>)
    requires |x| == |y| == 1
    ensures FitLine(x, y) == Line(0.0, y[0])
    ensures Residuals(x, y, FitLine(x, y)) == [0.0]
  {
    SingletonCentered(x);
    SingletonCentered(y);
    SingletonSum(Product(Centered(x), Centered(x)));
  }

  // ---------------------------------------------------------------------
  // The segment fit: the predictor is the local index

  /** With two or more points the local indices are not all equal, so their
      spread sum((x - mean x)^2) is positive (at least one quarter): the
      first two centred indices differ by one, so one of them is at least
      one half away from zero. */
  lemma SpreadPositive(m: nat)
    requires m >= 2
    ensures Spread(LocalIndices(m)) >= 0.25
  {
    var x := LocalIndices(m);
    var dx := Centered(x);
    var p := Product(dx, dx);
    assert x[0] == 0.0 && x[1] == 1.0;
    assert dx[1] == dx[0] + 1.0;
    SumOfSquares(dx);
    var k := if dx[0] <= -0.5 then 0 else 1;
    SquareAwayFromZero(dx[k]);
    assert p[k] == dx[k] * dx[k];
    SumAtLeastTerm(p, k);
  }

  /** The segment fit's normal equations: its residuals sum to zero and are
      orthogonal to the centred local index. */
  lemma SegmentNormalEquations(y: seq<real>)
    requires |y| > 0
    ensures Sum(SegmentResiduals(y, FitSegment(y))) == 0.0
    ensures Sum(Product(Centered(LocalIndices(|y|)), SegmentResiduals(y, FitSegment(y)))) == 0.0
  {
    FitSegmentDefinition(y);
    NormalEquations(LocalIndices(|y|), y);
  }

  /** The segment fit is a least-squares line over the local indices. */
  lemma SegmentLeastSquares(y: seq<real>, other: Line)
    requires |y| > 0
    ensures SquaredError(LocalIndices(|y|), y, FitSegment(y)) <= SquaredError(LocalIndices(|y|), y, other)
  {
    FitSegmentDefinition(y);
    LeastSquares(LocalIndices(|y|), y, other);
  }

  /** A segment whose values lie on a line over the local index is fitted
      exactly: zero residuals, and with two or more points the fit is that
      line. */
  lemma SegmentExact(y: seq<real>, l: Line)
    requires |y| > 0
    requires forall i :: 0 <= i < |y| ==> y[i] == Predict(l, i as real)
    ensures |y| >= 2 ==> FitSegment(y) == l
    ensures forall i :: 0 <= i < |y| ==> SegmentResiduals(y, FitSegment(y))[i] == 0.0
  {
    var x := LocalIndices(|y|);
    forall i | 0 <= i < |y|
      ensures y[i] == Predict(l, x[i])
    {
    }
    FitSegmentDefinition(y);
    ExactOnLinear(x, y, l);
    if |y| >= 2 {
      SpreadPositive(|y|);
    }
  }

  /** A one-point segment is fitted by the flat line through its value. */
  lemma SegmentSinglePoint(y: seq<real>)
    requires |y| == 1
    ensures FitSegment(y) == Line(0.0, y[0])
    ensures SegmentResiduals(y, FitSegment(y)) == [0.0]
  {
    FitSegmentDefinition(y);
    SinglePoint(LocalIndices(1), y);
  }
}
