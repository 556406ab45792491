/**
 * `detect_anomalies` (app/task_04.py): the residual spread is the population
 * standard deviation (ddof = 0) of the residuals that are not NaN, a row is
 * an anomaly when its absolute residual exceeds `threshold` times that
 * spread, and the result is those rows, in their original order, with their
 * row labels.
 *
 * The comparison is stated on squares so that no square root is needed:
 * with `var` the variance and `sigma` its non-negative root,
 * `|r| > k * sigma` holds exactly when `Exceeds(r, k, var)` does.
 * Comparisons with NaN are false: a NaN residual, or a NaN spread (no
 * residual present at all), never flags a row.
 */
module Anomalies {
  import opened Sums
  import opened Segmentation
  import opened Frame

  /** Which cells of a column hold a number: the `notna` mask. The second
      ensures only exposes the comprehension; what the mask is for is
      proved in `PresentSubsequence`. */
  function Mask(col: seq<Option<real>>): (m: seq<bool>)
    ensures |m| == |col|
    ensures forall j :: 0 <= j < |col| ==> m[j] == col[j].Some?
  {
    seq(|col|, j requires 0 <= j < |col| => col[j].Some?)
  }

  /** `dropna`: the numbers of a column. `PresentSubsequence` shows that
      each occurs as often as in the column and in the column's order. */
  function Present(col: seq<Option<real>>): (xs: seq<real>)
    ensures |xs| <= |col|
    ensures forall x :: x in xs <==> Some(x) in col
  {
    if |col| == 0 then []
    else
      var n := |col| - 1;
      var rest := Present(col[..n]);
      assert forall c :: c in col <==> c in col[..n] || c == col[n];
      match col[n]
      case None => rest
      case Some(x) => rest + [x]
  }

  /** `xs` is the subsequence of `col` at the positions `ps`: each `xs[i]`
      is the number held at `col[ps[i]]`. */
  predicate Picks(xs: seq<real>, col: seq<Option<real>>, ps: seq<nat>)
  {
    |xs| == |ps| &&
    forall i :: 0 <= i < |xs| ==> ps[i] < |col| && col[ps[i]].Some? && xs[i] == col[ps[i]].value
  }

  /** `dropna` keeps the subsequence of the column at the positions the
      `notna` mask sets: one number per such position, in order. */
  lemma {:induction false} PresentSubsequence(col: seq<Option<real>>)
    ensures Picks(Present(col), col, FlaggedPositions(Mask(col)))
  {
    if |col| > 0 {
      var n := |col| - 1;
      PresentSubsequence(col[..n]);
      MaskStep(col);
      PicksExtend(Present(col[..n]), col, FlaggedPositions(Mask(col[..n])));
    }
  }

  /** A subsequence of all but the last cell is one of the whole column, and
      stays one when the last cell's number is appended at its position. */
  lemma PicksExtend(xs: seq<real>, col: seq<Option<real>>, ps: seq<nat>)
    requires |col| > 0
    requires Picks(xs, col[..|col| - 1], ps)
    ensures Picks(xs, col, ps)
    ensures col[|col| - 1].Some? ==> Picks(xs + [col[|col| - 1].value], col, ps + [|col| - 1])
  {
  }

  /** The mask positions of a column are those of all but its last cell,
      followed by the last position when that cell holds a number. */
  lemma MaskStep(col: seq<Option<real>>)
    requires |col| > 0
    ensures var n := |col| - 1; var qs := FlaggedPositions(Mask(col[..n]));
            FlaggedPositions(Mask(col)) == if col[n].Some? then qs + [n] else qs
  {
    assert Mask(col[..|col| - 1]) == Mask(col)[..|col| - 1];
  }

  /** A column without NaN loses nothing to `dropna`. */
  lemma {:induction false} PresentOfComplete(col: seq<Option<real>>)
    requires forall j :: 0 <= j < |col| ==> col[j].Some?
    ensures var xs := Present(col);
            |xs| == |col| && forall j :: 0 <= j < |col| ==> xs[j] == col[j].value
  {
    if |col| > 0 {
      PresentOfComplete(col[..|col| - 1]);
    }
  }

  /** The residual column of a table of rows. */
  function ResidualsOf(rows: seq<Row>): (col: seq<Option<real>>)
    ensures |col| == |rows|
  {
    seq(|rows|, j requires 0 <= j < |rows| => rows[j].residual)
  }

  /** The square of `np.std(residual.dropna())`: the population variance of
      the present residuals, NaN when there are none. */
  function ResidualVariance(col: seq<Option<real>>): (v: Option<real>)
    ensures v.None? <==> forall j :: 0 <= j < |col| ==> col[j].None?
    ensures v.Some? ==> v.value >= 0.0
  {
    var xs := Present(col);
    if |xs| == 0 then
      assert forall j :: 0 <= j < |col| ==> col[j] in col;
      None
    else
      assert xs[0] in xs;
      VarianceNonnegative(xs);
      Some(Variance(xs))
  }

  function Abs(r: real): real
  {
    if r < 0.0 then -r else r
  }

  /** `|r| > k * sigma` for the standard deviation `sigma` whose square is
      `v`, without the square root. */
  predicate Exceeds(r: real, k: real, v: real)
  {
    if k >= 0.0 then r * r > k * k * v else v > 0.0 || r != 0.0
  }

  /** A row is an anomaly when its residual and the spread are numbers and
      the residual exceeds `k` standard deviations. */
  predicate IsAnomaly(residual: Option<real>, k: real, v: Option<real>)
  {
    residual.Some? && v.Some? && Exceeds(residual.value, k, v.value)
  }

  /** The `is_anomaly` column. The second ensures only exposes the
      comprehension; `FlagAgainstDeviation` states what a flag means. */
  function AnomalyFlags(rows: seq<Row>, k: real): (flags: seq<bool>)
    ensures |flags| == |rows|
    ensures forall j :: 0 <= j < |rows| ==>
              flags[j] == IsAnomaly(rows[j].residual, k, ResidualVariance(ResidualsOf(rows)))
  {
    var v := ResidualVariance(ResidualsOf(rows));
    seq(|rows|, j requires 0 <= j < |rows| => IsAnomaly(rows[j].residual, k, v))
  }

  /** The positions holding `true`, in increasing order. */
  function FlaggedPositions(flags: seq<bool>): (ps: seq<nat>)
    ensures StrictlyIncreasing(ps)
    ensures forall i :: 0 <= i < |ps| ==> ps[i] < |flags| && flags[ps[i]]
    ensures forall j :: 0 <= j < |flags| && flags[j] ==> j in ps
  {
    if |flags| == 0 then []
    else
      var n := |flags| - 1;
      var rest := FlaggedPositions(flags[..n]);
      if flags[n] then rest + [n] else rest
  }

  /** A returned row together with its row label. */
  datatype Anomaly = Anomaly(position: nat, row: Row)

  /** `data[data["is_anomaly"]]`: exactly the rows whose residual exceeds
      `k` standard deviations, each with its label, in the original order. */
  function DetectAnomalies(rows: seq<Row>, k: real): (out: seq<Anomaly>)
    ensures var v := ResidualVariance(ResidualsOf(rows));
            forall i :: 0 <= i < |out| ==>
              && out[i].position < |rows|
              && out[i].row == rows[out[i].position]
              && IsAnomaly(rows[out[i].position].residual, k, v)
    ensures var v := ResidualVariance(ResidualsOf(rows));
            forall j :: 0 <= j < |rows| && IsAnomaly(rows[j].residual, k, v) ==>
              exists i :: 0 <= i < |out| && out[i].position == j
    ensures forall i, i' :: 0 <= i < i' < |out| ==> out[i].position < out[i'].position
  {
    var flags := AnomalyFlags(rows, k);
    var ps := FlaggedPositions(flags);
    var out := seq(|ps|, i requires 0 <= i < |ps| => Anomaly(ps[i], rows[ps[i]]));
    forall j | 0 <= j < |rows| && flags[j]
      ensures exists i :: 0 <= i < |out| && out[i].position == j
    {
      assert j in ps;
      var i :| 0 <= i < |ps| && ps[i] == j;
      assert out[i].position == j;
    }
    out
  }

  /** Products of non-negative numbers are non-negative. */
  lemma NonnegativeProduct(u: real, w: real)
    requires u >= 0.0 && w >= 0.0
    ensures u * w >= 0.0
  {
  }

  /** Products of positive numbers are positive. */
  lemma PositiveProduct(u: real, w: real)
    requires u > 0.0 && w > 0.0
    ensures u * w > 0.0
  {
  }

  /** For non-negative `b`, `a > b` exactly when `a * a > b * b`. */
  lemma CompareSquares(a: real, b: real)
    requires a >= 0.0 && b >= 0.0
    ensures a > b <==> a * a > b * b
  {
    if a > b {
      PositiveProduct(a - b, a + b);
      assert (a - b) * (a + b) == a * a - b * b;
    } else {
      NonnegativeProduct(b - a, a + b);
      assert (b - a) * (a + b) == b * b - a * a;
    }
  }

  /** The square form agrees with the comparison against the standard
      deviation itself: for `sigma >= 0` with `sigma * sigma == v`,
      `Exceeds(r, k, v)` holds exactly when `|r| > k * sigma`. */
  lemma ExceedsMatchesDeviation(r: real, k: real, v: real, sigma: real)
    requires sigma >= 0.0 && sigma * sigma == v
    ensures Exceeds(r, k, v) <==> Abs(r) > k * sigma
  {
    if k >= 0.0 {
      NonnegativeProduct(k, sigma);
      CompareSquares(Abs(r), k * sigma);
      assert Abs(r) * Abs(r) == r * r;
      assert (k * sigma) * (k * sigma) == k * k * v;
    } else if sigma > 0.0 {
      PositiveSquare(sigma, v);
      PositiveProduct(-k, sigma);
    } else {
      assert v == 0.0;
    }
  }

  /** Line 66's test on one row: for the non-negative standard deviation
      `sigma` of the present residuals, row `j` is flagged exactly when its
      residual is a number whose absolute value exceeds `k * sigma`. */
  lemma FlagAgainstDeviation(rows: seq<Row>, k: real, j: nat, sigma: real)
    requires j < |rows|
    requires var v := ResidualVariance(ResidualsOf(rows));
             v.Some? && sigma >= 0.0 && sigma * sigma == v.value
    ensures AnomalyFlags(rows, k)[j] <==>
              rows[j].residual.Some? && Abs(rows[j].residual.value) > k * sigma
  {
    if rows[j].residual.Some? {
      ExceedsMatchesDeviation(rows[j].residual.value, k, ResidualVariance(ResidualsOf(rows)).value, sigma);
    }
  }

  /** A larger threshold flags no row that a smaller one leaves out. */
  lemma ExceedsMonotone(r: real, k1: real, k2: real, v: real)
    requires 0.0 <= k1 <= k2 && v >= 0.0
    ensures Exceeds(r, k2, v) ==> Exceeds(r, k1, v)
  {
    NonnegativeProduct(k2 - k1, k2 + k1);
    assert (k2 - k1) * (k2 + k1) == k2 * k2 - k1 * k1;
    NonnegativeProduct(k2 * k2 - k1 * k1, v);
    assert (k2 * k2 - k1 * k1) * v == k2 * k2 * v - k1 * k1 * v;
  }

  /** Fewer flags give fewer positions. */
  lemma {:induction false} FewerFlags(f1: seq<bool>, f2: seq<bool>)
    requires |f1| == |f2|
    requires forall j :: 0 <= j < |f2| && f2[j] ==> f1[j]
    ensures |FlaggedPositions(f2)| <= |FlaggedPositions(f1)|
  {
    if |f1| > 0 {
      var n := |f1| - 1;
      FewerFlags(f1[..n], f2[..n]);
    }
  }

  /** Without a flag there is no position. */
  lemma {:induction false} NoFlags(flags: seq<bool>)
    requires forall j :: 0 <= j < |flags| ==> !flags[j]
    ensures FlaggedPositions(flags) == []
  {
    if |flags| > 0 {
      NoFlags(flags[..|flags| - 1]);
    }
  }

  /** Raising the threshold (from a non-negative one, the spread being fixed
      by the rows) never adds an anomaly: every row flagged at `k2` is
      flagged at `k1`, and there are no more of them. */
  lemma ThresholdMonotone(rows: seq<Row>, k1: real, k2: real)
    requires 0.0 <= k1 <= k2
    ensures var v := ResidualVariance(ResidualsOf(rows));
            forall j :: 0 <= j < |rows| && IsAnomaly(rows[j].residual, k2, v) ==>
              IsAnomaly(rows[j].residual, k1, v)
    ensures |DetectAnomalies(rows, k2)| <= |DetectAnomalies(rows, k1)|
  {
    var v := ResidualVariance(ResidualsOf(rows));
    forall j | 0 <= j < |rows| && IsAnomaly(rows[j].residual, k2, v)
      ensures IsAnomaly(rows[j].residual, k1, v)
    {
      ExceedsMonotone(rows[j].residual.value, k1, k2, v.value);
    }
    FewerFlags(AnomalyFlags(rows, k1), AnomalyFlags(rows, k2));
  }

  /** When every present residual is zero no row is an anomaly, whatever the
      threshold: the spread is zero and no residual exceeds it. */
  lemma ZeroResidualsNoAnomalies(rows: seq<Row>, k: real)
    requires forall j :: 0 <= j < |rows| && rows[j].residual.Some? ==> rows[j].residual.value == 0.0
    ensures DetectAnomalies(rows, k) == []
  {
    var col := ResidualsOf(rows);
    var xs := Present(col);
    var v := ResidualVariance(col);
    if v.Some? {
      forall i | 0 <= i < |xs|
        ensures xs[i] == 0.0
      {
        assert xs[i] in xs;
      }
      VarianceOfZeros(xs);
      assert v.value == 0.0;
    }
    NoFlags(AnomalyFlags(rows, k));
  }
}
