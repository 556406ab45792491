# Piecewise-regression anomaly detection, modelled in Dafny

This project models the per-sensor anomaly pipeline of `app/task_04.py`.
For one sensor's series of `N` readings, the pipeline works in four steps:

1. **Change points.** It asks the PELT change-point search for breakpoints,
   using the penalty `max(10, 0.01 N)`.
2. **Boundary seam.** It puts 0 in front of the breakpoints.
3. **Piecewise fit.** For every consecutive pair of boundaries it fits a
   least-squares line of value against the local index `0 .. len - 1` of
   that segment. The line's predictions go into a `fitted` column that
   starts as NaN. The step then forms `residual = sensor_value - fitted`.
4. **Anomaly filter.** It reports the rows whose absolute residual exceeds
   `threshold` (3 by default) times the population standard deviation of
   the residuals that are not NaN.

The model is split into six modules:

- `Sums` (`sums.dfy`): sums, means, centring, element-wise products and the
  population variance over exact reals. `np.mean` and `np.std` with
  ddof = 0 reduce to these.
- `Segmentation` (`segmentation.dfy`):
  - the penalty rule;
  - the change-point search as a function parameter;
  - the `[0] + change_points` seam;
  - the segments that consecutive boundaries cut out, with `iloc`'s
    clamping of out-of-range bounds;
  - the proof that the seam turns a well-formed breakpoint list into
    non-empty, disjoint segments covering `[0, N)`.
- `Regression` (`regression.dfy`): one-predictor least squares in closed
  form, stated for any predictor column. The segment fit is the instance
  whose predictor is the local index. It proves:
  - the closed-form equations and the normal equations;
  - optimality against every other line;
  - exact recovery of data that already lies on a line;
  - the one-point case.

  `FitSegment` is reached through one recursive step that changes
  nothing. That step stands for nothing in the pipeline: it only keeps the
  verifier from unfolding the closed form except where
  `FitSegmentDefinition` is invoked.
- `Frame` (`frame.dfy`): the sensor's data frame.
  - The class `SensorFrame` has a `fitted` array that
    `FitPiecewiseRegression` resets to NaN and then writes segment by
    segment in a loop.
  - The result is specified by the column `FittedColumn`, in which a later
    segment's write to a row replaces an earlier one.
  - The lemmas show that on a partition every row holds its own segment's
    prediction and its regression residual.
- `Anomalies` (`anomalies.dfy`): `dropna`, the variance of the residuals,
  the flag test and the filter that returns the flagged rows with their
  labels in order. The flag test is stated on squares:
  `r^2 > k^2 var` for `k >= 0`, proved equal to `|r| > k sigma` for the
  non-negative root `sigma`.
- `Pipeline` (`pipeline.dfy`): `process_sensor` as a method that builds
  the frame, runs the fit and filters the anomalies. It returns `Failed`
  where the source would log a caught exception.

These parts of the system become parameters of the model:

- **Breakpoints.** The PELT search is a parameter
  `pelt: (seq<real>, real) -> seq<nat>`. The breakpoint lists it documents
  (positive, strictly increasing, ending at `N`) are characterised by
  `IsBreakpoints`.
- **Fetched data.** The database result is the `timestamps` and `values`
  passed to the frame's constructor.
- **NaN.** A NaN cell is `None` in an `Option`.

## Model

| member | source | states |
|---|---|---|
| Segmentation.Penalty | app/task_04.py:33 | The penalty is at least 10 and at least 1% of the length, and it equals one of the two. |
| Segmentation.PenaltyGrowth | app/task_04.py:33 | The penalty never decreases with the length. It is 10 up to 1000 points and `0.01 N` from 1000 on. |
| Segmentation.OriginSeam | app/task_04.py:89 | Putting 0 in front of a well-formed breakpoint list yields a boundary list that starts at 0, ends at `N` and strictly increases. The loop then visits one pair per breakpoint. |
| Segmentation.PartitionSegments | app/task_04.py:46-48 | On such a boundary list, `iloc` clamps nothing: segment `k` is exactly `[b[k], b[k+1])`, and it is non-empty. |
| Segmentation.PartitionNonEmpty | app/task_04.py:46-48 | Every boundary pair of a partition selects at least one row. |
| Segmentation.PartitionDisjoint | app/task_04.py:46-48 | No row lies in two segments of a partition. |
| Segmentation.PartitionCovers | app/task_04.py:46-48 | Every row of `[0, N)` lies in some segment of a partition. |
| Sums.VarianceNonnegative | app/task_04.py:65 | The population variance (ddof = 0) is never negative. |
| Sums.VarianceOfZeros | app/task_04.py:65 | Values that are all zero have variance zero. |
| Regression.FitLineClosedForm | app/task_04.py:51-52 | The fitted slope times `sum((x - mean x)^2)` equals `sum((x - mean x)(y - mean y))`; both are 0 when the predictor has no spread. The fitted line passes through the point of means. |
| Regression.ZeroSpread | app/task_04.py:51-52 | A predictor with zero spread is constant: every centred value is 0. |
| Regression.FitLineUnique | app/task_04.py:51-52 | With a non-zero spread, any line meeting the closed-form equations is the fitted line. |
| Regression.NormalEquations | app/task_04.py:51-52 | The fitted line's residuals sum to zero and are orthogonal to the centred predictor. |
| Regression.NormalEquationsMinimise | app/task_04.py:51-52 | A line whose residuals satisfy the normal equations has a squared error no larger than that of any other line. |
| Regression.LeastSquares | app/task_04.py:51-52 | No line has a smaller sum of squared residuals than the fitted line on the same points. |
| Regression.ExactOnLinear | app/task_04.py:51-55 | If the points lie on a line, every residual of the fit is zero. If the predictor also has a spread, the fit is that line. |
| Regression.SinglePoint | app/task_04.py:51-55 | A single point is fitted by slope 0 and intercept equal to its value, with residual 0. |
| Regression.SpreadPositive | app/task_04.py:49 | The local indices `0 .. m-1` of two or more points have a spread of at least 1/4. |
| Regression.SegmentNormalEquations | app/task_04.py:49-55 | A segment's residuals sum to zero and are orthogonal to the centred local index. |
| Regression.SegmentLeastSquares | app/task_04.py:49-55 | Over its local indices, the segment's line has the least squared error of all lines. |
| Regression.SegmentExact | app/task_04.py:49-55 | A segment whose values are `a i + c` at local index `i` has all residuals zero. With two or more points, its fitted line is `(a, c)`. |
| Regression.SegmentSinglePoint | app/task_04.py:49-55 | A one-point segment is fitted by the flat line through its value, with residual 0. |
| Frame.SegmentValues | app/task_04.py:47-48 | `iloc[start:end]` holds `end - start` values starting at row `start`, and is empty when the clamped bounds cross. |
| Frame.FindSegment | app/task_04.py:46-56 | This names the segment whose write a row holds after `p` segments. It is the last of them that contains the row, and no later one contains it. There is none exactly when no segment so far contains the row. |
| Frame.UncoveredRowsMissing | app/task_04.py:45-56 | A row keeps its NaN exactly when no segment written so far contains it. |
| Frame.ResidualColumn | app/task_04.py:57 | A residual is NaN exactly when the fitted value is. Otherwise fitted plus residual is the sensor value. |
| Frame.FittedColumnStep | app/task_04.py:47-56 | Writing segment `k` turns the column after `k` segments into the column after `k + 1`. |
| Frame.SensorFrame.constructor | app/task_04.py:23 | The frame holds the fetched timestamps and values. The columns the fit adds read as NaN. |
| Frame.SensorFrame.WriteSegment | app/task_04.py:47-56 | One loop iteration on a non-empty segment advances the `fitted` array from the column after `k` segments to the column after `k + 1`. |
| Frame.SensorFrame.FitPiecewiseRegression | app/task_04.py:38-58 | See the note below the table. |
| Frame.FittedByOwnSegment | app/task_04.py:46-56 | On a partition, the row at local index `i` of segment `k` holds that segment's fitted line evaluated at `i`. |
| Frame.FitCoversPartition | app/task_04.py:45-57 | On a partition the fit succeeds and no row keeps a NaN fitted value or residual. |
| Frame.SegmentResidualCells | app/task_04.py:55-57 | On a partition, the residual cells of segment `k` are the regression residuals of that segment. |
| Frame.SegmentResidualsSumToZero | app/task_04.py:49-57 | On a partition, each segment's residual cells sum to zero. |
| Frame.LinearSegment | app/task_04.py:49-57 | A segment whose values already lie on a line over the local index gets residual 0 in every row. |
| Frame.SinglePointSegment | app/task_04.py:49-57 | A one-row segment's fitted value is its own value, and its residual is 0. |
| Anomalies.Present | app/task_04.py:65 | `dropna` yields exactly the values that occur as numbers in the column and never lengthens it. |
| Anomalies.PresentSubsequence | app/task_04.py:65 | `dropna` is the subsequence at the positions that hold a number: one value per such position, in the column's order, so repeated values are kept. |
| Anomalies.PresentOfComplete | app/task_04.py:65 | A column without NaN comes out of `dropna` unchanged. |
| Anomalies.ResidualVariance | app/task_04.py:65 | The spread is NaN exactly when no residual is present. Otherwise it is the non-negative population variance of the present residuals. |
| Anomalies.ExceedsMatchesDeviation | app/task_04.py:66 | The square-form test holds exactly when `|r| > k sigma`, for the non-negative `sigma` with `sigma^2 = var`, for every sign of `k`. |
| Anomalies.FlagAgainstDeviation | app/task_04.py:65-66 | When the spread is a number and `sigma` is its non-negative root, row `j`'s flag is set exactly when its residual is a number with `abs(residual) > k sigma`. |
| Anomalies.FlaggedPositions | app/task_04.py:71 | The positions of the flags that are set: strictly increasing, each flagged, and none missing. |
| Anomalies.DetectAnomalies | app/task_04.py:61-71 | The result is exactly the flagged rows, each with its row label and its row unchanged, in the original order. |
| Anomalies.ExceedsMonotone | app/task_04.py:66 | Under the same spread, a residual that exceeds a larger non-negative threshold also exceeds a smaller one. |
| Anomalies.ThresholdMonotone | app/task_04.py:66-71 | Raising a non-negative threshold flags no new row and never returns more rows. |
| Anomalies.ZeroResidualsNoAnomalies | app/task_04.py:65-71 | If every present residual is 0, nothing is returned, whatever the threshold. |
| Pipeline.ProcessSensor | app/task_04.py:74-104 | See the note below the table. |
| Pipeline.CompleteFit | app/task_04.py:86-89 | For a well-formed breakpoint list, every row keeps its timestamp and value and gets a fitted value and a residual that add up to the value. |
| Pipeline.PiecewiseLinearNoAnomalies | app/task_04.py:86-92 | A series that is exactly linear on every segment yields no anomalies, for any threshold. |

The definitions the rows above speak about stand for these parts of the source:

- `Regression.FitSlope` and `Regression.FitLine` (app/task_04.py:51-52): `LinearRegression().fit` on one predictor, as its closed form.
- `Regression.FitSegment` (app/task_04.py:49-52): the fit of one segment's values against `X = arange(len)`.
- `Segmentation.DetectChangePoints` (app/task_04.py:33-35): the penalty passed to the change-point search, which is a parameter.
- `Segmentation.WithOrigin` (app/task_04.py:89): `[0] + change_points`.
- `Segmentation.SegmentStart` and `Segmentation.SegmentEnd` (app/task_04.py:47-48): the `iloc` bounds, clamped to `N`.
- `Frame.FittedColumn` and `Frame.FittedAt` (app/task_04.py:45-56): the `fitted` column after the first `p` segments are written.
- `Sums.Variance` (app/task_04.py:65): the square of `np.std`, with ddof = 0.
- `Anomalies.Exceeds` and `Anomalies.IsAnomaly` (app/task_04.py:66): the test `np.abs(residual) > threshold * std`, stated on squares.
- `Anomalies.AnomalyFlags` (app/task_04.py:66): the `is_anomaly` column.
- `Pipeline.FittedRows` (app/task_04.py:89): the rows of the frame after the fit.

`Frame.SensorFrame.FitPiecewiseRegression` reports success exactly when every boundary pair selects rows. When it succeeds:

- `fitted` is the column with the last write to each row;
- `residual` is `sensor_value - fitted`;
- timestamps and values are unchanged.

When it fails, it stops at the first empty segment. The rows written so far are kept, and the residual column is not formed.

`Pipeline.ProcessSensor` fails exactly when some boundary pair of `[0] + breakpoints` selects no rows. Otherwise it reports the anomalies of the fitted rows at threshold 3. For a well-formed breakpoint list it never fails.

## Left out

- DetectChangePoints: the PELT search of the `ruptures` library (app/task_04.py:34-35) is a foreign routine. It appears as a function parameter, and only the shape of its result is described (`IsBreakpoints`). The cost model `"l2"` goes with it.
- Floating point: values are exact reals. float64 rounding in numpy, pandas and scikit-learn is not modelled.
- Library internals: `LinearRegression` is replaced by its closed-form solution. With zero spread, the slope is 0, the minimum-norm solution. `np.std` is replaced by the population variance.
- Square root: the square root of the variance is never formed. The flag test compares squares, and `Anomalies.ExceedsMatchesDeviation` ties it to the comparison with the root.
- NaN sensor values: the model's sensor values are always numbers. A missing reading, which would reach the regression library as NaN, is not modelled.
- Database fetch: `fetch_sensor_data` (app/task_04.py:10-24) is I/O. Its result is the input of the constructor and of `Pipeline.ProcessSensor`.
- Logging and entry point: logging (app/task_04.py:68-70, 79, 83, 94-101) and the command-line entry point (app/task_04.py:107-117) are output and argument parsing.
- Pipeline.ProcessSensor: the source returns nothing and logs instead. The model returns the anomalies or `Failed`. Of the exceptions the `except` at app/task_04.py:103-104 catches, only the one that matters to the pipeline's own logic is modelled: a boundary pair that selects no rows. Database and library failures are not modelled.
- The `is_anomaly` column: the column that `detect_anomalies` adds to the caller's frame (app/task_04.py:66) is not stored. The flags are a function of the rows (`Anomalies.AnomalyFlags`), and the filter returns the flagged rows.
- Row labels: they are taken to be the positions `0 .. N-1`, as for a frame read from SQL. So `loc` on a segment's labels writes the rows `iloc` selected.
- Empty series: on an empty series the code does not short-circuit. The model follows the code, so the outcome depends on what the change-point search returns.
