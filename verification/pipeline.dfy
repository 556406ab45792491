/**
 * `process_sensor` (app/task_04.py): change points, the origin seam,
 * piecewise fit, anomaly filter. The database fetch is replaced by the
 * timestamps and values it would return, and the PELT search by a function
 * parameter. The logging of the result, and of an error caught by the
 * `try`/`except`, is replaced by the returned outcome.
 */
module Pipeline {
  import opened Regression
  import opened Segmentation
  import opened Frame
  import opened Anomalies

  /** The threshold `process_sensor` uses: `detect_anomalies`' default. */
  const DefaultThreshold: real := 3.0

  /** What `process_sensor` logs: the anomalies found, or that it failed. */
  datatype Outcome = Failed | Reported(anomalies: seq<Anomaly>)

  /** The rows the fitting step leaves once it has written every segment of
      the boundary list `b`. */
  function FittedRows(timestamps: seq<int>, values: seq<real>, b: seq<nat>): (rows: seq<Row>)
    requires |timestamps| == |values|
    ensures |rows| == |values|
  {
    var fitted := FittedColumn(values, b, Pairs(b));
    Table(timestamps, values, fitted, ResidualColumn(values, fitted))
  }

  /** Anomaly detection for one sensor's series. It fails exactly when some
      boundary pair selects no rows (the regression library raises, the
      error is logged); otherwise it reports the anomalies of the fitted
      rows at threshold 3. On a well-formed PELT result it never fails. */
  method ProcessSensor(timestamps: seq<int>, values: seq<real>, pelt: (seq<real>, real) -> seq<nat>)
      returns (outcome: Outcome)
    requires |timestamps| == |values|
    ensures var b := WithOrigin(DetectChangePoints(values, pelt));
            outcome.Reported? <==> NonEmptyUpTo(b, |values|, Pairs(b))
    ensures var b := WithOrigin(DetectChangePoints(values, pelt));
            outcome.Reported? ==>
              outcome.anomalies == DetectAnomalies(FittedRows(timestamps, values, b), DefaultThreshold)
    ensures IsBreakpoints(DetectChangePoints(values, pelt), |values|) ==> outcome.Reported?
  {
    var frame := new SensorFrame(timestamps, values);
    var changePoints := DetectChangePoints(values, pelt);
    var b := WithOrigin(changePoints);
    if IsBreakpoints(changePoints, |values|) {
      OriginSeam(changePoints, |values|);
      PartitionNonEmpty(b, |values|);
    }
    var ok := frame.FitPiecewiseRegression(b);
    if !ok {
      return Failed;
    }
    outcome := Reported(DetectAnomalies(frame.Rows(), DefaultThreshold));
  }

  /** With a well-formed PELT result every row is fitted by exactly the
      segment containing it: no fitted value or residual stays NaN, the
      sensor values are those fetched, and each residual is the sensor value
      minus the fitted value. */
  lemma CompleteFit(timestamps: seq<int>, values: seq<real>, changePoints: seq<nat>)
    requires |timestamps| == |values|
    requires IsBreakpoints(changePoints, |values|)
    ensures var rows := FittedRows(timestamps, values, WithOrigin(changePoints));
            forall j :: 0 <= j < |rows| ==>
              && rows[j].timestamp == timestamps[j]
              && rows[j].sensorValue == values[j]
              && rows[j].fitted.Some? && rows[j].residual.Some?
              && rows[j].fitted.value + rows[j].residual.value == values[j]
  {
    var b := WithOrigin(changePoints);
    OriginSeam(changePoints, |values|);
    FitCoversPartition(values, b);
  }

  /** A series that is exactly linear on every segment of a partition has
      zero residuals everywhere and so no anomalies, whatever the threshold. */
  lemma PiecewiseLinearNoAnomalies(timestamps: seq<int>, values: seq<real>, b: seq<nat>, lines: seq<Line>, k: real)
    requires |timestamps| == |values|
    requires IsPartition(b, |values|) && |lines| == Pairs(b)
    requires forall s, j :: 0 <= s < Pairs(b) && b[s] <= j < b[s + 1] && j < |values| ==>
               values[j] == Predict(lines[s], (j - b[s]) as real)
    ensures DetectAnomalies(FittedRows(timestamps, values, b), k) == []
  {
    var rows := FittedRows(timestamps, values, b);
    var res := ResidualColumn(values, FittedColumn(values, b, Pairs(b)));
    forall j | 0 <= j < |rows| && rows[j].residual.Some?
      ensures rows[j].residual.value == 0.0
    {
      var s := PartitionCovers(b, |values|, j);
      PartitionSegments(b, |values|, s);
      LinearSegment(values, b, s, lines[s]);
      assert res[j] == Some(0.0);
    }
    ZeroResidualsNoAnomalies(rows, k);
  }
}
