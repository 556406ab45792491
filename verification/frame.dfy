/**
 * The sensor's data frame and `fit_piecewise_regression` (app/task_04.py).
 *
 * The frame holds the fetched `timestamp` and `sensor_value` columns. The
 * fitting step adds a `fitted` column, created as all-NaN and then written
 * segment by segment in place, and a `residual` column computed at the end
 * as `sensor_value - fitted`. NaN is `None`; arithmetic with NaN gives NaN.
 * Row labels are the positions 0 .. n - 1, as for a frame read from SQL, so
 * `loc` on a segment's labels writes the same rows `iloc` selected.
 */
module Frame {
  import opened Sums
  import opened Regression
  import opened Segmentation

  /** A numeric cell: `Some(x)` for a number, `None` for NaN. */
  datatype Option<T> = None | Some(value: T)

  /** One row of the frame once the fitting step has added its columns. */
  datatype Row = Row(timestamp: int, sensorValue: real, fitted: Option<real>, residual: Option<real>)

  /** A column of `n` NaN cells. */
  function Missing(n: nat): (col: seq<Option<real>>)
    ensures |col| == n
  {
    seq(n, _ => None)
  }

  /** The values `iloc[start:end]` selects for the k-th segment (clamped
      bounds; empty when they cross). */
  function SegmentValues(values: seq<real>, b: seq<nat>, k: nat): (y: seq<real>)
    requires k < Pairs(b)
    ensures SegmentNonEmpty(b, |values|, k) ==>
              |y| == SegmentEnd(b, |values|, k) - SegmentStart(b, |values|, k)
    ensures !SegmentNonEmpty(b, |values|, k) ==> y == []
    ensures forall i :: 0 <= i < |y| ==> y[i] == values[SegmentStart(b, |values|, k) + i]
  {
    var s, e := SegmentStart(b, |values|, k), SegmentEnd(b, |values|, k);
    if s < e then values[s..e] else []
  }

  /** The segment whose write row `j` holds after the first `p` segments have
      been written: the last of them that contains `j`, since a later write
      to the same row replaces an earlier one. */
  function FindSegment(b: seq<nat>, n: nat, p: nat, j: nat): (r: Option<nat>)
    requires p <= Pairs(b)
    ensures r.Some? ==> r.value < p && InSegment(b, n, r.value, j)
    ensures r.Some? ==> forall k :: r.value < k < p ==> !InSegment(b, n, k, j)
    ensures r.None? <==> forall k :: 0 <= k < p ==> !InSegment(b, n, k, j)
  {
    if p == 0 then None
    else if InSegment(b, n, p - 1, j) then Some(p - 1)
    else FindSegment(b, n, p - 1, j)
  }

  /** The fitted cell of row `j` after the first `p` segments: the prediction
      of the line fitted to its segment at its local index, or NaN. */
  function FittedAt(values: seq<real>, b: seq<nat>, p: nat, j: nat): Option<real>
    requires p <= Pairs(b)
  {
    match FindSegment(b, |values|, p, j)
    case None => None
    case Some(k) =>
      var y := SegmentValues(values, b, k);
      Some(Predict(FitSegment(y), (j - SegmentStart(b, |values|, k)) as real))
  }

  /** The `fitted` column after the first `p` segments have been written. */
  function FittedColumn(values: seq<real>, b: seq<nat>, p: nat): (col: seq<Option<real>>)
    requires p <= Pairs(b)
    ensures |col| == |values|
  {
    seq(|values|, j requires 0 <= j < |values| => FittedAt(values, b, p, j))
  }

  /** A row keeps its NaN exactly when none of the segments written so far
      contains it. */
  lemma UncoveredRowsMissing(values: seq<real>, b: seq<nat>, p: nat, j: nat)
    requires p <= Pairs(b) && j < |values|
    ensures FittedColumn(values, b, p)[j].None? <==> forall k :: 0 <= k < p ==> !InSegment(b, |values|, k, j)
  {
  }

  /** The `residual` column: sensor value minus fitted value, NaN where the
      fitted value is NaN. */
  function ResidualColumn(values: seq<real>, fitted: seq<Option<real>>): (res: seq<Option<real>>)
    requires |fitted| == |values|
    ensures |res| == |values|
    ensures forall j :: 0 <= j < |values| ==> (res[j].Some? <==> fitted[j].Some?)
    ensures forall j :: 0 <= j < |values| && res[j].Some? ==>
              fitted[j].value + res[j].value == values[j]
  {
    seq(|values|, j requires 0 <= j < |values| =>
      match fitted[j]
      case None => None
      case Some(f) => Some(values[j] - f))
  }

  /** The frame's rows, column by column. */
  function Table(timestamps: seq<int>, values: seq<real>, fitted: seq<Option<real>>, residual: seq<Option<real>>): (rows: seq<Row>)
    requires |timestamps| == |values| == |fitted| == |residual|
    ensures |rows| == |values|
  {
    seq(|values|, j requires 0 <= j < |values| => Row(timestamps[j], values[j], fitted[j], residual[j]))
  }

  /** Writing the k-th segment changes exactly the rows it contains. */
  lemma FittedStep(values: seq<real>, b: seq<nat>, k: nat, j: nat)
    requires k < Pairs(b)
    ensures InSegment(b, |values|, k, j) ==>
              FittedAt(values, b, k + 1, j)
              == Some(Predict(FitSegment(SegmentValues(values, b, k)), (j - SegmentStart(b, |values|, k)) as real))
    ensures !InSegment(b, |values|, k, j) ==> FittedAt(values, b, k + 1, j) == FittedAt(values, b, k, j)
  {
  }

  /** The column after segment k is written: its rows hold the segment
      line's predictions, every other row is as before. */
  lemma FittedColumnStep(values: seq<real>, b: seq<nat>, k: nat, before: seq<Option<real>>, after: seq<Option<real>>)
    requires k < Pairs(b) && SegmentNonEmpty(b, |values|, k)
    requires before == FittedColumn(values, b, k) && |after| == |values|
    requires var s, e := SegmentStart(b, |values|, k), SegmentEnd(b, |values|, k);
             forall j :: 0 <= j < |values| ==>
               after[j] == if s <= j < e then Some(Predict(FitSegment(values[s..e]), (j - s) as real)) else before[j]
    ensures after == FittedColumn(values, b, k + 1)
  {
    forall j | 0 <= j < |values|
      ensures after[j] == FittedAt(values, b, k + 1, j)
    {
      FittedStep(values, b, k, j);
    }
  }

  class SensorFrame {
    var timestamps: seq<int>
    var values: seq<real>
    var fitted: array<Option<real>>
    var residual: seq<Option<real>>

    ghost predicate Valid()
      reads this
    {
      |timestamps| == |values| == fitted.Length == |residual|
    }

    /** The frame as fetched: timestamps and sensor values; the columns the
        fitting step adds do not exist yet and read as NaN. */
    constructor (timestamps: seq<int>, values: seq<real>)
      requires |timestamps| == |values|
      ensures Valid()
      ensures this.timestamps == timestamps && this.values == values
      ensures fitted[..] == Missing(|values|) && residual == Missing(|values|)
    {
      this.timestamps := timestamps;
      this.values := values;
      fitted := new Option<real>[|values|](_ => None);
      residual := Missing(|values|);
    }

    function Rows(): (rows: seq<Row>)
      requires Valid()
      reads this, fitted
      ensures |rows| == |values|
    {
      Table(timestamps, values, fitted[..], residual)
    }

    /** One iteration of the fitting loop on a non-empty segment: fit a line
        to the segment's values against the local index and write its
        predictions into the segment's rows, leaving every other row as it
        was. */
    method WriteSegment(b: seq<nat>, k: nat)
      requires Valid() && k < Pairs(b) && SegmentNonEmpty(b, |values|, k)
      requires fitted[..] == FittedColumn(values, b, k)
      modifies fitted
      ensures Valid()
      ensures fitted[..] == FittedColumn(values, b, k + 1)
    {
      var start, end := SegmentStart(b, |values|, k), SegmentEnd(b, |values|, k);
      var line := FitSegment(values[start..end]);
      ghost var before := fitted[..];
      forall j | start <= j < end {
        fitted[j] := Some(Predict(line, (j - start) as real));
      }
      FittedColumnStep(values, b, k, before, fitted[..]);
    }

    /** `fit_piecewise_regression`: reset `fitted` to NaN, then for each
        consecutive pair of boundaries fit a line to the segment against its
        local index and write the predictions into the segment's rows;
        finally `residual := sensor_value - fitted`. An empty segment makes
        the regression library raise: the step stops there (`ok` false), with
        the rows written so far kept and no residual column formed. */
    method FitPiecewiseRegression(b: seq<nat>) returns (ok: bool)
      requires Valid()
      modifies this
      ensures Valid() && fresh(fitted)
      ensures timestamps == old(timestamps) && values == old(values)
      ensures ok <==> NonEmptyUpTo(b, |values|, Pairs(b))
      ensures ok ==> fitted[..] == FittedColumn(values, b, Pairs(b))
      ensures ok ==> residual == ResidualColumn(values, fitted[..])
      ensures !ok ==> residual == old(residual)
      ensures !ok ==> exists p :: 0 <= p < Pairs(b) && NonEmptyUpTo(b, |values|, p)
                        && !SegmentNonEmpty(b, |values|, p)
                        && fitted[..] == FittedColumn(values, b, p)
    {
      var n := |values|;
      fitted := new Option<real>[n](_ => None);
      assert fitted[..] == FittedColumn(values, b, 0);
      var k := 0;
      while k < Pairs(b)
        modifies fitted
        invariant 0 <= k <= Pairs(b)
        invariant fitted.Length == n
        invariant NonEmptyUpTo(b, n, k)
        invariant fitted[..] == FittedColumn(values, b, k)
      {
        var start, end := SegmentStart(b, n, k), SegmentEnd(b, n, k);
        if start >= end {
          assert !SegmentNonEmpty(b, n, k);
          return false;
        }
        WriteSegment(b, k);
        k := k + 1;
      }
      assert k == Pairs(b);
      residual := ResidualColumn(values, fitted[..]);
      return true;
    }
  }

  /** On a partition of the series the row at local index `i` of the k-th
      segment holds the prediction, at `i`, of the line fitted to that
      segment. */
  lemma FittedByOwnSegment(values: seq<real>, b: seq<nat>, k: nat, i: nat)
    requires IsPartition(b, |values|) && k < Pairs(b) && b[k] + i < b[k + 1]
    ensures b[k + 1] <= |values|
    ensures FittedColumn(values, b, Pairs(b))[b[k] + i]
            == Some(Predict(FitSegment(values[b[k]..b[k + 1]]), i as real))
  {
    var n, j := |values|, b[k] + i;
    PartitionSegments(b, n, k);
    var r := FindSegment(b, n, Pairs(b), j);
    assert r.Some? by {
      assert InSegment(b, n, k, j);
    }
    PartitionDisjoint(b, n, k, r.value, j);
    assert j - SegmentStart(b, n, k) == i;
  }

  /** On a partition of the series no row is left NaN: every row gets a
      fitted value and a residual, and the fitting step succeeds. */
  lemma FitCoversPartition(values: seq<real>, b: seq<nat>)
    requires IsPartition(b, |values|)
    ensures NonEmptyUpTo(b, |values|, Pairs(b))
    ensures var fitted := FittedColumn(values, b, Pairs(b));
            forall j :: 0 <= j < |values| ==>
              fitted[j].Some? && ResidualColumn(values, fitted)[j].Some?
  {
    PartitionNonEmpty(b, |values|);
    var fitted := FittedColumn(values, b, Pairs(b));
    forall j | 0 <= j < |values|
      ensures fitted[j].Some?
    {
      var k := PartitionCovers(b, |values|, j);
    }
  }

  /** On a partition, the residual cells of the k-th segment are the
      regression residuals of that segment's values. */
  lemma SegmentResidualCells(values: seq<real>, b: seq<nat>, k: nat)
    requires IsPartition(b, |values|) && k < Pairs(b)
    ensures b[k] < b[k + 1] <= |values|
    ensures var y := values[b[k]..b[k + 1]];
            var res := ResidualColumn(values, FittedColumn(values, b, Pairs(b)));
            forall i :: 0 <= i < |y| ==> res[b[k] + i] == Some(SegmentResiduals(y, FitSegment(y))[i])
  {
    PartitionSegments(b, |values|, k);
    var y := values[b[k]..b[k + 1]];
    forall i | 0 <= i < |y|
      ensures ResidualColumn(values, FittedColumn(values, b, Pairs(b)))[b[k] + i]
              == Some(SegmentResiduals(y, FitSegment(y))[i])
    {
      FittedByOwnSegment(values, b, k, i);
      ResidualCell(values, FittedColumn(values, b, Pairs(b)), b[k] + i, y, i, FitSegment(y));
    }
  }

  /** A row whose fitted value is line `l` at local index `i` of a segment
      `y` holding the row's value has that segment's i-th residual. */
  lemma ResidualCell(values: seq<real>, fitted: seq<Option<real>>, j: nat, y: seq<real>, i: nat, l: Line)
    requires |fitted| == |values| && j < |values| && i < |y|
    requires fitted[j] == Some(Predict(l, i as real)) && y[i] == values[j]
    ensures ResidualColumn(values, fitted)[j] == Some(SegmentResiduals(y, l)[i])
  {
  }

  /** On a partition, the residuals of each segment sum to zero, since each
      segment's line is fitted with an intercept. */
  lemma SegmentResidualsSumToZero(values: seq<real>, b: seq<nat>, k: nat)
    requires IsPartition(b, |values|) && k < Pairs(b)
    ensures b[k] < b[k + 1] <= |values|
    ensures var y := values[b[k]..b[k + 1]];
            var res := ResidualColumn(values, FittedColumn(values, b, Pairs(b)));
            && (forall i :: 0 <= i < |y| ==> res[b[k] + i] == Some(SegmentResiduals(y, FitSegment(y))[i]))
            && Sum(SegmentResiduals(y, FitSegment(y))) == 0.0
  {
    SegmentResidualCells(values, b, k);
    SegmentNormalEquations(values[b[k]..b[k + 1]]);
  }

  /** A segment whose values already lie on a line gets residual zero at
      every row. */
  lemma LinearSegment(values: seq<real>, b: seq<nat>, k: nat, l: Line)
    requires IsPartition(b, |values|) && k < Pairs(b) && b[k + 1] <= |values|
    requires forall j :: b[k] <= j < b[k + 1] ==> values[j] == Predict(l, (j - b[k]) as real)
    ensures var res := ResidualColumn(values, FittedColumn(values, b, Pairs(b)));
            forall j :: b[k] <= j < b[k + 1] ==> res[j] == Some(0.0)
  {
    SegmentResidualCells(values, b, k);
    var y := values[b[k]..b[k + 1]];
    forall i | 0 <= i < |y|
      ensures y[i] == Predict(l, i as real)
    {
      assert y[i] == values[b[k] + i];
    }
    SegmentExact(y, l);
    var res := ResidualColumn(values, FittedColumn(values, b, Pairs(b)));
    forall j | b[k] <= j < b[k + 1]
      ensures res[j] == Some(0.0)
    {
      assert res[b[k] + (j - b[k])] == Some(SegmentResiduals(y, FitSegment(y))[j - b[k]]);
    }
  }

  /** A one-row segment is fitted to its own value: residual zero. */
  lemma SinglePointSegment(values: seq<real>, b: seq<nat>, k: nat)
    requires IsPartition(b, |values|) && k < Pairs(b) && b[k + 1] == b[k] + 1
    ensures b[k] < |values|
    ensures var fitted := FittedColumn(values, b, Pairs(b));
            fitted[b[k]] == Some(values[b[k]])
            && ResidualColumn(values, fitted)[b[k]] == Some(0.0)
  {
    FittedByOwnSegment(values, b, k, 0);
    SegmentSinglePoint(values[b[k]..b[k + 1]]);
  }
}
