/**
 * Change-point segmentation of one sensor's series (app/task_04.py).
 *
 * The PELT search itself belongs to the `ruptures` library and is not part of
 * this model: it appears as a function parameter whose output is assumed to
 * be a breakpoint list in the form `ruptures` documents (positive, strictly
 * increasing, ending at the series length). What is modelled is the penalty
 * handed to it, the `[0] + change_points` seam, and the segments that
 * consecutive boundaries cut out of the series, with pandas `iloc` clamping
 * of out-of-range slice bounds.
 */
module Segmentation {

  /** The PELT penalty for a series of `n` points: the larger of 10 and 1% of
      the length. As in Python's `max`, the first argument is kept on a tie. */
  function Penalty(n: nat): (pen: real)
    ensures pen >= 10.0 && pen >= n as real * 0.01
    ensures pen == 10.0 || pen == n as real * 0.01
  {
    if n as real * 0.01 > 10.0 then n as real * 0.01 else 10.0
  }

  /** The penalty stays at 10 up to 1000 points and then grows with the
      length. */
  lemma PenaltyGrowth(n: nat, n': nat)
    requires n <= n'
    ensures Penalty(n) <= Penalty(n')
    ensures n <= 1000 ==> Penalty(n) == 10.0
    ensures n >= 1000 ==> Penalty(n) == n as real * 0.01
  {
  }

  /** The change-point search: the given PELT routine applied to the values
      with the length-dependent penalty. */
  function DetectChangePoints(values: seq<real>, pelt: (seq<real>, real) -> seq<nat>): seq<nat>
  {
    pelt(values, Penalty(|values|))
  }

  predicate StrictlyIncreasing(s: seq<nat>)
  {
    forall i, j :: 0 <= i < j < |s| ==> s[i] < s[j]
  }

  /** A breakpoint list as PELT returns it for a series of `n` points: the end
      of every segment, strictly increasing, the last one being `n`. */
  predicate IsBreakpoints(cps: seq<nat>, n: nat)
  {
    |cps| > 0 && cps[0] > 0 && StrictlyIncreasing(cps) && cps[|cps| - 1] == n
  }

  /** A boundary list that tiles [0, n): it starts at 0, ends at n and
      strictly increases. */
  predicate IsPartition(b: seq<nat>, n: nat)
  {
    |b| >= 2 && b[0] == 0 && StrictlyIncreasing(b) && b[|b| - 1] == n
  }

  /** The seam in `process_sensor`: the origin 0 put in front of the
      breakpoints. */
  function WithOrigin(cps: seq<nat>): seq<nat>
  {
    [0] + cps
  }

  /** Putting 0 in front of a PELT breakpoint list gives a boundary list that
      tiles the whole series. */
  lemma OriginSeam(cps: seq<nat>, n: nat)
    requires IsBreakpoints(cps, n)
    ensures IsPartition(WithOrigin(cps), n)
    ensures Pairs(WithOrigin(cps)) == |cps|
  {
    var b := WithOrigin(cps);
    forall i, j | 0 <= i < j < |b|
      ensures b[i] < b[j]
    {
      if i > 0 {
        assert b[i] == cps[i - 1] && b[j] == cps[j - 1];
      } else {
        assert b[j] == cps[j - 1] >= cps[0];
      }
    }
  }

  /** The number of consecutive boundary pairs the fitting loop visits,
      `range(len(b) - 1)`, which is empty for an empty list. The ensures
      only expose the two cases of the body; `OriginSeam` states what they
      mean for the boundary list the pipeline builds. */
  function Pairs(b: seq<nat>): (p: nat)
    ensures |b| > 0 ==> p + 1 == |b|
    ensures |b| == 0 ==> p == 0
  {
    if |b| == 0 then 0 else |b| - 1
  }

  function Min(a: nat, b: nat): nat
  {
    if a <= b then a else b
  }

  /** First row of the k-th segment: `iloc` clamps a start past the end. */
  function SegmentStart(b: seq<nat>, n: nat, k: nat): nat
    requires k < Pairs(b)
  {
    Min(b[k], n)
  }

  /** One past the last row of the k-th segment, clamped the same way. */
  function SegmentEnd(b: seq<nat>, n: nat, k: nat): nat
    requires k < Pairs(b)
  {
    Min(b[k + 1], n)
  }

  /** Row `j` lies in the k-th segment. */
  predicate InSegment(b: seq<nat>, n: nat, k: nat, j: nat)
    requires k < Pairs(b)
  {
    SegmentStart(b, n, k) <= j < SegmentEnd(b, n, k)
  }

  /** The k-th segment has at least one row. */
  predicate SegmentNonEmpty(b: seq<nat>, n: nat, k: nat)
    requires k < Pairs(b)
  {
    SegmentStart(b, n, k) < SegmentEnd(b, n, k)
  }

  /** The first `p` segments all have rows. */
  predicate NonEmptyUpTo(b: seq<nat>, n: nat, p: nat)
    requires p <= Pairs(b)
  {
    forall k :: 0 <= k < p ==> SegmentNonEmpty(b, n, k)
  }

  /** On a partition of [0, n) no clamping happens: the k-th segment is
      exactly [b[k], b[k + 1]), and it is never empty. */
  lemma PartitionSegments(b: seq<nat>, n: nat, k: nat)
    requires IsPartition(b, n) && k < Pairs(b)
    ensures SegmentStart(b, n, k) == b[k] && SegmentEnd(b, n, k) == b[k + 1]
    ensures SegmentNonEmpty(b, n, k)
  {
    assert b[k] < b[k + 1] <= b[|b| - 1];
  }

  /** On a partition every segment has rows, so the fitting loop never meets
      an empty segment. */
  lemma PartitionNonEmpty(b: seq<nat>, n: nat)
    requires IsPartition(b, n)
    ensures NonEmptyUpTo(b, n, Pairs(b))
  {
    forall k | 0 <= k < Pairs(b)
      ensures SegmentNonEmpty(b, n, k)
    {
      PartitionSegments(b, n, k);
    }
  }

  /** Segments of a partition are pairwise disjoint. */
  lemma PartitionDisjoint(b: seq<nat>, n: nat, k: nat, k': nat, j: nat)
    requires IsPartition(b, n) && k < Pairs(b) && k' < Pairs(b)
    requires InSegment(b, n, k, j) && InSegment(b, n, k', j)
    ensures k == k'
  {
    PartitionSegments(b, n, k);
    PartitionSegments(b, n, k');
  }

  /** Segments of a partition cover [0, n): every row lies in one of them. */
  lemma {:induction false} PartitionCovers(b: seq<nat>, n: nat, j: nat) returns (k: nat)
    requires IsPartition(b, n) && j < n
    ensures k < Pairs(b) && InSegment(b, n, k, j)
  {
    var last := |b| - 2;
    PartitionSegments(b, n, last);
    if j >= b[last] {
      k := last;
    } else {
      var b' := b[..|b| - 1];
      assert b'[|b'| - 1] == b[last];
      k := PartitionCovers(b', b[last], j);
      PartitionSegments(b', b[last], k);
      PartitionSegments(b, n, k);
    }
  }
}
