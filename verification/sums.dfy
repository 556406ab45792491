/**
 * Finite sums over sequences of reals, and the mean and population variance
 * built on them. These are the exact-arithmetic stand-ins for the numpy
 * reductions the pipeline uses (mean, sum of products, `np.std` with ddof = 0).
 */
module Sums {

  /** The sum of all elements. */
  function Sum(s: seq<real>): real
  {
    SumTo(s, |s|)
  }

  /** The sum of the first `n` elements, accumulated from the front. */
  function SumTo(s: seq<real>, n: nat): real
    requires n <= |s|
  {
    if n == 0 then 0.0 else SumTo(s, n - 1) + s[n - 1]
  }

  /** Arithmetic mean. */
  function Mean(s: seq<real>): real
    requires |s| > 0
  {
    Sum(s) / |s| as real
  }

  /** Each element minus the mean. */
  function Centered(s: seq<real>): (c: seq<real>)
    requires |s| > 0
    ensures |c| == |s|
  {
    var m := Mean(s);
    seq(|s|, i requires 0 <= i < |s| => s[i] - m)
  }

  /** Element-wise product of two sequences of the same length. */
  function Product(s: seq<real>, t: seq<real>): (p: seq<real>)
    requires |s| == |t|
    ensures |p| == |s|
  {
    seq(|s|, i requires 0 <= i < |s| => s[i] * t[i])
  }

  /** Population variance: the mean squared deviation (divisor |s|, ddof = 0). */
  function Variance(s: seq<real>): real
    requires |s| > 0
  {
    var c := Centered(s);
    Mean(Product(c, c))
  }

  /** Sums are linear: a sequence that is pointwise `a * t[i] + c` sums to
      `a * Sum(t) + |s| * c`. */
  lemma SumAffine(s: seq<real>, t: seq<real>, a: real, c: real)
    requires |s| == |t|
    requires forall i :: 0 <= i < |s| ==> s[i] == a * t[i] + c
    ensures Sum(s) == a * Sum(t) + |s| as real * c
  {
    AffineTo(s, t, a, c, |s|);
  }

  /** The same for the first `n` elements, by induction on `n`. */
  lemma {:induction false} AffineTo(s: seq<real>, t: seq<real>, a: real, c: real, n: nat)
    requires n <= |s| == |t|
    requires forall i :: 0 <= i < |s| ==> s[i] == a * t[i] + c
    ensures SumTo(s, n) == a * SumTo(t, n) + n as real * c
  {
    if n > 0 {
      AffineTo(s, t, a, c, n - 1);
    }
  }

  /** A sequence that is pointwise a combination of two others sums to the
      same combination of their sums. */
  lemma SumCombination(s: seq<real>, t: seq<real>, u: seq<real>, a: real, b: real)
    requires |s| == |t| == |u|
    requires forall i :: 0 <= i < |s| ==> s[i] == a * t[i] + b * u[i]
    ensures Sum(s) == a * Sum(t) + b * Sum(u)
  {
    CombinationTo(s, t, u, a, b, |s|);
  }

  /** The same for the first `n` elements, by induction on `n`. */
  lemma {:induction false} CombinationTo(s: seq<real>, t: seq<real>, u: seq<real>, a: real, b: real, n: nat)
    requires n <= |s| == |t| == |u|
    requires forall i :: 0 <= i < |s| ==> s[i] == a * t[i] + b * u[i]
    ensures SumTo(s, n) == a * SumTo(t, n) + b * SumTo(u, n)
  {
    if n > 0 {
      CombinationTo(s, t, u, a, b, n - 1);
    }
  }

  /** A sequence that is pointwise `t[i] - a * u[i]` sums to
      `Sum(t) - a * Sum(u)`. */
  lemma SumDifference(s: seq<real>, t: seq<real>, u: seq<real>, a: real)
    requires |s| == |t| == |u|
    requires forall i :: 0 <= i < |s| ==> s[i] == t[i] - a * u[i]
    ensures Sum(s) == Sum(t) - a * Sum(u)
  {
    DifferenceTo(s, t, u, a, |s|);
  }

  /** The same for the first `n` elements, by induction on `n`. */
  lemma {:induction false} DifferenceTo(s: seq<real>, t: seq<real>, u: seq<real>, a: real, n: nat)
    requires n <= |s| == |t| == |u|
    requires forall i :: 0 <= i < |s| ==> s[i] == t[i] - a * u[i]
    ensures SumTo(s, n) == SumTo(t, n) - a * SumTo(u, n)
  {
    if n > 0 {
      DifferenceTo(s, t, u, a, n - 1);
    }
  }

  /** If e is pointwise `t - a d`, then sum(d e) == sum(d t) - a sum(d d). */
  lemma CrossOfDifference(d: seq<real>, t: seq<real>, e: seq<real>, a: real)
    requires |d| == |t| == |e|
    requires forall i :: 0 <= i < |e| ==> e[i] == t[i] - a * d[i]
    ensures Sum(Product(d, e)) == Sum(Product(d, t)) - a * Sum(Product(d, d))
  {
    var de, dt, dd := Product(d, e), Product(d, t), Product(d, d);
    forall i | 0 <= i < |de|
      ensures de[i] == dt[i] - a * dd[i]
    {
      assert de[i] == d[i] * (t[i] - a * d[i]);
    }
    SumDifference(de, dt, dd, a);
  }

  /** If t is pointwise `c d`, then sum(d t) == c sum(d d). */
  lemma ScaledCross(d: seq<real>, t: seq<real>, c: real)
    requires |d| == |t|
    requires forall i :: 0 <= i < |t| ==> t[i] == c * d[i]
    ensures Sum(Product(d, t)) == c * Sum(Product(d, d))
  {
    var dt, dd := Product(d, t), Product(d, d);
    forall i | 0 <= i < |dt|
      ensures dt[i] == c * dd[i]
    {
      assert dt[i] == d[i] * (c * d[i]);
    }
    SumAffine(dt, dd, c, 0.0);
  }

  /** A sum of non-negative terms is non-negative, and it is zero only when
      every term is zero. */
  lemma SumOfNonnegatives(s: seq<real>)
    requires forall i :: 0 <= i < |s| ==> s[i] >= 0.0
    ensures Sum(s) >= 0.0
    ensures Sum(s) == 0.0 ==> forall i :: 0 <= i < |s| ==> s[i] == 0.0
  {
    NonnegativesTo(s, |s|);
  }

  /** The same for the first `n` elements, by induction on `n`. */
  lemma {:induction false} NonnegativesTo(s: seq<real>, n: nat)
    requires n <= |s|
    requires forall i :: 0 <= i < |s| ==> s[i] >= 0.0
    ensures SumTo(s, n) >= 0.0
    ensures SumTo(s, n) == 0.0 ==> forall i :: 0 <= i < n ==> s[i] == 0.0
  {
    if n > 0 {
      NonnegativesTo(s, n - 1);
    }
  }

  /** A sum of non-negative terms is at least any one of them. */
  lemma SumAtLeastTerm(s: seq<real>, k: nat)
    requires k < |s|
    requires forall i :: 0 <= i < |s| ==> s[i] >= 0.0
    ensures Sum(s) >= s[k]
  {
    AtLeastTermTo(s, k, |s|);
  }

  /** The same for the first `n` elements, by induction on `n`. */
  lemma {:induction false} AtLeastTermTo(s: seq<real>, k: nat, n: nat)
    requires k < n <= |s|
    requires forall i :: 0 <= i < |s| ==> s[i] >= 0.0
    ensures SumTo(s, n) >= s[k]
  {
    NonnegativesTo(s, n - 1);
    if k < n - 1 {
      AtLeastTermTo(s, k, n - 1);
    }
  }

  /** A sum of squares is non-negative. */
  lemma SumOfSquares(s: seq<real>)
    ensures var p := Product(s, s); forall i :: 0 <= i < |p| ==> p[i] >= 0.0
    ensures Sum(Product(s, s)) >= 0.0
  {
    var p := Product(s, s);
    forall i | 0 <= i < |s|
      ensures p[i] >= 0.0
    {
      assert p[i] == s[i] * s[i];
    }
    SumOfNonnegatives(p);
  }

  /** A number at least one half away from zero has a square of at least one
      quarter. */
  lemma SquareAwayFromZero(r: real)
    requires r >= 0.5 || r <= -0.5
    ensures r * r >= 0.25
  {
    if r >= 0.5 {
      assert (r - 0.5) * (r - 0.5) >= 0.0;
    } else {
      assert (r + 0.5) * (r + 0.5) >= 0.0;
    }
  }

  /** The square of a positive number is positive. */
  lemma PositiveSquare(s: real, v: real)
    requires s > 0.0 && s * s == v
    ensures v > 0.0
  {
    assert v / s == s;
  }

  /** A sequence of one element sums to that element. */
  lemma SingletonSum(s: seq<real>)
    requires |s| == 1
    ensures Sum(s) == s[0]
  {
    assert SumTo(s, 1) == SumTo(s, 0) + s[0];
  }

  /** Deviations from the mean cancel out. */
  lemma CenteredSumsToZero(s: seq<real>)
    requires |s| > 0
    ensures Sum(Centered(s)) == 0.0
  {
    SumAffine(Centered(s), s, 1.0, -Mean(s));
  }

  /** The variance is never negative. */
  lemma VarianceNonnegative(s: seq<real>)
    requires |s| > 0
    ensures Variance(s) >= 0.0
  {
    SumOfSquares(Centered(s));
  }

  /** A sequence of zeros has variance zero. */
  lemma VarianceOfZeros(s: seq<real>)
    requires |s| > 0
    requires forall i :: 0 <= i < |s| ==> s[i] == 0.0
    ensures Variance(s) == 0.0
  {
    SumAffine(s, s, 0.0, 0.0);
    var c := Centered(s);
    SumAffine(Product(c, c), c, 0.0, 0.0);
  }
}
