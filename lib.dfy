/**
 * The free functions of the crate root: interpolated quantiles of a sorted
 * sample (qtiles) and the uniform distribution's density and distribution
 * function.
 */
module Lib {
  import opened Wrappers

  /** The largest usize of a 64-bit target. */
  const UsizeMax: nat := 0xFFFF_FFFF_FFFF_FFFF

  /**
   * A float-to-usize cast: saturating at both ends (a negative value gives
   * 0, one beyond the range gives the largest usize) and truncating toward
   * zero, which for the values in range is the floor.
   */
  function AsUsize(x: real): (r: nat)
    ensures r <= UsizeMax
    ensures x < 0.0 ==> r == 0
    ensures 0.0 <= x < UsizeMax as real ==> r as real <= x < r as real + 1.0
    ensures x >= UsizeMax as real ==> r == UsizeMax
  {
    if x < 0.0 then 0
    else if x >= UsizeMax as real then UsizeMax
    else x.Floor
  }

  // ----- qtiles -----

  /** The position q n in the sample that qtiles rounds down. */
  function Position(n: nat, q: real): real
  {
    q * n as real
  }

  /** The index nq = (q n) as usize that qtiles reads the sample at. */
  function QuantileIndex(n: nat, q: real): nat
  {
    AsUsize(Position(n, q))
  }

  /** The interpolation weight w2 = q (n + 1) - nq of the second value read. */
  function UpperWeight(n: nat, q: real): (r: real)
    ensures 0.0 <= Position(n, q) < UsizeMax as real ==> q <= r < q + 1.0
  {
    PositionStep(n, q);
    q * (n + 1) as real - QuantileIndex(n, q) as real
  }

  /** The weighted sum w1 a + w2 b with w1 = 1 - w2. */
  function Lerp(a: real, b: real, w2: real): real
  {
    (1.0 - w2) * a + w2 * b
  }

  /**
   * qtiles: the lower-tail estimate w1 x[nq-1] + w2 x[nq] and the mirrored
   * upper-tail estimate w1 x[n-nq] + w2 x[n-nq-1]; no value when nq is 0 or
   * reaches n. The sample should be sorted ascending for the pair to be
   * quantiles; the computation does not depend on it.
   */
  function Qtiles(x: seq<real>, q: real): (r: Option<(real, real)>)
    ensures r.None? <==> QuantileIndex(|x|, q) == 0 || QuantileIndex(|x|, q) >= |x|
    ensures |x| == 0 ==> r.None?
    ensures r.Some? ==> 1 <= QuantileIndex(|x|, q) < |x|
  {
    var n := |x|;
    var nq := QuantileIndex(n, q);
    if nq == 0 || nq >= n then None
    else
      var w2 := UpperWeight(n, q);
      Some((Lerp(x[nq - 1], x[nq], w2), Lerp(x[n - nq], x[n - nq - 1], w2)))
  }

  /**
   * Within the range of a usize, qtiles has a value exactly when
   * 1 <= q n < n, that is when 1 / n <= q < 1.
   */
  lemma QtilesDefinedRange(x: seq<real>, q: real)
    requires |x| <= UsizeMax
    ensures Qtiles(x, q).Some? <==> 1.0 <= Position(|x|, q) < |x| as real
  {
    var n := |x|;
    var p := Position(n, q);
    var nq := QuantileIndex(n, q);
    if 0.0 <= p < UsizeMax as real {
      assert nq as real <= p < nq as real + 1.0;
    }
  }

  /** The weight of the second value lies in [q, q + 1) whenever qtiles has a value. */
  lemma QtilesWeightRange(x: seq<real>, q: real)
    ensures |x| <= UsizeMax && Qtiles(x, q).Some? ==> q <= UpperWeight(|x|, q) < q + 1.0
  {
    var n := |x|;
    var p := Position(n, q);
    var nq := QuantileIndex(n, q);
    if n <= UsizeMax && Qtiles(x, q).Some? {
      QtilesDefinedRange(x, q);
      assert nq as real <= p < nq as real + 1.0;
      PositionStep(n, q);
    }
  }

  lemma PositionStep(n: nat, q: real)
    ensures q * (n + 1) as real == Position(n, q) + q
  {
  }

  /**
   * The weight w2 can exceed one, so that the lower estimate leaves the
   * interval [x[nq-1], x[nq]]: for [0, 1, 2] and q = 0.6, nq = 1 and
   * w2 = 1.4, and the lower estimate is 1.4, above x[1].
   */
  lemma QtilesMayExtrapolate()
    ensures QuantileIndex(3, 0.6) == 1
    ensures UpperWeight(3, 0.6) == 1.4
    ensures Qtiles([0.0, 1.0, 2.0], 0.6) == Some((1.4, 0.6))
  {
    assert AsUsize(1.8) == 1;
  }

  /** For a sorted sample and 0 <= w2 <= 1, each estimate lies between the two values it interpolates. */
  lemma QtilesInterpolates(x: seq<real>, q: real)
    requires forall i, j :: 0 <= i <= j < |x| ==> x[i] <= x[j]
    requires Qtiles(x, q).Some?
    requires 0.0 <= UpperWeight(|x|, q) <= 1.0
    ensures var n := |x|; var nq := QuantileIndex(n, q);
      x[nq - 1] <= Qtiles(x, q).value.0 <= x[nq]
      && x[n - nq - 1] <= Qtiles(x, q).value.1 <= x[n - nq]
  {
    var n := |x|;
    var nq := QuantileIndex(n, q);
    var w2 := UpperWeight(n, q);
    LerpBetween(x[nq - 1], x[nq], w2);
    LerpBetweenReversed(x[n - nq - 1], x[n - nq], w2);
  }

  /** w1 lo + w2 hi lies between lo <= hi for 0 <= w2 <= 1. */
  lemma LerpBetween(lo: real, hi: real, t: real)
    requires lo <= hi && 0.0 <= t <= 1.0
    ensures lo <= Lerp(lo, hi, t) <= hi
  {
    assert Lerp(lo, hi, t) == lo + t * (hi - lo);
    MulLeq(t, 1.0, hi - lo);
    MulLeq(0.0, t, hi - lo);
  }

  /** w1 hi + w2 lo lies between lo <= hi for 0 <= w2 <= 1. */
  lemma LerpBetweenReversed(lo: real, hi: real, t: real)
    requires lo <= hi && 0.0 <= t <= 1.0
    ensures lo <= Lerp(hi, lo, t) <= hi
  {
    assert Lerp(hi, lo, t) == hi - t * (hi - lo);
    MulLeq(t, 1.0, hi - lo);
    MulLeq(0.0, t, hi - lo);
  }

  lemma MulLeq(a: real, b: real, c: real)
    requires a <= b && c >= 0.0
    ensures a * c <= b * c
  {
  }

  /** The sample negated and reversed. */
  function Mirror(x: seq<real>): (r: seq<real>)
    ensures |r| == |x|
    ensures forall i :: 0 <= i < |x| ==> r[i] == -x[|x| - 1 - i]
  {
    seq(|x|, i requires 0 <= i < |x| => -x[|x| - 1 - i])
  }

  /**
   * The two estimates mirror each other: reversing and negating the sample
   * swaps the lower and upper estimates and negates them.
   */
  lemma QtilesMirror(x: seq<real>, q: real)
    ensures Qtiles(Mirror(x), q).None? <==> Qtiles(x, q).None?
    ensures Qtiles(x, q).Some? ==>
      Qtiles(Mirror(x), q).value == (-Qtiles(x, q).value.1, -Qtiles(x, q).value.0)
  {
    var n := |x|;
    var nq := QuantileIndex(n, q);
    if Qtiles(x, q).Some? {
      var y := Mirror(x);
      var w2 := UpperWeight(n, q);
      assert y[nq - 1] == -x[n - nq] && y[nq] == -x[n - nq - 1];
      assert y[n - nq] == -x[nq - 1] && y[n - nq - 1] == -x[nq];
      LerpNegated(x[n - nq], x[n - nq - 1], w2);
      LerpNegated(x[nq - 1], x[nq], w2);
    }
  }

  lemma LerpNegated(a: real, b: real, t: real)
    ensures Lerp(-a, -b, t) == -Lerp(a, b, t)
  {
  }

  /** A constant sample has the constant as both estimates. */
  lemma QtilesConstant(x: seq<real>, q: real, c: real)
    requires forall i :: 0 <= i < |x| ==> x[i] == c
    requires Qtiles(x, q).Some?
    ensures Qtiles(x, q).value == (c, c)
  {
    LerpConstant(c, UpperWeight(|x|, q));
  }

  lemma LerpConstant(c: real, t: real)
    ensures Lerp(c, c, t) == c
  {
  }

  /** For 1, ..., 10: q = 0.05 gives nq = 0 and no value; q = 0.5 gives nq = 5 and the pair (5.5, 5.5). */
  lemma QtilesExamples()
    ensures Qtiles([1.0, 2.0, 3.0, 4.0, 5.0, 6.0, 7.0, 8.0, 9.0, 10.0], 0.05) == None
    ensures Qtiles([1.0, 2.0, 3.0, 4.0, 5.0, 6.0, 7.0, 8.0, 9.0, 10.0], 0.5) == Some((5.5, 5.5))
  {
    assert AsUsize(0.5) == 0;
    assert AsUsize(5.0) == 5;
  }

  // ----- uniform distribution -----

  /**
   * The density of the uniform distribution on [x0, x1]: 1 / (x1 - x0) on
   * the closed interval, zero outside. At x0 = x = x1 the source divides by
   * zero; that one input is excluded.
   */
  function UniformPdf(x: real, x0: real, x1: real): (r: real)
    requires x0 <= x <= x1 ==> x0 < x1
    ensures r >= 0.0
    ensures r > 0.0 <==> x0 <= x <= x1
  {
    if x >= x0 && x <= x1 then 1.0 / (x1 - x0) else 0.0
  }

  /** The distribution function of the uniform distribution on [x0, x1]. */
  function UniformCdf(x: real, x0: real, x1: real): (r: real)
    ensures x0 <= x < x1 ==> r * (x1 - x0) == x - x0
  {
    if x < x0 then 0.0
    else if x < x1 then (x - x0) / (x1 - x0)
    else 1.0
  }

  /** The distribution function is a probability, for every interval, even an empty or reversed one. */
  lemma UniformCdfRange(x: real, x0: real, x1: real)
    ensures 0.0 <= UniformCdf(x, x0, x1) <= 1.0
    ensures x < x0 ==> UniformCdf(x, x0, x1) == 0.0
    ensures x >= x1 && x >= x0 ==> UniformCdf(x, x0, x1) == 1.0
  {
    if x0 <= x < x1 {
      QuotientInUnit(x - x0, x1 - x0);
    }
  }

  lemma QuotientInUnit(a: real, b: real)
    requires 0.0 <= a < b
    ensures 0.0 <= a / b < 1.0
  {
  }

  /** The distribution function is non-decreasing in x. */
  lemma UniformCdfMonotone(x: real, y: real, x0: real, x1: real)
    requires x <= y
    ensures UniformCdf(x, x0, x1) <= UniformCdf(y, x0, x1)
  {
    UniformCdfRange(x, x0, x1);
    UniformCdfRange(y, x0, x1);
    if x0 <= x && y < x1 {
      QuotientMonotone(x - x0, y - x0, x1 - x0);
    }
  }

  lemma QuotientMonotone(a: real, b: real, c: real)
    requires a <= b && c > 0.0
    ensures a / c <= b / c
  {
  }

  /**
   * The distribution function grows at the rate of the density: between
   * two points u <= v of [x0, x1] it rises by pdf times v - u.
   */
  lemma UniformCdfIntegratesPdf(u: real, v: real, x0: real, x1: real)
    requires x0 < x1 && x0 <= u <= v <= x1
    ensures UniformCdf(v, x0, x1) - UniformCdf(u, x0, x1) == UniformPdf(u, x0, x1) * (v - u)
  {
    var d := x1 - x0;
    assert UniformCdf(v, x0, x1) == (v - x0) / d by {
      if v == x1 {
        assert (v - x0) / d == 1.0;
      }
    }
    assert UniformCdf(u, x0, x1) == (u - x0) / d by {
      if u == x1 {
        assert (u - x0) / d == 1.0;
      }
    }
    DifferenceOfQuotients(v - x0, u - x0, d);
  }

  lemma DifferenceOfQuotients(a: real, b: real, d: real)
    requires d != 0.0
    ensures a / d - b / d == 1.0 / d * (a - b)
  {
  }

  /** The distribution on [0, 10] is one half at 5. */
  lemma UniformCdfExample()
    ensures UniformCdf(5.0, 0.0, 10.0) == 0.5
  {
  }
}
