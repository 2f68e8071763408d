/**
 * Combining measurements: the mean and error bar of a plain sample (steb0),
 * of a weighted sample (steb1), and of measurements that carry their own
 * error bars (steb2). steb1 and steb2 normalise the caller's weight array in
 * place.
 *
 * The error bar is reported squared: the square root the source takes last
 * is not part of this model.
 */
module Steb {
  import opened Wrappers

  /** A mean value and the square of its error bar. */
  datatype Estimate = Estimate(mean: real, errorSq: real)

  /** Why a combination has no value. */
  datatype Error =
    | TooFewSamples                                    // the n - 1 divisor would be zero (or below)
    | LengthMismatch(dataLength: nat, weightLength: nat)
    | ZeroWeightSum                                    // the weights cannot be normalised
    | EmptyWeights                                     // steb2 cannot read its first weight
    | ZeroErrorBar(index: nat)                         // a weight 1 / eb^2 would divide by zero

  function Min(a: nat, b: nat): nat { if a <= b then a else b }

  function Sq(x: real): (r: real)
    ensures r >= 0.0
  {
    x * x
  }

  /** The sum of s, adding from the left as an iterator sum does. */
  function Sum(s: seq<real>): real
    decreases |s|
  {
    if |s| == 0 then 0.0 else Sum(s[..|s| - 1]) + s[|s| - 1]
  }

  /** The sum of the squared deviations (x - m)^2 of the elements of s. */
  function SumSqDev(s: seq<real>, m: real): (r: real)
    decreases |s|
    ensures r >= 0.0
  {
    if |s| == 0 then 0.0 else SumSqDev(s[..|s| - 1], m) + Sq(s[|s| - 1] - m)
  }

  /** The pairs of a and b up to the shorter of the two, as an iterator zip yields them. */
  function Zip(a: seq<real>, b: seq<real>): (z: seq<(real, real)>)
    ensures |z| == Min(|a|, |b|)
    ensures forall i :: 0 <= i < |z| ==> z[i] == (a[i], b[i])
  {
    seq(Min(|a|, |b|), i requires 0 <= i < Min(|a|, |b|) => (a[i], b[i]))
  }

  /** The fold acc + x * y over the pairs (x, y): a weighted sum. */
  function SumProducts(z: seq<(real, real)>): real
    decreases |z|
  {
    if |z| == 0 then 0.0 else SumProducts(z[..|z| - 1]) + z[|z| - 1].0 * z[|z| - 1].1
  }

  /** The fold acc + y * (x - m)^2 over the pairs (x, y): a weighted spread around m. */
  function SumWeightedSqDev(z: seq<(real, real)>, m: real): real
    decreases |z|
  {
    if |z| == 0 then 0.0
    else
      var (x, y) := z[|z| - 1];
      SumWeightedSqDev(z[..|z| - 1], m) + y * Sq(x - m)
  }

  /** The fold acc + x^2 * y^2 over the pairs (x, y): error bars combined in quadrature. */
  function SumQuadrature(z: seq<(real, real)>): (r: real)
    decreases |z|
    ensures r >= 0.0
  {
    if |z| == 0 then 0.0
    else
      var (x, y) := z[|z| - 1];
      SumQuadrature(z[..|z| - 1]) + Sq(x) * Sq(y)
  }

  /** Every element of s divided by c, as the normalisation loops leave the weights. */
  function Scaled(s: seq<real>, c: real): (r: seq<real>)
    requires c != 0.0
    ensures |r| == |s|
    ensures forall i :: 0 <= i < |s| ==> r[i] == s[i] / c
  {
    seq(|s|, i requires 0 <= i < |s| => s[i] / c)
  }

  // ----- steb0 -----

  /**
   * steb0: the mean of the data and the squared error bar of that mean,
   * which is the unbiased variance (n - 1 divisor) divided by n. With fewer
   * than two values the source divides by zero; here that is TooFewSamples.
   */
  function Steb0(data: seq<real>): (r: Result<Estimate, Error>)
    ensures r.Success? <==> |data| >= 2
    ensures r.Failure? ==> r.error == TooFewSamples
    ensures r.Success? ==> r.value.errorSq >= 0.0
  {
    if |data| < 2 then Failure(TooFewSamples)
    else
      var n := |data| as real;
      var xm := Sum(data) / n;
      var xv := SumSqDev(data, xm) / (n - 1.0);
      var xe2 := xv / n;
      QuotientOfQuotient(SumSqDev(data, xm), n - 1.0, n);
      Success(Estimate(xm, xe2))
  }

  /**
   * The mean of steb0 times n is the sum of the data, and its squared error
   * bar times n (n - 1) is the sum of the squared deviations from the mean.
   */
  lemma Steb0Moments(data: seq<real>, m: real, e: real)
    requires Steb0(data) == Success(Estimate(m, e))
    ensures m * |data| as real == Sum(data)
    ensures e * (|data| as real * (|data| as real - 1.0)) == SumSqDev(data, m)
  {
    ProductForms(m, Sum(data), |data| as real, e, SumSqDev(data, m));
  }

  lemma ProductForms(m: real, s: real, n: real, e: real, a: real)
    requires n >= 2.0 && m == s / n && e == a / (n - 1.0) / n
    ensures m * n == s && e * (n * (n - 1.0)) == a
  {
    QuotientTimes(s, n);
    QuotientOfQuotient(a, n - 1.0, n);
  }

  lemma QuotientTimes(a: real, b: real)
    requires b != 0.0
    ensures a / b * b == a
  {
  }

  lemma QuotientOfQuotient(a: real, b: real, c: real)
    requires b > 0.0 && c > 0.0
    ensures a / b / c * (c * b) == a
    ensures a >= 0.0 ==> a / b / c >= 0.0
  {
  }

  /** Every element of s plus c. */
  function Shift(s: seq<real>, c: real): (r: seq<real>)
    ensures |r| == |s|
    ensures forall i :: 0 <= i < |s| ==> r[i] == s[i] + c
  {
    seq(|s|, i requires 0 <= i < |s| => s[i] + c)
  }

  lemma {:induction false} SumShift(s: seq<real>, c: real)
    ensures Sum(Shift(s, c)) == Sum(s) + |s| as real * c
    decreases |s|
  {
    if |s| > 0 {
      var n := |s|;
      assert Shift(s, c)[..n - 1] == Shift(s[..n - 1], c);
      SumShift(s[..n - 1], c);
      assert (n - 1) as real * c + c == n as real * c;
    }
  }

  lemma {:induction false} SumSqDevShift(s: seq<real>, m: real, c: real)
    ensures SumSqDev(Shift(s, c), m + c) == SumSqDev(s, m)
    decreases |s|
  {
    if |s| > 0 {
      var n := |s|;
      assert Shift(s, c)[..n - 1] == Shift(s[..n - 1], c);
      SumSqDevShift(s[..n - 1], m, c);
    }
  }

  /**
   * Shifting every value by c shifts the mean by c and leaves the error bar
   * unchanged.
   */
  lemma Steb0ShiftInvariant(data: seq<real>, c: real)
    requires |data| >= 2
    ensures Steb0(Shift(data, c)).value.mean == Steb0(data).value.mean + c
    ensures Steb0(Shift(data, c)).value.errorSq == Steb0(data).value.errorSq
  {
    var n := |data| as real;
    SumShift(data, c);
    var m := Sum(data) / n;
    assert Sum(Shift(data, c)) / n == m + c;
    SumSqDevShift(data, m, c);
  }

  /** A sample whose values are all equal has that value as mean and error zero. */
  lemma Steb0Constant(data: seq<real>, c: real)
    requires |data| >= 2
    requires forall i :: 0 <= i < |data| ==> data[i] == c
    ensures Steb0(data) == Success(Estimate(c, 0.0))
  {
    var z := seq(|data|, i => 0.0);
    SumShift(z, c);
    SumZeros(z);
    assert Shift(z, c) == data;
    var n := |data| as real;
    assert Sum(data) == n * c;
    assert Sum(data) / n == c;
    SumSqDevShift(z, 0.0, c);
    assert 0.0 + c == c;
    SumSqDevZeros(z);
    assert SumSqDev(data, c) == 0.0;
    assert Steb0(data).Success?;
    assert Steb0(data).value.mean == c;
    assert Steb0(data).value.errorSq == 0.0;
  }

  lemma {:induction false} SumZeros(z: seq<real>)
    requires forall i :: 0 <= i < |z| ==> z[i] == 0.0
    ensures Sum(z) == 0.0
    decreases |z|
  {
    if |z| > 0 {
      SumZeros(z[..|z| - 1]);
    }
  }

  lemma {:induction false} SumSqDevZeros(z: seq<real>)
    requires forall i :: 0 <= i < |z| ==> z[i] == 0.0
    ensures SumSqDev(z, 0.0) == 0.0
    decreases |z|
  {
    if |z| > 0 {
      SumSqDevZeros(z[..|z| - 1]);
    }
  }

  /** The sample 2, 4, 4, 4, 5, 5, 7, 9 has mean 5 and squared error bar 32 / (8 * 7). */
  lemma Steb0Example()
    ensures Steb0([2.0, 4.0, 4.0, 4.0, 5.0, 5.0, 7.0, 9.0]) == Success(Estimate(5.0, 4.0 / 7.0))
  {
    var s: seq<real> := [];
    Snoc(s, 2.0, 5.0);
    s := s + [2.0];
    assert Sum(s) == 2.0 && SumSqDev(s, 5.0) == 9.0;
    Snoc(s, 4.0, 5.0);
    s := s + [4.0];
    assert Sum(s) == 6.0 && SumSqDev(s, 5.0) == 10.0;
    Snoc(s, 4.0, 5.0);
    s := s + [4.0];
    assert Sum(s) == 10.0 && SumSqDev(s, 5.0) == 11.0;
    Snoc(s, 4.0, 5.0);
    s := s + [4.0];
    assert Sum(s) == 14.0 && SumSqDev(s, 5.0) == 12.0;
    Snoc(s, 5.0, 5.0);
    s := s + [5.0];
    assert Sum(s) == 19.0 && SumSqDev(s, 5.0) == 12.0;
    Snoc(s, 5.0, 5.0);
    s := s + [5.0];
    assert Sum(s) == 24.0 && SumSqDev(s, 5.0) == 12.0;
    Snoc(s, 7.0, 5.0);
    s := s + [7.0];
    assert Sum(s) == 31.0 && SumSqDev(s, 5.0) == 16.0;
    Snoc(s, 9.0, 5.0);
    s := s + [9.0];
    assert Sum(s) == 40.0 && SumSqDev(s, 5.0) == 32.0;
    assert s == [2.0, 4.0, 4.0, 4.0, 5.0, 5.0, 7.0, 9.0];
  }

  /** Sum and SumSqDev take in one more element at the end. */
  lemma Snoc(s: seq<real>, x: real, m: real)
    ensures Sum(s + [x]) == Sum(s) + x
    ensures SumSqDev(s + [x], m) == SumSqDev(s, m) + Sq(x - m)
  {
    assert (s + [x])[..|s|] == s;
  }

  // ----- weight normalisation -----

  lemma {:induction false} SumScaled(s: seq<real>, c: real)
    requires c != 0.0
    ensures Sum(Scaled(s, c)) == Sum(s) / c
    decreases |s|
  {
    if |s| > 0 {
      var n := |s|;
      assert Scaled(s, c)[..n - 1] == Scaled(s[..n - 1], c);
      SumScaled(s[..n - 1], c);
      assert Sum(s[..n - 1]) / c + s[n - 1] / c == (Sum(s[..n - 1]) + s[n - 1]) / c;
    }
  }

  /** Weights divided by their (non-zero) sum sum to one. */
  lemma NormalizedSumsToOne(w: seq<real>)
    requires Sum(w) != 0.0
    ensures Sum(Scaled(w, Sum(w))) == 1.0
  {
    var c := Sum(w);
    SumScaled(w, c);
    assert c / c == 1.0;
  }

  /**
   * The normalisation loop of steb1 and steb2: every weight is divided in
   * place by wnorm.
   */
  method Normalize(w: array<real>, wnorm: real)
    requires wnorm != 0.0
    modifies w
    ensures w[..] == Scaled(old(w[..]), wnorm)
  {
    for i := 0 to w.Length
      invariant w[..i] == Scaled(old(w[..]), wnorm)[..i]
      invariant w[i..] == old(w[..])[i..]
    {
      w[i] := w[i] / wnorm;
    }
  }

  // ----- steb1 -----

  /**
   * What steb1 computes and what it leaves in the weights: on a length
   * mismatch (the source's assertion) or a zero weight sum nothing is
   * written; otherwise the weights are normalised, and with at least two
   * values the result is the weighted mean and the weighted spread divided
   * by n - 1. A single value normalises the weights and then fails, where
   * the source divides by zero.
   */
  function Steb1Spec(data: seq<real>, w: seq<real>): (r: (Result<Estimate, Error>, seq<real>))
    ensures r.0 == Failure(LengthMismatch(|data|, |w|)) <==> |data| != |w|
    ensures r.0.Success? <==> |data| == |w| >= 2 && Sum(w) != 0.0
    ensures |r.1| == |w|
    ensures |data| == |w| && Sum(w) != 0.0 ==> r.1 == Scaled(w, Sum(w)) && Sum(r.1) == 1.0
    ensures |data| != |w| || Sum(w) == 0.0 ==> r.1 == w
  {
    if |data| != |w| then (Failure(LengthMismatch(|data|, |w|)), w)
    else if |w| == 0 then (Failure(TooFewSamples), w)
    else if Sum(w) == 0.0 then (Failure(ZeroWeightSum), w)
    else
      var u := Scaled(w, Sum(w));
      NormalizedSumsToOne(w);
      if |u| < 2 then (Failure(TooFewSamples), u) else (Success(WeightedMoments(data, u)), u)
  }

  /**
   * The moments steb1 folds over the normalised weights u: the weighted
   * mean, and the weighted spread around it divided by n - 1.
   */
  function WeightedMoments(data: seq<real>, u: seq<real>): (r: Estimate)
    requires |data| >= 2
    ensures (forall i :: 0 <= i < |u| ==> u[i] >= 0.0) ==> r.errorSq >= 0.0
  {
    var xm := SumProducts(Zip(data, u));
    var xv := SumWeightedSqDev(Zip(data, u), xm);
    assert (forall i :: 0 <= i < |u| ==> u[i] >= 0.0) ==> xv >= 0.0 by {
      if forall i :: 0 <= i < |u| ==> u[i] >= 0.0 {
        WeightedSqDevNonNegative(Zip(data, u), xm);
      }
    }
    Estimate(xm, xv / (|data| - 1) as real)
  }

  /** steb1: normalises w in place and returns the weighted mean and its squared error bar. */
  method Steb1(data: seq<real>, w: array<real>) returns (r: Result<Estimate, Error>)
    modifies w
    ensures (r, w[..]) == Steb1Spec(data, old(w[..]))
  {
    if |data| != w.Length {
      return Failure(LengthMismatch(|data|, w.Length));
    }
    var wnorm := Sum(w[..]);
    if w.Length == 0 {
      return Failure(TooFewSamples);
    }
    if wnorm == 0.0 {
      return Failure(ZeroWeightSum);
    }
    Normalize(w, wnorm);
    if w.Length < 2 {
      return Failure(TooFewSamples);
    }
    r := Success(WeightedMoments(data, w[..]));
  }

  lemma {:induction false} WeightedSqDevNonNegative(z: seq<(real, real)>, m: real)
    requires forall i :: 0 <= i < |z| ==> z[i].1 >= 0.0
    ensures SumWeightedSqDev(z, m) >= 0.0
    decreases |z|
  {
    if |z| > 0 {
      WeightedSqDevNonNegative(z[..|z| - 1], m);
      var (x, y) := z[|z| - 1];
      ProductNonNegative(y, Sq(x - m));
    }
  }

  lemma ProductNonNegative(a: real, b: real)
    requires 0.0 <= a && 0.0 <= b
    ensures 0.0 <= a * b
  {
  }

  /** With non-negative weights of positive sum the squared error bar of steb1 is non-negative. */
  lemma Steb1ErrorNonNegative(data: seq<real>, w: seq<real>)
    requires Steb1Spec(data, w).0.Success?
    requires forall i :: 0 <= i < |w| ==> w[i] >= 0.0
    ensures Steb1Spec(data, w).0.value.errorSq >= 0.0
  {
    var u := Scaled(w, Sum(w));
    SumNonNegative(w);
    var z := Zip(data, u);
    forall i | 0 <= i < |z|
      ensures z[i].1 >= 0.0
    {
      assert z[i].1 == w[i] / Sum(w);
    }
    WeightedSqDevNonNegative(z, SumProducts(z));
  }

  lemma {:induction false} SumNonNegative(s: seq<real>)
    requires forall i :: 0 <= i < |s| ==> s[i] >= 0.0
    ensures Sum(s) >= 0.0
    decreases |s|
  {
    if |s| > 0 {
      SumNonNegative(s[..|s| - 1]);
    }
  }

  lemma ZipDropLast(a: seq<real>, b: seq<real>)
    requires |a| == |b| > 0
    ensures Zip(a, b)[..|a| - 1] == Zip(a[..|a| - 1], b[..|b| - 1])
    ensures Zip(a, b)[|a| - 1] == (a[|a| - 1], b[|b| - 1])
  {
  }

  lemma {:induction false} SumConstant(s: seq<real>, c: real)
    requires forall i :: 0 <= i < |s| ==> s[i] == c
    ensures Sum(s) == |s| as real * c
    decreases |s|
  {
    if |s| > 0 {
      SumConstant(s[..|s| - 1], c);
      assert (|s| - 1) as real * c + c == |s| as real * c;
    }
  }

  /** A fold of products with one weight k for every value is k times the sum of the values. */
  lemma {:induction false} SumProductsConstantWeight(d: seq<real>, u: seq<real>, k: real)
    requires |d| == |u|
    requires forall i :: 0 <= i < |u| ==> u[i] == k
    ensures SumProducts(Zip(d, u)) == k * Sum(d)
    decreases |d|
  {
    if |d| > 0 {
      var n := |d|;
      ZipDropLast(d, u);
      SumProductsConstantWeight(d[..n - 1], u[..n - 1], k);
      assert k * Sum(d[..n - 1]) + d[n - 1] * k == k * (Sum(d[..n - 1]) + d[n - 1]);
    }
  }

  /** A weighted spread with one weight k for every value is k times the plain spread. */
  lemma {:induction false} SumWeightedSqDevConstantWeight(d: seq<real>, u: seq<real>, k: real, m: real)
    requires |d| == |u|
    requires forall i :: 0 <= i < |u| ==> u[i] == k
    ensures SumWeightedSqDev(Zip(d, u), m) == k * SumSqDev(d, m)
    decreases |d|
  {
    if |d| > 0 {
      var n := |d|;
      ZipDropLast(d, u);
      SumWeightedSqDevConstantWeight(d[..n - 1], u[..n - 1], k, m);
      assert k * SumSqDev(d[..n - 1], m) + k * Sq(d[n - 1] - m) == k * (SumSqDev(d[..n - 1], m) + Sq(d[n - 1] - m));
    }
  }

  /**
   * With all weights equal, steb1 is steb0: the same mean and the same
   * squared error bar.
   */
  lemma Steb1EqualWeightsIsSteb0(data: seq<real>, w: seq<real>, c: real)
    requires |data| == |w| >= 2
    requires c != 0.0
    requires forall i :: 0 <= i < |w| ==> w[i] == c
    ensures Steb1Spec(data, w).0 == Steb0(data)
  {
    EqualWeightsNormalize(w, c);
    var k := c / Sum(w);
    assert k * |w| as real == 1.0 by {
      CancelCommon(c, |w| as real, Sum(w), k);
    }
    UniformMomentsAreSteb0(data, Scaled(w, Sum(w)), k);
  }

  /** The moments over one weight k = 1 / n for every value are those of steb0. */
  lemma UniformMomentsAreSteb0(data: seq<real>, u: seq<real>, k: real)
    requires |data| == |u| >= 2
    requires forall i :: 0 <= i < |u| ==> u[i] == k
    requires k * |data| as real == 1.0
    ensures Success(WeightedMoments(data, u)) == Steb0(data)
  {
    var n := |data| as real;
    var xm := Sum(data) / n;
    UniformMean(data, u, k);
    UniformSpread(data, u, k, xm);
    WeightedMomentsAt(data, u, xm, SumWeightedSqDev(Zip(data, u), xm));
    assert Steb0(data) == Success(Estimate(xm, SumSqDev(data, xm) / (n - 1.0) / n));
  }

  lemma UniformMean(data: seq<real>, u: seq<real>, k: real)
    requires |data| == |u| >= 2
    requires forall i :: 0 <= i < |u| ==> u[i] == k
    requires k * |data| as real == 1.0
    ensures SumProducts(Zip(data, u)) == Sum(data) / |data| as real
  {
    assert SumProducts(Zip(data, u)) == k * Sum(data) by {
      SumProductsConstantWeight(data, u, k);
    }
    Reciprocal(SumProducts(Zip(data, u)), Sum(data), |data| as real, k);
  }

  lemma UniformSpread(data: seq<real>, u: seq<real>, k: real, xm: real)
    requires |data| == |u| >= 2
    requires forall i :: 0 <= i < |u| ==> u[i] == k
    requires k * |data| as real == 1.0
    ensures var n := |data| as real;
      SumWeightedSqDev(Zip(data, u), xm) / (|data| - 1) as real == SumSqDev(data, xm) / (n - 1.0) / n
  {
    SumWeightedSqDevConstantWeight(data, u, k, xm);
    DivideTwice(SumSqDev(data, xm), |data| as real, (|data| - 1) as real, SumWeightedSqDev(Zip(data, u), xm), k);
  }

  lemma WeightedMomentsAt(data: seq<real>, u: seq<real>, mean: real, spread: real)
    requires |data| >= 2
    requires SumProducts(Zip(data, u)) == mean
    requires SumWeightedSqDev(Zip(data, u), mean) == spread
    ensures WeightedMoments(data, u) == Estimate(mean, spread / (|data| - 1) as real)
  {
  }

  lemma Reciprocal(p: real, s: real, n: real, k: real)
    requires k * n == 1.0 && p == k * s
    ensures p == s / n
  {
  }

  /** Equal non-zero weights c sum to n c and normalise to c / (n c) each. */
  lemma EqualWeightsNormalize(w: seq<real>, c: real)
    requires |w| > 0 && c != 0.0
    requires forall i :: 0 <= i < |w| ==> w[i] == c
    ensures Sum(w) == |w| as real * c && Sum(w) != 0.0
    ensures forall i :: 0 <= i < |w| ==> Scaled(w, Sum(w))[i] == c / Sum(w)
  {
    SumConstant(w, c);
    NonZeroProduct(|w| as real, c);
  }

  lemma NonZeroProduct(a: real, b: real)
    requires a != 0.0 && b != 0.0
    ensures a * b != 0.0
  {
  }

  lemma CancelCommon(c: real, n: real, s: real, k: real)
    requires c != 0.0 && n != 0.0 && s == n * c && k == c / s
    ensures k * n == 1.0
  {
  }

  lemma DivideTwice(a: real, n: real, m: real, s: real, k: real)
    requires k * n == 1.0
    requires m != 0.0
    requires m == n - 1.0
    requires s == k * a
    ensures s / m == a / (n - 1.0) / n
  {
  }

  lemma MulMonotone(x0: real, x: real, y: real)
    requires 0.0 <= x0 && x <= y
    ensures x0 * x <= x0 * y && x * x0 <= y * x0
  {
  }

  /** With non-negative weights the fold of products is monotone in the values. */
  lemma {:induction false} SumProductsMonotone(d: seq<real>, e: seq<real>, u: seq<real>)
    requires |d| == |e| == |u|
    requires forall i :: 0 <= i < |d| ==> d[i] <= e[i] && 0.0 <= u[i]
    ensures SumProducts(Zip(d, u)) <= SumProducts(Zip(e, u))
    decreases |d|
  {
    if |d| > 0 {
      var n := |d|;
      ZipDropLast(d, u);
      ZipDropLast(e, u);
      SumProductsMonotone(d[..n - 1], e[..n - 1], u[..n - 1]);
      MulMonotone(u[n - 1], d[n - 1], e[n - 1]);
    }
  }

  /** A fold of products with one value c for every weight is c times the sum of the weights. */
  lemma {:induction false} SumProductsConstantValue(d: seq<real>, u: seq<real>, c: real)
    requires |d| == |u|
    requires forall i :: 0 <= i < |d| ==> d[i] == c
    ensures SumProducts(Zip(d, u)) == c * Sum(u)
    decreases |d|
  {
    if |d| > 0 {
      var n := |d|;
      ZipDropLast(d, u);
      SumProductsConstantValue(d[..n - 1], u[..n - 1], c);
      assert c * Sum(u[..n - 1]) + c * u[n - 1] == c * (Sum(u[..n - 1]) + u[n - 1]);
    }
  }

  /** With non-negative weights, values in [lo, hi] give a fold between lo and hi times the weight sum. */
  lemma SumProductsBounded(d: seq<real>, u: seq<real>, lo: real, hi: real)
    requires |d| == |u|
    requires forall i :: 0 <= i < |d| ==> lo <= d[i] <= hi && 0.0 <= u[i]
    ensures lo * Sum(u) <= SumProducts(Zip(d, u)) <= hi * Sum(u)
  {
    var below := seq(|d|, i => lo);
    var above := seq(|d|, i => hi);
    SumProductsMonotone(below, d, u);
    SumProductsMonotone(d, above, u);
    SumProductsConstantValue(below, u, lo);
    SumProductsConstantValue(above, u, hi);
  }

  /**
   * With non-negative weights of positive sum the weighted mean of steb1
   * lies between the smallest and the largest value.
   */
  lemma Steb1MeanBounded(data: seq<real>, w: seq<real>, lo: real, hi: real)
    requires Steb1Spec(data, w).0.Success?
    requires forall i :: 0 <= i < |w| ==> w[i] >= 0.0
    requires forall i :: 0 <= i < |data| ==> lo <= data[i] <= hi
    ensures lo <= Steb1Spec(data, w).0.value.mean <= hi
  {
    SumNonNegative(w);
    var u := Scaled(w, Sum(w));
    NormalizedSumsToOne(w);
    forall i | 0 <= i < |u|
      ensures u[i] >= 0.0
    {
      assert u[i] == w[i] / Sum(w);
    }
    SumProductsBounded(data, u, lo, hi);
  }

  // ----- steb2 -----

  /**
   * The index of the first zero among eb[0], ..., eb[k - 1], if any: the
   * first weight 1 / eb^2 the derivation loop of steb2 cannot form.
   */
  function FirstZeroBar(eb: seq<real>, k: nat): (r: Option<nat>)
    requires k <= |eb|
    ensures r.Some? ==> r.value < k && eb[r.value] == 0.0
    ensures r.Some? ==> forall j :: 0 <= j < r.value ==> eb[j] != 0.0
    ensures r.None? <==> forall j :: 0 <= j < k ==> eb[j] != 0.0
  {
    if k == 0 then None
    else match FirstZeroBar(eb, k - 1)
      case Some(i) => Some(i)
      case None => if eb[k - 1] == 0.0 then Some(k - 1) else None
  }

  /**
   * The weights once the derivation loop of steb2 has rewritten the first k
   * of them to 1 / eb^2; the others are as supplied.
   */
  function Derive(w: seq<real>, eb: seq<real>, k: nat): (r: seq<real>)
    requires k <= |w| && k <= |eb|
    requires forall j :: 0 <= j < k ==> eb[j] != 0.0
    ensures |r| == |w|
    ensures forall j :: 0 <= j < k ==> r[j] == InverseSquare(eb[j])
    ensures forall j :: k <= j < |w| ==> r[j] == w[j]
  {
    seq(|w|, j requires 0 <= j < |w| => if j < k then InverseSquare(eb[j]) else w[j])
  }

  /** The weight 1 / x^2 steb2 derives from an error bar x. */
  function InverseSquare(x: real): (r: real)
    requires x != 0.0
    ensures r > 0.0
    ensures r * (x * x) == 1.0
  {
    1.0 / (x * x)
  }

  /** The inverse variances 1 / eb^2 of the error bars. */
  function InverseSquares(eb: seq<real>): (r: seq<real>)
    requires forall j :: 0 <= j < |eb| ==> eb[j] != 0.0
    ensures |r| == |eb|
    ensures forall j :: 0 <= j < |eb| ==> r[j] == InverseSquare(eb[j])
  {
    seq(|eb|, j requires 0 <= j < |eb| => InverseSquare(eb[j]))
  }

  /**
   * The weights steb2 normalises: derived from the error bars when the
   * first weight is negative, the supplied ones otherwise. A zero error bar
   * met by the derivation is reported with the weights rewritten so far.
   */
  function Steb2Weights(w: seq<real>, eb: seq<real>): (r: Result<seq<real>, (Error, seq<real>)>)
    requires |w| > 0
    ensures r.Failure? <==> w[0] < 0.0 && FirstZeroBar(eb, Min(|w|, |eb|)).Some?
  {
    if w[0] < 0.0 then
      var k := Min(|w|, |eb|);
      match FirstZeroBar(eb, k)
      case Some(i) => Failure((ZeroErrorBar(i), Derive(w, eb, i)))
      case None => Success(Derive(w, eb, k))
    else Success(w)
  }

  /**
   * What steb2 computes and what it leaves in the weights. There is no
   * length check: the folds stop at the shorter sequence, as a zip does.
   */
  function Steb2Spec(data: seq<real>, eb: seq<real>, w: seq<real>): (r: (Result<Estimate, Error>, seq<real>))
    ensures |r.1| == |w|
    ensures r.0 == Failure(EmptyWeights) <==> |w| == 0
    ensures r.0.Success? ==> Sum(r.1) == 1.0
    ensures r.0.Success? ==> r.0.value == Estimate(SumProducts(Zip(data, r.1)), SumQuadrature(Zip(eb, r.1)))
    ensures r.0.Success? ==> r.0.value.errorSq >= 0.0
    ensures |w| > 0 && w[0] >= 0.0 && Sum(w) != 0.0 ==> r == (Success(Estimate(SumProducts(Zip(data, r.1)), SumQuadrature(Zip(eb, r.1)))), Scaled(w, Sum(w)))
    ensures |w| > 0 && w[0] >= 0.0 && Sum(w) == 0.0 ==> r == (Failure(ZeroWeightSum), w)
  {
    if |w| == 0 then (Failure(EmptyWeights), w)
    else match Steb2Weights(w, eb)
      case Failure((e, v)) => (Failure(e), v)
      case Success(v) =>
        if Sum(v) == 0.0 then (Failure(ZeroWeightSum), v)
        else
          var u := Scaled(v, Sum(v));
          NormalizedSumsToOne(v);
          (Success(Estimate(SumProducts(Zip(data, u)), SumQuadrature(Zip(eb, u)))), u)
  }

  /**
   * steb2: optionally derives the weights from the error bars, normalises
   * them in place, and returns the weighted mean and the squared error bar
   * combined in quadrature.
   */
  method Steb2(data: seq<real>, eb: seq<real>, w: array<real>) returns (r: Result<Estimate, Error>)
    modifies w
    ensures (r, w[..]) == Steb2Spec(data, eb, old(w[..]))
  {
    if w.Length == 0 {
      return Failure(EmptyWeights);
    }
    if w[0] < 0.0 {
      var k := Min(w.Length, |eb|);
      for i := 0 to k
        invariant FirstZeroBar(eb, i) == None
        invariant w[..] == Derive(old(w[..]), eb, i)
      {
        if eb[i] == 0.0 {
          return Failure(ZeroErrorBar(i));
        }
        w[i] := InverseSquare(eb[i]);
      }
    }
    var wnorm := Sum(w[..]);
    if wnorm == 0.0 {
      return Failure(ZeroWeightSum);
    }
    Normalize(w, wnorm);
    r := Success(Estimate(SumProducts(Zip(data, w[..])), SumQuadrature(Zip(eb, w[..]))));
  }

  /**
   * steb2 with a negative first weight: every weight the error bars reach is
   * replaced by 1 / eb^2 before the normalisation, and the first zero error
   * bar, if there is one, stops the derivation. Derived weights that sum to
   * zero are left as they are, with ZeroWeightSum.
   */
  lemma Steb2DerivesWeights(data: seq<real>, eb: seq<real>, w: seq<real>)
    requires |w| > 0 && w[0] < 0.0
    ensures var k := Min(|w|, |eb|);
      match FirstZeroBar(eb, k)
      case Some(i) => Steb2Spec(data, eb, w) == (Failure(ZeroErrorBar(i)), Derive(w, eb, i))
      case None =>
        var v := Derive(w, eb, k);
        Steb2Spec(data, eb, w).1 == (if Sum(v) == 0.0 then v else Scaled(v, Sum(v))) &&
        (Sum(v) == 0.0 <==> Steb2Spec(data, eb, w).0 == Failure(ZeroWeightSum))
  {
  }

  /**
   * With one error bar per weight, none of them zero, and the weights left
   * to be derived, the squared error bar of steb2 is the inverse of the sum
   * of the inverse variances: 1 / (1 / eb[0]^2 + ... + 1 / eb[n-1]^2).
   */
  lemma Steb2InverseVariance(data: seq<real>, eb: seq<real>, w: seq<real>)
    requires |w| == |eb| > 0 && w[0] < 0.0
    requires forall j :: 0 <= j < |eb| ==> eb[j] != 0.0
    ensures Sum(InverseSquares(eb)) > 0.0
    ensures Steb2Spec(data, eb, w).0.Success?
    ensures Steb2Spec(data, eb, w).0.value.errorSq == 1.0 / Sum(InverseSquares(eb))
  {
    var v := InverseSquares(eb);
    assert Derive(w, eb, |w|) == v;
    var s := Sum(v);
    SumPositive(v);
    var u := Scaled(v, s);
    assert Steb2Spec(data, eb, w).0.value.errorSq == SumQuadrature(Zip(eb, u));
    forall i | 0 <= i < |eb|
      ensures Sq(eb[i]) * Sq(u[i]) == v[i] / (s * s)
    {
      QuadratureTerm(eb[i], v[i], s, u[i]);
    }
    NonZeroProduct(s, s);
    SumQuadratureTermwise(eb, u, v, s * s);
    SelfOverSquare(s);
  }

  lemma SelfOverSquare(s: real)
    requires s != 0.0
    ensures s / (s * s) == 1.0 / s
  {
  }

  /** A sum of positive terms is positive. */
  lemma {:induction false} SumPositive(s: seq<real>)
    requires |s| > 0
    requires forall i :: 0 <= i < |s| ==> s[i] > 0.0
    ensures Sum(s) > 0.0
    decreases |s|
  {
    if |s| > 1 {
      SumPositive(s[..|s| - 1]);
    }
  }

  /** One term of the quadrature sum over the derived weights: eb^2 (v / s)^2 = v / s^2 for v = 1 / eb^2. */
  lemma QuadratureTerm(e: real, v: real, s: real, u: real)
    requires e != 0.0
    requires s != 0.0
    requires v == InverseSquare(e)
    requires u == v / s
    ensures Sq(e) * Sq(u) == v / (s * s)
  {
    var p := e * e;
    assert v == 1.0 / p;
    assert p * v == 1.0;
    assert Sq(u) == v * v / (s * s);
    assert p * (v * v / (s * s)) == (p * v) * v / (s * s);
  }

  /** If every term x^2 y^2 of a quadrature sum is v[i] / t, the sum is Sum(v) / t. */
  lemma {:induction false} SumQuadratureTermwise(e: seq<real>, u: seq<real>, v: seq<real>, t: real)
    requires |e| == |u| == |v| && t != 0.0
    requires forall i :: 0 <= i < |e| ==> Sq(e[i]) * Sq(u[i]) == v[i] / t
    ensures SumQuadrature(Zip(e, u)) == Sum(v) / t
    decreases |e|
  {
    if |e| > 0 {
      var n := |e|;
      ZipDropLast(e, u);
      SumQuadratureTermwise(e[..n - 1], u[..n - 1], v[..n - 1], t);
      AddQuotients(Sum(v[..n - 1]), v[n - 1], t);
    }
  }

  lemma AddQuotients(a: real, b: real, t: real)
    requires t != 0.0
    ensures a / t + b / t == (a + b) / t
  {
  }
}
