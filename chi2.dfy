/**
 * The chi-square engine: inversion of a monotone function by bisection (fi1),
 * the chi-square distribution function on top of the regularised lower
 * incomplete gamma function, and the quantile search that grows a bracket and
 * then inverts the distribution function.
 *
 * The incomplete gamma function is not part of this model; every operation
 * that needs it takes it as the parameter `gammaP`, and only the lemmas that
 * depend on its monotonicity require `GammaMonotone(gammaP)`.
 */
module Chi2 {
  import opened Wrappers

  /** Absolute bracket width at which the bisection stops (1/10^8). */
  const Eps: real := 1.0 / 100000000.0

  /** Half the stop width: no end of the final bracket is farther than this from its midpoint. */
  const HalfEps: real := Eps / 2.0

  /** Largest number of halvings the bisection performs. */
  const IterMax: nat := 1000

  /** Why an inversion or a quantile has no value. */
  datatype Error =
    | OutOfRange(y1: real, y: real, y2: real)     // the target is not between the end values
    | NoConvergence(y1: real, y: real, y2: real)  // IterMax halvings left the bracket wider than Eps
    | BracketNotFound(steps: nat)                 // the growth search took all its steps
    | ZeroDegreesOfFreedom                        // the quantile ratio would divide by zero

  function Abs(x: real): real { if x < 0.0 then -x else x }

  function Min(a: real, b: real): real { if a <= b then a else b }

  function Max(a: real, b: real): real { if a <= b then b else a }

  /** x lies in the closed interval spanned by a and b, whichever is larger. */
  predicate Between(x: real, a: real, b: real) {
    Min(a, b) <= x <= Max(a, b)
  }

  ghost predicate NonDecreasing(f: real -> real, lo: real, hi: real) {
    forall u, v :: lo <= u <= v <= hi ==> f(u) <= f(v)
  }

  ghost predicate NonIncreasing(f: real -> real, lo: real, hi: real) {
    forall u, v :: lo <= u <= v <= hi ==> f(v) <= f(u)
  }

  /**
   * A working bracket of the bisection: `below` is the end where the
   * function is meant to be at most the target, `above` the end where it is
   * meant to be at least the target. Either end may be the larger number.
   */
  datatype Bracket = Bracket(below: real, above: real)

  function Width(b: Bracket): real { Abs(b.above - b.below) }

  function Mid(b: Bracket): real { 0.5 * (b.above + b.below) }

  function Pow2(k: nat): (p: real)
    ensures p >= 1.0
  {
    if k == 0 then 1.0 else 2.0 * Pow2(k - 1)
  }

  /**
   * The initial evaluation and conditional swap of fi1: the ends are put in
   * the order that makes the end values ascend, without changing the set of
   * ends; ends whose values are already in order (or equal) stay as given.
   */
  function Orient(f: real -> real, x1: real, x2: real): (b: Bracket)
    ensures f(b.below) <= f(b.above)
    ensures (b.below == x1 && b.above == x2) || (b.below == x2 && b.above == x1)
    ensures f(x1) <= f(x2) ==> b.below == x1
  {
    if f(x1) > f(x2) then Bracket(x2, x1) else Bracket(x1, x2)
  }

  /**
   * One bisection step: the midpoint replaces the end on its side of the
   * target. The step keeps the bracket around the target for every f, halves
   * the width and never leaves the old bracket.
   */
  function Halve(f: real -> real, y: real, b: Bracket): (r: Bracket)
    ensures f(b.below) <= y <= f(b.above) ==> f(r.below) <= y <= f(r.above)
    ensures Width(r) == Width(b) / 2.0
    ensures Between(r.below, b.below, b.above) && Between(r.above, b.below, b.above)
  {
    var xx := 0.5 * (b.below + b.above);
    if f(xx) <= y then Bracket(xx, b.above) else Bracket(b.below, xx)
  }

  /** The bracket after k bisection steps. */
  function Halvings(f: real -> real, y: real, b: Bracket, k: nat): Bracket
    decreases k
  {
    if k == 0 then b else Halvings(f, y, Halve(f, y, b), k - 1)
  }

  /**
   * The bisection loop of fi1 with `budget` steps left: halve, and stop as
   * soon as the bracket is at most Eps wide. The final bracket is narrow,
   * inside the initial one, and still holds the target when the initial one did.
   */
  function Bisect(f: real -> real, y: real, b: Bracket, budget: nat): (r: Option<Bracket>)
    // The bracket in the measure keeps the verifier from unrolling all
    // IterMax steps whenever the budget is the constant IterMax.
    decreases budget, b
    ensures r.Some? ==> Width(r.value) <= Eps
    ensures r.Some? ==> Between(r.value.below, b.below, b.above) && Between(r.value.above, b.below, b.above)
    ensures r.Some? && f(b.below) <= y <= f(b.above) ==> f(r.value.below) <= y <= f(r.value.above)
  {
    if budget == 0 then None
    else
      var h := Halve(f, y, b);
      if Width(h) <= Eps then Some(h) else Bisect(f, y, h, budget - 1)
  }

  /**
   * What fi1 computes. It fails with OutOfRange exactly when the target is
   * outside the end values, and on success returns the midpoint of a bracket
   * at most Eps wide, inside [x1, x2], whose ends have values on either side
   * of the target.
   */
  function Inverse(f: real -> real, y: real, x1: real, x2: real): (r: Result<real, Error>)
    ensures r.Failure? && r.error.OutOfRange? <==> y < Min(f(x1), f(x2)) || y > Max(f(x1), f(x2))
    ensures r.Failure? ==> r.error.OutOfRange? || r.error.NoConvergence?
    ensures r.Failure? ==> r.error.y1 == Min(f(x1), f(x2)) && r.error.y == y && r.error.y2 == Max(f(x1), f(x2))
    ensures r.Success? ==> Between(r.value, x1, x2)
    ensures r.Success? ==> exists fin: Bracket :: r.value == Mid(fin) && Width(fin) <= Eps
                                                && Between(fin.below, x1, x2) && Between(fin.above, x1, x2)
                                                && f(fin.below) <= y <= f(fin.above)
  {
    var b := Orient(f, x1, x2);
    var y1, y2 := f(b.below), f(b.above);
    if y >= y1 && y <= y2 then
      match Bisect(f, y, b, IterMax)
      case Some(fin) => Success(Mid(fin))
      case None => Failure(NoConvergence(y1, y, y2))
    else
      Failure(OutOfRange(y1, y, y2))
  }

  /** Each halving halves the width exactly, so k halvings divide it by 2^k. */
  lemma {:induction false} HalvingsWidth(f: real -> real, y: real, b: Bracket, k: nat)
    ensures Width(Halvings(f, y, b, k)) == Width(b) / Pow2(k)
    decreases k
  {
    if k > 0 {
      var h := Halve(f, y, b);
      HalvingsWidth(f, y, h, k - 1);
      var p := Pow2(k - 1);
      assert Pow2(k) == 2.0 * p;
      assert Halvings(f, y, b, k) == Halvings(f, y, h, k - 1);
      HalfOfQuotient(Width(b), p);
    }
  }

  lemma HalfOfQuotient(w: real, p: real)
    requires p >= 1.0
    ensures (w / 2.0) / p == w / (2.0 * p)
  {
  }

  /**
   * The bisection stops after exactly the first k (1 <= k <= budget) with
   * Width(b) <= Eps * 2^k, and returns the bracket after k halvings.
   */
  lemma {:induction false} BisectStopsAtFirstFit(f: real -> real, y: real, b: Bracket, budget: nat, k: nat)
    requires 1 <= k <= budget
    requires Width(b) <= Eps * Pow2(k)
    requires forall j :: 1 <= j < k ==> Width(b) > Eps * Pow2(j)
    ensures Bisect(f, y, b, budget) == Some(Halvings(f, y, b, k))
    decreases k
  {
    var h := Halve(f, y, b);
    if k == 1 {
      assert Width(h) <= Eps;
    } else {
      assert Width(b) > Eps * Pow2(1);
      assert Width(h) > Eps;
      forall j | 1 <= j < k - 1
        ensures Width(h) > Eps * Pow2(j)
      {
        assert Width(b) > Eps * Pow2(j + 1);
      }
      BisectStopsAtFirstFit(f, y, h, budget - 1, k - 1);
    }
  }

  /** A bracket wider than Eps * 2^j for every j in 1..budget is never narrowed enough. */
  lemma {:induction false} BisectFailsWhenTooWide(f: real -> real, y: real, b: Bracket, budget: nat)
    requires forall j :: 1 <= j <= budget ==> Width(b) > Eps * Pow2(j)
    ensures Bisect(f, y, b, budget) == None
    decreases budget
  {
    if budget > 0 {
      var h := Halve(f, y, b);
      assert Width(b) > Eps * Pow2(1);
      forall j | 1 <= j <= budget - 1
        ensures Width(h) > Eps * Pow2(j)
      {
        assert Width(b) > Eps * Pow2(j + 1);
      }
      BisectFailsWhenTooWide(f, y, h, budget - 1);
    }
  }

  /**
   * With the target in range, fi1 succeeds after exactly the first k in
   * 1..IterMax with |x2 - x1| <= Eps * 2^k, returning the midpoint of the
   * bracket after k halvings.
   */
  lemma InverseConverges(f: real -> real, y: real, x1: real, x2: real, k: nat)
    requires Min(f(x1), f(x2)) <= y <= Max(f(x1), f(x2))
    requires 1 <= k <= IterMax
    requires Abs(x2 - x1) <= Eps * Pow2(k)
    requires forall j :: 1 <= j < k ==> Abs(x2 - x1) > Eps * Pow2(j)
    ensures Inverse(f, y, x1, x2) == Success(Mid(Halvings(f, y, Orient(f, x1, x2), k)))
  {
    var b := Orient(f, x1, x2);
    assert Width(b) == Abs(x2 - x1);
    BisectStopsAtFirstFit(f, y, b, IterMax, k);
  }

  /**
   * With the target in range but |x2 - x1| > Eps * 2^k for every k in
   * 1..IterMax, fi1 fails with NoConvergence.
   */
  lemma InverseNoConvergence(f: real -> real, y: real, x1: real, x2: real)
    requires Min(f(x1), f(x2)) <= y <= Max(f(x1), f(x2))
    requires forall k :: 1 <= k <= IterMax ==> Abs(x2 - x1) > Eps * Pow2(k)
    ensures Inverse(f, y, x1, x2) == Failure(NoConvergence(Min(f(x1), f(x2)), y, Max(f(x1), f(x2))))
  {
    var b := Orient(f, x1, x2);
    assert Width(b) == Abs(x2 - x1);
    BisectFailsWhenTooWide(f, y, b, IterMax);
  }

  /**
   * For a monotone f the result of fi1 locates the crossing of the target to
   * within Eps/2: in the bracket, the points where f is below the target lie
   * on one side of the result and the points where f is above it on the
   * other, up to Eps/2.
   */
  lemma InverseLocatesCrossing(f: real -> real, y: real, x1: real, x2: real)
    requires Inverse(f, y, x1, x2).Success?
    ensures var r := Inverse(f, y, x1, x2).value;
      NonDecreasing(f, Min(x1, x2), Max(x1, x2)) ==>
        forall x :: Min(x1, x2) <= x <= Max(x1, x2) ==>
          (f(x) < y ==> x < r + HalfEps) && (y < f(x) ==> r - HalfEps < x)
    ensures var r := Inverse(f, y, x1, x2).value;
      NonIncreasing(f, Min(x1, x2), Max(x1, x2)) ==>
        forall x :: Min(x1, x2) <= x <= Max(x1, x2) ==>
          (f(x) < y ==> r - HalfEps < x) && (y < f(x) ==> x < r + HalfEps)
  {
    var r := Inverse(f, y, x1, x2).value;
    var fin: Bracket :| r == Mid(fin) && Width(fin) <= Eps
                        && Between(fin.below, x1, x2) && Between(fin.above, x1, x2)
                        && f(fin.below) <= y <= f(fin.above);
    CrossingNonDecreasing(f, y, fin, r, Min(x1, x2), Max(x1, x2));
    CrossingNonIncreasing(f, y, fin, r, Min(x1, x2), Max(x1, x2));
  }

  /**
   * A bracket at most Eps wide inside [lo, hi] around the target, for f
   * non-decreasing on [lo, hi], with midpoint r: the points below the target
   * lie below r + Eps/2, the points above it above r - Eps/2.
   */
  lemma CrossingNonDecreasing(f: real -> real, y: real, fin: Bracket, r: real, lo: real, hi: real)
    requires r == Mid(fin) && Width(fin) <= Eps && f(fin.below) <= y <= f(fin.above)
    requires lo <= fin.below <= hi && lo <= fin.above <= hi
    ensures NonDecreasing(f, lo, hi) ==>
      forall x :: lo <= x <= hi ==> (f(x) < y ==> x < r + HalfEps) && (y < f(x) ==> r - HalfEps < x)
  {
    assert fin.above <= r + HalfEps && r - HalfEps <= fin.below;
    if NonDecreasing(f, lo, hi) {
      forall x | lo <= x <= hi
        ensures (f(x) < y ==> x < r + HalfEps) && (y < f(x) ==> r - HalfEps < x)
      {
        if fin.above <= x {
          assert f(fin.above) <= f(x);
        }
        if x <= fin.below {
          assert f(x) <= f(fin.below);
        }
      }
    }
  }

  /** The mirror image of CrossingNonDecreasing for f non-increasing on [lo, hi]. */
  lemma CrossingNonIncreasing(f: real -> real, y: real, fin: Bracket, r: real, lo: real, hi: real)
    requires r == Mid(fin) && Width(fin) <= Eps && f(fin.below) <= y <= f(fin.above)
    requires lo <= fin.below <= hi && lo <= fin.above <= hi
    ensures NonIncreasing(f, lo, hi) ==>
      forall x :: lo <= x <= hi ==> (f(x) < y ==> r - HalfEps < x) && (y < f(x) ==> x < r + HalfEps)
  {
    assert fin.below <= r + HalfEps && r - HalfEps <= fin.above;
    if NonIncreasing(f, lo, hi) {
      forall x | lo <= x <= hi
        ensures (f(x) < y ==> r - HalfEps < x) && (y < f(x) ==> x < r + HalfEps)
      {
        if x <= fin.above {
          assert f(fin.above) <= f(x);
        }
        if fin.below <= x {
          assert f(x) <= f(fin.below);
        }
      }
    }
  }

  /**
   * fi1: inverts f on the bracket [x1, x2] (in either order) by bisection.
   * The source aborts the program on failure; here failure is a result.
   */
  method Fi1(f: real -> real, y: real, x1: real, x2: real) returns (r: Result<real, Error>)
    ensures r == Inverse(f, y, x1, x2)
  {
    var xx1, xx2 := x1, x2;
    var y1, y2 := f(xx1), f(xx2);
    if y1 > y2 {
      xx1, xx2, y1, y2 := xx2, xx1, y2, y1;
    }
    assert Bracket(xx1, xx2) == Orient(f, x1, x2);
    if y >= y1 && y <= y2 {
      var found := BisectLoop(f, y, xx1, xx2);
      if found.Some? {
        r := Success(found.value);
      } else {
        r := Failure(NoConvergence(y1, y, y2));
      }
    } else {
      r := Failure(OutOfRange(y1, y, y2));
    }
  }

  /**
   * The bisection loop of fi1 on the bracket with ends xx1 (value at most y)
   * and xx2 (value at least y): the midpoint of the first bracket at most Eps
   * wide, or None after IterMax halvings.
   */
  method BisectLoop(f: real -> real, y: real, xx1: real, xx2: real) returns (found: Option<real>)
    ensures found.Some? <==> Bisect(f, y, Bracket(xx1, xx2), IterMax).Some?
    ensures found.Some? ==> found.value == Mid(Bisect(f, y, Bracket(xx1, xx2), IterMax).value)
  {
    var xx1, xx2 := xx1, xx2;
    ghost var start := Bracket(xx1, xx2);
    for i := 0 to IterMax
      invariant Bisect(f, y, Bracket(xx1, xx2), IterMax - i) == Bisect(f, y, start, IterMax)
    {
      ghost var b := Bracket(xx1, xx2);
      xx1, xx2 := HalveStep(f, y, xx1, xx2);
      BisectStep(f, y, b, IterMax - i, Bracket(xx1, xx2));
      if Abs(xx2 - xx1) <= Eps {
        return Some(0.5 * (xx2 + xx1));
      }
    }
    found := None;
  }

  /** One pass of the loop body of fi1: the midpoint replaces the end on its side of the target. */
  method HalveStep(f: real -> real, y: real, xx1: real, xx2: real) returns (n1: real, n2: real)
    ensures Bracket(n1, n2) == Halve(f, y, Bracket(xx1, xx2))
  {
    var xx := 0.5 * (xx1 + xx2);
    var ff := f(xx);
    if ff <= y {
      n1, n2 := xx, xx2;
    } else {
      n1, n2 := xx1, xx;
    }
  }

  /** One step of the bisection loop, as the loop of fi1 takes it. */
  lemma BisectStep(f: real -> real, y: real, b: Bracket, budget: nat, h: Bracket)
    requires budget > 0 && h == Halve(f, y, b)
    ensures Width(h) <= Eps ==> Bisect(f, y, b, budget) == Some(h)
    ensures Width(h) > Eps ==> Bisect(f, y, b, budget) == Bisect(f, y, h, budget - 1)
  {
  }

  // ----- the chi-square distribution -----

  /** The incomplete gamma function is non-decreasing in its argument x >= 0. */
  ghost predicate GammaMonotone(gammaP: (real, real) -> real) {
    forall a, u, v :: 0.0 <= u <= v ==> gammaP(a, u) <= gammaP(a, v)
  }

  /** chi2_df: the chi-square distribution function with nf degrees of freedom. */
  function Chi2Df(gammaP: (real, real) -> real, chi2: real, nf: nat): real {
    var a := 0.5 * nf as real;
    var x := 0.5 * chi2;
    gammaP(a, x)
  }

  /** chi2_df with the degrees of freedom fixed, as the function handed to fi1. */
  function Chi2DfAt(gammaP: (real, real) -> real, nf: nat): real -> real {
    x => Chi2Df(gammaP, x, nf)
  }

  /**
   * chi2pdf_df: the distribution function of the chi-square per degree of
   * freedom, that is chi2_df at nf times its argument.
   */
  function Chi2PdfDf(gammaP: (real, real) -> real, chi2: real, nf: nat): (r: real)
    ensures r == Chi2Df(gammaP, nf as real * chi2, nf)
  {
    var a := 0.5 * nf as real;
    var x := a * chi2;
    assert x == 0.5 * (nf as real * chi2);
    gammaP(a, x)
  }

  /** Chi2PdfDf at chi2 is chi2_df at any c equal to nf * chi2. */
  lemma Chi2PdfDfScaled(gammaP: (real, real) -> real, chi2: real, nf: nat, c: real)
    requires nf as real * chi2 == c
    ensures Chi2PdfDf(gammaP, chi2, nf) == Chi2Df(gammaP, c, nf)
  {
  }

  lemma Chi2DfMonotone(gammaP: (real, real) -> real, nf: nat, c1: real, c2: real)
    requires GammaMonotone(gammaP)
    requires 0.0 <= c1 <= c2
    ensures Chi2Df(gammaP, c1, nf) <= Chi2Df(gammaP, c2, nf)
  {
  }

  /** The m-th point x2 + m * nf of a growth search that starts at x2. */
  function GrowthPoint(x2: real, nf: nat, m: nat): real {
    x2 + m as real * nf as real
  }

  /**
   * The growth search of chi2_xq from x2 with stepsLeft steps left: x2 grows
   * by nf until chi2_df(x2) >= q; None if no step reaches q. The point found
   * reaches q and lies at least one step beyond the start.
   */
  function Grow(gammaP: (real, real) -> real, q: real, nf: nat, x2: real, stepsLeft: nat): (r: Option<real>)
    decreases stepsLeft
    ensures r.Some? ==> Chi2Df(gammaP, r.value, nf) >= q
    ensures r.Some? ==> x2 + nf as real <= r.value
  {
    if stepsLeft == 0 then None
    else
      var next := x2 + nf as real;
      if Chi2Df(gammaP, next, nf) >= q then Some(next) else Grow(gammaP, q, nf, next, stepsLeft - 1)
  }

  /**
   * The growth search stops on the first step that reaches q: it returns
   * x2 + m * nf for the least m in 1..stepsLeft with chi2_df(x2 + m * nf) >= q,
   * and None exactly when there is no such m.
   */
  lemma {:induction false} GrowFindsFirstStep(gammaP: (real, real) -> real, q: real, nf: nat, x2: real, stepsLeft: nat)
    ensures Grow(gammaP, q, nf, x2, stepsLeft).None? <==>
      forall j :: 1 <= j <= stepsLeft ==> Chi2Df(gammaP, GrowthPoint(x2, nf, j), nf) < q
    ensures Grow(gammaP, q, nf, x2, stepsLeft).Some? ==>
      exists m :: 1 <= m <= stepsLeft && Grow(gammaP, q, nf, x2, stepsLeft).value == GrowthPoint(x2, nf, m)
        && forall j :: 1 <= j < m ==> Chi2Df(gammaP, GrowthPoint(x2, nf, j), nf) < q
    decreases stepsLeft
  {
    if stepsLeft > 0 {
      var next := x2 + nf as real;
      assert GrowthPoint(x2, nf, 1) == next;
      forall j: nat
        ensures GrowthPoint(next, nf, j) == GrowthPoint(x2, nf, j + 1)
      {
        assert (j + 1) as real * nf as real == j as real * nf as real + nf as real;
      }
      if Chi2Df(gammaP, next, nf) < q {
        GrowFindsFirstStep(gammaP, q, nf, next, stepsLeft - 1);
        var r := Grow(gammaP, q, nf, x2, stepsLeft);
        if r.Some? {
          var m :| 1 <= m <= stepsLeft - 1 && r.value == GrowthPoint(next, nf, m)
            && forall j :: 1 <= j < m ==> Chi2Df(gammaP, GrowthPoint(next, nf, j), nf) < q;
          assert forall j :: 1 <= j < m + 1 ==> Chi2Df(gammaP, GrowthPoint(x2, nf, j), nf) < q by {
            forall j | 1 <= j < m + 1
              ensures Chi2Df(gammaP, GrowthPoint(x2, nf, j), nf) < q
            {
              if j > 1 {
                assert GrowthPoint(x2, nf, j) == GrowthPoint(next, nf, j - 1);
              }
            }
          }
          assert r.value == GrowthPoint(x2, nf, m + 1);
        } else {
          forall j | 1 <= j <= stepsLeft
            ensures Chi2Df(gammaP, GrowthPoint(x2, nf, j), nf) < q
          {
            if j > 1 {
              assert GrowthPoint(x2, nf, j) == GrowthPoint(next, nf, j - 1);
            }
          }
        }
      }
    }
  }

  /**
   * What chi2_xq computes with at most maxSteps growth steps: BracketNotFound
   * exactly when the growth search fails, and otherwise fi1 on [0, x2] with
   * target q for the point x2 the search found. A result lies at or above 0.
   */
  function Chi2Quantile(gammaP: (real, real) -> real, q: real, nf: nat, maxSteps: nat): (r: Result<real, Error>)
    ensures r.Failure? && r.error.BracketNotFound? <==> Grow(gammaP, q, nf, 0.0, maxSteps).None?
    ensures r.Success? ==> 0.0 <= r.value
  {
    match Grow(gammaP, q, nf, 0.0, maxSteps)
    case None => Failure(BracketNotFound(maxSteps))
    case Some(x2) => Inverse(Chi2DfAt(gammaP, nf), q, 0.0, x2)
  }

  /**
   * The bracket chi2_xq hands to fi1: when the growth search succeeds, the
   * result is fi1 on [0, m * nf] with target q, where m in 1..maxSteps is the
   * first step with chi2_df(m * nf) >= q; the search fails exactly when no
   * step reaches q.
   */
  lemma Chi2QuantileBracket(gammaP: (real, real) -> real, q: real, nf: nat, maxSteps: nat)
    ensures Chi2Quantile(gammaP, q, nf, maxSteps) == Failure(BracketNotFound(maxSteps)) <==>
      forall j :: 1 <= j <= maxSteps ==> Chi2Df(gammaP, GrowthPoint(0.0, nf, j), nf) < q
    ensures Chi2Quantile(gammaP, q, nf, maxSteps) != Failure(BracketNotFound(maxSteps)) ==>
      exists m :: 1 <= m <= maxSteps && Chi2Df(gammaP, GrowthPoint(0.0, nf, m), nf) >= q
        && (forall j :: 1 <= j < m ==> Chi2Df(gammaP, GrowthPoint(0.0, nf, j), nf) < q)
        && Chi2Quantile(gammaP, q, nf, maxSteps) == Inverse(Chi2DfAt(gammaP, nf), q, 0.0, GrowthPoint(0.0, nf, m))
  {
    GrowFindsFirstStep(gammaP, q, nf, 0.0, maxSteps);
  }

  /**
   * With no degrees of freedom x2 never moves from 0, so a target above
   * chi2_df(0, 0) is never reached: the source loops forever, the model
   * reports BracketNotFound whatever the step cap.
   */
  lemma Chi2QuantileZeroDof(gammaP: (real, real) -> real, q: real, maxSteps: nat)
    requires q > gammaP(0.0, 0.0)
    ensures Chi2Quantile(gammaP, q, 0, maxSteps) == Failure(BracketNotFound(maxSteps))
  {
    GrowFindsFirstStep(gammaP, q, 0, 0.0, maxSteps);
    forall j | 1 <= j <= maxSteps
      ensures Chi2Df(gammaP, GrowthPoint(0.0, 0, j), 0) < q
    {
      assert GrowthPoint(0.0, 0, j) == 0.0;
    }
  }

  /**
   * Quantile round trip: for a monotone incomplete gamma function, every
   * x >= 0 with chi2_df(x) below q lies below the result plus Eps/2, and every
   * x >= 0 with chi2_df(x) above q lies above the result minus Eps/2.
   */
  lemma Chi2QuantileLocatesCrossing(gammaP: (real, real) -> real, q: real, nf: nat, maxSteps: nat)
    requires GammaMonotone(gammaP)
    requires Chi2Quantile(gammaP, q, nf, maxSteps).Success?
    ensures var r := Chi2Quantile(gammaP, q, nf, maxSteps).value;
      forall x :: 0.0 <= x ==>
        (Chi2Df(gammaP, x, nf) < q ==> x < r + HalfEps) && (q < Chi2Df(gammaP, x, nf) ==> r - HalfEps < x)
  {
    var x2 := Grow(gammaP, q, nf, 0.0, maxSteps).value;
    var f := Chi2DfAt(gammaP, nf);
    var r := Chi2Quantile(gammaP, q, nf, maxSteps).value;
    assert Inverse(f, q, 0.0, x2).Success? && Inverse(f, q, 0.0, x2).value == r;
    assert NonDecreasing(f, 0.0, x2) by {
      forall u, v | 0.0 <= u <= v <= x2 ensures f(u) <= f(v) {
        Chi2DfMonotone(gammaP, nf, u, v);
      }
    }
    InverseLocatesCrossing(f, q, 0.0, x2);
    forall x | 0.0 <= x
      ensures (Chi2Df(gammaP, x, nf) < q ==> x < r + HalfEps) && (q < Chi2Df(gammaP, x, nf) ==> r - HalfEps < x)
    {
      if x > x2 {
        Chi2DfMonotone(gammaP, nf, x2, x);
        assert Between(r, 0.0, x2);
      } else {
        assert f(x) == Chi2Df(gammaP, x, nf);
      }
    }
  }

  /**
   * chi2_xq: grows x2 = nf, 2 nf, ... until chi2_df(x2) >= q, then inverts
   * chi2_df on [0, x2]. The source's growth loop has no bound; here it takes
   * at most maxSteps steps.
   */
  method Chi2Xq(gammaP: (real, real) -> real, q: real, nf: nat, maxSteps: nat) returns (r: Result<real, Error>)
    ensures r == Chi2Quantile(gammaP, q, nf, maxSteps)
  {
    var x1 := 0.0;
    var x2 := 0.0;
    var m: nat := 0;
    while m < maxSteps
      invariant m <= maxSteps
      invariant Grow(gammaP, q, nf, x2, maxSteps - m) == Grow(gammaP, q, nf, 0.0, maxSteps)
      decreases maxSteps - m
    {
      x2 := x2 + nf as real;
      m := m + 1;
      var qt := Chi2Df(gammaP, x2, nf);
      if qt >= q {
        r := Fi1(Chi2DfAt(gammaP, nf), q, x1, x2);
        return;
      }
    }
    r := Failure(BracketNotFound(maxSteps));
  }

  /**
   * The step chi2pdf_xq adds to chi2_xq: a chi-square quantile c becomes the
   * quantile of the chi-square per degree of freedom, c / nf, whose
   * distribution function Chi2PdfDf equals chi2_df at c. Failures pass
   * through; nf = 0, where the source divides by zero, is an error.
   */
  function PerDegree(gammaP: (real, real) -> real, c: Result<real, Error>, nf: nat): (r: Result<real, Error>)
    ensures r.Success? <==> c.Success? && nf > 0
    ensures r.Success? ==> nf as real * r.value == c.value
    ensures r.Success? ==> Chi2PdfDf(gammaP, r.value, nf) == Chi2Df(gammaP, c.value, nf)
    ensures c.Failure? ==> r == c
    ensures c.Success? && nf == 0 ==> r == Failure(ZeroDegreesOfFreedom)
  {
    match c
    case Success(x) =>
      if nf == 0 then Failure(ZeroDegreesOfFreedom)
      else
        var v := x / nf as real;
        assert v * nf as real == x && nf as real * v == x;
        Chi2PdfDfScaled(gammaP, v, nf, x);
        Success(v)
    case Failure(e) => Failure(e)
  }

  /**
   * Quantile round trip per degree of freedom: when a chi-square quantile c
   * locates the crossing of q to within Eps/2 (as Chi2QuantileLocatesCrossing
   * shows for chi2_xq), its quantile per degree of freedom locates the
   * crossing of Chi2PdfDf to within Eps/2 on the chi-square scale nf * x.
   */
  lemma PerDegreeKeepsCrossing(gammaP: (real, real) -> real, q: real, c: Result<real, Error>, nf: nat)
    requires PerDegree(gammaP, c, nf).Success?
    requires forall x :: 0.0 <= x ==>
      (Chi2Df(gammaP, x, nf) < q ==> x < c.value + HalfEps) && (q < Chi2Df(gammaP, x, nf) ==> c.value - HalfEps < x)
    ensures var r := PerDegree(gammaP, c, nf).value;
      forall x :: 0.0 <= x ==>
        (Chi2PdfDf(gammaP, x, nf) < q ==> nf as real * x < nf as real * r + HalfEps)
        && (q < Chi2PdfDf(gammaP, x, nf) ==> nf as real * r - HalfEps < nf as real * x)
  {
    var r := PerDegree(gammaP, c, nf).value;
    assert nf as real * r == c.value;
    forall x | 0.0 <= x
      ensures (Chi2PdfDf(gammaP, x, nf) < q ==> nf as real * x < nf as real * r + HalfEps)
        && (q < Chi2PdfDf(gammaP, x, nf) ==> nf as real * r - HalfEps < nf as real * x)
    {
      var cx := nf as real * x;
      assert 0.0 <= cx;
      Chi2PdfDfScaled(gammaP, x, nf, cx);
      assert (Chi2Df(gammaP, cx, nf) < q ==> cx < c.value + HalfEps) && (q < Chi2Df(gammaP, cx, nf) ==> c.value - HalfEps < cx);
    }
  }

  /** chi2pdf_xq: chi2_xq divided by the degrees of freedom. */
  method Chi2PdfXq(gammaP: (real, real) -> real, q: real, nf: nat, maxSteps: nat) returns (r: Result<real, Error>)
    ensures r == PerDegree(gammaP, Chi2Quantile(gammaP, q, nf, maxSteps), nf)
  {
    var x := Chi2Xq(gammaP, q, nf, maxSteps);
    if x.Failure? {
      r := Failure(x.error);
    } else if nf == 0 {
      r := Failure(ZeroDegreesOfFreedom);
    } else {
      r := Success(x.value / nf as real);
    }
  }
}
