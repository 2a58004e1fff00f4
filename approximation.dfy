/** Fitting the beam spread against w, the goodness of a fit, the emittance back-solved from
    the fitted parabola, and the choice of the best of several fitted curves. */
module Approximation {
  import opened Wrappers
  import opened RealMath
  import PhysicsParameters

  // ---------------------------------------------------------------- model curves

  /** y = a·x + b: the parabola without its square term. */
  function Linear(x: real, a: real, b: real): (y: real)
    ensures y == Quadratic(x, 0.0, a, b)
  {
    a * x + b
  }

  /** y = a·x² + b·x + c; c is its value at x = 0. */
  function Quadratic(x: real, a: real, b: real, c: real): (y: real)
    ensures x == 0.0 ==> y == c
  {
    a * Square(x) + b * x + c
  }

  /** The fitted parameters of a curve of known shape. */
  datatype Fit = LinearFit(a: real, b: real) | QuadraticFit(a: real, b: real, c: real)

  /** How many parameters the least-squares solver has to determine. */
  function Arity(f: Fit): nat
  {
    match f
    case LinearFit(_, _) => 2
    case QuadraticFit(_, _, _) => 3
  }

  function Evaluate(f: Fit, x: real): real
  {
    match f
    case LinearFit(a, b) => Linear(x, a, b)
    case QuadraticFit(a, b, c) => Quadratic(x, a, b, c)
  }

  /** The curve applied to every x, in order. */
  function Predict(f: Fit, xs: seq<real>): (ys: seq<real>)
    ensures |ys| == |xs| && forall i :: 0 <= i < |xs| ==> ys[i] == Evaluate(f, xs[i])
  {
    seq(|xs|, i requires 0 <= i < |xs| => Evaluate(f, xs[i]))
  }

  /** fit_function: the least-squares solver is not modelled; `solved` is what it returned.
      It raises, and the fit is None, when the data do not pair up or there are fewer points
      than parameters. */
  function FitFunction(xs: seq<real>, ys: seq<real>, solved: Option<Fit>): (r: Option<Fit>)
    ensures r.Some? <==> solved.Some? && |xs| == |ys| && Arity(solved.value) <= |xs|
    ensures r.Some? ==> r == solved
  {
    if solved.Some? && |xs| == |ys| && Arity(solved.value) <= |xs| then solved else None
  }

  // ---------------------------------------------------------------- goodness of fit

  /** A float64 result that may have left the reals. */
  datatype Score = Finite(value: real) | NegativeInfinity | NotANumber

  /** Residual sum of squares: never negative, and zero exactly for a prediction that
      reproduces the data. */
  function SSRes(actual: seq<real>, predicted: seq<real>): (r: real)
    requires |actual| == |predicted|
    ensures 0.0 <= r
    ensures r == 0.0 <==> predicted == actual
  {
    SqDiffZeroIff(actual, predicted);
    SqDiff(actual, predicted)
  }

  /** Total sum of squares about the mean; an empty sequence has none. */
  function SSTot(actual: seq<real>): (r: real)
    ensures 0.0 <= r
  {
    if |actual| == 0 then 0.0 else SqDev(actual, Mean(actual))
  }

  predicate Constant(s: seq<real>)
  {
    forall i :: 0 <= i < |s| ==> s[i] == s[0]
  }

  /** The total sum of squares vanishes exactly on a constant sequence. */
  lemma SSTotZeroIff(actual: seq<real>)
    ensures SSTot(actual) == 0.0 <==> Constant(actual)
  {
    if |actual| > 0 {
      SqDevZeroIff(actual, Mean(actual));
      if Constant(actual) {
        MeanOfConstant(actual, actual[0]);
      }
    }
  }

  /** calculate_r_squared: 1 − SS_res/SS_tot. On constant data float64 division by zero gives
      −inf when the residual is positive and NaN when it is zero. */
  function RSquared(actual: seq<real>, predicted: seq<real>): (r: Score)
    requires |actual| == |predicted|
    ensures r.Finite? <==> SSTot(actual) != 0.0
    ensures r == NotANumber <==> SSTot(actual) == 0.0 && SSRes(actual, predicted) == 0.0
  {
    var res, tot := SSRes(actual, predicted), SSTot(actual);
    if tot != 0.0 then Finite(1.0 - res / tot)
    else if res != 0.0 then NegativeInfinity
    else NotANumber
  }

  /** R² is a real number exactly when the data are not constant; it is then at most 1, and
      equal to 1 exactly when the prediction reproduces the data. */
  lemma RSquaredBounds(actual: seq<real>, predicted: seq<real>)
    requires |actual| == |predicted|
    ensures RSquared(actual, predicted).Finite? <==> !Constant(actual)
    ensures RSquared(actual, predicted).Finite? ==>
      RSquared(actual, predicted).value <= 1.0 &&
      (RSquared(actual, predicted).value == 1.0 <==> predicted == actual)
  {
    SSTotZeroIff(actual);
    SqDiffZeroIff(actual, predicted);
    var res, tot := SSRes(actual, predicted), SSTot(actual);
    if tot != 0.0 {
      DivNonNegative(res, tot);
      if res / tot == 0.0 {
        assert res == res / tot * tot;
      }
    }
  }

  /** On constant data R² is not a real number: NaN for a perfect prediction, −inf otherwise. */
  lemma RSquaredOfConstantData(actual: seq<real>, predicted: seq<real>)
    requires |actual| == |predicted| && Constant(actual)
    ensures RSquared(actual, predicted) == (if predicted == actual then NotANumber else NegativeInfinity)
  {
    SSTotZeroIff(actual);
    SqDiffZeroIff(actual, predicted);
  }

  /** The mean squared error of a prediction. */
  function MeanSquaredError(actual: seq<real>, predicted: seq<real>): (r: real)
    requires |actual| == |predicted| > 0
    ensures 0.0 <= r
  {
    DivNonNegative(SSRes(actual, predicted), |actual| as real);
    SSRes(actual, predicted) / (|actual| as real)
  }

  // ---------------------------------------------------------------- emittance

  /** The beam-matrix elements at the solenoid: σ₀ = a, σ₁ = b/(2d), σ₂ = c/d². */
  datatype Sigmas = Sigmas(s0: real, s1: real, s2: real)

  /** σ₀ is a itself, σ₁ vanishes with b, and σ₂ has the sign of c. */
  function BackSolve(a: real, b: real, c: real, d: real): (s: Sigmas)
    requires d != 0.0
    ensures s.s0 == a
    ensures s.s1 == 0.0 <==> b == 0.0
    ensures 0.0 <= s.s2 <==> 0.0 <= c
  {
    QuotientSign(c, Square(d));
    Sigmas(a, b / (2.0 * d), c / Square(d))
  }

  lemma QuotientSign(x: real, k: real)
    requires 0.0 < k
    ensures 0.0 <= x / k <==> 0.0 <= x
  {
    if 0.0 <= x {
      DivNonNegative(x, k);
    } else {
      assert x / k * k == x;
    }
  }

  /** The parabola coefficients a beam matrix produces over a drift d. */
  function ToCoefficients(s: Sigmas, d: real): (real, real, real)
  {
    (s.s0, 2.0 * d * s.s1, Square(d) * s.s2)
  }

  /** The back-solve recovers the coefficients it was given. */
  lemma ToCoefficientsOfBackSolve(a: real, b: real, c: real, d: real)
    requires d != 0.0
    ensures ToCoefficients(BackSolve(a, b, c, d), d) == (a, b, c)
  {
    LinearCoefficientRecovered(a, b, c, d);
    ConstantCoefficientRecovered(a, b, c, d);
  }

  lemma LinearCoefficientRecovered(a: real, b: real, c: real, d: real)
    requires d != 0.0
    ensures ToCoefficients(BackSolve(a, b, c, d), d).1 == b
  {
    MulInverse(2.0 * d, b, BackSolve(a, b, c, d).s1);
  }

  lemma ConstantCoefficientRecovered(a: real, b: real, c: real, d: real)
    requires d != 0.0
    ensures ToCoefficients(BackSolve(a, b, c, d), d).2 == c
  {
    MulInverse(Square(d), c, BackSolve(a, b, c, d).s2);
  }

  /** A beam matrix is recovered from the coefficients it produces. */
  lemma BackSolveOfToCoefficients(s: Sigmas, d: real)
    requires d != 0.0
    ensures var (a, b, c) := ToCoefficients(s, d); BackSolve(a, b, c, d) == s
  {
    InverseMul(2.0 * d, s.s1);
    InverseMul(Square(d), s.s2);
  }

  lemma MulInverse(k: real, x: real, y: real)
    requires k != 0.0 && y == x / k
    ensures k * y == x
  {}

  lemma InverseMul(k: real, x: real)
    requires k != 0.0
    ensures k * x / k == x
  {}

  /** The fitted parabola in terms of the beam matrix: σ₀w² + 2dσ₁w + d²σ₂. */
  lemma QuadraticInSigmas(w: real, a: real, b: real, c: real, d: real)
    requires d != 0.0
    ensures var s := BackSolve(a, b, c, d);
      Quadratic(w, a, b, c) == s.s0 * Square(w) + 2.0 * d * s.s1 * w + Square(d) * s.s2
  {
    ToCoefficientsOfBackSolve(a, b, c, d);
  }

  /** σ₀σ₂ − σ₁²: the squared emittance when it is not negative. It never exceeds σ₀σ₂, and
      reaches it exactly when σ₁ = 0. */
  function Radicand(s: Sigmas): (r: real)
    ensures r <= s.s0 * s.s2
    ensures r == s.s0 * s.s2 <==> s.s1 == 0.0
  {
    s.s0 * s.s2 - Square(s.s1)
  }

  /** The emittance √(σ₀σ₂ − σ₁²); a negative radicand makes it NaN. */
  function Emittance(s: Sigmas, sqrt: real -> real): (e: Option<real>)
    requires IsSqrt(sqrt)
    ensures e.Some? <==> 0.0 <= Radicand(s)
    ensures e.Some? ==> 0.0 <= e.value && Square(e.value) == Radicand(s)
  {
    if 0.0 <= Radicand(s) then Some(sqrt(Radicand(s))) else None
  }

  /** The worked example: with d = 0.5 and coefficients (1e-6, 1e-7, 2e-8) the back-solve gives
      σ₁ = 1e-7 and σ₂ = 8e-8, so the squared emittance is 7e-14. */
  lemma BackSolveExample()
    ensures BackSolve(0.000001, 0.0000001, 0.00000002, 0.5) == Sigmas(0.000001, 0.0000001, 0.00000008)
    ensures Radicand(BackSolve(0.000001, 0.0000001, 0.00000002, 0.5)) == 0.00000000000007
  {
    assert Square(0.5) == 0.25;
    assert Square(0.0000001) == 0.00000000000001;
  }

  /** The normalised emittance β·γ·ε: non-negative for a physical beam, and zero with ε. */
  function Normalised(beta: real, gamma: real, e: real): (n: real)
    ensures 0.0 <= beta && 0.0 <= gamma && 0.0 <= e ==> 0.0 <= n
    ensures e == 0.0 ==> n == 0.0
  {
    assert 0.0 <= beta && 0.0 <= gamma && 0.0 <= e ==> 0.0 <= beta * gamma * e by {
      if 0.0 <= beta && 0.0 <= gamma && 0.0 <= e {
        MulNonNegative(beta, gamma);
        MulNonNegative(beta * gamma, e);
      }
    }
    beta * gamma * e
  }

  /** The result dictionary of fit_parabola_and_calculate_emittance. */
  datatype EmittanceResult = EmittanceResult(
    sigmas: Sigmas,
    emittance: Option<real>,       // None where numpy gives NaN
    normEmittance: Option<real>,   // β·γ·emittance
    rSquared: Score,
    parameters: (real, real, real),
    predicted: seq<real>,
    paramNames: seq<string>)

  /** The names the parameters are reported under: x names for axis "x", y names otherwise. */
  function ParamNames(axisName: string): (names: seq<string>)
    ensures |names| == 5
    ensures axisName == "x" <==> names[3] == "emittance_x"
  {
    if axisName == "x" then ["sigma2_x0", "sigma2_xxp0", "sigma2_xpxp0", "emittance_x", "norm_emittance_x"]
    else ["sigma2_y0", "sigma2_yyp0", "sigma2_ypyp0", "emittance_y", "norm_emittance_y"]
  }

  /** fit_parabola_and_calculate_emittance: fit std = a·w² + b·w + c, score it, back-solve
      the beam matrix and take the emittance. A failed fit gives None. */
  function FitParabolaAndCalculateEmittance(ws: seq<real>, stds: seq<real>, d: real, gamma: real,
                                            beta: real, axisName: string, solved: Option<(real, real, real)>,
                                            sqrt: real -> real): (r: Option<EmittanceResult>)
    requires d != 0.0 && IsSqrt(sqrt)
    ensures r.Some? <==> solved.Some? && |ws| == |stds| && 3 <= |ws|
    ensures r.Some? ==>
      var (a, b, c) := solved.value;
      var e := r.value;
      e.parameters == (a, b, c) &&
      ToCoefficients(e.sigmas, d) == (a, b, c) &&
      |e.predicted| == |ws| &&
      (forall i :: 0 <= i < |ws| ==> e.predicted[i] == Quadratic(ws[i], a, b, c)) &&
      e.rSquared == RSquared(stds, e.predicted) &&
      (e.emittance.Some? <==> 0.0 <= Radicand(e.sigmas)) &&
      (e.emittance.Some? ==> 0.0 <= e.emittance.value && Square(e.emittance.value) == Radicand(e.sigmas)) &&
      e.normEmittance == (if e.emittance.Some? then Some(Normalised(beta, gamma, e.emittance.value)) else None) &&
      e.paramNames == ParamNames(axisName)
  {
    var fit := FitFunction(ws, stds, if solved.Some? then Some(QuadraticFit(solved.value.0, solved.value.1, solved.value.2)) else None);
    if fit.None? then None
    else
      var (a, b, c) := solved.value;
      var predicted := Predict(QuadraticFit(a, b, c), ws);
      var sigmas := BackSolve(a, b, c, d);
      ToCoefficientsOfBackSolve(a, b, c, d);
      var emittance := Emittance(sigmas, sqrt);
      Some(EmittanceResult(
        sigmas,
        emittance,
        if emittance.Some? then Some(Normalised(beta, gamma, emittance.value)) else None,
        RSquared(stds, predicted),
        (a, b, c),
        predicted,
        ParamNames(axisName)))
  }

  /** For a beam with real γ and β, the square of the normalised emittance is the squared
      emittance times (γβ)² = γ² − 1. */
  lemma NormalisedEmittanceSquared(epsilon: real, sqrt: real -> real, e: real)
    requires IsSqrt(sqrt) && PhysicsParameters.Relativistic(epsilon, sqrt).Success?
    ensures var beam := PhysicsParameters.Relativistic(epsilon, sqrt).value;
      Square(Normalised(beam.beta, beam.gamma, e)) == (Square(beam.gamma) - 1.0) * Square(e)
  {
    var beam := PhysicsParameters.Relativistic(epsilon, sqrt).value;
    PhysicsParameters.MomentumSquared(epsilon, sqrt);
    assert beam.beta * beam.gamma == beam.gamma * beam.beta;
    PhysicsParameters.SquareOfProduct(beam.beta * beam.gamma, e);
  }

  /** calculate_total_emittance: the geometric mean √(εx·εy); NaN when the product is negative. */
  function TotalEmittance(ex: real, ey: real, sqrt: real -> real): (r: Option<real>)
    requires IsSqrt(sqrt)
    ensures r.Some? <==> 0.0 <= ex * ey
    ensures r.Some? ==> 0.0 <= r.value && Square(r.value) == ex * ey
  {
    if 0.0 <= ex * ey then Some(sqrt(ex * ey)) else None
  }

  /** Equal emittances along the two axes are the total emittance. */
  lemma TotalEmittanceOfEqual(e: real, sqrt: real -> real)
    requires IsSqrt(sqrt) && 0.0 <= e
    ensures TotalEmittance(e, e, sqrt) == Some(e)
  {
    SqrtUnique(sqrt, e);
    SquareIsProduct(e);
  }

  /** The total emittance lies between the two axis emittances. */
  lemma TotalEmittanceBetween(ex: real, ey: real, sqrt: real -> real)
    requires IsSqrt(sqrt) && 0.0 <= ex && 0.0 <= ey
    ensures TotalEmittance(ex, ey, sqrt).Some?
    ensures var t := TotalEmittance(ex, ey, sqrt).value;
      (ex <= t <= ey) || (ey <= t <= ex)
  {
    MulNonNegative(ex, ey);
    if ex <= ey {
      GeometricMeanBetween(ex, ey, sqrt);
    } else {
      GeometricMeanBetween(ey, ex, sqrt);
      assert ey * ex == ex * ey;
    }
  }

  lemma GeometricMeanBetween(lo: real, hi: real, sqrt: real -> real)
    requires IsSqrt(sqrt) && 0.0 <= lo <= hi
    ensures lo <= sqrt(lo * hi) <= hi
  {
    ProductBetweenSquares(lo, hi);
    SqrtMonotone(sqrt, Square(lo), lo * hi);
    SqrtMonotone(sqrt, lo * hi, Square(hi));
    SqrtUnique(sqrt, lo);
    SqrtUnique(sqrt, hi);
  }

  lemma ProductBetweenSquares(lo: real, hi: real)
    requires 0.0 <= lo <= hi
    ensures Square(lo) <= lo * hi <= Square(hi)
  {
    SquareIsProduct(lo);
    SquareIsProduct(hi);
    MulNonNegative(lo, hi - lo);
    MulNonNegative(hi, hi - lo);
  }

  /** The square root is monotone. */
  lemma SqrtMonotone(sqrt: real -> real, x: real, y: real)
    requires IsSqrt(sqrt) && 0.0 <= x <= y
    ensures sqrt(x) <= sqrt(y)
  {
    if sqrt(y) < sqrt(x) {
      SquareLess(sqrt(y), sqrt(x));
    }
  }

  // ---------------------------------------------------------------- comparing curves

  /** One entry of functions_dict: a name, the shape of its curve and what the solver returned
      for it. */
  datatype Candidate = Candidate(name: string, solved: Option<Fit>)

  /** One entry of the results dictionary. */
  datatype Approximated = Approximated(parameters: Fit, rSquared: Score, mse: real, predicted: seq<real>)

  predicate DistinctNames(cs: seq<Candidate>)
  {
    forall i, j :: 0 <= i < j < |cs| ==> cs[i].name != cs[j].name
  }

  /** What one candidate contributes, if its fit succeeds. */
  function Approximate(xs: seq<real>, ys: seq<real>, c: Candidate): (r: Option<Approximated>)
    ensures r.Some? <==> FitFunction(xs, ys, c.solved).Some?
    ensures r.Some? ==>
      r.value.parameters == c.solved.value &&
      r.value.predicted == Predict(c.solved.value, xs) &&
      r.value.rSquared == RSquared(ys, r.value.predicted)
  {
    match FitFunction(xs, ys, c.solved)
    case None => None
    case Some(f) =>
      var predicted := Predict(f, xs);
      Some(Approximated(f, RSquared(ys, predicted), MeanSquaredError(ys, predicted), predicted))
  }

  /** compare_approximations as a function: the successful fits, in dictionary order. */
  function Compared(xs: seq<real>, ys: seq<real>, cs: seq<Candidate>): (rs: seq<(string, Approximated)>)
    ensures |rs| <= |cs|
  {
    if cs == [] then []
    else
      var n := |cs| - 1;
      var rest := Compared(xs, ys, cs[..n]);
      match Approximate(xs, ys, cs[n])
      case None => rest
      case Some(a) => rest + [(cs[n].name, a)]
  }

  /** Every entry of the results is the successful fit of a candidate of that name. */
  lemma {:induction false} ComparedSound(xs: seq<real>, ys: seq<real>, cs: seq<Candidate>, k: nat)
    requires k < |Compared(xs, ys, cs)|
    ensures exists i ::
      0 <= i < |cs| && cs[i].name == Compared(xs, ys, cs)[k].0 &&
      Approximate(xs, ys, cs[i]) == Some(Compared(xs, ys, cs)[k].1)
  {
    var n := |cs| - 1;
    var rs, rest := Compared(xs, ys, cs), Compared(xs, ys, cs[..n]);
    if k < |rest| {
      assert rs[k] == rest[k];
      ComparedSound(xs, ys, cs[..n], k);
      var i :| 0 <= i < n && cs[..n][i].name == rest[k].0 && Approximate(xs, ys, cs[..n][i]) == Some(rest[k].1);
      assert cs[i] == cs[..n][i];
    } else {
      assert cs[n].name == rs[k].0 && Approximate(xs, ys, cs[n]) == Some(rs[k].1);
    }
  }

  /** Every candidate whose fit succeeds has an entry under its name. */
  lemma {:induction false} ComparedComplete(xs: seq<real>, ys: seq<real>, cs: seq<Candidate>, i: nat)
    requires i < |cs| && Approximate(xs, ys, cs[i]).Some?
    ensures exists k :: 0 <= k < |Compared(xs, ys, cs)| && Compared(xs, ys, cs)[k].0 == cs[i].name
  {
    var n := |cs| - 1;
    var rs, rest := Compared(xs, ys, cs), Compared(xs, ys, cs[..n]);
    if i < n {
      assert cs[..n][i] == cs[i];
      ComparedComplete(xs, ys, cs[..n], i);
      var k :| 0 <= k < |rest| && rest[k].0 == cs[..n][i].name;
      assert rs[k] == rest[k];
    } else {
      assert rs[|rs| - 1].0 == cs[n].name;
    }
  }

  predicate DistinctKeys(rs: seq<(string, Approximated)>)
  {
    forall k, m :: 0 <= k < m < |rs| ==> rs[k].0 != rs[m].0
  }

  /** Candidates under distinct names give a results dictionary without repeated keys. */
  lemma {:induction false} ComparedNamesDistinct(xs: seq<real>, ys: seq<real>, cs: seq<Candidate>)
    requires DistinctNames(cs)
    ensures DistinctKeys(Compared(xs, ys, cs))
  {
    if cs != [] {
      var n := |cs| - 1;
      var rs, rest := Compared(xs, ys, cs), Compared(xs, ys, cs[..n]);
      ComparedNamesDistinct(xs, ys, cs[..n]);
      forall k | 0 <= k < |rest|
        ensures rest[k].0 != cs[n].name
      {
        ComparedSound(xs, ys, cs[..n], k);
        var i :| 0 <= i < n && cs[..n][i].name == rest[k].0 && Approximate(xs, ys, cs[..n][i]) == Some(rest[k].1);
        assert cs[..n][i] == cs[i];
      }
      var a := Approximate(xs, ys, cs[n]);
      if a.Some? {
        assert rs == rest + [(cs[n].name, a.value)];
        forall k, m | 0 <= k < m < |rs|
          ensures rs[k].0 != rs[m].0
        {
          assert rs[k] == rest[k];
          if m < |rest| {
            assert rs[m] == rest[m];
          } else {
            assert rs[m].0 == cs[n].name;
          }
        }
      } else {
        assert rs == rest;
      }
    }
  }

  /** compare_approximations: the loop that fills the results dictionary. */
  method CompareApproximations(xs: seq<real>, ys: seq<real>, cs: seq<Candidate>)
    returns (results: seq<(string, Approximated)>)
    ensures results == Compared(xs, ys, cs)
  {
    results := [];
    for i := 0 to |cs|
      invariant results == Compared(xs, ys, cs[..i])
    {
      assert cs[..i + 1][..i] == cs[..i];
      var c := cs[i];
      var fit := FitFunction(xs, ys, c.solved);
      if fit.Some? {
        var predicted := Predict(fit.value, xs);
        var rSquared := RSquared(ys, predicted);
        var mse := MeanSquaredError(ys, predicted);
        results := results + [(c.name, Approximated(fit.value, rSquared, mse, predicted))];
      }
    }
    assert cs[..|cs|] == cs;
  }

  // ---------------------------------------------------------------- best approximation

  /** Python's `>` on float64 scores: every comparison with NaN is false, and −inf is below
      every number. */
  predicate Greater(x: Score, y: Score)
    ensures Greater(x, y) ==> x.Finite? && y != NotANumber
    ensures x.Finite? && y == NegativeInfinity ==> Greater(x, y)
  {
    match (x, y)
    case (Finite(a), Finite(b)) => a > b
    case (Finite(_), NegativeInfinity) => true
    case _ => false
  }

  /** max over the keys: the running best is replaced only by a strictly greater score. */
  function BestIndex(scores: seq<Score>): (i: nat)
    requires |scores| > 0
    ensures i < |scores|
  {
    if |scores| == 1 then 0
    else
      var n := |scores| - 1;
      var best := BestIndex(scores[..n]);
      if Greater(scores[n], scores[best]) then n else best
  }

  predicate AllFinite(scores: seq<Score>)
  {
    forall i :: 0 <= i < |scores| ==> scores[i].Finite?
  }

  /** With real scores only, the chosen one is maximal, and it is the first maximal one. */
  lemma {:induction false} BestIndexIsFirstMaximum(scores: seq<Score>)
    requires |scores| > 0 && AllFinite(scores)
    ensures forall k :: 0 <= k < |scores| ==> scores[k].value <= scores[BestIndex(scores)].value
    ensures forall k :: 0 <= k < BestIndex(scores) ==> scores[k].value < scores[BestIndex(scores)].value
  {
    if |scores| > 1 {
      var n := |scores| - 1;
      BestIndexIsFirstMaximum(scores[..n]);
      assert forall k :: 0 <= k < n ==> scores[..n][k] == scores[k];
    }
  }

  /** Without a real score nothing is strictly greater than the first one, so it stays. */
  lemma {:induction false} BestIndexWithoutFinite(scores: seq<Score>)
    requires |scores| > 0 && forall k :: 0 <= k < |scores| ==> !scores[k].Finite?
    ensures BestIndex(scores) == 0
  {
    if |scores| > 1 {
      var n := |scores| - 1;
      assert forall k :: 0 <= k < n ==> scores[..n][k] == scores[k];
      BestIndexWithoutFinite(scores[..n]);
    }
  }

  function Scores(rs: seq<(string, Approximated)>): (s: seq<Score>)
    ensures |s| == |rs| && forall i :: 0 <= i < |rs| ==> s[i] == rs[i].1.rSquared
  {
    seq(|rs|, i requires 0 <= i < |rs| => rs[i].1.rSquared)
  }

  /** find_best_approximation: nothing when no fit succeeded, otherwise the name, parameters
      and predictions of the entry max picks. */
  function FindBestApproximation(xs: seq<real>, ys: seq<real>, cs: seq<Candidate>)
    : (r: Option<(string, Fit, seq<real>)>)
    ensures r.None? <==> Compared(xs, ys, cs) == []
    ensures r.Some? ==>
      var rs := Compared(xs, ys, cs);
      var best := rs[BestIndex(Scores(rs))];
      r.value == (best.0, best.1.parameters, best.1.predicted)
  {
    var rs := Compared(xs, ys, cs);
    if rs == [] then None
    else
      var best := rs[BestIndex(Scores(rs))];
      Some((best.0, best.1.parameters, best.1.predicted))
  }

  /** Every R² in the results is scored against the same data, so either all of them are real
      numbers (the data are not constant) or none is. */
  lemma ComparedScoresFinite(xs: seq<real>, ys: seq<real>, cs: seq<Candidate>)
    ensures forall k :: 0 <= k < |Compared(xs, ys, cs)| ==>
      (Compared(xs, ys, cs)[k].1.rSquared.Finite? <==> !Constant(ys))
  {
    var rs := Compared(xs, ys, cs);
    forall k | 0 <= k < |rs|
      ensures rs[k].1.rSquared.Finite? <==> !Constant(ys)
    {
      ComparedSound(xs, ys, cs, k);
      var i :| 0 <= i < |cs| && cs[i].name == rs[k].0 && Approximate(xs, ys, cs[i]) == Some(rs[k].1);
      RSquaredBounds(ys, rs[k].1.predicted);
    }
  }

  /** On data that are not constant the chosen curve fits at least as well as every other
      successful fit, and strictly better than every one before it in dictionary order. */
  lemma FindBestApproximationIsBest(xs: seq<real>, ys: seq<real>, cs: seq<Candidate>)
    requires FindBestApproximation(xs, ys, cs).Some? && !Constant(ys)
    ensures forall k :: 0 <= k < |Compared(xs, ys, cs)| ==> Compared(xs, ys, cs)[k].1.rSquared.Finite?
    ensures var rs := Compared(xs, ys, cs);
      var b := BestIndex(Scores(rs));
      FindBestApproximation(xs, ys, cs).value.0 == rs[b].0 &&
      (forall k :: 0 <= k < |rs| ==> rs[k].1.rSquared.value <= rs[b].1.rSquared.value) &&
      (forall k :: 0 <= k < b ==> rs[k].1.rSquared.value < rs[b].1.rSquared.value)
  {
    var rs := Compared(xs, ys, cs);
    ComparedScoresFinite(xs, ys, cs);
    assert AllFinite(Scores(rs));
    BestIndexIsFirstMaximum(Scores(rs));
  }

  /** On constant data no R² is a real number and the first successful fit is returned, even
      when a later one reproduces the data exactly. */
  lemma FindBestApproximationOnConstantData(xs: seq<real>, ys: seq<real>, cs: seq<Candidate>)
    requires FindBestApproximation(xs, ys, cs).Some? && Constant(ys)
    ensures FindBestApproximation(xs, ys, cs).value.0 == Compared(xs, ys, cs)[0].0
  {
    var rs := Compared(xs, ys, cs);
    ComparedScoresFinite(xs, ys, cs);
    assert forall k :: 0 <= k < |rs| ==> !Scores(rs)[k].Finite?;
    BestIndexWithoutFinite(Scores(rs));
  }
}
