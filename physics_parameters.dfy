/** Physical constants, the relativistic factors of the beam and the focusing parameter w of
    the solenoid for each field value. */
module PhysicsParameters {
  import opened Wrappers
  import opened RealMath

  /** Speed of light (m/s). */
  const C: real := 299792458.0
  /** Electron mass (kg). */
  const M: real := 9.1093837015e-31
  /** Elementary charge (C). */
  const E: real := 1.602176634e-19
  /** Electron rest energy m·c² (J). */
  const MC2: real := M * C * C

  /** The Lorentz factor and the speed in units of c. */
  datatype Beam = Beam(gamma: real, beta: real)

  /** Where the floating-point computation stops being a number. */
  datatype PhysicsError =
    | ZeroGamma     // a zero energy makes 1/γ² a division by zero, which Python raises
    | BetaUndefined // γ² < 1 puts a negative number under the square root (NaN)
    | ZeroMomentum  // γ·β == 0 makes the denominator of w zero (inf or NaN)

  lemma RestEnergyPositive()
    ensures 0.0 < MC2
  {
    MulPositive(M, C);
    MulPositive(M * C, C);
  }

  /** calculate_relativistic_parameters: γ = ε/(m·c²) and β = √(1 − 1/γ²). */
  function Relativistic(epsilon: real, sqrt: real -> real): (r: Result<Beam, PhysicsError>)
    requires IsSqrt(sqrt)
    ensures r == Failure(ZeroGamma) <==> epsilon == 0.0
    ensures r == Failure(BetaUndefined) <==> epsilon != 0.0 && Square(epsilon / MC2) < 1.0
    ensures r.Success? <==> epsilon != 0.0 && 1.0 <= Square(epsilon / MC2)
    ensures r.Success? ==>
      r.value.gamma == epsilon / MC2 && 1.0 <= Square(r.value.gamma) &&
      0.0 <= r.value.beta < 1.0 && Square(r.value.beta) == 1.0 - 1.0 / Square(r.value.gamma)
  {
    RestEnergyPositive();
    var gamma := epsilon / MC2;
    if gamma == 0.0 then Failure(ZeroGamma)
    else if Square(gamma) < 1.0 then Failure(BetaUndefined)
    else
      var beta := sqrt(1.0 - 1.0 / Square(gamma));
      BetaBelowOne(gamma, beta);
      Success(Beam(gamma, beta))
  }

  lemma BetaBelowOne(gamma: real, beta: real)
    requires 1.0 <= Square(gamma) && 0.0 <= beta && Square(beta) == 1.0 - 1.0 / Square(gamma)
    ensures beta < 1.0
  {
    assert 0.0 < 1.0 / Square(gamma);
    if 1.0 <= beta {
      if 1.0 < beta {
        SquareLess(1.0, beta);
      }
    }
  }

  /** The momentum factor of the beam: (γ·β)² = γ² − 1. */
  lemma MomentumSquared(epsilon: real, sqrt: real -> real)
    requires IsSqrt(sqrt) && Relativistic(epsilon, sqrt).Success?
    ensures var b := Relativistic(epsilon, sqrt).value;
      Square(b.gamma * b.beta) == Square(b.gamma) - 1.0
  {
    var b := Relativistic(epsilon, sqrt).value;
    SquareOfProduct(b.gamma, b.beta);
    var g2 := Square(b.gamma);
    assert g2 * (1.0 - 1.0 / g2) == g2 - 1.0;
  }

  lemma SquareOfProduct(x: real, y: real)
    ensures Square(x * y) == Square(x) * Square(y)
  {}

  /** An electron with twice its rest energy has γ = 2 and β² = 3/4. */
  lemma TwiceRestEnergy(sqrt: real -> real)
    requires IsSqrt(sqrt)
    ensures Relativistic(2.0 * MC2, sqrt).Success?
    ensures Relativistic(2.0 * MC2, sqrt).value.gamma == 2.0
    ensures Square(Relativistic(2.0 * MC2, sqrt).value.beta) == 0.75
  {
    RestEnergyPositive();
    assert 2.0 * MC2 / MC2 == 2.0;
  }

  /** w = 1 − d·l·(e·Z·B)² / (2·m·c·γ·β)² for one field value B. Without a drift, without
      a solenoid length or without charge nothing focuses: w = 1. */
  function W(b: real, d: real, l: real, z: real, beam: Beam): (w: real)
    requires beam.gamma * beam.beta != 0.0
    ensures d * l == 0.0 || z == 0.0 ==> w == 1.0
  {
    assert z == 0.0 ==> E * z * b == 0.0;
    1.0 - d * l * Square(E * z * b) / Square(2.0 * M * C * beam.gamma * beam.beta)
  }

  /** No field, no focusing: w = 1. */
  lemma WAtZeroField(d: real, l: real, z: real, beam: Beam)
    requires beam.gamma * beam.beta != 0.0
    ensures W(0.0, d, l, z, beam) == 1.0
  {
    assert E * z * 0.0 == 0.0;
  }

  /** w depends on the field only through its square. */
  lemma WEven(b: real, d: real, l: real, z: real, beam: Beam)
    requires beam.gamma * beam.beta != 0.0
    ensures W(-b, d, l, z, beam) == W(b, d, l, z, beam)
  {
    var x := E * z * b;
    assert E * z * -b == -x;
    SquareOfNegation(x);
    SameQuotient(Square(E * z * -b), Square(x), d * l, Square(2.0 * M * C * beam.gamma * beam.beta));
  }

  /** Replacing the square in the numerator of w by an equal one leaves w unchanged. */
  lemma SameQuotient(s1: real, s2: real, k: real, den: real)
    requires s1 == s2 && den != 0.0
    ensures 1.0 - k * s1 / den == 1.0 - k * s2 / den
  {}

  lemma SquareOfNegation(x: real)
    ensures Square(-x) == Square(x)
  {}

  /** With d·l ≥ 0 the solenoid only lowers w. */
  lemma WAtMostOne(b: real, d: real, l: real, z: real, beam: Beam)
    requires beam.gamma * beam.beta != 0.0 && 0.0 <= d * l
    ensures W(b, d, l, z, beam) <= 1.0
  {
    MulNonNegative(d * l, Square(E * z * b));
    var den := Square(2.0 * M * C * beam.gamma * beam.beta);
    assert 2.0 * M * C * beam.gamma * beam.beta != 0.0 by {
      MulPositive(2.0 * M, C);
      NonZeroProduct(2.0 * M * C, beam.gamma * beam.beta);
      assert 2.0 * M * C * (beam.gamma * beam.beta) == 2.0 * M * C * beam.gamma * beam.beta;
    }
    DivNonNegative(d * l * Square(E * z * b), den);
  }

  lemma NonZeroProduct(a: real, b: real)
    requires a != 0.0 && b != 0.0
    ensures a * b != 0.0
  {}

  /** The w value of every field value, in order. */
  function WValues(fieldValues: seq<real>, d: real, l: real, z: real, beam: Beam): (ws: seq<real>)
    requires beam.gamma * beam.beta != 0.0
    ensures |ws| == |fieldValues|
    ensures forall i :: 0 <= i < |ws| ==> ws[i] == W(fieldValues[i], d, l, z, beam)
  {
    seq(|fieldValues|, i requires 0 <= i < |fieldValues| => W(fieldValues[i], d, l, z, beam))
  }

  /** calculate_w_parameter as a function: γ and β computed once from ε, then one w per
      field value. A zero energy fails at once; an undefined β or a zero γ·β only fails once
      there is a field value to compute w for. */
  function WParameters(fieldValues: seq<real>, d: real, l: real, z: real, epsilon: real,
                       sqrt: real -> real): (r: Result<seq<real>, PhysicsError>)
    requires IsSqrt(sqrt)
    ensures epsilon == 0.0 ==> r == Failure(ZeroGamma)
    ensures r.Success? <==> epsilon != 0.0 && (|fieldValues| == 0 || 1.0 < Square(epsilon / MC2))
    ensures r.Success? ==> |r.value| == |fieldValues|
  {
    match Relativistic(epsilon, sqrt)
    case Failure(e) => if e == ZeroGamma || |fieldValues| > 0 then Failure(e) else Success([])
    case Success(beam) =>
      MomentumSquared(epsilon, sqrt);
      if beam.gamma * beam.beta != 0.0 then Success(WValues(fieldValues, d, l, z, beam))
      else if |fieldValues| > 0 then Failure(ZeroMomentum)
      else Success([])
  }

  /** Every w of a successful run is the transform of the field value at the same position,
      with the one beam shared by all of them; w(0) = 1 and w ≤ 1 when d·l ≥ 0. */
  lemma WParametersElements(fieldValues: seq<real>, d: real, l: real, z: real, epsilon: real,
                            sqrt: real -> real)
    requires IsSqrt(sqrt) && |fieldValues| > 0
    requires WParameters(fieldValues, d, l, z, epsilon, sqrt).Success?
    ensures Relativistic(epsilon, sqrt).Success?
    ensures var beam, ws := Relativistic(epsilon, sqrt).value, WParameters(fieldValues, d, l, z, epsilon, sqrt).value;
      beam.gamma * beam.beta != 0.0 &&
      (forall i :: 0 <= i < |ws| ==> ws[i] == W(fieldValues[i], d, l, z, beam)) &&
      (forall i :: 0 <= i < |ws| && fieldValues[i] == 0.0 ==> ws[i] == 1.0) &&
      (0.0 <= d * l ==> forall i :: 0 <= i < |ws| ==> ws[i] <= 1.0)
  {
    var beam := Relativistic(epsilon, sqrt).value;
    forall i | 0 <= i < |fieldValues|
      ensures fieldValues[i] == 0.0 ==> W(fieldValues[i], d, l, z, beam) == 1.0
      ensures 0.0 <= d * l ==> W(fieldValues[i], d, l, z, beam) <= 1.0
    {
      WAtZeroField(d, l, z, beam);
      if 0.0 <= d * l {
        WAtMostOne(fieldValues[i], d, l, z, beam);
      }
    }
  }

  /** calculate_w_parameter: the loop that appends one w per field value. */
  method CalculateWParameter(fieldValues: seq<real>, d: real, l: real, z: real, epsilon: real,
                             sqrt: real -> real)
    returns (r: Result<seq<real>, PhysicsError>)
    requires IsSqrt(sqrt)
    ensures r == WParameters(fieldValues, d, l, z, epsilon, sqrt)
  {
    var rel := Relativistic(epsilon, sqrt);
    if rel.Failure? {
      if rel.error == ZeroGamma || |fieldValues| > 0 {
        return Failure(rel.error);
      }
      return Success([]);
    }
    var beam := rel.value;
    if beam.gamma * beam.beta == 0.0 {
      if |fieldValues| > 0 {
        return Failure(ZeroMomentum);
      }
      return Success([]);
    }
    var ws: seq<real> := [];
    for i := 0 to |fieldValues|
      invariant ws == WValues(fieldValues[..i], d, l, z, beam)
    {
      var b := fieldValues[i];
      ws := ws + [W(b, d, l, z, beam)];
      assert fieldValues[..i + 1][i] == b;
    }
    assert fieldValues[..|fieldValues|] == fieldValues;
    return Success(ws);
  }
}
