/** Sums, means and squared deviations over exact reals, and the square root the
    program takes from numpy. */
module RealMath {

  /** np.sqrt, given as a parameter: on a non-negative argument it is the non-negative
      square root; on a negative argument (where numpy yields NaN) nothing is known. */
  ghost predicate IsSqrt(sqrt: real -> real)
  {
    forall x: real :: 0.0 <= x ==> 0.0 <= sqrt(x) && Square(sqrt(x)) == x
  }

  /** The square root is determined by its square. */
  lemma SqrtUnique(sqrt: real -> real, y: real)
    requires IsSqrt(sqrt)
    requires 0.0 <= y
    ensures sqrt(Square(y)) == y
  {
    var s := sqrt(Square(y));
    if s < y {
      SquareLess(s, y);
    } else if y < s {
      SquareLess(y, s);
    }
  }

  lemma MulPositive(a: real, b: real)
    requires 0.0 < a && 0.0 < b
    ensures 0.0 < a * b
  {}

  lemma MulNonNegative(a: real, b: real)
    requires 0.0 <= a && 0.0 <= b
    ensures 0.0 <= a * b
  {}

  /** The identity; it lets a square be written as a product of two distinct terms,
      a form whose sign the solver's non-linear arithmetic decides. */
  function Same(x: real): real
  {
    x
  }

  /** x², positive exactly off zero. */
  function Square(x: real): (r: real)
    ensures 0.0 <= r
    ensures x != 0.0 ==> 0.0 < r
  {
    x * Same(x)
  }

  lemma SquareIsProduct(x: real)
    ensures Square(x) == x * x
  {}

  /** Squaring is strictly increasing on the non-negative reals. */
  lemma SquareLess(s: real, y: real)
    requires 0.0 <= s < y
    ensures Square(s) < Square(y)
  {
    var d := y - s;
    assert Square(y) - Square(s) == s * d + d * y;
  }

  predicate NonNegative(s: seq<real>)
  {
    forall i :: 0 <= i < |s| ==> 0.0 <= s[i]
  }

  predicate Positive(s: seq<real>)
  {
    forall i :: 0 <= i < |s| ==> 0.0 < s[i]
  }

  /** A quotient of a non-negative number by a positive one is non-negative. */
  lemma DivNonNegative(a: real, b: real)
    requires 0.0 <= a && 0.0 < b
    ensures 0.0 <= a / b
  {}

  /** Σ s[i]. */
  function Sum(s: seq<real>): (r: real)
    ensures NonNegative(s) ==> 0.0 <= r
  {
    if s == [] then 0.0 else s[0] + Sum(s[1..])
  }

  /** The arithmetic mean (np.mean). */
  function Mean(s: seq<real>): real
    requires |s| > 0
  {
    Sum(s) / (|s| as real)
  }

  /** Σ w[i]·x[i]. */
  function WeightedSum(xs: seq<real>, ws: seq<real>): real
    requires |xs| == |ws|
  {
    if xs == [] then 0.0 else ws[0] * xs[0] + WeightedSum(xs[1..], ws[1..])
  }

  /** Σ w[i]·(x[i] − mu)². */
  function WeightedSqDev(xs: seq<real>, ws: seq<real>, mu: real): (r: real)
    requires |xs| == |ws|
    ensures NonNegative(ws) ==> 0.0 <= r
  {
    if xs == [] then 0.0
    else
      assert 0.0 <= ws[0] ==> 0.0 <= ws[0] * Square(xs[0] - mu) by {
        if 0.0 <= ws[0] { MulNonNegative(ws[0], Square(xs[0] - mu)); }
      }
      ws[0] * Square(xs[0] - mu) + WeightedSqDev(xs[1..], ws[1..], mu)
  }

  /** Σ (x[i] − mu)². */
  function SqDev(xs: seq<real>, mu: real): (r: real)
    ensures 0.0 <= r
  {
    if xs == [] then 0.0
    else
      Square(xs[0] - mu) + SqDev(xs[1..], mu)
  }

  /** Σ (x[i] − y[i])². */
  function SqDiff(xs: seq<real>, ys: seq<real>): (r: real)
    requires |xs| == |ys|
    ensures 0.0 <= r
  {
    if xs == [] then 0.0
    else
      Square(xs[0] - ys[0]) + SqDiff(xs[1..], ys[1..])
  }

  /** The population variance (what np.var and np.std use, ddof = 0). */
  function PopVariance(xs: seq<real>): (r: real)
    requires |xs| > 0
    ensures 0.0 <= r
  {
    SqDev(xs, Mean(xs)) / (|xs| as real)
  }

  /** One term away from mu makes the sum of squared deviations positive. */
  lemma {:induction false} SqDevPositive(xs: seq<real>, mu: real, i: int)
    requires 0 <= i < |xs| && xs[i] != mu
    ensures 0.0 < SqDev(xs, mu)
  {
    if i > 0 {
      assert xs[1..][i - 1] == xs[i];
      SqDevPositive(xs[1..], mu, i - 1);
    }
  }

  lemma {:induction false} SqDevOfConstant(xs: seq<real>, mu: real)
    requires forall i :: 0 <= i < |xs| ==> xs[i] == mu
    ensures SqDev(xs, mu) == 0.0
  {
    if xs != [] {
      SqDevOfConstant(xs[1..], mu);
    }
  }

  /** A sum of squared deviations vanishes exactly when every term equals mu. */
  lemma SqDevZeroIff(xs: seq<real>, mu: real)
    ensures SqDev(xs, mu) == 0.0 <==> forall i :: 0 <= i < |xs| ==> xs[i] == mu
  {
    if forall i :: 0 <= i < |xs| ==> xs[i] == mu {
      SqDevOfConstant(xs, mu);
    } else {
      var i :| 0 <= i < |xs| && xs[i] != mu;
      SqDevPositive(xs, mu, i);
    }
  }

  /** One differing position makes the residual sum of squares positive. */
  lemma {:induction false} SqDiffPositive(xs: seq<real>, ys: seq<real>, i: int)
    requires |xs| == |ys|
    requires 0 <= i < |xs| && xs[i] != ys[i]
    ensures 0.0 < SqDiff(xs, ys)
  {
    if i > 0 {
      assert xs[1..][i - 1] == xs[i] && ys[1..][i - 1] == ys[i];
      SqDiffPositive(xs[1..], ys[1..], i - 1);
    }
  }

  lemma {:induction false} SqDiffOfEqual(xs: seq<real>)
    ensures SqDiff(xs, xs) == 0.0
  {
    if xs != [] {
      SqDiffOfEqual(xs[1..]);
    }
  }

  /** Σ (x − y)² vanishes exactly when the two sequences are equal. */
  lemma SqDiffZeroIff(xs: seq<real>, ys: seq<real>)
    requires |xs| == |ys|
    ensures SqDiff(xs, ys) == 0.0 <==> xs == ys
  {
    if xs == ys {
      SqDiffOfEqual(xs);
    } else {
      var i :| 0 <= i < |xs| && xs[i] != ys[i];
      SqDiffPositive(xs, ys, i);
    }
  }

  /** The sum of n copies of c. */
  lemma {:induction false} SumOfConstant(ws: seq<real>, c: real)
    requires forall i :: 0 <= i < |ws| ==> ws[i] == c
    ensures Sum(ws) == c * (|ws| as real)
  {
    if ws != [] {
      SumOfConstant(ws[1..], c);
    }
  }

  /** With every weight equal to c, the weighted sum is c times the plain sum. */
  lemma {:induction false} WeightedSumOfConstant(xs: seq<real>, ws: seq<real>, c: real)
    requires |xs| == |ws|
    requires forall i :: 0 <= i < |ws| ==> ws[i] == c
    ensures WeightedSum(xs, ws) == c * Sum(xs)
  {
    if xs != [] {
      WeightedSumOfConstant(xs[1..], ws[1..], c);
    }
  }

  /** With every weight equal to c, the weighted squared deviation is c times the plain one. */
  lemma {:induction false} WeightedSqDevOfConstant(xs: seq<real>, ws: seq<real>, c: real, mu: real)
    requires |xs| == |ws|
    requires forall i :: 0 <= i < |ws| ==> ws[i] == c
    ensures WeightedSqDev(xs, ws, mu) == c * SqDev(xs, mu)
  {
    if xs != [] {
      WeightedSqDevOfConstant(xs[1..], ws[1..], c, mu);
    }
  }

  /** The mean of a constant sequence is that constant. */
  lemma MeanOfConstant(xs: seq<real>, v: real)
    requires |xs| > 0
    requires forall i :: 0 <= i < |xs| ==> xs[i] == v
    ensures Mean(xs) == v
  {
    SumOfConstant(xs, v);
  }

  /** With every value equal to c, the weighted sum is c times the total weight. */
  lemma {:induction false} WeightedSumOfConstantValues(xs: seq<real>, ws: seq<real>, c: real)
    requires |xs| == |ws|
    requires forall i :: 0 <= i < |xs| ==> xs[i] == c
    ensures WeightedSum(xs, ws) == c * Sum(ws)
  {
    if xs != [] {
      WeightedSumOfConstantValues(xs[1..], ws[1..], c);
    }
  }

  /** With positive weights, one value away from mu makes the weighted squared deviation positive. */
  lemma {:induction false} WeightedSqDevPositive(xs: seq<real>, ws: seq<real>, mu: real, i: int)
    requires |xs| == |ws| && Positive(ws)
    requires 0 <= i < |xs| && xs[i] != mu
    ensures 0.0 < WeightedSqDev(xs, ws, mu)
  {
    if i == 0 {
      MulPositive(ws[0], Square(xs[0] - mu));
    } else {
      assert xs[1..][i - 1] == xs[i];
      WeightedSqDevPositive(xs[1..], ws[1..], mu, i - 1);
      MulNonNegative(ws[0], Square(xs[0] - mu));
    }
  }

  lemma {:induction false} WeightedSqDevOfConstantValues(xs: seq<real>, ws: seq<real>, mu: real)
    requires |xs| == |ws|
    requires forall i :: 0 <= i < |xs| ==> xs[i] == mu
    ensures WeightedSqDev(xs, ws, mu) == 0.0
  {
    if xs != [] {
      WeightedSqDevOfConstantValues(xs[1..], ws[1..], mu);
    }
  }

  /** With positive weights, the weighted squared deviation vanishes exactly when every value is mu. */
  lemma WeightedSqDevZeroIff(xs: seq<real>, ws: seq<real>, mu: real)
    requires |xs| == |ws| && Positive(ws)
    ensures WeightedSqDev(xs, ws, mu) == 0.0 <==> forall i :: 0 <= i < |xs| ==> xs[i] == mu
  {
    if forall i :: 0 <= i < |xs| ==> xs[i] == mu {
      WeightedSqDevOfConstantValues(xs, ws, mu);
    } else {
      var i :| 0 <= i < |xs| && xs[i] != mu;
      WeightedSqDevPositive(xs, ws, mu, i);
    }
  }
}
