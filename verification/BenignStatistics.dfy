/** scripts/diploma_benign_validation.py: Pearson and Spearman correlation and tie-averaged ranks. */
module BenignStatistics {
  import opened Wrappers
  import opened Sums
  import opened Correlation
  import opened Algebra

  function Pearson(x: seq<real>, y: seq<real>): Result<Option<Ratio>> {
    if |x| != |y| then Failure("Correlation vectors differ in length")
    else if |x| < 2 then Success(None)
    else
      var dx, dy := Centred(x), Centred(y);
      var xx, yy := Dot(dx, dx), Dot(dy, dy);
      if xx == 0.0 || yy == 0.0 then Success(None)
      else Success(Some(Clamp(Ratio(Dot(dx, dy), xx * yy))))
  }

  ghost predicate Constant(x: seq<real>) {
    forall i, j :: 0 <= i < |x| && 0 <= j < |x| ==> x[i] == x[j]
  }

  lemma {:induction false} SumOfConstant(x: seq<real>, c: real)
    requires forall i :: 0 <= i < |x| ==> x[i] == c
    ensures Sum(x) == |x| as real * c
  {
    if |x| == 0 {
    } else {
      SumOfConstant(x[..|x| - 1], c);
      Distribute(c, (|x| - 1) as real, 1.0);
    }
  }

  lemma MeanOfConstant(x: seq<real>)
    requires |x| > 0 && Constant(x)
    ensures Mean(x) == x[0]
  {
    SumOfConstant(x, x[0]);
  }

  lemma NoSpread(x: seq<real>)
    requires |x| > 0
    ensures Dot(Centred(x), Centred(x)) == 0.0 <==> Constant(x)
  {
    var d, m := Centred(x), Mean(x);
    DotSelfZero(d);
    assert forall i :: 0 <= i < |x| ==> d[i] == x[i] - m;
    if Dot(d, d) == 0.0 {
      forall i, j | 0 <= i < |x| && 0 <= j < |x|
        ensures x[i] == x[j]
      {
        assert d[i] == 0.0 && d[j] == 0.0;
      }
    }
    if Constant(x) {
      MeanOfConstant(x);
    }
  }

  /** The coefficient before the clamp. */
  function Coefficient(x: seq<real>, y: seq<real>): Ratio
    requires |x| == |y| >= 2
  {
    var dx, dy := Centred(x), Centred(y);
    Ratio(Dot(dx, dy), Dot(dx, dx) * Dot(dy, dy))
  }

  predicate Spread(x: seq<real>)
    requires |x| > 0
  {
    Dot(Centred(x), Centred(x)) != 0.0
  }

  lemma PearsonValue(x: seq<real>, y: seq<real>)
    requires |x| == |y| >= 2
    ensures Spread(x) && Spread(y) ==> Pearson(x, y) == Success(Some(Coefficient(x, y)))
                                       && Coefficient(x, y).square > 0.0 && WithinUnit(Coefficient(x, y))
    ensures !(Spread(x) && Spread(y)) ==> Pearson(x, y) == Success(None)
  {
    var dx, dy := Centred(x), Centred(y);
    CauchySchwarz(dx, dy);
    if Spread(x) && Spread(y) {
      DotSquareNonNegative(dx);
      DotSquareNonNegative(dy);
      ProductPositive(Dot(dx, dx), Dot(dy, dy));
    }
  }

  /** Correlation is defined exactly for two vectors of one length, at least 2, neither constant;
      then the clamp is inert: the value is the centred product over the centred spreads, in [-1,1]. */
  lemma PearsonIsUnclamped(x: seq<real>, y: seq<real>)
    requires |x| == |y|
    ensures Pearson(x, y).Success?
    ensures Pearson(x, y).value.Some? <==> |x| >= 2 && !Constant(x) && !Constant(y)
    ensures Pearson(x, y).value.Some? ==>
              var q := Pearson(x, y).value.value;
              && q == Ratio(Dot(Centred(x), Centred(y)), Dot(Centred(x), Centred(x)) * Dot(Centred(y), Centred(y)))
              && q.square > 0.0 && (forall r :: Denotes(q, r) ==> -1.0 <= r <= 1.0)
  {
    if |x| >= 2 {
      NoSpread(x);
      NoSpread(y);
      PearsonValue(x, y);
      var q := Coefficient(x, y);
      forall r | Denotes(q, r) && WithinUnit(q)
        ensures -1.0 <= r <= 1.0
      {
        UnitRange(q, r);
      }
    }
  }

  lemma PearsonSymmetric(x: seq<real>, y: seq<real>)
    ensures Pearson(x, y) == Pearson(y, x)
  {
    if |x| == |y| && |x| >= 2 {
      DotSymmetric(Centred(x), Centred(y));
    }
  }

  function Affine(x: seq<real>, a: real, b: real): (r: seq<real>)
    ensures |r| == |x|
  {
    Shifted(Scaled(a, x), -b)
  }

  lemma MeanOfAffine(x: seq<real>, a: real, b: real)
    requires |x| > 0
    ensures Mean(Affine(x, a, b)) == AffineAt(a, Mean(x), b)
  {
    SumShifted(Scaled(a, x), -b);
    SumScaled(a, x);
    var n, m := |x| as real, Mean(x);
    assert Sum(x) == m * n;
    assert a * (m * n) - n * -b == AffineAt(a, m, b) * n;
  }

  function AffineAt(a: real, v: real, b: real): real {
    Product(a, v) + b
  }

  lemma CentredAffine(x: seq<real>, a: real, b: real)
    requires |x| > 0
    ensures Centred(Affine(x, a, b)) == Scaled(a, Centred(x))
  {
    MeanOfAffine(x, a, b);
    var m, y := Mean(x), Affine(x, a, b);
    forall i | 0 <= i < |x|
      ensures Centred(y)[i] == Scaled(a, Centred(x))[i]
    {
      assert y[i] == AffineAt(a, x[i], b);
    }
  }

  /** A positive rescaling and a shift of one vector leave the coefficient where it was. */
  lemma PearsonAffine(x: seq<real>, y: seq<real>, a: real, b: real)
    requires a > 0.0 && |x| == |y|
    ensures Pearson(Affine(x, a, b), y).value.Some? <==> Pearson(x, y).value.Some?
    ensures Pearson(x, y).value.Some? ==>
              SameValue(Pearson(x, y).value.value, Pearson(Affine(x, a, b), y).value.value)
  {
    var z := Affine(x, a, b);
    if |x| >= 2 {
      PearsonValue(x, y);
      PearsonValue(z, y);
      CoefficientOfAffine(x, y, z, a, b);
    }
  }

  lemma CoefficientOfAffine(x: seq<real>, y: seq<real>, z: seq<real>, a: real, b: real)
    requires a > 0.0 && |x| == |y| >= 2 && z == Affine(x, a, b)
    ensures Spread(z) <==> Spread(x)
    ensures Coefficient(x, y).square > 0.0 ==> SameValue(Coefficient(x, y), Coefficient(z, y))
  {
    var dx, dy := Centred(x), Centred(y);
    CentredAffine(x, a, b);
    DotScaled(a, dx, dy);
    DotScaled(a, dx, dx);
    DotScaled(a, dx, Scaled(a, dx));
    var dz := Centred(z);
    SpreadStep(a, Dot(dx, dx), Dot(dy, dy), Dot(dz, dz));
    if Coefficient(x, y).square > 0.0 {
      ScaledRatio(Coefficient(x, y), Coefficient(z, y), a);
    }
  }

  lemma SpreadStep(a: real, xx: real, yy: real, zz: real)
    requires a > 0.0 && zz == Product(a, Product(a, xx))
    ensures zz * yy == Square(a) * (xx * yy)
    ensures zz == 0.0 <==> xx == 0.0
  {
    assert zz == Square(a) * xx;
    if xx > 0.0 {
      ProductPositive(a, xx);
      ProductPositive(a, a * xx);
    } else if xx < 0.0 {
      ProductPositive(a, -xx);
      ProductPositive(a, a * -xx);
    }
  }
}
