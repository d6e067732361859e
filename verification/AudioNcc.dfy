/**
  src/fakedetector/analyzers/_audio_repeated.py: normalized correlation of one window against every
  lag of a search range, by convolution and prefix sums, against the direct form on one window.
  Arithmetic is exact; a coefficient num / sqrt(square) is kept as a Correlation.Ratio, and the
  product of spectra is the circular convolution it transforms back to.
 */
module AudioNcc {
  import opened Wrappers
  import opened Sums
  import opened Correlation
  import opened Algebra
  import opened Powers

  const MIN_LENGTH: nat := 8192
  const MAX_LENGTH: nat := 48128
  const SEARCH_SPAN: nat := 8192

  /** 64 * 2^-52 */
  const UNIT: real := 1.0 / 70368744177664.0

  /** 64 * 2^-52 * length */
  function Floor(length: nat): (r: real)
    ensures r >= 0.0
  {
    length as real / 70368744177664.0
  }

  /** max(|x|) */
  function Peak(x: seq<real>): (m: real)
    requires |x| > 0
    ensures m >= 0.0
  {
    var k := |x| - 1;
    if k == 0 then Magnitude(x[0])
    else
      var rest := Peak(x[..k]);
      if Magnitude(x[k]) > rest then Magnitude(x[k]) else rest
  }

  /** The peak bounds every value, and one value reaches it. */
  lemma {:induction false} PeakIsMaximum(x: seq<real>) returns (at: nat)
    requires |x| > 0
    ensures at < |x| && Magnitude(x[at]) == Peak(x)
    ensures forall i :: 0 <= i < |x| ==> Magnitude(x[i]) <= Peak(x)
  {
    var k := |x| - 1;
    if k == 0 {
      at := 0;
    } else {
      at := PeakIsMaximum(x[..k]);
      at := if Magnitude(x[k]) > Peak(x[..k]) then k else at;
      assert forall i :: 0 <= i < k ==> x[..k][i] == x[i];
    }
  }

  function Reciprocal(v: real): (r: real)
    requires v > 0.0
    ensures r > 0.0 && r * v == 1.0
  {
    var r := 1.0 / v;
    assert r * v == 1.0;
    r
  }

  function CentredDot(u: seq<real>, w: seq<real>): real
    requires |u| == |w| > 0
  {
    Dot(u, Centred(w))
  }

  function Spread(w: seq<real>): real
    requires |w| > 0
  {
    Dot(Centred(w), Centred(w))
  }

  /** x / scale */
  function Normalized(x: seq<real>, scale: real): (r: seq<real>)
    requires scale > 0.0
    ensures |r| == |x|
  {
    Scaled(Reciprocal(scale), x)
  }

  datatype CentredWindow = CentredWindow(values: seq<real>, variance: real)

  /** The window scaled to peak 1 and centred, with its squared length, when that clears the floor. */
  function CentredOf(x: seq<real>): Option<CentredWindow>
    requires |x| > 0
  {
    if Peak(x) == 0.0 then None
    else
      var scaled := Normalized(x, Peak(x));
      if Spread(scaled) > Floor(|x|) then Some(CentredWindow(Centred(scaled), Spread(scaled))) else None
  }

  /** |num| / sqrt(square) > 1 + 64 eps */
  predicate ExceedsGuard(q: Ratio) {
    Square(q.num) > Square(1.0 + UNIT) * q.square
  }

  function Checked(q: Ratio): Result<Ratio> {
    if ExceedsGuard(q) then Failure("NCC exceeds numeric guard") else Success(Clamp(q))
  }

  function LagRatio(numerator: real, vx: real, variance: real): Ratio {
    Ratio(numerator, vx * variance)
  }

  function Support(x: seq<real>, y: seq<real>): Result<Option<Ratio>>
    requires |x| == |y| > 0
  {
    var a, b := CentredOf(x), CentredOf(y);
    if a.None? || b.None? then Success(None)
    else
      match Checked(LagRatio(Dot(a.value.values, b.value.values), a.value.variance, b.value.variance))
      case Failure(e) => Failure(e)
      case Success(q) => Success(Some(q))
  }

  // ----- prefix sums

  method CompensatedPrefix(values: seq<real>) returns (output: seq<real>)
    ensures |output| == |values| + 1
    ensures forall i :: 0 <= i <= |values| ==> output[i] == Sum(values[..i])
  {
    var buffer := new real[|values| + 1];
    var total, correction := 0.0, 0.0;
    buffer[0] := total;
    for index := 0 to |values|
      invariant correction == 0.0 && total == Sum(values[..index])
      invariant forall i :: 0 <= i <= index ==> buffer[i] == Sum(values[..i])
    {
      SumPrefixStep(values, index);
      var adjusted := values[index] - correction;
      var updated := total + adjusted;
      correction := (updated - total) - adjusted;
      total := updated;
      buffer[index + 1] := total;
    }
    output := buffer[..];
  }

  function Differences(prefix: seq<real>, length: nat): (r: seq<real>)
    requires length < |prefix|
    ensures |r| == |prefix| - length
  {
    seq(|prefix| - length, d requires 0 <= d < |prefix| - length => prefix[d + length] - prefix[d])
  }

  function Squares(y: seq<real>): (r: seq<real>)
    ensures |r| == |y|
  {
    seq(|y|, i requires 0 <= i < |y| => Product(y[i], y[i]))
  }

  lemma {:induction false} SumOfSquares(y: seq<real>)
    ensures Sum(Squares(y)) == Dot(y, y)
  {
    if |y| == 0 {
    } else {
      assert Squares(y)[..|y| - 1] == Squares(y[..|y| - 1]);
      SumOfSquares(y[..|y| - 1]);
    }
  }

  // ----- the convolution

  /** irfft(rfft(a, n) * rfft(b, n), n)[k]: sum over i of a[i] * b[(k - i) mod n], zero padded. */
  function Circular(a: seq<real>, b: seq<real>, n: nat, k: nat): real
    requires k < n
    ensures |b| > 0 && |a| + |b| - 1 <= n ==> Circular(a, b, n, k) == LinearTerms(a, b, k, |a|)
  {
    if |b| > 0 && |a| + |b| - 1 <= n then
      NoWrapAround(a, b, n, k, n);
      PaddingAddsNothing(a, b, k, n);
      CircularTerms(a, b, n, k, n)
    else
      CircularTerms(a, b, n, k, n)
  }

  /** The entry at i, 0 outside. */
  function At(s: seq<real>, i: int): real {
    if 0 <= i < |s| then s[i] else 0.0
  }

  /** v mod n, for the differences of two indices below n */
  function Wrap(v: int, n: nat): int
    requires -(n as int) < v < n
  {
    if v < 0 then v + n else v
  }

  lemma WrapIsModulo(v: int, n: nat)
    requires -(n as int) < v < n
    ensures Wrap(v, n) == v % n
  {
  }

  function CircularTerms(a: seq<real>, b: seq<real>, n: nat, k: nat, m: nat): real
    requires k < n && m <= n
  {
    if m == 0 then 0.0 else CircularTerms(a, b, n, k, m - 1) + Product(At(a, m - 1), At(b, Wrap(k - (m - 1), n)))
  }

  /** The plain convolution: the sum over i < m of a[i] * b[k - i]. */
  function LinearTerms(a: seq<real>, b: seq<real>, k: int, m: nat): real {
    if m == 0 then 0.0 else LinearTerms(a, b, k, m - 1) + Product(At(a, m - 1), At(b, k - (m - 1)))
  }

  /** A transform at least as long as the plain convolution leaves no wrap-around, at any index. */
  lemma {:induction false} NoWrapAround(a: seq<real>, b: seq<real>, n: nat, k: nat, m: nat)
    requires k < n && m <= n && |a| + |b| - 1 <= n
    ensures CircularTerms(a, b, n, k, m) == LinearTerms(a, b, k, m)
  {
    if m == 0 {
    } else {
      NoWrapAround(a, b, n, k, m - 1);
    }
  }

  lemma {:induction false} PaddingAddsNothing(a: seq<real>, b: seq<real>, k: int, m: nat)
    requires m >= |a|
    ensures LinearTerms(a, b, k, m) == LinearTerms(a, b, k, |a|)
  {
    if m == |a| {
    } else {
      PaddingAddsNothing(a, b, k, m - 1);
      assert At(a, m - 1) == 0.0;
    }
  }

  function Reversed(s: seq<real>): (r: seq<real>)
    ensures |r| == |s|
  {
    seq(|s|, i requires 0 <= i < |s| => s[|s| - 1 - i])
  }

  lemma {:induction false} DotHead(a: seq<real>, b: seq<real>)
    requires |a| == |b| > 0
    ensures Dot(a, b) == Product(a[0], b[0]) + Dot(a[1..], b[1..])
  {
    var n := |a| - 1;
    if n == 0 {
    } else {
      DotHead(a[..n], b[..n]);
      assert a[..n][1..] == a[1..][..n - 1] && b[..n][1..] == b[1..][..n - 1];
    }
  }

  /** Convolving with the reversed window slides it: the last m terms of the product with the
      window of y that starts at d. */
  lemma {:induction false} ReversedSlides(u: seq<real>, y: seq<real>, d: nat, m: nat)
    requires m <= |u| && d + |u| <= |y|
    ensures LinearTerms(Reversed(u), y, d + |u| - 1, m) == Dot(u[|u| - m..], y[d + |u| - m..d + |u|])
  {
    if m == 0 {
    } else {
      ReversedSlides(u, y, d, m - 1);
      var a, b := u[|u| - m..], y[d + |u| - m..d + |u|];
      DotHead(a, b);
      assert a[1..] == u[|u| - (m - 1)..] && b[1..] == y[d + |u| - (m - 1)..d + |u|];
    }
  }

  /** 1 << (2 * length + 8192 - 2).bit_length() */
  function TransformLength(length: nat): (n: nat)
    requires length > 0
    ensures n >= 2 * length + SEARCH_SPAN - 1
  {
    BitLengthAbove(2 * length + SEARCH_SPAN - 2);
    Pow2(BitLength(2 * length + SEARCH_SPAN - 2))
  }

  /** What the inverse transform holds at index d + length - 1 is the product of u with the window
      of the search range that starts at d. */
  lemma TransformSlides(u: seq<real>, y: seq<real>, d: nat)
    requires |u| > 0 && d + |u| <= |y| <= |u| + SEARCH_SPAN
    ensures Circular(Reversed(u), y, TransformLength(|u|), d + |u| - 1) == Dot(u, y[d..d + |u|])
  {
    CircularSlides(u, y, TransformLength(|u|), d);
  }

  lemma CircularSlides(u: seq<real>, y: seq<real>, n: nat, d: nat)
    requires 0 < |u| && d + |u| <= |y| && |u| + |y| - 1 <= n
    ensures Circular(Reversed(u), y, n, d + |u| - 1) == Dot(u, y[d..d + |u|])
  {
    WholeSlides(u, y, d);
  }

  lemma WholeSlides(u: seq<real>, y: seq<real>, d: nat)
    requires d + |u| <= |y|
    ensures LinearTerms(Reversed(u), y, d + |u| - 1, |u|) == Dot(u, y[d..d + |u|])
  {
    ReversedSlides(u, y, d, |u|);
    assert u[0..] == u;
  }

  /** The entry of the inverse transform for lag d. */
  function TransformAt(u: seq<real>, y: seq<real>, d: nat): (r: real)
    requires |u| > 0 && d + |u| <= |y| <= |u| + SEARCH_SPAN
    ensures r == Dot(u, y[d..d + |u|])
  {
    TransformSlides(u, y, d);
    Circular(Reversed(u), y, TransformLength(|u|), d + |u| - 1)
  }

  function Convolved(u: seq<real>, y: seq<real>): (r: seq<real>)
    requires 0 < |u| <= |y| <= |u| + SEARCH_SPAN
    ensures |r| == |y| - |u| + 1
  {
    seq(|y| - |u| + 1, d requires 0 <= d < |y| - |u| + 1 => TransformAt(u, y, d))
  }

  // ----- all lags at once

  function PrefixVariance(sum: real, squares: real, length: nat): real
    requires length > 0
  {
    squares - sum * sum / length as real
  }

  function PrefixNumerator(convolution: real, sum: real, total: real, length: nat): real
    requires length > 0
  {
    convolution - sum * (total / length as real)
  }

  /** The direct form of one lag: u against the centred window, where that clears the floor. */
  function DirectLag(c: CentredWindow, w: seq<real>): Option<Ratio>
    requires |w| == |c.values| > 0
  {
    if Spread(w) > Floor(|w|) then Some(LagRatio(CentredDot(c.values, w), c.variance, Spread(w))) else None
  }

  /** One window of the search range scaled by the peak of the range. */
  function NormalizedAt(search: seq<real>, peak: real, d: nat, length: nat): (w: seq<real>)
    requires peak > 0.0 && d + length <= |search|
    ensures w == Normalized(search[d..d + length], peak)
  {
    Normalized(search, peak)[d..d + length]
  }

  /** The coefficient of the window against the search range at lag d, both scaled to peak 1. */
  function LagValue(x: seq<real>, search: seq<real>, d: nat): Option<Ratio>
    requires |x| > 0 && d + |x| <= |search|
  {
    if CentredOf(x).None? || Peak(search) == 0.0 then None
    else DirectLag(CentredOf(x).value, NormalizedAt(search, Peak(search), d, |x|))
  }


  // ----- the sliding form is the centred form

  lemma MeanTimesSum(convolution: real, sum: real, total: real, length: nat, mean: real)
    requires length > 0 && mean == sum / length as real
    ensures PrefixNumerator(convolution, sum, total, length) == convolution - Product(total, mean)
  {
    SwapQuotient(sum, total, length as real);
  }

  lemma SwapQuotient(a: real, b: real, n: real)
    requires n > 0.0
    ensures a * (b / n) == b * (a / n)
  {
  }

  lemma DotCentred(u: seq<real>, w: seq<real>)
    requires |u| == |w| > 0
    ensures CentredDot(u, w) == Dot(u, w) - Product(Sum(u), Mean(w))
  {
    DotShiftedBy(u, w, Mean(w));
  }

  lemma DotShiftedBy(u: seq<real>, w: seq<real>, m: real)
    requires |u| == |w|
    ensures Dot(u, Shifted(w, m)) == Dot(u, w) - Product(Sum(u), m)
  {
    DotShifted(u, w, m);
  }

  /** Subtracting the means' share from the product of the windows centres w. */
  lemma NumeratorByPrefix(u: seq<real>, w: seq<real>)
    requires |u| == |w| > 0
    ensures PrefixNumerator(Dot(u, w), Sum(w), Sum(u), |w|) == CentredDot(u, w)
  {
    DotCentred(u, w);
    MeanTimesSum(Dot(u, w), Sum(w), Sum(u), |w|, Mean(w));
  }

  lemma ShiftedByMean(w: seq<real>, m: real)
    requires Sum(Shifted(w, m)) == 0.0
    ensures Dot(Shifted(w, m), Shifted(w, m)) == Dot(w, w) - Product(Sum(w), m)
  {
    DotShifted(Shifted(w, m), w, m);
    DotShifted(w, w, m);
  }

  lemma VarianceFromParts(sum: real, mean: real, squares: real, spread: real, length: nat)
    requires length > 0 && mean == sum / length as real && spread == squares - Product(sum, mean)
    ensures PrefixVariance(sum, squares, length) == spread
  {
    var n := length as real;
    assert sum == mean * n;
    assert sum * sum == (sum * mean) * n;
  }

  /** The squared length of the centred w is its sum of squares less its squared sum over its size. */
  lemma VarianceByPrefix(w: seq<real>)
    requires |w| > 0
    ensures PrefixVariance(Sum(w), Dot(w, w), |w|) == Spread(w)
  {
    CentredSumsToZero(w);
    ShiftedByMean(w, Mean(w));
    VarianceFromParts(Sum(w), Mean(w), Dot(w, w), Spread(w), |w|);
  }

  /** The sums of all windows, as differences of prefix sums. */
  method BlockSums(values: seq<real>, length: nat) returns (sums: seq<real>)
    requires length <= |values|
    ensures |sums| == |values| - length + 1
    ensures forall d :: 0 <= d < |sums| ==> sums[d] == Sum(values[d..d + length])
  {
    var prefix := CompensatedPrefix(values);
    sums := Differences(prefix, length);
    forall d | 0 <= d < |sums|
      ensures sums[d] == Sum(values[d..d + length])
    {
      SumBlock(values, d, d + length);
    }
  }

  lemma SquaresOfWindow(y: seq<real>, d: nat, length: nat)
    requires d + length <= |y|
    ensures Sum(Squares(y)[d..d + length]) == Dot(y[d..d + length], y[d..d + length])
  {
    var w := y[d..d + length];
    forall i | 0 <= i < length
      ensures Squares(y)[d..d + length][i] == Squares(w)[i]
    {
      assert w[i] == y[d + i];
    }
    assert Squares(y)[d..d + length] == Squares(w);
    SumOfSquares(w);
  }

  lemma LagNumerator(u: seq<real>, y: seq<real>, d: nat)
    requires |u| > 0 && d + |u| <= |y| <= |u| + SEARCH_SPAN
    ensures PrefixNumerator(Convolved(u, y)[d], Sum(y[d..d + |u|]), Sum(u), |u|) == CentredDot(u, y[d..d + |u|])
  {
    NumeratorByPrefix(u, y[d..d + |u|]);
  }

  lemma LagVariance(y: seq<real>, d: nat, length: nat)
    requires 0 < length && d + length <= |y|
    ensures PrefixVariance(Sum(y[d..d + length]), Sum(Squares(y)[d..d + length]), length) == Spread(y[d..d + length])
  {
    SquaresOfWindow(y, d, length);
    VarianceByPrefix(y[d..d + length]);
  }

  /** What the vectorized expressions hold for every lag. */
  method SlidingForms(u: seq<real>, y: seq<real>) returns (numerator: seq<real>, variance: seq<real>)
    requires 0 < |u| <= |y| <= |u| + SEARCH_SPAN
    ensures |numerator| == |variance| == |y| - |u| + 1
    ensures forall d :: 0 <= d < |numerator| ==> numerator[d] == CentredDot(u, y[d..d + |u|])
    ensures forall d :: 0 <= d < |variance| ==> variance[d] == Spread(y[d..d + |u|])
  {
    var length, lags := |u|, |y| - |u| + 1;
    var convolution := Convolved(u, y);
    var sums := BlockSums(y, length);
    var squares := BlockSums(Squares(y), length);
    numerator := seq(lags, d requires 0 <= d < lags => PrefixNumerator(convolution[d], sums[d], Sum(u), length));
    variance := seq(lags, d requires 0 <= d < lags => PrefixVariance(sums[d], squares[d], length));
    forall d | 0 <= d < lags
      ensures numerator[d] == CentredDot(u, y[d..d + length])
      ensures variance[d] == Spread(y[d..d + length])
    {
      LagNumerator(u, y, d);
      LagVariance(y, d, length);
    }
  }

  // ----- the guards cannot fire

  /** The coefficient of two centred windows with positive variances is a number in [-1, 1]. */
  lemma RatioPasses(a: seq<real>, b: seq<real>)
    requires |a| == |b| && Dot(a, a) > 0.0 && Dot(b, b) > 0.0
    ensures var q := LagRatio(Dot(a, b), Dot(a, a), Dot(b, b));
            q.square > 0.0 && WithinUnit(q) && Checked(q) == Success(q)
  {
    CauchySchwarz(a, b);
    ProductPositive(Dot(a, a), Dot(b, b));
  }

  /** The two guards and the clip, over all lags. */
  function Finish(numerator: seq<real>, variance: seq<real>, vx: real, floor: real): Result<seq<Option<Ratio>>>
    requires |numerator| == |variance|
  {
    if exists d :: 0 <= d < |variance| && variance[d] < -floor then
      Failure("invalid NCC prefix variance")
    else if exists d :: 0 <= d < |variance| && variance[d] > floor && ExceedsGuard(LagRatio(numerator[d], vx, variance[d])) then
      Failure("NCC exceeds numeric guard")
    else
      Success(seq(|variance|, d requires 0 <= d < |variance| =>
        if variance[d] > floor then Some(Clamp(LagRatio(numerator[d], vx, variance[d]))) else None))
  }

  lemma SlidingPasses(u: seq<real>, y: seq<real>, numerator: seq<real>, variance: seq<real>, vx: real)
    requires 0 < |u| <= |y| && |numerator| == |variance| == |y| - |u| + 1
    requires vx == Dot(u, u) > 0.0
    requires forall d :: 0 <= d < |numerator| ==> numerator[d] == CentredDot(u, y[d..d + |u|])
    requires forall d :: 0 <= d < |variance| ==> variance[d] == Spread(y[d..d + |u|])
    ensures var r := Finish(numerator, variance, vx, Floor(|u|));
            && r.Success? && |r.value| == |variance|
            && forall d :: 0 <= d < |variance| ==> r.value[d] == DirectLag(CentredWindow(u, vx), y[d..d + |u|])
  {
    forall d | 0 <= d < |variance|
      ensures variance[d] >= 0.0
      ensures variance[d] > Floor(|u|) ==>
                Checked(LagRatio(numerator[d], vx, variance[d])) == Success(LagRatio(numerator[d], vx, variance[d]))
    {
      var v := Centred(y[d..d + |u|]);
      DotSquareNonNegative(v);
      if variance[d] > Floor(|u|) {
        RatioPasses(u, v);
      }
    }
  }

  method MeasureLags(c: CentredWindow, y: seq<real>) returns (r: Result<seq<Option<Ratio>>>)
    requires 0 < |c.values| <= |y| <= |c.values| + SEARCH_SPAN
    requires c.variance == Dot(c.values, c.values) > 0.0
    ensures r.Success? && |r.value| == |y| - |c.values| + 1
    ensures forall d :: 0 <= d < |r.value| ==> r.value[d] == DirectLag(c, y[d..d + |c.values|])
  {
    var numerator, variance := SlidingForms(c.values, y);
    SlidingPasses(c.values, y, numerator, variance, c.variance);
    r := Finish(numerator, variance, c.variance, Floor(|c.values|));
  }

  /** The window x against every lag of the search range. Only a profile violation raises: neither
      numeric guard can, and every lag has exactly the value of the direct form. */
  method LagNcc(x: seq<real>, search: seq<real>) returns (r: Result<seq<Option<Ratio>>>)
    ensures r.Success? <==> 8192 <= |x| <= 48128 && |x| <= |search| <= |x| + 8192
    ensures r.Success? ==>
              && |r.value| == |search| - |x| + 1
              && forall d :: 0 <= d < |r.value| ==> r.value[d] == LagValue(x, search, d)
  {
    var length := |x|;
    if !(MIN_LENGTH <= length <= MAX_LENGTH) || !(length <= |search| <= length + SEARCH_SPAN) {
      return Failure("NCC search exceeds bounded profile");
    }
    var centred, scale := CentredOf(x), Peak(search);
    if centred.None? || scale == 0.0 {
      return Success(seq(|search| - length + 1, d => None));
    }
    var y := Normalized(search, scale);
    r := MeasureLags(centred.value, y);
    forall d | 0 <= d < |r.value|
      ensures r.value[d] == LagValue(x, search, d)
    {
      assert y[d..d + length] == NormalizedAt(search, scale, d, length);
    }
  }

  // ----- the sliding value and the direct support agree

  lemma CentredScaled(c: real, s: seq<real>)
    requires |s| > 0
    ensures Centred(Scaled(c, s)) == Scaled(c, Centred(s))
  {
    var r, m := Scaled(c, s), Mean(s);
    MeanScaled(c, s);
    forall i | 0 <= i < |s|
      ensures Centred(r)[i] == Scaled(c, Centred(s))[i]
    {
      ScaledDifference(c, s[i], m);
      assert r[i] == Product(c, s[i]);
    }
  }

  lemma MeanScaled(c: real, s: seq<real>)
    requires |s| > 0
    ensures Mean(Scaled(c, s)) == Product(c, Mean(s))
  {
    SumScaled(c, s);
    QuotientScaled(c, Sum(s), |s| as real);
  }

  lemma QuotientScaled(c: real, sum: real, n: real)
    requires n > 0.0
    ensures c * sum / n == Product(c, sum / n)
  {
    assert c * ((sum / n) * n) == (c * (sum / n)) * n;
  }

  lemma ScaledDifference(c: real, v: real, m: real)
    ensures Product(c, v) - Product(c, m) == Product(c, v - m)
  {
  }

  lemma SpreadScaled(c: real, s: seq<real>)
    requires |s| > 0
    ensures Spread(Scaled(c, s)) == Product(c, Product(c, Spread(s)))
  {
    CentredScaled(c, s);
    DotScaled(c, Centred(s), Centred(s));
    DotScaled(c, Centred(s), Scaled(c, Centred(s)));
  }

  lemma CentredDotScaled(u: seq<real>, c: real, w: seq<real>)
    requires |u| == |w| > 0
    ensures CentredDot(u, Scaled(c, w)) == Product(c, CentredDot(u, w))
  {
    CentredScaled(c, w);
    DotScaled(c, u, Centred(w));
  }

  /** No window peaks above the range it is cut from. */
  lemma PeakOfWindow(s: seq<real>, d: nat, length: nat)
    requires 0 < length && d + length <= |s|
    ensures Peak(s[d..d + length]) <= Peak(s)
  {
    var i := PeakIsMaximum(s[d..d + length]);
    var j := PeakIsMaximum(s);
    assert s[d..d + length][i] == s[d + i];
  }

  lemma {:induction false} SumOfSilence(w: seq<real>)
    requires forall i :: 0 <= i < |w| ==> w[i] == 0.0
    ensures Sum(w) == 0.0
  {
    if |w| == 0 {
    } else {
      SumOfSilence(w[..|w| - 1]);
    }
  }

  lemma NothingTimes(sum: real, length: nat)
    requires length > 0 && sum == 0.0
    ensures sum / length as real == 0.0
  {
  }

  lemma SilenceHasNoSpread(w: seq<real>)
    requires |w| > 0 && Peak(w) == 0.0
    ensures Spread(w) == 0.0
  {
    var at := PeakIsMaximum(w);
    SumOfSilence(w);
    NothingTimes(Sum(w), |w|);
    assert Centred(w) == w;
    DotWithZero(w, w);
  }

  /** Scaled to peak 1, a window clears the floor exactly when its spread clears it for its peak. */
  predicate Clears(spread: real, peak: real, floor: real) {
    spread > floor * Square(peak)
  }

  lemma ScaledClears(spread: real, peak: real, floor: real)
    requires peak > 0.0
    ensures Product(Reciprocal(peak), Product(Reciprocal(peak), spread)) > floor <==> Clears(spread, peak, floor)
  {
    var c := Reciprocal(peak);
    var scaled := Product(c, Product(c, spread));
    assert scaled * Square(peak) == spread by {
      assert Product(c, spread) * peak == spread;
      assert scaled * peak == Product(c, spread);
    }
    Compare(scaled, floor, Square(peak));
  }

  lemma Compare(a: real, b: real, k: real)
    requires k > 0.0
    ensures a > b <==> a * k > b * k
  {
    if a > b {
      ProductPositive(a - b, k);
      Distribute(k, a, b);
    } else {
      ProductNonNegative(b - a, k);
      Distribute(k, b, a);
    }
  }

  /** Whether w, scaled by a peak of its own or of a range around it, clears the floor. */
  lemma NormalizedClears(w: seq<real>, peak: real)
    requires |w| > 0 && peak > 0.0
    ensures Spread(Normalized(w, peak)) > Floor(|w|) <==> Clears(Spread(w), peak, Floor(|w|))
  {
    SpreadScaled(Reciprocal(peak), w);
    ScaledClears(Spread(w), peak, Floor(|w|));
  }

  lemma ClearsAtLowerPeak(spread: real, low: real, high: real, floor: real)
    requires 0.0 <= low <= high && floor >= 0.0 && Clears(spread, high, floor)
    ensures Clears(spread, low, floor) && spread > 0.0
  {
    SquareMonotone(low, high);
    ProductNonNegative(floor, Square(high) - Square(low));
    Distribute(floor, Square(high), Square(low));
    ProductNonNegative(floor, Square(low));
  }

  /** Exactly when a lag has a value: the window clears the floor for the peak of the range. */
  lemma LagDefined(x: seq<real>, search: seq<real>, d: nat)
    requires |x| > 0 && d + |x| <= |search|
    ensures LagValue(x, search, d).Some? <==>
              CentredOf(x).Some? && Peak(search) > 0.0 && Clears(Spread(search[d..d + |x|]), Peak(search), Floor(|x|))
    ensures LagValue(x, search, d).Some? ==>
              LagValue(x, search, d).value == NormalizedRatio(CentredOf(x).value, search[d..d + |x|], Peak(search))
  {
    if CentredOf(x).Some? && Peak(search) > 0.0 {
      DirectDefined(CentredOf(x).value, search[d..d + |x|], NormalizedAt(search, Peak(search), d, |x|), |x|, Peak(search));
    } else {
      assert LagValue(x, search, d).None?;
    }
  }

  lemma DirectDefined(c: CentredWindow, w: seq<real>, scaled: seq<real>, length: nat, peak: real)
    requires |c.values| == |w| == length > 0 && peak > 0.0 && scaled == Normalized(w, peak)
    ensures DirectLag(c, scaled).Some? <==> Clears(Spread(w), peak, Floor(length))
    ensures DirectLag(c, scaled).Some? ==> DirectLag(c, scaled).value == NormalizedRatio(c, w, peak)
  {
    NormalizedClears(w, peak);
  }

  /** Exactly when a window has a prepared form: it clears the floor for its own peak. */
  lemma CentredDefined(w: seq<real>)
    requires |w| > 0
    ensures CentredOf(w).Some? <==> Peak(w) > 0.0 && Clears(Spread(w), Peak(w), Floor(|w|))
    ensures CentredOf(w).Some? ==>
              && CentredOf(w).value == CentredWindow(Centred(Normalized(w, Peak(w))), Spread(Normalized(w, Peak(w))))
              && CentredOf(w).value.variance == Dot(CentredOf(w).value.values, CentredOf(w).value.values) > 0.0
  {
    if Peak(w) > 0.0 {
      NormalizedClears(w, Peak(w));
    }
  }

  /** A prepared window against w scaled by the given peak. */
  function NormalizedRatio(c: CentredWindow, w: seq<real>, peak: real): Ratio
    requires |c.values| == |w| > 0 && peak > 0.0
  {
    LagRatio(CentredDot(c.values, Normalized(w, peak)), c.variance, Spread(Normalized(w, peak)))
  }

  lemma TwoFactors(vx: real, a: real, spread: real)
    ensures vx * Product(a, Product(a, spread)) == Square(a) * (vx * spread)
  {
  }

  /** Scaling one of the two windows does not move the coefficient. */
  lemma OneScale(k: real, num: real, v: real, s: real, n: real, scaled: real)
    requires k > 0.0 && v > 0.0 && s > 0.0 && n == Product(k, num) && scaled == Product(k, Product(k, s))
    ensures SameValue(Ratio(num, v * s), Ratio(n, v * scaled))
    ensures SameValue(Ratio(num, s * v), Ratio(n, scaled * v))
  {
    TwoFactors(v, k, s);
    ProductPositive(v, s);
    ScaledRatio(Ratio(num, v * s), Ratio(n, v * scaled), k);
  }

  lemma PreparedAgainst(c: CentredWindow, y: seq<real>, peak: real)
    requires |c.values| == |y| > 0 && peak > 0.0 && Spread(y) > 0.0 && c.variance > 0.0
    ensures SameValue(LagRatio(CentredDot(c.values, y), c.variance, Spread(y)), NormalizedRatio(c, y, peak))
  {
    var b := Reciprocal(peak);
    var w := Normalized(y, peak);
    CentredDotScaled(c.values, b, y);
    SpreadScaled(b, y);
    OneScale(b, CentredDot(c.values, y), c.variance, Spread(y), CentredDot(c.values, w), Spread(w));
  }

  /** The coefficient does not depend on the scale. */
  lemma ScaleFree(c: CentredWindow, w: seq<real>, p: real, q: real)
    requires |c.values| == |w| > 0 && p > 0.0 && q > 0.0 && c.variance > 0.0 && Spread(w) > 0.0
    ensures SameValue(NormalizedRatio(c, w, p), NormalizedRatio(c, w, q))
  {
    var raw := LagRatio(CentredDot(c.values, w), c.variance, Spread(w));
    PreparedAgainst(c, w, p);
    PreparedAgainst(c, w, q);
    SameEitherWay(raw, NormalizedRatio(c, w, p));
    SameTransitive(NormalizedRatio(c, w, p), raw, NormalizedRatio(c, w, q));
  }

  /** The direct coefficient never raises and is a number in [-1, 1]; it is defined exactly when
      both windows clear the floor for their own peaks. */
  lemma SupportDefined(x: seq<real>, y: seq<real>)
    requires |x| == |y| > 0
    ensures Support(x, y).Success?
    ensures Support(x, y).value.Some? <==> CentredOf(x).Some? && CentredOf(y).Some?
    ensures Support(x, y).value.Some? ==>
              var q := Support(x, y).value.value;
              q == NormalizedRatio(CentredOf(x).value, y, Peak(y)) && q.square > 0.0 && WithinUnit(q)
  {
    if CentredOf(x).Some? && CentredOf(y).Some? {
      CentredDefined(x);
      CentredDefined(y);
      RatioPasses(CentredOf(x).value.values, CentredOf(y).value.values);
    }
  }

  /** A window that clears the floor for the peak of its range clears it for its own. */
  lemma WindowDefined(search: seq<real>, d: nat, length: nat)
    requires 0 < length && d + length <= |search|
    requires Clears(Spread(search[d..d + length]), Peak(search), Floor(length))
    ensures CentredOf(search[d..d + length]).Some? && Spread(search[d..d + length]) > 0.0
    ensures Peak(search[d..d + length]) > 0.0
  {
    PeakOfWindow(search, d, length);
    ClearsForItself(search[d..d + length], length, Peak(search));
  }

  lemma ClearsForItself(w: seq<real>, length: nat, peak: real)
    requires |w| == length > 0 && Peak(w) <= peak && Clears(Spread(w), peak, Floor(length))
    ensures CentredOf(w).Some? && Spread(w) > 0.0 && Peak(w) > 0.0
  {
    ClearsAtLowerPeak(Spread(w), Peak(w), peak, Floor(length));
    SpreadHasPeak(w);
    CentredDefined(w);
  }

  lemma SpreadHasPeak(w: seq<real>)
    requires |w| > 0 && Spread(w) > 0.0
    ensures Peak(w) > 0.0
  {
    if Peak(w) == 0.0 {
      SilenceHasNoSpread(w);
    }
  }

  /** Wherever the sliding form has a value, the direct form on that window has one too, and it is
      the same number. */
  lemma LagIsSupport(x: seq<real>, search: seq<real>, d: nat)
    requires |x| > 0 && d + |x| <= |search| && LagValue(x, search, d).Some?
    ensures var w := search[d..d + |x|];
            && Support(x, w).Success? && Support(x, w).value.Some?
            && SameValue(LagValue(x, search, d).value, Support(x, w).value.value)
  {
    var w := search[d..d + |x|];
    LagDefined(x, search, d);
    WindowDefined(search, d, |x|);
    CentredDefined(x);
    SupportDefined(x, w);
    ScaleFree(CentredOf(x).value, w, Peak(search), Peak(w));
  }

  /** Every value a lag has is a number in [-1, 1]. */
  lemma LagWithinUnit(x: seq<real>, search: seq<real>, d: nat)
    requires |x| > 0 && d + |x| <= |search| && LagValue(x, search, d).Some?
    ensures forall r :: Denotes(LagValue(x, search, d).value, r) ==> -1.0 <= r <= 1.0
  {
    CentredDefined(x);
    LagInUnit(CentredOf(x).value, NormalizedAt(search, Peak(search), d, |x|));
  }

  lemma LagInUnit(c: CentredWindow, w: seq<real>)
    requires |c.values| == |w| > 0 && c.variance == Dot(c.values, c.values) > 0.0 && Spread(w) > 0.0
    ensures forall r :: Denotes(LagRatio(CentredDot(c.values, w), c.variance, Spread(w)), r) ==> -1.0 <= r <= 1.0
  {
    var q := LagRatio(CentredDot(c.values, w), c.variance, Spread(w));
    RatioPasses(c.values, Centred(w));
    forall r | Denotes(q, r)
      ensures -1.0 <= r <= 1.0
    {
      UnitRange(q, r);
    }
  }

  // ----- what the coefficients are, on the samples as they came

  lemma FloorMeans(spread: real, peak: real, length: nat)
    ensures Clears(spread, peak, Floor(length)) <==> spread > Product(length as real / 70368744177664.0, Square(peak))
  {
  }

  /** A window has a prepared form exactly when its squared deviations from the mean add up to more
      than 64 * 2^-52 per sample, in units of its squared peak. */
  lemma PreparedWhenVaried(w: seq<real>)
    requires |w| > 0
    ensures CentredOf(w).Some? <==>
              Peak(w) > 0.0 && Dot(Centred(w), Centred(w)) > Product(|w| as real / 70368744177664.0, Square(Peak(w)))
  {
    CentredDefined(w);
    FloorMeans(Spread(w), Peak(w), |w|);
  }

  /** A lag has a value exactly when x is varied for its own peak, and its window for the peak of the range. */
  lemma LagWhenVaried(x: seq<real>, search: seq<real>, d: nat)
    requires |x| > 0 && d + |x| <= |search|
    ensures var w, floor := search[d..d + |x|], |x| as real / 70368744177664.0;
            LagValue(x, search, d).Some? <==>
              && Peak(x) > 0.0 && Dot(Centred(x), Centred(x)) > Product(floor, Square(Peak(x)))
              && Peak(search) > 0.0 && Dot(Centred(w), Centred(w)) > Product(floor, Square(Peak(search)))
  {
    PreparedWhenVaried(x);
    FloorMeans(Spread(search[d..d + |x|]), Peak(search), |x|);
    LagDefined(x, search, d);
  }

  /** The centred product over the centred lengths. */
  function RawRatio(x: seq<real>, y: seq<real>): (q: Ratio)
    requires |x| == |y| > 0
    ensures q.num == Dot(Centred(x), Centred(y))
    ensures q.square == Dot(Centred(x), Centred(x)) * Dot(Centred(y), Centred(y))
  {
    Ratio(Dot(Centred(x), Centred(y)), Dot(Centred(x), Centred(x)) * Dot(Centred(y), Centred(y)))
  }

  /** The direct coefficient is Pearson's, of the samples as they came: scaling to peak 1 leaves no trace. */
  lemma SupportIsPearson(x: seq<real>, y: seq<real>)
    requires |x| == |y| > 0 && Support(x, y).Success? && Support(x, y).value.Some?
    ensures SameValue(Support(x, y).value.value, RawRatio(x, y))
  {
    var c, w := CentredOf(x), CentredOf(y);
    SupportDefined(x, y);
    PreparedScales(x);
    PreparedScales(y);
    AgainstPrepared(x, y, c.value, Reciprocal(Peak(x)));
    PreparedAgainst(c.value, y, Peak(y));
    var half := LagRatio(CentredDot(c.value.values, y), c.value.variance, Spread(y));
    SameTransitive(RawRatio(x, y), half, Support(x, y).value.value);
    SameEitherWay(RawRatio(x, y), Support(x, y).value.value);
  }

  /** A prepared window is its own centred window, scaled. */
  lemma PreparedScales(w: seq<real>)
    requires |w| > 0 && CentredOf(w).Some?
    ensures Peak(w) > 0.0 && Spread(w) > 0.0 && CentredOf(w).value.variance > 0.0
    ensures var a := Reciprocal(Peak(w));
            CentredOf(w).value == CentredWindow(Scaled(a, Centred(w)), Product(a, Product(a, Spread(w))))
  {
    CentredDefined(w);
    ClearsAtLowerPeak(Spread(w), Peak(w), Peak(w), Floor(|w|));
    CentredScaled(Reciprocal(Peak(w)), w);
    SpreadScaled(Reciprocal(Peak(w)), w);
  }

  lemma AgainstPrepared(x: seq<real>, y: seq<real>, c: CentredWindow, a: real)
    requires |x| == |y| > 0 && Spread(x) > 0.0 && Spread(y) > 0.0 && a > 0.0
    requires c == CentredWindow(Scaled(a, Centred(x)), Product(a, Product(a, Spread(x))))
    ensures SameValue(RawRatio(x, y), LagRatio(CentredDot(c.values, y), c.variance, Spread(y)))
  {
    DotScaled(a, Centred(x), Centred(y));
    OneScale(a, RawRatio(x, y).num, Spread(y), Spread(x), CentredDot(c.values, y), c.variance);
  }

  /** So is every value of the sliding form. */
  lemma LagIsPearson(x: seq<real>, search: seq<real>, d: nat)
    requires |x| > 0 && d + |x| <= |search| && LagValue(x, search, d).Some?
    ensures SameValue(LagValue(x, search, d).value, RawRatio(x, search[d..d + |x|]))
  {
    var w := search[d..d + |x|];
    LagIsSupport(x, search, d);
    SupportIsPearson(x, w);
    SameTransitive(LagValue(x, search, d).value, Support(x, w).value.value, RawRatio(x, w));
  }
}
