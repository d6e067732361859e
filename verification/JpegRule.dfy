/**
  scripts/research/jpeg_dq_rule.py: the one-sided 95% Clopper-Pearson upper bound, found by
  bisection on the binomial cumulative sum. Log space is read multiplicatively.
 */
module JpegRule {
  import opened Wrappers
  import opened Binomial
  import opened Sums
  import opened Algebra

  const LEVEL := 0.05
  const STEPS: nat := 80

  function Likelihoods(n: nat, errors: nat, p: real): (terms: seq<real>)
    requires errors <= n
    ensures |terms| == errors + 1
  {
    seq(errors + 1, k requires 0 <= k < errors + 1 => GammaTerm(n, k, p))
  }

  lemma {:induction false} LikelihoodsSum(n: nat, errors: nat, p: real)
    requires errors <= n
    ensures Sum(Likelihoods(n, errors, p)) == Cdf(n, errors, p)
  {
    if errors == 0 {
      assert Likelihoods(n, 0, p)[..0] == [];
    } else {
      LikelihoodsSum(n, errors - 1, p);
      assert Likelihoods(n, errors, p)[..errors] == Likelihoods(n, errors - 1, p);
    }
  }

  /** u rejects: from u upwards the observed count is improbable; `slack` or more below u it is not. */
  ghost predicate IsUpperBound(n: nat, errors: nat, u: real, slack: real) {
    && 0.0 <= u <= 1.0
    && (forall p | u <= p <= 1.0 :: Cdf(n, errors, p) <= 0.05)
    && (forall p | 0.0 <= p <= u - slack && p < u :: Cdf(n, errors, p) > 0.05)
  }

  /** nthRoot stands for exp(log(0.05)/n), which only the errors = 0 branch evaluates. */
  method ExactUpper(errors: int, n: int, nthRoot: real) returns (r: Result<Option<real>>)
    requires 0 == errors < n ==> 0.0 <= nthRoot && Pow(nthRoot, n) == 0.05
    ensures r.Failure? <==> !(0 <= errors <= n)
    ensures r.Success? ==> (r.value.None? <==> n == 0)
    ensures 0 < errors == n ==> r == Success(Some(1.0))
    ensures 0 < errors < n ==> r.value.Some? && 0.0 < r.value.value
                               && IsUpperBound(n, errors, r.value.value, Pow(0.5, 80))
                               && IsMultiple(r.value.value, Pow(0.5, 80))
    ensures 0 == errors < n ==> r.value.Some? && IsUpperBound(n, 0, r.value.value, 0.0)
                                && Cdf(n, 0, r.value.value) == 0.05
  {
    if !(0 <= errors <= n) {
      return Failure("invalid binomial counts");
    }
    if n == 0 {
      return Success(None);
    }
    if errors == n {
      return Success(Some(1.0));
    }
    if errors == 0 {
      ClosedForm(n, nthRoot);
      return Success(Some(1.0 - nthRoot));
    }
    var low, high := 0.0, 1.0;
    CdfAtEnds(n, errors);
    assert Pow(0.5, 0) == 1.0;
    ghost var k: nat := 0;
    for step := 0 to STEPS
      invariant 0.0 <= low < high <= 1.0
      invariant high - low == Pow(0.5, step) && low == Multiple(k, Pow(0.5, step))
      invariant Cdf(n, errors, low) > LEVEL >= Cdf(n, errors, high)
    {
      var p := (low + high) / 2.0;
      var terms := Likelihoods(n, errors, p);
      LikelihoodsSum(n, errors, p);
      TermBounds(n, 0, p);
      assert terms[0] > 0.0;
      MaxIsGreatest(terms);
      var cdf := MaxShiftedSum(terms);
      Halves(k, Pow(0.5, step), low, high, Pow(0.5, step + 1));
      if cdf > LEVEL {
        low, k := p, 2 * k + 1;
      } else {
        high, k := p, 2 * k;
      }
    }
    NextMultiple(k, Pow(0.5, STEPS), low, high);
    r := Success(Some(high));
    Bracketed(n, errors, low, high);
  }

  function Multiple(k: nat, unit: real): real {
    Product(k as real, unit)
  }

  /** v is a whole number of units. */
  ghost predicate IsMultiple(v: real, unit: real) {
    exists k: nat :: v == Multiple(k, unit)
  }

  /** An interval of one unit, cut in two of half a unit. */
  lemma Halves(k: nat, unit: real, low: real, high: real, half: real)
    requires low == Multiple(k, unit) && high - low == unit && unit == 2.0 * half
    ensures low == Multiple(2 * k, half) && (low + high) / 2.0 == Multiple(2 * k + 1, half)
    ensures (low + high) / 2.0 - low == half && high - (low + high) / 2.0 == half
  {
  }

  lemma NextMultiple(k: nat, unit: real, low: real, high: real)
    requires low == Multiple(k, unit) && high - low == unit
    ensures IsMultiple(high, unit)
  {
    assert high == Multiple(k + 1, unit);
  }

  lemma Bracketed(n: nat, errors: nat, low: real, high: real)
    requires 0.0 <= low < high <= 1.0
    requires Cdf(n, errors, low) > 0.05 >= Cdf(n, errors, high)
    ensures IsUpperBound(n, errors, high, high - low)
  {
    forall p | high <= p <= 1.0
      ensures Cdf(n, errors, p) <= LEVEL
    {
      CdfAntitone(n, errors, high, p);
    }
    forall p | 0.0 <= p <= low
      ensures Cdf(n, errors, p) > LEVEL
    {
      CdfAntitone(n, errors, p, low);
    }
  }

  /** With no errors the cumulative sum is (1-p)^n, so 1 - nthRoot solves the equation exactly. */
  lemma ClosedForm(n: nat, nthRoot: real)
    requires n > 0 && 0.0 <= nthRoot && Pow(nthRoot, n) == 0.05
    ensures 0.0 < nthRoot < 1.0
    ensures Cdf(n, 0, 1.0 - nthRoot) == 0.05
    ensures IsUpperBound(n, 0, 1.0 - nthRoot, 0.0)
  {
    PowOfZeroAndOne(n);
    if nthRoot > 1.0 {
      PowStrictlyMonotone(1.0, nthRoot, n);
    }
    var u := 1.0 - nthRoot;
    assert 1.0 - u == nthRoot;
    TermZero(n, u);
    forall p | u <= p <= 1.0
      ensures Cdf(n, 0, p) <= LEVEL
    {
      CdfAntitone(n, 0, u, p);
    }
    forall p | 0.0 <= p < u
      ensures Cdf(n, 0, p) > LEVEL
    {
      CdfStrictlyAntitone(n, 0, p, u);
    }
  }

  /** Of all multiples of 2^-80 the reported bound is the least that rejects: the result is determined. */
  lemma LeastMultiple(n: nat, errors: nat, u: real, k: nat, j: nat)
    requires IsUpperBound(n, errors, u, Pow(0.5, 80)) && u == Multiple(k, Pow(0.5, 80))
    requires Multiple(j, Pow(0.5, 80)) <= 1.0
    ensures Cdf(n, errors, Multiple(j, Pow(0.5, 80))) <= 0.05 <==> j >= k
  {
    PowOfZeroAndOne(80);
    PowStrictlyMonotone(0.0, 0.5, 80);
    MultiplesApart(Pow(0.5, 80), j, k);
  }

  /** Different multiples are a unit or more apart. */
  lemma MultiplesApart(unit: real, j: nat, k: nat)
    requires unit > 0.0
    ensures Multiple(j, unit) >= 0.0
    ensures j >= k ==> Multiple(j, unit) >= Multiple(k, unit)
    ensures j < k ==> Multiple(j, unit) <= Multiple(k, unit) - unit
  {
    ProductNonNegative(j as real, unit);
    if j >= k {
      ProductNonNegative((j - k) as real, unit);
      Distribute(unit, j as real, k as real);
    } else {
      ProductNonNegative((k - j - 1) as real, unit);
      Distribute(unit, k as real, (j + 1) as real);
      Distribute(unit, j as real, 1.0);
    }
  }

  /** There is at most one exact bound, and the reported one never lies below it nor more than slack above. */
  lemma UpperBoundAccuracy(n: nat, errors: nat, u: real, slack: real, exact: real)
    requires errors < n && slack >= 0.0 && IsUpperBound(n, errors, u, slack)
    requires 0.0 <= exact <= 1.0 && Cdf(n, errors, exact) == 0.05
    ensures u - slack <= exact <= u
    ensures forall other | 0.0 <= other <= 1.0 && Cdf(n, errors, other) == 0.05 :: other == exact
  {
    if exact > u {
      CdfStrictlyAntitone(n, errors, u, exact);
    }
    forall other | 0.0 <= other <= 1.0 && Cdf(n, errors, other) == LEVEL
      ensures other == exact
    {
      if other < exact {
        CdfStrictlyAntitone(n, errors, other, exact);
      } else if exact < other {
        CdfStrictlyAntitone(n, errors, exact, other);
      }
    }
  }
}
