/**
  scripts/diploma_vrc_targeted_research.py, quantile, and
  scripts/diploma_vrc_redesign_research.py, relative_score.
 */
module Quantiles {
  import opened Wrappers
  import opened Sorting
  import opened Algebra
  import Sums

  predicate AtMost(a: real, b: real) {
    a <= b
  }

  function Ceiling(x: real): int {
    -((-x).Floor)
  }

  /** Linear interpolation between the neighbours of a fractional position. */
  function Interpolate(ordered: seq<real>, at: real): real
    requires 0.0 <= at <= (|ordered| - 1) as real
  {
    var left, right := at.Floor, Ceiling(at);
    ordered[left] + (at - left as real) * (ordered[right] - ordered[left])
  }

  function Position(n: nat, p: real): (at: real)
    requires n > 0 && 0.0 <= p <= 1.0
    ensures 0.0 <= at <= (n - 1) as real
  {
    ProductNonNegative((n - 1) as real, p);
    ProductNonNegative((n - 1) as real, 1.0 - p);
    Distribute((n - 1) as real, 1.0, p);
    (n - 1) as real * p
  }

  lemma PositionMonotone(n: nat, p: real, q: real)
    requires n > 0 && 0.0 <= p <= q <= 1.0
    ensures Position(n, p) <= Position(n, q)
  {
    ProductNonNegative((n - 1) as real, q - p);
    Distribute((n - 1) as real, q, p);
  }

  function QuantileOf(ordered: seq<real>, p: real): real
    requires ordered != [] && 0.0 <= p <= 1.0
  {
    Interpolate(ordered, Position(|ordered|, p))
  }

  function Quantile(values: seq<real>, p: real): Result<Option<real>> {
    if !(0.0 <= p <= 1.0) then Failure("Quantile probability outside unit interval")
    else if values == [] then Success(None)
    else Success(Some(QuantileOf(Sort(values, AtMost), p)))
  }

  lemma AtMostIsAnOrder()
    ensures TotalPreorder(AtMost) && Antisymmetric(AtMost)
  {
  }

  /** The order in which the values were observed does not matter. */
  lemma QuantilePermutation(a: seq<real>, b: seq<real>, p: real)
    requires multiset(a) == multiset(b)
    ensures Quantile(a, p) == Quantile(b, p)
  {
    assert Sort(a, AtMost) == Sort(b, AtMost) by {
      AtMostIsAnOrder();
      SortInvariant(a, b, AtMost);
    }
    assert |a| == |b|;
  }

  lemma InterpolateBetween(ordered: seq<real>, at: real)
    requires Sorted(ordered, AtMost)
    requires 0.0 <= at <= (|ordered| - 1) as real
    ensures ordered[at.Floor] <= Interpolate(ordered, at) <= ordered[Ceiling(at)]
  {
    var left, right := at.Floor, Ceiling(at);
    var t, d := at - left as real, ordered[right] - ordered[left];
    assert left == right || right == left + 1;
    assert AtMost(ordered[left], ordered[right]) || left == right;
    ProductNonNegative(t, d);
    ProductNonNegative(1.0 - t, d);
    Distribute(d, 1.0, t);
  }

  lemma InterpolateMonotone(ordered: seq<real>, at: real, later: real)
    requires Sorted(ordered, AtMost)
    requires 0.0 <= at <= later <= (|ordered| - 1) as real
    ensures Interpolate(ordered, at) <= Interpolate(ordered, later)
  {
    InterpolateBetween(ordered, at);
    InterpolateBetween(ordered, later);
    var left := at.Floor;
    if later.Floor > left {
      assert Ceiling(at) <= later.Floor;
      assert Ceiling(at) == later.Floor || AtMost(ordered[Ceiling(at)], ordered[later.Floor]);
    } else if at != left as real {
      assert Ceiling(at) == Ceiling(later) == left + 1;
      var d := ordered[left + 1] - ordered[left];
      assert AtMost(ordered[left], ordered[left + 1]);
      ProductNonNegative(later - at, d);
      Distribute(d, later - left as real, at - left as real);
    }
  }

  lemma QuantileOfMonotone(ordered: seq<real>, p: real, q: real)
    requires ordered != [] && Sorted(ordered, AtMost) && 0.0 <= p <= q <= 1.0
    ensures QuantileOf(ordered, p) <= QuantileOf(ordered, q)
  {
    PositionMonotone(|ordered|, p, q);
    InterpolateMonotone(ordered, Position(|ordered|, p), Position(|ordered|, q));
  }

  lemma QuantileOfEnds(ordered: seq<real>)
    requires ordered != []
    ensures QuantileOf(ordered, 0.0) == ordered[0] && QuantileOf(ordered, 1.0) == ordered[|ordered| - 1]
  {
  }

  lemma SortedValues(values: seq<real>) returns (ordered: seq<real>)
    ensures ordered == Sort(values, AtMost) && Sorted(ordered, AtMost)
    ensures forall v :: v in ordered <==> v in values
  {
    ordered := Sort(values, AtMost);
    AtMostIsAnOrder();
    SortSorted(values, AtMost);
    SortPermutes(values, AtMost);
  }

  lemma QuantileMonotone(values: seq<real>, p: real, q: real)
    requires values != [] && 0.0 <= p <= q <= 1.0
    ensures Quantile(values, p).value.value <= Quantile(values, q).value.value
  {
    var ordered := SortedValues(values);
    QuantileOfMonotone(ordered, p, q);
  }

  /** A quantile never leaves the observed range, and its ends are the extremes themselves. */
  lemma QuantileBounds(values: seq<real>, p: real)
    requires values != [] && 0.0 <= p <= 1.0
    ensures Quantile(values, 0.0).value.value in values && Quantile(values, 1.0).value.value in values
    ensures forall v :: v in values ==> Quantile(values, 0.0).value.value <= v <= Quantile(values, 1.0).value.value
    ensures Quantile(values, 0.0).value.value <= Quantile(values, p).value.value <= Quantile(values, 1.0).value.value
  {
    var ordered := SortedValues(values);
    QuantileOfEnds(ordered);
    QuantileOfMonotone(ordered, 0.0, p);
    QuantileOfMonotone(ordered, p, 1.0);
  }

  function Under(q: real): real -> bool {
    (v: real) => v < q
  }

  function UpTo(q: real): real -> bool {
    (v: real) => v <= q
  }

  lemma CountUpTo(ordered: seq<real>, left: nat, q: real)
    requires Sorted(ordered, AtMost) && left < |ordered| && ordered[left] <= q
    ensures CountIf(ordered, UpTo(q)) >= left + 1
  {
    var head, tail := ordered[..left + 1], ordered[left + 1..];
    forall i | 0 <= i < |head|
      ensures UpTo(q)(head[i]) == true
    {
      assert i == left || AtMost(ordered[i], ordered[left]);
    }
    CountIfUniform(head, UpTo(q), true);
    CountIfConcat(head, tail, UpTo(q));
    assert head + tail == ordered;
  }

  lemma CountUnder(ordered: seq<real>, right: nat, q: real)
    requires Sorted(ordered, AtMost) && right < |ordered| && q <= ordered[right]
    ensures CountIf(ordered, Under(q)) <= right
  {
    var head, tail := ordered[..right], ordered[right..];
    forall i | 0 <= i < |tail|
      ensures Under(q)(tail[i]) == false
    {
      assert i == 0 || AtMost(ordered[right], ordered[right + i]);
    }
    CountIfUniform(tail, Under(q), false);
    CountIfConcat(head, tail, Under(q));
    CountIfAtMost(head, Under(q));
    assert head + tail == ordered;
  }

  lemma {:induction false} CountIfAtMost(s: seq<real>, holds: real -> bool)
    ensures CountIf(s, holds) <= |s|
  {
    if s == [] {
    } else {
      CountIfAtMost(s[..|s| - 1], holds);
    }
  }

  /** The positions of the values below q. */
  ghost function BelowAt(values: seq<real>, q: real): (s: set<int>)
    ensures forall i :: i in s <==> 0 <= i < |values| && values[i] < q
    ensures |s| == CountIf(values, Under(q))
  {
    Positions(values, Under(q))
  }

  /** The positions of the values that do not exceed q. */
  ghost function UpToAt(values: seq<real>, q: real): (s: set<int>)
    ensures forall i :: i in s <==> 0 <= i < |values| && values[i] <= q
    ensures |s| == CountIf(values, UpTo(q))
  {
    Positions(values, UpTo(q))
  }

  /** What makes it the p-quantile of n values, without sorting: less than p(n-1) + 1 of them lie
      strictly below it, and more than p(n-1) do not exceed it. */
  lemma QuantileRank(values: seq<real>, p: real)
    requires values != [] && 0.0 <= p <= 1.0
    ensures var q, at := Quantile(values, p).value.value, (|values| - 1) as real * p;
            |BelowAt(values, q)| as real < at + 1.0 && |UpToAt(values, q)| as real > at
  {
    var ordered := SortedValues(values);
    var q, at := Quantile(values, p).value.value, Position(|values|, p);
    InterpolateBetween(ordered, at);
    CountUpTo(ordered, at.Floor, q);
    CountUnder(ordered, Ceiling(at), q);
    CountIfSort(values, AtMost, Under(q));
    CountIfSort(values, AtMost, UpTo(q));
  }

  /** left + (right - left) * part */
  function Between(left: real, right: real, part: real): real {
    left + part * (right - left)
  }

  lemma BetweenEnds(left: real, right: real)
    ensures Between(left, right, 0.0) == left && Between(left, right, 1.0) == right
  {
  }

  lemma InterpolateAtRank(ordered: seq<real>, rank: nat, at: real)
    requires rank < |ordered| && at == rank as real
    ensures Interpolate(ordered, at) == ordered[rank]
  {
  }

  lemma InterpolateWithin(ordered: seq<real>, rank: nat, at: real)
    requires rank + 1 < |ordered| && rank as real <= at <= (rank + 1) as real
    ensures Interpolate(ordered, at) == Between(ordered[rank], ordered[rank + 1], at - rank as real)
  {
    BetweenEnds(ordered[rank], ordered[rank + 1]);
    if at == rank as real {
      InterpolateAtRank(ordered, rank, at);
    } else if at == (rank + 1) as real {
      InterpolateAtRank(ordered, rank + 1, at);
      assert at - rank as real == 1.0;
    } else {
      assert at.Floor == rank && Ceiling(at) == rank + 1;
    }
  }

  /** Between two neighbouring ranks the quantile runs along a straight line. */
  lemma QuantileLinear(values: seq<real>, rank: nat, low: real, p: real, high: real)
    requires values != [] && 0.0 <= low <= p <= high <= 1.0
    requires Position(|values|, low) == rank as real && Position(|values|, high) == (rank + 1) as real
    ensures var a, b, part := Quantile(values, low).value.value, Quantile(values, high).value.value,
                              Position(|values|, p) - rank as real;
            Quantile(values, p).value.value == a + part * (b - a)
  {
    var ordered, n := Sort(values, AtMost), |values|;
    PositionMonotone(n, low, p);
    PositionMonotone(n, p, high);
    LinearBetween(ordered, rank, Position(n, low), Position(n, p), Position(n, high));
  }

  lemma LinearBetween(ordered: seq<real>, rank: nat, low: real, at: real, high: real)
    requires rank + 1 < |ordered| && rank as real == low <= at <= high == (rank + 1) as real
    ensures var a, b, part := Interpolate(ordered, low), Interpolate(ordered, high), at - rank as real;
            Interpolate(ordered, at) == a + part * (b - a)
  {
    InterpolateAtRank(ordered, rank, low);
    InterpolateAtRank(ordered, rank + 1, high);
    InterpolateWithin(ordered, rank, at);
  }

  // ----- the relative score

  const EPSILON := 0.000000000001

  datatype ScoreState = InsufficientRunSupport | InsufficientNonselectiveDistribution | Measured

  function RelativeScore(population: seq<real>, relative: string): Result<(Option<real>, ScoreState)> {
    if relative !in {"R10", "R50"} || exists i :: 0 <= i < |population| && population[i] < 0.0 then
      Failure("Invalid relative-score input")
    else if population == [] then Success((None, InsufficientRunSupport))
    else
      var denominator := Quantile(population, if relative == "R10" then 0.1 else 0.5).value.value;
      if denominator <= EPSILON then Success((None, InsufficientNonselectiveDistribution))
      else
        var score := 1.0 - Sums.Min(population) / denominator;
        var raised := if score < 0.0 then 0.0 else score;
        Success((Some(if raised > 1.0 then 1.0 else raised), Measured))
  }

  ghost predicate IsMeasured(population: seq<real>, relative: string) {
    var r := RelativeScore(population, relative);
    r.Success? && r.value.1 == Measured
  }

  /** Exactly when a score is measured, and what is reported otherwise. */
  lemma MeasuredExactly(population: seq<real>, relative: string)
    ensures RelativeScore(population, relative).Failure? <==>
              !(relative == "R10" || relative == "R50") || exists i :: 0 <= i < |population| && population[i] < 0.0
    ensures IsMeasured(population, relative) <==>
              && RelativeScore(population, relative).Success? && population != []
              && Quantile(population, if relative == "R10" then 0.1 else 0.5).value.value > 0.000000000001
    ensures RelativeScore(population, relative).Success? && !IsMeasured(population, relative) ==>
              RelativeScore(population, relative).value
              == (None, if population == [] then InsufficientRunSupport else InsufficientNonselectiveDistribution)
  {
  }

  lemma QuotientAntitone(a: real, b: real, c: real)
    requires 0.0 <= a && 0.0 < b <= c
    ensures a / c <= a / b
  {
    var x, y := a / b, a / c;
    assert x * b == a && y * c == a;
    if y > x {
      ProductNonNegative(y, c - b);
      Distribute(y, c, b);
      ProductPositive(y - x, b);
      Distribute(b, y, x);
    }
  }

  /** Both clamps are inert: a measured score is 1 - min/quantile, and that lies in [0,1]. */
  lemma ScoreIsUnclamped(population: seq<real>, relative: string)
    requires IsMeasured(population, relative)
    ensures var q := Quantile(population, if relative == "R10" then 0.1 else 0.5).value.value;
            && q > 0.000000000001
            && RelativeScore(population, relative).value.0 == Some(1.0 - Sums.Min(population) / q)
            && 0.0 <= 1.0 - Sums.Min(population) / q <= 1.0
  {
    var p := if relative == "R10" then 0.1 else 0.5;
    var q := Quantile(population, p).value.value;
    QuantileBounds(population, p);
    var least := Quantile(population, 0.0).value.value;
    Sums.MinIsLeast(population);
    assert Sums.Min(population) <= least;
    var i :| 0 <= i < |population| && population[i] == Sums.Min(population);
    QuotientInUnit(Sums.Min(population), q);
  }

  /** R50 is measured whenever R10 is, and is at least as large. */
  lemma MedianScoreDominates(population: seq<real>)
    requires IsMeasured(population, "R10")
    ensures IsMeasured(population, "R50")
    ensures RelativeScore(population, "R10").value.0.value <= RelativeScore(population, "R50").value.0.value
  {
    QuantileMonotone(population, 0.1, 0.5);
    ScoreIsUnclamped(population, "R10");
    ScoreIsUnclamped(population, "R50");
    Sums.MinIsLeast(population);
    var i :| 0 <= i < |population| && population[i] == Sums.Min(population);
    QuotientAntitone(Sums.Min(population), Quantile(population, 0.1).value.value, Quantile(population, 0.5).value.value);
  }

  /** The score depends on the population only as a multiset. */
  lemma ScorePermutation(a: seq<real>, b: seq<real>, relative: string)
    requires multiset(a) == multiset(b)
    ensures RelativeScore(a, relative) == RelativeScore(b, relative)
  {
    SameMembers(a, b);
    NegativeIsMember(a);
    NegativeIsMember(b);
    if a != [] {
      QuantilePermutation(a, b, 0.1);
      QuantilePermutation(a, b, 0.5);
      LeastOfSame(a, b);
    }
  }

  lemma LeastOfSame(a: seq<real>, b: seq<real>)
    requires a != [] && b != [] && forall x :: x in a <==> x in b
    ensures Sums.Min(a) == Sums.Min(b)
  {
    Sums.MinIsLeast(a);
    Sums.MinIsLeast(b);
    assert Sums.Min(a) in b && Sums.Min(b) in a;
  }

  lemma NegativeIsMember(s: seq<real>)
    ensures (exists i :: 0 <= i < |s| && s[i] < 0.0) <==> (exists x :: x in s && x < 0.0)
  {
    if i :| 0 <= i < |s| && s[i] < 0.0 {
      assert s[i] in s;
    }
  }
}
