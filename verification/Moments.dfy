/**
  scripts/research/jpeg_pilot.py, class Moments: a constant-space distribution summary. What the
  fields hold is stated against everything ever added, which the class itself never stores.
 */
module Moments {
  import opened Wrappers
  import opened Integers
  import opened Sums
  import opened Sorting
  import opened Algebra
  import Quantiles

  const BINS: nat := 20

  /** low starts at +infinity and high at -infinity. */
  datatype Extended = NegativeInfinity | Finite(value: real) | PositiveInfinity

  function Lower(a: Extended, v: real): Extended {
    match a
    case NegativeInfinity => a
    case Finite(x) => if v < x then Finite(v) else a
    case PositiveInfinity => Finite(v)
  }

  function Higher(a: Extended, v: real): Extended {
    match a
    case NegativeInfinity => Finite(v)
    case Finite(x) => if v > x then Finite(v) else a
    case PositiveInfinity => a
  }

  /** int(x): towards zero */
  function Truncate(x: real): int {
    if x >= 0.0 then x.Floor else -((-x).Floor)
  }

  function BinOf(value: real): (b: nat)
    ensures b < BINS
  {
    var t := Truncate(value * 20.0);
    if t < 0 then 0 else if t > 19 then 19 else t
  }

  /** Bin b holds the values from b/20 up to but not including (b+1)/20; what is negative falls in
      the first, what reaches 1 in the last. */
  lemma BinsAreTwentieths(value: real)
    ensures 0.0 <= value < 1.0 ==> BinOf(value) as real <= 20.0 * value < (BinOf(value) + 1) as real
    ensures value < 0.0 ==> BinOf(value) == 0
    ensures value >= 1.0 ==> BinOf(value) == 19
  {
  }

  function FallsIn(b: nat): real -> bool {
    (v: real) => BinOf(v) == b
  }

  // ----- the distribution of a finite sample, directly

  function SampleMean(values: seq<real>): real {
    if values == [] then 0.0 else Mean(values)
  }

  function SquaredDeviations(values: seq<real>): real {
    if values == [] then 0.0 else Dot(Centred(values), Centred(values))
  }

  function Lowest(values: seq<real>): Extended {
    if values == [] then PositiveInfinity else Lower(Lowest(values[..|values| - 1]), values[|values| - 1])
  }

  function Highest(values: seq<real>): Extended {
    if values == [] then NegativeInfinity else Higher(Highest(values[..|values| - 1]), values[|values| - 1])
  }

  datatype Summary = Summary(n: nat, mean: real, variance: real, minimum: Extended, maximum: Extended, bins: seq<nat>)

  function SummaryOf(values: seq<real>): Summary
    requires values != []
  {
    Summary(|values|, Mean(values), SquaredDeviations(values) / |values| as real,
            Lowest(values), Highest(values), seq(BINS, b requires 0 <= b < BINS => CountIf(values, FallsIn(b))))
  }

  /** The positions of the values that fall in one bin. */
  ghost function BinAt(values: seq<real>, b: nat): (s: set<int>)
    ensures forall i :: i in s <==> 0 <= i < |values| && BinOf(values[i]) == b
    ensures |s| == CountIf(values, FallsIn(b))
  {
    Positions(values, FallsIn(b))
  }

  /** What a summary says: number, mean, mean squared deviation from the mean, extremes and bins. */
  lemma SummaryMeans(values: seq<real>)
    requires values != []
    ensures var r := SummaryOf(values);
            && r.n == |values| && Product(r.mean, r.n as real) == Sum(values)
            && Product(r.variance, r.n as real) == Dot(Shifted(values, r.mean), Shifted(values, r.mean))
            && |r.bins| == 20 && forall b :: 0 <= b < 20 ==> r.bins[b] == |BinAt(values, b)|
    ensures var r := SummaryOf(values);
            && r.minimum.Finite? && r.minimum.value in values && r.maximum.Finite? && r.maximum.value in values
            && forall v :: v in values ==> r.minimum.value <= v <= r.maximum.value
  {
    ExtremesAreAttained(values);
    TimesSize(Sum(values), |values|);
    TimesSize(SquaredDeviations(values), |values|);
  }

  lemma TimesSize(v: real, n: nat)
    requires n > 0
    ensures Product(v / n as real, n as real) == v
  {
  }

  class Moments {
    var n: nat
    var mean: real
    var m2: real
    var low: Extended
    var high: Extended
    var bins: array<nat>
    ghost var values: seq<real>

    ghost predicate Valid()
      reads this, bins
    {
      && n == |values| && bins.Length == BINS
      && mean == SampleMean(values) && m2 == SquaredDeviations(values)
      && low == Lowest(values) && high == Highest(values)
      && forall b :: 0 <= b < BINS ==> bins[b] == CountIf(values, FallsIn(b))
    }

    constructor ()
      ensures Valid() && fresh(bins) && values == []
    {
      n, mean, m2 := 0, 0.0, 0.0;
      low, high := PositiveInfinity, NegativeInfinity;
      bins := new nat[BINS](_ => 0);
      values := [];
    }

    method Add(value: real)
      requires Valid()
      modifies this, bins
      ensures Valid() && bins == old(bins) && values == old(values) + [value]
    {
      WelfordStep(values, value, mean, m2, n + 1);
      n := n + 1;
      var delta := value - mean;
      mean := NextMean(mean, delta, n);
      m2 := NextM2(m2, delta, value - mean);
      low, high := Lower(low, value), Higher(high, value);
      var b := BinOf(value);
      bins[b] := bins[b] + 1;
      values := values + [value];
    }

    method Result() returns (r: Wrappers.Result<Summary>)
      requires Valid()
      ensures r.Failure? <==> values == []
      ensures values != [] ==> r == Success(SummaryOf(values))
    {
      if n == 0 {
        return Failure("division by zero");
      }
      r := Success(Summary(n, mean, m2 / n as real, low, high, bins[..]));
      assert bins[..] == SummaryOf(values).bins;
    }
  }

  // ----- Welford's update

  lemma {:induction false} DotOfShifted(s: seq<real>, c: real)
    ensures Dot(Shifted(s, c), Shifted(s, c)) == Dot(s, s) - 2.0 * Product(c, Sum(s)) + Product(|s| as real, Square(c))
  {
    DotShifted(Shifted(s, c), s, c);
    DotShifted(s, s, c);
    SumShifted(s, c);
    ExpandSquare(Dot(s, s), Sum(s), |s| as real, c);
  }

  lemma ExpandSquare(q: real, s: real, n: real, c: real)
    ensures (q - s * c) - (s - n * c) * c == q - 2.0 * Product(c, s) + Product(n, Square(c))
  {
  }

  /** The squared deviations are the sum of squares less n times the squared mean. */
  lemma DeviationsByMean(values: seq<real>)
    ensures SquaredDeviations(values) == Dot(values, values) - Product(|values| as real, Square(SampleMean(values)))
  {
    if values != [] {
      var m, n := Mean(values), |values| as real;
      DotOfShifted(values, m);
      SpreadAboutMean(Dot(values, values), Sum(values), n, m);
    }
  }

  lemma SpreadAboutMean(q: real, s: real, n: real, m: real)
    requires n != 0.0 && m == s / n
    ensures q - 2.0 * Product(m, s) + Product(n, Square(m)) == q - Product(n, Square(m))
  {
    assert s == n * m;
    assert m * (n * m) == n * (m * m);
  }

  lemma WelfordStep(values: seq<real>, v: real, mean: real, m2: real, n: nat)
    requires mean == SampleMean(values) && m2 == SquaredDeviations(values) && n == |values| + 1
    ensures SampleMean(values + [v]) == NextMean(mean, v - mean, n)
    ensures SquaredDeviations(values + [v]) == NextM2(m2, v - mean, v - NextMean(mean, v - mean, n))
  {
    Welford(values, v);
  }

  function NextMean(mean: real, delta: real, n: nat): real
    requires n > 0
  {
    mean + delta / n as real
  }

  function NextM2(m2: real, delta: real, deltaAfter: real): real {
    m2 + delta * deltaAfter
  }

  /** One step keeps the exact mean and the exact sum of squared deviations from the new mean. */
  lemma Welford(values: seq<real>, v: real)
    ensures var before := SampleMean(values);
            var after := NextMean(before, v - before, |values| + 1);
            && SampleMean(values + [v]) == after
            && SquaredDeviations(values + [v]) == NextM2(SquaredDeviations(values), v - before, v - after)
  {
    var s := values + [v];
    assert s[..|values|] == values;
    var m, k := SampleMean(values), |values| as real;
    var n := k + 1.0;
    assert Sum(values) == Product(k, m);
    StepMean(k, m, v);
    DeviationsByMean(values);
    DeviationsByMean(s);
    StepDeviation(k, m, m + (v - m) / n, v);
  }

  lemma StepMean(k: real, m: real, v: real)
    requires k >= 0.0
    ensures (Product(k, m) + v) / (k + 1.0) == m + (v - m) / (k + 1.0)
    ensures Product(k + 1.0, m + (v - m) / (k + 1.0)) == Product(k, m) + v
  {
    var n := k + 1.0;
    var d := (v - m) / n;
    assert n * d == v - m;
    assert n * (m + d) == k * m + v;
  }

  lemma StepDeviation(k: real, m: real, after: real, v: real)
    requires Product(k + 1.0, after) == Product(k, m) + v
    ensures (v - m) * (v - after) == v * v - Product(k + 1.0, Square(after)) + Product(k, Square(m))
  {
    assert (k + 1.0) * (after * after) == ((k + 1.0) * after) * after;
    assert ((k + 1.0) * after) * after == (k * m + v) * after;
    assert k * (after - m) == v - after;
    assert m * (k * (after - m)) == m * (v - after);
  }

  // ----- what the summary depends on

  lemma {:induction false} BinsAddUp(values: seq<real>)
    ensures SumInts(seq(BINS, b requires 0 <= b < BINS => CountIf(values, FallsIn(b)) as int)) == |values|
  {
    var counts := seq(BINS, b requires 0 <= b < BINS => CountIf(values, FallsIn(b)) as int);
    if values == [] {
      SumOfZeros(counts);
    } else {
      var rest, v := values[..|values| - 1], values[|values| - 1];
      var before := seq(BINS, b requires 0 <= b < BINS => CountIf(rest, FallsIn(b)) as int);
      BinsAddUp(rest);
      SumOfUpdated(before, BinOf(v), before[BinOf(v)] + 1);
      assert counts == before[BinOf(v) := before[BinOf(v)] + 1];
    }
  }

  lemma {:induction false} InsertKeepsSum(x: real, s: seq<real>)
    ensures Sum(Insert(x, s, Quantiles.AtMost)) == Sum(s) + x
  {
    if s == [] || s[|s| - 1] <= x {
      assert (s + [x])[..|s|] == s;
    } else {
      var k := |s| - 1;
      InsertKeepsSum(x, s[..k]);
      var r := Insert(x, s[..k], Quantiles.AtMost);
      assert (r + [s[k]])[..|r|] == r;
    }
  }

  lemma AppendSquare(s: seq<real>, x: real)
    ensures Dot(s + [x], s + [x]) == Dot(s, s) + Product(x, x)
  {
    assert (s + [x])[..|s|] == s;
  }

  lemma {:induction false} InsertKeepsSquares(x: real, s: seq<real>)
    ensures var r := Insert(x, s, Quantiles.AtMost); Dot(r, r) == Dot(s, s) + Product(x, x)
  {
    if s == [] || s[|s| - 1] <= x {
      AppendSquare(s, x);
    } else {
      var k := |s| - 1;
      InsertKeepsSquares(x, s[..k]);
      AppendSquare(Insert(x, s[..k], Quantiles.AtMost), s[k]);
    }
  }

  lemma {:induction false} SortKeepsSum(s: seq<real>)
    ensures Sum(Sort(s, Quantiles.AtMost)) == Sum(s)
  {
    if s == [] {
    } else {
      SortKeepsSum(s[..|s| - 1]);
      InsertKeepsSum(s[|s| - 1], Sort(s[..|s| - 1], Quantiles.AtMost));
    }
  }

  lemma {:induction false} SortKeepsSquares(s: seq<real>)
    ensures var r := Sort(s, Quantiles.AtMost); Dot(r, r) == Dot(s, s)
  {
    if s == [] {
    } else {
      var before := s[..|s| - 1];
      SortKeepsSquares(before);
      InsertKeepsSquares(s[|s| - 1], Sort(before, Quantiles.AtMost));
    }
  }

  lemma {:induction false} ExtremesAreAttained(values: seq<real>)
    requires values != []
    ensures Lowest(values).Finite? && Highest(values).Finite?
    ensures Lowest(values).value in values && Highest(values).value in values
    ensures forall v :: v in values ==> Lowest(values).value <= v <= Highest(values).value
  {
    var k := |values| - 1;
    assert forall v :: v in values <==> v in values[..k] || v == values[k];
    if k == 0 {
    } else {
      ExtremesAreAttained(values[..k]);
    }
  }

  lemma SameSums(a: seq<real>, b: seq<real>)
    requires a != [] && b != [] && |a| == |b| && multiset(a) == multiset(b)
    ensures Mean(a) == Mean(b) && SquaredDeviations(a) == SquaredDeviations(b)
  {
    Quantiles.AtMostIsAnOrder();
    SortInvariant(a, b, Quantiles.AtMost);
    SortKeepsSum(a);
    SortKeepsSum(b);
    SortKeepsSquares(a);
    SortKeepsSquares(b);
    DeviationsByMean(a);
    DeviationsByMean(b);
  }

  lemma SameExtremes(a: seq<real>, b: seq<real>)
    requires a != [] && b != [] && forall v :: v in a <==> v in b
    ensures Lowest(a) == Lowest(b) && Highest(a) == Highest(b)
  {
    ExtremesAreAttained(a);
    ExtremesAreAttained(b);
  }

  /** The reported summary is that of the observations as a multiset: insertion order is not part of it. */
  lemma OrderIrrelevant(a: seq<real>, b: seq<real>)
    requires a != [] && multiset(a) == multiset(b)
    ensures b != [] && SummaryOf(a) == SummaryOf(b)
  {
    SameMembers(a, b);
    SameSums(a, b);
    SameExtremes(a, b);
    forall k | 0 <= k < BINS
      ensures SummaryOf(a).bins[k] == SummaryOf(b).bins[k]
    {
      CountIfPermutation(a, b, FallsIn(k));
    }
  }
}
