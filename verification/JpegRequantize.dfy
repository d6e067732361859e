/**
  scripts/research/jpeg_measurements.py, ideal_requantize and ideal_bin_count: rounding an
  integer coefficient to multiples of q1 and then to multiples of q2, and the closed form for
  how many first-step values the second step sends to one final bin.
 */
module JpegRequantize {
  import opened Wrappers
  import opened Integers

  function FirstStep(t: int, q1: int): int
    requires q1 > 0
  {
    (2 * t + q1) / (2 * q1)
  }

  function SecondStep(first: int, q1: int, q2: int): int
    requires q1 > 0 && q2 > 0
  {
    (2 * q1 * first + q2) / (2 * q2)
  }

  function IdealRequantize(t: int, q1: int, q2: int): Result<int> {
    if q1 <= 0 || q2 <= 0 then Failure("positive quantization required")
    else Success(SecondStep(FirstStep(t, q1), q1, q2))
  }

  /** Both steps round to the nearest multiple, halves upwards; only positive steps are accepted. */
  lemma RequantizeRoundsTwice(t: int, k: int, q1: int, q2: int)
    ensures IdealRequantize(t, q1, q2).Failure? <==> q1 <= 0 || q2 <= 0
    ensures IdealBinCount(k, q1, q2).Failure? <==> q1 <= 0 || q2 <= 0
    ensures q1 > 0 && q2 > 0 ==>
              && (IdealRequantize(t, q1, q2) == Success(k) <==>
                    exists j :: NearestMultiple(t, q1, j) && NearestMultiple(q1 * j, q2, k))
              && forall j :: SecondStep(j, q1, q2) == k <==> NearestMultiple(q1 * j, q2, k)
  {
    if q1 > 0 && q2 > 0 {
      RoundsTwice(t, k, q1, q2);
    }
  }

  lemma RoundsTwice(t: int, k: int, q1: int, q2: int)
    requires q1 > 0 && q2 > 0
    ensures IdealRequantize(t, q1, q2) == Success(k) <==>
              exists j :: NearestMultiple(t, q1, j) && NearestMultiple(q1 * j, q2, k)
    ensures forall j :: SecondStep(j, q1, q2) == k <==> NearestMultiple(q1 * j, q2, k)
  {
    forall v, q, j | q > 0
      ensures (2 * v + q) / (2 * q) == j <==> NearestMultiple(v, q, j)
    {
      FloorUnique(2 * v + q, 2 * q, j);
      assert 2 * q * j == 2 * (q * j) && 2 * q * (j + 1) == 2 * (q * j) + 2 * q;
    }
    assert NearestMultiple(t, q1, FirstStep(t, q1));
    forall j
      ensures SecondStep(j, q1, q2) == k <==> NearestMultiple(q1 * j, q2, k)
    {
      assert 2 * q1 * j == 2 * (q1 * j);
    }
  }

  /** v lies within half a step below or less than half a step above q * j. */
  ghost predicate NearestMultiple(v: int, q: int, j: int) {
    2 * (q * j) - q <= 2 * v < 2 * (q * j) + q
  }

  function IdealBinCount(k: int, q1: int, q2: int): Result<int> {
    if q1 <= 0 || q2 <= 0 then Failure("positive quantization required")
    else Success(-((-(2 * k + 1) * q2) / (2 * q1)) + (-(2 * k - 1) * q2) / (2 * q1))
  }

  /** The first intermediate index that the second step sends to bin k or above. */
  function Edge(k: int, q1: int, q2: int): int
    requires q1 > 0 && q2 > 0
  {
    Ceil((2 * k - 1) * q2, 2 * q1)
  }

  lemma BinCountIsEdgeDifference(k: int, q1: int, q2: int)
    requires q1 > 0 && q2 > 0
    ensures IdealBinCount(k, q1, q2) == Success(Edge(k + 1, q1, q2) - Edge(k, q1, q2))
  {
    assert -(2 * k + 1) * q2 == -((2 * (k + 1) - 1) * q2);
    assert -(2 * k - 1) * q2 == -((2 * k - 1) * q2);
  }

  lemma SecondStepAbove(first: int, k: int, q1: int, q2: int)
    requires q1 > 0 && q2 > 0
    ensures k <= SecondStep(first, q1, q2) <==> Edge(k, q1, q2) <= first
  {
    CeilUnique((2 * k - 1) * q2, 2 * q1, first);
    var a := 2 * q1 * first + q2;
    FloorUnique(a, 2 * q2, a / (2 * q2));
    assert 2 * q2 * k == (2 * k - 1) * q2 + q2;
    if k <= a / (2 * q2) {
      MulMonotone(2 * q2, k, a / (2 * q2));
    } else {
      MulMonotone(2 * q2, a / (2 * q2) + 1, k);
    }
  }

  /** The first-step indices whose second step is k, and the promise that the closed form counts them. */
  function IntermediateIndices(k: int, q1: int, q2: int): (s: set<int>)
    requires q1 > 0 && q2 > 0
    ensures forall j :: j in s <==> SecondStep(j, q1, q2) == k
    ensures IdealBinCount(k, q1, q2) == Success(|s|)
  {
    BinCountIsEdgeDifference(k, q1, q2);
    EdgeMonotone(k, q1, q2);
    assert forall j :: SecondStep(j, q1, q2) == k <==> Edge(k, q1, q2) <= j < Edge(k + 1, q1, q2) by {
      forall j
        ensures SecondStep(j, q1, q2) == k <==> Edge(k, q1, q2) <= j < Edge(k + 1, q1, q2)
      {
        SecondStepAbove(j, k, q1, q2);
        SecondStepAbove(j, k + 1, q1, q2);
      }
    }
    Range(Edge(k, q1, q2), Edge(k + 1, q1, q2))
  }

  lemma EdgeMonotone(k: int, q1: int, q2: int)
    requires q1 > 0 && q2 > 0
    ensures Edge(k, q1, q2) <= Edge(k + 1, q1, q2)
    ensures q2 <= q1 ==> Edge(k + 1, q1, q2) <= Edge(k, q1, q2) + 1
    ensures q1 <= q2 ==> Edge(k, q1, q2) + 1 <= Edge(k + 1, q1, q2)
  {
    var a, b, e, f := (2 * k - 1) * q2, 2 * q1, Edge(k, q1, q2), Edge(k + 1, q1, q2);
    assert (2 * (k + 1) - 1) * q2 == a + 2 * q2;
    CeilUnique(a, b, e);
    CeilUnique(a, b, f);
    CeilUnique(a, b, f - 1);
    CeilUnique(a + 2 * q2, b, f);
    CeilUnique(a + 2 * q2, b, e + 1);
    assert b * (f - 1) == b * f - b;
    assert b * (e + 1) == b * e + b;
  }

  /** Each first-step index j is hit by exactly the q1 integers from q1*j - q1/2. */
  lemma FirstStepAbove(t: int, j: int, q1: int)
    requires q1 > 0
    ensures j <= FirstStep(t, q1) <==> q1 * j - q1 / 2 <= t
  {
    var a := 2 * t + q1;
    FloorUnique(a, 2 * q1, a / (2 * q1));
    assert 2 * q1 * j == 2 * (q1 * j);
    if j <= a / (2 * q1) {
      MulMonotone(2 * q1, j, a / (2 * q1));
    } else {
      MulMonotone(2 * q1, a / (2 * q1) + 1, j);
    }
  }

  /** All original coefficients that end in bin k: q1 times the closed form of them. */
  function Preimage(k: int, q1: int, q2: int): (s: set<int>)
    requires q1 > 0 && q2 > 0
    ensures forall t :: t in s <==> IdealRequantize(t, q1, q2) == Success(k)
    ensures |s| == q1 * IdealBinCount(k, q1, q2).value
  {
    var e, f := Edge(k, q1, q2), Edge(k + 1, q1, q2);
    BinCountIsEdgeDifference(k, q1, q2);
    EdgeMonotone(k, q1, q2);
    assert forall t :: IdealRequantize(t, q1, q2) == Success(k) <==> q1 * e - q1 / 2 <= t < q1 * f - q1 / 2 by {
      forall t
        ensures IdealRequantize(t, q1, q2) == Success(k) <==> q1 * e - q1 / 2 <= t < q1 * f - q1 / 2
      {
        var j := FirstStep(t, q1);
        SecondStepAbove(j, k, q1, q2);
        SecondStepAbove(j, k + 1, q1, q2);
        FirstStepAbove(t, e, q1);
        FirstStepAbove(t, f, q1);
      }
    }
    MulMonotone(q1, e, f);
    assert q1 * (f - e) == q1 * f - q1 * e;
    Range(q1 * e - q1 / 2, q1 * f - q1 / 2)
  }

  function BinCountSum(k: int, length: nat, q1: int, q2: int): int
    requires q1 > 0 && q2 > 0
  {
    if length == 0 then 0
    else BinCountSum(k, length - 1, q1, q2) + IdealBinCount(k + length - 1, q1, q2).value
  }

  lemma {:induction false} BinCountsTelescope(k: int, length: nat, q1: int, q2: int)
    requires q1 > 0 && q2 > 0
    ensures BinCountSum(k, length, q1, q2) == Edge(k + length, q1, q2) - Edge(k, q1, q2)
  {
    if length == 0 {
    } else {
      BinCountsTelescope(k, length - 1, q1, q2);
      BinCountIsEdgeDifference(k + length - 1, q1, q2);
    }
  }

  lemma EdgePeriod(k: int, q1: int, q2: int)
    requires q1 > 0 && q2 > 0
    ensures Edge(k + q1, q1, q2) == Edge(k, q1, q2) + q2
  {
    var a, b := (2 * k - 1) * q2, 2 * q1;
    assert (2 * (k + q1) - 1) * q2 == a + b * q2;
    assert -(a + b * q2) == -a + b * -q2;
    FloorShift(-a, b, -q2);
  }

  /** Conservation: any q1 consecutive final bins share exactly q2 intermediate indices. */
  lemma PeriodSum(k: int, q1: int, q2: int)
    requires q1 > 0 && q2 > 0
    ensures BinCountSum(k, q1, q1, q2) == q2
  {
    BinCountsTelescope(k, q1, q1, q2);
    EdgePeriod(k, q1, q2);
  }

  /** The bins of k .. k + length - 1 that no intermediate index reaches. */
  function EmptyBins(k: int, length: nat, q1: int, q2: int): (s: set<int>)
    requires q1 > 0 && q2 > 0
    ensures forall b :: b in s <==> k <= b < k + length && IdealBinCount(b, q1, q2) == Success(0)
  {
    if length == 0 then {}
    else
      var b := k + length - 1;
      EmptyBins(k, length - 1, q1, q2) + if IdealBinCount(b, q1, q2) == Success(0) then {b} else {}
  }

  lemma BinCountIsZeroOrOne(k: int, q1: int, q2: int)
    requires 0 < q2 <= q1
    ensures IdealBinCount(k, q1, q2) in {Success(0), Success(1)}
  {
    BinCountIsEdgeDifference(k, q1, q2);
    EdgeMonotone(k, q1, q2);
  }

  lemma {:induction false} EmptyBinsBySum(k: int, length: nat, q1: int, q2: int)
    requires 0 < q2 <= q1
    ensures |EmptyBins(k, length, q1, q2)| + BinCountSum(k, length, q1, q2) == length
  {
    if length == 0 {
    } else {
      EmptyBinsBySum(k, length - 1, q1, q2);
      BinCountIsZeroOrOne(k + length - 1, q1, q2);
      assert k + length - 1 !in EmptyBins(k, length - 1, q1, q2);
    }
  }

  /** The comb of double quantization: of any q1 consecutive bins, max(0, q1 - q2) are empty. */
  lemma EmptyBinsPerPeriod(k: int, q1: int, q2: int)
    requires q1 > 0 && q2 > 0
    ensures |EmptyBins(k, q1, q1, q2)| == if q2 <= q1 then q1 - q2 else 0
  {
    if q2 <= q1 {
      EmptyBinsBySum(k, q1, q1, q2);
      PeriodSum(k, q1, q2);
    } else {
      forall b | b in EmptyBins(k, q1, q1, q2)
        ensures false
      {
        BinCountIsEdgeDifference(b, q1, q2);
        EdgeMonotone(b, q1, q2);
      }
    }
  }
}
