/**
  The binomial law in exact arithmetic: Pascal's triangle, the law's terms, its lower
  cumulative sum and its upper tail, and how the cumulative sum moves with p.
  Shared by the JPEG grid measurement (an upper tail) and the frozen JPEG rule (a bisection
  on the lower cumulative sum).
 */
module Binomial {
  import opened Algebra

  function Pow(base: real, exponent: nat): real {
    if exponent == 0 then 1.0 else base * Pow(base, exponent - 1)
  }

  function Factorial(n: nat): nat {
    if n == 0 then 1 else n * Factorial(n - 1)
  }

  function Choose(n: nat, k: nat): nat {
    if k == 0 then 1 else if n == 0 then 0 else Choose(n - 1, k - 1) + Choose(n - 1, k)
  }

  /** A mixture with weight p on low, the rest on high. */
  function Mix(p: real, high: real, low: real): real {
    (1.0 - p) * high + p * low
  }

  /** P[X = k] for n independent trials of probability p, by conditioning on the last trial. */
  function Term(n: nat, k: nat, p: real): real {
    if n == 0 then (if k == 0 then 1.0 else 0.0)
    else Mix(p, Term(n - 1, k, p), if k == 0 then 0.0 else Term(n - 1, k - 1, p))
  }

  /** P[X <= k] */
  function Cdf(n: nat, k: nat, p: real): real {
    Term(n, k, p) + if k == 0 then 0.0 else Cdf(n, k - 1, p)
  }

  /** P[X >= k] */
  function Tail(n: nat, k: nat, p: real): real
    decreases n + 1 - k
  {
    if k > n then 0.0 else Term(n, k, p) + Tail(n, k + 1, p)
  }

  lemma {:induction false} FactorialPositive(n: nat)
    ensures Factorial(n) > 0
  {
    if n == 0 {
    } else {
      FactorialPositive(n - 1);
    }
  }

  lemma {:induction false} PowNonNegative(base: real, e: nat)
    requires base >= 0.0
    ensures Pow(base, e) >= 0.0
  {
    if e == 0 {
    } else {
      PowNonNegative(base, e - 1);
    }
  }

  lemma {:induction false} PowOfZeroAndOne(e: nat)
    ensures Pow(1.0, e) == 1.0
    ensures e > 0 ==> Pow(0.0, e) == 0.0
  {
    if e == 0 {
    } else {
      PowOfZeroAndOne(e - 1);
    }
  }

  /** A strictly smaller nonnegative base has a strictly smaller positive power. */
  lemma {:induction false} PowStrictlyMonotone(a: real, b: real, e: nat)
    requires 0.0 <= a < b
    requires e > 0
    ensures Pow(a, e) < Pow(b, e)
  {
    if e == 1 {
      assert Pow(a, 1) == a * Pow(a, 0) && Pow(b, 1) == b * Pow(b, 0);
    } else {
      PowStrictlyMonotone(a, b, e - 1);
      PowNonNegative(a, e - 1);
      MultiplyStrict(a, b, Pow(a, e - 1), Pow(b, e - 1));
    }
  }

  lemma {:induction false} ChooseAboveIsZero(n: nat, k: nat)
    requires k > n
    ensures Choose(n, k) == 0
  {
    if n == 0 {
    } else {
      ChooseAboveIsZero(n - 1, k - 1);
      ChooseAboveIsZero(n - 1, k);
    }
  }

  /** The neighbour ratio used by the tail recurrence: C(n,k+1)(k+1) = C(n,k)(n-k). */
  lemma {:induction false} ChooseNeighbour(n: nat, k: nat)
    requires k <= n
    ensures Choose(n, k + 1) * (k + 1) == Choose(n, k) * (n - k)
  {
    if n == 0 {
    } else if k == n {
      ChooseAboveIsZero(n, n + 1);
    } else if k == 0 {
      ChooseNeighbour(n - 1, 0);
      assert Choose(n, 1) == Choose(n - 1, 0) + Choose(n - 1, 1);
    } else {
      ChooseNeighbour(n - 1, k - 1);
      ChooseNeighbour(n - 1, k);
      NeighbourStep(n, k, Choose(n - 1, k - 1), Choose(n - 1, k), Choose(n - 1, k + 1));
    }
  }

  lemma NeighbourStep(n: int, k: int, a: int, b: int, c: int)
    requires b * k == a * (n - k)
    requires c * (k + 1) == b * (n - 1 - k)
    ensures (b + c) * (k + 1) == (a + b) * (n - k)
  {
    assert (b + c) * (k + 1) == b * k + b + c * (k + 1);
    assert b * (n - 1 - k) == b * (n - k) - b;
    assert (a + b) * (n - k) == a * (n - k) + b * (n - k);
  }

  /** The factorial form of the coefficient, which the source takes through lgamma. */
  lemma {:induction false} ChooseFactorial(n: nat, k: nat)
    requires k <= n
    ensures Choose(n, k) * (Factorial(k) * Factorial(n - k)) == Factorial(n)
    decreases k
  {
    if k == 0 {
    } else {
      ChooseFactorial(n, k - 1);
      ChooseNeighbour(n, k - 1);
      FactorialStep(k, n - k + 1, Choose(n, k), Choose(n, k - 1), Factorial(k - 1), Factorial(n - k));
    }
  }

  lemma FactorialStep(k: int, m: int, c: int, d: int, f: int, g: int)
    requires c * k == d * m
    ensures c * ((k * f) * g) == d * (f * (m * g))
  {
    var fg := f * g;
    assert (k * f) * g == k * fg;
    assert f * (m * g) == m * fg;
    assert c * (k * fg) == (c * k) * fg;
    assert d * (m * fg) == (d * m) * fg;
  }

  /** The probability of one fixed order of k successes and m failures. */
  function Path(p: real, k: nat, m: nat): real {
    if k > 0 then p * Path(p, k - 1, m)
    else if m > 0 then (1.0 - p) * Path(p, 0, m - 1)
    else 1.0
  }

  lemma {:induction false} PathIsProduct(p: real, k: nat, m: nat)
    ensures Path(p, k, m) == Pow(p, k) * Pow(1.0 - p, m)
    decreases k + m
  {
    if k == 0 && m == 0 {
    } else if k > 0 {
      PathIsProduct(p, k - 1, m);
      Associate(p, Pow(p, k - 1), Pow(1.0 - p, m));
    } else {
      PathIsProduct(p, 0, m - 1);
    }
  }

  /** The weight of c equally probable ways. */
  function Weigh(c: real, z: real): real {
    c * z
  }

  lemma {:induction false} PathFails(p: real, k: nat, m: nat)
    ensures Path(p, k, m + 1) == (1.0 - p) * Path(p, k, m)
  {
    if k == 0 {
    } else {
      PathFails(p, k - 1, m);
      Associate(1.0 - p, Path(p, k - 1, m), p);
    }
  }

  lemma Associate(a: real, b: real, c: real)
    ensures (a * b) * c == a * (b * c)
    ensures c * (a * b) == a * (c * b)
  {
  }

  /** The closed form C(n,k) p^k (1-p)^(n-k). */
  lemma {:induction false} TermClosed(n: nat, k: nat, p: real)
    ensures k <= n ==> Term(n, k, p) == Weigh(Choose(n, k) as real, Path(p, k, n - k))
    ensures k > n ==> Term(n, k, p) == 0.0
  {
    if n == 0 {
    } else {
      TermClosed(n - 1, k, p);
      if k == 0 {
        WeighMix(1.0, 0.0, Path(p, 0, n - 1), 0.0, Path(p, 0, n), p);
      } else {
        TermClosed(n - 1, k - 1, p);
        if k == n {
          ClosedTop(n, p);
        } else if k < n {
          ClosedMiddle(n, k, p);
        }
      }
    }
  }

  lemma ClosedTop(n: nat, p: real)
    requires 0 < n && Term(n - 1, n, p) == 0.0
    requires Term(n - 1, n - 1, p) == Weigh(Choose(n - 1, n - 1) as real, Path(p, n - 1, 0))
    ensures Term(n, n, p) == Weigh(Choose(n, n) as real, Path(p, n, 0))
  {
    ChooseAboveIsZero(n - 1, n);
    TopStep(p, Choose(n - 1, n - 1) as real, Path(p, n - 1, 0));
  }

  lemma TopStep(p: real, c: real, z: real)
    ensures Mix(p, 0.0, Weigh(c, z)) == Weigh(c, p * z)
  {
    Associate(p, z, c);
  }

  lemma ClosedMiddle(n: nat, k: nat, p: real)
    requires 0 < k < n
    requires Term(n - 1, k, p) == Weigh(Choose(n - 1, k) as real, Path(p, k, n - 1 - k))
    requires Term(n - 1, k - 1, p) == Weigh(Choose(n - 1, k - 1) as real, Path(p, k - 1, n - k))
    ensures Term(n, k, p) == Weigh(Choose(n, k) as real, Path(p, k, n - k))
  {
    PathFails(p, k, n - 1 - k);
    var fewer, more := Choose(n - 1, k), Choose(n - 1, k - 1);
    assert Choose(n, k) as real == fewer as real + more as real;
    assert Term(n, k, p) == Mix(p, Term(n - 1, k, p), Term(n - 1, k - 1, p));
    WeighMix(fewer as real, more as real, Path(p, k, n - 1 - k), Path(p, k - 1, n - k), Path(p, k, n - k), p);
  }

  /** Ways ending in failure and ways ending in success add up, each being one trial longer. */
  lemma WeighMix(a: real, b: real, u: real, v: real, z: real, p: real)
    requires a == 0.0 || (1.0 - p) * u == z
    requires b == 0.0 || p * v == z
    ensures Mix(p, Weigh(a, u), Weigh(b, v)) == Weigh(a + b, z)
  {
    Associate(1.0 - p, u, a);
    Associate(p, v, b);
    Distribute(z, a, b);
  }

  lemma TermZero(n: nat, p: real)
    ensures Term(n, 0, p) == Pow(1.0 - p, n)
  {
    TermClosed(n, 0, p);
    PathIsProduct(p, 0, n);
    assert Pow(p, 0) == 1.0 && Choose(n, 0) == 1;
  }

  /** exp(lgamma(n+1) - lgamma(k+1) - lgamma(n-k+1)) */
  function Coefficient(n: nat, k: nat): (c: real)
    requires k <= n
    ensures c == Choose(n, k) as real
  {
    FactorialPositive(k);
    FactorialPositive(n - k);
    ChooseFactorial(n, k);
    ExactQuotient(Choose(n, k), Factorial(k) * Factorial(n - k));
    Factorial(n) as real / (Factorial(k) * Factorial(n - k)) as real
  }

  lemma ExactQuotient(c: nat, d: nat)
    requires d > 0
    ensures (c * d) as real / d as real == c as real
  {
    assert (c * d) as real == c as real * d as real;
  }

  /** exp of one log term: n!/(k!(n-k)!) p^k (1-p)^(n-k). */
  function GammaTerm(n: nat, k: nat, p: real): (r: real)
    requires k <= n
    ensures r == Term(n, k, p)
  {
    TermClosed(n, k, p);
    PathIsProduct(p, k, n - k);
    Weigh(Coefficient(n, k), Pow(p, k) * Pow(1.0 - p, n - k))
  }

  lemma {:induction false} TermBounds(n: nat, k: nat, p: real)
    requires 0.0 <= p <= 1.0
    ensures Term(n, k, p) >= 0.0
    ensures 0.0 < p < 1.0 && k <= n ==> Term(n, k, p) > 0.0
  {
    if n == 0 {
    } else {
      TermBounds(n - 1, k, p);
      var low := if k == 0 then 0.0 else Term(n - 1, k - 1, p);
      if k > 0 {
        TermBounds(n - 1, k - 1, p);
      }
      MixNonNegative(p, Term(n - 1, k, p), low);
    }
  }

  lemma MixNonNegative(p: real, high: real, low: real)
    requires 0.0 <= p <= 1.0 && high >= 0.0 && low >= 0.0
    ensures Mix(p, high, low) >= 0.0
    ensures 0.0 < p < 1.0 && (high > 0.0 || low > 0.0) ==> Mix(p, high, low) > 0.0
  {
    ProductNonNegative(1.0 - p, high);
    ProductNonNegative(p, low);
    if 0.0 < p < 1.0 && high > 0.0 {
      ProductPositive(1.0 - p, high);
    }
    if 0.0 < p < 1.0 && low > 0.0 {
      ProductPositive(p, low);
    }
  }

  /** Neighbouring terms: T(n,j+1) (j+1) (1-p) = T(n,j) (n-j) p. */
  lemma {:induction false} TermNeighbour(n: nat, j: nat, p: real)
    ensures Times(Term(n, j + 1, p), j + 1, 1.0 - p) == Times(Term(n, j, p), n - j, p)
  {
    if n == 0 {
    } else {
      TermNeighbour(n - 1, j, p);
      if j == 0 {
      } else {
        TermNeighbour(n - 1, j - 1, p);
        NeighbourOfMix(n - 1, j, p, Term(n - 1, j + 1, p), Term(n - 1, j, p), Term(n - 1, j - 1, p));
      }
    }
  }

  function Times(t: real, m: int, q: real): real {
    t * m as real * q
  }

  lemma NeighbourOfMix(n: int, j: int, p: real, a: real, b: real, c: real)
    requires Times(a, j + 1, 1.0 - p) == Times(b, n - j, p)
    requires Times(b, j, 1.0 - p) == Times(c, n - j + 1, p)
    ensures Times(Mix(p, a, b), j + 1, 1.0 - p) == Times(Mix(p, b, c), n + 1 - j, p)
  {
    var q := 1.0 - p;
    TimesMix(p, a, b, j + 1, q);
    TimesMix(p, b, c, n + 1 - j, p);
  }

  lemma TimesMix(p: real, a: real, b: real, m: int, r: real)
    ensures Times(Mix(p, a, b), m, r) == (1.0 - p) * Times(a, m, r) + p * Times(b, m, r)
  {
  }

  lemma MixAdds(p: real, a: real, b: real, c: real, d: real)
    ensures Mix(p, a, b) + Mix(p, c, d) == Mix(p, a + c, b + d)
  {
  }

  lemma CdfStepZero(n: nat, p: real)
    ensures Cdf(n + 1, 0, p) == Mix(p, Cdf(n, 0, p), 0.0)
  {
  }

  /** P[X <= k+1] among n+1 trials, conditioned on the last trial. */
  lemma {:induction false} CdfStep(n: nat, k: nat, p: real)
    ensures Cdf(n + 1, k + 1, p) == Mix(p, Cdf(n, k + 1, p), Cdf(n, k, p))
  {
    if k == 0 {
      CdfStepZero(n, p);
      MixAdds(p, Term(n, 1, p), Term(n, 0, p), Cdf(n, 0, p), 0.0);
    } else {
      CdfStep(n, k - 1, p);
      MixAdds(p, Term(n, k + 1, p), Term(n, k, p), Cdf(n, k, p), Cdf(n, k - 1, p));
    }
  }

  /** The binomial theorem at p + (1-p): the whole law sums to 1. */
  lemma {:induction false} CdfTotal(n: nat, k: nat, p: real)
    requires k >= n
    ensures Cdf(n, k, p) == 1.0
  {
    if k == 0 {
    } else if k > n {
      TermClosed(n, k, p);
      CdfTotal(n, k - 1, p);
    } else {
      CdfTotal(n - 1, n - 1, p);
      CdfTotal(n - 1, n, p);
      CdfStep(n - 1, n - 1, p);
    }
  }

  lemma {:induction false} CdfNonNegative(n: nat, k: nat, p: real)
    requires 0.0 <= p <= 1.0
    ensures Cdf(n, k, p) >= 0.0
  {
    TermBounds(n, k, p);
    if k == 0 {
    } else {
      CdfNonNegative(n, k - 1, p);
    }
  }

  lemma MixMonotone(q: real, a: real, b: real, c: real, d: real)
    requires 0.0 <= q <= 1.0 && a <= c && b <= d
    ensures Mix(q, a, b) <= Mix(q, c, d)
    ensures q > 0.0 && b < d ==> Mix(q, a, b) < Mix(q, c, d)
  {
    MixAdds(q, a, b, c - a, d - b);
    ProductNonNegative(1.0 - q, c - a);
    ProductNonNegative(q, d - b);
    if q > 0.0 && b < d {
      ProductPositive(q, d - b);
    }
  }

  lemma MixWeight(p: real, q: real, high: real, low: real)
    requires p <= q && low <= high
    ensures Mix(q, high, low) <= Mix(p, high, low)
  {
    ProductNonNegative(q - p, high - low);
    assert Mix(p, high, low) - Mix(q, high, low) == (q - p) * (high - low);
  }

  /** P[X <= k] never grows when p grows. */
  lemma {:induction false} CdfAntitone(n: nat, k: nat, p: real, q: real)
    requires 0.0 <= p <= q <= 1.0
    ensures Cdf(n, k, q) <= Cdf(n, k, p)
  {
    if n == 0 {
      CdfTotal(0, k, p);
      CdfTotal(0, k, q);
    } else if k == 0 {
      CdfAntitone(n - 1, 0, p, q);
      CdfStepZero(n - 1, p);
      CdfStepZero(n - 1, q);
      CdfNonNegative(n - 1, 0, p);
      MixMonotone(q, Cdf(n - 1, 0, q), 0.0, Cdf(n - 1, 0, p), 0.0);
      MixWeight(p, q, Cdf(n - 1, 0, p), 0.0);
    } else {
      CdfAntitone(n - 1, k, p, q);
      CdfAntitone(n - 1, k - 1, p, q);
      CdfStep(n - 1, k - 1, p);
      CdfStep(n - 1, k - 1, q);
      TermBounds(n - 1, k, p);
      MixMonotone(q, Cdf(n - 1, k, q), Cdf(n - 1, k - 1, q), Cdf(n - 1, k, p), Cdf(n - 1, k - 1, p));
      MixWeight(p, q, Cdf(n - 1, k, p), Cdf(n - 1, k - 1, p));
    }
  }

  /** For k < n the fall is strict, so each level is reached at most once. */
  lemma {:induction false} CdfStrictlyAntitone(n: nat, k: nat, p: real, q: real)
    requires k < n
    requires 0.0 <= p < q <= 1.0
    ensures Cdf(n, k, q) < Cdf(n, k, p)
  {
    if k == 0 {
      TermZero(n, p);
      TermZero(n, q);
      PowStrictlyMonotone(1.0 - q, 1.0 - p, n);
    } else {
      CdfStep(n - 1, k - 1, p);
      CdfStep(n - 1, k - 1, q);
      CdfAntitone(n - 1, k, p, q);
      CdfStrictlyAntitone(n - 1, k - 1, p, q);
      TermBounds(n - 1, k, p);
      MixMonotone(q, Cdf(n - 1, k, q), Cdf(n - 1, k - 1, q), Cdf(n - 1, k, p), Cdf(n - 1, k - 1, p));
      MixWeight(p, q, Cdf(n - 1, k, p), Cdf(n - 1, k - 1, p));
    }
  }

  lemma {:induction false} TermAtEnds(n: nat, k: nat)
    ensures Term(n, k, 0.0) == if k == 0 then 1.0 else 0.0
    ensures Term(n, k, 1.0) == if k == n then 1.0 else 0.0
  {
    if n == 0 {
    } else {
      TermAtEnds(n - 1, k);
      if k > 0 {
        TermAtEnds(n - 1, k - 1);
      }
    }
  }

  lemma {:induction false} CdfAtEnds(n: nat, k: nat)
    requires k < n
    ensures Cdf(n, k, 0.0) == 1.0
    ensures Cdf(n, k, 1.0) == 0.0
  {
    TermAtEnds(n, k);
    if k == 0 {
    } else {
      CdfAtEnds(n, k - 1);
    }
  }

  lemma {:induction false} TailComplementsCdf(n: nat, k: nat, p: real)
    requires k <= n
    ensures Cdf(n, k, p) + Tail(n, k + 1, p) == 1.0
    decreases n - k
  {
    if k == n {
      CdfTotal(n, n, p);
    } else {
      TailComplementsCdf(n, k + 1, p);
    }
  }

  /** The upper tail: it starts at 1, lies in [0,1], and falls as its start moves up. */
  lemma {:induction false} TailShape(n: nat, k: nat, p: real)
    requires k <= n && 0.0 <= p <= 1.0
    ensures Tail(n, 0, p) == 1.0
    ensures 0.0 <= Tail(n, k + 1, p) <= Tail(n, k, p) <= 1.0
    ensures 0.0 < p < 1.0 ==> 0.0 < Tail(n, k, p) && Tail(n, k + 1, p) < Tail(n, k, p)
    ensures p == 1.0 ==> Tail(n, k, p) == 1.0
  {
    TailComplementsCdf(n, 0, p);
    TailComplementsCdf(n, k, p);
    TermBounds(n, k, p);
    CdfNonNegative(n, k, p);
    CdfAntitone(n, k, p, 1.0);
    if k > 0 {
      TailComplementsCdf(n, k - 1, p);
      CdfNonNegative(n, k - 1, p);
      if p == 1.0 {
        CdfAtEnds(n, k - 1);
      }
    }
    TailNonNegative(n, k + 1, p);
  }

  lemma {:induction false} TailNonNegative(n: nat, k: nat, p: real)
    requires 0.0 <= p <= 1.0
    ensures Tail(n, k, p) >= 0.0
    decreases n + 1 - k
  {
    if k > n {
    } else {
      TermBounds(n, k, p);
      TailNonNegative(n, k + 1, p);
    }
  }

  /** The tail grows with p. */
  lemma TailMonotoneInP(n: nat, k: nat, p: real, q: real)
    requires k <= n && 0.0 <= p <= q <= 1.0
    ensures Tail(n, k, p) <= Tail(n, k, q)
  {
    if k == 0 {
      TailShape(n, 0, p);
      TailShape(n, 0, q);
    } else {
      TailComplementsCdf(n, k - 1, p);
      TailComplementsCdf(n, k - 1, q);
      CdfAntitone(n, k - 1, p, q);
    }
  }
}
