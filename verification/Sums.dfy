/** Sums, maxima and inner products of real sequences, shared by every measurement. */
module Sums {
  import opened Algebra

  function Sum(s: seq<real>): real {
    if |s| == 0 then 0.0 else Sum(s[..|s| - 1]) + s[|s| - 1]
  }

  /** Inner product; Dot(s, s) is the sum of squares. */
  function Dot(a: seq<real>, b: seq<real>): real
    requires |a| == |b|
  {
    if |a| == 0 then 0.0 else Dot(a[..|a| - 1], b[..|b| - 1]) + a[|a| - 1] * b[|b| - 1]
  }

  function Product(c: real, x: real): real {
    c * x
  }

  function Scaled(c: real, s: seq<real>): (r: seq<real>)
    ensures |r| == |s|
  {
    seq(|s|, i requires 0 <= i < |s| => Product(c, s[i]))
  }

  /** Every entry moved by the same amount. */
  function Shifted(s: seq<real>, c: real): (r: seq<real>)
    ensures |r| == |s|
  {
    seq(|s|, i requires 0 <= i < |s| => s[i] - c)
  }

  function Mean(s: seq<real>): real
    requires |s| > 0
  {
    Sum(s) / |s| as real
  }

  function Centred(s: seq<real>): (r: seq<real>)
    requires |s| > 0
    ensures |r| == |s|
  {
    Shifted(s, Mean(s))
  }

  function Max(s: seq<real>): real
    requires |s| > 0
  {
    if |s| == 1 then s[0]
    else
      var rest := Max(s[..|s| - 1]);
      if rest < s[|s| - 1] then s[|s| - 1] else rest
  }

  function Min(s: seq<real>): real
    requires |s| > 0
  {
    if |s| == 1 then s[0]
    else
      var rest := Min(s[..|s| - 1]);
      if rest > s[|s| - 1] then s[|s| - 1] else rest
  }

  lemma {:induction false} MaxIsGreatest(s: seq<real>)
    requires |s| > 0
    ensures Max(s) in s && forall i :: 0 <= i < |s| ==> s[i] <= Max(s)
  {
    if |s| == 1 {
    } else {
      MaxIsGreatest(s[..|s| - 1]);
      assert forall i :: 0 <= i < |s| - 1 ==> s[..|s| - 1][i] == s[i];
    }
  }

  lemma {:induction false} MinIsLeast(s: seq<real>)
    requires |s| > 0
    ensures Min(s) in s && forall i :: 0 <= i < |s| ==> Min(s) <= s[i]
  {
    if |s| == 1 {
    } else {
      MinIsLeast(s[..|s| - 1]);
      assert forall i :: 0 <= i < |s| - 1 ==> s[..|s| - 1][i] == s[i];
    }
  }

  lemma {:induction false} SumConcat(a: seq<real>, b: seq<real>)
    ensures Sum(a + b) == Sum(a) + Sum(b)
  {
    if |b| == 0 {
      assert a + b == a;
    } else {
      assert (a + b)[..|a + b| - 1] == a + b[..|b| - 1];
      SumConcat(a, b[..|b| - 1]);
    }
  }

  lemma SumPrefixStep(s: seq<real>, i: nat)
    requires i < |s|
    ensures Sum(s[..i + 1]) == Sum(s[..i]) + s[i]
  {
    assert s[..i + 1][..i] == s[..i];
  }

  /** A block sum is a difference of prefix sums. */
  lemma SumBlock(s: seq<real>, start: nat, end: nat)
    requires start <= end <= |s|
    ensures Sum(s[start..end]) == Sum(s[..end]) - Sum(s[..start])
  {
    assert s[..end] == s[..start] + s[start..end];
    SumConcat(s[..start], s[start..end]);
  }

  lemma {:induction false} SumScaled(c: real, s: seq<real>)
    ensures Sum(Scaled(c, s)) == c * Sum(s)
  {
    if |s| == 0 {
    } else {
      assert Scaled(c, s)[..|s| - 1] == Scaled(c, s[..|s| - 1]);
      SumScaled(c, s[..|s| - 1]);
      Distribute(c, Sum(s[..|s| - 1]), s[|s| - 1]);
    }
  }

  lemma {:induction false} SumShifted(s: seq<real>, c: real)
    ensures Sum(Shifted(s, c)) == Sum(s) - |s| as real * c
  {
    if |s| == 0 {
    } else {
      var r := s[..|s| - 1];
      assert Shifted(s, c)[..|s| - 1] == Shifted(r, c);
      SumShifted(r, c);
      Distribute(c, |r| as real, 1.0);
    }
  }

  lemma CentredSumsToZero(s: seq<real>)
    requires |s| > 0
    ensures Sum(Centred(s)) == 0.0
  {
    SumShifted(s, Mean(s));
  }

  lemma {:induction false} DotScaledLeft(c: real, a: seq<real>, b: seq<real>)
    requires |a| == |b|
    ensures Dot(Scaled(c, a), b) == Product(c, Dot(a, b))
  {
    if |a| == 0 {
    } else {
      var n := |a| - 1;
      assert Scaled(c, a)[..n] == Scaled(c, a[..n]);
      DotScaledLeft(c, a[..n], b[..n]);
    }
  }

  lemma DotScaled(c: real, a: seq<real>, b: seq<real>)
    requires |a| == |b|
    ensures Dot(Scaled(c, a), b) == Product(c, Dot(a, b))
    ensures Dot(a, Scaled(c, b)) == Product(c, Dot(a, b))
  {
    DotScaledLeft(c, a, b);
    DotScaledLeft(c, b, a);
    DotSymmetric(a, b);
    DotSymmetric(a, Scaled(c, b));
  }

  lemma {:induction false} DotShifted(a: seq<real>, b: seq<real>, c: real)
    requires |a| == |b|
    ensures Dot(a, Shifted(b, c)) == Dot(a, b) - Sum(a) * c
    ensures Dot(Shifted(b, c), a) == Dot(b, a) - Sum(a) * c
  {
    if |a| == 0 {
    } else {
      var n := |a| - 1;
      assert Shifted(b, c)[..n] == Shifted(b[..n], c);
      DotShifted(a[..n], b[..n], c);
      Distribute(a[n], b[n], c);
      Distribute(c, Sum(a[..n]), a[n]);
    }
  }

  /** a - b, entry by entry */
  function Minus(a: seq<real>, b: seq<real>): (r: seq<real>)
    requires |a| == |b|
    ensures |r| == |a|
  {
    seq(|a|, i requires 0 <= i < |a| => a[i] - b[i])
  }

  lemma {:induction false} DotMinus(u: seq<real>, a: seq<real>, b: seq<real>)
    requires |u| == |a| == |b|
    ensures Dot(u, Minus(a, b)) == Dot(u, a) - Dot(u, b)
  {
    if |u| == 0 {
    } else {
      var n := |u| - 1;
      assert Minus(a, b)[..n] == Minus(a[..n], b[..n]);
      DotMinus(u[..n], a[..n], b[..n]);
      Distribute(u[n], a[n], b[n]);
    }
  }

  /** a - t*b, entry by entry */
  function Residual(a: seq<real>, b: seq<real>, t: real): (r: seq<real>)
    requires |a| == |b|
    ensures |r| == |a|
  {
    Minus(a, Scaled(t, b))
  }

  lemma DotResidual(u: seq<real>, a: seq<real>, b: seq<real>, t: real)
    requires |u| == |a| == |b|
    ensures Dot(u, Residual(a, b, t)) == Dot(u, a) - Product(t, Dot(u, b))
  {
    DotMinus(u, a, Scaled(t, b));
    DotScaled(t, u, b);
  }

  lemma {:induction false} DotConcat(a: seq<real>, b: seq<real>, c: seq<real>, d: seq<real>)
    requires |a| == |b| && |c| == |d|
    ensures Dot(a + c, b + d) == Dot(a, b) + Dot(c, d)
  {
    if |c| == 0 {
      assert a + c == a && b + d == b;
    } else {
      var n := |c| - 1;
      assert (a + c)[..|a| + n] == a + c[..n] && (b + d)[..|b| + n] == b + d[..n];
      DotConcat(a, b, c[..n], d[..n]);
    }
  }

  lemma {:induction false} DotSymmetric(a: seq<real>, b: seq<real>)
    requires |a| == |b|
    ensures Dot(a, b) == Dot(b, a)
  {
    if |a| == 0 {
    } else {
      DotSymmetric(a[..|a| - 1], b[..|b| - 1]);
    }
  }

  lemma {:induction false} DotSquareNonNegative(a: seq<real>)
    ensures Dot(a, a) >= 0.0
  {
    if |a| == 0 {
    } else {
      DotSquareNonNegative(a[..|a| - 1]);
    }
  }

  /** Dividing by the largest term before adding up and multiplying back, as the
      log-space sums do, gives the plain sum. */
  function MaxShiftedSum(terms: seq<real>): (r: real)
    requires |terms| > 0 && Max(terms) > 0.0
    ensures r == Sum(terms)
  {
    var largest := Max(terms);
    SumScaled(1.0 / largest, terms);
    assert largest * ((1.0 / largest) * Sum(terms)) == Sum(terms);
    largest * Sum(Scaled(1.0 / largest, terms))
  }
}
