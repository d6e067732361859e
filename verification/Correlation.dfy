/**
  Correlation coefficients without square roots: a Ratio stands for num / sqrt(square).
  Cauchy-Schwarz over sequences is what keeps every such coefficient in [-1, 1].
 */
module Correlation {
  import opened Sums
  import opened Algebra

  /** The real number num / sqrt(square), for a positive square. */
  datatype Ratio = Ratio(num: real, square: real)

  /** r is the number that q stands for. */
  ghost predicate Denotes(q: Ratio, r: real) {
    q.square > 0.0 && Square(r) * q.square == Square(q.num) && (r >= 0.0 <==> q.num >= 0.0)
  }

  /** q and t stand for the same number. */
  ghost predicate SameValue(q: Ratio, t: Ratio) {
    q.square > 0.0 && t.square > 0.0
    && Square(q.num) * t.square == Square(t.num) * q.square
    && (q.num >= 0.0 <==> t.num >= 0.0)
  }

  predicate WithinUnit(q: Ratio) {
    Square(q.num) <= q.square
  }

  /** max(-1, min(1, num / sqrt(square))) */
  function Clamp(q: Ratio): Ratio {
    if WithinUnit(q) then q
    else if q.num >= 0.0 then Ratio(1.0, 1.0)
    else Ratio(-1.0, 1.0)
  }

  lemma SquareMonotone(a: real, b: real)
    requires 0.0 <= a && 0.0 <= b
    ensures a <= b <==> Square(a) <= Square(b)
  {
    if a < b {
      MultiplyStrict(a, b, a, b);
    } else if b < a {
      MultiplyStrict(b, a, b, a);
    }
  }

  lemma SquareOfMagnitude(r: real)
    ensures Square(Magnitude(r)) == Square(r)
  {
  }

  /** A ratio within the unit test is a number in [-1, 1], and only such a ratio is. */
  lemma UnitRange(q: Ratio, r: real)
    requires Denotes(q, r)
    ensures WithinUnit(q) <==> -1.0 <= r <= 1.0
  {
    var m := Magnitude(r);
    SquareOfMagnitude(r);
    var s := Square(r);
    assert -1.0 <= r <= 1.0 <==> m <= 1.0;
    assert m <= 1.0 <==> s <= 1.0 by {
      SquareMonotone(m, 1.0);
      assert Square(1.0) == 1.0;
    }
    if s > 1.0 {
      ProductPositive(s - 1.0, q.square);
      Distribute(q.square, s, 1.0);
      assert !WithinUnit(q);
    } else {
      ProductNonNegative(1.0 - s, q.square);
      Distribute(q.square, 1.0, s);
    }
  }

  /** Clamping cuts the number off at -1 and 1. */
  lemma ClampMeans(q: Ratio, r: real)
    requires Denotes(q, r)
    ensures Denotes(Clamp(q), if r > 1.0 then 1.0 else if r < -1.0 then -1.0 else r)
  {
    UnitRange(q, r);
    assert Square(1.0) == 1.0 && Square(-1.0) == 1.0;
  }

  /** A ratio stands for at most one number, and two ratios of the same value for the same one. */
  lemma SameNumber(q: Ratio, t: Ratio, r: real, s: real)
    requires SameValue(q, t) && Denotes(q, r) && Denotes(t, s)
    ensures r == s
  {
    var a, b := Square(r), Square(s);
    var product := q.square * t.square;
    ProductPositive(q.square, t.square);
    assert a * product == a * q.square * t.square;
    assert b * product == b * t.square * q.square;
    SquareOfMagnitude(r);
    SquareOfMagnitude(s);
    SquareMonotone(Magnitude(r), Magnitude(s));
    SquareMonotone(Magnitude(s), Magnitude(r));
  }

  /** Multiplying numerator and square root by the same k > 0 does not move the value. */
  lemma ScaledRatio(q: Ratio, t: Ratio, k: real)
    requires q.square > 0.0 && k > 0.0
    requires t.num == Product(k, q.num) && t.square == Square(k) * q.square
    ensures SameValue(q, t)
  {
    ProductPositive(Square(k), q.square);
    SquareOfProduct(k, q.num);
  }

  lemma SameEitherWay(q: Ratio, t: Ratio)
    requires SameValue(q, t)
    ensures SameValue(t, q)
  {
  }

  lemma SameTransitive(q: Ratio, t: Ratio, u: Ratio)
    requires SameValue(q, t) && SameValue(t, u)
    ensures SameValue(q, u)
  {
    CrossEqual(Square(q.num), q.square, Square(t.num), t.square, Square(u.num), u.square);
  }

  lemma CrossEqual(a: real, p: real, b: real, q: real, c: real, r: real)
    requires p > 0.0 && q > 0.0 && r > 0.0 && a * q == b * p && b * r == c * q
    ensures a * r == c * p
  {
    assert (a * r) * q == (a * q) * r;
    assert (a * q) * r == (b * p) * r;
    assert (b * p) * r == (b * r) * p;
    assert (c * q) * p == (c * p) * q;
    assert (a * r - c * p) * q == 0.0;
    if a * r - c * p > 0.0 {
      ProductPositive(a * r - c * p, q);
    } else if a * r - c * p < 0.0 {
      ProductPositive(c * p - a * r, q);
    }
  }

  // ----- Cauchy-Schwarz

  lemma CauchySchwarz(a: seq<real>, b: seq<real>)
    requires |a| == |b|
    ensures Square(Dot(a, b)) <= Dot(a, a) * Dot(b, b)
  {
    var aa, ab, bb := Dot(a, a), Dot(a, b), Dot(b, b);
    DotSquareNonNegative(b);
    if bb > 0.0 {
      var t := ab / bb;
      ResidualLength(a, b, t);
      Discriminant(aa, ab, bb, t);
    } else {
      DotSelfZero(b);
      DotWithZero(a, b);
    }
  }

  /** The squared length of a - t*b, from the three inner products. */
  lemma ResidualLength(a: seq<real>, b: seq<real>, t: real)
    requires |a| == |b|
    ensures Dot(a, a) - Product(t, Dot(a, b)) - Product(t, Dot(a, b) - Product(t, Dot(b, b))) >= 0.0
  {
    var r := Residual(a, b, t);
    DotSquareNonNegative(r);
    DotResidual(r, a, b, t);
    DotSymmetric(r, a);
    DotSymmetric(r, b);
    DotResidual(a, a, b, t);
    DotResidual(b, a, b, t);
    DotSymmetric(a, b);
  }

  lemma {:induction false} DotWithZero(a: seq<real>, zeros: seq<real>)
    requires |a| == |zeros| && forall i :: 0 <= i < |zeros| ==> zeros[i] == 0.0
    ensures Dot(a, zeros) == 0.0
  {
    if |a| == 0 {
    } else {
      DotWithZero(a[..|a| - 1], zeros[..|a| - 1]);
    }
  }

  lemma Discriminant(aa: real, ab: real, bb: real, t: real)
    requires bb > 0.0 && t == ab / bb
    requires aa - Product(t, ab) - Product(t, ab - Product(t, bb)) >= 0.0
    ensures Square(ab) <= aa * bb
  {
    assert Product(t, bb) == ab;
    assert aa >= t * ab;
    ProductNonNegative(aa - t * ab, bb);
    assert (aa - t * ab) * bb == aa * bb - ab * (t * bb);
  }

  lemma {:induction false} DotSelfZero(a: seq<real>)
    ensures Dot(a, a) == 0.0 <==> forall i :: 0 <= i < |a| ==> a[i] == 0.0
  {
    if |a| == 0 {
    } else {
      var n := |a| - 1;
      DotSelfZero(a[..n]);
      DotSquareNonNegative(a[..n]);
      assert a[n] * a[n] == Square(a[n]);
      if Dot(a, a) == 0.0 {
        assert forall i :: 0 <= i < n ==> a[..n][i] == a[i];
      }
    }
  }
}
