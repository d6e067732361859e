/** Small facts of real and integer arithmetic that the solver wants stated apart. */
module Algebra {

  lemma ProductNonNegative(a: real, b: real)
    requires a >= 0.0 && b >= 0.0
    ensures a * b >= 0.0
  {
  }

  lemma ProductPositive(a: real, b: real)
    requires a > 0.0 && b > 0.0
    ensures a * b > 0.0
  {
  }

  lemma QuotientInUnit(a: real, b: real)
    requires 0.0 <= a <= b && b > 0.0
    ensures 0.0 <= a / b <= 1.0
    ensures a == b ==> a / b == 1.0
  {
  }

  lemma Distribute(a: real, b: real, c: real)
    ensures a * (b + c) == a * b + a * c
    ensures a * (b - c) == a * b - a * c
    ensures (b + c) * a == a * b + a * c
    ensures (b - c) * a == a * b - a * c
  {
  }

  lemma MultiplyStrict(a: real, b: real, x: real, y: real)
    requires 0.0 <= a < b && 0.0 <= x < y
    ensures a * x < b * y
  {
    ProductNonNegative(a, y - x);
    ProductPositive(b - a, y);
    Distribute(a, y, x);
    Distribute(y, b, a);
  }

  /** The product is named so that the solver does not simplify its sign away. */
  lemma SignOfSquare(v: real, s: real)
    requires s == v * v
    ensures s >= 0.0 && (s == 0.0 <==> v == 0.0)
  {
    if v > 0.0 {
      NamedProductPositive(v, v, s);
    } else if v < 0.0 {
      NamedProductPositive(-v, -v, s);
    }
  }

  lemma NamedProductPositive(a: real, b: real, c: real)
    requires a > 0.0 && b > 0.0 && c == a * b
    ensures c > 0.0
  {
  }

  /** |v| */
  function Magnitude(v: real): (r: real)
    ensures r >= 0.0 && (r == v || r == -v)
  {
    if v < 0.0 then -v else v
  }

  function Square(v: real): (s: real)
    ensures s >= 0.0 && (s == 0.0 <==> v == 0.0)
  {
    var s := v * v;
    SignOfSquare(v, s);
    s
  }

  lemma SquareOfProduct(k: real, n: real)
    ensures Square(k * n) == Square(k) * Square(n)
  {
  }
}
