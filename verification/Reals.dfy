/** Signs, products and quotients of reals. */
module Reals {

  lemma {:induction false} Positive(a: real, b: real)
    requires a > 0.0 && b > 0.0
    ensures a * b > 0.0
  {
  }

  lemma {:induction false} ProductNotNegative(a: real, b: real)
    requires a >= 0.0 && b >= 0.0
    ensures a * b >= 0.0
  {
  }

  lemma {:induction false} Negative(a: real, m: real)
    requires a < 0.0 < m
    ensures a * m < 0.0
  {
  }

  lemma {:induction false} NotPositive(a: real, m: real)
    requires a <= 0.0 < m
    ensures a * m <= 0.0
  {
  }

  lemma {:induction false} FactorNotNegative(x: real, m: real)
    requires m > 0.0 && x * m >= 0.0
    ensures x >= 0.0
  {
    if x < 0.0 {
      Negative(x, m);
    }
  }

  lemma {:induction false} SignOfFactor(a: real, m: real)
    requires m > 0.0
    ensures a * m > 0.0 <==> a > 0.0
    ensures a * m < 0.0 <==> a < 0.0
  {
    if a > 0.0 {
      Positive(a, m);
    } else if a < 0.0 {
      Negative(a, m);
    }
  }

  lemma {:induction false} Complement(a: real, m: real)
    ensures (1.0 - a) * m == m - a * m
  {
  }

  /** A part of a whole. */
  lemma {:induction false} PartOfWhole(x: real, m: real, p: real)
    requires p * m == x && 0.0 <= x <= m && m > 0.0
    ensures 0.0 <= p <= 1.0
    ensures p == 0.0 <==> x == 0.0
    ensures p == 1.0 <==> x == m
  {
    SignOfFactor(p, m);
    Complement(p, m);
    var q := 1.0 - p;
    assert q * m == m - x;
    SignOfFactor(q, m);
  }

  lemma {:induction false} SquareSign(a: real)
    ensures a * a >= 0.0
    ensures a != 0.0 ==> a * a > 0.0
  {
    if a > 0.0 {
      Positive(a, a);
    } else if a < 0.0 {
      var b := 0.0 - a;
      Positive(b, b);
      assert b * b == a * a;
    }
  }

  lemma {:induction false} SignOfProduct(d: real, a: real, b: real)
    requires d > 0.0
    ensures d * a * b <= 0.0 <==> (a <= 0.0 && b >= 0.0) || (a >= 0.0 && b <= 0.0)
    ensures d * a * b == 0.0 <==> a == 0.0 || b == 0.0
  {
    var p := a * b;
    assert d * a * b == d * p;
    if a > 0.0 && b > 0.0 { assert p > 0.0; assert d * p > 0.0; }
    if a < 0.0 && b < 0.0 { assert p > 0.0; assert d * p > 0.0; }
    if (a < 0.0 && b > 0.0) || (a > 0.0 && b < 0.0) { assert p < 0.0; assert d * p < 0.0; }
  }

  lemma {:induction false} Associate(a: real, b: real, c: real)
    ensures a * b * c == a * (b * c)
  {
  }

  lemma {:induction false} Distribute(a: real, b: real, c: real)
    ensures a * (b + c) == a * b + a * c
  {
  }

  lemma {:induction false} CancelLeft(d: real, a: real, b: real)
    requires d != 0.0 && d * a == d * b
    ensures a == b
  {
    assert d * (a - b) == 0.0;
  }

  lemma {:induction false} Squares(a: real, b: real)
    ensures a * b * (a * b) == a * a * (b * b)
  {
  }

  lemma {:induction false} Quotient(a: real, b: real, u: real)
    requires b != 0.0 && u * b == a
    ensures a / b == u
  {
    assert a / b * b == a;
    assert (a / b - u) * b == 0.0;
  }

  lemma {:induction false} QuotientSign(a: real, m: real)
    requires a > 0.0 && m > 0.0
    ensures a / m > 0.0
  {
    assert a / m * m == a;
    if a / m <= 0.0 {
      NotPositive(a / m, m);
    }
  }

  lemma {:induction false} TermPositive(a: real, b: real, m: real)
    requires a > 0.0 && b > 0.0 && m > 0.0
    ensures a * b / m > 0.0
  {
    Positive(a, b);
    QuotientSign(a * b, m);
  }

  lemma {:induction false} DivideOrdered(a: real, b: real, c: real, d: real)
    requires 0.0 <= a <= b && 0.0 < d <= c
    ensures 0.0 <= a / c <= b / d
  {
    var q, r := a / c, b / d;
    assert q * c == a && r * d == b;
    FactorNotNegative(q, c);
    FactorNotNegative(r, d);
    ProductNotNegative(r, c - d);
    assert r * (c - d) == r * c - r * d;
    assert (r - q) * c == r * c - q * c;
    FactorNotNegative(r - q, c);
  }

  lemma {:induction false} CrossMultiply(a: real, b: real, c: real, d: real)
    requires b > 0.0 && d > 0.0
    ensures a / b >= c / d <==> a * d >= c * b
  {
    var q, r := a / b, c / d;
    assert q * b == a && r * d == c;
    var bd := b * d;
    assert bd > 0.0;
    assert a * d == q * bd && c * b == r * bd by { Associate(q, b, d); Associate(r, d, b); }
    if q >= r {
      assert (q - r) * bd >= 0.0;
    } else {
      Negative(q - r, bd);
    }
    assert (q - r) * bd == q * bd - r * bd;
  }
}
