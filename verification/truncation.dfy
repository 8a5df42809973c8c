/**
 * Integer division as C++ and C# perform it: the quotient is truncated
 * toward zero and the remainder takes the sign of the dividend. Dafny's own
 * `/` and `%` are Euclidean, so the sources' `/` and `%` are written with
 * these functions wherever an operand can be negative.
 */
module Truncation {

  function Abs(x: int): nat { if x < 0 then -x else x }

  /** `a / b` in C++ and C#: the quotient of the magnitudes, negated when the signs differ. */
  function TDiv(a: int, b: int): int
    requires b != 0
  {
    var q := Abs(a) / Abs(b);
    if (a < 0) != (b < 0) then -q else q
  }

  /** `a % b` in C++ and C#: `a == b * (a / b) + a % b`, with the sign of `a`. */
  function TMod(a: int, b: int): (r: int)
    requires b != 0
    ensures a == b * TDiv(a, b) + r
    ensures Abs(r) < Abs(b)
    ensures r == 0 || ((r < 0) <==> (a < 0))
  {
    TModBounds(a, b);
    a - b * TDiv(a, b)
  }

  lemma TModBounds(a: int, b: int)
    requires b != 0
    ensures var r := a - b * TDiv(a, b); Abs(r) < Abs(b) && (r == 0 || ((r < 0) <==> (a < 0)))
  {
    var q := Abs(a) / Abs(b);
    var r0 := Abs(a) % Abs(b);
    assert Abs(a) == Abs(b) * q + r0;
    assert 0 <= r0 < Abs(b);
    var t := TDiv(a, b);
    if a >= 0 && b > 0 {
      assert t == q;
      assert a - b * t == r0;
    } else if a >= 0 && b < 0 {
      assert t == -q;
      assert b * t == (-b) * q;
      assert a - b * t == r0;
    } else if a < 0 && b > 0 {
      assert t == -q;
      assert b * t == -(b * q);
      assert a - b * t == -r0;
    } else {
      assert t == q;
      assert b * t == -((-b) * q);
      assert a - b * t == -r0;
    }
  }

  /** For non-negative operands the truncating and the Euclidean operators agree. */
  lemma TruncatingIsEuclideanOnNaturals(a: int, b: int)
    requires a >= 0 && b > 0
    ensures TDiv(a, b) == a / b && TMod(a, b) == a % b
  {
  }

  /** A truncated quotient is never larger in magnitude than the dividend. */
  lemma TDivBound(a: int, b: int)
    requires b != 0
    ensures Abs(TDiv(a, b)) <= Abs(a)
  {
    assert Abs(TDiv(a, b)) == Abs(a) / Abs(b);
    DivAtMost(Abs(a), Abs(b));
  }

  /** Dividing a natural number by a positive one does not make it larger. */
  lemma DivAtMost(n: nat, d: nat)
    requires d >= 1
    ensures n / d <= n
  {
    var q := n / d;
    assert n == d * q + n % d;
    if q > 0 {
      MulGe(q, d);
      assert q * d == d * q;
    }
  }

  /** Integer division is exact on multiples. */
  lemma TDivExact(k: int, d: int)
    requires d != 0
    ensures TDiv(k * d, d) == k
  {
    var a := k * d;
    AbsMul(k, d);
    LemmaMulDiv(Abs(k), Abs(d));
    assert Abs(a) / Abs(d) == Abs(k);
    if k < 0 && d < 0 {
      assert a > 0 by { MulNegNeg(k, d); }
    } else if k < 0 && d > 0 {
      assert a < 0 by { MulNegPos(k, d); }
    } else if k > 0 && d < 0 {
      assert a < 0 by { MulNegPos(d, k); }
    } else if k > 0 {
      assert a > 0 by { MulPosPos(k, d); }
    }
  }

  lemma MulPosPos(x: int, y: int)
    requires x > 0 && y > 0
    ensures x * y > 0
  {
  }

  lemma MulNegPos(x: int, y: int)
    requires x < 0 && y > 0
    ensures x * y < 0
  {
    MulPosPos(-x, y);
  }

  lemma MulNegNeg(x: int, y: int)
    requires x < 0 && y < 0
    ensures x * y > 0
  {
    MulPosPos(-x, -y);
  }

  lemma AbsMul(x: int, y: int)
    ensures Abs(x * y) == Abs(x) * Abs(y)
  {
    if x < 0 && y < 0 {
      assert x * y == (-x) * (-y);
    } else if x < 0 {
      assert x * y == -((-x) * y);
      if y > 0 { MulNegPos(x, y); }
    } else if y < 0 {
      assert x * y == -(x * (-y));
      if x > 0 { MulNegPos(y, x); }
    }
  }

  lemma LemmaMulDiv(k: nat, d: nat)
    requires d > 0
    ensures (k * d) / d == k
  {
    var q := (k * d) / d;
    var r := (k * d) % d;
    assert k * d == d * q + r;
    assert d * (k - q) == r by {
      assert d * (k - q) == d * k - d * q;
    }
    if k - q > 0 {
      MulGe(d, k - q);
    } else if k - q < 0 {
      assert d * (k - q) == -(d * (q - k));
      MulGe(d, q - k);
    }
  }

  lemma MulGe(d: nat, x: int)
    requires d > 0 && x >= 1
    ensures d * x >= d
  {
    assert d * x == d * (x - 1) + d;
    if x > 1 { MulPosPos(d, x - 1); }
  }
}
