/**
 * The "ten puzzle" solver of ten.cs: rational numbers with a NaN value, the
 * Euclidean GCD loop, expression trees and their printing, and the two
 * enumerators (every tuple over a set, and permutations in lexicographic
 * order).
 *
 * C# `int` is 32-bit; the model uses unbounded integers.
 */
module TenPuzzle {

  import opened Truncation

  // ------------------------------------------------------------------
  // Divisibility and the GCD loop
  // ------------------------------------------------------------------

  function Times(a: int, b: int): int { a * b }

  /** `d` divides `x`: some integer multiple of `d` is `x`. */
  ghost predicate Divides(d: int, x: int) {
    exists q :: Times(d, q) == x
  }

  /**
   * What `Ratio.Gcd` computes: the last non-zero remainder of the Euclidean
   * algorithm, with C#'s truncating `%`. Its sign follows the operands.
   */
  function GcdOf(m: int, n: int): int
    decreases Abs(n)
  {
    if n == 0 then m else GcdOf(n, TMod(m, n))
  }

  /** `Ratio.Gcd`: the `while (n != 0)` loop over two locals. */
  method Gcd(m0: int, n0: int) returns (g: int)
    ensures g == GcdOf(m0, n0)
    ensures Divides(g, m0) && Divides(g, n0)
    ensures g == 0 <==> m0 == 0 && n0 == 0
  {
    var m, n := m0, n0;
    while n != 0
      invariant GcdOf(m, n) == GcdOf(m0, n0)
      decreases Abs(n)
    {
      var temp := m;
      m := n;
      n := TMod(temp, n);
    }
    g := m;
    GcdDividesBoth(m0, n0);
    GcdZero(m0, n0);
  }

  lemma MulAssoc(a: int, b: int, c: int)
    ensures a * (b * c) == (a * b) * c
  {
  }

  lemma MulDistrib(a: int, b: int, c: int)
    ensures a * (b + c) == a * b + a * c
    ensures a * (b - c) == a * b - a * c
  {
  }

  /** A common divisor of x and y divides x*t + y and y - x*t. */
  lemma DividesCombination(d: int, x: int, y: int, t: int)
    requires Divides(d, x) && Divides(d, y)
    ensures Divides(d, x * t + y) && Divides(d, y - x * t)
  {
    var qx :| Times(d, qx) == x;
    var qy :| Times(d, qy) == y;
    MulAssoc(d, qx, t);
    MulDistrib(d, qx * t, qy);
    MulDistrib(d, qy, qx * t);
    assert Times(d, qx * t + qy) == x * t + y;
    assert Times(d, qy - qx * t) == y - x * t;
  }

  /** The GCD divides both operands. */
  lemma {:induction false} GcdDividesBoth(m: int, n: int)
    ensures Divides(GcdOf(m, n), m) && Divides(GcdOf(m, n), n)
    decreases Abs(n)
  {
    if n == 0 {
      assert Times(m, 1) == m;
      assert Times(m, 0) == 0;
    } else {
      var t, r := TDiv(m, n), TMod(m, n);
      GcdDividesBoth(n, r);
      DividesCombination(GcdOf(n, r), n, r, t);
      assert m == n * t + r;
    }
  }

  /** Every common divisor of the operands divides the GCD. */
  lemma {:induction false} CommonDivisorDividesGcd(m: int, n: int, c: int)
    requires Divides(c, m) && Divides(c, n)
    ensures Divides(c, GcdOf(m, n))
    decreases Abs(n)
  {
    if n != 0 {
      var t, r := TDiv(m, n), TMod(m, n);
      DividesCombination(c, n, m, t);
      assert r == m - n * t;
      CommonDivisorDividesGcd(n, r, c);
    }
  }

  /** The GCD is zero only when both operands are. */
  lemma {:induction false} GcdZero(m: int, n: int)
    ensures GcdOf(m, n) == 0 <==> m == 0 && n == 0
    decreases Abs(n)
  {
    if n != 0 {
      GcdZero(n, TMod(m, n));
    }
  }

  /** A non-zero multiple is at least as large as the divisor. */
  lemma DividesBound(d: int, x: int)
    requires Divides(d, x) && x != 0
    ensures Abs(d) <= Abs(x)
  {
    var q :| Times(d, q) == x;
    AbsMul(d, q);
    assert q != 0;
    assert Abs(x) == Abs(d) * Abs(q);
    assert Abs(d) * Abs(q) == Abs(d) * (Abs(q) - 1) + Abs(d);
    if Abs(q) > 1 && Abs(d) > 0 { MulPosPos(Abs(d), Abs(q) - 1); }
  }

  // ------------------------------------------------------------------
  // Ratio
  // ------------------------------------------------------------------

  /** The `Ratio` struct: a numerator and a denominator; a zero denominator is NaN. */
  datatype Ratio = Ratio(num: int, den: int)

  predicate IsNaN(r: Ratio) { r.den == 0 }

  /** `r` has the rational value num/den (both denominators non-zero). */
  predicate HasValue(r: Ratio, num: int, den: int) {
    den != 0 && r.den != 0 && r.num * den == num * r.den
  }

  /** `Ratio.NaN`, built as `new Ratio(0, 0)`. */
  function NaN(): (r: Ratio)
    ensures IsNaN(r)
  {
    MakeRatio(0, 0)
  }

  /** `new Ratio(num)`. */
  function FromInt(n: int): (r: Ratio)
    ensures !IsNaN(r) && HasValue(r, n, 1)
  {
    Ratio(n, 1)
  }

  /**
   * `new Ratio(num, den)`: both parts divided by their GCD (by 1 when the
   * denominator is zero), with C#'s truncating division.
   */
  function MakeRatio(num: int, den: int): (r: Ratio)
    ensures IsNaN(r) <==> den == 0
    ensures den == 0 ==> r.num == num
    ensures den != 0 ==> HasValue(r, num, den)
  {
    var k := if den == 0 then 1 else GcdOf(num, den);
    MakeRatioValue(num, den);
    Ratio(TDiv(num, k), TDiv(den, k))
  }

  /** Dividing num and den by a non-zero common divisor k keeps the value num/den. */
  lemma DivideOutValue(num: int, den: int, k: int, a: int, b: int)
    requires k != 0 && den != 0 && Times(k, a) == num && Times(k, b) == den
    ensures TDiv(num, k) == a && TDiv(den, k) == b && b != 0 && a * den == num * b
  {
    TDivExact(a, k);
    TDivExact(b, k);
    MulAssoc(a, k, b);
    MulAssoc(k, a, b);
  }

  lemma MakeRatioValue(num: int, den: int)
    ensures den != 0 ==> var k := GcdOf(num, den);
      k != 0 && TDiv(den, k) != 0 && TDiv(num, k) * den == num * TDiv(den, k)
  {
    if den != 0 {
      var k := GcdOf(num, den);
      GcdZero(num, den);
      GcdDividesBoth(num, den);
      var a :| Times(k, a) == num;
      var b :| Times(k, b) == den;
      DivideOutValue(num, den, k, a, b);
    }
  }

  /** A ratio built from a non-zero denominator is in lowest terms. */
  lemma MakeRatioLowestTerms(num: int, den: int, c: int)
    requires den != 0
    requires Divides(c, MakeRatio(num, den).num) && Divides(c, MakeRatio(num, den).den)
    ensures c == 1 || c == -1
  {
    var k := GcdOf(num, den);
    GcdZero(num, den);
    GcdDividesBoth(num, den);
    var a :| Times(k, a) == num;
    var b :| Times(k, b) == den;
    DivideOutValue(num, den, k, a, b);
    DividesScale(c, a, k);
    DividesScale(c, b, k);
    CommonDivisorDividesGcd(num, den, c * k);
    DividesBound(c * k, k);
    var y :| Times(c, y) == b;
    UnitBound(c, k);
  }

  /** If c divides a then c*k divides k*a. */
  lemma DividesScale(c: int, a: int, k: int)
    requires Divides(c, a)
    ensures Divides(c * k, Times(k, a))
  {
    var x :| Times(c, x) == a;
    MulAssoc(k, c, x);
    assert Times(c * k, x) == Times(k, a);
  }

  lemma UnitBound(c: int, k: int)
    requires c != 0 && k != 0 && Abs(c * k) <= Abs(k)
    ensures c == 1 || c == -1
  {
    AbsMul(c, k);
    if Abs(c) > 1 {
      assert Abs(c) * Abs(k) == (Abs(c) - 1) * Abs(k) + Abs(k);
      MulPosPos(Abs(c) - 1, Abs(k));
    }
  }

  /** `operator +`: NaN if either operand is, else (a.Num*b.Den + b.Num*a.Den) / (a.Den*b.Den). */
  function RatioAdd(a: Ratio, b: Ratio): (r: Ratio)
    ensures IsNaN(a) || IsNaN(b) ==> IsNaN(r)
    ensures !IsNaN(a) && !IsNaN(b) ==> HasValue(r, a.num * b.den + b.num * a.den, a.den * b.den)
  {
    if IsNaN(a) then NaN()
    else if IsNaN(b) then NaN()
    else
      MulPosNonZero(a.den, b.den);
      MakeRatio(a.num * b.den + b.num * a.den, a.den * b.den)
  }

  /** `operator -`. */
  function RatioSub(a: Ratio, b: Ratio): (r: Ratio)
    ensures IsNaN(a) || IsNaN(b) ==> IsNaN(r)
    ensures !IsNaN(a) && !IsNaN(b) ==> HasValue(r, a.num * b.den - b.num * a.den, a.den * b.den)
  {
    if IsNaN(a) then NaN()
    else if IsNaN(b) then NaN()
    else
      MulPosNonZero(a.den, b.den);
      MakeRatio(a.num * b.den - b.num * a.den, a.den * b.den)
  }

  /** `operator *(Ratio, int)`: no NaN test, but a NaN operand still gives NaN. */
  function RatioMulInt(a: Ratio, b: int): (r: Ratio)
    ensures IsNaN(r) <==> IsNaN(a)
    ensures !IsNaN(a) ==> HasValue(r, a.num * b, a.den)
  {
    MakeRatio(a.num * b, a.den)
  }

  /** `operator *(Ratio, Ratio)`. */
  function RatioMul(a: Ratio, b: Ratio): (r: Ratio)
    ensures IsNaN(a) || IsNaN(b) ==> IsNaN(r)
    ensures !IsNaN(a) && !IsNaN(b) ==> HasValue(r, a.num * b.num, a.den * b.den)
  {
    if IsNaN(a) then NaN()
    else if IsNaN(b) then NaN()
    else
      MulPosNonZero(a.den, b.den);
      MakeRatio(a.num * b.num, a.den * b.den)
  }

  /** `operator /`: a zero divisor gives a zero denominator, hence NaN. */
  function RatioDiv(a: Ratio, b: Ratio): (r: Ratio)
    ensures IsNaN(a) || IsNaN(b) ==> IsNaN(r)
    ensures !IsNaN(a) && !IsNaN(b) && b.num == 0 ==> IsNaN(r)
    ensures !IsNaN(a) && !IsNaN(b) && b.num != 0 ==> HasValue(r, a.num * b.den, b.num * a.den)
  {
    if IsNaN(a) then NaN()
    else if IsNaN(b) then NaN()
    else
      MulPosNonZero(b.num, a.den);
      MakeRatio(a.num * b.den, b.num * a.den)
  }

  lemma MulPosNonZero(x: int, y: int)
    ensures x != 0 && y != 0 <==> x * y != 0
  {
    if x != 0 && y != 0 {
      AbsMul(x, y);
      MulPosPos(Abs(x), Abs(y));
    }
  }

  /** `operator ==(Ratio, Ratio)`: false when either side is NaN. */
  function RatioEq(a: Ratio, b: Ratio): bool {
    if IsNaN(a) then false
    else if IsNaN(b) then false
    else a.num == b.num && a.den == b.den
  }

  /** `operator !=(Ratio, Ratio)`: also false when either side is NaN. */
  function RatioNe(a: Ratio, b: Ratio): bool {
    if IsNaN(a) then false
    else if IsNaN(b) then false
    else a.num != b.num || a.den != b.den
  }

  /** `operator ==(Ratio, int)`. */
  function RatioEqInt(a: Ratio, b: int): bool {
    if IsNaN(a) then false else a.num == b && a.den == 1
  }

  /** `operator !=(Ratio, int)`. */
  function RatioNeInt(a: Ratio, b: int): bool {
    if IsNaN(a) then false else a.num != b || a.den != 1
  }

  /** The implicit conversion to `int`: zero for NaN, else the truncated quotient. */
  function RatioToInt(a: Ratio): (n: int)
    ensures !IsNaN(a) && a.den == 1 ==> n == a.num
    ensures IsNaN(a) ==> n == 0
  {
    if a.den == 0 then 0 else TDiv(a.num, a.den)
  }

  /**
   * NaN is neither equal nor unequal to anything; between two numbers `==`
   * and `!=` are complementary and `==` is equality of representations.
   */
  lemma RatioEqualityWithNaN(a: Ratio, b: Ratio)
    ensures IsNaN(a) || IsNaN(b) ==> !RatioEq(a, b) && !RatioNe(a, b)
    ensures !IsNaN(a) && !IsNaN(b) ==> (RatioNe(a, b) <==> !RatioEq(a, b)) && (RatioEq(a, b) <==> a == b)
    ensures !RatioEq(NaN(), NaN())
  {
  }

  /** `r == n` holds exactly for a non-NaN ratio with numerator n and denominator 1, and then r has the value n. */
  lemma RatioEqIntMeaning(a: Ratio, n: int)
    ensures RatioEqInt(a, n) <==> !IsNaN(a) && a.num == n && a.den == 1
    ensures RatioEqInt(a, n) <==> RatioEq(a, FromInt(n))
    ensures RatioEqInt(a, n) ==> HasValue(a, n, 1) && RatioToInt(a) == n
    ensures !IsNaN(a) ==> (RatioNeInt(a, n) <==> !RatioEqInt(a, n))
    ensures IsNaN(a) ==> !RatioEqInt(a, n) && !RatioNeInt(a, n)
  {
  }

  /** Every arithmetic operator propagates NaN, whichever side it is on. */
  lemma NaNPropagates(a: Ratio, n: int)
    ensures IsNaN(RatioAdd(a, NaN())) && IsNaN(RatioAdd(NaN(), a))
    ensures IsNaN(RatioSub(a, NaN())) && IsNaN(RatioSub(NaN(), a))
    ensures IsNaN(RatioMul(a, NaN())) && IsNaN(RatioMul(NaN(), a))
    ensures IsNaN(RatioDiv(a, NaN())) && IsNaN(RatioDiv(NaN(), a))
    ensures IsNaN(RatioMulInt(NaN(), n))
    ensures IsNaN(MakeRatio(n, 0))
  {
  }

  // ------------------------------------------------------------------
  // Expression trees and their printing
  // ------------------------------------------------------------------

  datatype Option<T> = None | Some(value: T)

  datatype Precedence = Low | Middle | High

  function Rank(p: Precedence): nat {
    match p
    case Low => 0
    case Middle => 1
    case High => 2
  }

  /** The four `Operator` subclasses. */
  datatype Op = OpAdd | OpMul | OpSub | OpDiv

  function PrecedenceOf(op: Op): Precedence {
    match op
    case OpAdd => Low
    case OpSub => Low
    case OpMul => Middle
    case OpDiv => Middle
  }

  function OpChar(op: Op): char {
    match op
    case OpAdd => '+'
    case OpMul => '*'
    case OpSub => '-'
    case OpDiv => '/'
  }

  /** `Operator.Eval` as each subclass overrides it. */
  function Eval(op: Op, a: Ratio, b: Ratio): Ratio {
    match op
    case OpAdd => RatioAdd(a, b)
    case OpMul => RatioMul(a, b)
    case OpSub => RatioSub(a, b)
    case OpDiv => RatioDiv(a, b)
  }

  /** `Immediate` leaves and `BinNode` inner nodes. */
  datatype Node = Immediate(value: int) | BinNode(op: Op, left: Node, right: Node)

  /** The `Value` property. */
  function Value(n: Node): Ratio {
    match n
    case Immediate(v) => FromInt(v)
    case BinNode(op, l, r) => Eval(op, Value(l), Value(r))
  }

  /** The rational number a ratio that is not NaN stands for. */
  function RealOf(r: Ratio): real
    requires !IsNaN(r)
  {
    r.num as real / r.den as real
  }

  /** An operator on the rationals, division by a non-zero number. */
  function ExactOp(op: Op, x: real, y: real): real
    requires op == OpDiv ==> y != 0.0
  {
    match op
    case OpAdd => x + y
    case OpSub => x - y
    case OpMul => x * y
    case OpDiv => x / y
  }

  /**
   * The exact value of an expression over the rationals, or None when it
   * divides by zero somewhere: the reference `Value` is measured against.
   */
  function Exact(n: Node): Option<real> {
    match n
    case Immediate(v) => Some(v as real)
    case BinNode(op, l, r) =>
      var x, y := Exact(l), Exact(r);
      if x.None? || y.None? || (op == OpDiv && y.value == 0.0) then None
      else Some(ExactOp(op, x.value, y.value))
  }

  /** A ratio with the value num/den stands for that quotient. */
  lemma HasValueReal(r: Ratio, num: int, den: int)
    requires HasValue(r, num, den)
    ensures RealOf(r) == num as real / den as real
  {
    var x, y, p, q := r.num as real, r.den as real, num as real, den as real;
    assert x * q == p * y by {
      assert (r.num * den) as real == (num * r.den) as real;
    }
    calc {
      x / y;
      (x * q) / (y * q);
      (p * y) / (y * q);
      p / q;
    }
  }

  lemma AddFractions(an: real, ad: real, bn: real, bd: real)
    requires ad != 0.0 && bd != 0.0
    ensures (an * bd + bn * ad) / (ad * bd) == an / ad + bn / bd
  {
    var x, y := an / ad, bn / bd;
    assert an == x * ad && bn == y * bd;
    assert an * bd + bn * ad == (x + y) * (ad * bd);
  }

  lemma SubFractions(an: real, ad: real, bn: real, bd: real)
    requires ad != 0.0 && bd != 0.0
    ensures (an * bd - bn * ad) / (ad * bd) == an / ad - bn / bd
  {
    var x, y := an / ad, bn / bd;
    assert an == x * ad && bn == y * bd;
    assert an * bd - bn * ad == (x - y) * (ad * bd);
  }

  lemma MulFractions(an: real, ad: real, bn: real, bd: real)
    requires ad != 0.0 && bd != 0.0
    ensures (an * bn) / (ad * bd) == (an / ad) * (bn / bd)
  {
    var x, y := an / ad, bn / bd;
    assert an == x * ad && bn == y * bd;
    assert an * bn == (x * y) * (ad * bd);
  }

  lemma DivFractions(an: real, ad: real, bn: real, bd: real)
    requires ad != 0.0 && bd != 0.0 && bn != 0.0
    ensures (an * bd) / (bn * ad) == (an / ad) / (bn / bd)
  {
    var x, y := an / ad, bn / bd;
    assert an == x * ad && bn == y * bd;
    assert y != 0.0;
    assert an * bd == (x / y) * (bn * ad);
  }

  /**
   * `Value` computes the exact value of an expression: NaN exactly when a
   * division by zero occurs in it, and otherwise a ratio standing for the
   * rational value.
   */
  lemma {:induction false} ValueIsExact(n: Node)
    ensures IsNaN(Value(n)) <==> Exact(n).None?
    ensures Exact(n).Some? ==> RealOf(Value(n)) == Exact(n).value
  {
    match n
    case Immediate(v) =>
    case BinNode(op, l, r) =>
      ValueIsExact(l);
      ValueIsExact(r);
      var a, b := Value(l), Value(r);
      assert Value(n) == Eval(op, a, b);
      if !IsNaN(a) && !IsNaN(b) {
        EvalIsExact(op, a, b);
      } else {
        EvalNaN(op, a, b);
      }
  }

  lemma EvalNaN(op: Op, a: Ratio, b: Ratio)
    requires IsNaN(a) || IsNaN(b)
    ensures IsNaN(Eval(op, a, b))
  {
  }

  /** One operator applied to two numbers, against the rationals. */
  lemma EvalIsExact(op: Op, a: Ratio, b: Ratio)
    requires !IsNaN(a) && !IsNaN(b)
    ensures IsNaN(Eval(op, a, b)) <==> op == OpDiv && RealOf(b) == 0.0
    ensures !IsNaN(Eval(op, a, b)) ==> RealOf(Eval(op, a, b)) == ExactOp(op, RealOf(a), RealOf(b))
  {
    match op
    case OpAdd => AddIsExact(a, b);
    case OpSub => SubIsExact(a, b);
    case OpMul => MulIsExact(a, b);
    case OpDiv => DivIsExact(a, b);
  }

  lemma CastMul(x: int, y: int)
    ensures (x * y) as real == x as real * y as real
  {
  }

  /** A ratio with the value num/den stands for x when num/den is x. */
  lemma FromFraction(r: Ratio, num: int, den: int, x: real)
    requires HasValue(r, num, den) && num as real / den as real == x
    ensures !IsNaN(r) && RealOf(r) == x
  {
    HasValueReal(r, num, den);
  }

  lemma AddIsExact(a: Ratio, b: Ratio)
    requires !IsNaN(a) && !IsNaN(b)
    ensures !IsNaN(RatioAdd(a, b)) && RealOf(RatioAdd(a, b)) == RealOf(a) + RealOf(b)
  {
    var num, den := a.num * b.den + b.num * a.den, a.den * b.den;
    var an, ad, bn, bd := a.num as real, a.den as real, b.num as real, b.den as real;
    assert num as real / den as real == an / ad + bn / bd by {
      CastMul(a.num, b.den);
      CastMul(b.num, a.den);
      CastMul(a.den, b.den);
      AddFractions(an, ad, bn, bd);
    }
    FromFraction(RatioAdd(a, b), num, den, an / ad + bn / bd);
  }

  lemma SubIsExact(a: Ratio, b: Ratio)
    requires !IsNaN(a) && !IsNaN(b)
    ensures !IsNaN(RatioSub(a, b)) && RealOf(RatioSub(a, b)) == RealOf(a) - RealOf(b)
  {
    var num, den := a.num * b.den - b.num * a.den, a.den * b.den;
    var an, ad, bn, bd := a.num as real, a.den as real, b.num as real, b.den as real;
    assert num as real / den as real == an / ad - bn / bd by {
      CastMul(a.num, b.den);
      CastMul(b.num, a.den);
      CastMul(a.den, b.den);
      SubFractions(an, ad, bn, bd);
    }
    FromFraction(RatioSub(a, b), num, den, an / ad - bn / bd);
  }

  lemma MulIsExact(a: Ratio, b: Ratio)
    requires !IsNaN(a) && !IsNaN(b)
    ensures !IsNaN(RatioMul(a, b)) && RealOf(RatioMul(a, b)) == RealOf(a) * RealOf(b)
  {
    var num, den := a.num * b.num, a.den * b.den;
    var an, ad, bn, bd := a.num as real, a.den as real, b.num as real, b.den as real;
    assert num as real / den as real == (an / ad) * (bn / bd) by {
      CastMul(a.num, b.num);
      CastMul(a.den, b.den);
      MulFractions(an, ad, bn, bd);
    }
    FromFraction(RatioMul(a, b), num, den, (an / ad) * (bn / bd));
  }

  lemma DivIsExact(a: Ratio, b: Ratio)
    requires !IsNaN(a) && !IsNaN(b)
    ensures IsNaN(RatioDiv(a, b)) <==> RealOf(b) == 0.0
    ensures !IsNaN(RatioDiv(a, b)) ==> RealOf(RatioDiv(a, b)) == RealOf(a) / RealOf(b)
  {
    ZeroQuotient(b.num, b.den);
    if b.num != 0 {
      var num, den := a.num * b.den, b.num * a.den;
      var an, ad, bn, bd := a.num as real, a.den as real, b.num as real, b.den as real;
      assert num as real / den as real == (an / ad) / (bn / bd) by {
        CastMul(a.num, b.den);
        CastMul(b.num, a.den);
        assert ad != 0.0 && bd != 0.0 && bn != 0.0;
        DivFractions(an, ad, bn, bd);
        calc {
          num as real / den as real;
        ==  { assert num as real == an * bd && den as real == bn * ad; }
          (an * bd) / (bn * ad);
        ==
          (an / ad) / (bn / bd);
        }
      }
      FromFraction(RatioDiv(a, b), num, den, (an / ad) / (bn / bd));
    }
  }

  lemma ZeroQuotient(n: int, d: int)
    requires d != 0
    ensures n as real / d as real == 0.0 <==> n == 0
  {
    if n != 0 {
      assert n as real != 0.0;
    }
  }

  /** `BinNode.IsNeedParen`. */
  function IsNeedParen(outer: Option<Op>, op: Op): bool {
    if outer.None? then false
    else if PrecedenceOf(outer.value) == PrecedenceOf(op) then OpChar(op) == '/'
    else Rank(PrecedenceOf(outer.value)) > Rank(PrecedenceOf(op))
  }

  /**
   * No enclosing operator never parenthesises; an operator of the same
   * precedence forces parentheses only around a division; otherwise only a
   * stronger enclosing operator does. So a sum or difference is bracketed
   * under `*` and `/`, and nothing is bracketed under `+` or `-`.
   */
  lemma IsNeedParenRule(outer: Option<Op>, op: Op)
    ensures outer.None? ==> !IsNeedParen(outer, op)
    ensures outer.Some? && PrecedenceOf(outer.value) == PrecedenceOf(op) ==> (IsNeedParen(outer, op) <==> op == OpDiv)
    ensures outer.Some? && PrecedenceOf(outer.value) != PrecedenceOf(op) ==>
      (IsNeedParen(outer, op) <==> Rank(PrecedenceOf(outer.value)) > Rank(PrecedenceOf(op)))
    ensures outer.Some? && outer.value in {OpMul, OpDiv} && op in {OpAdd, OpSub} ==> IsNeedParen(outer, op)
    ensures outer.Some? && outer.value in {OpAdd, OpSub} ==> !IsNeedParen(outer, op)
  {
  }

  /** The decimal digit characters. */
  predicate IsDigitChar(c: char) { '0' <= c <= '9' }

  function DigitChar(d: nat): (c: char)
    requires d < 10
    ensures IsDigitChar(c)
  {
    "0123456789"[d]
  }

  /** `int.ToString()` for a non-negative value: its decimal digits. */
  function NatToString(n: nat): (s: string)
    ensures |s| > 0 && forall i :: 0 <= i < |s| ==> IsDigitChar(s[i])
  {
    if n < 10 then [DigitChar(n)] else NatToString(n / 10) + [DigitChar(n % 10)]
  }

  /** `int.ToString()`: a minus sign, then the digits of the magnitude. */
  function IntToString(n: int): (s: string)
    ensures forall i :: 0 <= i < |s| ==> s[i] == '-' || IsDigitChar(s[i])
  {
    if n < 0 then "-" + NatToString(-n) else NatToString(n)
  }

  /** `Ratio.ToString`. */
  function RatioToString(r: Ratio): string {
    if r.den == 0 then "NaN"
    else if r.den == 1 then IntToString(r.num)
    else IntToString(r.num) + "/" + IntToString(r.den)
  }

  /** The value of a decimal digit character. */
  function DigitValue(c: char): int {
    c as int - '0' as int
  }

  lemma DigitCharValue(d: nat)
    requires d < 10
    ensures DigitValue(DigitChar(d)) == d
  {
    assert "0123456789"[0] == '0' && "0123456789"[1] == '1' && "0123456789"[2] == '2';
    assert "0123456789"[3] == '3' && "0123456789"[4] == '4' && "0123456789"[5] == '5';
    assert "0123456789"[6] == '6' && "0123456789"[7] == '7' && "0123456789"[8] == '8';
    assert "0123456789"[9] == '9';
  }

  /** Reading decimal digits back, the last one the units. */
  function ParseNat(s: string): int
    decreases |s|
  {
    if s == [] then 0 else ParseNat(s[..|s| - 1]) * 10 + DigitValue(s[|s| - 1])
  }

  /** A leading minus sign, then the digits. */
  function ParseInt(s: string): int {
    if s != [] && s[0] == '-' then -ParseNat(s[1..]) else ParseNat(s)
  }

  /** The index of the first '/', or the length when there is none. */
  function FirstSlash(s: string): (k: nat)
    ensures k <= |s|
  {
    if s == [] || s[0] == '/' then 0 else 1 + FirstSlash(s[1..])
  }

  /** How a printed ratio reads back: "NaN", or a numerator and an optional "/" and denominator. */
  function ParseRatio(s: string): Ratio {
    if s == "NaN" then NaN()
    else
      var k := FirstSlash(s);
      if k == |s| then Ratio(ParseInt(s), 1) else Ratio(ParseInt(s[..k]), ParseInt(s[k + 1..]))
  }

  lemma {:induction false} NatToStringRoundTrip(n: nat)
    ensures ParseNat(NatToString(n)) == n
    decreases n
  {
    var s := NatToString(n);
    if n < 10 {
      DigitCharValue(n);
      assert s[..0] == [];
    } else {
      NatToStringRoundTrip(n / 10);
      DigitCharValue(n % 10);
      assert s[..|s| - 1] == NatToString(n / 10);
    }
  }

  lemma IntToStringRoundTrip(n: int)
    ensures ParseInt(IntToString(n)) == n
  {
    if n < 0 {
      NatToStringRoundTrip(-n);
      assert IntToString(n)[1..] == NatToString(-n);
    } else {
      NatToStringRoundTrip(n);
      assert IsDigitChar(IntToString(n)[0]);
    }
  }

  lemma {:induction false} FirstSlashAfter(a: string, b: string)
    requires '/' !in a
    ensures FirstSlash(a + "/" + b) == |a|
    decreases |a|
  {
    if a != [] {
      assert a[0] in a;
      assert (a + "/" + b)[1..] == a[1..] + "/" + b;
      assert forall c | c in a[1..] :: c in a;
      FirstSlashAfter(a[1..], b);
    }
  }

  lemma {:induction false} FirstSlashNone(a: string)
    requires '/' !in a
    ensures FirstSlash(a) == |a|
    decreases |a|
  {
    if a != [] {
      assert a[0] in a;
      assert forall c | c in a[1..] :: c in a;
      FirstSlashNone(a[1..]);
    }
  }

  lemma NoSlash(n: int)
    ensures '/' !in IntToString(n) && IntToString(n) != [] && IntToString(n)[0] != 'N'
  {
    if n >= 0 {
      assert IsDigitChar(NatToString(n)[0]);
    }
  }

  /**
   * `Ratio.ToString` reads back: NaN as NaN, and any other ratio as
   * exactly itself, so two different numbers never print alike.
   */
  lemma RatioToStringRoundTrip(r: Ratio)
    ensures IsNaN(r) ==> IsNaN(ParseRatio(RatioToString(r)))
    ensures !IsNaN(r) ==> ParseRatio(RatioToString(r)) == r
  {
    if !IsNaN(r) {
      var a := IntToString(r.num);
      NoSlash(r.num);
      IntToStringRoundTrip(r.num);
      if r.den == 1 {
        FirstSlashNone(a);
        assert a != "NaN";
      } else {
        var b := IntToString(r.den);
        NoSlash(r.den);
        IntToStringRoundTrip(r.den);
        var s := a + "/" + b;
        FirstSlashAfter(a, b);
        assert s[0] == a[0];
        assert s[..|a|] == a && s[|a| + 1..] == b;
      }
    }
  }

  /**
   * `Node.Unparse(buf, outerOp)`: a leaf prints its value; an inner node
   * prints its left operand under its own operator, the operator, and its
   * right operand, all in parentheses when `IsNeedParen` says so. The right
   * operand of `/` is printed with no enclosing operator, and bracketed
   * explicitly when it is itself an inner node.
   */
  function Unparse(n: Node, outer: Option<Op>): string {
    match n
    case Immediate(v) => RatioToString(FromInt(v))
    case BinNode(op, l, r) =>
      var right :=
        if op == OpDiv then
          (if r.BinNode? then "(" + Unparse(r, None) + ")" else Unparse(r, None))
        else Unparse(r, Some(op));
      var inner := Unparse(l, Some(op)) + [OpChar(op)] + right;
      if IsNeedParen(outer, op) then "(" + inner + ")" else inner
  }

  /** The tokens of an expression in order: operands and operators without any bracket. */
  function Tokens(n: Node): string {
    match n
    case Immediate(v) => IntToString(v)
    case BinNode(op, l, r) => Tokens(l) + [OpChar(op)] + Tokens(r)
  }

  /** `s` with every '(' and ')' removed. */
  function StripParens(s: string): (t: string)
    ensures |t| <= |s|
  {
    if s == [] then []
    else if s[0] == '(' || s[0] == ')' then StripParens(s[1..])
    else [s[0]] + StripParens(s[1..])
  }

  lemma {:induction false} StripParensConcat(a: string, b: string)
    ensures StripParens(a + b) == StripParens(a) + StripParens(b)
  {
    if a == [] {
      assert a + b == b;
    } else {
      assert (a + b)[0] == a[0];
      assert (a + b)[1..] == a[1..] + b;
      StripParensConcat(a[1..], b);
    }
  }

  lemma StripParensWrapped(s: string)
    ensures StripParens("(" + s + ")") == StripParens(s)
  {
    StripParensConcat("(" + s, ")");
    StripParensConcat("(", s);
  }

  lemma StripParensJoin(a: string, c: char, b: string)
    requires c != '(' && c != ')'
    ensures StripParens(a + [c] + b) == StripParens(a) + [c] + StripParens(b)
  {
    StripParensConcat(a + [c], b);
    StripParensConcat(a, [c]);
  }

  lemma {:induction false} StripParensNoParens(s: string)
    requires forall i :: 0 <= i < |s| ==> s[i] == '-' || IsDigitChar(s[i])
    ensures StripParens(s) == s
  {
    if s != [] {
      StripParensNoParens(s[1..]);
    }
  }

  /**
   * The printed form differs from the plain token sequence only by brackets:
   * removing every '(' and ')' from `Unparse` gives the operands and
   * operators in their tree order.
   */
  lemma {:induction false} UnparseOnlyAddsParens(n: Node, outer: Option<Op>)
    ensures StripParens(Unparse(n, outer)) == Tokens(n)
  {
    match n
    case Immediate(v) =>
      StripParensNoParens(IntToString(v));
    case BinNode(op, l, r) =>
      UnparseOnlyAddsParens(l, Some(op));
      var right :=
        if op == OpDiv then
          (if r.BinNode? then "(" + Unparse(r, None) + ")" else Unparse(r, None))
        else Unparse(r, Some(op));
      assert StripParens(right) == Tokens(r) by {
        if op == OpDiv {
          UnparseOnlyAddsParens(r, None);
          if r.BinNode? { StripParensWrapped(Unparse(r, None)); }
        } else {
          UnparseOnlyAddsParens(r, Some(op));
        }
      }
      var inner := Unparse(l, Some(op)) + [OpChar(op)] + right;
      StripParensJoin(Unparse(l, Some(op)), OpChar(op), right);
      if IsNeedParen(outer, op) {
        StripParensWrapped(inner);
      }
  }

  // ------------------------------------------------------------------
  // PermutationSet: every tuple of a given length over a set
  // ------------------------------------------------------------------

  function Pow(b: nat, e: nat): nat {
    if e == 0 then 1 else b * Pow(b, e - 1)
  }

  /** The `len` base-`n` digits of `k`, least significant first. */
  function DigitsOf(k: nat, n: nat, len: nat): (ds: seq<nat>)
    requires n > 0 || len == 0
    ensures |ds| == len && forall i :: 0 <= i < len ==> ds[i] < n
    decreases len
  {
    if len == 0 then [] else [k % n] + DigitsOf(k / n, n, len - 1)
  }

  /** The number whose base-`n` digits, least significant first, are `ds`. */
  function FromDigits(ds: seq<nat>, n: nat): nat {
    if ds == [] then 0 else ds[0] + n * FromDigits(ds[1..], n)
  }

  /** Reading the digits of k back gives k, for every k below n^len. */
  lemma {:induction false} DigitsRoundTrip(k: nat, n: nat, len: nat)
    requires n > 0 && k < Pow(n, len)
    ensures FromDigits(DigitsOf(k, n, len), n) == k
    decreases len
  {
    if len > 0 {
      assert k / n < Pow(n, len - 1) by {
        DivBelowPow(k, n, len);
      }
      var q := k / n;
      DigitsRoundTrip(q, n, len - 1);
      var ds := DigitsOf(k, n, len);
      assert ds[0] == k % n && ds[1..] == DigitsOf(q, n, len - 1);
      assert FromDigits(ds, n) == k % n + n * q;
      DivModRecompose(k, n);
    }
  }

  lemma DivModRecompose(k: nat, n: nat)
    requires n > 0
    ensures k % n + n * (k / n) == k
  {
  }

  lemma DivBelowPow(k: nat, n: nat, len: nat)
    requires n > 0 && len > 0 && k < Pow(n, len)
    ensures k / n < Pow(n, len - 1)
  {
    var p := Pow(n, len - 1);
    assert Pow(n, len) == n * p;
    assert k == n * (k / n) + k % n;
    if k / n >= p {
      MulMono(n, p, k / n);
      assert false;
    }
  }

  lemma MulMono(n: nat, a: nat, b: nat)
    requires a <= b
    ensures n * a <= n * b
  {
    assert n * b == n * a + n * (b - a);
  }

  /** Every digit sequence is the digits of its value, and that value is below n^len. */
  lemma {:induction false} FromDigitsRoundTrip(ds: seq<nat>, n: nat)
    requires n > 0 && forall i :: 0 <= i < |ds| ==> ds[i] < n
    ensures FromDigits(ds, n) < Pow(n, |ds|)
    ensures DigitsOf(FromDigits(ds, n), n, |ds|) == ds
  {
    if ds != [] {
      var rest := FromDigits(ds[1..], n);
      FromDigitsRoundTrip(ds[1..], n);
      var k := FromDigits(ds, n);
      LemmaDivModUnique(k, n, rest, ds[0]);
      FromDigitsStepBound(ds[0], rest, n, |ds|);
      assert DigitsOf(k, n, |ds|) == [ds[0]] + DigitsOf(rest, n, |ds| - 1);
    }
  }

  lemma FromDigitsStepBound(d: nat, rest: nat, n: nat, len: nat)
    requires n > 0 && len > 0 && d < n && rest < Pow(n, len - 1)
    ensures d + n * rest < Pow(n, len)
  {
    var p := Pow(n, len - 1);
    MulMono(n, rest, p - 1);
    assert n * (p - 1) == n * p - n;
  }

  lemma LemmaDivModUnique(k: nat, n: nat, q: nat, r: nat)
    requires n > 0 && r < n && k == n * q + r
    ensures k / n == q && k % n == r
  {
    var q0, r0 := k / n, k % n;
    assert n * q0 + r0 == n * q + r;
    if q0 > q {
      MulMono(n, q + 1, q0);
      assert false;
    } else if q0 < q {
      MulMono(n, q0 + 1, q);
      assert false;
    }
  }

  /** The tuple whose i-th element is `setv[ds[i]]`. */
  function Pick<T>(setv: seq<T>, ds: seq<nat>): (t: seq<T>)
    requires forall i :: 0 <= i < |ds| ==> ds[i] < |setv|
    ensures |t| == |ds| && forall i :: 0 <= i < |ds| ==> t[i] == setv[ds[i]]
  {
    if ds == [] then [] else [setv[ds[0]]] + Pick(setv, ds[1..])
  }

  lemma PowZero(len: nat)
    ensures Pow(0, len) == if len == 0 then 1 else 0
  {
  }

  /**
   * `PermutationSet<T>`: an enumerator over every tuple of `length`
   * elements of `setv`. After the k-th successful `MoveNext` (counting from
   * 0) the tuple holds the elements picked by the base-|setv| digits of k.
   */
  class PermutationSet<T(0)> {
    var current: int
    var max: int
    const tuple: array<T>
    const setv: seq<T>

    ghost predicate Valid()
      reads this
    {
      max == Pow(|setv|, tuple.Length) - 1 && -1 <= current <= max
    }

    constructor (setv: seq<T>, length: nat)
      ensures Valid() && fresh(tuple)
      ensures this.setv == setv && tuple.Length == length && current == -1
      ensures max + 1 == Pow(|setv|, length)
    {
      this.current := -1;
      this.tuple := new T[length];
      this.setv := setv;
      var m := 1;
      var i := 0;
      while i < length
        invariant 0 <= i <= length && m == Pow(|setv|, i)
      {
        m := m * |setv|;
        i := i + 1;
      }
      this.max := m - 1;
    }

    /** `MoveNext`: false once `current` reached `max`, else the next tuple. */
    method MoveNext() returns (more: bool)
      requires Valid()
      modifies this, tuple
      ensures Valid() && unchanged(this`max)
      ensures more <==> old(current) < max
      ensures more ==> current == old(current) + 1 && (|setv| > 0 || tuple.Length == 0)
      ensures more && |setv| > 0 ==> tuple[..] == Pick(setv, DigitsOf(current, |setv|, tuple.Length))
      ensures !more ==> current == old(current) && tuple[..] == old(tuple[..])
    {
      if current >= max {
        return false;
      }
      current := current + 1;
      if |setv| == 0 {
        PowZero(tuple.Length);
        return true;
      }
      FillTuple(current);
      return true;
    }

    /** The digit loop of `MoveNext`: `tuple[i] = setv[x % n]; x /= n`. */
    method FillTuple(k: nat)
      requires |setv| > 0
      modifies tuple
      ensures tuple[..] == Pick(setv, DigitsOf(k, |setv|, tuple.Length))
    {
      var n := |setv|;
      ghost var ds := DigitsOf(k, n, tuple.Length);
      var x: nat := k;
      var i := 0;
      while i < tuple.Length
        invariant 0 <= i <= tuple.Length
        invariant DigitsOf(x, n, tuple.Length - i) == ds[i..]
        invariant forall j :: 0 <= j < i ==> tuple[j] == setv[ds[j]]
      {
        assert DigitsOf(x, n, tuple.Length - i) == [x % n] + DigitsOf(x / n, n, tuple.Length - i - 1);
        assert ds[i..] == [ds[i]] + ds[i + 1..];
        tuple[i] := setv[x % n];
        x := x / n;
        i := i + 1;
      }
    }

    /** `Reset` restarts the enumeration. */
    method Reset()
      requires Valid()
      modifies this
      ensures Valid() && current == -1 && unchanged(this`max)
    {
      current := -1;
    }
  }

  /**
   * The `foreach` over a fresh PermutationSet: it yields exactly n^length
   * tuples, the k-th being the elements picked by the base-n digits of k.
   */
  method EnumerateTuples<T(0)>(setv: seq<T>, length: nat) returns (tuples: seq<seq<T>>)
    requires |setv| > 0
    ensures |tuples| == Pow(|setv|, length)
    ensures forall k :: 0 <= k < |tuples| ==> tuples[k] == Pick(setv, DigitsOf(k, |setv|, length))
  {
    var e := new PermutationSet(setv, length);
    tuples := [];
    var more := e.MoveNext();
    while more
      invariant e.Valid() && e.setv == setv && e.tuple.Length == length
      invariant e.max + 1 == Pow(|setv|, length)
      invariant more ==> |tuples| == e.current && e.tuple[..] == Pick(setv, DigitsOf(e.current, |setv|, length))
      invariant !more ==> |tuples| == e.current + 1 == e.max + 1
      invariant forall k :: 0 <= k < |tuples| ==> tuples[k] == Pick(setv, DigitsOf(k, |setv|, length))
      decreases e.max - |tuples|
    {
      tuples := tuples + [e.tuple[..]];
      more := e.MoveNext();
    }
  }
}
