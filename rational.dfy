/**
 * Exact fractions kept in normal form (rational.h).
 *
 * The C++ type stores two 32-bit `int`s; the model uses unbounded integers.
 * `/` and `%` on `int` in C++ truncate toward zero, so they are written out
 * as TruncDiv and TruncRem rather than Dafny's Euclidean operators.
 */
module Rationals {

  function Abs(x: int): nat { if x < 0 then -x else x }

  /** C++ `a / b` on `int`: the quotient truncated toward zero. */
  function TruncDiv(a: int, b: int): int
    requires b != 0
  {
    if (a < 0) == (b < 0) then Abs(a) / Abs(b) else -(Abs(a) / Abs(b))
  }

  /** C++ `a % b` on `int`: the remainder has the sign of the dividend. */
  function TruncRem(a: int, b: int): (r: int)
    requires b != 0
    ensures Abs(r) < Abs(b)
    ensures r != 0 ==> (r < 0 <==> a < 0)
  {
    TruncDivRem(a, b);
    a - TruncDiv(a, b) * b
  }

  lemma TruncDivRem(a: int, b: int)
    requires b != 0
    ensures var r := a - TruncDiv(a, b) * b;
            r == (if a < 0 then -(Abs(a) % Abs(b)) else Abs(a) % Abs(b))
  {
    var q, r0 := Abs(a) / Abs(b), Abs(a) % Abs(b);
    assert Abs(a) == q * Abs(b) + r0;
    if b < 0 {
      assert q * Abs(b) == -(q * b);
      assert (-q) * b == q * Abs(b);
    } else {
      assert q * Abs(b) == q * b;
      assert (-q) * b == -(q * b);
    }
  }

  /** Multiplication as a function, so that divisibility has a trigger. */
  function Mul(x: int, y: int): int { x * y }

  /** `d` divides `x` (0 divides only 0). */
  ghost predicate Divides(d: int, x: int)
  {
    exists k :: x == Mul(d, k)
  }

  /** rational.h `gcd`: Euclid's algorithm with the truncating remainder. */
  function Gcd(a: int, b: int): int
    decreases Abs(a)
  {
    if a == 0 then b else Gcd(TruncRem(b, a), a)
  }

  lemma {:induction false} GcdDividesBoth(a: int, b: int)
    ensures Divides(Gcd(a, b), a) && Divides(Gcd(a, b), b)
    decreases Abs(a)
  {
    var g := Gcd(a, b);
    if a == 0 {
      assert a == Mul(g, 0);
      assert b == Mul(g, 1);
    } else {
      var r, q := TruncRem(b, a), TruncDiv(b, a);
      GcdDividesBoth(r, a);
      var x :| r == Mul(g, x);
      var y :| a == Mul(g, y);
      RemSplit(b, a);
      Combine(g, x, y, q, r, a, b);
    }
  }

  /** b is its truncated remainder plus quotient times a. */
  lemma RemSplit(b: int, a: int)
    requires a != 0
    ensures b == TruncRem(b, a) + TruncDiv(b, a) * a
  {
  }

  /** A combination r + q a of multiples of g is a multiple of g. */
  lemma Combine(g: int, x: int, y: int, q: int, r: int, a: int, b: int)
    requires r == Mul(g, x) && a == Mul(g, y) && b == r + q * a
    ensures b == Mul(g, x + q * y)
  {
    assert q * (g * y) == g * (q * y);
  }

  lemma {:induction false} GcdGreatest(a: int, b: int, d: int)
    requires Divides(d, a) && Divides(d, b)
    ensures Divides(d, Gcd(a, b))
    decreases Abs(a)
  {
    if a != 0 {
      var r, q := TruncRem(b, a), TruncDiv(b, a);
      var x :| a == Mul(d, x);
      var y :| b == Mul(d, y);
      RemSplit(b, a);
      Combine(d, y, x, -q, b, a, r);
      GcdGreatest(r, a, d);
    }
  }

  lemma {:induction false} GcdZero(a: int, b: int)
    ensures Gcd(a, b) == 0 <==> a == 0 && b == 0
    decreases Abs(a)
  {
    if a != 0 {
      GcdZero(TruncRem(b, a), a);
    }
  }

  lemma {:induction false} GcdNonnegative(a: int, b: int)
    requires a >= 0 && b >= 0
    ensures Gcd(a, b) >= 0
    decreases Abs(a)
  {
    if a != 0 {
      GcdNonnegative(TruncRem(b, a), a);
    }
  }

  lemma MulAtLeast(a: int, y: int)
    requires a >= 1 && y > 0
    ensures a * y >= y
  {
    assert a * y == (a - 1) * y + y;
  }

  lemma DivUnique(x: int, y: int, q: int, r: int)
    requires y > 0 && x == q * y + r && 0 <= r < y
    ensures x / y == q
  {
    var q', r' := x / y, x % y;
    assert (q' - q) * y == r - r';
    if q' > q {
      MulAtLeast(q' - q, y);
    } else if q > q' {
      MulAtLeast(q - q', y);
    }
  }

  lemma AbsMul(x: int, y: int)
    ensures Abs(x * y) == Abs(x) * Abs(y)
  {
    if x < 0 { assert x * y == -(Abs(x) * y); }
    if y < 0 { assert Abs(x) * y == -(Abs(x) * Abs(y)); }
  }

  /** Exact division: `(g * x) / g == x` also for C++'s truncating `/`. */
  lemma TruncDivExact(g: int, x: int)
    requires g != 0
    ensures TruncDiv(g * x, g) == x
  {
    AbsMul(g, x);
    DivUnique(Abs(g * x), Abs(g), Abs(x), 0);
    assert Abs(g) * Abs(x) == Abs(x) * Abs(g);
    if x != 0 {
      assert (g * x < 0) == ((g < 0) != (x < 0));
    }
  }

  lemma ScaledDiv(x: int, y: int, k: int)
    requires x >= 0 && y > 0 && k > 0
    ensures (k * x) / (k * y) == x / y
  {
    var q, r := x / y, x % y;
    assert x == q * y + r;
    assert k * x == q * (k * y) + k * r;
    assert k * r < k * y;
    DivUnique(k * x, k * y, q, k * r);
  }

  lemma TruncDivScale(a: int, b: int, k: int)
    requires a != 0 && k > 0
    ensures TruncDiv(k * b, k * a) == TruncDiv(b, a)
  {
    AbsMul(k, a);
    AbsMul(k, b);
    ScaledDiv(Abs(b), Abs(a), k);
    assert Abs(k * b) / Abs(k * a) == Abs(b) / Abs(a);
    assert (k * b < 0) == (b < 0);
    assert (k * a < 0) == (a < 0);
  }

  /** Scaling both arguments by a positive factor scales the gcd. */
  lemma {:induction false} GcdScale(a: int, b: int, k: int)
    requires k > 0
    ensures Gcd(k * a, k * b) == k * Gcd(a, b)
    decreases Abs(a)
  {
    if a != 0 {
      var q := TruncDiv(b, a);
      TruncDivScale(a, b, k);
      assert TruncRem(k * b, k * a) == k * b - q * (k * a);
      assert TruncRem(k * b, k * a) == k * TruncRem(b, a);
      GcdScale(TruncRem(b, a), a, k);
    }
  }

  lemma DividesAbs(d: int, x: int)
    requires Divides(d, x)
    ensures Divides(d, Abs(x))
  {
    var k :| x == Mul(d, k);
    if x < 0 { assert Abs(x) == Mul(d, -k); }
  }

  lemma DividesBound(d: int, x: int)
    requires Divides(d, x) && x != 0
    ensures Abs(d) <= Abs(x)
  {
    var k :| x == Mul(d, k);
    AbsMul(d, k);
    assert Abs(k) >= 1;
    MulAtLeast(Abs(k), Abs(d));
  }

  lemma DividesAntisymmetric(b: int, d: int)
    requires b > 0 && d > 0 && Divides(b, d) && Divides(d, b)
    ensures b == d
  {
    DividesBound(b, d);
    DividesBound(d, b);
  }

  /** Euclid's lemma for a coprime pair: b | a*d and gcd(|a|, b) = 1 give b | d. */
  lemma CoprimeDivides(a: int, b: int, d: int)
    requires b > 0 && d > 0 && Gcd(Abs(a), b) == 1 && Divides(b, a * d)
    ensures Divides(b, d)
  {
    DividesAbs(b, a * d);
    AbsMul(a, d);
    assert Abs(a * d) == d * Abs(a);
    assert d * b == Mul(b, d);
    GcdGreatest(d * Abs(a), d * b, b);
    GcdScale(Abs(a), b, d);
  }

  /** A fraction num/den; `Rational` on the C++ side (fields `a`, `b`). */
  datatype Rational = Rational(num: int, den: int)

  /** The normal form the class keeps: positive denominator, coprime parts. */
  predicate IsNormal(r: Rational)
  {
    r.den > 0 && Gcd(Abs(r.num), r.den) == 1
  }

  /** The exact value a fraction stands for. */
  function Value(r: Rational): real
    requires r.den != 0
  {
    r.num as real / r.den as real
  }

  /**
   * rational.h `normalize` applied to the pair (a, b): divide both by
   * gcd(a, b) with C++'s truncating `/`, then move a negative sign off the
   * denominator. b == 0 is excluded: gcd(0, 0) is 0 and the division fails.
   */
  function Normalized(a: int, b: int): Rational
    requires b != 0
  {
    GcdZero(a, b);
    var g := Gcd(a, b);
    var a1, b1 := TruncDiv(a, g), TruncDiv(b, g);
    if b1 < 0 then Rational(-a1, -b1) else Rational(a1, b1)
  }

  lemma RealQuotientScale(g: int, x: int, y: int)
    requires g != 0 && y != 0
    ensures (g * x) as real / (g * y) as real == x as real / y as real
  {
    assert (g * x) as real == g as real * x as real;
    assert (g * y) as real == g as real * y as real;
  }

  /** The cofactors x, y with a == g*x, b == g*y that normalize divides out. */
  lemma NormalizedParts(a: int, b: int) returns (g: int, x: int, y: int)
    requires b != 0
    ensures g == Gcd(a, b) && g != 0 && y != 0
    ensures a == g * x && b == g * y
    ensures Normalized(a, b) == if y < 0 then Rational(-x, -y) else Rational(x, y)
  {
    GcdZero(a, b);
    g := Gcd(a, b);
    GcdDividesBoth(a, b);
    x :| a == Mul(g, x);
    y :| b == Mul(g, y);
    TruncDivExact(g, x);
    TruncDivExact(g, y);
  }

  /** gcd(|x|, |y|) = 1 for the cofactors: g * gcd(|x|, |y|) divides gcd(a, b) = g. */
  lemma DividesNegate(d: int, x: int)
    requires Divides(d, x)
    ensures Divides(d, -x)
  {
    var k :| x == Mul(d, k);
    assert -x == Mul(d, -k);
  }

  lemma DividesScale(h: int, x: int, g: int)
    requires Divides(h, x)
    ensures Divides(g * h, g * x)
  {
    var k :| x == Mul(h, k);
    assert g * x == Mul(g * h, k) by { assert g * (h * k) == (g * h) * k; }
  }

  /** gcd(|x|, |y|) = 1 for the cofactors: g * gcd(|x|, |y|) divides gcd(a, b) = g. */
  lemma CofactorsCoprime(a: int, b: int, g: int, x: int, y: int)
    requires g == Gcd(a, b) && g != 0 && y != 0 && a == g * x && b == g * y
    ensures Gcd(Abs(x), Abs(y)) == 1
  {
    var h := Gcd(Abs(x), Abs(y));
    GcdNonnegative(Abs(x), Abs(y));
    GcdZero(Abs(x), Abs(y));
    GcdDividesBoth(Abs(x), Abs(y));
    if x < 0 { DividesNegate(h, Abs(x)); }
    if y < 0 { DividesNegate(h, Abs(y)); }
    assert Divides(h, x) && Divides(h, y);
    DividesScale(h, x, g);
    DividesScale(h, y, g);
    GcdGreatest(a, b, g * h);
    DividesBound(g * h, g);
    AbsMul(g, h);
    MulAtLeastOrOne(Abs(g), h);
  }

  lemma MulAtLeastOrOne(p: int, h: int)
    requires p > 0 && h > 0 && p * h <= p
    ensures h == 1
  {
    if h > 1 {
      MulAtLeast(h, p);
      assert false;
    }
  }

  lemma NegatedQuotient(x: int, y: int)
    requires y != 0
    ensures (-x) as real / (-y) as real == x as real / y as real
  {
  }

  lemma {:induction false} NormalizedIsNormal(a: int, b: int)
    requires b != 0
    ensures IsNormal(Normalized(a, b))
    ensures Value(Normalized(a, b)) == a as real / b as real
  {
    var g, x, y := NormalizedParts(a, b);
    CofactorsCoprime(a, b, g, x, y);
    RealQuotientScale(g, x, y);
    NegatedQuotient(x, y);
  }

  /** A normal fraction has gcd(num, den) = ±1. */
  lemma NormalGcdUnit(r: Rational)
    requires IsNormal(r)
    ensures Gcd(r.num, r.den) == 1 || Gcd(r.num, r.den) == -1
  {
    var g := Gcd(r.num, r.den);
    GcdZero(r.num, r.den);
    GcdDividesBoth(r.num, r.den);
    DividesAbs(g, r.num);
    GcdGreatest(Abs(r.num), r.den, g);
    DividesBound(g, 1);
  }

  /** Normalizing a normal fraction changes nothing. */
  lemma NormalizedOfNormal(r: Rational)
    requires IsNormal(r)
    ensures Normalized(r.num, r.den) == r
  {
    NormalGcdUnit(r);
    var g := Gcd(r.num, r.den);
    assert r.num == g * (g * r.num) && r.den == g * (g * r.den);
    TruncDivExact(g, g * r.num);
    TruncDivExact(g, g * r.den);
  }

  /**
   * Two normal fractions are equal exactly when their values are: the normal
   * form is canonical, so rational.h `==` (componentwise) is value equality.
   */
  lemma CrossMultiply(x: Rational, y: Rational)
    requires x.den > 0 && y.den > 0 && Value(x) == Value(y)
    ensures x.num * y.den == y.num * x.den
  {
    var a, b, c, d := x.num as real, x.den as real, y.num as real, y.den as real;
    assert a / b == c / d;
    assert a * d == c * b;
    assert (x.num * y.den) as real == a * d;
    assert (y.num * x.den) as real == c * b;
  }

  lemma CancelFactor(a: int, c: int, d: int)
    requires d != 0 && a * d == c * d
    ensures a == c
  {
    assert (a - c) * d == 0;
  }

  lemma NormalFormCanonical(x: Rational, y: Rational)
    requires IsNormal(x) && IsNormal(y)
    ensures x == y <==> Value(x) == Value(y)
  {
    if Value(x) == Value(y) {
      CrossMultiply(x, y);
      assert x.num * y.den == Mul(x.den, y.num);
      assert y.num * x.den == Mul(y.den, x.num);
      CoprimeDivides(x.num, x.den, y.den);
      CoprimeDivides(y.num, y.den, x.den);
      DividesAntisymmetric(x.den, y.den);
      CancelFactor(x.num, y.num, y.den);
    }
  }

  lemma {:induction false} NormalizedInteger(k: int)
    ensures Normalized(k, 1) == Rational(k, 1)
  {
    var r := Rational(k, 1);
    var h := Gcd(Abs(k), 1);
    GcdNonnegative(Abs(k), 1);
    GcdZero(Abs(k), 1);
    GcdDividesBoth(Abs(k), 1);
    DividesBound(h, 1);
    assert IsNormal(r);
    NormalizedOfNormal(r);
  }

  /** `Rational(k)`: an integer as a fraction (the constructor's default denominator 1). */
  function FromInt(k: int): (r: Rational)
    ensures r == Rational(k, 1) && IsNormal(r)
  {
    NormalizedInteger(k);
    NormalizedIsNormal(k, 1);
    Normalized(k, 1)
  }

  /** operator+ on two fractions: (ad + cb) / (bd), normalized. */
  function Add(x: Rational, y: Rational): Rational
    requires x.den != 0 && y.den != 0
  {
    Normalized(x.num * y.den + y.num * x.den, x.den * y.den)
  }

  /** operator- on two fractions: (ad - cb) / (bd), normalized. */
  function Sub(x: Rational, y: Rational): Rational
    requires x.den != 0 && y.den != 0
  {
    Normalized(x.num * y.den - y.num * x.den, x.den * y.den)
  }

  /** operator* on two fractions: (ac) / (bd), normalized. */
  function Times(x: Rational, y: Rational): Rational
    requires x.den != 0 && y.den != 0
  {
    Normalized(x.num * y.num, x.den * y.den)
  }

  /** operator/ on two fractions: (ad) / (bc), normalized; c == 0 would give a zero denominator. */
  function Div(x: Rational, y: Rational): Rational
    requires x.den != 0 && y.den != 0 && y.num != 0
  {
    Normalized(x.num * y.den, x.den * y.num)
  }

  /** Unary operator-: the fraction (-a) / b, normalized. */
  function Neg(x: Rational): Rational
    requires x.den != 0
  {
    Normalized(-x.num, x.den)
  }

  /** operator==: componentwise comparison of numerator and denominator. */
  predicate Eq(x: Rational, y: Rational)
  {
    x.num == y.num && x.den == y.den
  }

  lemma CastMul(p: int, q: int)
    ensures (p * q) as real == p as real * q as real
  {
  }

  lemma FracAdd(a: real, b: real, c: real, d: real)
    requires b != 0.0 && d != 0.0
    ensures (a * d + c * b) / (b * d) == a / b + c / d
  {
    var p, q := a / b, c / d;
    assert a == p * b && c == q * d;
    assert a * d + c * b == (p + q) * (b * d);
  }

  lemma FracSub(a: real, b: real, c: real, d: real)
    requires b != 0.0 && d != 0.0
    ensures (a * d - c * b) / (b * d) == a / b - c / d
  {
    var p, q := a / b, c / d;
    assert a == p * b && c == q * d;
    assert a * d - c * b == (p - q) * (b * d);
  }

  lemma FracMul(a: real, b: real, c: real, d: real)
    requires b != 0.0 && d != 0.0
    ensures (a * c) / (b * d) == (a / b) * (c / d)
  {
    var p, q := a / b, c / d;
    assert a == p * b && c == q * d;
    assert a * c == (p * q) * (b * d);
  }

  lemma FracDiv(a: real, b: real, c: real, d: real)
    requires b != 0.0 && d != 0.0 && c != 0.0
    ensures (a * d) / (b * c) == (a / b) / (c / d)
  {
    var p, q := a / b, c / d;
    assert a == p * b && c == q * d;
    assert q != 0.0;
    assert a * d == (p / q) * (b * c);
  }

  lemma QuotientSum(a: int, b: int, c: int, d: int)
    requires b != 0 && d != 0
    ensures (a * d + c * b) as real / (b * d) as real == a as real / b as real + c as real / d as real
  {
    CastMul(a, d);
    CastMul(c, b);
    CastMul(b, d);
    FracAdd(a as real, b as real, c as real, d as real);
  }

  lemma QuotientDifference(a: int, b: int, c: int, d: int)
    requires b != 0 && d != 0
    ensures (a * d - c * b) as real / (b * d) as real == a as real / b as real - c as real / d as real
  {
    CastMul(a, d);
    CastMul(c, b);
    CastMul(b, d);
    FracSub(a as real, b as real, c as real, d as real);
  }

  lemma QuotientProduct(a: int, b: int, c: int, d: int)
    requires b != 0 && d != 0
    ensures (a * c) as real / (b * d) as real == (a as real / b as real) * (c as real / d as real)
  {
    CastMul(a, c);
    CastMul(b, d);
    FracMul(a as real, b as real, c as real, d as real);
  }

  lemma QuotientQuotient(a: int, b: int, c: int, d: int)
    requires b != 0 && d != 0 && c != 0
    ensures (a * d) as real / (b * c) as real == (a as real / b as real) / (c as real / d as real)
  {
    CastMul(a, d);
    CastMul(b, c);
    FracDiv(a as real, b as real, c as real, d as real);
  }

  lemma QuotientNegate(a: int, b: int)
    requires b != 0
    ensures (-a) as real / b as real == -(a as real / b as real)
  {
  }

  lemma {:induction false} AddExact(x: Rational, y: Rational)
    requires x.den != 0 && y.den != 0
    ensures IsNormal(Add(x, y))
    ensures Value(Add(x, y)) == Value(x) + Value(y)
  {
    NormalizedIsNormal(x.num * y.den + y.num * x.den, x.den * y.den);
    QuotientSum(x.num, x.den, y.num, y.den);
  }

  lemma {:induction false} SubExact(x: Rational, y: Rational)
    requires x.den != 0 && y.den != 0
    ensures IsNormal(Sub(x, y))
    ensures Value(Sub(x, y)) == Value(x) - Value(y)
  {
    NormalizedIsNormal(x.num * y.den - y.num * x.den, x.den * y.den);
    QuotientDifference(x.num, x.den, y.num, y.den);
  }

  lemma {:induction false} TimesExact(x: Rational, y: Rational)
    requires x.den != 0 && y.den != 0
    ensures IsNormal(Times(x, y))
    ensures Value(Times(x, y)) == Value(x) * Value(y)
  {
    NormalizedIsNormal(x.num * y.num, x.den * y.den);
    QuotientProduct(x.num, x.den, y.num, y.den);
  }

  lemma {:induction false} DivExact(x: Rational, y: Rational)
    requires x.den != 0 && y.den != 0 && y.num != 0
    ensures IsNormal(Div(x, y))
    ensures Value(Div(x, y)) == Value(x) / Value(y)
  {
    NormalizedIsNormal(x.num * y.den, x.den * y.num);
    QuotientQuotient(x.num, x.den, y.num, y.den);
  }

  lemma {:induction false} NegExact(x: Rational)
    requires IsNormal(x)
    ensures Neg(x) == Rational(-x.num, x.den)
  {
    var r := Rational(-x.num, x.den);
    assert Abs(-x.num) == Abs(x.num);
    assert IsNormal(r);
    NormalizedOfNormal(r);
  }

  lemma {:induction false} NegValue(x: Rational)
    requires IsNormal(x)
    ensures IsNormal(Neg(x)) && Value(Neg(x)) == -Value(x)
  {
    NegExact(x);
    assert Abs(-x.num) == Abs(x.num);
    QuotientNegate(x.num, x.den);
    assert Value(Rational(-x.num, x.den)) == -Value(x);
  }

  /** Unary minus is an involution on normal fractions. */
  lemma {:induction false} NegNeg(x: Rational)
    requires IsNormal(x)
    ensures Neg(x).den != 0 && Neg(Neg(x)) == x
  {
    NegExact(x);
    assert Abs(-x.num) == Abs(x.num);
    NegExact(Rational(-x.num, x.den));
  }

  /** operator== on normal fractions coincides with equality of their values. */
  lemma {:induction false} EqIsValueEquality(x: Rational, y: Rational)
    requires IsNormal(x) && IsNormal(y)
    ensures Eq(x, y) <==> Value(x) == Value(y)
  {
    NormalFormCanonical(x, y);
  }

  lemma QuotientReciprocal(u: real, w: real, p: real, q: real)
    requires p != 0.0 && q != 0.0 && u == p / q && w == q / p
    ensures u * w == 1.0
  {
  }

  lemma {:induction false} NonzeroQuotient(x: Rational, y: Rational)
    requires x.den != 0 && y.den != 0 && x.num != 0 && y.num != 0
    ensures Div(x, y).den != 0 && Div(x, y).num != 0 && Value(Div(x, y)) == Value(x) / Value(y)
  {
    DivExact(x, y);
    var v := Value(Div(x, y));
    assert Value(x) != 0.0 && Value(y) != 0.0;
    assert v != 0.0;
  }

  lemma NonzeroValue(x: Rational)
    requires x.den != 0 && x.num != 0
    ensures Value(x) != 0.0
  {
  }

  /** The only normal fraction of value 1 is 1/1. */
  lemma {:induction false} ValueOne(r: Rational)
    requires IsNormal(r) && Value(r) == 1.0
    ensures r == FromInt(1)
  {
        NormalFormCanonical(r, Rational(1, 1));
  }

  lemma {:induction false} ProductOne(p: Rational, q: Rational)
    requires p.den != 0 && q.den != 0 && Value(p) * Value(q) == 1.0
    ensures Times(p, q) == FromInt(1)
  {
    TimesExact(p, q);
    ValueOne(Times(p, q));
  }

  /** (x/y) * (y/x) == 1 for nonzero x and y. */
  lemma {:induction false} DivTimesReciprocal(x: Rational, y: Rational)
    requires x.den != 0 && y.den != 0 && x.num != 0 && y.num != 0
    ensures Div(x, y).den != 0 && Div(y, x).den != 0
    ensures Times(Div(x, y), Div(y, x)) == FromInt(1)
  {
    NonzeroQuotient(x, y);
    NonzeroQuotient(y, x);
    var p, q := Div(x, y), Div(y, x);
    NonzeroValue(x);
    NonzeroValue(y);
    QuotientReciprocal(Value(p), Value(q), Value(x), Value(y));
    ProductOne(p, q);
  }

  /**
   * A variable of type Rational: the members that change a Rational in place
   * (`normalize`, the constructors, `+= -= *= /=`, prefix and postfix `++`
   * and `--`) act on its two fields.
   */
  class MutableRational {
    var a: int
    var b: int

    function Get(): Rational
      reads this
    {
      Rational(a, b)
    }

    /** rational.h `normalize`, in place. */
    method Normalize()
      requires b != 0
      modifies this
      ensures Get() == Normalized(old(a), old(b))
      ensures IsNormal(Get()) && Value(Get()) == old(a) as real / old(b) as real
    {
      NormalizedIsNormal(a, b);
      GcdZero(a, b);
      var g := Gcd(a, b);
      a, b := TruncDiv(a, g), TruncDiv(b, g);
      if b < 0 {
        a, b := -a, -b;
      }
    }

    /** `Rational(num, den)`: store the pair, then normalize it. */
    constructor (num: int, den: int)
      requires den != 0
      ensures IsNormal(Get()) && Get() == Normalized(num, den)
      ensures Value(Get()) == num as real / den as real
    {
      a, b := num, den;
      new;
      Normalize();
    }

    /** `Rational()`: the default arguments give 0/1. */
    constructor Zero()
      ensures Get() == Rational(0, 1) && IsNormal(Get())
    {
      a, b := 0, 1;
      new;
      Normalize();
      NormalizedInteger(0);
    }

    /** `x += y`: the variable becomes x + y, and the new value is returned. */
    method AddAssign(y: Rational) returns (r: Rational)
      requires b != 0 && y.den != 0
      modifies this
      ensures Get() == Add(old(Get()), y) && r == Get()
      ensures IsNormal(r) && Value(r) == Value(old(Get())) + Value(y)
    {
      AddExact(Get(), y);
      r := Add(Get(), y);
      a, b := r.num, r.den;
    }

    /** `x -= y`. */
    method SubAssign(y: Rational) returns (r: Rational)
      requires b != 0 && y.den != 0
      modifies this
      ensures Get() == Sub(old(Get()), y) && r == Get()
      ensures IsNormal(r) && Value(r) == Value(old(Get())) - Value(y)
    {
      SubExact(Get(), y);
      r := Sub(Get(), y);
      a, b := r.num, r.den;
    }

    /** `x *= y`. */
    method MulAssign(y: Rational) returns (r: Rational)
      requires b != 0 && y.den != 0
      modifies this
      ensures Get() == Times(old(Get()), y) && r == Get()
      ensures IsNormal(r) && Value(r) == Value(old(Get())) * Value(y)
    {
      TimesExact(Get(), y);
      r := Times(Get(), y);
      a, b := r.num, r.den;
    }

    /** `x /= y`; y must be nonzero. */
    method DivAssign(y: Rational) returns (r: Rational)
      requires b != 0 && y.den != 0 && y.num != 0
      modifies this
      ensures Get() == Div(old(Get()), y) && r == Get()
      ensures IsNormal(r) && Value(r) == Value(old(Get())) / Value(y)
    {
      DivExact(Get(), y);
      r := Div(Get(), y);
      a, b := r.num, r.den;
    }

    /** Prefix `++x`: add 1 and return the new value. */
    method PreIncrement() returns (r: Rational)
      requires b != 0
      modifies this
      ensures Get() == Add(old(Get()), FromInt(1)) && r == Get()
      ensures IsNormal(r) && Value(r) == Value(old(Get())) + 1.0
    {
      r := AddAssign(FromInt(1));
    }

    /** Postfix `x++`: add 1 and return the old value. */
    method PostIncrement() returns (r: Rational)
      requires b != 0
      modifies this
      ensures Get() == Add(old(Get()), FromInt(1)) && r == old(Get())
      ensures IsNormal(Get()) && Value(Get()) == Value(r) + 1.0
    {
      r := Get();
      var _ := AddAssign(FromInt(1));
    }

    /** Prefix `--x`: subtract 1 and return the new value. */
    method PreDecrement() returns (r: Rational)
      requires b != 0
      modifies this
      ensures Get() == Sub(old(Get()), FromInt(1)) && r == Get()
      ensures IsNormal(r) && Value(r) == Value(old(Get())) - 1.0
    {
      r := SubAssign(FromInt(1));
    }

    /** Postfix `x--`: subtract 1 and return the old value. */
    method PostDecrement() returns (r: Rational)
      requires b != 0
      modifies this
      ensures Get() == Sub(old(Get()), FromInt(1)) && r == old(Get())
      ensures IsNormal(Get()) && Value(Get()) == Value(r) - 1.0
    {
      r := Get();
      var _ := SubAssign(FromInt(1));
    }
  }
}
