/**
 * Dense polynomials over exact coefficients (polynomial.h).
 *
 * A polynomial is its coefficient vector, index = power. The class keeps the
 * vector free of trailing zeros (`ReDegree`), so the zero polynomial is the
 * empty vector. Coefficients are exact rationals, modelled as `real`.
 */
module Polynomials {

  import opened Wrappers

  /** No trailing zero coefficient: the invariant `ReDegree` establishes. */
  predicate IsTrimmed(a: seq<real>)
  {
    |a| == 0 || a[|a| - 1] != 0.0
  }

  /** The vector `ReDegree` leaves: `a` with its trailing zeros popped. */
  function Trim(a: seq<real>): (r: seq<real>)
    ensures IsTrimmed(r)
    ensures r <= a
    ensures forall i :: |r| <= i < |a| ==> a[i] == 0.0
  {
    if |a| == 0 || a[|a| - 1] != 0.0 then a else Trim(a[..|a| - 1])
  }

  /** The const `operator[]`: the stored coefficient, or 0 at or beyond the size. */
  function Coef(a: seq<real>, i: int): (c: real)
    ensures 0 <= i < |a| ==> c == a[i]
    ensures c != 0.0 ==> 0 <= i < |a|
  {
    if 0 <= i < |a| then a[i] else 0.0
  }

  /** `Degree`: size - 1, so -1 for the zero polynomial. */
  function Degree(a: seq<real>): (d: int)
    ensures d >= -1 && d + 1 == |a|
  {
    if |a| == 0 then -1 else |a| - 1
  }

  function Zeros(n: nat): (z: seq<real>)
    ensures |z| == n && forall i :: 0 <= i < n ==> z[i] == 0.0
  {
    seq(n, _ => 0.0)
  }

  function Max(x: nat, y: nat): nat { if x < y then y else x }

  /** Trimming a trimmed vector changes nothing. */
  lemma TrimOfTrimmed(a: seq<real>)
    requires IsTrimmed(a)
    ensures Trim(a) == a
  {
  }

  /** `ReDegree` is idempotent. */
  lemma TrimIdempotent(a: seq<real>)
    ensures Trim(Trim(a)) == Trim(a)
  {
    TrimOfTrimmed(Trim(a));
  }

  /** Trimming keeps every coefficient, as read by the const `operator[]`. */
  lemma TrimCoef(a: seq<real>)
    ensures forall i :: Coef(Trim(a), i) == Coef(a, i)
  {
  }

  lemma LastCoef(a: seq<real>)
    requires |a| > 0
    ensures Coef(a, |a| - 1) == a[|a| - 1]
  {
  }

  /** Two trimmed vectors with the same coefficients everywhere are equal. */
  lemma TrimmedExtensional(a: seq<real>, b: seq<real>)
    requires IsTrimmed(a) && IsTrimmed(b)
    requires forall i: nat :: Coef(a, i) == Coef(b, i)
    ensures a == b
  {
    assert |a| == |b| by {
      if |a| < |b| {
        LastCoef(b);
        assert false;
      } else if |b| < |a| {
        LastCoef(a);
        assert false;
      }
    }
    forall i | 0 <= i < |a| ensures a[i] == b[i] {
      assert Coef(a, i) == Coef(b, i);
    }
  }

  /** Two trimmed vectors are equal exactly when all their coefficients agree. */
  lemma TrimmedEqualIff(a: seq<real>, b: seq<real>)
    requires IsTrimmed(a) && IsTrimmed(b)
    ensures a == b <==> forall i: nat :: Coef(a, i) == Coef(b, i)
  {
    if forall i: nat :: Coef(a, i) == Coef(b, i) {
      TrimmedExtensional(a, b);
    }
  }

  // ---------------------------------------------------------------------------
  // Sum and difference (operator+ and operator-)
  // ---------------------------------------------------------------------------

  /** The buffer operator+ fills before trimming: max(Degree) + 1 slots. */
  function SumBuffer(a: seq<real>, b: seq<real>): seq<real>
  {
    seq(Max(|a|, |b|), i requires 0 <= i < Max(|a|, |b|) => Coef(a, i) + Coef(b, i))
  }

  /** The buffer operator- fills before trimming. */
  function DifferenceBuffer(a: seq<real>, b: seq<real>): seq<real>
  {
    seq(Max(|a|, |b|), i requires 0 <= i < Max(|a|, |b|) => Coef(a, i) - Coef(b, i))
  }

  /** operator+: coefficient-wise sum, trimmed. */
  function Add(a: seq<real>, b: seq<real>): (r: seq<real>)
    ensures IsTrimmed(r)
    ensures forall i :: Coef(r, i) == Coef(a, i) + Coef(b, i)
  {
    TrimCoef(SumBuffer(a, b));
    Trim(SumBuffer(a, b))
  }

  /** operator-: coefficient-wise difference, trimmed. */
  function Sub(a: seq<real>, b: seq<real>): (r: seq<real>)
    ensures IsTrimmed(r)
    ensures forall i :: Coef(r, i) == Coef(a, i) - Coef(b, i)
  {
    TrimCoef(DifferenceBuffer(a, b));
    Trim(DifferenceBuffer(a, b))
  }

  /** Addition is commutative. */
  lemma AddCommutative(a: seq<real>, b: seq<real>)
    ensures Add(a, b) == Add(b, a)
  {
    TrimmedExtensional(Add(a, b), Add(b, a));
  }

  /** Addition is associative. */
  lemma AddAssociative(a: seq<real>, b: seq<real>, c: seq<real>)
    ensures Add(Add(a, b), c) == Add(a, Add(b, c))
  {
    TrimmedExtensional(Add(Add(a, b), c), Add(a, Add(b, c)));
  }

  /** The zero polynomial is neutral for addition (up to trimming). */
  lemma AddZero(a: seq<real>)
    ensures Add(a, []) == Trim(a)
  {
    TrimCoef(a);
    TrimmedExtensional(Add(a, []), Trim(a));
  }

  /** Subtraction undoes addition. */
  lemma SubAfterAdd(a: seq<real>, b: seq<real>)
    ensures Sub(Add(a, b), b) == Trim(a)
  {
    TrimCoef(a);
    TrimmedExtensional(Sub(Add(a, b), b), Trim(a));
  }

  /** A polynomial minus itself is the zero polynomial. */
  lemma SubSelf(a: seq<real>)
    ensures Sub(a, a) == []
  {
    TrimmedExtensional(Sub(a, a), []);
  }

  /** The degree of a sum is at most the larger degree. */
  lemma AddDegree(a: seq<real>, b: seq<real>)
    ensures Degree(Add(a, b)) <= Max(|a|, |b|) - 1
  {
    var r := Add(a, b);
    if |r| > Max(|a|, |b|) {
      LastCoef(r);
      assert false;
    }
  }

  // ---------------------------------------------------------------------------
  // Product (operator*)
  // ---------------------------------------------------------------------------

  /** The first `n` terms of coefficient `k` of a product: sum over i < n of a[i] * b[k - i]. */
  function ConvSum(a: seq<real>, b: seq<real>, k: int, n: nat): real
  {
    if n == 0 then 0.0 else ConvSum(a, b, k, n - 1) + Coef(a, n - 1) * Coef(b, k - (n - 1))
  }

  /** Coefficient `k` of the product of `a` and `b`. */
  function Conv(a: seq<real>, b: seq<real>, k: int): real
  {
    ConvSum(a, b, k, |a|)
  }

  /** The terms of ConvSum vanish when every b-index k - i is out of range. */
  lemma {:induction false} ConvSumVanishes(a: seq<real>, b: seq<real>, k: int, n: nat)
    requires k < 0 || n <= k - |b| + 1
    ensures ConvSum(a, b, k, n) == 0.0
  {
    if n > 0 {
      ConvSumVanishes(a, b, k, n - 1);
    }
  }

  /** The buffer length of the corrected product: |a| + |b| - 1 slots, none for zero times zero. */
  function ProductLength(a: seq<real>, b: seq<real>): nat
  {
    if |a| + |b| == 0 then 0 else |a| + |b| - 1
  }

  /** operator* for non-zero factors, and zero for zero times zero: the convolution, trimmed. */
  function Mul(a: seq<real>, b: seq<real>): (r: seq<real>)
    ensures IsTrimmed(r) && |r| <= ProductLength(a, b)
    ensures forall k :: Coef(r, k) == Conv(a, b, k)
  {
    var n := ProductLength(a, b);
    var raw := seq(n, k requires 0 <= k < n => Conv(a, b, k));
    TrimCoef(raw);
    ConvOutside(a, b);
    Trim(raw)
  }

  /** Coefficients of the product outside 0 .. |a| + |b| - 2 are zero. */
  lemma ConvOutside(a: seq<real>, b: seq<real>)
    ensures forall k :: (k < 0 || k >= ProductLength(a, b)) ==> Conv(a, b, k) == 0.0
  {
    forall k | k < 0 || k >= ProductLength(a, b)
      ensures Conv(a, b, k) == 0.0
    {
      ConvSumVanishes(a, b, k, |a|);
    }
  }

  /** The buffer length operator* asks for as written: Degree(a) + Degree(b) + 1. */
  function ProductBufferAsWritten(a: seq<real>, b: seq<real>): (n: int)
    ensures n < 0 <==> |a| == 0 && |b| == 0
    ensures n >= 0 ==> n == ProductLength(a, b)
  {
    Degree(a) + Degree(b) + 1
  }

  /**
   * operator* as written: the vector constructor throws when the length
   * is negative (it becomes the largest size_t). Modelled as None.
   */
  function MulAsWritten(a: seq<real>, b: seq<real>): (r: Option<seq<real>>)
    ensures r.None? <==> |a| == 0 && |b| == 0
    ensures r.Some? ==> r.value == Mul(a, b)
  {
    if ProductBufferAsWritten(a, b) < 0 then None else Some(Mul(a, b))
  }

  /** The zero polynomial times itself fails as written; the corrected product is zero. */
  lemma ZeroTimesZero()
    ensures ProductBufferAsWritten([], []) == -1
    ensures MulAsWritten([], []) == None
    ensures Mul([], []) == []
  {
  }

  lemma {:induction false} ConvSumZeroRight(a: seq<real>, b: seq<real>, k: int, n: nat)
    requires forall i :: Coef(b, i) == 0.0
    ensures ConvSum(a, b, k, n) == 0.0
  {
    if n > 0 {
      ConvSumZeroRight(a, b, k, n - 1);
    }
  }

  lemma MulZero(a: seq<real>)
    ensures Mul(a, []) == [] && Mul([], a) == []
  {
    forall k ensures Conv([], a, k) == 0.0 {
    }
    forall k ensures Conv(a, [], k) == 0.0 {
      ConvSumZeroRight(a, [], k, |a|);
    }
    TrimmedExtensional(Mul(a, []), []);
    TrimmedExtensional(Mul([], a), []);
  }

  /** The leading coefficient of a product is the product of the leading coefficients. */
  lemma LeadingConv(a: seq<real>, b: seq<real>)
    requires |a| > 0 && |b| > 0
    ensures Conv(a, b, |a| + |b| - 2) == a[|a| - 1] * b[|b| - 1]
  {
    ConvSumVanishes(a, b, |a| + |b| - 2, |a| - 1);
  }

  /** deg(a * b) = deg a + deg b for non-zero trimmed factors. */
  lemma MulDegree(a: seq<real>, b: seq<real>)
    requires IsTrimmed(a) && IsTrimmed(b) && |a| > 0 && |b| > 0
    ensures Degree(Mul(a, b)) == Degree(a) + Degree(b)
  {
    var r := Mul(a, b);
    var k := |a| + |b| - 2;
    LeadingConv(a, b);
    NonzeroProduct(a[|a| - 1], b[|b| - 1]);
    assert Coef(r, k) != 0.0;
    ConvOutside(a, b);
    if |r| > k + 1 {
      LastCoef(r);
      assert false;
    }
  }

  lemma NonzeroProduct(x: real, y: real)
    requires x != 0.0 && y != 0.0
    ensures x * y != 0.0
  {
  }

  /** Peeling the constant term of `a` off a product coefficient. */
  lemma {:induction false} ConvSumFront(a: seq<real>, b: seq<real>, k: int, n: nat)
    requires 0 < |a| && n < |a|
    ensures ConvSum(a, b, k, n + 1) == a[0] * Coef(b, k) + ConvSum(a[1..], b, k - 1, n)
  {
    if n > 0 {
      ConvSumFront(a, b, k, n - 1);
      assert Coef(a[1..], n - 1) == Coef(a, n);
    }
  }

  /** A product coefficient splits as a[0] * b[k] plus coefficient k - 1 of a[1..] * b. */
  lemma ConvFront(a: seq<real>, b: seq<real>)
    requires 0 < |a|
    ensures forall k :: Conv(a, b, k) == a[0] * Coef(b, k) + Conv(a[1..], b, k - 1)
  {
    forall k ensures Conv(a, b, k) == a[0] * Coef(b, k) + Conv(a[1..], b, k - 1) {
      ConvSumFront(a, b, k, |a| - 1);
    }
  }

  /** ConvSum is additive in its left factor. */
  lemma {:induction false} ConvSumAdditive(s: seq<real>, a: seq<real>, b: seq<real>, c: seq<real>, k: int, n: nat)
    requires forall i :: Coef(s, i) == Coef(a, i) + Coef(b, i)
    ensures ConvSum(s, c, k, n) == ConvSum(a, c, k, n) + ConvSum(b, c, k, n)
  {
    if n > 0 {
      ConvSumAdditive(s, a, b, c, k, n - 1);
      RightDistributes(Coef(a, n - 1), Coef(b, n - 1), Coef(c, k - (n - 1)));
    }
  }

  lemma RightDistributes(x: real, y: real, z: real)
    ensures (x + y) * z == x * z + y * z
  {
  }

  /** Summing past the last coefficient adds nothing. */
  lemma {:induction false} ConvSumExtend(a: seq<real>, b: seq<real>, k: int, n: nat)
    requires n >= |a|
    ensures ConvSum(a, b, k, n) == Conv(a, b, k)
  {
    if n > |a| {
      ConvSumExtend(a, b, k, n - 1);
    }
  }

  /** Multiplication distributes over addition: (a + b) * c = a * c + b * c. */
  lemma MulDistributes(a: seq<real>, b: seq<real>, c: seq<real>)
    ensures Mul(Add(a, b), c) == Add(Mul(a, c), Mul(b, c))
  {
    var s := Add(a, b);
    var l, r := Mul(s, c), Add(Mul(a, c), Mul(b, c));
    forall k ensures Coef(l, k) == Coef(r, k) {
      ConvAdditive(s, a, b, c, k);
    }
    TrimmedExtensional(l, r);
  }

  /** A product coefficient is additive in the left factor. */
  lemma ConvAdditive(s: seq<real>, a: seq<real>, b: seq<real>, c: seq<real>, k: int)
    requires forall i :: Coef(s, i) == Coef(a, i) + Coef(b, i)
    ensures Conv(s, c, k) == Conv(a, c, k) + Conv(b, c, k)
  {
    var n := |a| + |b| + |s|;
    ConvSumAdditive(s, a, b, c, k, n);
    ConvSumExtend(s, c, k, n);
    ConvSumExtend(a, c, k, n);
    ConvSumExtend(b, c, k, n);
  }

  /** Peeling the constant term of the right factor off the first n terms of a product coefficient. */
  lemma {:induction false} ConvSumBack(b: seq<real>, a: seq<real>, k: int, n: nat)
    requires 0 < |a|
    ensures ConvSum(b, a, k, n) == (if 0 <= k < n then Coef(b, k) * a[0] else 0.0) + ConvSum(b, a[1..], k - 1, n)
  {
    if n > 0 {
      ConvSumBack(b, a, k, n - 1);
      var j := k - (n - 1);
      if j >= 1 {
        assert Coef(a, j) == Coef(a[1..], j - 1);
      }
    }
  }

  /** A product coefficient splits as b[k] * a[0] plus coefficient k - 1 of b * a[1..]. */
  lemma ConvBack(b: seq<real>, a: seq<real>, k: int)
    requires 0 < |a|
    ensures Conv(b, a, k) == Coef(b, k) * a[0] + Conv(b, a[1..], k - 1)
  {
    ConvSumBack(b, a, k, |b|);
  }

  /** The coefficients of a * b and b * a agree. */
  lemma {:induction false} ConvCommutative(a: seq<real>, b: seq<real>, k: int)
    ensures Conv(a, b, k) == Conv(b, a, k)
    decreases |a|
  {
    if |a| == 0 {
      ConvSumZeroRight(b, a, k, |b|);
    } else {
      ConvFront(a, b);
      ConvBack(b, a, k);
      ConvCommutative(a[1..], b, k - 1);
    }
  }

  /** Multiplication is commutative: a * b = b * a. */
  lemma MulCommutative(a: seq<real>, b: seq<real>)
    ensures Mul(a, b) == Mul(b, a)
  {
    forall k: nat ensures Coef(Mul(a, b), k) == Coef(Mul(b, a), k) {
      ConvCommutative(a, b, k);
    }
    TrimmedExtensional(Mul(a, b), Mul(b, a));
  }

  /** Every coefficient of b multiplied by x. */
  function Scale(x: real, b: seq<real>): (r: seq<real>)
    ensures |r| == |b| && forall i :: Coef(r, i) == x * Coef(b, i)
  {
    seq(|b|, i requires 0 <= i < |b| => x * b[i])
  }

  lemma {:induction false} ConvSumScale(x: real, b: seq<real>, c: seq<real>, k: int, n: nat)
    ensures ConvSum(Scale(x, b), c, k, n) == x * ConvSum(b, c, k, n)
  {
    if n > 0 {
      ConvSumScale(x, b, c, k, n - 1);
    }
  }

  /** w raised by one power: [0] + w. */
  function Raise(w: seq<real>): (r: seq<real>)
    ensures |r| == |w| + 1 && forall i :: Coef(r, i) == Coef(w, i - 1)
  {
    [0.0] + w
  }

  /** A product with a raised left factor: Raise(w) * c has coefficient k - 1 of w * c at k. */
  lemma ConvRaise(w: seq<real>, c: seq<real>, k: int)
    ensures Conv(Raise(w), c, k) == Conv(w, c, k - 1)
  {
    var v := Raise(w);
    assert v[1..] == w;
    ConvSumFront(v, c, k, |w|);
  }

  /** Coefficient i of a product ab of a and b is that of a[0] b plus that of w, the product of a[1..] and b, raised by one power. */
  lemma ProductFrontAt(a: seq<real>, b: seq<real>, ab: seq<real>, w: seq<real>, i: int)
    requires 0 < |a| && Coef(ab, i) == Conv(a, b, i) && Coef(w, i - 1) == Conv(a[1..], b, i - 1)
    ensures Coef(ab, i) == Coef(Scale(a[0], b), i) + Coef(Raise(w), i)
  {
    ConvSumFront(a, b, i, |a| - 1);
  }

  /** Coefficient k of ab * c split along ab = a[0] b + Raise(w). */
  lemma ConvProductFront(a: seq<real>, b: seq<real>, c: seq<real>, ab: seq<real>, w: seq<real>, k: int)
    requires 0 < |a|
    requires forall i :: Coef(ab, i) == Conv(a, b, i)
    requires forall i :: Coef(w, i) == Conv(a[1..], b, i)
    ensures Conv(ab, c, k) == Conv(Scale(a[0], b), c, k) + Conv(Raise(w), c, k)
  {
    forall i ensures Coef(ab, i) == Coef(Scale(a[0], b), i) + Coef(Raise(w), i) {
      ProductFrontAt(a, b, ab, w, i);
    }
    ConvAdditive(ab, Scale(a[0], b), Raise(w), c, k);
  }

  /** The coefficients of (a * b) * c and a * (b * c) agree. */
  lemma {:induction false} ConvAssociative(a: seq<real>, b: seq<real>, c: seq<real>, k: int)
    ensures Conv(Mul(a, b), c, k) == Conv(a, Mul(b, c), k)
    decreases |a|
  {
    if |a| == 0 {
      MulZero(b);
    } else {
      ConvAssociative(a[1..], b, c, k - 1);
      ConvAssociativeStep(a, b, c, Mul(a, b), Mul(b, c), Mul(a[1..], b), k);
    }
  }

  /** The induction step, for ab, bc and w with the coefficients of a * b, b * c and a[1..] * b: peel a[0] off both sides. */
  lemma ConvAssociativeStep(a: seq<real>, b: seq<real>, c: seq<real>, ab: seq<real>, bc: seq<real>, w: seq<real>, k: int)
    requires 0 < |a|
    requires forall i :: Coef(ab, i) == Conv(a, b, i)
    requires forall i :: Coef(bc, i) == Conv(b, c, i)
    requires forall i :: Coef(w, i) == Conv(a[1..], b, i)
    requires Conv(w, c, k - 1) == Conv(a[1..], bc, k - 1)
    ensures Conv(ab, c, k) == Conv(a, bc, k)
  {
    ConvProductFront(a, b, c, ab, w, k);
    ConvScale(a[0], b, c, k);
    ConvRaise(w, c, k);
    ConvSumFront(a, bc, k, |a| - 1);
    assert Coef(bc, k) == Conv(b, c, k);
  }

  /** Scaling the left factor scales the product coefficient. */
  lemma ConvScale(x: real, b: seq<real>, c: seq<real>, k: int)
    ensures Conv(Scale(x, b), c, k) == x * Conv(b, c, k)
  {
    ConvSumScale(x, b, c, k, |b|);
  }

  /** Multiplication is associative: (a * b) * c = a * (b * c). */
  lemma MulAssociative(a: seq<real>, b: seq<real>, c: seq<real>)
    ensures Mul(Mul(a, b), c) == Mul(a, Mul(b, c))
  {
    forall k: nat ensures Coef(Mul(Mul(a, b), c), k) == Coef(Mul(a, Mul(b, c)), k) {
      ConvAssociative(a, b, c, k);
    }
    TrimmedExtensional(Mul(Mul(a, b), c), Mul(a, Mul(b, c)));
  }

  /** Multiplication distributes over addition on the left too: c * (a + b) = c * a + c * b. */
  lemma MulDistributesLeft(a: seq<real>, b: seq<real>, c: seq<real>)
    ensures Mul(c, Add(a, b)) == Add(Mul(c, a), Mul(c, b))
  {
    MulCommutative(c, Add(a, b));
    MulCommutative(c, a);
    MulCommutative(c, b);
    MulDistributes(a, b, c);
  }

  /** The constant polynomial 1 is a unit of the product: 1 * a and a * 1 are a, trimmed. */
  /** The constant 1 picks out coefficient k unchanged. */
  lemma ConvOne(a: seq<real>, k: int)
    ensures Conv([1.0], a, k) == Coef(a, k)
  {
    assert Conv([1.0], a, k) == ConvSum([1.0], a, k, 0) + Coef([1.0], 0) * Coef(a, k);
  }

  /** 1 is a two-sided unit of `*`: multiplying by it only trims. */
  lemma MulOne(a: seq<real>)
    ensures Mul([1.0], a) == Trim(a) && Mul(a, [1.0]) == Trim(a)
  {
    var r := Mul([1.0], a);
    forall k: nat ensures Coef(r, k) == Coef(Trim(a), k) {
      ConvOne(a, k);
    }
    TrimCoef(a);
    TrimmedExtensional(r, Trim(a));
    MulCommutative(a, [1.0]);
  }

  // ---------------------------------------------------------------------------
  // Evaluation (operator())
  // ---------------------------------------------------------------------------

  function Pow(x: real, n: nat): real
  {
    if n == 0 then 1.0 else Pow(x, n - 1) * x
  }

  /** Sum over i < n of coefficient i times x^i: what operator() has accumulated after n steps. */
  function EvalSum(a: seq<real>, x: real, n: nat): real
  {
    if n == 0 then 0.0 else EvalSum(a, x, n - 1) + Coef(a, n - 1) * Pow(x, n - 1)
  }

  /** The value of the polynomial at x: the sum of a[i] * x^i. */
  function Eval(a: seq<real>, x: real): real
  {
    EvalSum(a, x, |a|)
  }

  /** Summing past the last coefficient adds nothing. */
  lemma {:induction false} EvalSumExtend(a: seq<real>, x: real, n: nat)
    requires n >= |a|
    ensures EvalSum(a, x, n) == Eval(a, x)
  {
    if n > |a| {
      EvalSumExtend(a, x, n - 1);
    }
  }

  /** Evaluation depends only on the coefficients. */
  lemma {:induction false} EvalSumCongruent(a: seq<real>, b: seq<real>, x: real, n: nat)
    requires forall i :: Coef(a, i) == Coef(b, i)
    ensures EvalSum(a, x, n) == EvalSum(b, x, n)
  {
    if n > 0 {
      EvalSumCongruent(a, b, x, n - 1);
    }
  }

  /** Trailing zeros do not change the value: evaluation is invariant under ReDegree. */
  lemma EvalTrim(a: seq<real>, x: real)
    ensures Eval(Trim(a), x) == Eval(a, x)
  {
    TrimCoef(a);
    EvalSumCongruent(Trim(a), a, x, |a|);
    EvalSumExtend(Trim(a), x, |a|);
  }

  /** At x = 0 the value is the constant term, 0 for the zero polynomial. */
  lemma EvalAtZero(a: seq<real>)
    ensures Eval(a, 0.0) == Coef(a, 0)
  {
    EvalSumAtZero(a, |a|);
  }

  lemma {:induction false} EvalSumAtZero(a: seq<real>, n: nat)
    ensures EvalSum(a, 0.0, n) == if n == 0 then 0.0 else Coef(a, 0)
  {
    if n > 1 {
      EvalSumAtZero(a, n - 1);
      PowZero(n - 1);
    }
  }

  lemma PowZero(n: nat)
    requires n > 0
    ensures Pow(0.0, n) == 0.0
  {
  }

  /** Evaluation is additive in the coefficients. */
  lemma {:induction false} EvalSumAdditive(s: seq<real>, a: seq<real>, b: seq<real>, x: real, n: nat)
    requires forall i :: Coef(s, i) == Coef(a, i) + Coef(b, i)
    ensures EvalSum(s, x, n) == EvalSum(a, x, n) + EvalSum(b, x, n)
  {
    if n > 0 {
      EvalSumAdditive(s, a, b, x, n - 1);
      RightDistributes(Coef(a, n - 1), Coef(b, n - 1), Pow(x, n - 1));
    }
  }

  /** Evaluation turns the sum into the sum of the values. */
  lemma EvalAdd(a: seq<real>, b: seq<real>, x: real)
    ensures Eval(Add(a, b), x) == Eval(a, x) + Eval(b, x)
  {
    var n := |a| + |b| + |Add(a, b)|;
    EvalSumAdditive(Add(a, b), a, b, x, n);
    EvalSumExtend(Add(a, b), x, n);
    EvalSumExtend(a, x, n);
    EvalSumExtend(b, x, n);
  }

  /** Evaluation turns the difference into the difference of the values. */
  lemma EvalSub(a: seq<real>, b: seq<real>, x: real)
    ensures Eval(Sub(a, b), x) == Eval(a, x) - Eval(b, x)
  {
    var d := Sub(a, b);
    var n := |a| + |b| + |d|;
    EvalSumAdditive(a, d, b, x, n);
    EvalSumExtend(d, x, n);
    EvalSumExtend(a, x, n);
    EvalSumExtend(b, x, n);
  }

  // ---------------------------------------------------------------------------
  // Normalize
  // ---------------------------------------------------------------------------

  /** What Normalize leaves: every coefficient divided by the leading one, when that is nonzero. */
  function Monic(a: seq<real>): (r: seq<real>)
    ensures |r| == |a|
  {
    if |a| > 0 && a[|a| - 1] != 0.0 then seq(|a|, i requires 0 <= i < |a| => a[i] / a[|a| - 1]) else a
  }

  /** A nonzero polynomial becomes monic and stays trimmed; its coefficients are scaled by one constant. */
  lemma MonicLeading(a: seq<real>)
    requires IsTrimmed(a) && |a| > 0
    ensures IsTrimmed(Monic(a)) && |Monic(a)| == |a|
    ensures Monic(a)[|a| - 1] == 1.0
    ensures forall i :: 0 <= i < |a| ==> Monic(a)[i] * a[|a| - 1] == a[i]
  {
  }

  /** Normalizing twice is normalizing once. */
  lemma MonicIdempotent(a: seq<real>)
    ensures Monic(Monic(a)) == Monic(a)
  {
    if |a| > 0 && a[|a| - 1] != 0.0 {
      var m := Monic(a);
      assert m[|m| - 1] == 1.0;
      assert Monic(m) == m;
    }
  }

  /** The zero polynomial is left alone. */
  lemma MonicZero()
    ensures Monic([]) == []
  {
  }

  // ---------------------------------------------------------------------------
  // The class
  // ---------------------------------------------------------------------------

  class Polynomial {
    /** Coefficient of x^i at index i. */
    var a: seq<real>

    /** The invariant every constructor and operator establishes: no trailing zero. */
    ghost predicate Valid()
      reads this
    {
      IsTrimmed(a)
    }

    /** Polynomial(const std::vector<T>&): copy, then ReDegree. */
    constructor (v: seq<real>)
      ensures a == Trim(v) && Valid()
    {
      a := v;
      new;
      ReDegree();
    }

    /** Polynomial(const T& = T()): the constant polynomial, the zero polynomial for 0. */
    constructor Constant(c: real)
      ensures a == (if c == 0.0 then [] else [c]) && Valid()
    {
      a := [c];
      new;
      ReDegree();
    }

    /** Polynomial(l, r): push the range back element by element, then ReDegree. */
    constructor FromRange(s: seq<real>)
      ensures a == Trim(s) && Valid()
    {
      a := [];
      new;
      var i := 0;
      while i < |s|
        invariant 0 <= i <= |s| && a == s[..i]
      {
        a := a + [s[i]];
        i := i + 1;
      }
      ReDegree();
    }

    /** ReDegree: pop zeros off the back while there are any. */
    method ReDegree()
      modifies this
      ensures a == Trim(old(a)) && Valid()
    {
      while |a| > 0 && a[|a| - 1] == 0.0
        invariant Trim(a) == Trim(old(a))
        decreases |a|
      {
        a := a[..|a| - 1];
      }
    }

    /**
     * The non-const operator[]: grows the buffer with zeros up to index i and
     * writes v there. This may leave a trailing zero behind.
     */
    method Set(i: nat, v: real)
      modifies this
      ensures |a| == Max(|old(a)|, i + 1) && a[i] == v
      ensures forall k :: 0 <= k < |a| && k != i ==> a[k] == Coef(old(a), k)
    {
      if i >= |a| {
        a := a + Zeros(i + 1 - |a|);
      }
      a := a[i := v];
    }

    /** operator(): accumulate coefficient i times a running power of x. */
    method Evaluate(x: real) returns (r: real)
      ensures r == Eval(a, x)
    {
      var ans, pow := 0.0, 1.0;
      var i := 0;
      while i != |a|
        invariant 0 <= i <= |a|
        invariant ans == EvalSum(a, x, i) && pow == Pow(x, i)
      {
        ans := ans + Coef(a, i) * pow;
        pow := pow * x;
        i := i + 1;
      }
      r := ans;
    }

    /** Normalize: divide every coefficient by the leading one, if there is a nonzero one. */
    method Normalize()
      modifies this
      ensures a == Monic(old(a))
      ensures old(Valid()) ==> Valid()
    {
      if |a| > 0 && a[|a| - 1] != 0.0 {
        var k := a[|a| - 1];
        ghost var a0 := a;
        var i := 0;
        while i <= |a| - 1
          invariant 0 <= i <= |a| == |a0| && k == a0[|a0| - 1]
          invariant forall j :: 0 <= j < i ==> a[j] == a0[j] / k
          invariant forall j :: i <= j < |a| ==> a[j] == a0[j]
        {
          a := a[i := a[i] / k];
          i := i + 1;
        }
      }
    }

    /** operator==: the coefficient vectors are equal, which for valid polynomials means the same polynomial. */
    function Equals(other: Polynomial): (b: bool)
      reads this, other
      ensures Valid() && other.Valid() ==> (b <==> forall i: nat :: Coef(a, i) == Coef(other.a, i))
    {
      if IsTrimmed(a) && IsTrimmed(other.a) then
        TrimmedEqualIff(a, other.a);
        a == other.a
      else
        a == other.a
    }

    /** operator+=: a = a + b. */
    method AddAssign(q: Polynomial)
      modifies this
      ensures a == Add(old(a), old(q.a)) && Valid()
    {
      var r := Plus(this, q);
      a := r.a;
    }

    /** operator-=: a = a - b. */
    method SubAssign(q: Polynomial)
      modifies this
      ensures a == Sub(old(a), old(q.a)) && Valid()
    {
      var r := Minus(this, q);
      a := r.a;
    }

    /** operator*=: a = a * b. */
    method MulAssign(q: Polynomial)
      modifies this
      ensures a == Mul(old(a), old(q.a)) && Valid()
    {
      var r := Times(this, q);
      a := r.a;
    }
  }

  /** max(Degree(a), Degree(b)) + 1, the buffer length of operator+ and operator-. */
  function SumLength(a: seq<real>, b: seq<real>): (n: int)
    ensures n == Max(|a|, |b|)
  {
    (if Degree(a) < Degree(b) then Degree(b) else Degree(a)) + 1
  }

  /** operator+: fill the buffer coefficient by coefficient, then trim. */
  method Plus(p: Polynomial, q: Polynomial) returns (r: Polynomial)
    ensures fresh(r) && r.a == Add(p.a, q.a) && r.Valid()
  {
    var n := SumLength(p.a, q.a);
    var ans := Zeros(n);
    var i := 0;
    while i != n
      invariant 0 <= i <= n == |ans|
      invariant forall j :: 0 <= j < i ==> ans[j] == Coef(p.a, j) + Coef(q.a, j)
    {
      if |p.a| <= i {
        ans := ans[i := Coef(q.a, i)];
      } else if |q.a| <= i {
        ans := ans[i := Coef(p.a, i)];
      } else {
        ans := ans[i := Coef(p.a, i) + Coef(q.a, i)];
      }
      i := i + 1;
    }
    assert ans == SumBuffer(p.a, q.a);
    r := new Polynomial(ans);
    r.ReDegree();
  }

  /** operator-: fill the buffer coefficient by coefficient, then trim. */
  method Minus(p: Polynomial, q: Polynomial) returns (r: Polynomial)
    ensures fresh(r) && r.a == Sub(p.a, q.a) && r.Valid()
  {
    var n := SumLength(p.a, q.a);
    var ans := Zeros(n);
    var i := 0;
    while i != n
      invariant 0 <= i <= n == |ans|
      invariant forall j :: 0 <= j < i ==> ans[j] == Coef(p.a, j) - Coef(q.a, j)
    {
      if |p.a| <= i {
        ans := ans[i := -Coef(q.a, i)];
      } else if |q.a| <= i {
        ans := ans[i := Coef(p.a, i)];
      } else {
        ans := ans[i := Coef(p.a, i) - Coef(q.a, i)];
      }
      i := i + 1;
    }
    assert ans == DifferenceBuffer(p.a, q.a);
    r := new Polynomial(ans);
    r.ReDegree();
  }

  /**
   * operator*: accumulate a[i] * b[j] into slot i + j. The buffer has
   * Degree(a) + Degree(b) + 1 slots; for zero times zero that is -1, and the
   * model allocates none, giving the zero polynomial.
   */
  method Times(p: Polynomial, q: Polynomial) returns (r: Polynomial)
    ensures fresh(r) && r.a == Mul(p.a, q.a) && r.Valid()
  {
    var len := ProductBufferAsWritten(p.a, q.a);
    if len < 0 {
      len := 0;
    }
    var ans := Zeros(len);
    var i := 0;
    while i != |p.a|
      invariant 0 <= i <= |p.a| && |ans| == len == ProductLength(p.a, q.a)
      invariant forall k :: 0 <= k < len ==> ans[k] == ConvSum(p.a, q.a, k, i)
    {
      var j := 0;
      while j != |q.a|
        invariant 0 <= j <= |q.a| && |ans| == len
        invariant forall k :: 0 <= k < len ==>
          ans[k] == ConvSum(p.a, q.a, k, i) + (if i <= k < i + j then p.a[i] * q.a[k - i] else 0.0)
      {
        ans := ans[i + j := ans[i + j] + p.a[i] * q.a[j]];
        j := j + 1;
      }
      i := i + 1;
    }
    r := new Polynomial(ans);
    r.ReDegree();
    ConvOutside(p.a, q.a);
    TrimCoef(ans);
    TrimmedExtensional(r.a, Mul(p.a, q.a));
  }
}
