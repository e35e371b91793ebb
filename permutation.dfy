/**
 * Permutations of {0, ..., n - 1} (permutation.h), used by the Leibniz
 * determinant. A permutation is stored as the sequence of its images.
 */
module Permutations {

  import opened Wrappers

  // ---------------------------------------------------------------------------
  // Basic notions
  // ---------------------------------------------------------------------------

  /** Every entry is a valid position. */
  predicate InRange(s: seq<int>)
  {
    forall i :: 0 <= i < |s| ==> 0 <= s[i] < |s|
  }

  /** No entry occurs twice. */
  predicate Distinct(s: seq<int>)
  {
    forall i, j :: 0 <= i < j < |s| ==> s[i] != s[j]
  }

  /** A bijection on {0, ..., |s| - 1}: the invariant of class Permutation. */
  predicate IsPermutation(s: seq<int>)
  {
    InRange(s) && Distinct(s)
  }

  /** Permutation(size_t n): p[i] = i. */
  function Identity(n: nat): (r: seq<int>)
    ensures |r| == n && InRange(r)
  {
    seq(n, i requires 0 <= i < n => i)
  }

  /** The size constructor yields a permutation. */
  lemma IdentityIsPermutation(n: nat)
    ensures IsPermutation(Identity(n))
  {
  }

  /** Permutation(const std::vector<int>&): the input is 1-based, the stored form 0-based. */
  function FromOneBased(v: seq<int>): (r: seq<int>)
    ensures |r| == |v| && forall i :: 0 <= i < |v| ==> r[i] + 1 == v[i]
  {
    seq(|v|, i requires 0 <= i < |v| => v[i] - 1)
  }

  /** A 1-based arrangement of 1..n becomes a permutation. */
  lemma FromOneBasedIsPermutation(v: seq<int>)
    requires forall i :: 0 <= i < |v| ==> 1 <= v[i] <= |v|
    requires Distinct(v)
    ensures IsPermutation(FromOneBased(v))
  {
  }

  /** operator*: (a * b)[i] = a[b[i]]. */
  function Compose(a: seq<int>, b: seq<int>): (r: seq<int>)
    requires |b| == |a| && InRange(b)
    ensures |r| == |a|
  {
    seq(|a|, i requires 0 <= i < |a| => a[b[i]])
  }

  /** The composition of two permutations of the same size is a permutation. */
  lemma ComposePermutation(a: seq<int>, b: seq<int>)
    requires IsPermutation(a) && IsPermutation(b) && |a| == |b|
    ensures IsPermutation(Compose(a, b))
  {
    var c := Compose(a, b);
    forall i, j | 0 <= i < j < |c| ensures c[i] != c[j] {
      assert b[i] != b[j];
      if b[i] < b[j] {
        assert a[b[i]] != a[b[j]];
      } else {
        assert a[b[j]] != a[b[i]];
      }
    }
  }

  /** Composition is associative. */
  lemma ComposeAssociative(a: seq<int>, b: seq<int>, c: seq<int>)
    requires |a| == |b| == |c| && InRange(b) && InRange(c)
    ensures InRange(Compose(b, c))
    ensures Compose(Compose(a, b), c) == Compose(a, Compose(b, c))
  {
  }

  /** The identity is neutral on both sides. */
  lemma ComposeIdentity(a: seq<int>)
    requires InRange(a)
    ensures Compose(a, Identity(|a|)) == a
    ensures Compose(Identity(|a|), a) == a
  {
  }

  // ---------------------------------------------------------------------------
  // Pigeonhole: a permutation is onto
  // ---------------------------------------------------------------------------

  function Image(s: seq<int>, k: nat): set<int>
    requires k <= |s|
  {
    set x | x in s[..k]
  }

  function Below(k: nat): set<int>
  {
    set x | x in Identity(k)
  }

  lemma {:induction false} ImageSize(s: seq<int>, k: nat)
    requires Distinct(s) && k <= |s|
    ensures |Image(s, k)| == k
  {
    if k > 0 {
      ImageSize(s, k - 1);
      assert s[..k] == s[..k - 1] + [s[k - 1]];
      assert Image(s, k) == Image(s, k - 1) + {s[k - 1]};
      assert s[k - 1] !in Image(s, k - 1);
    }
  }

  lemma {:induction false} BelowSize(k: nat)
    ensures |Below(k)| == k
  {
    if k > 0 {
      BelowSize(k - 1);
      assert Identity(k) == Identity(k - 1) + [k - 1];
      assert Below(k) == Below(k - 1) + {k - 1};
      assert k - 1 !in Below(k - 1);
    }
  }

  /** Every value 0 <= v < |s| is taken by a permutation. */
  lemma Onto(s: seq<int>, v: int)
    requires IsPermutation(s) && 0 <= v < |s|
    ensures exists i :: 0 <= i < |s| && s[i] == v
  {
    var img, all := Image(s, |s|), Below(|s|);
    ImageSize(s, |s|);
    BelowSize(|s|);
    assert s[..|s|] == s;
    assert img <= all by {
      forall x | x in img ensures x in all {
        var i :| 0 <= i < |s| && s[i] == x;
        assert Identity(|s|)[x] == x;
      }
    }
    if v !in img {
      assert Identity(|s|)[v] == v;
      assert img <= all - {v};
      assert |all - {v}| == |s| - 1;
      SubsetSize(img, all - {v});
      assert false;
    }
  }

  lemma SubsetSize(a: set<int>, b: set<int>)
    requires a <= b
    ensures |a| <= |b|
  {
    assert b == a + (b - a);
  }

  // ---------------------------------------------------------------------------
  // Inverse and powers
  // ---------------------------------------------------------------------------

  /** The first position holding v, or -1 when v does not occur. */
  function IndexOf(s: seq<int>, v: int): (i: int)
    ensures -1 <= i < |s|
    ensures 0 <= i ==> s[i] == v && forall j :: 0 <= j < i ==> s[j] != v
    ensures i == -1 <==> v !in s
  {
    if |s| == 0 then -1
    else if s[0] == v then 0
    else
      var j := IndexOf(s[1..], v);
      if j < 0 then -1 else j + 1
  }

  /** operator^(-1): position v of the inverse holds the index at which s takes the value v. */
  function Inverse(s: seq<int>): (r: seq<int>)
    requires IsPermutation(s)
    ensures |r| == |s| && InRange(r)
  {
    var r := seq(|s|, v requires 0 <= v < |s| => IndexOf(s, v));
    assert InRange(r) by {
      forall v | 0 <= v < |s| ensures 0 <= r[v] {
        Onto(s, v);
      }
    }
    r
  }

  /** The inverse of a permutation is a permutation that undoes it. */
  lemma InverseIsPermutation(s: seq<int>)
    requires IsPermutation(s)
    ensures IsPermutation(Inverse(s))
    ensures forall i :: 0 <= i < |s| ==> Inverse(s)[s[i]] == i
  {
    var r := Inverse(s);
    forall i | 0 <= i < |s| ensures r[s[i]] == i {
      assert r[s[i]] == IndexOf(s, s[i]);
    }
    forall v, w | 0 <= v < w < |s| ensures r[v] != r[w] {
      assert s[r[v]] == v && s[r[w]] == w;
    }
  }

  /** Any sequence that undoes s is its inverse: that is what the inverse loop computes. */
  lemma InverseUnique(s: seq<int>, r: seq<int>)
    requires IsPermutation(s) && |r| == |s|
    requires forall i :: 0 <= i < |s| ==> r[s[i]] == i
    ensures r == Inverse(s)
  {
    InverseIsPermutation(s);
    forall v | 0 <= v < |s| ensures r[v] == Inverse(s)[v] {
      Onto(s, v);
    }
  }

  /** p^-1 * p is the identity. */
  lemma InverseLeft(s: seq<int>)
    requires IsPermutation(s)
    ensures InRange(Inverse(s))
    ensures Compose(Inverse(s), s) == Identity(|s|)
  {
    InverseIsPermutation(s);
  }

  /** p * p^-1 is the identity. */
  lemma InverseRight(s: seq<int>)
    requires IsPermutation(s)
    ensures InRange(Inverse(s))
    ensures Compose(s, Inverse(s)) == Identity(|s|)
  {
    InverseIsPermutation(s);
    forall v | 0 <= v < |s| ensures s[Inverse(s)[v]] == v {
      Onto(s, v);
    }
  }

  /** k-fold composition p * p * ... * p, the identity for k = 0. */
  function Iterate(s: seq<int>, k: nat): (r: seq<int>)
    requires InRange(s)
    ensures |r| == |s| && InRange(r)
  {
    if k == 0 then Identity(|s|) else Compose(Iterate(s, k - 1), s)
  }

  /** Powers of a permutation are permutations. */
  lemma {:induction false} IteratePermutation(s: seq<int>, k: nat)
    requires IsPermutation(s)
    ensures IsPermutation(Iterate(s, k))
  {
    if k == 0 {
      IdentityIsPermutation(|s|);
    } else {
      IteratePermutation(s, k - 1);
      ComposePermutation(Iterate(s, k - 1), s);
    }
  }

  lemma {:induction false} IterateAddAt(s: seq<int>, a: nat, b: nat, i: int)
    requires InRange(s) && 0 <= i < |s|
    ensures Iterate(s, a + b)[i] == Iterate(s, a)[Iterate(s, b)[i]]
  {
    if b > 0 {
      IterateAddAt(s, a, b - 1, s[i]);
    }
  }

  /** Iterating a + b times is iterating a times after b times. */
  lemma IterateAdd(s: seq<int>, a: nat, b: nat)
    requires InRange(s)
    ensures Compose(Iterate(s, a), Iterate(s, b)) == Iterate(s, a + b)
  {
    forall i | 0 <= i < |s| ensures Compose(Iterate(s, a), Iterate(s, b))[i] == Iterate(s, a + b)[i] {
      IterateAddAt(s, a, b, i);
    }
  }

  /** A measure that decreases along the recursion of operator^. */
  function PowerMeasure(k: int): nat
  {
    if k == -1 then 0
    else if k >= 0 then (if k % 2 == 0 then 2 * k else 2 * k + 1)
    else (if k % 2 == 0 then -2 * k else -2 * k + 3)
  }

  /**
   * operator^(pow) with the inverse t = p^-1 given: -1 yields t, 0 the
   * identity, an odd power peels one factor p off on the right and an even
   * power squares the half power. C++ `pow % 2` is nonzero exactly for odd
   * pow of either sign, and pow / 2 is exact for even pow.
   */
  function PowerWith(s: seq<int>, t: seq<int>, k: int): (r: seq<int>)
    requires InRange(s) && InRange(t) && |t| == |s|
    ensures |r| == |s| && InRange(r)
    decreases PowerMeasure(k)
  {
    if k == -1 then t
    else if k == 0 then Identity(|s|)
    else if k % 2 != 0 then Compose(PowerWith(s, t, k - 1), s)
    else Compose(PowerWith(s, t, k / 2), PowerWith(s, t, k / 2))
  }

  /** operator^(pow) of a permutation. */
  function Power(s: seq<int>, k: int): (r: seq<int>)
    requires IsPermutation(s)
    ensures |r| == |s| && InRange(r)
  {
    PowerWith(s, Inverse(s), k)
  }

  /** For k >= 0 the recursion computes the k-fold composition of p. */
  lemma {:induction false} PowerWithNonNegative(s: seq<int>, t: seq<int>, k: nat)
    requires InRange(s) && InRange(t) && |t| == |s|
    ensures PowerWith(s, t, k) == Iterate(s, k)
    decreases k
  {
    if k % 2 != 0 {
      PowerWithNonNegative(s, t, k - 1);
      assert PowerWith(s, t, k) == Compose(PowerWith(s, t, k - 1), s);
    } else if k > 0 {
      PowerWithNonNegative(s, t, k / 2);
      IterateDouble(s, k / 2, k);
    }
  }

  lemma IterateDouble(s: seq<int>, h: nat, k: nat)
    requires InRange(s) && k == h + h
    ensures Compose(Iterate(s, h), Iterate(s, h)) == Iterate(s, k)
  {
    IterateAdd(s, h, h);
  }

  /** For k < 0 the recursion computes the |k|-fold composition of t, when t undoes p. */
  lemma {:induction false} PowerWithNegative(s: seq<int>, t: seq<int>, k: int)
    requires InRange(s) && InRange(t) && |t| == |s|
    requires Compose(t, s) == Identity(|s|)
    requires k < 0
    ensures PowerWith(s, t, k) == Iterate(t, -k)
    decreases PowerMeasure(k)
  {
    if k == -1 {
      assert Iterate(t, 1) == Compose(Identity(|s|), t);
      ComposeIdentity(t);
    } else if k % 2 != 0 {
      PowerWithNegative(s, t, k - 1);
      OddNegativeStep(s, t, k);
    } else {
      PowerWithNegative(s, t, k / 2);
      EvenNegativeStep(s, t, k, k / 2);
    }
  }

  lemma OddNegativeStep(s: seq<int>, t: seq<int>, k: int)
    requires InRange(s) && InRange(t) && |t| == |s|
    requires Compose(t, s) == Identity(|s|)
    requires k < -1 && k % 2 != 0
    requires PowerWith(s, t, k - 1) == Iterate(t, 1 - k)
    ensures PowerWith(s, t, k) == Iterate(t, -k)
  {
    var q := Iterate(t, -k);
    assert PowerWith(s, t, k) == Compose(Compose(q, t), s);
    ComposeAssociative(q, t, s);
    ComposeIdentity(q);
  }

  lemma EvenNegativeStep(s: seq<int>, t: seq<int>, k: int, h: int)
    requires InRange(s) && InRange(t) && |t| == |s|
    requires h < 0 && k == h + h
    requires PowerWith(s, t, h) == Iterate(t, -h)
    ensures PowerWith(s, t, k) == Iterate(t, -k)
  {
    EvenUnfold(s, t, k, h);
    SquareCongruent(PowerWith(s, t, h), Iterate(t, -h));
    IterateDouble(t, -h, -k);
  }

  lemma EvenUnfold(s: seq<int>, t: seq<int>, k: int, h: int)
    requires InRange(s) && InRange(t) && |t| == |s|
    requires h != 0 && k == h + h
    ensures PowerWith(s, t, k) == Compose(PowerWith(s, t, h), PowerWith(s, t, h))
  {
    assert k % 2 == 0 && k / 2 == h && k != -1;
  }

  lemma SquareCongruent(x: seq<int>, y: seq<int>)
    requires InRange(x) && x == y
    ensures Compose(x, x) == Compose(y, y)
  {
  }

  /** For k >= 0, p^k is the k-fold composition of p; p^0 is the identity. */
  lemma PowerNonNegative(s: seq<int>, k: nat)
    requires IsPermutation(s)
    ensures Power(s, k) == Iterate(s, k)
  {
    PowerWithNonNegative(s, Inverse(s), k);
  }

  /** For k < 0, p^k is the |k|-fold composition of p^-1. */
  lemma PowerNegative(s: seq<int>, k: int)
    requires IsPermutation(s) && k < 0
    ensures Power(s, k) == Iterate(Inverse(s), -k)
  {
    InverseLeft(s);
    PowerWithNegative(s, Inverse(s), k);
  }

  /** Every power of a permutation is a permutation. */
  lemma PowerPermutation(s: seq<int>, k: int)
    requires IsPermutation(s)
    ensures IsPermutation(Power(s, k))
  {
    if k >= 0 {
      PowerNonNegative(s, k);
      IteratePermutation(s, k);
    } else {
      PowerNegative(s, k);
      InverseIsPermutation(s);
      IteratePermutation(Inverse(s), -k);
    }
  }

  // ---------------------------------------------------------------------------
  // Sign
  // ---------------------------------------------------------------------------

  /** (-1)^n. */
  function NegOnePow(n: nat): (r: int)
    ensures r == (if n % 2 == 0 then 1 else -1)
  {
    if n == 0 then 1 else -NegOnePow(n - 1)
  }

  /** The number of j with i < j < k and s[i] > s[j]: the inner loop of sign() after it reached k. */
  function RowInversions(s: seq<int>, i: nat, k: nat): nat
    requires i < |s| && k <= |s|
  {
    if k <= i + 1 then 0
    else RowInversions(s, i, k - 1) + (if s[i] > s[k - 1] then 1 else 0)
  }

  /** The number of inversions i < j, s[i] > s[j], whose first index is below k. */
  function InversionsBelow(s: seq<int>, k: nat): nat
    requires k <= |s|
  {
    if k == 0 then 0 else InversionsBelow(s, k - 1) + RowInversions(s, k - 1, |s|)
  }

  /** The number of pairs i < j with s[i] > s[j]. */
  function Inversions(s: seq<int>): nat
  {
    InversionsBelow(s, |s|)
  }

  /** sign(): (-1) to the number of inversions. */
  function Sign(s: seq<int>): (r: int)
    ensures r == 1 || r == -1
  {
    NegOnePow(Inversions(s))
  }

  lemma {:induction false} RowInversionsOfIncreasing(s: seq<int>, i: nat, k: nat)
    requires i < |s| && k <= |s|
    requires forall x, y :: 0 <= x < y < |s| ==> s[x] < s[y]
    ensures RowInversions(s, i, k) == 0
  {
    if k > i + 1 {
      RowInversionsOfIncreasing(s, i, k - 1);
    }
  }

  lemma {:induction false} InversionsBelowOfIncreasing(s: seq<int>, k: nat)
    requires k <= |s|
    requires forall x, y :: 0 <= x < y < |s| ==> s[x] < s[y]
    ensures InversionsBelow(s, k) == 0
  {
    if k > 0 {
      InversionsBelowOfIncreasing(s, k - 1);
      RowInversionsOfIncreasing(s, k - 1, |s|);
    }
  }

  /** An increasing sequence, the identity in particular, has no inversions and sign 1. */
  lemma SignOfIncreasing(s: seq<int>)
    requires forall x, y :: 0 <= x < y < |s| ==> s[x] < s[y]
    ensures Inversions(s) == 0 && Sign(s) == 1
  {
    InversionsBelowOfIncreasing(s, |s|);
  }

  lemma SignIdentity(n: nat)
    ensures Sign(Identity(n)) == 1
  {
    SignOfIncreasing(Identity(n));
  }

  /** The inverted pairs (i, j), i < j, s[i] > s[j], whose first index is below k. */
  function PairsBelow(s: seq<int>, k: nat): set<(int, int)>
    requires k <= |s|
  {
    if k == 0 then {} else PairsBelow(s, k - 1) + RowPairs(s, k - 1, |s|)
  }

  /** The counting loops count exactly these pairs. */
  lemma {:induction false} InversionsCountPairs(s: seq<int>, k: nat)
    requires k <= |s|
    ensures InversionsBelow(s, k) == |PairsBelow(s, k)|
  {
    if k > 0 {
      InversionsCountPairs(s, k - 1);
      RowPairsCount(s, k - 1, |s|);
      PairsBelowSize(s, k);
    }
  }

  lemma PairsBelowSize(s: seq<int>, k: nat)
    requires 0 < k <= |s|
    ensures |PairsBelow(s, k)| == |PairsBelow(s, k - 1)| + |RowPairs(s, k - 1, |s|)|
  {
    PairsBelowDisjoint(s, k - 1);
    DisjointUnionSize(PairsBelow(s, k - 1), RowPairs(s, k - 1, |s|));
  }

  lemma PairsBelowDisjoint(s: seq<int>, k: nat)
    requires k < |s|
    ensures PairsBelow(s, k) !! RowPairs(s, k, |s|)
  {
    PairsBelowBounds(s, k);
    RowPairsBounds(s, k, |s|);
  }

  lemma DisjointUnionSize<T>(a: set<T>, b: set<T>)
    requires a !! b
    ensures |a + b| == |a| + |b|
  {
  }

  /** The inverted pairs (i, j) with i < j < k. */
  function RowPairs(s: seq<int>, i: nat, k: nat): set<(int, int)>
    requires i < |s| && k <= |s|
  {
    if k <= i + 1 then {}
    else RowPairs(s, i, k - 1) + (if s[i] > s[k - 1] then {(i, k - 1)} else {})
  }

  lemma {:induction false} RowPairsBounds(s: seq<int>, i: nat, k: nat)
    requires i < |s| && k <= |s|
    ensures forall q :: q in RowPairs(s, i, k) <==> q.0 == i && i < q.1 < k && s[i] > s[q.1]
  {
    if k > i + 1 {
      RowPairsBounds(s, i, k - 1);
    }
  }

  /** PairsBelow holds exactly the inverted pairs with first index below k. */
  lemma {:induction false} PairsBelowBounds(s: seq<int>, k: nat)
    requires k <= |s|
    ensures forall q :: q in PairsBelow(s, k) <==> 0 <= q.0 < k && q.0 < q.1 < |s| && s[q.0] > s[q.1]
  {
    if k > 0 {
      PairsBelowBounds(s, k - 1);
      RowPairsBounds(s, k - 1, |s|);
    }
  }

  lemma RowPairsSize(s: seq<int>, i: nat, k: nat)
    requires i + 1 < k <= |s|
    ensures |RowPairs(s, i, k)| == |RowPairs(s, i, k - 1)| + (if s[i] > s[k - 1] then 1 else 0)
  {
    RowPairsBounds(s, i, k - 1);
    var last: set<(int, int)> := if s[i] > s[k - 1] then {(i, k - 1)} else {};
    assert RowPairs(s, i, k - 1) !! last;
    DisjointUnionSize(RowPairs(s, i, k - 1), last);
  }

  lemma {:induction false} RowPairsCount(s: seq<int>, i: nat, k: nat)
    requires i < |s| && k <= |s|
    ensures RowInversions(s, i, k) == |RowPairs(s, i, k)|
  {
    if k > i + 1 {
      RowPairsCount(s, i, k - 1);
      RowPairsSize(s, i, k);
    }
  }

  /** Sign is (-1) to the number of pairs i < j with s[i] > s[j]. */
  lemma SignCountsInvertedPairs(s: seq<int>)
    ensures Sign(s) == NegOnePow(|set i, j | 0 <= i < j < |s| && s[i] > s[j] :: (i, j)|)
  {
    InversionsCountPairs(s, |s|);
    PairsBelowBounds(s, |s|);
    assert PairsBelow(s, |s|) == set i, j | 0 <= i < j < |s| && s[i] > s[j] :: (i, j);
  }

  // ---------------------------------------------------------------------------
  // Lexicographic order
  // ---------------------------------------------------------------------------

  /** s comes strictly before t in lexicographic order (sequences of equal length). */
  predicate LexLess(s: seq<int>, t: seq<int>)
  {
    |s| == |t| && exists d :: 0 <= d < |s| && s[..d] == t[..d] && s[d] < t[d]
  }

  /** Strictly decreasing: the last arrangement in lexicographic order. */
  predicate Decreasing(s: seq<int>)
  {
    forall x, y :: 0 <= x < y < |s| ==> s[x] > s[y]
  }

  /** Strictly increasing: the first arrangement in lexicographic order. */
  predicate Increasing(s: seq<int>)
  {
    forall x, y :: 0 <= x < y < |s| ==> s[x] < s[y]
  }

  lemma PrefixAgrees(s: seq<int>, t: seq<int>, e: nat, d: nat)
    requires d < e <= |s| && e <= |t| && s[..e] == t[..e]
    ensures s[d] == t[d]
  {
    assert s[d] == s[..e][d];
  }

  lemma LexAsymmetric(s: seq<int>, t: seq<int>)
    requires LexLess(s, t)
    ensures !LexLess(t, s)
  {
    var d :| 0 <= d < |s| && s[..d] == t[..d] && s[d] < t[d];
    if e :| 0 <= e < |t| && t[..e] == s[..e] && t[e] < s[e] {
      if d < e {
        PrefixAgrees(t, s, e, d);
      } else if e < d {
        PrefixAgrees(s, t, d, e);
      }
      assert false;
    }
  }

  lemma LexTransitive(a: seq<int>, b: seq<int>, c: seq<int>)
    requires LexLess(a, b) && LexLess(b, c)
    ensures LexLess(a, c)
  {
    var d :| 0 <= d < |a| && a[..d] == b[..d] && a[d] < b[d];
    var e :| 0 <= e < |b| && b[..e] == c[..e] && b[e] < c[e];
    if d < e {
      assert b[..e][..d] == c[..e][..d];
      assert b[d] == b[..e][d] == c[..e][d] == c[d];
      assert a[..d] == c[..d];
    } else if e < d {
      assert a[..d][..e] == b[..d][..e];
      assert a[e] == a[..d][e] == b[..d][e] == b[e];
      assert a[..e] == c[..e];
    } else {
      assert a[..d] == c[..d];
    }
  }

  /** Two different sequences of the same length are ordered one way or the other. */
  lemma {:induction false} LexTotal(s: seq<int>, t: seq<int>)
    requires |s| == |t| && s != t
    ensures LexLess(s, t) || LexLess(t, s)
  {
    if s[0] != t[0] {
      assert s[..0] == t[..0];
    } else {
      assert s == [s[0]] + s[1..] && t == [t[0]] + t[1..];
      LexTotal(s[1..], t[1..]);
      if LexLess(s[1..], t[1..]) {
        var d :| 0 <= d < |s| - 1 && s[1..][..d] == t[1..][..d] && s[1..][d] < t[1..][d];
        assert s[..d + 1] == [s[0]] + s[1..][..d];
        assert t[..d + 1] == [t[0]] + t[1..][..d];
        assert LexLess(s, t) by {
          assert s[..d + 1] == t[..d + 1] && s[d + 1] < t[d + 1];
        }
      } else {
        var d :| 0 <= d < |s| - 1 && t[1..][..d] == s[1..][..d] && t[1..][d] < s[1..][d];
        assert s[..d + 1] == [s[0]] + s[1..][..d];
        assert t[..d + 1] == [t[0]] + t[1..][..d];
        assert LexLess(t, s) by {
          assert t[..d + 1] == s[..d + 1] && t[d + 1] < s[d + 1];
        }
      }
    }
  }

  /** Equal prefixes cancel: multisets of the remaining suffixes agree. */
  lemma SuffixMultiset(s: seq<int>, t: seq<int>, d: nat)
    requires |s| == |t| && d <= |s| && s[..d] == t[..d] && multiset(s) == multiset(t)
    ensures multiset(s[d..]) == multiset(t[d..])
  {
    assert s == s[..d] + s[d..];
    assert t == t[..d] + t[d..];
    assert multiset(s) == multiset(s[..d]) + multiset(s[d..]);
    assert multiset(t) == multiset(t[..d]) + multiset(t[d..]);
    forall v ensures multiset(s[d..])[v] == multiset(t[d..])[v] {
      assert multiset(s)[v] == multiset(s[..d])[v] + multiset(s[d..])[v];
      assert multiset(t)[v] == multiset(t[..d])[v] + multiset(t[d..])[v];
    }
  }

  /** The entry t[d] occurs somewhere in w[d..] when the suffixes are rearrangements. */
  lemma HeadInSuffix(t: seq<int>, w: seq<int>, d: nat)
    requires d < |t| == |w| && multiset(t[d..]) == multiset(w[d..])
    ensures exists x :: d <= x < |w| && w[x] == t[d]
  {
    assert t[d..][0] == t[d];
    assert t[d] in multiset(w[d..]);
    var x :| 0 <= x < |w| - d && w[d..][x] == t[d];
    assert w[d + x] == t[d];
  }

  /** An increasing sequence comes first among all arrangements of its elements. */
  lemma IncreasingIsFirst(w: seq<int>, t: seq<int>)
    requires Increasing(w) && |t| == |w| && multiset(t) == multiset(w)
    ensures !LexLess(t, w)
  {
    if d :| 0 <= d < |t| && t[..d] == w[..d] && t[d] < w[d] {
      SuffixMultiset(t, w, d);
      HeadInSuffix(t, w, d);
      assert false;
    }
  }

  /** A decreasing sequence comes last among all arrangements of its elements. */
  lemma DecreasingIsLast(w: seq<int>, t: seq<int>)
    requires Decreasing(w) && |t| == |w| && multiset(t) == multiset(w)
    ensures !LexLess(w, t)
  {
    if d :| 0 <= d < |w| && w[..d] == t[..d] && w[d] < t[d] {
      SuffixMultiset(t, w, d);
      HeadInSuffix(t, w, d);
      assert false;
    }
  }

  // ---------------------------------------------------------------------------
  // next_perm
  // ---------------------------------------------------------------------------

  /** The outer scan of next_perm from i down to 1: the first i with s[i - 1] < s[i], or 0. */
  function LastAscent(s: seq<int>, i: nat): (r: nat)
    requires i < |s|
    ensures r <= i && (0 < r ==> s[r - 1] < s[r])
  {
    if i == 0 then 0 else if s[i - 1] < s[i] then i else LastAscent(s, i - 1)
  }

  /** There is no ascent between the one LastAscent finds and i. */
  lemma {:induction false} LastAscentIsLast(s: seq<int>, i: nat)
    requires i < |s|
    ensures forall x :: LastAscent(s, i) < x <= i ==> s[x - 1] >= s[x]
  {
    if i > 0 && s[i - 1] >= s[i] {
      LastAscentIsLast(s, i - 1);
    }
  }

  /**
   * The inner scan over positions j..n-1 with current candidate mn: the
   * position of the smallest entry above s[i - 1].
   */
  function MinAbove(s: seq<int>, i: nat, j: nat, mn: nat): (r: nat)
    requires 0 < i <= mn < |s| && i <= j <= |s| && s[i - 1] < s[mn]
    ensures i <= r < |s| && s[i - 1] < s[r] && s[r] <= s[mn]
    decreases |s| - j
  {
    if j == |s| then mn
    else MinAbove(s, i, j + 1, if s[i - 1] < s[j] && s[j] < s[mn] then j else mn)
  }

  /** No entry scanned from j on is above s[i - 1] and below the one found. */
  lemma {:induction false} MinAboveIsLeast(s: seq<int>, i: nat, j: nat, mn: nat)
    requires 0 < i <= mn < |s| && i <= j <= |s| && s[i - 1] < s[mn]
    ensures forall x :: j <= x < |s| && s[i - 1] < s[x] ==> s[MinAbove(s, i, j, mn)] <= s[x]
    decreases |s| - j
  {
    if j < |s| {
      MinAboveIsLeast(s, i, j + 1, if s[i - 1] < s[j] && s[j] < s[mn] then j else mn);
    }
  }

  /** std::swap of two positions. */
  function Swap(s: seq<int>, x: nat, y: nat): (r: seq<int>)
    requires x < |s| && y < |s|
    ensures |r| == |s|
  {
    s[x := s[y]][y := s[x]]
  }

  /** A swap exchanges two entries, keeps the others and so keeps the multiset. */
  lemma SwapFacts(s: seq<int>, x: nat, y: nat)
    requires x < |s| && y < |s|
    ensures var r := Swap(s, x, y);
      && multiset(r) == multiset(s) && r[x] == s[y] && r[y] == s[x]
      && forall z :: 0 <= z < |s| && z != x && z != y ==> r[z] == s[z]
  {
  }

  /** The sequence read backwards: what the closing swap loop makes of the suffix. */
  function Reverse(t: seq<int>): (r: seq<int>)
    ensures |r| == |t|
  {
    if |t| == 0 then [] else [t[|t| - 1]] + Reverse(t[..|t| - 1])
  }

  /** Position k of the reversed sequence holds the k-th entry from the end. */
  lemma {:induction false} ReverseAt(t: seq<int>, k: nat)
    requires k < |t|
    ensures Reverse(t)[k] == t[|t| - 1 - k]
  {
    if k > 0 {
      ReverseAt(t[..|t| - 1], k - 1);
    }
  }

  lemma ReverseOfDecreasing(t: seq<int>)
    requires Decreasing(t)
    ensures Increasing(Reverse(t))
  {
    forall k | 0 <= k < |t|
      ensures Reverse(t)[k] == t[|t| - 1 - k]
    {
      ReverseAt(t, k);
    }
  }

  lemma {:induction false} ReverseMultiset(t: seq<int>)
    ensures multiset(Reverse(t)) == multiset(t)
  {
    if |t| > 0 {
      var init := t[..|t| - 1];
      ReverseMultiset(init);
      assert Reverse(t) == [t[|t| - 1]] + Reverse(init);
      assert t == init + [t[|t| - 1]];
    }
  }

  /** Keep the first i entries and reverse the rest. */
  function ReverseFrom(u: seq<int>, i: nat): (r: seq<int>)
    requires i <= |u|
    ensures |r| == |u|
  {
    u[..i] + Reverse(u[i..])
  }

  /** ReverseFrom rearranges: the same entries, the prefix kept, the suffix reversed. */
  lemma ReverseFromFacts(u: seq<int>, i: nat)
    requires i <= |u|
    ensures var r := ReverseFrom(u, i);
      multiset(r) == multiset(u) && r[..i] == u[..i] && r[i..] == Reverse(u[i..])
  {
    var r := ReverseFrom(u, i);
    ReverseMultiset(u[i..]);
    assert u == u[..i] + u[i..];
    assert multiset(r) == multiset(u[..i]) + multiset(Reverse(u[i..]));
  }

  /**
   * next_perm: None when there is no ascent (the function returns false and
   * leaves p alone); otherwise the arrangement after swapping s[i - 1] with
   * the smallest larger entry of the suffix and reversing the suffix.
   */
  function NextPerm(s: seq<int>): Option<seq<int>>
    requires |s| >= 1
  {
    var i := LastAscent(s, |s| - 1);
    if i == 0 then None
    else
      Some(ReverseFrom(Swap(s, MinAbove(s, i, i, i), i - 1), i))
  }

  /** Strictly decreasing adjacent pairs make a strictly decreasing suffix. */
  lemma {:induction false} AdjacentChain(s: seq<int>, i: nat, y: nat)
    requires i <= y < |s|
    requires forall x :: i < x < |s| ==> s[x - 1] > s[x]
    ensures forall x :: i <= x < y ==> s[x] > s[y]
  {
    if y > i {
      AdjacentChain(s, i, y - 1);
    }
  }

  /** For distinct entries the part after the last ascent is strictly decreasing. */
  lemma SuffixDecreasing(s: seq<int>)
    requires |s| >= 1 && Distinct(s)
    ensures Decreasing(s[LastAscent(s, |s| - 1)..])
  {
    var i := LastAscent(s, |s| - 1);
    LastAscentIsLast(s, |s| - 1);
    forall x | i < x < |s| ensures s[x - 1] > s[x] {
      assert s[x - 1] != s[x];
    }
    forall y | i <= y < |s| ensures forall x :: i <= x < y ==> s[x] > s[y] {
      AdjacentChain(s, i, y);
    }
  }

  /** next_perm returns false exactly for the strictly decreasing arrangement. */
  lemma NextPermNone(s: seq<int>)
    requires |s| >= 1 && Distinct(s)
    ensures NextPerm(s).None? <==> Decreasing(s)
  {
    var i := LastAscent(s, |s| - 1);
    SuffixDecreasing(s);
    if i == 0 {
      assert s[0..] == s;
    } else {
      assert !(s[i - 1] > s[i]);
    }
  }

  /** The arrangement after next_perm, in terms of the swap it makes. */
  lemma NextPermShape(s: seq<int>)
    requires |s| >= 1 && NextPerm(s).Some?
    ensures 0 < LastAscent(s, |s| - 1)
    ensures multiset(NextPerm(s).value) == multiset(s) && |NextPerm(s).value| == |s|
    ensures var i := LastAscent(s, |s| - 1);
      NextPerm(s).value == ReverseFrom(Swap(s, MinAbove(s, i, i, i), i - 1), i)
  {
    var i := LastAscent(s, |s| - 1);
    var u := Swap(s, MinAbove(s, i, i, i), i - 1);
    SwapFacts(s, MinAbove(s, i, i, i), i - 1);
    ReverseFromFacts(u, i);
  }

  /** next_perm rearranges the entries: the result is a permutation again. */
  lemma NextPermIsPermutation(s: seq<int>)
    requires |s| >= 1 && IsPermutation(s) && NextPerm(s).Some?
    ensures IsPermutation(NextPerm(s).value) && |NextPerm(s).value| == |s|
  {
    NextPermShape(s);
    PermutationByMultiset(s, NextPerm(s).value);
  }

  /** Swapping s[i - 1] with s[mn] and reversing from i keeps the prefix before i - 1 and puts s[mn] at i - 1. */
  lemma AdvancePrefix(s: seq<int>, i: nat, mn: nat)
    requires 0 < i <= mn < |s|
    ensures var v := ReverseFrom(Swap(s, mn, i - 1), i);
      |v| == |s| && v[..i - 1] == s[..i - 1] && v[i - 1] == s[mn]
  {
    var u := Swap(s, mn, i - 1);
    var v := ReverseFrom(u, i);
    SwapFacts(s, mn, i - 1);
    forall x | 0 <= x < i ensures v[x] == u[x] {
      ReverseFromBefore(u, i, x);
    }
    assert v[..i - 1] == s[..i - 1];
  }

  /**
   * When the suffix from i is strictly decreasing and s[mn] is its smallest
   * entry above s[i - 1], the swapped and reversed suffix is increasing.
   */
  lemma AdvanceIncreasing(s: seq<int>, i: nat, mn: nat)
    requires Distinct(s) && 0 < i <= mn < |s| && s[i - 1] < s[mn]
    requires forall x :: i <= x < |s| && s[i - 1] < s[x] ==> s[mn] <= s[x]
    requires forall x, y :: i <= x < y < |s| ==> s[x] > s[y]
    ensures Increasing(ReverseFrom(Swap(s, mn, i - 1), i)[i..])
  {
    var u := Swap(s, mn, i - 1);
    SwapFacts(s, mn, i - 1);
    ReverseFromFacts(u, i);
    forall x | i <= x < |s| ensures s[x] != s[i - 1] {
      assert i - 1 < x;
    }
    SwapKeepsDecreasing(s, u, i, mn);
    DecreasingSlice(u, i);
    ReverseOfDecreasing(u[i..]);
  }

  /** next_perm keeps the entries before the pivot and raises the pivot to s[mn]. */
  lemma NextPermPrefix(s: seq<int>)
    requires |s| >= 1 && NextPerm(s).Some?
    ensures var i := LastAscent(s, |s| - 1);
      var v := NextPerm(s).value;
      && 0 < i < |s| && |v| == |s|
      && v[..i - 1] == s[..i - 1] && v[i - 1] == s[MinAbove(s, i, i, i)]
  {
    NextPermShape(s);
    var i := LastAscent(s, |s| - 1);
    AdvancePrefix(s, i, MinAbove(s, i, i, i));
  }

  /** next_perm moves strictly forward in lexicographic order. */
  lemma NextPermGreater(s: seq<int>)
    requires |s| >= 1 && NextPerm(s).Some?
    ensures LexLess(s, NextPerm(s).value)
  {
    NextPermPrefix(s);
    var i := LastAscent(s, |s| - 1);
    assert s[..i - 1] == NextPerm(s).value[..i - 1];
  }

  /** A strictly decreasing slice, stated on the whole sequence. */
  lemma DecreasingSlice(s: seq<int>, i: nat)
    requires i <= |s|
    ensures Decreasing(s[i..]) <==> forall x, y :: i <= x < y < |s| ==> s[x] > s[y]
  {
    if Decreasing(s[i..]) {
      forall x, y | i <= x < y < |s| ensures s[x] > s[y] {
        assert s[i..][x - i] == s[x] && s[i..][y - i] == s[y];
      }
    }
  }

  /**
   * Putting the pivot value s[i - 1] at the position mn of the smallest
   * larger suffix entry keeps the suffix strictly decreasing.
   */
  lemma SwapKeepsDecreasing(s: seq<int>, u: seq<int>, i: nat, mn: nat)
    requires |u| == |s| && 0 < i <= mn < |s|
    requires u[mn] == s[i - 1] && forall x :: i <= x < |s| && x != mn ==> u[x] == s[x]
    requires forall x, y :: i <= x < y < |s| ==> s[x] > s[y]
    requires s[i - 1] < s[mn]
    requires forall x :: i <= x < |s| && s[i - 1] < s[x] ==> s[mn] <= s[x]
    requires forall x :: i <= x < |s| ==> s[x] != s[i - 1]
    ensures forall x, y :: i <= x < y < |u| ==> u[x] > u[y]
  {
    forall x, y | i <= x < y < |u| ensures u[x] > u[y] {
      if y == mn {
        assert u[x] == s[x];
      } else if x == mn {
        assert u[y] == s[y] && s[y] < s[mn];
      } else {
        assert u[x] == s[x] && u[y] == s[y];
      }
    }
  }

  /**
   * The facts about next_perm's result that the immediacy argument needs:
   * the prefix before the pivot is kept, the pivot grows to the smallest
   * larger suffix value, and the new suffix is increasing.
   */
  lemma NextPermFacts(s: seq<int>)
    requires |s| >= 1 && Distinct(s) && NextPerm(s).Some?
    ensures var i := LastAscent(s, |s| - 1);
      var v := NextPerm(s).value;
      && 0 < i < |s| && |v| == |s| && multiset(v) == multiset(s)
      && (forall x, y :: i <= x < y < |s| ==> s[x] > s[y])
      && v[..i - 1] == s[..i - 1]
      && s[i - 1] < v[i - 1]
      && (forall x :: i <= x < |s| && s[i - 1] < s[x] ==> v[i - 1] <= s[x])
      && Increasing(v[i..])
  {
    NextPermShape(s);
    var i := LastAscent(s, |s| - 1);
    var mn := MinAbove(s, i, i, i);
    MinAboveIsLeast(s, i, i, i);
    SuffixDecreasing(s);
    DecreasingSlice(s, i);
    AdvancePrefix(s, i, mn);
    AdvanceIncreasing(s, i, mn);
  }

  /** The immediacy argument, on the facts of NextPermFacts. */
  lemma ImmediateCore(s: seq<int>, t: seq<int>, v: seq<int>, i: nat)
    requires 0 < i < |s| && |t| == |s| && |v| == |s|
    requires multiset(t) == multiset(s) && multiset(v) == multiset(s)
    requires forall x, y :: i <= x < y < |s| ==> s[x] > s[y]
    requires v[..i - 1] == s[..i - 1] && s[i - 1] < v[i - 1]
    requires forall x :: i <= x < |s| && s[i - 1] < s[x] ==> v[i - 1] <= s[x]
    requires Increasing(v[i..])
    requires LexLess(s, t)
    ensures !LexLess(t, v)
  {
    var d :| 0 <= d < |s| && s[..d] == t[..d] && s[d] < t[d];
    SuffixMultiset(s, t, d);
    HeadInSuffix(t, s, d);
    var x :| d <= x < |s| && s[x] == t[d];
    if d >= i {
      assert false;
    } else if d < i - 1 {
      assert v[..d] == v[..i - 1][..d] && s[..d] == s[..i - 1][..d];
      assert v[d] == v[..i - 1][d] && s[d] == s[..i - 1][d];
      assert LexLess(v, t);
      LexAsymmetric(v, t);
    } else {
      assert x != d;
      assert v[i - 1] <= t[d];
      if v[i - 1] < t[d] {
        assert v[..d] == t[..d];
        assert LexLess(v, t);
        LexAsymmetric(v, t);
      } else {
        assert v[..i] == v[..i - 1] + [v[i - 1]] && t[..i] == t[..i - 1] + [t[i - 1]];
        assert v[..i] == t[..i];
        SuffixMultiset(v, t, i);
        IncreasingIsFirst(v[i..], t[i..]);
        LexSuffix(t, v, i);
      }
    }
  }

  /**
   * Nothing lies strictly between s and next_perm(s): every arrangement t of
   * the same entries after s is at or after the result.
   */
  lemma NextPermImmediate(s: seq<int>, t: seq<int>)
    requires |s| >= 1 && Distinct(s) && NextPerm(s).Some?
    requires |t| == |s| && multiset(t) == multiset(s) && LexLess(s, t)
    ensures !LexLess(t, NextPerm(s).value)
  {
    NextPermFacts(s);
    ImmediateCore(s, t, NextPerm(s).value, LastAscent(s, |s| - 1));
  }

  /** Past a common prefix, the order is decided by the suffixes. */
  lemma LexSuffix(t: seq<int>, v: seq<int>, i: nat)
    requires i <= |t| == |v| && t[..i] == v[..i]
    ensures LexLess(t, v) ==> LexLess(t[i..], v[i..])
  {
    if LexLess(t, v) {
      var e :| 0 <= e < |t| && t[..e] == v[..e] && t[e] < v[e];
      if e < i {
        PrefixAgrees(t, v, i, e);
        assert false;
      }
      assert t[i..][..e - i] == t[..e][i..] && v[i..][..e - i] == v[..e][i..];
      assert t[i..][e - i] == t[e] && v[i..][e - i] == v[e];
    }
  }

  /** A multiset-preserving rearrangement of a permutation is a permutation. */
  lemma PermutationByMultiset(s: seq<int>, t: seq<int>)
    requires IsPermutation(s) && |t| == |s| && multiset(t) == multiset(s)
    ensures IsPermutation(t)
  {
    forall x | 0 <= x < |t| ensures 0 <= t[x] < |t| {
      assert t[x] in multiset(s);
    }
    DistinctMultiplicity(s);
    DistinctMultiplicity(t);
  }

  /** Distinct entries means every value occurs at most once. */
  lemma {:induction false} DistinctMultiplicity(s: seq<int>)
    ensures Distinct(s) <==> forall v :: multiset(s)[v] <= 1
  {
    if |s| > 0 {
      var r := s[1..];
      DistinctMultiplicity(r);
      assert s == [s[0]] + r;
      assert multiset(s) == multiset{s[0]} + multiset(r);
      if Distinct(s) {
        assert s[0] !in r by {
          forall j | 0 <= j < |r| ensures r[j] != s[0] {
            assert r[j] == s[j + 1];
          }
        }
        assert Distinct(r) by {
          forall x, y | 0 <= x < y < |r| ensures r[x] != r[y] {
            assert s[x + 1] == r[x] && s[y + 1] == r[y];
          }
        }
      }
      if forall v :: multiset(s)[v] <= 1 {
        assert forall v :: multiset(r)[v] <= multiset(s)[v];
        assert multiset(r)[s[0]] == 0;
        forall x, y | 0 <= x < y < |s| ensures s[x] != s[y] {
          assert s[y] == r[y - 1];
          if x == 0 {
            assert r[y - 1] in multiset(r);
          } else {
            assert s[x] == r[x - 1];
          }
        }
      }
    }

  }

  // ---------------------------------------------------------------------------
  // Enumerating all permutations by repeated next_perm
  // ---------------------------------------------------------------------------

  /** Every entry lies in [0, b). */
  predicate EntriesBelow(s: seq<int>, b: nat)
  {
    forall k :: 0 <= k < |s| ==> 0 <= s[k] < b
  }

  /** c copies of w added up (0 for c <= 0), written with additions only. */
  function Copies(c: int, w: nat): nat
    decreases c
  {
    if c <= 0 then 0 else w + Copies(c - 1, w)
  }

  lemma {:induction false} CopiesMonotone(c: int, d: int, w: nat)
    requires c <= d
    ensures Copies(c, w) <= Copies(d, w)
    decreases d - c
  {
    if c < d {
      CopiesMonotone(c, d - 1, w);
    }
  }

  /** b to the power e, written with Copies. */
  function Weight(b: nat, e: nat): (r: nat)
    requires b >= 1
    ensures r >= 1
  {
    if e == 0 then 1 else
      var w := Weight(b, e - 1);
      assert Copies(b, w) >= w by { CopiesMonotone(1, b, w); }
      Copies(b, w)
  }

  /** The arrangement read as a base-b numeral, most significant entry first. */
  function Rank(s: seq<int>, b: nat): int
    requires b >= 1
  {
    if |s| == 0 then 0 else Copies(s[0], Weight(b, |s| - 1)) + Rank(s[1..], b)
  }

  lemma {:induction false} RankBound(s: seq<int>, b: nat)
    requires b >= 1 && EntriesBelow(s, b)
    ensures 0 <= Rank(s, b) < Weight(b, |s|)
  {
    if |s| > 0 {
      var w := Weight(b, |s| - 1);
      RankBound(s[1..], b);
      CopiesMonotone(s[0] + 1, b, w);
    }
  }

  /** Lexicographic order decided at the head or passed on to the tails. */
  lemma LexCases(s: seq<int>, t: seq<int>)
    requires LexLess(s, t)
    ensures |s| > 0 && (s[0] < t[0] || (s[0] == t[0] && LexLess(s[1..], t[1..])))
  {
    var d :| 0 <= d < |s| && s[..d] == t[..d] && s[d] < t[d];
    if d > 0 {
      PrefixAgrees(s, t, d, 0);
      assert s[1..][..d - 1] == s[..d][1..] && t[1..][..d - 1] == t[..d][1..];
      assert s[1..][d - 1] == s[d] && t[1..][d - 1] == t[d];
    }
  }

  /** The numeral order agrees with the lexicographic order. */
  lemma {:induction false} RankLess(s: seq<int>, t: seq<int>, b: nat)
    requires b >= 1 && EntriesBelow(s, b) && EntriesBelow(t, b) && LexLess(s, t)
    ensures Rank(s, b) < Rank(t, b)
  {
    LexCases(s, t);
    if s[0] < t[0] {
      var w := Weight(b, |s| - 1);
      RankBound(s[1..], b);
      RankBound(t[1..], b);
      CopiesMonotone(s[0] + 1, t[0], w);
    } else {
      RankLess(s[1..], t[1..], b);
    }
  }

  /**
   * The arrangements that the do/while loop over next_perm visits from s:
   * s itself, then each next_perm result until next_perm returns false.
   */
  function Enumeration(s: seq<int>): (r: seq<seq<int>>)
    requires |s| >= 1 && IsPermutation(s)
    ensures |r| >= 1 && r[0] == s
    decreases Weight(|s|, |s|) - Rank(s, |s|)
  {
    match NextPerm(s)
    case None => [s]
    case Some(q) =>
      NextPermStep(s);
      [s] + Enumeration(q)
  }

  /** One next_perm step is a permutation again and strictly lowers the loop measure. */
  lemma NextPermStep(s: seq<int>)
    requires |s| >= 1 && IsPermutation(s) && NextPerm(s).Some?
    ensures var q := NextPerm(s).value;
      && |q| == |s| && IsPermutation(q) && LexLess(s, q)
      && 0 <= Weight(|s|, |s|) - Rank(q, |s|) < Weight(|s|, |s|) - Rank(s, |s|)
  {
    var q := NextPerm(s).value;
    NextPermIsPermutation(s);
    NextPermGreater(s);
    RankBound(q, |s|);
    RankLess(s, q, |s|);
  }

  lemma EnumerationUnfold(s: seq<int>)
    requires |s| >= 1 && IsPermutation(s)
    ensures NextPerm(s).None? ==> Enumeration(s) == [s]
    ensures NextPerm(s).Some? ==>
      && IsPermutation(NextPerm(s).value) && |NextPerm(s).value| == |s|
      && Enumeration(s) == [s] + Enumeration(NextPerm(s).value)
  {
    if NextPerm(s).Some? {
      NextPermStep(s);
    }
  }

  /** Each visited arrangement is a permutation of the same size. */
  lemma {:induction false} EnumerationMember(s: seq<int>, k: nat)
    requires |s| >= 1 && IsPermutation(s) && k < |Enumeration(s)|
    ensures |Enumeration(s)[k]| == |s| && IsPermutation(Enumeration(s)[k])
    decreases k
  {
    if k > 0 {
      EnumerationAt(s, k);
      var q := NextPerm(s).value;
      EnumerationMember(q, k - 1);
      PermutationEqual(Enumeration(s)[k], Enumeration(q)[k - 1], |s|);
    }
  }

  lemma PermutationEqual(x: seq<int>, y: seq<int>, n: nat)
    requires x == y && |y| == n && IsPermutation(y)
    ensures |x| == n && IsPermutation(x)
  {
  }

  /**
   * Each visited arrangement but the last is followed by its next_perm, and
   * next_perm returns false on the last.
   */
  lemma {:induction false} EnumerationSteps(s: seq<int>, k: nat)
    requires |s| >= 1 && IsPermutation(s) && k < |Enumeration(s)|
    ensures var e := Enumeration(s);
      && |e[k]| == |s| && IsPermutation(e[k])
      && (k < |e| - 1 ==> NextPerm(e[k]) == Some(e[k + 1]))
      && (k == |e| - 1 ==> NextPerm(e[k]).None?)
    decreases k
  {
    EnumerationMember(s, k);
    if k > 0 {
      EnumerationAt(s, k);
      var q := NextPerm(s).value;
      EnumerationSteps(q, k - 1);
      if k < |Enumeration(s)| - 1 {
        EnumerationAt(s, k + 1);
      }
    } else if |Enumeration(s)| > 1 {
      EnumerationAt(s, 1);
    } else {
      EnumerationUnfold(s);
    }
  }

  lemma ConsAt<T>(x: T, l: seq<T>, k: nat)
    requires 0 < k <= |l|
    ensures ([x] + l)[k] == l[k - 1]
  {
  }

  /** Past the first, the visited arrangements are those visited from next_perm(s). */
  lemma EnumerationAt(s: seq<int>, k: nat)
    requires |s| >= 1 && IsPermutation(s) && 0 < k < |Enumeration(s)|
    ensures NextPerm(s).Some?
    ensures var q := NextPerm(s).value;
      && |q| == |s| && IsPermutation(q)
      && |Enumeration(q)| == |Enumeration(s)| - 1
      && Enumeration(s)[k] == Enumeration(q)[k - 1]
  {
    EnumerationUnfold(s);
    NextPermStep(s);
    ConsAt(s, Enumeration(NextPerm(s).value), k);
  }

  /** Each step of the loop raises the numeral. */
  lemma EnumerationRankStep(s: seq<int>, k: nat)
    requires |s| >= 1 && IsPermutation(s) && k + 1 < |Enumeration(s)|
    ensures Rank(Enumeration(s)[k], |s|) < Rank(Enumeration(s)[k + 1], |s|)
  {
    var e := Enumeration(s);
    EnumerationSteps(s, k);
    NextPermStep(e[k]);
  }

  /** The visited arrangements strictly increase when read as base-n numerals. */
  lemma {:induction false} EnumerationRankIncreasing(s: seq<int>, j: nat, k: nat)
    requires |s| >= 1 && IsPermutation(s) && j < k < |Enumeration(s)|
    ensures Rank(Enumeration(s)[j], |s|) < Rank(Enumeration(s)[k], |s|)
    decreases k
  {
    EnumerationRankStep(s, k - 1);
    if j < k - 1 {
      EnumerationRankIncreasing(s, j, k - 1);
    }
  }

  /** For arrangements of the same size, a smaller numeral means earlier in lexicographic order. */
  lemma RankOrder(s: seq<int>, t: seq<int>, b: nat)
    requires b >= 1 && |s| == |t| && EntriesBelow(s, b) && EntriesBelow(t, b)
    requires Rank(s, b) < Rank(t, b)
    ensures LexLess(s, t)
  {
    if s != t && !LexLess(s, t) {
      LexTotal(s, t);
      RankLess(t, s, b);
    }
  }

  /** The visited arrangements strictly increase in lexicographic order. */
  lemma EnumerationIncreasing(s: seq<int>, j: nat, k: nat)
    requires |s| >= 1 && IsPermutation(s) && j < k < |Enumeration(s)|
    ensures LexLess(Enumeration(s)[j], Enumeration(s)[k])
  {
    var e := Enumeration(s);
    EnumerationMember(s, j);
    EnumerationMember(s, k);
    EnumerationRankIncreasing(s, j, k);
    RankOrder(e[j], e[k], |s|);
  }

  /** The visited arrangements have no repeats: next_perm never returns to one. */
  lemma EnumerationDistinct(s: seq<int>)
    requires |s| >= 1 && IsPermutation(s)
    ensures var e := Enumeration(s);
      forall j, k :: 0 <= j < k < |e| ==> e[j] != e[k]
  {
    var e := Enumeration(s);
    forall j, k | 0 <= j < k < |e| ensures e[j] != e[k] {
      EnumerationIncreasing(s, j, k);
      LexIrreflexive(e[j], e[k]);
    }
  }

  lemma LexIrreflexive(s: seq<int>, t: seq<int>)
    requires LexLess(s, t)
    ensures s != t
  {
    var d :| 0 <= d < |s| && s[..d] == t[..d] && s[d] < t[d];
  }

  /** The last visited arrangement is the strictly decreasing one. */
  lemma EnumerationLast(s: seq<int>)
    requires |s| >= 1 && IsPermutation(s)
    ensures var e := Enumeration(s);
      Decreasing(e[|e| - 1])
  {
    var e := Enumeration(s);
    EnumerationSteps(s, |e| - 1);
    NextPermNone(e[|e| - 1]);
  }

  /** Two permutations of the same size hold the same entries. */
  lemma PermutationMultiset(s: seq<int>, t: seq<int>)
    requires IsPermutation(s) && IsPermutation(t) && |s| == |t|
    ensures multiset(s) == multiset(t)
  {
    DistinctMultiplicity(s);
    DistinctMultiplicity(t);
    forall v ensures multiset(s)[v] == multiset(t)[v] {
      if 0 <= v < |s| {
        Onto(s, v);
        Onto(t, v);
        var i :| 0 <= i < |s| && s[i] == v;
        var j :| 0 <= j < |t| && t[j] == v;
        assert s[i] in multiset(s) && t[j] in multiset(t);
      } else {
        assert v !in s && v !in t;
      }
    }
  }

  /** Every permutation not before s is visited. */
  lemma {:induction false} EnumerationComplete(s: seq<int>, t: seq<int>)
    requires |s| >= 1 && IsPermutation(s) && IsPermutation(t) && |t| == |s|
    requires t == s || LexLess(s, t)
    ensures t in Enumeration(s)
    decreases Weight(|s|, |s|) - Rank(s, |s|)
  {
    var e := Enumeration(s);
    assert e[0] == s;
    PermutationMultiset(s, t);
    EnumerationUnfold(s);
    if NextPerm(s).None? {
      NextPermNone(s);
      DecreasingIsLast(s, t);
    } else if t != s {
      var q := NextPerm(s).value;
      NextPermStep(s);
      NextPermImmediate(s, t);
      if t != q {
        LexTotal(t, q);
      }
      EnumerationComplete(q, t);
    }
  }

  /** From the identity, the loop visits every permutation of its size. */
  lemma EnumerationFromIdentity(n: nat, t: seq<int>)
    requires n >= 1 && IsPermutation(t) && |t| == n
    ensures t in Enumeration(Identity(n))
  {
    var s := Identity(n);
    IdentityIsPermutation(n);
    if t != s {
      LexTotal(s, t);
      if LexLess(t, s) {
        IdentityIncreasing(n);
        PermutationMultiset(s, t);
        IncreasingIsFirst(s, t);
      }
      EnumerationComplete(s, t);
    } else {
      EnumerationComplete(s, t);
    }
  }

  lemma IdentityIncreasing(n: nat)
    ensures Increasing(Identity(n))
  {
  }

  /** Positions before i of ReverseFrom(u, i) are those of u. */
  lemma ReverseFromBefore(u: seq<int>, i: nat, x: nat)
    requires x < i <= |u|
    ensures ReverseFrom(u, i)[x] == u[x]
  {
    assert ReverseFrom(u, i)[x] == u[..i][x];
  }

  /** Positions x >= i of ReverseFrom(u, i) hold u read backwards from the end. */
  lemma ReverseFromAt(u: seq<int>, i: nat, x: nat)
    requires i <= x < |u|
    ensures ReverseFrom(u, i)[x] == u[i + |u| - 1 - x]
  {
    ReverseAt(u[i..], x - i);
  }

  /** An ascent at i with none after it, or 0 with none at all, is what LastAscent finds. */
  lemma {:induction false} LastAscentAt(s: seq<int>, i: nat, m: nat)
    requires i <= m < |s| && (0 < i ==> s[i - 1] < s[i])
    requires forall x :: i < x <= m ==> s[x - 1] >= s[x]
    ensures LastAscent(s, m) == i
  {
    if m > i {
      LastAscentAt(s, i, m - 1);
    }
  }

  // ---------------------------------------------------------------------------
  // class Permutation
  // ---------------------------------------------------------------------------

  /** The values a 1-based permutation of size |v| takes: each of 1..|v| once. */
  predicate OneBased(v: seq<int>)
  {
    (forall i :: 0 <= i < |v| ==> 1 <= v[i] <= |v|) && Distinct(v)
  }

  /** The C++ class: the size n and the buffer p of images, 0-based. */
  class Permutation {
    const n: nat
    const p: array<int>

    /** The class invariant: p holds a bijection on {0, ..., n - 1}. */
    ghost predicate Valid()
      reads p
    {
      p.Length == n && IsPermutation(p[..])
    }

    /** Permutation(size_t): the identity of size n. */
    constructor OfSize(n: nat)
      ensures Valid() && this.n == n && p[..] == Identity(n) && fresh(p)
    {
      this.n := n;
      var a := new int[n];
      for i := 0 to n
        invariant forall k :: 0 <= k < i ==> a[k] == k
      {
        a[i] := i;
      }
      assert a[..] == Identity(n);
      p := a;
    }

    /**
     * Permutation(const std::vector<int>&): copies v and decrements every
     * entry. The source assumes 1 <= v[i] <= n without checking; the object
     * is a valid permutation exactly when that assumption holds.
     */
    constructor OfOneBased(v: seq<int>)
      ensures n == |v| && p.Length == n && p[..] == FromOneBased(v) && fresh(p)
      ensures Valid() <==> OneBased(v)
    {
      n := |v|;
      var a := new int[|v|](k requires 0 <= k < |v| => v[k]);
      for i := 0 to |v|
        invariant forall k :: 0 <= k < i ==> a[k] == v[k] - 1
        invariant forall k :: i <= k < |v| ==> a[k] == v[k]
      {
        a[i] := a[i] - 1;
      }
      assert a[..] == FromOneBased(v);
      p := a;
      OneBasedValid(v);
    }

    /** operator*: ans[i] = p[other[i]]; a permutation of the same size. */
    method Times(other: Permutation) returns (ans: Permutation)
      requires Valid() && other.Valid() && other.n == n
      ensures fresh(ans) && fresh(ans.p) && ans.Valid() && ans.n == n
      ensures ans.p[..] == Compose(p[..], other.p[..])
    {
      ans := new Permutation.OfSize(n);
      for i := 0 to n
        invariant forall k :: 0 <= k < i ==> ans.p[k] == p[other.p[k]]
      {
        ans.p[i] := p[other.p[i]];
      }
      assert ans.p[..] == Compose(p[..], other.p[..]);
      ComposePermutation(p[..], other.p[..]);
    }

    /** operator^(-1): the loop ans[p[i]] = i builds the inverse. */
    method Invert() returns (ans: Permutation)
      requires Valid()
      ensures fresh(ans) && fresh(ans.p) && ans.Valid() && ans.n == n
      ensures ans.p[..] == Inverse(p[..])
    {
      ans := new Permutation.OfSize(n);
      for i := 0 to n
        invariant forall k :: 0 <= k < i ==> ans.p[p[k]] == k
      {
        assert forall k :: 0 <= k < i ==> p[..][k] != p[..][i];
        ans.p[p[i]] := i;
      }
      InverseUnique(p[..], ans.p[..]);
      InverseIsPermutation(p[..]);
    }

    /** operator^(pow): -1 is the inverse, 0 the identity, odd and even powers by halving. */
    method Pow(k: int) returns (ans: Permutation)
      requires Valid()
      ensures fresh(ans) && fresh(ans.p) && ans.Valid() && ans.n == n
      ensures ans.p[..] == Power(p[..], k)
      decreases PowerMeasure(k)
    {
      if k == -1 {
        ans := Invert();
      } else if k == 0 {
        ans := new Permutation.OfSize(n);
      } else if k % 2 != 0 {
        var a := Pow(k - 1);
        ans := a.Times(this);
      } else {
        var a := Pow(k / 2);
        var b := Pow(k / 2);
        ans := a.Times(b);
      }
    }

    /** operator==: agreement at each of the first n indices. */
    method Equals(other: Permutation) returns (b: bool)
      requires p.Length == n && other.p.Length >= n
      ensures b <==> forall i :: 0 <= i < n ==> p[i] == other.p[i]
      ensures other.p.Length == n ==> (b <==> p[..] == other.p[..])
    {
      for i := 0 to n
        invariant forall k :: 0 <= k < i ==> p[k] == other.p[k]
      {
        if p[i] != other.p[i] {
          return false;
        }
      }
      assert other.p.Length == n ==> p[..] == other.p[..];
      return true;
    }

    /**
     * next_perm: scans down for the last ascent, swaps p[i - 1] with the
     * smallest larger entry after it and reverses the suffix; false and p
     * untouched when there is no ascent.
     */
    method NextInPlace() returns (b: bool)
      requires Valid() && n >= 1
      modifies p
      ensures Valid() && NextPerm(old(p[..])) == (if b then Some(p[..]) else None)
      ensures !b ==> p[..] == old(p[..])
    {
      ghost var s := p[..];
      var i := FindAscent();
      if i != 0 {
        AdvanceAt(i);
        NextPermAt(s, i, MinAbove(s, i, i, i), Swap(s, MinAbove(s, i, i, i), i - 1));
        return true;
      }
      NextPermNoAscent(p[..]);
      return false;
    }

    /** The outer loop of next_perm: i runs down from n - 1 until p[i - 1] < p[i], or to 0. */
    method FindAscent() returns (i: nat)
      requires p.Length == n >= 1
      ensures i == LastAscent(p[..], n - 1)
    {
      i := n - 1;
      while i != 0 && p[i - 1] >= p[i]
        invariant 0 <= i <= n - 1
        invariant forall x :: i < x <= n - 1 ==> p[x - 1] >= p[x]
      {
        i := i - 1;
      }
      LastAscentAt(p[..], i, n - 1);
    }

    /** The body of next_perm once the last ascent i is found: swap, then reverse the suffix. */
    method AdvanceAt(i: nat)
      requires p.Length == n && 0 < i < n && p[i - 1] < p[i]
      modifies p
      ensures p[..] == ReverseFrom(Swap(old(p[..]), MinAbove(old(p[..]), i, i, i), i - 1), i)
    {
      ghost var s := p[..];
      var mn := SmallestAbove(i);
      p[mn], p[i - 1] := p[i - 1], p[mn];
      ghost var u := p[..];
      assert u == Swap(s, mn, i - 1);
      ReverseSuffix(i, u);
    }

    /** The inner scan of next_perm: the position of the smallest entry after i - 1 above p[i - 1]. */
    method SmallestAbove(i: nat) returns (mn: nat)
      requires 0 < i < n && p.Length == n && p[i - 1] < p[i]
      ensures i <= mn < n && mn == MinAbove(p[..], i, i, i)
    {
      ghost var s := p[..];
      mn := i;
      for j := i to n
        invariant i <= mn < n && s[i - 1] < s[mn]
        invariant MinAbove(s, i, j, mn) == MinAbove(s, i, i, i)
      {
        if p[i - 1] < p[j] && p[j] < p[mn] {
          mn := j;
        }
      }
    }

    /** The closing loop of next_perm: swaps p[j] and p[k] while j < k. */
    method ReverseSuffix(i: nat, ghost u: seq<int>)
      requires 0 < i < n && p.Length == n && p[..] == u
      modifies p
      ensures p[..] == ReverseFrom(u, i)
    {
      var j, k := i, n - 1;
      while j < k
        invariant i <= j <= k + 1 <= n && j + k == i + n - 1
        invariant forall x :: 0 <= x < i ==> p[x] == u[x]
        invariant forall x :: j <= x <= k ==> p[x] == u[x]
        invariant forall x :: i <= x < n && (x < j || k < x) ==> p[x] == u[i + n - 1 - x]
      {
        p[j], p[k] := p[k], p[j];
        j, k := j + 1, k - 1;
      }
      forall x | 0 <= x < n
        ensures p[x] == ReverseFrom(u, i)[x]
      {
        if i <= x {
          ReverseFromAt(u, i, x);
        }
      }
    }

    /** sign(): flips the sign once per pair i < j with p[i] > p[j]. */
    method CountSign() returns (sign: int)
      requires p.Length == n
      ensures sign == Sign(p[..])
    {
      sign := 1;
      for i := 0 to n
        invariant sign == NegOnePow(InversionsBelow(p[..], i))
      {
        for j := i + 1 to n
          invariant sign == NegOnePow(InversionsBelow(p[..], i) + RowInversions(p[..], i, j))
        {
          if p[i] > p[j] {
            sign := sign * -1;
          }
        }
      }
    }
  }

  /** The state the ascent branch of next_perm leaves behind is NextPerm's result. */
  lemma NextPermAt(s: seq<int>, i: nat, mn: nat, u: seq<int>)
    requires IsPermutation(s) && 0 < i < |s| && LastAscent(s, |s| - 1) == i
    requires mn == MinAbove(s, i, i, i)
    requires u == Swap(s, mn, i - 1)
    ensures NextPerm(s) == Some(ReverseFrom(u, i)) && IsPermutation(ReverseFrom(u, i))
  {
    NextPermIsPermutation(s);
  }

  lemma NextPermNoAscent(s: seq<int>)
    requires |s| >= 1 && LastAscent(s, |s| - 1) == 0
    ensures NextPerm(s) == None
  {
  }

  lemma OneBasedValid(v: seq<int>)
    ensures IsPermutation(FromOneBased(v)) <==> OneBased(v)
  {
    var r := FromOneBased(v);
    if IsPermutation(r) {
      assert forall i, j :: 0 <= i < j < |v| ==> r[i] != r[j] ==> v[i] != v[j];
    }
  }
}
