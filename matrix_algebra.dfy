/**
 * The arithmetic of linal::Matrix<T> (linal.h) on values: a matrix is the
 * sequence of its rows. Entries are exact reals, standing for the exact
 * entry types (Rational) the class is used with.
 */
module MatrixAlgebra {

  import P = Permutations

  type Mat = seq<seq<real>>

  /** Every row has c entries. */
  predicate Cols(a: Mat, c: nat)
  {
    forall i :: 0 <= i < |a| ==> |a[i]| == c
  }

  /** r rows of c entries each: the invariant tying a to the fields n and m. */
  predicate Rect(a: Mat, r: nat, c: nat)
  {
    |a| == r && Cols(a, c)
  }

  /** Matrix(n, m): n rows of m zeros. */
  function Zeros(r: nat, c: nat): (z: Mat)
    ensures Rect(z, r, c)
  {
    seq(r, _ => seq(c, _ => 0.0))
  }

  /** The n x n identity, as operator^(0) writes it. */
  function IdentityMatrix(n: nat): (e: Mat)
    ensures Rect(e, n, n)
  {
    seq(n, i => seq(n, j => if i == j then 1.0 else 0.0))
  }

  // ---------------------------------------------------------------------------
  // operator*
  // ---------------------------------------------------------------------------

  /** a[i][0] * b[0][j] + ... + a[i][l - 1] * b[l - 1][j]: ans[i][j] after l steps of the k loop. */
  function DotUpTo(a: Mat, b: Mat, i: nat, j: nat, l: nat): real
    requires i < |a| && l <= |a[i]| && l <= |b|
    requires forall k :: 0 <= k < l ==> j < |b[k]|
  {
    if l == 0 then 0.0 else DotUpTo(a, b, i, j, l - 1) + a[i][l - 1] * b[l - 1][j]
  }

  /** The product of a (rows of m entries) and the first m rows of b (rows of p entries). */
  function Product(a: Mat, b: Mat, m: nat, p: nat): (c: Mat)
    requires Cols(a, m) && m <= |b| && Cols(b, p)
    ensures Rect(c, |a|, p)
  {
    seq(|a|, i requires 0 <= i < |a| => seq(p, j requires 0 <= j < p => DotUpTo(a, b, i, j, m)))
  }

  lemma {:induction false} DotIdentityLeft(a: Mat, n: nat, p: nat, i: nat, j: nat, l: nat)
    requires Rect(a, n, p) && i < n && j < p && l <= n
    ensures DotUpTo(IdentityMatrix(n), a, i, j, l) == if i < l then a[i][j] else 0.0
  {
    if l > 0 {
      DotIdentityLeft(a, n, p, i, j, l - 1);
    }
  }

  lemma {:induction false} DotIdentityRight(a: Mat, m: nat, i: nat, j: nat, l: nat)
    requires Cols(a, m) && i < |a| && j < m && l <= m
    ensures DotUpTo(a, IdentityMatrix(m), i, j, l) == if j < l then a[i][j] else 0.0
  {
    if l > 0 {
      DotIdentityRight(a, m, i, j, l - 1);
    }
  }

  /** The identity is a left unit of the product. */
  lemma ProductIdentityLeft(a: Mat, n: nat, p: nat)
    requires Rect(a, n, p)
    ensures Product(IdentityMatrix(n), a, n, p) == a
  {
    var c := Product(IdentityMatrix(n), a, n, p);
    forall i | 0 <= i < n
      ensures c[i] == a[i]
    {
      forall j | 0 <= j < p
        ensures c[i][j] == a[i][j]
      {
        DotIdentityLeft(a, n, p, i, j, n);
      }
    }
  }

  /** The identity is a right unit of the product. */
  lemma ProductIdentityRight(a: Mat, m: nat)
    requires Cols(a, m)
    ensures Product(a, IdentityMatrix(m), m, m) == a
  {
    var c := Product(a, IdentityMatrix(m), m, m);
    forall i | 0 <= i < |a|
      ensures c[i] == a[i]
    {
      forall j | 0 <= j < m
        ensures c[i][j] == a[i][j]
      {
        DotIdentityRight(a, m, i, j, m);
      }
    }
  }

  /** The summands of (a b)[i][j] are those of (b^T a^T)[j][i], commuted. */
  lemma {:induction false} DotTranspose(a: Mat, b: Mat, m: nat, p: nat, i: nat, j: nat, l: nat)
    requires Cols(a, m) && m <= |b| && Cols(b, p) && i < |a| && j < p && l <= m
    ensures DotUpTo(a, b, i, j, l) == DotUpTo(Transpose(b, p), Transpose(a, m), j, i, l)
  {
    if l > 0 {
      DotTranspose(a, b, m, p, i, j, l - 1);
    }
  }

  /** (a b)^T = b^T a^T, for an m-column a and an m-row b. */
  lemma ProductTranspose(a: Mat, b: Mat, m: nat, p: nat)
    requires Cols(a, m) && |b| == m && Cols(b, p)
    ensures Transpose(Product(a, b, m, p), p) == Product(Transpose(b, p), Transpose(a, m), m, |a|)
  {
    var l := Transpose(Product(a, b, m, p), p);
    var r := Product(Transpose(b, p), Transpose(a, m), m, |a|);
    forall j | 0 <= j < p
      ensures l[j] == r[j]
    {
      forall i | 0 <= i < |a|
        ensures l[j][i] == r[j][i]
      {
        DotTranspose(a, b, m, p, i, j, m);
      }
    }
  }

  // ---------------------------------------------------------------------------
  // operator^
  // ---------------------------------------------------------------------------

  /**
   * The shapes on which operator^(pow) stays inside the rows it reads and
   * writes: pow == 1 copies any matrix; pow == 0 writes the n x n corner, so
   * it needs m >= n; pow >= 2 multiplies an n x m matrix by itself, whose k
   * loop reads rows up to m - 1, so it needs m <= n.
   */
  predicate PowerDefined(n: nat, m: nat, k: nat)
  {
    k == 1 || (k == 0 && n <= m) || (k >= 2 && m <= n)
  }

  /** operator^(0): the n x n corner becomes the identity, the columns beyond it are kept. */
  function IdentityCorner(a: Mat, n: nat, m: nat): (r: Mat)
    requires Rect(a, n, m) && n <= m
    ensures Rect(r, n, m)
  {
    seq(n, i requires 0 <= i < n => seq(m, j requires 0 <= j < m => if j < n then (if i == j then 1.0 else 0.0) else a[i][j]))
  }

  /** operator^(pow): the identity corner for 0, a for 1, and each further step multiplies by a on the right. */
  function MatPower(a: Mat, n: nat, m: nat, k: nat): (r: Mat)
    requires Rect(a, n, m) && PowerDefined(n, m, k)
    ensures Rect(r, n, m)
  {
    if k == 0 then IdentityCorner(a, n, m)
    else if k == 1 then a
    else Product(MatPower(a, n, m, k - 1), a, m, m)
  }

  /** A^0 agrees with the identity on the n x n corner and with a beyond it; for a square a it is the identity. */
  lemma PowerZero(a: Mat, n: nat, m: nat)
    requires Rect(a, n, m) && n <= m
    ensures forall i :: 0 <= i < n ==> MatPower(a, n, m, 0)[i][..n] == IdentityMatrix(n)[i]
    ensures forall i, j :: 0 <= i < n && n <= j < m ==> MatPower(a, n, m, 0)[i][j] == a[i][j]
    ensures n == m ==> MatPower(a, n, m, 0) == IdentityMatrix(n)
  {
    var r := MatPower(a, n, m, 0);
    forall i | 0 <= i < n
      ensures r[i][..n] == IdentityMatrix(n)[i]
    {
    }
    if n == m {
      forall i | 0 <= i < n
        ensures r[i] == IdentityMatrix(n)[i]
      {
        assert r[i] == r[i][..n];
      }
    }
  }

  /** Every power, the first included, is the previous one times a: the special case for 1 agrees. */
  lemma PowerStep(a: Mat, n: nat, m: nat, k: nat)
    requires Rect(a, n, m) && m <= n && PowerDefined(n, m, k)
    ensures PowerDefined(n, m, k + 1)
    ensures MatPower(a, n, m, k + 1) == Product(MatPower(a, n, m, k), a, m, m)
  {
    if k == 0 {
      PowerZero(a, n, m);
      ProductIdentityLeft(a, n, n);
    }
  }

  /** Every power of the identity is the identity. */
  lemma {:induction false} PowerOfIdentity(n: nat, k: nat)
    ensures MatPower(IdentityMatrix(n), n, n, k) == IdentityMatrix(n)
  {
    if k == 0 {
      PowerZero(IdentityMatrix(n), n, n);
    } else if k > 1 {
      PowerOfIdentity(n, k - 1);
      ProductIdentityLeft(IdentityMatrix(n), n, n);
    }
  }

  // ---------------------------------------------------------------------------
  // operator-, transpose, append_down, append_right
  // ---------------------------------------------------------------------------

  /** operator-: the entrywise difference of two n x n matrices. */
  function Difference(a: Mat, b: Mat, n: nat): (d: Mat)
    requires Rect(a, n, n) && Rect(b, n, n)
    ensures Rect(d, n, n)
  {
    seq(n, i requires 0 <= i < n => seq(n, j requires 0 <= j < n => a[i][j] - b[i][j]))
  }

  /** a - a is the zero matrix, and a - 0 is a. */
  lemma DifferenceLaws(a: Mat, n: nat)
    requires Rect(a, n, n)
    ensures Difference(a, a, n) == Zeros(n, n)
    ensures Difference(a, Zeros(n, n), n) == a
  {
    var d := Difference(a, Zeros(n, n), n);
    forall i | 0 <= i < n
      ensures d[i] == a[i]
    {
    }
    var z := Difference(a, a, n);
    forall i | 0 <= i < n
      ensures z[i] == Zeros(n, n)[i]
    {
    }
  }

  /** transpose(): ans[j][i] = a[i][j], an m x n matrix for an n x m one. */
  function Transpose(a: Mat, c: nat): (t: Mat)
    requires Cols(a, c)
    ensures Rect(t, c, |a|)
  {
    seq(c, j requires 0 <= j < c => seq(|a|, i requires 0 <= i < |a| => a[i][j]))
  }

  /** Transposing twice gives back the matrix, even with no rows or no columns. */
  lemma TransposeInvolutive(a: Mat, c: nat)
    requires Cols(a, c)
    ensures Transpose(Transpose(a, c), |a|) == a
  {
    var t := Transpose(Transpose(a, c), |a|);
    forall i | 0 <= i < |a|
      ensures t[i] == a[i]
    {
    }
  }

  /** append_right on values: row i of a extended by row i of b. */
  function AppendRight(a: Mat, b: Mat): (r: Mat)
    requires |b| == |a|
    ensures |r| == |a| && forall i :: 0 <= i < |a| ==> |r[i]| == |a[i]| + |b[i]|
  {
    seq(|a|, i requires 0 <= i < |a| => a[i] + b[i])
  }

  /** Appending to the right is appending the transposes below, transposed. */
  lemma AppendRightByTranspose(a: Mat, b: Mat, c: nat, d: nat)
    requires Cols(a, c) && Cols(b, d) && |b| == |a|
    ensures AppendRight(a, b) == Transpose(Transpose(a, c) + Transpose(b, d), |a|)
  {
    var l := AppendRight(a, b);
    var r := Transpose(Transpose(a, c) + Transpose(b, d), |a|);
    forall i | 0 <= i < |a|
      ensures l[i] == r[i]
    {
      forall j | 0 <= j < c + d
        ensures l[i][j] == r[i][j]
      {
        if j < c {
          assert r[i][j] == Transpose(a, c)[j][i];
        } else {
          assert r[i][j] == Transpose(b, d)[j - c][i];
        }
      }
    }
  }

  // ---------------------------------------------------------------------------
  // det: the Leibniz sum over the permutations next_perm enumerates
  // ---------------------------------------------------------------------------

  /** a[0][s[0]] * ... * a[k - 1][s[k - 1]]: the product loop of det(). */
  function DiagProduct(a: Mat, s: seq<int>, k: nat): real
    requires k <= |a| && k <= |s| && forall i :: 0 <= i < k ==> 0 <= s[i] < |a[i]|
  {
    if k == 0 then 1.0 else DiagProduct(a, s, k - 1) * a[k - 1][s[k - 1]]
  }

  /** The summand of one permutation: p.sign() * sum, written as a case split on the sign, which is 1 or -1. */
  function Term(a: Mat, s: seq<int>, n: nat): real
    requires Rect(a, n, n) && |s| == n && P.InRange(s)
  {
    var d := DiagProduct(a, s, n);
    if P.Sign(s) == 1 then d else -d
  }

  /** The permutations in ps all have size n. */
  predicate AllOfSize(ps: seq<seq<int>>, n: nat)
  {
    forall k :: 0 <= k < |ps| ==> |ps[k]| == n && P.InRange(ps[k])
  }

  /** The accumulator ans of det() after the permutations ps. */
  function LeibnizSum(a: Mat, n: nat, ps: seq<seq<int>>): real
    requires Rect(a, n, n) && AllOfSize(ps, n)
  {
    if |ps| == 0 then 0.0
    else LeibnizSum(a, n, ps[..|ps| - 1]) + Term(a, ps[|ps| - 1], n)
  }

  /** The permutations det() visits: next_perm's enumeration from the identity. */
  function Perms(n: nat): (ps: seq<seq<int>>)
    requires n >= 1
    ensures |ps| >= 1 && ps[0] == P.Identity(n) && AllOfSize(ps, n)
  {
    P.IdentityIsPermutation(n);
    EnumerationOfSize(n);
    P.Enumeration(P.Identity(n))
  }

  lemma EnumerationOfSize(n: nat)
    requires n >= 1
    ensures P.IsPermutation(P.Identity(n)) && AllOfSize(P.Enumeration(P.Identity(n)), n)
  {
    P.IdentityIsPermutation(n);
    var ps := P.Enumeration(P.Identity(n));
    forall k | 0 <= k < |ps|
      ensures |ps[k]| == n && P.IsPermutation(ps[k])
    {
      P.EnumerationMember(P.Identity(n), k);
    }
  }

  /**
   * det(): the sum over all permutations s of sign(s) * a[0][s[0]] * ... ;
   * Perms(n) holds every permutation of size n exactly once
   * (Permutations.EnumerationFromIdentity, Permutations.EnumerationDistinct).
   */
  function Det(a: Mat, n: nat): real
    requires n >= 1 && Rect(a, n, n)
  {
    LeibnizSum(a, n, Perms(n))
  }

  /** Every arrangement det() visits is a permutation of size n. */
  lemma PermsMember(n: nat, k: nat)
    requires n >= 1 && k < |Perms(n)|
    ensures |Perms(n)[k]| == n && P.IsPermutation(Perms(n)[k])
  {
    P.IdentityIsPermutation(n);
    P.EnumerationMember(P.Identity(n), k);
  }

  /** The loop of det() adds one term per permutation, in order. */
  lemma {:induction false} LeibnizPrefix(a: Mat, n: nat, ps: seq<seq<int>>, k: nat)
    requires Rect(a, n, n) && AllOfSize(ps, n) && k < |ps|
    ensures LeibnizSum(a, n, ps[..k + 1]) == LeibnizSum(a, n, ps[..k]) + Term(a, ps[k], n)
  {
    assert ps[..k + 1][..k] == ps[..k];
  }

  /** The summand sign * sum that det() adds for the permutation s. */
  lemma TermOf(a: Mat, n: nat, s: seq<int>, sign: int, sum: real)
    requires Rect(a, n, n) && |s| == n && P.InRange(s)
    requires sign == P.Sign(s) && sum == DiagProduct(a, s, n)
    ensures (sign as real) * sum == Term(a, s, n)
  {
  }

  /** Each permutation det() visits is followed by its next_perm, and next_perm fails on the last. */
  lemma PermsSteps(n: nat, k: nat)
    requires n >= 1 && k < |Perms(n)|
    ensures k + 1 < |Perms(n)| ==> P.NextPerm(Perms(n)[k]).Some? && P.NextPerm(Perms(n)[k]).value == Perms(n)[k + 1]
    ensures k + 1 == |Perms(n)| ==> P.NextPerm(Perms(n)[k]).None?
  {
    P.IdentityIsPermutation(n);
    P.EnumerationSteps(P.Identity(n), k);
  }

  /** What next_perm returns on the k-th permutation det() visits: true and the next one, or false on the last. */
  lemma PermsAdvance(n: nat, k: nat, s: seq<int>, b: bool, t: seq<int>)
    requires n >= 1 && k < |Perms(n)| && s == Perms(n)[k]
    requires b ==> P.NextPerm(s).Some? && P.NextPerm(s).value == t
    requires !b ==> P.NextPerm(s).None?
    ensures b ==> k + 1 < |Perms(n)| && t == Perms(n)[k + 1]
    ensures !b ==> k + 1 == |Perms(n)|
  {
    PermsSteps(n, k);
  }

  /** A product with a zero factor is zero. */
  lemma {:induction false} DiagProductZero(a: Mat, s: seq<int>, k: nat, r: nat)
    requires k <= |a| && k <= |s| && forall i :: 0 <= i < k ==> 0 <= s[i] < |a[i]|
    requires r < k && a[r][s[r]] == 0.0
    ensures DiagProduct(a, s, k) == 0.0
  {
    if k - 1 > r {
      DiagProductZero(a, s, k - 1, r);
    }
  }

  /** The identity contributes 1 along itself. */
  lemma {:induction false} DiagProductIdentity(n: nat, k: nat)
    requires k <= n
    ensures DiagProduct(IdentityMatrix(n), P.Identity(n), k) == 1.0
  {
    if k > 0 {
      DiagProductIdentity(n, k - 1);
    }
  }

  /** A sum of zero terms is zero. */
  lemma {:induction false} LeibnizZero(a: Mat, n: nat, ps: seq<seq<int>>)
    requires Rect(a, n, n) && AllOfSize(ps, n)
    requires forall k :: 0 <= k < |ps| ==> DiagProduct(a, ps[k], n) == 0.0
    ensures LeibnizSum(a, n, ps) == 0.0
  {
    if |ps| > 0 {
      LeibnizZero(a, n, ps[..|ps| - 1]);
    }
  }

  /** A matrix with a zero row has determinant 0. */
  lemma DetZeroRow(a: Mat, n: nat, r: nat)
    requires n >= 1 && Rect(a, n, n) && r < n
    requires forall j :: 0 <= j < n ==> a[r][j] == 0.0
    ensures Det(a, n) == 0.0
  {
    var ps := Perms(n);
    forall k | 0 <= k < |ps|
      ensures DiagProduct(a, ps[k], n) == 0.0
    {
      DiagProductZero(a, ps[k], n, r);
    }
    LeibnizZero(a, n, ps);
  }

  /** A permutation other than the identity picks an off-diagonal zero of the identity matrix. */
  lemma OffIdentity(n: nat, s: seq<int>)
    requires |s| == n && P.InRange(s) && s != P.Identity(n)
    ensures DiagProduct(IdentityMatrix(n), s, n) == 0.0
  {
    assert exists i :: 0 <= i < n && s[i] != P.Identity(n)[i];
    var i :| 0 <= i < n && s[i] != i;
    DiagProductZero(IdentityMatrix(n), s, n, i);
  }

  /** det of the identity is 1: only the first permutation, the identity, contributes. */
  lemma DetIdentity(n: nat)
    requires n >= 1
    ensures Det(IdentityMatrix(n), n) == 1.0
  {
    var e := IdentityMatrix(n);
    var ps := Perms(n);
    P.IdentityIsPermutation(n);
    P.EnumerationDistinct(P.Identity(n));
    assert ps == P.Enumeration(P.Identity(n));
    var rest := ps[1..];
    forall k | 0 <= k < |rest|
      ensures DiagProduct(e, rest[k], n) == 0.0
    {
      assert rest[k] == ps[k + 1] && ps[0] != ps[k + 1];
      OffIdentity(n, rest[k]);
    }
    LeibnizZero(e, n, rest);
    LeibnizSplit(e, n, ps);
    DiagProductIdentity(n, n);
    P.SignIdentity(n);
  }

  /** The sum splits into the first term and the rest. */
  lemma {:induction false} LeibnizSplit(a: Mat, n: nat, ps: seq<seq<int>>)
    requires Rect(a, n, n) && AllOfSize(ps, n) && |ps| >= 1
    ensures LeibnizSum(a, n, ps) == Term(a, ps[0], n) + LeibnizSum(a, n, ps[1..])
  {
    if |ps| > 1 {
      LeibnizSplit(a, n, ps[..|ps| - 1]);
      assert ps[..|ps| - 1][1..] == ps[1..][..|ps| - 2];
      assert ps[..|ps| - 1][0] == ps[0];
    } else {
      assert ps[..0] == [];
    }
  }

  // ---------------------------------------------------------------------------
  // inverse: the adjugate divided by det
  // ---------------------------------------------------------------------------

  /** Every row of a with entry j removed. */
  function DropColumn(a: Mat, j: nat): (b: Mat)
    requires forall k :: 0 <= k < |a| ==> j < |a[k]|
    ensures |b| == |a|
    decreases |a|
  {
    if a == [] then [] else DropColumn(a[..|a| - 1], j) + [a[|a| - 1][..j] + a[|a| - 1][j + 1..]]
  }

  lemma {:induction false} DropColumnAt(a: Mat, j: nat, k: nat)
    requires forall k :: 0 <= k < |a| ==> j < |a[k]|
    requires k < |a|
    ensures DropColumn(a, j)[k] == a[k][..j] + a[k][j + 1..]
    decreases |a|
  {
    if k < |a| - 1 {
      DropColumnAt(a[..|a| - 1], j, k);
    }
  }

  /** The matrix b of inverse(): a without row i and column j, filled by four quadrant loops. */
  function Minor(a: Mat, n: nat, i: nat, j: nat): (b: Mat)
    requires n >= 1 && Rect(a, n, n) && i < n && j < n
    ensures Rect(b, n - 1, n - 1)
  {
    var rows := a[..i] + a[i + 1..];
    assert forall k :: 0 <= k < |rows| ==> |rows[k]| == n;
    MinorRect(rows, n, j);
    DropColumn(rows, j)
  }

  lemma MinorRect(rows: Mat, n: nat, j: nat)
    requires j < n && forall k :: 0 <= k < |rows| ==> |rows[k]| == n
    ensures Cols(DropColumn(rows, j), n - 1)
  {
    forall k | 0 <= k < |rows|
      ensures |DropColumn(rows, j)[k]| == n - 1
    {
      DropColumnAt(rows, j, k);
    }
  }

  /** Entry (k, l) of the minor is the entry of a past row i and column j. */
  lemma MinorAt(a: Mat, n: nat, i: nat, j: nat, k: nat, l: nat)
    requires n >= 1 && Rect(a, n, n) && i < n && j < n && k < n - 1 && l < n - 1
    ensures Minor(a, n, i, j)[k][l] == a[if k < i then k else k + 1][if l < j then l else l + 1]
  {
    var rows := a[..i] + a[i + 1..];
    DropColumnAt(rows, j, k);
  }

  /** The cofactor of (i, j): det of the minor, negated for odd i + j. */
  function Cofactor(a: Mat, n: nat, i: nat, j: nat): real
    requires n >= 2 && Rect(a, n, n) && i < n && j < n
  {
    var d := Det(Minor(a, n, i, j), n - 1);
    if (i + j) % 2 == 1 then -d else d
  }

  /** The cofactor from the determinant d of the minor, negated by the source's `*= -1` for odd i + j. */
  lemma CofactorOf(a: Mat, n: nat, i: nat, j: nat, d: real, x: real)
    requires n >= 2 && Rect(a, n, n) && i < n && j < n
    requires d == Det(Minor(a, n, i, j), n - 1) && x == if (i + j) % 2 == 1 then d * -1.0 else d
    ensures x == Cofactor(a, n, i, j)
  {
  }

  /** The matrix of all cofactors: entry (i, j) is cofactor(i, j). */
  function Cofactors(a: Mat, n: nat): (c: Mat)
    requires n >= 2 && Rect(a, n, n)
    ensures Rect(c, n, n)
  {
    seq(n, i requires 0 <= i < n => seq(n, j requires 0 <= j < n => Cofactor(a, n, i, j)))
  }

  /** Entries i < k of row j of the transpose of c divided by d. */
  function AdjugateRow(c: Mat, d: real, j: nat, k: nat): (r: seq<real>)
    requires k <= |c| && (forall t :: 0 <= t < k ==> j < |c[t]|) && d != 0.0
    ensures |r| == k
    decreases k
  {
    if k == 0 then [] else AdjugateRow(c, d, j, k - 1) + [c[k - 1][j] / d]
  }

  /** Rows j < k of the transpose of the n x n matrix c divided by d. */
  function AdjugateRows(c: Mat, d: real, n: nat, k: nat): (r: Mat)
    requires Rect(c, n, n) && d != 0.0 && k <= n
    ensures Rect(r, k, n)
    decreases k
  {
    if k == 0 then [] else AdjugateRows(c, d, n, k - 1) + [AdjugateRow(c, d, k - 1, n)]
  }

  lemma {:induction false} AdjugateRowAt(c: Mat, d: real, j: nat, k: nat, i: nat)
    requires k <= |c| && (forall t :: 0 <= t < k ==> j < |c[t]|) && d != 0.0 && i < k
    ensures AdjugateRow(c, d, j, k)[i] == c[i][j] / d
    decreases k
  {
    if i < k - 1 {
      AdjugateRowAt(c, d, j, k - 1, i);
    }
  }

  lemma {:induction false} AdjugateRowsAt(c: Mat, d: real, n: nat, k: nat, j: nat)
    requires Rect(c, n, n) && d != 0.0 && j < k <= n
    ensures AdjugateRows(c, d, n, k)[j] == AdjugateRow(c, d, j, n)
    decreases k
  {
    if j < k - 1 {
      AdjugateRowsAt(c, d, n, k - 1, j);
    }
  }

  /** inverse(): ans[j][i] = cofactor(i, j) / det. */
  function InverseMatrix(a: Mat, n: nat): (r: Mat)
    requires n >= 2 && Rect(a, n, n) && Det(a, n) != 0.0
    ensures Rect(r, n, n)
  {
    AdjugateRows(Cofactors(a, n), Det(a, n), n, n)
  }

  /** Entry (j, i) of the inverse is cofactor(i, j) / det. */
  lemma InverseAt(a: Mat, n: nat, i: nat, j: nat, x: real)
    requires n >= 2 && Rect(a, n, n) && Det(a, n) != 0.0 && i < n && j < n
    requires x == Cofactor(a, n, i, j) / Det(a, n)
    ensures InverseMatrix(a, n)[j][i] == x
  {
    var c := Cofactors(a, n);
    AdjugateRowsAt(c, Det(a, n), n, n, j);
    AdjugateRowAt(c, Det(a, n), j, n, i);
  }

  /** Removing row and column i of the identity leaves the identity. */
  lemma MinorOfIdentityDiagonal(n: nat, i: nat)
    requires n >= 2 && i < n
    ensures Minor(IdentityMatrix(n), n, i, i) == IdentityMatrix(n - 1)
  {
    var b := Minor(IdentityMatrix(n), n, i, i);
    forall k | 0 <= k < n - 1
      ensures b[k] == IdentityMatrix(n - 1)[k]
    {
      forall l | 0 <= l < n - 1
        ensures b[k][l] == IdentityMatrix(n - 1)[k][l]
      {
        MinorAt(IdentityMatrix(n), n, i, i, k, l);
      }
    }
  }

  /** Removing row i and another column j of the identity leaves a zero row: the one of row j. */
  lemma MinorOfIdentityZeroRow(n: nat, i: nat, j: nat)
    requires n >= 2 && i < n && j < n && i != j
    ensures var k := if j < i then j else j - 1;
      forall l :: 0 <= l < n - 1 ==> Minor(IdentityMatrix(n), n, i, j)[k][l] == 0.0
  {
    var b := Minor(IdentityMatrix(n), n, i, j);
    var k := if j < i then j else j - 1;
    forall l | 0 <= l < n - 1
      ensures b[k][l] == 0.0
    {
      var c := if l < j then l else l + 1;
      MinorAt(IdentityMatrix(n), n, i, j, k, l);
      assert b[k][l] == IdentityMatrix(n)[j][c] && c != j;
    }
  }

  /** The minors of the identity: the identity on the diagonal, a zero row off it. */
  lemma DetMinorOfIdentity(n: nat, i: nat, j: nat)
    requires n >= 2 && i < n && j < n
    ensures Det(Minor(IdentityMatrix(n), n, i, j), n - 1) == if i == j then 1.0 else 0.0
  {
    if i == j {
      MinorOfIdentityDiagonal(n, i);
      DetIdentity(n - 1);
    } else {
      MinorOfIdentityZeroRow(n, i, j);
      DetZeroRow(Minor(IdentityMatrix(n), n, i, j), n - 1, if j < i then j else j - 1);
    }
  }

  /** The cofactors of the identity are the entries of the identity. */
  lemma CofactorOfIdentity(n: nat, i: nat, j: nat)
    requires n >= 2 && i < n && j < n
    ensures Cofactor(IdentityMatrix(n), n, i, j) == if i == j then 1.0 else 0.0
  {
    DetMinorOfIdentity(n, i, j);
    if i == j {
      EvenDouble(i);
    }
  }

  lemma EvenDouble(i: nat)
    ensures (i + i) % 2 == 0
  {
  }

  /** The identity is its own inverse. */
  lemma InverseOfIdentity(n: nat)
    requires n >= 2
    ensures Det(IdentityMatrix(n), n) == 1.0
    ensures InverseMatrix(IdentityMatrix(n), n) == IdentityMatrix(n)
  {
    var e := IdentityMatrix(n);
    DetIdentity(n);
    var r := InverseMatrix(e, n);
    forall j | 0 <= j < n
      ensures r[j] == e[j]
    {
      forall i | 0 <= i < n
        ensures r[j][i] == e[j][i]
      {
        InverseOfIdentityAt(n, i, j);
      }
    }
  }

  lemma InverseOfIdentityAt(n: nat, i: nat, j: nat)
    requires n >= 2 && i < n && j < n && Det(IdentityMatrix(n), n) == 1.0
    ensures InverseMatrix(IdentityMatrix(n), n)[j][i] == IdentityMatrix(n)[j][i]
  {
    var e := IdentityMatrix(n);
    var c := Cofactor(e, n, i, j);
    CofactorOfIdentity(n, i, j);
    InverseAt(e, n, i, j, c / Det(e, n));
    DivideByOne(c, Det(e, n));
  }

  lemma DivideByOne(c: real, d: real)
    requires d == 1.0
    ensures c / d == c
  {
  }
}
