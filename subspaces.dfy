/**
 * rk(), ker(), is_solution(), im() and sum() of linal.h on values: each is
 * read off the reduced row-echelon form that gauss() returns.
 */
module Subspaces {

  import opened MatrixAlgebra
  import opened Elimination

  // ---------------------------------------------------------------------------
  // rk()
  // ---------------------------------------------------------------------------

  /** The number of rows before k with a nonzero entry: the count rk() keeps. */
  function NonzeroCount(g: Mat, k: nat): (q: nat)
    requires k <= |g|
    ensures q <= k
  {
    if k == 0 then 0 else NonzeroCount(g, k - 1) + (if IsZeroRow(g[k - 1]) then 0 else 1)
  }

  /** rk(): the nonzero rows of gauss(). */
  function Rank(a: Mat, m: nat): (r: nat)
    requires Cols(a, m)
    ensures r <= |a|
  {
    NonzeroCount(Gauss(a, m), |a|)
  }

  /** In reduced row-echelon form the r-th row, when nonzero, leads at column r or later. */
  lemma {:induction false} LeadAtLeastIndex(g: Mat, m: nat, r: nat)
    requires IsRref(g, m) && r < |g| && !IsZeroRow(g[r])
    ensures r <= Lead(g[r]) < m
  {
    ZeroRowLead(g[r]);
    if r > 0 {
      if IsZeroRow(g[r - 1]) {
        ZeroRowsLast(g, m, r - 1, r);
      }
      LeadAtLeastIndex(g, m, r - 1);
    }
  }

  /** A reduced row-echelon form has at most as many nonzero rows as columns. */
  lemma {:induction false} NonzeroCountBound(g: Mat, m: nat, k: nat)
    requires IsRref(g, m) && k <= |g|
    ensures NonzeroCount(g, k) <= m
  {
    if k > 0 {
      NonzeroCountBound(g, m, k - 1);
      if !IsZeroRow(g[k - 1]) {
        LeadAtLeastIndex(g, m, k - 1);
      }
    }
  }

  /** The rank is at most the number of rows and at most the number of columns. */
  lemma {:induction false} RankBounds(a: Mat, m: nat)
    requires Cols(a, m)
    ensures Rank(a, m) <= |a| && Rank(a, m) <= m
  {
    GaussRref(a, m);
    NonzeroCountBound(Gauss(a, m), m, |a|);
  }

  /** Eliminating first does not change the rank. */
  lemma {:induction false} RankOfGauss(a: Mat, m: nat)
    requires Cols(a, m)
    ensures Rank(Gauss(a, m), m) == Rank(a, m)
  {
    GaussIdempotent(a, m);
  }

  /** When every row before k is nonzero, all of them count. */
  lemma {:induction false} NonzeroCountAll(g: Mat, k: nat)
    requires k <= |g| && forall r :: 0 <= r < k ==> !IsZeroRow(g[r])
    ensures NonzeroCount(g, k) == k
  {
    if k > 0 {
      NonzeroCountAll(g, k - 1);
    }
  }

  /** When every row before k is zero, none counts. */
  lemma {:induction false} NonzeroCountNone(g: Mat, k: nat)
    requires k <= |g| && forall r :: 0 <= r < k ==> IsZeroRow(g[r])
    ensures NonzeroCount(g, k) == 0
  {
    if k > 0 {
      NonzeroCountNone(g, k - 1);
    }
  }

  /** Row r of the identity leads with its 1 at column r. */
  lemma {:induction false} IdentityLead(n: nat, r: nat)
    requires r < n
    ensures Lead(IdentityMatrix(n)[r]) == r
  {
    LeadIs(IdentityMatrix(n)[r], r);
  }

  /** The identity is in reduced row-echelon form. */
  lemma {:induction false} IdentityRref(n: nat)
    ensures IsRref(IdentityMatrix(n), n)
  {
    var e := IdentityMatrix(n);
    forall r | 0 <= r < n
      ensures Lead(e[r]) == r
    {
      IdentityLead(n, r);
    }
  }

  /** The identity of size n has rank n. */
  lemma {:induction false} RankIdentity(n: nat)
    ensures Rank(IdentityMatrix(n), n) == n
  {
    var e := IdentityMatrix(n);
    IdentityRref(n);
    GaussOfRref(e, n);
    forall r | 0 <= r < n
      ensures !IsZeroRow(e[r])
    {
      assert e[r][r] == 1.0;
    }
    NonzeroCountAll(e, n);
  }

  /** A zero matrix has rank 0. */
  lemma {:induction false} RankZero(r: nat, c: nat)
    ensures Rank(Zeros(r, c), c) == 0
  {
    var z := Zeros(r, c);
    forall s | 0 <= s < r
      ensures IsZeroRow(z[s]) && Lead(z[s]) == c
    {
      ZeroRowLead(z[s]);
    }
    GaussOfRref(z, c);
    NonzeroCountNone(z, r);
  }

  // ---------------------------------------------------------------------------
  // is_solution()
  // ---------------------------------------------------------------------------

  /** is_solution(x): every entry of this * x is zero. */
  predicate IsSolution(a: Mat, m: nat, x: Mat, p: nat)
    requires Cols(a, m) && m <= |x| && Cols(x, p)
  {
    forall i, j :: 0 <= i < |a| && 0 <= j < p ==> Product(a, x, m, p)[i][j] == 0.0
  }

  /** x solves a x = 0 exactly when the product is the zero matrix. */
  lemma {:induction false} IsSolutionZeros(a: Mat, m: nat, x: Mat, p: nat)
    requires Cols(a, m) && m <= |x| && Cols(x, p)
    ensures IsSolution(a, m, x, p) <==> Product(a, x, m, p) == Zeros(|a|, p)
  {
    var c := Product(a, x, m, p);
    if IsSolution(a, m, x, p) {
      forall i | 0 <= i < |a|
        ensures c[i] == Zeros(|a|, p)[i]
      {
      }
    }
  }

  /** The vector x as an m x 1 matrix. */
  function Column(x: seq<real>): (v: Mat)
    ensures Rect(v, |x|, 1)
  {
    seq(|x|, t requires 0 <= t < |x| => [x[t]])
  }

  /** Column q of the first m rows of b. */
  function Col(b: Mat, m: nat, q: nat): (v: seq<real>)
    requires m <= |b| && forall t :: 0 <= t < m ==> q < |b[t]|
    ensures |v| == m && forall t :: 0 <= t < m ==> v[t] == b[t][q]
  {
    seq(m, t requires 0 <= t < m => b[t][q])
  }

  /** Column q of b dotted with row r of a is the product's entry (r, q). */
  lemma {:induction false} DotColumn(a: Mat, b: Mat, m: nat, p: nat, r: nat, q: nat, l: nat)
    requires Cols(a, m) && m <= |b| && Cols(b, p) && r < |a| && q < p && l <= m
    ensures DotUpTo(a, b, r, q, l) == RowDot(a[r], Col(b, m, q), l)
  {
    if l > 0 {
      DotColumn(a, b, m, p, r, q, l - 1);
    }
  }

  /** A single column solves a x = 0 exactly when it annihilates every row. */
  lemma {:induction false} IsSolutionColumn(a: Mat, m: nat, x: seq<real>)
    requires Cols(a, m) && |x| == m
    ensures IsSolution(a, m, Column(x), 1) <==> Annihilates(a, m, x)
  {
    var v := Column(x);
    assert Col(v, m, 0) == x;
    forall r | 0 <= r < |a|
      ensures Product(a, v, m, 1)[r][0] == RowDot(a[r], x, m)
    {
      DotColumn(a, v, m, 1, r, 0, m);
    }
  }

  // ---------------------------------------------------------------------------
  // ker()
  // ---------------------------------------------------------------------------

  /** The first index from j on whose entry is 1, or |row|: the inner loop of ker(). */
  function FirstOneFrom(row: seq<real>, j: nat): (t: nat)
    requires j <= |row|
    ensures j <= t <= |row| && (t < |row| ==> row[t] == 1.0)
    decreases |row| - j
  {
    if j == |row| || row[j] == 1.0 then j else FirstOneFrom(row, j + 1)
  }

  /** The first entry equal to 1. */
  function FirstOne(row: seq<real>): (t: nat)
    ensures t <= |row| && (t < |row| ==> row[t] == 1.0)
  {
    FirstOneFrom(row, 0)
  }

  lemma {:induction false} FirstOneFromIs(row: seq<real>, j: nat, t: nat)
    requires j <= t <= |row| && (t < |row| ==> row[t] == 1.0)
    requires forall s :: j <= s < t ==> row[s] != 1.0
    ensures FirstOneFrom(row, j) == t
    decreases |row| - j
  {
    if j < t {
      FirstOneFromIs(row, j + 1, t);
    }
  }

  /** In reduced row-echelon form the first 1 of a row is its leading entry. */
  lemma {:induction false} FirstOneOfRref(g: Mat, m: nat, r: nat)
    requires IsRref(g, m) && r < |g|
    ensures FirstOne(g[r]) == Lead(g[r])
  {
    var row := g[r];
    forall s | 0 <= s < Lead(row)
      ensures row[s] != 1.0
    {
      LeadBefore(row, s);
    }
    FirstOneFromIs(row, 0, Lead(row));
  }

  /** Values of main: -1 or a row index. */
  predicate MainRange(g: Mat, m: nat, main: seq<int>)
  {
    |main| == m && forall j :: 0 <= j < m ==> -1 <= main[j] < |g|
  }

  /** main after the rows before k: main[j] is the last of them whose first 1 is at column j, or -1. */
  function MainUpTo(g: Mat, m: nat, k: nat): (main: seq<int>)
    requires Cols(g, m) && k <= |g|
    ensures |main| == m && forall j :: 0 <= j < m ==> -1 <= main[j] < k
  {
    if k == 0 then seq(m, _ => -1)
    else
      var prev := MainUpTo(g, m, k - 1);
      var t := FirstOne(g[k - 1]);
      if t < m then prev[t := k - 1] else prev
  }

  /** The vector main of ker(). */
  function Main(g: Mat, m: nat): (main: seq<int>)
    requires Cols(g, m)
    ensures MainRange(g, m, main)
  {
    MainUpTo(g, m, |g|)
  }

  /** main names, for each column, the row leading there, and -1 exactly for the free columns. */
  predicate IsMainOf(g: Mat, m: nat, main: seq<int>)
  {
    MainRange(g, m, main) &&
    (forall j :: 0 <= j < m ==> (main[j] == -1 <==> forall r :: 0 <= r < |g| ==> Lead(g[r]) != j)) &&
    (forall j :: 0 <= j < m && main[j] != -1 ==> Lead(g[main[j]]) == j)
  }

  lemma {:induction false} MainUpToLeads(g: Mat, m: nat, k: nat, j: nat)
    requires IsRref(g, m) && k <= |g| && j < m
    ensures MainUpTo(g, m, k)[j] == -1 <==> forall r :: 0 <= r < k ==> Lead(g[r]) != j
    ensures MainUpTo(g, m, k)[j] != -1 ==> Lead(g[MainUpTo(g, m, k)[j]]) == j
  {
    if k > 0 {
      MainUpToLeads(g, m, k - 1, j);
      FirstOneOfRref(g, m, k - 1);
    }
  }

  /** On a reduced row-echelon form, main is what ker() means by it. */
  lemma {:induction false} MainOfRref(g: Mat, m: nat)
    requires IsRref(g, m)
    ensures IsMainOf(g, m, Main(g, m))
  {
    forall j | 0 <= j < m
      ensures (Main(g, m)[j] == -1 <==> forall r :: 0 <= r < |g| ==> Lead(g[r]) != j)
      ensures Main(g, m)[j] != -1 ==> Lead(g[Main(g, m)[j]]) == j
    {
      MainUpToLeads(g, m, |g|, j);
    }
  }

  /** The vector cur of ker() for the free column j: 1 at j, minus column j of the pivot rows at their columns. */
  function KerVector(g: Mat, m: nat, main: seq<int>, j: nat): (v: seq<real>)
    requires Cols(g, m) && MainRange(g, m, main) && j < m
    ensures |v| == m
  {
    seq(m, t requires 0 <= t < m => if t == j then 1.0 else if t < j && main[t] != -1 then -g[main[t]][j] else 0.0)
  }

  /**
   * The dot of row r with the vector of free column j over its first l
   * entries, with p the column row r leads at: column j of row r once j is
   * reached, less column j again once the pivot column p is passed.
   */
  lemma {:induction false} KerVectorDot(g: Mat, m: nat, main: seq<int>, j: nat, r: nat, l: nat)
    requires IsRref(g, m) && IsMainOf(g, m, main) && j < m && main[j] == -1 && r < |g| && l <= m
    ensures RowDot(g[r], KerVector(g, m, main, j), l) ==
      (if j < l then g[r][j] else 0.0) - (if Lead(g[r]) < j && Lead(g[r]) < l then g[r][j] else 0.0)
  {
    if l > 0 {
      KerVectorDot(g, m, main, j, r, l - 1);
      var v := KerVector(g, m, main, j);
      var t := l - 1;
      var p := Lead(g[r]);
      assert p != j;
      if t == j {
        assert g[r][t] * v[t] == g[r][j];
      } else if t < j && main[t] != -1 {
        var q := main[t];
        assert Lead(g[q]) == t;
        if q == r {
          assert g[r][t] * v[t] == -g[r][j];
        } else {
          assert g[r][t] == 0.0;
          assert p != t;
        }
      } else {
        assert v[t] == 0.0;
        assert p != t || t > j;
      }
    }
  }

  /** Every vector ker() builds solves g x = 0 for the reduced form g it reads. */
  lemma {:induction false} KerVectorSolves(g: Mat, m: nat, main: seq<int>, j: nat)
    requires IsRref(g, m) && IsMainOf(g, m, main) && j < m && main[j] == -1
    ensures Annihilates(g, m, KerVector(g, m, main, j))
  {
    var v := KerVector(g, m, main, j);
    forall r | 0 <= r < |g|
      ensures RowDot(g[r], v, m) == 0.0
    {
      KerVectorDot(g, m, main, j, r, m);
      if Lead(g[r]) > j {
        LeadBefore(g[r], j);
      }
    }
  }

  /** The number of free columns before k. */
  function FreeCount(main: seq<int>, k: nat): (f: nat)
    requires k <= |main|
    ensures f <= k
  {
    if k == 0 then 0 else FreeCount(main, k - 1) + (if main[k - 1] == -1 then 1 else 0)
  }

  /** The rows ker() has appended to ans after the columns before k: one per free column. */
  function KerRows(g: Mat, m: nat, main: seq<int>, k: nat): (rows: Mat)
    requires Cols(g, m) && MainRange(g, m, main) && k <= m
    ensures Rect(rows, FreeCount(main, k), m)
  {
    if k == 0 then []
    else KerRows(g, m, main, k - 1) + (if main[k - 1] == -1 then [KerVector(g, m, main, k - 1)] else [])
  }

  /** The rows built from columns before k solve g x = 0. */
  lemma {:induction false} KerRowsSolve(g: Mat, m: nat, main: seq<int>, k: nat)
    requires IsRref(g, m) && IsMainOf(g, m, main) && k <= m
    ensures forall q :: 0 <= q < FreeCount(main, k) ==> Annihilates(g, m, KerRows(g, m, main, k)[q])
  {
    if k > 0 {
      KerRowsSolve(g, m, main, k - 1);
      if main[k - 1] == -1 {
        KerVectorSolves(g, m, main, k - 1);
      }
    }
  }

  /** ker() of a reduced form: the appended rows, transposed into columns. */
  function KerOf(g: Mat, m: nat): (k: Mat)
    requires Cols(g, m)
    ensures Rect(k, m, FreeCount(Main(g, m), m))
  {
    Transpose(KerRows(g, m, Main(g, m), m), m)
  }

  /** The number of columns of ker(): the free columns of gauss(). */
  function Nullity(a: Mat, m: nat): (f: nat)
    requires Cols(a, m)
    ensures f <= m
  {
    FreeCount(Main(Gauss(a, m), m), m)
  }

  /** ker(): a column for each free variable of gauss(). */
  function Ker(a: Mat, m: nat): (k: Mat)
    requires Cols(a, m)
    ensures Rect(k, m, Nullity(a, m))
  {
    KerOf(Gauss(a, m), m)
  }

  /** Column q of the transpose of rows is row q. */
  lemma {:induction false} TransposeColumn(rows: Mat, m: nat, q: nat)
    requires Cols(rows, m) && q < |rows|
    ensures Col(Transpose(rows, m), m, q) == rows[q]
  {
  }

  /** Every column of ker(a) solves a x = 0. */
  lemma {:induction false} KerColumnSolves(a: Mat, m: nat, q: nat)
    requires Cols(a, m) && q < Nullity(a, m)
    ensures Annihilates(a, m, Col(Ker(a, m), m, q))
  {
    var g := Gauss(a, m);
    var main := Main(g, m);
    var rows := KerRows(g, m, main, m);
    GaussRref(a, m);
    MainOfRref(g, m);
    KerRowsSolve(g, m, main, m);
    TransposeColumn(rows, m, q);
    GaussKeepsSolutions(a, m, rows[q]);
  }

  /** Each row built from the columns before k has its 1 at its free column, so none is zero. */
  lemma {:induction false} KerRowsNonzero(g: Mat, m: nat, main: seq<int>, k: nat)
    requires Cols(g, m) && MainRange(g, m, main) && k <= m
    ensures forall q :: 0 <= q < FreeCount(main, k) ==> !IsZeroRow(KerRows(g, m, main, k)[q])
  {
    if k > 0 {
      KerRowsNonzero(g, m, main, k - 1);
      if main[k - 1] == -1 {
        assert KerVector(g, m, main, k - 1)[k - 1] == 1.0;
      }
    }
  }

  /** No column of ker(a) is the zero vector. */
  lemma {:induction false} KerColumnNonzero(a: Mat, m: nat, q: nat)
    requires Cols(a, m) && q < Nullity(a, m)
    ensures !IsZeroRow(Col(Ker(a, m), m, q))
  {
    var g := Gauss(a, m);
    var rows := KerRows(g, m, Main(g, m), m);
    KerRowsNonzero(g, m, Main(g, m), m);
    TransposeColumn(rows, m, q);
  }

  /** a times ker(a) is the zero matrix. */
  lemma {:induction false} KerSolves(a: Mat, m: nat)
    requires Cols(a, m)
    ensures Product(a, Ker(a, m), m, Nullity(a, m)) == Zeros(|a|, Nullity(a, m))
  {
    var k := Ker(a, m);
    var f := Nullity(a, m);
    forall r, q | 0 <= r < |a| && 0 <= q < f
      ensures Product(a, k, m, f)[r][q] == 0.0
    {
      KerColumnSolves(a, m, q);
      DotColumn(a, k, m, f, r, q, m);
    }
    IsSolutionZeros(a, m, k, f);
  }

  /** a.is_solution(a.ker()) holds. */
  lemma {:induction false} KerIsSolution(a: Mat, m: nat)
    requires Cols(a, m)
    ensures IsSolution(a, m, Ker(a, m), Nullity(a, m))
  {
    KerSolves(a, m);
    IsSolutionZeros(a, m, Ker(a, m), Nullity(a, m));
  }

  // ---------------------------------------------------------------------------
  // rank + nullity = number of columns
  // ---------------------------------------------------------------------------

  /** The number of pivot columns before k. */
  function MainCount(main: seq<int>, k: nat): (c: nat)
    requires k <= |main|
    ensures c + FreeCount(main, k) == k
  {
    if k == 0 then 0 else MainCount(main, k - 1) + (if main[k - 1] == -1 then 0 else 1)
  }

  /** The number of rows before k leading before column j. */
  function LeadsBelow(g: Mat, k: nat, j: nat): nat
    requires k <= |g|
  {
    if k == 0 then 0 else LeadsBelow(g, k - 1, j) + (if Lead(g[k - 1]) < j then 1 else 0)
  }

  /** The number of rows before k leading at column j. */
  function LeadsAt(g: Mat, k: nat, j: nat): nat
    requires k <= |g|
  {
    if k == 0 then 0 else LeadsAt(g, k - 1, j) + (if Lead(g[k - 1]) == j then 1 else 0)
  }

  lemma {:induction false} LeadsBelowStep(g: Mat, k: nat, j: nat)
    requires k <= |g|
    ensures LeadsBelow(g, k, j + 1) == LeadsBelow(g, k, j) + LeadsAt(g, k, j)
  {
    if k > 0 {
      LeadsBelowStep(g, k - 1, j);
    }
  }

  lemma {:induction false} LeadsAtNone(g: Mat, k: nat, j: nat)
    requires k <= |g| && forall r :: 0 <= r < k ==> Lead(g[r]) != j
    ensures LeadsAt(g, k, j) == 0
  {
    if k > 0 {
      LeadsAtNone(g, k - 1, j);
    }
  }

  /** In reduced row-echelon form only row p leads at its column. */
  lemma {:induction false} LeadsAtOne(g: Mat, m: nat, k: nat, p: nat)
    requires IsRref(g, m) && k <= |g| && p < |g| && Lead(g[p]) < m
    ensures LeadsAt(g, k, Lead(g[p])) == if p < k then 1 else 0
  {
    if k > 0 {
      LeadsAtOne(g, m, k - 1, p);
      if k - 1 != p {
        LeadsDistinct(g, m, p, k - 1);
      }
    }
  }

  /** The pivot columns before j are as many as the rows leading before j. */
  lemma {:induction false} MainCountLeads(g: Mat, m: nat, main: seq<int>, j: nat)
    requires IsRref(g, m) && IsMainOf(g, m, main) && j <= m
    ensures MainCount(main, j) == LeadsBelow(g, |g|, j)
  {
    if j == 0 {
      LeadsBelowZero(g, |g|);
    } else {
      MainCountLeads(g, m, main, j - 1);
      LeadsBelowStep(g, |g|, j - 1);
      MainLeadsAt(g, m, main, j - 1);
    }
  }

  /** One row leads at a pivot column, none at a free one. */
  lemma {:induction false} MainLeadsAt(g: Mat, m: nat, main: seq<int>, j: nat)
    requires IsRref(g, m) && IsMainOf(g, m, main) && j < m
    ensures LeadsAt(g, |g|, j) == if main[j] == -1 then 0 else 1
  {
    if main[j] == -1 {
      LeadsAtNone(g, |g|, j);
    } else {
      LeadsAtOne(g, m, |g|, main[j]);
    }
  }

  lemma {:induction false} LeadsBelowZero(g: Mat, k: nat)
    requires k <= |g|
    ensures LeadsBelow(g, k, 0) == 0
  {
    if k > 0 {
      LeadsBelowZero(g, k - 1);
    }
  }

  /** The rows leading before the last column are the nonzero rows. */
  lemma {:induction false} LeadsBelowNonzero(g: Mat, m: nat, k: nat)
    requires Cols(g, m) && k <= |g|
    ensures LeadsBelow(g, k, m) == NonzeroCount(g, k)
  {
    if k > 0 {
      LeadsBelowNonzero(g, m, k - 1);
      ZeroRowLead(g[k - 1]);
    }
  }

  /** Rank-nullity: rk() plus the number of columns of ker() is the number of columns. */
  lemma {:induction false} RankNullity(a: Mat, m: nat)
    requires Cols(a, m)
    ensures Rank(a, m) + Nullity(a, m) == m
  {
    var g := Gauss(a, m);
    GaussRref(a, m);
    MainOfRref(g, m);
    MainCountLeads(g, m, Main(g, m), m);
    LeadsBelowNonzero(g, m, |g|);
  }

  // ---------------------------------------------------------------------------
  // im() and sum()
  // ---------------------------------------------------------------------------

  /** The nonzero rows before k, in order: the lines im() appends. */
  function NonzeroRows(g: Mat, m: nat, k: nat): (rows: Mat)
    requires Cols(g, m) && k <= |g|
    ensures Rect(rows, NonzeroCount(g, k), m)
  {
    if k == 0 then []
    else NonzeroRows(g, m, k - 1) + (if IsZeroRow(g[k - 1]) then [] else [g[k - 1]])
  }

  /** In reduced row-echelon form the nonzero rows are the first ones. */
  lemma {:induction false} NonzeroRowsPrefix(g: Mat, m: nat, k: nat)
    requires IsRref(g, m) && k <= |g|
    ensures NonzeroRows(g, m, k) == g[..NonzeroCount(g, k)]
  {
    if k > 0 {
      NonzeroRowsPrefix(g, m, k - 1);
      if !IsZeroRow(g[k - 1]) {
        forall r | 0 <= r < k - 1
          ensures !IsZeroRow(g[r])
        {
          if IsZeroRow(g[r]) {
            ZeroRowsLast(g, m, r, k - 1);
          }
        }
        NonzeroCountAll(g, k - 1);
        assert g[..k] == g[..k - 1] + [g[k - 1]];
      }
    }
  }

  /** The first rows of a reduced row-echelon form are one. */
  lemma {:induction false} RrefPrefix(g: Mat, m: nat, q: nat)
    requires IsRref(g, m) && q <= |g|
    ensures IsRref(g[..q], m)
  {
    var h := g[..q];
    forall r | 0 <= r < q
      ensures h[r] == g[r]
    {
    }
  }

  /** im(): the nonzero rows of gauss() of the transpose, as columns. */
  function Image(a: Mat, m: nat): (im: Mat)
    requires Cols(a, m)
    ensures Rect(im, |a|, Rank(Transpose(a, m), |a|))
  {
    var g := Gauss(Transpose(a, m), |a|);
    Transpose(NonzeroRows(g, |a|, m), |a|)
  }

  /**
   * The columns of im() are the nonzero rows of the reduced form of the
   * transpose: read as rows they are in reduced row-echelon form, none is zero.
   */
  lemma {:induction false} ImageColumns(a: Mat, m: nat)
    requires Cols(a, m)
    ensures var q := Rank(Transpose(a, m), |a|);
      Transpose(Image(a, m), q) == Gauss(Transpose(a, m), |a|)[..q] &&
      IsRref(Transpose(Image(a, m), q), |a|) &&
      forall s :: 0 <= s < q ==> !IsZeroRow(Transpose(Image(a, m), q)[s])
  {
    var t := Transpose(a, m);
    var g := Gauss(t, |a|);
    var q := Rank(t, |a|);
    var rows := NonzeroRows(g, |a|, m);
    GaussRref(t, |a|);
    NonzeroRowsPrefix(g, |a|, m);
    TransposeInvolutive(rows, |a|);
    RrefPrefix(g, |a|, q);
    forall s | 0 <= s < q
      ensures !IsZeroRow(rows[s])
    {
      if IsZeroRow(g[s]) {
        forall r | s <= r < m
          ensures IsZeroRow(g[r])
        {
          if r > s {
            ZeroRowsLast(g, |a|, s, r);
          }
        }
        NonzeroCountPrefix(g, s, m);
      }
    }
  }

  /** Only the rows before s count when the rest are zero. */
  lemma {:induction false} NonzeroCountPrefix(g: Mat, s: nat, k: nat)
    requires s <= k <= |g| && forall r :: s <= r < k ==> IsZeroRow(g[r])
    ensures NonzeroCount(g, k) == NonzeroCount(g, s)
  {
    if k > s {
      NonzeroCountPrefix(g, s, k - 1);
    }
  }

  /** The transpose of the identity is the identity. */
  lemma {:induction false} TransposeIdentity(n: nat)
    ensures Transpose(IdentityMatrix(n), n) == IdentityMatrix(n)
  {
    var t := Transpose(IdentityMatrix(n), n);
    forall i | 0 <= i < n
      ensures t[i] == IdentityMatrix(n)[i]
    {
    }
  }

  /** im() of the identity is the identity. */
  lemma {:induction false} ImageIdentity(n: nat)
    ensures Image(IdentityMatrix(n), n) == IdentityMatrix(n)
  {
    var e := IdentityMatrix(n);
    TransposeIdentity(n);
    IdentityRref(n);
    GaussOfRref(e, n);
    RankIdentity(n);
    NonzeroRowsPrefix(e, n, n);
    assert e[..n] == e;
  }

  /** sum(a, b): im() of a with the columns of b appended to the right. */
  function Sum(a: Mat, p: nat, b: Mat, q: nat): (s: Mat)
    requires Cols(a, p) && Cols(b, q) && |b| == |a|
    ensures Rect(s, |a|, Rank(Transpose(AppendRight(a, b), p + q), |a|))
  {
    Image(AppendRight(a, b), p + q)
  }

  /** sum(a, b) is im() of c, the matrix with the cm = p + q columns of both. */
  lemma SumIsImage(a: Mat, p: nat, b: Mat, q: nat, c: Mat, cm: nat, s: Mat)
    requires Cols(a, p) && Cols(b, q) && |b| == |a| && c == AppendRight(a, b) && cm == p + q && Cols(c, cm)
    requires s == Image(c, cm)
    ensures s == Sum(a, p, b, q)
  {
  }

  /** Adding a space with no columns leaves im(a). */
  lemma {:induction false} SumWithNothing(a: Mat, p: nat, b: Mat)
    requires Cols(a, p) && Cols(b, 0) && |b| == |a|
    ensures Sum(a, p, b, 0) == Image(a, p)
  {
    var c := AppendRight(a, b);
    forall i | 0 <= i < |a|
      ensures c[i] == a[i]
    {
      assert b[i] == [];
    }
    assert c == a;
  }
}
