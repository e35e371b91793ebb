/**
 * gauss() and what linal.h builds on it (rk, ker, im, sum), on values.
 *
 * The functions follow the loops of linal.h step by step: GaussFrom(a, m, i, c)
 * is the state of `ans` when the outer loop of gauss() is about to treat row i
 * and column main_colomn = c. The lemmas prove what the result is: a reduced
 * row-echelon form, left alone by a second elimination.
 */
module Elimination {

  import opened MatrixAlgebra

  // ---------------------------------------------------------------------------
  // Leading entries and zero rows
  // ---------------------------------------------------------------------------

  /** Every entry of the row is zero: the test of rk() and im(). */
  predicate IsZeroRow(row: seq<real>)
  {
    forall t :: 0 <= t < |row| ==> row[t] == 0.0
  }

  /** The first index at or after k whose entry is nonzero, or |row|. */
  function LeadFrom(row: seq<real>, k: nat): (l: nat)
    requires k <= |row|
    ensures k <= l <= |row|
    ensures l < |row| ==> row[l] != 0.0
    decreases |row| - k
  {
    if k == |row| || row[k] != 0.0 then k else LeadFrom(row, k + 1)
  }

  /** The column of the leading (first nonzero) entry; |row| for a zero row. */
  function Lead(row: seq<real>): (l: nat)
    ensures l <= |row|
    ensures l < |row| ==> row[l] != 0.0
  {
    LeadFrom(row, 0)
  }

  lemma {:induction false} LeadFromBefore(row: seq<real>, k: nat, t: nat)
    requires k <= |row| && k <= t < LeadFrom(row, k)
    ensures row[t] == 0.0
    decreases |row| - k
  {
    if t > k {
      LeadFromBefore(row, k + 1, t);
    }
  }

  /** Entries before the leading one are zero. */
  lemma {:induction false} LeadBefore(row: seq<real>, t: nat)
    requires t < Lead(row)
    ensures row[t] == 0.0
  {
    LeadFromBefore(row, 0, t);
  }

  lemma {:induction false} LeadFromIs(row: seq<real>, k: nat, l: nat)
    requires k <= l <= |row|
    requires l < |row| ==> row[l] != 0.0
    requires forall t :: k <= t < l ==> row[t] == 0.0
    ensures LeadFrom(row, k) == l
    decreases |row| - k
  {
    if k < l {
      LeadFromIs(row, k + 1, l);
    }
  }

  /** The leading entry is characterised by the zeros before it. */
  lemma {:induction false} LeadIs(row: seq<real>, l: nat)
    requires l <= |row|
    requires l < |row| ==> row[l] != 0.0
    requires forall t :: 0 <= t < l ==> row[t] == 0.0
    ensures Lead(row) == l
  {
    LeadFromIs(row, 0, l);
  }

  /** A row is zero exactly when it has no leading entry. */
  lemma {:induction false} ZeroRowLead(row: seq<real>)
    ensures IsZeroRow(row) <==> Lead(row) == |row|
  {
    if IsZeroRow(row) {
      LeadIs(row, |row|);
    }
    if Lead(row) == |row| {
      forall t | 0 <= t < |row|
        ensures row[t] == 0.0
      {
        LeadBefore(row, t);
      }
    }
  }

  /** Rows that agree before column c, where u leads, lead at the same place. */
  lemma {:induction false} LeadAgree(u: seq<real>, v: seq<real>, c: nat)
    requires Lead(u) < c <= |u| && c <= |v|
    requires forall t :: 0 <= t < c ==> u[t] == v[t]
    ensures Lead(v) == Lead(u)
  {
    forall t | 0 <= t < Lead(u)
      ensures v[t] == 0.0
    {
      LeadBefore(u, t);
    }
    LeadIs(v, Lead(u));
  }

  // ---------------------------------------------------------------------------
  // Reduced row-echelon form
  // ---------------------------------------------------------------------------

  /**
   * Reduced row-echelon form: each nonzero row leads with 1, the only nonzero
   * entry of its column, and the leading columns strictly increase down the rows.
   */
  predicate IsRref(a: Mat, m: nat)
  {
    Cols(a, m) &&
    (forall r {:trigger Lead(a[r])} :: 0 <= r < |a| && Lead(a[r]) < m ==> a[r][Lead(a[r])] == 1.0) &&
    (forall r, s {:trigger a[s][Lead(a[r])]} ::
      0 <= r < |a| && 0 <= s < |a| && r != s && Lead(a[r]) < m ==> a[s][Lead(a[r])] == 0.0) &&
    (forall r, s {:trigger Lead(a[r]), Lead(a[s])} :: 0 <= r < s < |a| && Lead(a[s]) < m ==> Lead(a[r]) < Lead(a[s]))
  }

  /** In reduced row-echelon form the zero rows come last. */
  lemma {:induction false} ZeroRowsLast(a: Mat, m: nat, r: nat, s: nat)
    requires IsRref(a, m) && r < s < |a| && IsZeroRow(a[r])
    ensures IsZeroRow(a[s])
  {
    ZeroRowLead(a[r]);
    ZeroRowLead(a[s]);
  }

  /** The nonzero rows of a reduced row-echelon form lead at distinct columns. */
  lemma {:induction false} LeadsDistinct(a: Mat, m: nat, r: nat, s: nat)
    requires IsRref(a, m) && r < |a| && s < |a| && r != s && Lead(a[r]) < m
    ensures Lead(a[s]) != Lead(a[r])
  {
  }

  /**
   * The state of gauss() before the outer loop treats row i and column c:
   * rows above i are finished pivot rows, leading with 1 before column c at
   * increasing columns, each pivot column zero outside its row; the rows from
   * i on are zero before column c.
   */
  predicate Echelon(a: Mat, m: nat, i: nat, c: nat)
  {
    Cols(a, m) && i <= |a| && c <= m &&
    (forall r {:trigger Lead(a[r])} :: 0 <= r < i ==> Lead(a[r]) < c && a[r][Lead(a[r])] == 1.0) &&
    (forall r, s {:trigger a[s][Lead(a[r])]} :: 0 <= r < i && 0 <= s < |a| && r != s ==> a[s][Lead(a[r])] == 0.0) &&
    (forall r, s {:trigger Lead(a[r]), Lead(a[s])} :: 0 <= r < s < i ==> Lead(a[r]) < Lead(a[s])) &&
    (forall r, l :: i <= r < |a| && 0 <= l < c ==> a[r][l] == 0.0)
  }

  lemma {:induction false} EchelonStart(a: Mat, m: nat)
    requires Cols(a, m)
    ensures Echelon(a, m, 0, 0)
  {
  }

  /** Once the rows or the columns run out, the state is reduced row-echelon. */
  lemma {:induction false} EchelonDone(a: Mat, m: nat, i: nat, c: nat)
    requires Echelon(a, m, i, c) && (i == |a| || c == m)
    ensures IsRref(a, m)
  {
    forall r | i <= r < |a|
      ensures Lead(a[r]) == m
    {
      LeadIs(a[r], m);
    }
  }

  // ---------------------------------------------------------------------------
  // One pass of the outer loop of gauss()
  // ---------------------------------------------------------------------------

  /** The search loop: the first row from j on with a nonzero entry in column c, or |a|. */
  function FirstNonzeroRow(a: Mat, m: nat, c: nat, j: nat): (p: nat)
    requires Cols(a, m) && c < m && j <= |a|
    ensures j <= p <= |a|
    ensures p < |a| ==> a[p][c] != 0.0
    decreases |a| - j
  {
    if j == |a| || a[j][c] != 0.0 then j else FirstNonzeroRow(a, m, c, j + 1)
  }

  /** The rows the search passes over are zero in column c. */
  lemma {:induction false} FirstNonzeroRowBefore(a: Mat, m: nat, c: nat, j: nat, r: nat)
    requires Cols(a, m) && c < m && j <= |a| && j <= r < FirstNonzeroRow(a, m, c, j)
    ensures a[r][c] == 0.0
    decreases |a| - j
  {
    if r > j {
      FirstNonzeroRowBefore(a, m, c, j + 1, r);
    }
  }

  /** The search finds row p when the rows before it are zero in column c. */
  lemma {:induction false} FirstNonzeroRowIs(a: Mat, m: nat, c: nat, j: nat, p: nat)
    requires Cols(a, m) && c < m && j <= p <= |a|
    requires p < |a| ==> a[p][c] != 0.0
    requires forall r :: j <= r < p ==> a[r][c] == 0.0
    ensures FirstNonzeroRow(a, m, c, j) == p
    decreases |a| - j
  {
    if j < p {
      FirstNonzeroRowIs(a, m, c, j + 1, p);
    }
  }

  /** swap(ans[i], ans[j]). */
  function SwapRows(a: Mat, i: nat, j: nat): (b: Mat)
    requires i < |a| && j < |a|
    ensures |b| == |a| && b[i] == a[j] && b[j] == a[i]
    ensures forall r :: 0 <= r < |a| && r != i && r != j ==> b[r] == a[r]
  {
    a[i := a[j]][j := a[i]]
  }

  /** The search and the swap: the pivot row, if column c has one below row i, moves up to row i. */
  function PivotUp(a: Mat, m: nat, i: nat, c: nat): (b: Mat)
    requires Cols(a, m) && i < |a| && c < m
    ensures Cols(b, m) && |b| == |a|
  {
    var j := FirstNonzeroRow(a, m, c, i);
    if j < |a| then SwapRows(a, i, j) else a
  }

  /** The first l entries of the row u, those from column c on divided by k. */
  function RowDivFrom(u: seq<real>, c: nat, k: real, l: nat): (w: seq<real>)
    requires l <= |u| && k != 0.0
    ensures |w| == l
  {
    seq(l, t requires 0 <= t < l => if t < c then u[t] else u[t] / k)
  }

  lemma RowDivFromAt(u: seq<real>, c: nat, k: real, l: nat, t: nat)
    requires l <= |u| && k != 0.0 && t < l
    ensures RowDivFrom(u, c, k, l)[t] == if t < c then u[t] else u[t] / k
  {
  }

  /** The entries before column c are left alone. */
  lemma {:induction false} RowDivFromPrefix(u: seq<real>, c: nat, k: real, l: nat)
    requires l <= |u| && k != 0.0
    ensures forall t :: 0 <= t < l && t < c ==> RowDivFrom(u, c, k, l)[t] == u[t]
  {
    forall t | 0 <= t < l && t < c
      ensures RowDivFrom(u, c, k, l)[t] == u[t]
    {
      RowDivFromAt(u, c, k, l, t);
    }
  }

  /** The first l entries of the row u - k v. */
  function RowMinus(u: seq<real>, v: seq<real>, k: real, l: nat): (w: seq<real>)
    requires l <= |u| && l <= |v|
    ensures |w| == l
  {
    seq(l, t requires 0 <= t < l => u[t] - v[t] * k)
  }

  lemma RowMinusAt(u: seq<real>, v: seq<real>, k: real, l: nat, t: nat)
    requires l <= |u| && l <= |v| && t < l
    ensures RowMinus(u, v, k, l)[t] == u[t] - v[t] * k
  {
  }

  /** ans[i][j] /= k for j from column c on, k = ans[i][c] taken before the loop. */
  function ScaleRow(a: Mat, m: nat, i: nat, c: nat): (b: Mat)
    requires Cols(a, m) && i < |a| && c < m && a[i][c] != 0.0
    ensures Cols(b, m) && |b| == |a|
    ensures b[i][c] == 1.0
    ensures forall r :: 0 <= r < |a| && r != i ==> b[r] == a[r]
    ensures forall l :: 0 <= l < c ==> b[i][l] == a[i][l]
  {
    RowDivFromAt(a[i], c, a[i][c], m, c);
    RowDivFromPrefix(a[i], c, a[i][c], m);
    a[i := RowDivFrom(a[i], c, a[i][c], m)]
  }

  /** ans[j][l] -= ans[i][l] * k for every row j other than i, k = ans[j][c] taken per row. */
  function EliminateRows(a: Mat, m: nat, i: nat, c: nat): (b: Mat)
    requires Cols(a, m) && i < |a| && c < m
    ensures Cols(b, m) && |b| == |a| && b[i] == a[i]
  {
    seq(|a|, r requires 0 <= r < |a| => if r == i then a[i] else RowMinus(a[r], a[i], a[r][c], m))
  }

  /** Row r of the eliminated matrix, entry by entry. */
  lemma {:induction false} EliminateRowsAt(a: Mat, m: nat, i: nat, c: nat, r: nat, l: nat)
    requires Cols(a, m) && i < |a| && c < m && r < |a| && r != i && l < m
    ensures EliminateRows(a, m, i, c)[r][l] == a[r][l] - a[i][l] * a[r][c]
  {
    RowMinusAt(a[r], a[i], a[r][c], m, l);
  }

  /**
   * gauss() from row i and column c on. A column without a pivot keeps the row
   * index: the `--i; continue;` of the source on an unsigned i wraps and the
   * loop's ++i brings it back, while ++main_colomn moves on.
   */
  function GaussFrom(a: Mat, m: nat, i: nat, c: nat): (g: Mat)
    requires Cols(a, m) && i <= |a| && c <= m
    ensures Rect(g, |a|, m)
    decreases m - c
  {
    if i == |a| || c == m then a
    else GaussFrom(Pass(a, m, i, c), m, NextRow(a, m, i, c), c + 1)
  }

  /** The matrix after one pass of the outer loop at row i and column c. */
  function Pass(a: Mat, m: nat, i: nat, c: nat): (b: Mat)
    requires Cols(a, m) && i < |a| && c < m
    ensures Cols(b, m) && |b| == |a|
  {
    var b := PivotUp(a, m, i, c);
    if b[i][c] == 0.0 then b else EliminateRows(ScaleRow(b, m, i, c), m, i, c)
  }

  /** The row the next pass works on: i again when column c had no pivot. */
  function NextRow(a: Mat, m: nat, i: nat, c: nat): (j: nat)
    requires Cols(a, m) && i < |a| && c < m
    ensures i <= j <= i + 1
  {
    if PivotUp(a, m, i, c)[i][c] == 0.0 then i else i + 1
  }

  /** gauss(): the copy into `ans` keeps the values, then the outer loop runs from (0, 0). */
  function Gauss(a: Mat, m: nat): (g: Mat)
    requires Cols(a, m)
    ensures Rect(g, |a|, m)
  {
    GaussFrom(a, m, 0, 0)
  }

  // ---------------------------------------------------------------------------
  // gauss() reaches reduced row-echelon form
  // ---------------------------------------------------------------------------

  /** Moving the pivot row up keeps the state, and puts a nonzero entry at (i, c) when there is one below. */
  lemma {:induction false} PivotUpStep(a: Mat, m: nat, i: nat, c: nat)
    requires Echelon(a, m, i, c) && i < |a| && c < m
    ensures Echelon(PivotUp(a, m, i, c), m, i, c)
    ensures PivotUp(a, m, i, c)[i][c] == 0.0 ==> forall r :: i <= r < |a| ==> a[r][c] == 0.0
  {
    var j := FirstNonzeroRow(a, m, c, i);
    forall r | i <= r < j
      ensures a[r][c] == 0.0
    {
      FirstNonzeroRowBefore(a, m, c, i, r);
    }
    if j < |a| {
      var b := SwapRows(a, i, j);
      forall r, s | 0 <= r < i && 0 <= s < |b| && r != s
        ensures b[s][Lead(b[r])] == 0.0
      {
        assert b[r] == a[r];
        if s == i {
          assert b[s] == a[j];
        } else if s == j {
          assert b[s] == a[i];
        } else {
          assert b[s] == a[s];
        }
      }
      forall r, l | i <= r < |b| && 0 <= l < c
        ensures b[r][l] == 0.0
      {
        if r == i {
          assert b[r] == a[j];
        } else if r == j {
          assert b[r] == a[i];
        } else {
          assert b[r] == a[r];
        }
      }
    }
  }

  /** No pivot in column c: the state holds with the column skipped. */
  lemma {:induction false} SkipColumnStep(a: Mat, m: nat, i: nat, c: nat)
    requires Echelon(a, m, i, c) && c < m
    requires forall r :: i <= r < |a| ==> a[r][c] == 0.0
    ensures Echelon(a, m, i, c + 1)
  {
    forall r | 0 <= r < i
      ensures Lead(a[r]) < c + 1
    {
    }
  }

  /** Scaling the pivot row keeps the state and makes the pivot 1. */
  lemma {:induction false} ScaleStep(a: Mat, m: nat, i: nat, c: nat)
    requires Echelon(a, m, i, c) && i < |a| && c < m && a[i][c] != 0.0
    ensures Echelon(ScaleRow(a, m, i, c), m, i, c)
  {
    var b := ScaleRow(a, m, i, c);
    forall r, s | 0 <= r < i && 0 <= s < |b| && r != s
      ensures b[s][Lead(b[r])] == 0.0
    {
      assert b[r] == a[r];
      if s == i {
        assert b[s][Lead(a[r])] == a[s][Lead(a[r])];
      }
    }
  }

  /** Clearing column c outside the pivot row closes row i: the state moves to (i + 1, c + 1). */
  lemma {:induction false} EliminateStep(a: Mat, m: nat, i: nat, c: nat)
    requires Echelon(a, m, i, c) && i < |a| && c < m && a[i][c] == 1.0
    ensures Echelon(EliminateRows(a, m, i, c), m, i + 1, c + 1)
  {
    var b := EliminateRows(a, m, i, c);
    forall r, l | 0 <= r < |a| && r != i && 0 <= l < c
      ensures b[r][l] == a[r][l]
    {
      EliminateRowsAt(a, m, i, c, r, l);
      assert a[i][l] == 0.0;
    }
    forall r | 0 <= r < |a| && r != i
      ensures b[r][c] == 0.0
    {
      EliminateRowsAt(a, m, i, c, r, c);
      assert a[i][c] * a[r][c] == a[r][c];
    }
    forall t | 0 <= t < c
      ensures a[i][t] == 0.0
    {
    }
    LeadIs(a[i], c);
    forall r | 0 <= r < i
      ensures Lead(b[r]) == Lead(a[r])
    {
      LeadAgree(a[r], b[r], c);
    }
    assert Lead(b[i]) == c;
  }

  /** One pass of the outer loop keeps the invariant, at (i, c + 1) or (i + 1, c + 1). */
  lemma {:induction false} PassStep(a: Mat, m: nat, i: nat, c: nat)
    requires Echelon(a, m, i, c) && i < |a| && c < m
    ensures Echelon(Pass(a, m, i, c), m, NextRow(a, m, i, c), c + 1)
  {
    var b := PivotUp(a, m, i, c);
    PivotUpStep(a, m, i, c);
    if b[i][c] == 0.0 {
      SkipColumnStep(b, m, i, c);
    } else {
      ScaleStep(b, m, i, c);
      EliminateStep(ScaleRow(b, m, i, c), m, i, c);
    }
  }

  /** The outer loop, run from a state of the invariant, ends in reduced row-echelon form. */
  lemma {:induction false} GaussFromRref(a: Mat, m: nat, i: nat, c: nat)
    requires Echelon(a, m, i, c)
    ensures IsRref(GaussFrom(a, m, i, c), m)
    decreases m - c
  {
    if i == |a| || c == m {
      EchelonDone(a, m, i, c);
    } else {
      PassStep(a, m, i, c);
      GaussFromRref(Pass(a, m, i, c), m, NextRow(a, m, i, c), c + 1);
    }
  }

  /** gauss() keeps the dimensions and returns a reduced row-echelon form. */
  lemma {:induction false} GaussRref(a: Mat, m: nat)
    requires Cols(a, m)
    ensures Rect(Gauss(a, m), |a|, m) && IsRref(Gauss(a, m), m)
  {
    EchelonStart(a, m);
    GaussFromRref(a, m, 0, 0);
  }

  // ---------------------------------------------------------------------------
  // A second elimination changes nothing
  // ---------------------------------------------------------------------------

  lemma {:induction false} SwapSame(a: Mat, i: nat)
    requires i < |a|
    ensures SwapRows(a, i, i) == a
  {
  }

  /** Dividing a row that already leads with 1 by that 1 changes nothing. */
  lemma {:induction false} ScaleByOne(a: Mat, m: nat, i: nat, c: nat)
    requires Cols(a, m) && i < |a| && c < m && a[i][c] == 1.0
    ensures ScaleRow(a, m, i, c) == a
  {
    var b := ScaleRow(a, m, i, c);
    forall l | 0 <= l < m
      ensures b[i][l] == a[i][l]
    {
      RowDivFromAt(a[i], c, a[i][c], m, l);
    }
    assert b[i] == a[i];
  }

  /** Eliminating with a column that is already zero outside row i changes nothing. */
  lemma {:induction false} EliminateCleared(a: Mat, m: nat, i: nat, c: nat)
    requires Cols(a, m) && i < |a| && c < m
    requires forall r :: 0 <= r < |a| && r != i ==> a[r][c] == 0.0
    ensures EliminateRows(a, m, i, c) == a
  {
    var b := EliminateRows(a, m, i, c);
    forall r | 0 <= r < |a|
      ensures b[r] == a[r]
    {
      if r != i {
        forall l | 0 <= l < m
          ensures b[r][l] == a[r][l]
        {
          EliminateRowsAt(a, m, i, c, r, l);
        }
      }
    }
  }

  /** Exactly the rows above i lead before column c. */
  predicate LeadsSplit(a: Mat, i: nat, c: nat)
  {
    i <= |a| &&
    (forall r {:trigger Lead(a[r])} :: 0 <= r < i ==> Lead(a[r]) < c) &&
    (forall r {:trigger Lead(a[r])} :: i <= r < |a| ==> Lead(a[r]) >= c)
  }

  /** A pass over a reduced row-echelon form whose row i leads at column c changes nothing. */
  lemma {:induction false} FixedPivot(a: Mat, m: nat, i: nat, c: nat)
    requires IsRref(a, m) && LeadsSplit(a, i, c) && i < |a| && c < m && Lead(a[i]) == c
    ensures Pass(a, m, i, c) == a && NextRow(a, m, i, c) == i + 1
    ensures LeadsSplit(a, i + 1, c + 1)
  {
    FirstNonzeroRowIs(a, m, c, i, i);
    SwapSame(a, i);
    assert PivotUp(a, m, i, c) == a;
    ScaleByOne(a, m, i, c);
    EliminateCleared(a, m, i, c);
  }

  /** A pass over a reduced row-echelon form whose rows from i on lead after column c changes nothing. */
  lemma {:induction false} FixedSkip(a: Mat, m: nat, i: nat, c: nat)
    requires IsRref(a, m) && LeadsSplit(a, i, c) && i < |a| && c < m && Lead(a[i]) != c
    ensures Pass(a, m, i, c) == a && NextRow(a, m, i, c) == i
    ensures LeadsSplit(a, i, c + 1)
  {
    forall r | i <= r < |a|
      ensures c < Lead(a[r]) && a[r][c] == 0.0
    {
      LeadBefore(a[r], c);
    }
    FirstNonzeroRowIs(a, m, c, i, |a|);
  }

  /** The outer loop is one pass followed by the rest of the loop. */
  lemma {:induction false} GaussFromStep(a: Mat, m: nat, i: nat, c: nat)
    requires Cols(a, m) && i < |a| && c < m
    ensures GaussFrom(a, m, i, c) == GaussFrom(Pass(a, m, i, c), m, NextRow(a, m, i, c), c + 1)
  {
  }

  /** A pass that changes nothing leaves the rest of the loop to run on the same matrix. */
  lemma {:induction false} GaussFromUnchanged(a: Mat, m: nat, i: nat, c: nat)
    requires Cols(a, m) && i < |a| && c < m && Pass(a, m, i, c) == a
    ensures GaussFrom(a, m, i, c) == GaussFrom(a, m, NextRow(a, m, i, c), c + 1)
  {
  }

  /** Every pass of the outer loop from (i, c) on leaves the matrix as it is. */
  predicate PassesFixed(a: Mat, m: nat, i: nat, c: nat)
    requires Cols(a, m)
    decreases m - c
  {
    i <= |a| && c <= m &&
    (i < |a| && c < m ==> Pass(a, m, i, c) == a && PassesFixed(a, m, NextRow(a, m, i, c), c + 1))
  }

  /** When no pass changes anything, the loop returns the matrix it started on. */
  lemma {:induction false} GaussFromFixed(a: Mat, m: nat, i: nat, c: nat)
    requires Cols(a, m) && PassesFixed(a, m, i, c)
    ensures GaussFrom(a, m, i, c) == a
    decreases m - c
  {
    if i < |a| && c < m {
      GaussFromFixed(a, m, NextRow(a, m, i, c), c + 1);
      GaussFromUnchanged(a, m, i, c);
    }
  }

  /** A pass over a reduced row-echelon form changes nothing and keeps the split. */
  lemma {:induction false} FixedPass(a: Mat, m: nat, i: nat, c: nat) returns (j: nat)
    requires IsRref(a, m) && LeadsSplit(a, i, c) && i < |a| && c < m
    ensures Pass(a, m, i, c) == a && NextRow(a, m, i, c) == j && LeadsSplit(a, j, c + 1)
  {
    if Lead(a[i]) == c {
      FixedPivot(a, m, i, c);
    } else {
      FixedSkip(a, m, i, c);
    }
    j := NextRow(a, m, i, c);
  }

  lemma {:induction false} PassesFixedStep(a: Mat, m: nat, i: nat, c: nat)
    requires Cols(a, m) && i < |a| && c < m && Pass(a, m, i, c) == a
    requires PassesFixed(a, m, NextRow(a, m, i, c), c + 1)
    ensures PassesFixed(a, m, i, c)
  {
  }

  /**
   * On a reduced row-echelon form no pass changes anything, from any row i such
   * that exactly the rows above i lead before column c.
   */
  lemma {:induction false} RrefPassesFixed(a: Mat, m: nat, i: nat, c: nat)
    requires IsRref(a, m) && LeadsSplit(a, i, c) && c <= m
    ensures PassesFixed(a, m, i, c)
    decreases m - c
  {
    if i < |a| && c < m {
      var j := FixedPass(a, m, i, c);
      RrefPassesFixed(a, m, j, c + 1);
      PassesFixedStep(a, m, i, c);
    }
  }

  /** gauss() leaves a reduced row-echelon form as it is. */
  lemma {:induction false} GaussOfRref(a: Mat, m: nat)
    requires IsRref(a, m)
    ensures Gauss(a, m) == a
  {
    RrefPassesFixed(a, m, 0, 0);
    GaussFromFixed(a, m, 0, 0);
  }

  /** gauss() is idempotent. */
  lemma {:induction false} GaussIdempotent(a: Mat, m: nat)
    requires Cols(a, m)
    ensures Gauss(Gauss(a, m), m) == Gauss(a, m)
  {
    GaussRref(a, m);
    GaussOfRref(Gauss(a, m), m);
  }

  // ---------------------------------------------------------------------------
  // gauss() keeps the solutions of a x = 0
  // ---------------------------------------------------------------------------

  /** u[0] * x[0] + ... + u[l - 1] * x[l - 1]. */
  function RowDot(u: seq<real>, x: seq<real>, l: nat): real
    requires l <= |u| && l <= |x|
  {
    if l == 0 then 0.0 else RowDot(u, x, l - 1) + u[l - 1] * x[l - 1]
  }

  /** Every row of a is orthogonal to x: x solves a x = 0. */
  predicate Annihilates(a: Mat, m: nat, x: seq<real>)
    requires Cols(a, m) && |x| == m
  {
    forall r {:trigger RowDot(a[r], x, m)} :: 0 <= r < |a| ==> RowDot(a[r], x, m) == 0.0
  }

  /** The row u - k v is dotted by the difference of the dots, k fixed. */
  lemma {:induction false} RowDotCombination(u: seq<real>, v: seq<real>, w: seq<real>, k: real, x: seq<real>, l: nat)
    requires l <= |x| && l <= |u| && l <= |v| && l <= |w|
    requires forall t :: 0 <= t < l ==> w[t] == u[t] - v[t] * k
    ensures RowDot(w, x, l) == RowDot(u, x, l) - k * RowDot(v, x, l)
  {
    if l > 0 {
      RowDotCombination(u, v, w, k, x, l - 1);
      var p := RowDot(v, x, l - 1);
      var q := v[l - 1] * x[l - 1];
      assert k * (p + q) == k * p + k * q;
      assert w[l - 1] * x[l - 1] == u[l - 1] * x[l - 1] - k * q;
    }
  }

  /** The row v with every entry multiplied by k is dotted by k times the dot. */
  lemma {:induction false} RowDotScale(v: seq<real>, w: seq<real>, k: real, x: seq<real>, l: nat)
    requires l <= |x| && l <= |v| && l <= |w|
    requires forall t :: 0 <= t < l ==> v[t] == k * w[t]
    ensures RowDot(v, x, l) == k * RowDot(w, x, l)
  {
    if l > 0 {
      RowDotScale(v, w, k, x, l - 1);
      var p := RowDot(w, x, l - 1);
      var q := w[l - 1] * x[l - 1];
      assert k * (p + q) == k * p + k * q;
      assert v[l - 1] * x[l - 1] == k * q;
    }
  }

  /** Swapping two rows keeps the solutions. */
  lemma {:induction false} SwapKeepsSolutions(a: Mat, m: nat, i: nat, j: nat, x: seq<real>)
    requires Cols(a, m) && i < |a| && j < |a| && |x| == m
    ensures Annihilates(SwapRows(a, i, j), m, x) <==> Annihilates(a, m, x)
  {
    var b := SwapRows(a, i, j);
    if Annihilates(b, m, x) {
      forall r | 0 <= r < |a|
        ensures RowDot(a[r], x, m) == 0.0
      {
        if r == i {
          assert a[r] == b[j];
        } else if r == j {
          assert a[r] == b[i];
        } else {
          assert a[r] == b[r];
        }
      }
    }
  }

  /** Dividing the pivot row, zero before column c, by its nonzero pivot keeps the solutions. */
  lemma {:induction false} ScaleKeepsSolutions(a: Mat, m: nat, i: nat, c: nat, x: seq<real>)
    requires Cols(a, m) && i < |a| && c < m && a[i][c] != 0.0 && |x| == m
    requires forall l :: 0 <= l < c ==> a[i][l] == 0.0
    ensures Annihilates(ScaleRow(a, m, i, c), m, x) <==> Annihilates(a, m, x)
  {
    var b := ScaleRow(a, m, i, c);
    var k := a[i][c];
    forall t | 0 <= t < m
      ensures a[i][t] == k * b[i][t]
    {
      RowDivFromAt(a[i], c, k, m, t);
      if t >= c {
        assert b[i][t] == a[i][t] / k;
      }
    }
    RowDotScale(a[i], b[i], k, x, m);
  }


  /** Row r of the eliminated matrix is row r minus a[r][c] times row i. */
  lemma {:induction false} EliminateRowDot(a: Mat, m: nat, i: nat, c: nat, x: seq<real>, r: nat)
    requires Cols(a, m) && i < |a| && c < m && |x| == m && r < |a| && r != i
    ensures RowDot(EliminateRows(a, m, i, c)[r], x, m) == RowDot(a[r], x, m) - a[r][c] * RowDot(a[i], x, m)
  {
    forall t | 0 <= t < m
      ensures EliminateRows(a, m, i, c)[r][t] == a[r][t] - a[i][t] * a[r][c]
    {
      EliminateRowsAt(a, m, i, c, r, t);
    }
    RowDotCombination(a[r], a[i], EliminateRows(a, m, i, c)[r], a[r][c], x, m);
  }

  /** Subtracting multiples of row i from the other rows keeps the solutions. */
  lemma {:induction false} EliminateKeepsSolutions(a: Mat, m: nat, i: nat, c: nat, x: seq<real>)
    requires Cols(a, m) && i < |a| && c < m && |x| == m
    ensures Annihilates(EliminateRows(a, m, i, c), m, x) <==> Annihilates(a, m, x)
  {
    var b := EliminateRows(a, m, i, c);
    assert b[i] == a[i];
    if Annihilates(b, m, x) {
      forall r | 0 <= r < |a|
        ensures RowDot(a[r], x, m) == 0.0
      {
        if r != i {
          EliminateRowDot(a, m, i, c, x, r);
        }
      }
    }
    if Annihilates(a, m, x) {
      forall r | 0 <= r < |a|
        ensures RowDot(b[r], x, m) == 0.0
      {
        if r != i {
          EliminateRowDot(a, m, i, c, x, r);
        }
      }
    }
  }

  /** The rows from i on are zero before column c: the part of the invariant the solutions depend on. */
  predicate ZeroBelow(a: Mat, m: nat, i: nat, c: nat)
  {
    Cols(a, m) && i <= |a| && c <= m && ZeroFrom(a, i, c)
  }

  /** The rows from i on are zero before column c, one row at a time. */
  predicate ZeroFrom(a: Mat, i: nat, c: nat)
    requires i <= |a|
    decreases |a| - i
  {
    i == |a| || ((forall l :: 0 <= l < c && l < |a[i]| ==> a[i][l] == 0.0) && ZeroFrom(a, i + 1, c))
  }

  lemma {:induction false} ZeroFromAll(a: Mat, i: nat, c: nat)
    requires i <= |a|
    ensures ZeroFrom(a, i, c) <==> forall r, l :: i <= r < |a| && 0 <= l < c && l < |a[r]| ==> a[r][l] == 0.0
    decreases |a| - i
  {
    if i < |a| {
      ZeroFromAll(a, i + 1, c);
    }
  }

  /** The search and swap keep the zeros, and leave a zero at (i, c) only when column c is zero from row i on. */
  lemma {:induction false} PivotUpZero(a: Mat, m: nat, i: nat, c: nat)
    requires ZeroBelow(a, m, i, c) && i < |a| && c < m
    ensures ZeroBelow(PivotUp(a, m, i, c), m, i, c)
    ensures PivotUp(a, m, i, c)[i][c] == 0.0 ==> forall r :: i <= r < |a| ==> PivotUp(a, m, i, c)[r][c] == 0.0
  {
    var j := FirstNonzeroRow(a, m, c, i);
    ZeroFromAll(a, i, c);
    ZeroFromAll(PivotUp(a, m, i, c), i, c);
    forall r | i <= r < j
      ensures a[r][c] == 0.0
    {
      FirstNonzeroRowBefore(a, m, c, i, r);
    }
    if j < |a| {
      var b := SwapRows(a, i, j);
      forall r, l | i <= r < |b| && 0 <= l < c
        ensures b[r][l] == 0.0
      {
        if r == i {
          assert b[r] == a[j];
        } else if r == j {
          assert b[r] == a[i];
        } else {
          assert b[r] == a[r];
        }
      }
    }
  }

  /** One pass keeps the zeros below the finished rows. */
  lemma {:induction false} PassZeroBelow(a: Mat, m: nat, i: nat, c: nat)
    requires ZeroBelow(a, m, i, c) && i < |a| && c < m
    ensures ZeroBelow(Pass(a, m, i, c), m, NextRow(a, m, i, c), c + 1)
  {
    var b := PivotUp(a, m, i, c);
    PivotUpZero(a, m, i, c);
    ZeroFromAll(b, i, c);
    ZeroFromAll(Pass(a, m, i, c), NextRow(a, m, i, c), c + 1);
    if b[i][c] != 0.0 {
      var d := ScaleRow(b, m, i, c);
      var e := EliminateRows(d, m, i, c);
      forall r, l | i + 1 <= r < |a| && 0 <= l < c + 1
        ensures e[r][l] == 0.0
      {
        assert d[r] == b[r];
        EliminateRowsAt(d, m, i, c, r, l);
        if l < c {
          assert d[i][l] == 0.0;
        }
      }
    }
  }

  /** One pass keeps the solutions of a x = 0. */
  lemma {:induction false} PassKeepsSolutions(a: Mat, m: nat, i: nat, c: nat, x: seq<real>)
    requires ZeroBelow(a, m, i, c) && i < |a| && c < m && |x| == m
    ensures Annihilates(Pass(a, m, i, c), m, x) <==> Annihilates(a, m, x)
  {
    var b := PivotUp(a, m, i, c);
    var j := FirstNonzeroRow(a, m, c, i);
    if j < |a| {
      SwapKeepsSolutions(a, m, i, j, x);
    }
    if b[i][c] != 0.0 {
      PivotUpZero(a, m, i, c);
      ZeroFromAll(b, i, c);
      ScaleKeepsSolutions(b, m, i, c, x);
      EliminateKeepsSolutions(ScaleRow(b, m, i, c), m, i, c, x);
    }
  }

  /** From any state with zeros below the finished rows, the outer loop keeps the solutions of a x = 0. */
  lemma {:induction false} GaussFromKeepsSolutions(a: Mat, m: nat, i: nat, c: nat, x: seq<real>)
    requires ZeroBelow(a, m, i, c) && |x| == m
    ensures Annihilates(GaussFrom(a, m, i, c), m, x) <==> Annihilates(a, m, x)
    decreases m - c
  {
    if i < |a| && c < m {
      PassKeepsSolutions(a, m, i, c, x);
      PassZeroBelow(a, m, i, c);
      GaussFromKeepsSolutions(Pass(a, m, i, c), m, NextRow(a, m, i, c), c + 1, x);
      GaussFromStep(a, m, i, c);
    }
  }

  /** a x = 0 exactly when gauss(a) x = 0. */
  lemma {:induction false} GaussKeepsSolutions(a: Mat, m: nat, x: seq<real>)
    requires Cols(a, m) && |x| == m
    ensures Annihilates(Gauss(a, m), m, x) <==> Annihilates(a, m, x)
  {
    ZeroFromAll(a, 0, 0);
    GaussFromKeepsSolutions(a, m, 0, 0, x);
  }
}
