/**
 * linal::Matrix<T> (linal.h) as a class: the fields n, m and the rows a,
 * which the methods read and update by the same loops as the source. Each
 * method is proved to compute the value the modules MatrixAlgebra,
 * Elimination, Subspaces and Jordan define and reason about.
 */
module Matrices {

  import opened MatrixAlgebra
  import P = Permutations
  import Elimination
  import Subspaces
  import Jordan

  class Matrix {
    var n: nat
    var m: nat
    var a: Mat

    /** The class invariant: a has n rows of m entries. */
    ghost predicate Valid()
      reads this
    {
      Rect(a, n, m)
    }

    /** Matrix(n, m): n rows of m zeros; m = -1, the default, makes the matrix square. */
    constructor (n: nat, m: int)
      requires m >= -1
      ensures Valid() && this.n == n && this.m == (if m == -1 then n else m)
      ensures a == Zeros(n, this.m)
    {
      var cols: nat := if m == -1 then n else m;
      this.n := n;
      this.m := cols;
      a := Zeros(n, cols);
    }

    /** Matrix(vector): the rows as given; the column count is read from the first row. */
    constructor FromRows(rows: Mat)
      requires |rows| >= 1
      ensures n == |rows| && m == |rows[0]| && a == rows
      ensures Valid() <==> Cols(rows, |rows[0]|)
    {
      n := |rows|;
      m := |rows[0]|;
      a := rows;
    }

    /** The copy constructor, and operator=, which copies n, m and a. */
    constructor Copy(other: Matrix)
      ensures n == other.n && m == other.m && a == other.a
    {
      n := other.n;
      m := other.m;
      a := other.a;
    }

    /** operator*: ans[i][j] += a[i][k] * other[k][j] over the three loops. */
    method Mul(other: Matrix) returns (ans: Matrix)
      requires Valid() && other.Valid() && m <= other.n
      ensures fresh(ans) && ans.Valid() && ans.n == n && ans.m == other.m
      ensures ans.a == Product(a, other.a, m, other.m)
    {
      var p := other.m;
      ans := new Matrix(n, p);
      for i := 0 to n
        invariant ans.n == n && ans.m == p && Rect(ans.a, n, p)
        invariant forall r, c :: 0 <= r < n && 0 <= c < p ==>
          ans.a[r][c] == if r < i then DotUpTo(a, other.a, r, c, m) else 0.0
      {
        for j := 0 to p
          invariant ans.n == n && ans.m == p && Rect(ans.a, n, p)
          invariant forall r, c :: 0 <= r < n && 0 <= c < p ==>
            ans.a[r][c] == if r < i || (r == i && c < j) then DotUpTo(a, other.a, r, c, m) else 0.0
        {
          for k := 0 to m
            invariant ans.n == n && ans.m == p && Rect(ans.a, n, p)
            invariant forall r, c :: 0 <= r < n && 0 <= c < p ==>
              ans.a[r][c] ==
                if r < i || (r == i && c < j) then DotUpTo(a, other.a, r, c, m)
                else if r == i && c == j then DotUpTo(a, other.a, i, j, k)
                else 0.0
          {
            ans.a := ans.a[i := ans.a[i][j := ans.a[i][j] + a[i][k] * other.a[k][j]]];
          }
        }
      }
      assert ans.a == Product(a, other.a, m, p) by {
        forall r | 0 <= r < n
          ensures ans.a[r] == Product(a, other.a, m, p)[r]
        {
        }
      }
    }
    /**
     * operator^(pow): for 0 the n x n corner of a copy becomes the identity,
     * otherwise pow - 1 products with the matrix, from a copy of it.
     */
    method Pow(pow: nat) returns (ans: Matrix)
      requires Valid() && PowerDefined(n, m, pow)
      ensures fresh(ans) && ans.Valid() && ans.n == n && ans.m == m
      ensures ans.a == MatPower(a, n, m, pow)
    {
      ans := new Matrix.Copy(this);
      if pow == 0 {
        for i := 0 to n
          invariant ans.n == n && ans.m == m && Rect(ans.a, n, m)
          invariant forall r, c :: 0 <= r < n && 0 <= c < m ==>
            ans.a[r][c] == if r < i && c < n then (if r == c then 1.0 else 0.0) else a[r][c]
        {
          for j := 0 to n
            invariant ans.n == n && ans.m == m && Rect(ans.a, n, m)
            invariant forall r, c :: 0 <= r < n && 0 <= c < m ==>
              ans.a[r][c] == if (r < i && c < n) || (r == i && c < j) then (if r == c then 1.0 else 0.0) else a[r][c]
          {
            ans.a := ans.a[i := ans.a[i][j := if i == j then 1.0 else 0.0]];
          }
        }
        assert ans.a == IdentityCorner(a, n, m) by {
          forall r | 0 <= r < n
            ensures ans.a[r] == IdentityCorner(a, n, m)[r]
          {
          }
        }
      } else {
        for i := 1 to pow
          invariant fresh(ans) && ans.Valid() && ans.n == n && ans.m == m
          invariant ans.a == MatPower(a, n, m, i)
        {
          ans := ans.Mul(this);
        }
      }
    }

    /** operator-: the entrywise difference into a new n x n matrix. */
    method Minus(other: Matrix) returns (ans: Matrix)
      requires Valid() && other.Valid() && m == n && other.n == n && other.m == n
      ensures fresh(ans) && ans.Valid() && ans.n == n && ans.m == n
      ensures ans.a == Difference(a, other.a, n)
    {
      ans := new Matrix(n, -1);
      for i := 0 to n
        invariant ans.n == n && ans.m == n && Rect(ans.a, n, n)
        invariant forall r, c :: 0 <= r < n && 0 <= c < n ==>
          ans.a[r][c] == if r < i then a[r][c] - other.a[r][c] else 0.0
      {
        for j := 0 to n
          invariant ans.n == n && ans.m == n && Rect(ans.a, n, n)
          invariant forall r, c :: 0 <= r < n && 0 <= c < n ==>
            ans.a[r][c] == if r < i || (r == i && c < j) then a[r][c] - other.a[r][c] else 0.0
        {
          ans.a := ans.a[i := ans.a[i][j := a[i][j] - other.a[i][j]]];
        }
      }
      assert ans.a == Difference(a, other.a, n) by {
        forall r | 0 <= r < n
          ensures ans.a[r] == Difference(a, other.a, n)[r]
        {
        }
      }
    }

    /** transpose(): ans[j][i] = a[i][j] into a new m x n matrix. */
    method Transpose() returns (ans: Matrix)
      requires Valid()
      ensures fresh(ans) && ans.Valid() && ans.n == m && ans.m == n
      ensures ans.a == MatrixAlgebra.Transpose(a, m)
    {
      ans := new Matrix(m, n);
      ghost var t := MatrixAlgebra.Transpose(a, m);
      for i := 0 to n
        invariant ans.n == m && ans.m == n && Rect(ans.a, m, n)
        invariant forall r, c :: 0 <= r < m && 0 <= c < n ==> ans.a[r][c] == if c < i then t[r][c] else 0.0
      {
        for j := 0 to m
          invariant ans.n == m && ans.m == n && Rect(ans.a, m, n)
          invariant forall r, c :: 0 <= r < m && 0 <= c < n ==>
            ans.a[r][c] == if c < i || (c == i && r < j) then t[r][c] else 0.0
        {
          ans.a := ans.a[j := ans.a[j][i := a[i][j]]];
        }
      }
      assert ans.a == t by {
        forall r | 0 <= r < m
          ensures ans.a[r] == t[r]
        {
        }
      }
    }

    /**
     * append_down(other): n grows by other's row count and its rows are pushed
     * back one by one. other is passed by value, so its rows are those it had
     * on entry, also when it is this matrix itself.
     */
    method AppendDown(other: Matrix)
      requires other.n <= |other.a|
      modifies this
      ensures n == old(n) + old(other.n) && m == old(m)
      ensures a == old(a) + old(other.a)[..old(other.n)]
      ensures old(Valid()) && old(other.Valid()) && old(other.m) == m ==> Valid()
    {
      var rows, count := other.a, other.n;
      n := n + count;
      for i := 0 to count
        invariant n == old(n) + count && m == old(m)
        invariant a == old(a) + rows[..i]
      {
        a := a + [rows[i]];
      }
    }

    /**
     * append_right(other): m grows by other's column count and row i, for
     * each row i of other, gets other's row i pushed back entry by entry.
     */
    method AppendRight(other: Matrix)
      requires other.Valid() && other.n <= |a|
      modifies this
      ensures n == old(n) && m == old(m) + old(other.m)
      ensures |a| == |old(a)| && forall i :: 0 <= i < |a| ==>
        a[i] == if i < old(other.n) then old(a)[i] + old(other.a)[i] else old(a)[i]
      ensures old(other.n) == |old(a)| ==> a == MatrixAlgebra.AppendRight(old(a), old(other.a))
      ensures old(Valid()) && old(other.n) == n ==> Valid()
    {
      var rows, count, width := other.a, other.n, other.m;
      m := m + width;
      for i := 0 to count
        invariant n == old(n) && m == old(m) + width && |a| == |old(a)|
        invariant forall r :: 0 <= r < |a| ==> a[r] == if r < i then old(a)[r] + rows[r] else old(a)[r]
      {
        for j := 0 to width
          invariant n == old(n) && m == old(m) + width && |a| == |old(a)|
          invariant forall r :: 0 <= r < |a| && r != i ==> a[r] == if r < i then old(a)[r] + rows[r] else old(a)[r]
          invariant a[i] == old(a)[i] + rows[i][..j]
        {
          a := a[i := a[i] + [rows[i][j]]];
        }
        assert rows[i][..width] == rows[i];
      }
    }
    /** append_right(other) when other has as many rows as this matrix: every row gets other's row appended. */
    method AppendBeside(other: Matrix)
      requires Valid() && other.Valid() && other.n == n
      modifies this
      ensures n == old(n) && m == old(m) + old(other.m) && Valid()
      ensures a == MatrixAlgebra.AppendRight(old(a), old(other.a))
    {
      AppendRight(other);
    }

    /**
     * det(): the do/while loop over next_perm from the identity, adding
     * sign() times the product a[0][p[0]] * ... * a[n - 1][p[n - 1]].
     * Needs n >= 1: next_perm reads p[n - 1].
     */
    method Det() returns (ans: real)
      requires Valid() && n == m && n >= 1
      ensures ans == MatrixAlgebra.Det(a, n)
    {
      ans := 0.0;
      var p := new P.Permutation.OfSize(n);
      ghost var ps := Perms(n);
      ghost var k := 0;
      var more := true;
      while more
        invariant fresh(p) && fresh(p.p) && p.n == n && p.p.Length == n
        invariant k <= |ps| && ans == LeibnizSum(a, n, ps[..k])
        invariant more ==> k < |ps| && p.p[..] == ps[k]
        invariant !more ==> k == |ps|
        decreases |ps| - k
      {
        var term;
        term, more := DetStep(p, k);
        LeibnizPrefix(a, n, ps, k);
        ans := ans + term;
        k := k + 1;
      }
      assert ps[..k] == ps;
    }

    /**
     * One round of the do/while loop of det() on the k-th permutation: the
     * summand sign() * sum, then next_perm.
     */
    method DetStep(p: P.Permutation, ghost k: nat) returns (term: real, more: bool)
      requires Valid() && n == m && n >= 1 && p.n == n && p.p.Length == n
      requires k < |Perms(n)| && p.p[..] == Perms(n)[k]
      modifies p.p
      ensures p.p.Length == n && term == Term(a, Perms(n)[k], n)
      ensures more ==> k + 1 < |Perms(n)| && p.p[..] == Perms(n)[k + 1]
      ensures !more ==> k + 1 == |Perms(n)|
    {
      PermsMember(n, k);
      var sum := ProductAlong(p);
      var sign := p.CountSign();
      TermOf(a, n, p.p[..], sign, sum);
      term := (sign as real) * sum;
      ghost var s := p.p[..];
      more := p.NextInPlace();
      PermsAdvance(n, k, s, more, p.p[..]);
    }

    /** The inner loop of det(): sum *= a[i][p[i]]. */
    method ProductAlong(p: P.Permutation) returns (sum: real)
      requires Valid() && n == m && p.Valid() && p.n == n
      ensures sum == DiagProduct(a, p.p[..], n)
    {
      sum := 1.0;
      for i := 0 to n
        invariant sum == DiagProduct(a, p.p[..], i)
      {
        sum := sum * a[i][p.p[i]];
      }
    }
    /**
     * inverse(): for each (i, j) the matrix b without row i and column j,
     * filled by the four quadrant loops; ans[j][i] = b.det(), negated for odd
     * i + j, divided by det(). Needs n >= 2 (det() of b needs a 1 x 1 b) and
     * det() != 0.
     */
    method Inverse() returns (ans: Matrix)
      requires Valid() && n == m && n >= 2 && MatrixAlgebra.Det(a, n) != 0.0
      ensures fresh(ans) && ans.Valid() && ans.n == n && ans.m == n
      ensures ans.a == InverseMatrix(a, n)
    {
      var currentDet := Det();
      ghost var inv := InverseMatrix(a, n);
      ans := new Matrix(n, -1);
      for i := 0 to n
        invariant ans.n == n && ans.m == n && Rect(ans.a, n, n)
        invariant forall r, c :: 0 <= r < n && 0 <= c < i ==> ans.a[r][c] == inv[r][c]
      {
        FillColumn(ans, i, currentDet);
      }
      assert ans.a == inv by {
        forall r | 0 <= r < n
          ensures ans.a[r] == inv[r]
        {
        }
      }
    }

    /** The inner loop of inverse(): column i of ans, entry by entry. */
    method FillColumn(ans: Matrix, i: nat, currentDet: real)
      requires Valid() && n == m && n >= 2 && i < n && currentDet == MatrixAlgebra.Det(a, n) && currentDet != 0.0
      requires ans != this && ans.n == n && ans.m == n && Rect(ans.a, n, n)
      modifies ans
      ensures ans.n == n && ans.m == n && Rect(ans.a, n, n)
      ensures forall r :: 0 <= r < n ==> ans.a[r][i] == InverseMatrix(a, n)[r][i]
      ensures forall r, c :: 0 <= r < n && 0 <= c < n && c != i ==> ans.a[r][c] == old(ans.a)[r][c]
    {
      ghost var inv := InverseMatrix(a, n);
      for j := 0 to n
        invariant ans.n == n && ans.m == n && Rect(ans.a, n, n)
        invariant forall r :: 0 <= r < j ==> ans.a[r][i] == inv[r][i]
        invariant forall r :: j <= r < n ==> ans.a[r] == old(ans.a)[r]
        invariant forall r, c :: 0 <= r < n && 0 <= c < n && c != i ==> ans.a[r][c] == old(ans.a)[r][c]
      {
        var x := CofactorEntry(i, j, currentDet);
        ans.a := ans.a[j := ans.a[j][i := x]];
      }
    }

    /**
     * The entry ans[j][i] of inverse(): b.det() for the b without row i and
     * column j, times -1 for odd i + j, divided by det(); the three updates
     * of ans[j][i] are made on x here.
     */
    method CofactorEntry(i: nat, j: nat, currentDet: real) returns (x: real)
      requires Valid() && n == m && n >= 2 && i < n && j < n
      requires currentDet == MatrixAlgebra.Det(a, n) && currentDet != 0.0
      ensures x == InverseMatrix(a, n)[j][i]
    {
      x := SignedMinorDet(i, j);
      x := x / currentDet;
      InverseAt(a, n, i, j, x);
    }

    /** b.det() for the b of inverse() without row i and column j, times -1 for odd i + j. */
    method SignedMinorDet(i: nat, j: nat) returns (x: real)
      requires Valid() && n == m && n >= 2 && i < n && j < n
      ensures x == Cofactor(a, n, i, j)
    {
      x := MinorDet(i, j);
      ghost var d := x;
      if (i + j) % 2 == 1 {
        x := x * -1.0;
      }
      CofactorOf(a, n, i, j, d, x);
    }

    /** b.det() for the b of inverse() without row i and column j. */
    method MinorDet(i: nat, j: nat) returns (d: real)
      requires Valid() && n == m && n >= 2 && i < n && j < n
      ensures d == MatrixAlgebra.Det(Minor(a, n, i, j), n - 1)
    {
      var b := MinorOf(i, j);
      d := b.Det();
    }

    /** The matrix b of inverse() for (i, j): Matrix(n - 1) and the four quadrant loops. */
    method MinorOf(i: nat, j: nat) returns (b: Matrix)
      requires Valid() && n == m && n >= 1 && i < n && j < n
      ensures fresh(b) && b.Valid() && b.n == n - 1 && b.m == n - 1
      ensures b.a == Minor(a, n, i, j)
    {
      b := new Matrix(n - 1, -1);
      b.CopyBlock(this, 0, i, 0, j, 0, 0);
      b.CopyBlock(this, 0, i, j + 1, n, 0, 1);
      b.CopyBlock(this, i + 1, n, 0, j, 1, 0);
      b.CopyBlock(this, i + 1, n, j + 1, n, 1, 1);
      ghost var minor := Minor(a, n, i, j);
      forall r | 0 <= r < n - 1
        ensures b.a[r] == minor[r]
      {
        forall c | 0 <= c < n - 1
          ensures b.a[r][c] == minor[r][c]
        {
          MinorAt(a, n, i, j, r, c);
        }
      }
    }

    /** One quadrant loop of inverse(): this[k - dk][l - dl] = src[k][l] for k0 <= k < k1 and l0 <= l < l1. */
    method CopyBlock(src: Matrix, k0: nat, k1: nat, l0: nat, l1: nat, dk: nat, dl: nat)
      requires src != this && Valid() && src.Valid()
      requires dk <= k0 <= k1 <= src.n && dl <= l0 <= l1 <= src.m && k1 - dk <= n && l1 - dl <= m
      modifies this
      ensures n == old(n) && m == old(m) && Valid()
      ensures forall r, c :: 0 <= r < n && 0 <= c < m ==>
        a[r][c] == if k0 <= r + dk < k1 && l0 <= c + dl < l1 then src.a[r + dk][c + dl] else old(a)[r][c]
    {
      for k := k0 to k1
        invariant n == old(n) && m == old(m) && Valid()
        invariant forall r, c :: 0 <= r < n && 0 <= c < m ==>
          a[r][c] == if k0 <= r + dk < k && l0 <= c + dl < l1 then src.a[r + dk][c + dl] else old(a)[r][c]
      {
        for l := l0 to l1
          invariant n == old(n) && m == old(m) && Valid()
          invariant forall r, c :: 0 <= r < n && 0 <= c < m ==>
            a[r][c] ==
              if (k0 <= r + dk < k && l0 <= c + dl < l1) || (r + dk == k && l0 <= c + dl < l) then src.a[r + dk][c + dl]
              else old(a)[r][c]
        {
          a := a[k - dk := a[k - dk][l - dl := src.a[k][l]]];
        }
      }
    }
    /**
     * gauss(): ans starts as a copy of the entries; each pass of the outer
     * loop moves a pivot of column c up to row i, divides row i by it and
     * clears column c in every other row. A column without a pivot keeps i
     * (the source's --i followed by the loop's ++i).
     */
    method Gauss() returns (ans: Matrix)
      requires Valid()
      ensures fresh(ans) && ans.Valid() && ans.n == n && ans.m == m
      ensures ans.a == Elimination.Gauss(a, m)
    {
      ans := EntryCopy();
      var i: nat, c: nat := 0, 0;
      while i != ans.n && c != ans.m
        invariant ans.Valid() && ans.n == n && ans.m == m && i <= n && c <= m
        invariant Elimination.GaussFrom(ans.a, m, i, c) == Elimination.Gauss(a, m)
        decreases m - c
      {
        i := ans.GaussPass(i, c);
        c := c + 1;
      }
    }

    /** The start of gauss(): Matrix(n, m) and the double loop copying every entry. */
    method EntryCopy() returns (ans: Matrix)
      requires Valid()
      ensures fresh(ans) && ans.Valid() && ans.n == n && ans.m == m && ans.a == a
    {
      ans := new Matrix(n, m);
      ans.CopyBlock(this, 0, n, 0, m, 0, 0);
      assert ans.a == a by {
        forall r | 0 <= r < n
          ensures ans.a[r] == a[r]
        {
        }
      }
    }

    /** One pass of the outer loop of gauss() at row i and column c; next is the row of the next pass. */
    method GaussPass(i: nat, c: nat) returns (next: nat)
      requires Valid() && i < n && c < m
      modifies this
      ensures n == old(n) && m == old(m) && Valid()
      ensures a == Elimination.Pass(old(a), m, i, c) && next == Elimination.NextRow(old(a), m, i, c)
    {
      SwapUp(i, c);
      if a[i][c] == 0.0 {
        next := i;
      } else {
        DivideRow(i, c);
        Eliminate(i, c);
        next := i + 1;
      }
    }

    /** The search loop of gauss(): the first row j >= i with a[j][c] != 0 is swapped with row i. */
    method SwapUp(i: nat, c: nat)
      requires Valid() && i < n && c < m
      modifies this
      ensures n == old(n) && m == old(m) && Valid()
      ensures a == Elimination.PivotUp(old(a), m, i, c)
    {
      for j := i to n
        invariant a == old(a)
        invariant Elimination.FirstNonzeroRow(a, m, c, i) == Elimination.FirstNonzeroRow(a, m, c, j)
      {
        if a[j][c] != 0.0 {
          a := a[i := a[j]][j := a[i]];
          return;
        }
      }
    }

    /** k = a[i][c], then a[i][j] /= k for j from c on. */
    method DivideRow(i: nat, c: nat)
      requires Valid() && i < n && c < m && a[i][c] != 0.0
      modifies this
      ensures n == old(n) && m == old(m) && Valid()
      ensures a == Elimination.ScaleRow(old(a), m, i, c)
    {
      var k := a[i][c];
      for j := c to m
        invariant n == old(n) && m == old(m) && Valid()
        invariant forall r :: 0 <= r < n && r != i ==> a[r] == old(a)[r]
        invariant forall t :: 0 <= t < m ==> a[i][t] == if c <= t < j then old(a)[i][t] / k else old(a)[i][t]
      {
        a := a[i := a[i][j := a[i][j] / k]];
      }
      ghost var row := Elimination.RowDivFrom(old(a)[i], c, k, m);
      forall t | 0 <= t < m
        ensures a[i][t] == row[t]
      {
        Elimination.RowDivFromAt(old(a)[i], c, k, m, t);
      }
      assert a[i] == row;
      assert a == old(a)[i := row] by {
        forall r | 0 <= r < n
          ensures a[r] == old(a)[i := row][r]
        {
        }
      }
    }

    /** For every row j: k = a[j][c], then a[j][l] -= a[i][l] * k for every l when j != i. */
    method Eliminate(i: nat, c: nat)
      requires Valid() && i < n && c < m
      modifies this
      ensures n == old(n) && m == old(m) && Valid()
      ensures a == Elimination.EliminateRows(old(a), m, i, c)
    {
      ghost var e := Elimination.EliminateRows(a, m, i, c);
      for j := 0 to n
        invariant n == old(n) && m == old(m) && Valid()
        invariant forall r :: 0 <= r < n ==> a[r] == if r < j then e[r] else old(a)[r]
      {
        EliminateRow(i, c, j);
        if j != i {
          forall l | 0 <= l < m
            ensures a[j][l] == e[j][l]
          {
            Elimination.EliminateRowsAt(old(a), m, i, c, j, l);
          }
        }
      }
    }

    /** The inner loop of the elimination for row j. */
    method EliminateRow(i: nat, c: nat, j: nat)
      requires Valid() && i < n && c < m && j < n
      modifies this
      ensures n == old(n) && m == old(m) && Valid()
      ensures forall r :: 0 <= r < n && r != j ==> a[r] == old(a)[r]
      ensures forall l :: 0 <= l < m ==> a[j][l] == if j == i then old(a)[j][l] else old(a)[j][l] - old(a)[i][l] * old(a)[j][c]
    {
      var k := a[j][c];
      for l := 0 to m
        invariant n == old(n) && m == old(m) && Valid()
        invariant forall r :: 0 <= r < n && r != j ==> a[r] == old(a)[r]
        invariant forall t :: 0 <= t < m ==> a[j][t] == if t < l && j != i then old(a)[j][t] - old(a)[i][t] * k else old(a)[j][t]
      {
        if j != i {
          a := a[j := a[j][l := a[j][l] - a[i][l] * k]];
        }
      }
    }

    /** The double loop of is_solution(): false at the first nonzero entry, true when there is none. */
    method IsZero() returns (b: bool)
      requires Valid()
      ensures b <==> a == Zeros(n, m)
    {
      for i := 0 to n
        invariant forall r, c :: 0 <= r < i && 0 <= c < m ==> a[r][c] == 0.0
      {
        for j := 0 to m
          invariant forall r, c :: 0 <= r < n && 0 <= c < m && (r < i || (r == i && c < j)) ==> a[r][c] == 0.0
        {
          if a[i][j] != 0.0 {
            assert a[i][j] != Zeros(n, m)[i][j];
            return false;
          }
        }
      }
      assert a == Zeros(n, m) by {
        forall r | 0 <= r < n
          ensures a[r] == Zeros(n, m)[r]
        {
        }
      }
      return true;
    }

    /** is_solution(x): this * x, then the test that every entry is zero. */
    method IsSolution(x: Matrix) returns (b: bool)
      requires Valid() && x.Valid() && m <= x.n
      ensures b <==> Subspaces.IsSolution(a, m, x.a, x.m)
    {
      var res := Mul(x);
      b := res.IsZero();
      Subspaces.IsSolutionZeros(a, m, x.a, x.m);
    }

    /** The inner loop of rk(): non_empty once an entry of row i is nonzero. */
    method RowNonzero(i: nat) returns (nonEmpty: bool)
      requires Valid() && i < n
      ensures nonEmpty <==> !Elimination.IsZeroRow(a[i])
    {
      nonEmpty := false;
      for j := 0 to m
        invariant nonEmpty <==> exists t :: 0 <= t < j && a[i][t] != 0.0
      {
        if a[i][j] != 0.0 {
          nonEmpty := true;
        }
      }
    }

    /** rk(): the rows of gauss() with a nonzero entry. */
    method Rk() returns (ans: nat)
      requires Valid()
      ensures ans == Subspaces.Rank(a, m)
    {
      var gaussed := Gauss();
      ans := 0;
      for i := 0 to gaussed.n
        modifies {}
        invariant ans == Subspaces.NonzeroCount(gaussed.a, i)
      {
        var nonEmpty := gaussed.RowNonzero(i);
        if nonEmpty {
          ans := ans + 1;
        }
      }
    }

    /** The inner loop of the first loop of ker(): the first j with a[i][j] == 1, or m. */
    method FirstOneIn(i: nat) returns (t: nat)
      requires Valid() && i < n
      ensures t == Subspaces.FirstOne(a[i])
    {
      t := 0;
      while t != m && a[i][t] != 1.0
        invariant t <= m && forall s :: 0 <= s < t ==> a[i][s] != 1.0
        decreases m - t
      {
        t := t + 1;
      }
      Subspaces.FirstOneFromIs(a[i], 0, t);
    }

    /** The vector main of ker(), on the matrix gauss() returned. */
    method MainColumns() returns (main: seq<int>)
      requires Valid()
      ensures main == Subspaces.Main(a, m)
    {
      main := seq(m, _ => -1);
      for i := 0 to n
        invariant main == Subspaces.MainUpTo(a, m, i)
      {
        var t := FirstOneIn(i);
        if t != m {
          main := main[t := i];
        }
      }
    }

    /** cur of ker() for the free column j: Matrix(1, m), then cur[0][j] = 1 and cur[0][i] = -a[main[i]][j] for i < j. */
    method FreeVector(main: seq<int>, j: nat) returns (cur: Matrix)
      requires Valid() && Subspaces.MainRange(a, m, main) && j < m
      ensures fresh(cur) && cur.Valid() && cur.n == 1 && cur.m == m
      ensures cur.a == [Subspaces.KerVector(a, m, main, j)]
    {
      cur := new Matrix(1, m);
      cur.a := cur.a[0 := cur.a[0][j := 1.0]];
      for i := 0 to j
        invariant cur.n == 1 && cur.m == m && Rect(cur.a, 1, m)
        invariant forall t :: 0 <= t < m ==>
          cur.a[0][t] == if t == j then 1.0 else if t < i && main[t] != -1 then -a[main[t]][j] else 0.0
      {
        if main[i] != -1 {
          cur.a := cur.a[0 := cur.a[0][i := -a[main[i]][j]]];
        }
      }
      ghost var v := Subspaces.KerVector(a, m, main, j);
      assert cur.a[0] == v;
    }

    /** The second loop of ker(), on the matrix gauss() returned: the line cur of each free column, appended down. */
    method FreeLines(main: seq<int>) returns (ans: Matrix)
      requires Valid() && Subspaces.MainRange(a, m, main)
      ensures fresh(ans) && ans.Valid() && ans.n == Subspaces.FreeCount(main, m) && ans.m == m
      ensures ans.a == Subspaces.KerRows(a, m, main, m)
    {
      ans := new Matrix(0, m);
      for j := 0 to m
        modifies ans
        invariant fresh(ans) && ans.n == Subspaces.FreeCount(main, j) && ans.m == m
        invariant ans.a == Subspaces.KerRows(a, m, main, j)
      {
        if main[j] == -1 {
          var cur := FreeVector(main, j);
          ans.AppendDown(cur);
        }
      }
    }

    /** ker(): gauss(), main, the lines of the free columns, transposed. */
    method Ker() returns (res: Matrix)
      requires Valid()
      ensures fresh(res) && res.Valid() && res.n == m && res.m == Subspaces.Nullity(a, m)
      ensures res.a == Subspaces.Ker(a, m)
    {
      var gaussed := Gauss();
      var main := gaussed.MainColumns();
      var ans := gaussed.FreeLines(main);
      res := ans.Transpose();
    }

    /** cur_line of im() for row i and to_append, set once an entry is nonzero. */
    method LineOf(i: nat) returns (cur: Matrix, toAppend: bool)
      requires Valid() && i < n
      ensures fresh(cur) && cur.Valid() && cur.n == 1 && cur.m == m && cur.a == [a[i]]
      ensures toAppend <==> !Elimination.IsZeroRow(a[i])
    {
      cur := new Matrix(1, m);
      toAppend := false;
      for j := 0 to m
        invariant cur.n == 1 && cur.m == m && Rect(cur.a, 1, m)
        invariant forall t :: 0 <= t < m ==> cur.a[0][t] == if t < j then a[i][t] else 0.0
        invariant toAppend <==> exists t :: 0 <= t < j && a[i][t] != 0.0
      {
        cur.a := cur.a[0 := cur.a[0][j := a[i][j]]];
        if a[i][j] != 0.0 {
          toAppend := true;
        }
      }
      assert cur.a[0] == a[i];
    }

    /** The loop of im(), on the matrix gauss() returned: its nonzero lines, appended down in order. */
    method NonzeroLines() returns (ans: Matrix)
      requires Valid()
      ensures fresh(ans) && ans.Valid() && ans.n == Subspaces.NonzeroCount(a, n) && ans.m == m
      ensures ans.a == Subspaces.NonzeroRows(a, m, n)
    {
      ans := new Matrix(0, m);
      for i := 0 to n
        modifies ans
        invariant fresh(ans) && ans.n == Subspaces.NonzeroCount(a, i) && ans.m == m
        invariant ans.a == Subspaces.NonzeroRows(a, m, i)
      {
        var cur, toAppend := LineOf(i);
        if toAppend {
          ans.AppendDown(cur);
        }
      }
    }

    /** im(): gauss() of the transpose, its nonzero lines, transposed. */
    method Im() returns (res: Matrix)
      requires Valid()
      ensures fresh(res) && res.Valid() && res.n == n
      ensures res.a == Subspaces.Image(a, m)
    {
      var t := Transpose();
      var gaussed := t.Gauss();
      var ans := gaussed.NonzeroLines();
      res := ans.Transpose();
    }

    /** cur[i][i] -= x for every i: the copy of the matrix jnf() and eigenvectors() shift by an eigenvalue. */
    method ShiftBy(x: real)
      requires Valid() && n == m
      modifies this
      ensures n == old(n) && m == old(m) && Valid()
      ensures a == Jordan.Shift(old(a), n, x)
    {
      for i := 0 to n
        invariant n == old(n) && m == old(m) && Valid()
        invariant forall r :: 0 <= r < n ==> a[r] == if r < i then old(a)[r][r := old(a)[r][r] - x] else old(a)[r]
      {
        a := a[i := a[i][i := a[i][i] - x]];
      }
      assert a == Jordan.Shift(old(a), n, x) by {
        forall r | 0 <= r < n
          ensures a[r] == Jordan.Shift(old(a), n, x)[r]
        {
        }
      }
    }

    /** append_jordan_matrix(x, sz, pos): a[i][i] = x for pos <= i < pos + sz, and a[i - 1][i] = 1 after the first. */
    method AppendJordanMatrix(x: real, sz: nat, pos: nat)
      requires Valid() && n == m && pos + sz <= n
      modifies this
      ensures n == old(n) && m == old(m) && Valid()
      ensures a == Jordan.JordanBlock(old(a), n, x, sz, pos)
    {
      for i := pos to pos + sz
        invariant n == old(n) && m == old(m) && Valid()
        invariant a == Jordan.JordanBlock(old(a), n, x, i - pos, pos)
      {
        a := a[i := a[i][i := x]];
        if i != pos {
          a := a[i - 1 := a[i - 1][i := 1.0]];
        }
      }
    }

    /** The ranks of jnf() for the eigenvalue x: cur = a - x I, then ranks[i] = (cur ^ i).rk() for i < n + 2. */
    method RanksFor(x: real) returns (ranks: seq<nat>)
      requires Valid() && n == m
      ensures ranks == Jordan.Ranks(a, n, x)
    {
      var cur := new Matrix.Copy(this);
      cur.ShiftBy(x);
      ranks := seq(n + 2, _ => 0);
      for i := 0 to n + 2
        modifies {}
        invariant |ranks| == n + 2
        invariant forall t :: 0 <= t < i ==> ranks[t] == Jordan.PowerRank(a, n, x, t)
      {
        var power := cur.Pow(i);
        var r := power.Rk();
        ranks := ranks[i := r];
      }
    }

    /**
     * The loop over j of jnf(): count blocks J(x, sz) one after the other from
     * last_free. ok is false when a block would pass the last row, where the
     * source writes out of bounds.
     */
    method PlaceCount(x: real, sz: nat, count: nat, lastFree0: nat) returns (ok: bool, lastFree: nat)
      requires Valid() && n == m
      modifies this
      ensures n == old(n) && m == old(m) && Valid()
      ensures ok <==> Jordan.PlaceBlocks(Jordan.Placement(old(a), lastFree0), n, x, sz, count).Some?
      ensures ok ==> Jordan.PlaceBlocks(Jordan.Placement(old(a), lastFree0), n, x, sz, count).value == Jordan.Placement(a, lastFree)
    {
      lastFree := lastFree0;
      for j := 0 to count
        invariant n == old(n) && m == old(m) && Valid()
        invariant Jordan.PlaceBlocks(Jordan.Placement(a, lastFree), n, x, sz, count - j) ==
          Jordan.PlaceBlocks(Jordan.Placement(old(a), lastFree0), n, x, sz, count)
      {
        if lastFree + sz > n {
          return false, lastFree;
        }
        AppendJordanMatrix(x, sz, lastFree);
        lastFree := lastFree + sz;
      }
      return true, lastFree;
    }

    /**
     * The loop over block sizes i = 1 .. n of jnf() for one eigenvalue:
     * ranks[i - 1] - 2 ranks[i] + ranks[i + 1] blocks of size i. ok is false
     * where the source's run is undefined: a negative count, which size_t
     * wraps around, or a block past the last row.
     */
    method PlaceAll(ranks: seq<nat>, x: real, lastFree0: nat) returns (ok: bool, lastFree: nat)
      requires Valid() && n == m && |ranks| == n + 2
      modifies this
      ensures n == old(n) && m == old(m) && Valid()
      ensures ok <==> Jordan.BlocksFrom(ranks, n, x, Jordan.Placement(old(a), lastFree0), 1).Some?
      ensures ok ==> Jordan.BlocksFrom(ranks, n, x, Jordan.Placement(old(a), lastFree0), 1).value == Jordan.Placement(a, lastFree)
    {
      lastFree := lastFree0;
      for i := 1 to n + 1
        invariant n == old(n) && m == old(m) && Valid()
        invariant Jordan.BlocksFrom(ranks, n, x, Jordan.Placement(a, lastFree), i) ==
          Jordan.BlocksFrom(ranks, n, x, Jordan.Placement(old(a), lastFree0), 1)
      {
        var sz := ranks[i - 1] as int - 2 * ranks[i] as int + ranks[i + 1] as int;
        if sz < 0 {
          return false, lastFree;
        }
        ok, lastFree := PlaceCount(x, i, sz, lastFree);
        if !ok {
          return false, lastFree;
        }
      }
      return true, lastFree;
    }

    /**
     * jnf(eigenvalues): ans = Matrix(n) and last_free = 0, then the blocks of
     * every eigenvalue in turn. ok is false where the source's run is undefined.
     */
    method Jnf(xs: seq<real>) returns (ans: Matrix, ok: bool)
      requires Valid() && n == m
      ensures fresh(ans) && ans.Valid() && ans.n == n && ans.m == n
      ensures ok <==> Jordan.Jnf(a, n, xs).Some?
      ensures ok ==> ans.a == Jordan.Jnf(a, n, xs).value
    {
      var lastFree: nat := 0;
      ans := new Matrix(n, -1);
      for e := 0 to |xs|
        modifies ans
        invariant fresh(ans) && ans.Valid() && ans.n == n && ans.m == n
        invariant Jordan.EigenFrom(a, n, xs[e..], Jordan.Placement(ans.a, lastFree)) ==
          Jordan.EigenFrom(a, n, xs, Jordan.Placement(Zeros(n, n), 0))
      {
        var ranks := RanksFor(xs[e]);
        assert xs[e..][1..] == xs[e + 1..];
        ok, lastFree := ans.PlaceAll(ranks, xs[e], lastFree);
        if !ok {
          return;
        }
      }
      assert xs[|xs|..] == [];
      ok := true;
    }

    /** The body of the loop of eigenvectors(): cur = a - x I, then cur.ker(). */
    method ShiftedKer(x: real) returns (kernel: Matrix)
      requires Valid() && n == m
      ensures fresh(kernel) && kernel.Valid() && kernel.n == n && kernel.m == Subspaces.Nullity(Jordan.Shift(a, n, x), n)
      ensures kernel.a == Subspaces.Ker(Jordan.Shift(a, n, x), n)
    {
      var cur := new Matrix.Copy(this);
      cur.ShiftBy(x);
      kernel := cur.Ker();
    }

    /** eigenvectors(eigenvalues): Matrix(n, 0), then ker() of a - x I for each x appended to the right. */
    method Eigenvectors(xs: seq<real>) returns (ans: Matrix)
      requires Valid() && n == m
      ensures fresh(ans) && ans.Valid() && ans.n == n && ans.m == Jordan.EigenCount(a, n, xs)
      ensures ans.a == Jordan.Eigenvectors(a, n, xs)
    {
      ans := new Matrix(n, 0);
      for e := 0 to |xs|
        modifies ans
        invariant fresh(ans) && ans.Valid() && ans.n == n
        invariant ans.a == Jordan.AppendAll(Jordan.Kernels(a, n, xs)[..e], n)
        invariant ans.m == Jordan.Total(Jordan.Nullities(a, n, xs)[..e])
      {
        var kernel := ShiftedKer(xs[e]);
        Jordan.AppendKernel(a, n, xs, e, ans.a, ans.m, kernel.a, kernel.m);
        ans.AppendBeside(kernel);
      }
      Jordan.AppendedAll(a, n, xs, ans.a, ans.m);
    }
  }

  /** sum(a, b): a copy of a with b appended to the right, then im(). */
  method Sum(x: Matrix, y: Matrix) returns (s: Matrix)
    requires x.Valid() && y.Valid() && y.n == x.n
    ensures fresh(s) && s.Valid() && s.n == x.n
    ensures s.a == Subspaces.Sum(x.a, x.m, y.a, y.m)
  {
    var c := new Matrix.Copy(x);
    c.AppendBeside(y);
    s := c.Im();
    Subspaces.SumIsImage(x.a, x.m, y.a, y.m, c.a, c.m, s.a);
  }
}
