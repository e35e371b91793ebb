/**
 * jnf(), append_jordan_matrix() and eigenvectors() of linal.h on values.
 */
module Jordan {

  import opened Wrappers
  import opened MatrixAlgebra
  import opened Elimination
  import opened Subspaces

  // ---------------------------------------------------------------------------
  // a - x I
  // ---------------------------------------------------------------------------

  /** cur after `cur[i][i] -= x` for every i. */
  function Shift(a: Mat, n: nat, x: real): (s: Mat)
    requires Rect(a, n, n)
    ensures Rect(s, n, n)
  {
    seq(n, i requires 0 <= i < n => a[i][i := a[i][i] - x])
  }

  /** Row r of a - x I dotted with v over the first l entries. */
  lemma {:induction false} ShiftDotUpTo(a: Mat, n: nat, x: real, v: seq<real>, r: nat, l: nat)
    requires Rect(a, n, n) && |v| == n && r < n && l <= n
    ensures RowDot(Shift(a, n, x)[r], v, l) == RowDot(a[r], v, l) - (if r < l then x * v[r] else 0.0)
  {
    if l > 0 {
      ShiftDotUpTo(a, n, x, v, r, l - 1);
      if l - 1 == r {
        assert (a[r][r] - x) * v[r] == a[r][r] * v[r] - x * v[r];
      }
    }
  }

  /** (a - x I) v = 0 says exactly that a v = x v. */
  lemma {:induction false} EigenEquation(a: Mat, n: nat, x: real, v: seq<real>)
    requires Rect(a, n, n) && |v| == n
    ensures Annihilates(Shift(a, n, x), n, v) <==> forall r :: 0 <= r < n ==> RowDot(a[r], v, n) == x * v[r]
  {
    forall r | 0 <= r < n
      ensures RowDot(Shift(a, n, x)[r], v, n) == RowDot(a[r], v, n) - x * v[r]
    {
      ShiftDotUpTo(a, n, x, v, r, n);
    }
  }

  // ---------------------------------------------------------------------------
  // append_jordan_matrix()
  // ---------------------------------------------------------------------------

  /** append_jordan_matrix(x, sz, pos): x on the diagonal at pos .. pos + sz - 1, 1 just above it inside the block. */
  function JordanBlock(b: Mat, n: nat, x: real, sz: nat, pos: nat): (c: Mat)
    requires Rect(b, n, n) && pos + sz <= n
    ensures Rect(c, n, n)
  {
    if sz == 0 then b
    else
      var d := JordanBlock(b, n, x, sz - 1, pos);
      var i := pos + sz - 1;
      var e := d[i := d[i][i := x]];
      if i != pos then e[i - 1 := e[i - 1][i := 1.0]] else e
  }

  /** The entries the block writes, and every other entry left as it was. */
  lemma {:induction false} JordanBlockAt(b: Mat, n: nat, x: real, sz: nat, pos: nat, r: nat, s: nat)
    requires Rect(b, n, n) && pos + sz <= n && r < n && s < n
    ensures JordanBlock(b, n, x, sz, pos)[r][s] ==
      if pos <= r < pos + sz && s == r then x
      else if pos <= r && r + 1 < pos + sz && s == r + 1 then 1.0
      else b[r][s]
  {
    if sz > 0 {
      JordanBlockAt(b, n, x, sz - 1, pos, r, s);
    }
  }

  // ---------------------------------------------------------------------------
  // jnf()
  // ---------------------------------------------------------------------------

  /** rk() of (a - x I)^i: ranks[i] of jnf(). */
  function PowerRank(a: Mat, n: nat, x: real, i: nat): (r: nat)
    requires Rect(a, n, n)
    ensures r <= n
  {
    Rank(MatPower(Shift(a, n, x), n, n, i), n)
  }

  /** The vector ranks of jnf(): rk() of (a - x I)^i for i = 0 .. n + 1. */
  function Ranks(a: Mat, n: nat, x: real): (ranks: seq<nat>)
    requires Rect(a, n, n)
    ensures |ranks| == n + 2
  {
    seq(n + 2, i requires 0 <= i < n + 2 => PowerRank(a, n, x, i))
  }

  /** The number of Jordan blocks of size i: ranks[i - 1] - 2 ranks[i] + ranks[i + 1]. */
  function BlockCount(ranks: seq<nat>, i: nat): int
    requires 1 <= i && i + 1 < |ranks|
  {
    ranks[i - 1] as int - 2 * ranks[i] as int + ranks[i + 1] as int
  }

  /** ans of jnf() and last_free, the first diagonal position no block holds yet. */
  datatype Placement = Placement(ans: Mat, lastFree: nat)

  /**
   * The loop over j: count blocks of size sz for x, one after the other from
   * last_free. None when a block would run past row n: the source then writes
   * out of bounds, which is also where its size_t count of blocks, wrapped from
   * a negative difference, leads.
   */
  function PlaceBlocks(st: Placement, n: nat, x: real, sz: nat, count: nat): (r: Option<Placement>)
    requires Rect(st.ans, n, n)
    ensures r.Some? ==> Rect(r.value.ans, n, n)
    decreases count
  {
    if count == 0 then Some(st)
    else if st.lastFree + sz > n then None
    else PlaceBlocks(Placement(JordanBlock(st.ans, n, x, sz, st.lastFree), st.lastFree + sz), n, x, sz, count - 1)
  }

  /** The loop over block sizes sz = i .. n for one eigenvalue x. None on a negative count. */
  function BlocksFrom(ranks: seq<nat>, n: nat, x: real, st: Placement, i: nat): (r: Option<Placement>)
    requires |ranks| == n + 2 && Rect(st.ans, n, n) && 1 <= i <= n + 1
    ensures r.Some? ==> Rect(r.value.ans, n, n)
    decreases n + 1 - i
  {
    if i == n + 1 then Some(st)
    else
      var count := BlockCount(ranks, i);
      if count < 0 then None
      else match PlaceBlocks(st, n, x, i, count)
        case None => None
        case Some(st') => BlocksFrom(ranks, n, x, st', i + 1)
  }

  /** The loop over the eigenvalues. */
  function EigenFrom(a: Mat, n: nat, xs: seq<real>, st: Placement): (r: Option<Placement>)
    requires Rect(a, n, n) && Rect(st.ans, n, n)
    ensures r.Some? ==> Rect(r.value.ans, n, n)
    decreases |xs|
  {
    if xs == [] then Some(st)
    else match BlocksFrom(Ranks(a, n, xs[0]), n, xs[0], st, 1)
      case None => None
      case Some(st') => EigenFrom(a, n, xs[1..], st')
  }

  /** jnf(eigenvalues): None where the source's run is undefined. */
  function Jnf(a: Mat, n: nat, xs: seq<real>): (r: Option<Mat>)
    requires Rect(a, n, n)
    ensures r.Some? ==> Rect(r.value, n, n)
  {
    match EigenFrom(a, n, xs, Placement(Zeros(n, n), 0))
      case None => None
      case Some(st) => Some(st.ans)
  }

  /**
   * The shape jnf() builds: nonzero entries only on the diagonal and just
   * above it, inside the square of the rows and columns before last_free; the
   * diagonal holds eigenvalues from xs; an entry just above the diagonal is 0
   * or 1, and 1 only between equal diagonal entries, that is inside a block.
   */
  predicate JordanShape(st: Placement, n: nat, xs: seq<real>)
  {
    Rect(st.ans, n, n) && st.lastFree <= n &&
    (forall r, s :: 0 <= r < n && 0 <= s < n && (st.lastFree <= r || st.lastFree <= s) ==> st.ans[r][s] == 0.0) &&
    (forall r, s :: 0 <= r < n && 0 <= s < n && s != r && s != r + 1 ==> st.ans[r][s] == 0.0) &&
    (forall r :: 0 <= r < st.lastFree ==> st.ans[r][r] in xs) &&
    (forall r :: 0 <= r && r + 1 < n ==>
      (st.ans[r][r + 1] == 0.0 || st.ans[r][r + 1] == 1.0) &&
      (st.ans[r][r + 1] == 1.0 ==> st.ans[r][r] == st.ans[r + 1][r + 1]))
  }

  lemma {:induction false} JordanShapeStart(n: nat, xs: seq<real>)
    ensures JordanShape(Placement(Zeros(n, n), 0), n, xs)
  {
  }

  /** A block of size sz >= 1 for an eigenvalue from xs placed at last_free keeps the shape. */
  lemma {:induction false} PlaceOneShape(st: Placement, n: nat, xs: seq<real>, x: real, sz: nat)
    requires JordanShape(st, n, xs) && x in xs && sz >= 1 && st.lastFree + sz <= n
    ensures JordanShape(Placement(JordanBlock(st.ans, n, x, sz, st.lastFree), st.lastFree + sz), n, xs)
  {
    var b := st.ans;
    var pos := st.lastFree;
    var c := JordanBlock(b, n, x, sz, pos);
    forall r, s | 0 <= r < n && 0 <= s < n
      ensures c[r][s] ==
        if pos <= r < pos + sz && s == r then x
        else if pos <= r && r + 1 < pos + sz && s == r + 1 then 1.0
        else b[r][s]
    {
      JordanBlockAt(b, n, x, sz, pos, r, s);
    }
  }

  /** Placing count blocks keeps the shape and moves last_free by count * sz. */
  lemma {:induction false} PlaceBlocksShape(st: Placement, n: nat, xs: seq<real>, x: real, sz: nat, count: nat)
    requires JordanShape(st, n, xs) && x in xs && sz >= 1
    requires PlaceBlocks(st, n, x, sz, count).Some?
    ensures JordanShape(PlaceBlocks(st, n, x, sz, count).value, n, xs)
    ensures PlaceBlocks(st, n, x, sz, count).value.lastFree == st.lastFree + count * sz
    decreases count
  {
    if count > 0 {
      PlaceOneShape(st, n, xs, x, sz);
      var st' := Placement(JordanBlock(st.ans, n, x, sz, st.lastFree), st.lastFree + sz);
      PlaceBlocksShape(st', n, xs, x, sz, count - 1);
      assert st.lastFree + sz + (count - 1) * sz == st.lastFree + count * sz;
    }
  }

  /** The blocks for one eigenvalue keep the shape, and last_free never moves back. */
  lemma {:induction false} BlocksFromShape(ranks: seq<nat>, n: nat, xs: seq<real>, x: real, st: Placement, i: nat)
    requires |ranks| == n + 2 && JordanShape(st, n, xs) && x in xs && 1 <= i <= n + 1
    requires BlocksFrom(ranks, n, x, st, i).Some?
    ensures JordanShape(BlocksFrom(ranks, n, x, st, i).value, n, xs)
    ensures st.lastFree <= BlocksFrom(ranks, n, x, st, i).value.lastFree
    decreases n + 1 - i
  {
    if i <= n {
      var count := BlockCount(ranks, i);
      PlaceBlocksShape(st, n, xs, x, i, count);
      BlocksFromShape(ranks, n, xs, x, PlaceBlocks(st, n, x, i, count).value, i + 1);
    }
  }

  /** The loop over a suffix of the eigenvalues keeps the shape. */
  lemma {:induction false} EigenFromShape(a: Mat, n: nat, xs: seq<real>, rest: seq<real>, st: Placement)
    requires Rect(a, n, n) && JordanShape(st, n, xs) && forall k :: 0 <= k < |rest| ==> rest[k] in xs
    requires EigenFrom(a, n, rest, st).Some?
    ensures JordanShape(EigenFrom(a, n, rest, st).value, n, xs)
    decreases |rest|
  {
    if rest != [] {
      var ranks := Ranks(a, n, rest[0]);
      BlocksFromShape(ranks, n, xs, rest[0], st, 1);
      EigenFromShape(a, n, xs, rest[1..], BlocksFrom(ranks, n, rest[0], st, 1).value);
    }
  }

  /**
   * Whenever jnf() is defined its result is an upper bidiagonal matrix with
   * eigenvalues from the list on the diagonal, 0 or 1 just above it and 1 only
   * inside a block of equal diagonal entries.
   */
  lemma {:induction false} JnfShape(a: Mat, n: nat, xs: seq<real>)
    requires Rect(a, n, n) && Jnf(a, n, xs).Some?
    ensures exists lastFree: nat :: JordanShape(Placement(Jnf(a, n, xs).value, lastFree), n, xs)
  {
    var st0 := Placement(Zeros(n, n), 0);
    JordanShapeStart(n, xs);
    EigenFromShape(a, n, xs, xs, st0);
    var st := EigenFrom(a, n, xs, st0).value;
    assert JordanShape(Placement(Jnf(a, n, xs).value, st.lastFree), n, xs);
  }

  /** With no eigenvalues jnf() returns the zero matrix. */
  lemma {:induction false} JnfNoEigenvalues(a: Mat, n: nat)
    requires Rect(a, n, n)
    ensures Jnf(a, n, []) == Some(Zeros(n, n))
  {
  }

  // ---------------------------------------------------------------------------
  // eigenvectors()
  // ---------------------------------------------------------------------------

  /** The sum of a list of column counts. */
  function Total(ws: seq<nat>): nat
    decreases |ws|
  {
    if ws == [] then 0 else Total(ws[..|ws| - 1]) + ws[|ws| - 1]
  }

  /** Every matrix of the list has n rows and as many columns as its count says. */
  predicate AllRect(ks: seq<Mat>, n: nat, ws: seq<nat>)
  {
    |ks| == |ws| && forall k :: 0 <= k < |ks| ==> Rect(ks[k], n, ws[k])
  }

  /** The loop of eigenvectors(): start from n empty rows and append each matrix to the right, in order. */
  function AppendAll(ks: seq<Mat>, n: nat): (e: Mat)
    requires forall k :: 0 <= k < |ks| ==> |ks[k]| == n
    ensures |e| == n
    decreases |ks|
  {
    if ks == [] then seq(n, _ => [])
    else AppendRight(AppendAll(ks[..|ks| - 1], n), ks[|ks| - 1])
  }

  /** The appended matrix has n rows and the total number of columns. */
  lemma {:induction false} AppendAllRect(ks: seq<Mat>, n: nat, ws: seq<nat>)
    requires AllRect(ks, n, ws)
    ensures Rect(AppendAll(ks, n), n, Total(ws))
    decreases |ks|
  {
    if ks != [] {
      AppendAllRect(ks[..|ks| - 1], n, ws[..|ws| - 1]);
    }
  }

  /** Column q of the appended matrix is column q' of the k-th matrix of the list. */
  lemma {:induction false} AppendAllColumn(ks: seq<Mat>, n: nat, ws: seq<nat>, q: nat) returns (k: nat, q': nat)
    requires AllRect(ks, n, ws) && q < Total(ws)
    ensures k < |ks| && q' < ws[k]
    ensures Cols(AppendAll(ks, n), Total(ws)) && Col(AppendAll(ks, n), n, q) == Col(ks[k], n, q')
    decreases |ks|
  {
    var init := ks[..|ks| - 1];
    var winit := ws[..|ws| - 1];
    AppendAllRect(init, n, winit);
    AppendRightColumn(AppendAll(init, n), n, Total(winit), ks[|ks| - 1], ws[|ws| - 1], q);
    if q < Total(winit) {
      k, q' := AppendAllColumn(init, n, winit, q);
    } else {
      k, q' := |ks| - 1, q - Total(winit);
    }
  }

  /** The columns of a matrix with columns appended to its right. */
  lemma {:induction false} AppendRightColumn(b: Mat, n: nat, p: nat, c: Mat, f: nat, q: nat)
    requires Rect(b, n, p) && Rect(c, n, f) && q < p + f
    ensures Cols(AppendRight(b, c), p + f)
    ensures Col(AppendRight(b, c), n, q) == if q < p then Col(b, n, q) else Col(c, n, q - p)
  {
  }

  /** ker(a - x I) for each x of the list. */
  function Kernels(a: Mat, n: nat, xs: seq<real>): (ks: seq<Mat>)
    requires Rect(a, n, n)
    ensures |ks| == |xs|
  {
    seq(|xs|, k requires 0 <= k < |xs| => Ker(Shift(a, n, xs[k]), n))
  }

  /** The dimensions of those kernels. */
  function Nullities(a: Mat, n: nat, xs: seq<real>): (ws: seq<nat>)
    requires Rect(a, n, n)
    ensures |ws| == |xs|
  {
    seq(|xs|, k requires 0 <= k < |xs| => Nullity(Shift(a, n, xs[k]), n))
  }

  lemma {:induction false} KernelsRect(a: Mat, n: nat, xs: seq<real>)
    requires Rect(a, n, n)
    ensures AllRect(Kernels(a, n, xs), n, Nullities(a, n, xs))
  {
    forall k | 0 <= k < |xs|
      ensures Rect(Kernels(a, n, xs)[k], n, Nullities(a, n, xs)[k])
    {
      var ker := Ker(Shift(a, n, xs[k]), n);
    }
  }

  /** The number of columns eigenvectors(xs) returns: the sizes of the kernels together. */
  function EigenCount(a: Mat, n: nat, xs: seq<real>): nat
    requires Rect(a, n, n)
  {
    Total(Nullities(a, n, xs))
  }

  /** eigenvectors(xs): the kernels of a - x I for x in xs, appended to the right in order. */
  function Eigenvectors(a: Mat, n: nat, xs: seq<real>): (e: Mat)
    requires Rect(a, n, n)
    ensures Rect(e, n, EigenCount(a, n, xs))
  {
    KernelsRect(a, n, xs);
    AppendAllRect(Kernels(a, n, xs), n, Nullities(a, n, xs));
    AppendAll(Kernels(a, n, xs), n)
  }

  /** The step of the loop of eigenvectors(): the kernel for xs[e] appended to those before it. */
  lemma AppendKernel(a: Mat, n: nat, xs: seq<real>, e: nat, prev: Mat, pm: nat, k: Mat, km: nat)
    requires Rect(a, n, n) && e < |xs|
    requires prev == AppendAll(Kernels(a, n, xs)[..e], n) && pm == Total(Nullities(a, n, xs)[..e])
    requires k == Ker(Shift(a, n, xs[e]), n) && km == Nullity(Shift(a, n, xs[e]), n)
    ensures |k| == |prev| && AppendRight(prev, k) == AppendAll(Kernels(a, n, xs)[..e + 1], n)
    ensures pm + km == Total(Nullities(a, n, xs)[..e + 1])
  {
    KernelsRect(a, n, xs);
    AppendAllSnoc(Kernels(a, n, xs), n, e);
    TotalSnoc(Nullities(a, n, xs), e);
  }

  /** AppendAll of one more matrix appends it to the right. */
  lemma AppendAllSnoc(ks: seq<Mat>, n: nat, e: nat)
    requires e < |ks| && forall k :: 0 <= k < |ks| ==> |ks[k]| == n
    ensures AppendAll(ks[..e + 1], n) == AppendRight(AppendAll(ks[..e], n), ks[e])
  {
    assert ks[..e + 1][..e] == ks[..e];
  }

  /** Total of one more count adds it. */
  lemma TotalSnoc(ws: seq<nat>, e: nat)
    requires e < |ws|
    ensures Total(ws[..e + 1]) == Total(ws[..e]) + ws[e]
  {
    assert ws[..e + 1][..e] == ws[..e];
  }

  /** After the last eigenvalue the kernels appended are those of the whole list. */
  lemma AppendedAll(a: Mat, n: nat, xs: seq<real>, prev: Mat, pm: nat)
    requires Rect(a, n, n)
    requires prev == AppendAll(Kernels(a, n, xs)[..|xs|], n) && pm == Total(Nullities(a, n, xs)[..|xs|])
    ensures prev == Eigenvectors(a, n, xs) && pm == EigenCount(a, n, xs)
  {
    assert Kernels(a, n, xs)[..|xs|] == Kernels(a, n, xs);
    assert Nullities(a, n, xs)[..|xs|] == Nullities(a, n, xs);
  }

  /** Column q of eigenvectors(xs). */
  function EigenColumn(a: Mat, n: nat, xs: seq<real>, q: nat): (v: seq<real>)
    requires Rect(a, n, n) && q < EigenCount(a, n, xs)
    ensures |v| == n
  {
    Col(Eigenvectors(a, n, xs), n, q)
  }

  /** The eigenvalue of column q: the index in xs of the kernel that column comes from. */
  lemma {:induction false} EigenvectorIndex(a: Mat, n: nat, xs: seq<real>, q: nat) returns (k: nat)
    requires Rect(a, n, n) && q < EigenCount(a, n, xs)
    ensures k < |xs| && Annihilates(Shift(a, n, xs[k]), n, EigenColumn(a, n, xs, q))
    ensures !IsZeroRow(EigenColumn(a, n, xs, q))
  {
    var q';
    KernelsRect(a, n, xs);
    k, q' := AppendAllColumn(Kernels(a, n, xs), n, Nullities(a, n, xs), q);
    KerColumnSolves(Shift(a, n, xs[k]), n, q');
    KerColumnNonzero(Shift(a, n, xs[k]), n, q');
  }

  /** Every column eigenvectors(xs) returns is nonzero and satisfies a v = x v for one of the listed values x. */
  lemma {:induction false} EigenvectorsAreEigen(a: Mat, n: nat, xs: seq<real>, q: nat)
    requires Rect(a, n, n) && q < EigenCount(a, n, xs)
    ensures var v := EigenColumn(a, n, xs, q);
      !IsZeroRow(v) &&
      exists k :: 0 <= k < |xs| && forall r :: 0 <= r < n ==> RowDot(a[r], v, n) == xs[k] * v[r]
  {
    var k := EigenvectorIndex(a, n, xs, q);
    EigenOf(a, n, xs, k, EigenColumn(a, n, xs, q));
  }

  lemma {:induction false} EigenOf(a: Mat, n: nat, xs: seq<real>, k: nat, v: seq<real>)
    requires Rect(a, n, n) && |v| == n && k < |xs| && Annihilates(Shift(a, n, xs[k]), n, v)
    ensures forall r :: 0 <= r < n ==> RowDot(a[r], v, n) == xs[k] * v[r]
  {
    EigenEquation(a, n, xs[k], v);
  }
}
