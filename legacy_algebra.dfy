/**
 * The parts of the legacy linear algebra header (foerg branch, src/linear_algebra.h) that the
 * current header does not share: the product with a symmetric right factor, the loops that
 * read `Ref` operands through their transposed flag, `countElements`, and the in-place `+=`
 * and `-=` on `Ref` storage.
 *
 * A legacy `Ref` operand is a buffer with a `RefView`: the offset of `ele`, the leading
 * dimension, the transposed flag and the shape, addressed as in module RefLayout. A legacy
 * vector is a general `Ref` matrix of one column, so `er(i)` is `ele[i]` and `et(i)` is
 * `ele[i*lda]`.
 */
module LegacyAlgebra {
  import opened Dense
  import opened Layout
  import opened RefLayout
  import opened Products
  import opened Elementwise

  // The general matrix times a symmetric matrix.

  /**
   * Column `k` of a symmetric right factor dotted with `v`: `ej(j,k) = U[j][k]` for `j < k`,
   * then `ei(j,k) = U[k][j]` for `j >= k`.
   */
  method SymColumnDot(v: Vec, U: Mat, n: nat, k: nat) returns (s: real)
    requires Triangle(U, n) && k < n && |v| == n
    ensures s == Dot(v, SymRow(U, n, k))
  {
    ghost var r := SymRow(U, n, k);
    s := 0.0;
    var j := 0;
    while j < k
      invariant 0 <= j <= k
      invariant s == Dot(v[..j], r[..j])
    {
      DotStepWith(v, r, j, v[j], U[j][k]);
      s := s + v[j] * U[j][k];
      j := j + 1;
    }
    while j < n
      invariant k <= j <= n
      invariant s == Dot(v[..j], r[..j])
    {
      DotStepWith(v, r, j, v[j], U[k][j]);
      s := s + v[j] * U[k][j];
      j := j + 1;
    }
    assert v[..j] == v && r[..j] == r;
  }

  /** `mult(A1, A2, A3)` with a symmetric `A2`: every cell of `A3` is the dense product's. */
  method MultGenSym(A1: Mat, U: Mat, n: nat, A3: array2<real>)
    requires IsMat(A1, |A1|, n) && Triangle(U, n)
    requires A3.Length0 <= |A1| && A3.Length1 <= n
    modifies A3
    ensures forall i, k :: 0 <= i < A3.Length0 && 0 <= k < A3.Length1 ==>
      A3[i, k] == MatMul(A1, SymUpper(U, n), n)[i][k]
  {
    var i := 0;
    while i < A3.Length0
      invariant 0 <= i <= A3.Length0
      invariant forall p, k :: 0 <= p < i && 0 <= k < A3.Length1 ==> A3[p, k] == Dot(A1[p], Col(SymUpper(U, n), k))
    {
      GenSymRow(A1, U, n, A3, i);
      i := i + 1;
    }
  }

  /** Row `i` of the product with a symmetric right factor. */
  method GenSymRow(A1: Mat, U: Mat, n: nat, A3: array2<real>, i: nat)
    requires IsMat(A1, |A1|, n) && Triangle(U, n)
    requires i < A3.Length0 <= |A1| && A3.Length1 <= n
    modifies A3
    ensures forall q :: 0 <= q < A3.Length1 ==> A3[i, q] == Dot(A1[i], Col(SymUpper(U, n), q))
    ensures forall p, q :: 0 <= p < A3.Length0 && 0 <= q < A3.Length1 && p != i ==> A3[p, q] == old(A3[p, q])
  {
    var k := 0;
    while k < A3.Length1
      invariant 0 <= k <= A3.Length1
      invariant forall q :: 0 <= q < k ==> A3[i, q] == Dot(A1[i], Col(SymUpper(U, n), q))
      invariant forall p, q :: 0 <= p < A3.Length0 && 0 <= q < A3.Length1 && p != i ==> A3[p, q] == old(A3[p, q])
    {
      A3[i, k] := SymColumnDot(A1[i], U, n, k);
      SymColIsRow(U, n, k);
      SymRowIsRow(U, n, k);
      k := k + 1;
    }
  }

  /** `operator*` with a symmetric right factor: a fresh `A1.rows() x A2.cols()` result. */
  method GenTimesSym(A1: Mat, U: Mat, n: nat) returns (A3: Mat)
    requires IsMat(A1, |A1|, n) && Triangle(U, n)
    ensures A3 == MatMul(A1, SymUpper(U, n), n)
  {
    var a := new real[|A1|, n];
    MultGenSym(A1, U, n, a);
    MatEq(Grid(a), MatMul(A1, SymUpper(U, n), n), |A1|, n);
    A3 := Grid(a);
  }

  // Legacy `Ref` operands.

  /** Where a general `Ref` matrix lies in its buffer. */
  datatype RefView = RefView(off: nat, lda: nat, tp: bool, m: nat, n: nat)

  predicate Fits(len: nat, d: RefView) {
    GenFits(len, d.off, d.lda, d.tp, d.m, d.n)
  }

  /** The buffer cell of entry `(i,j)`: `et(i,j)` when transposed, `er(i,j)` otherwise. */
  function Addr(d: RefView, i: nat, j: nat): nat {
    d.off + GenAddr(d.tp, d.lda, i, j)
  }

  /** The matrix a buffer holds through a view. */
  function View(s: seq<real>, d: RefView): (A: Mat)
    requires Fits(|s|, d)
    ensures IsMat(A, d.m, d.n)
  {
    Strided(s, d.off, d.lda, d.tp, d.m, d.n)
  }

  lemma {:induction false} ViewAt(s: seq<real>, d: RefView, i: nat, j: nat)
    requires Fits(|s|, d) && i < d.m && j < d.n
    ensures Addr(d, i, j) < |s| && View(s, d)[i][j] == s[Addr(d, i, j)]
  {
    StridedAt(s, d.off, d.lda, d.tp, d.m, d.n, i, j);
  }

  /** `e(i,j)`: the cell of entry `(i,j)`, read through the view. */
  method ReadCell(s: seq<real>, d: RefView, i: nat, j: nat) returns (v: real)
    requires Fits(|s|, d) && i < d.m && j < d.n
    ensures v == View(s, d)[i][j]
  {
    ViewAt(s, d, i, j);
    v := s[Addr(d, i, j)];
  }

  /** The entries of a one-column view, a legacy vector. */
  function Entries(s: seq<real>, d: RefView): (v: Vec)
    requires Fits(|s|, d) && d.n == 1
    ensures |v| == d.m
  {
    Col(View(s, d), 0)
  }

  lemma {:induction false} EntriesAt(s: seq<real>, d: RefView, i: nat)
    requires Fits(|s|, d) && d.n == 1 && i < d.m
    ensures Addr(d, i, 0) < |s| && Entries(s, d)[i] == s[Addr(d, i, 0)]
  {
    ViewAt(s, d, i, 0);
  }

  /** An untransposed vector is the `m` cells from `ele` on; a transposed one every `lda`-th cell. */
  lemma {:induction false} EntriesLayout(s: seq<real>, d: RefView)
    requires Fits(|s|, d) && d.n == 1
    ensures forall i :: 0 <= i < d.m ==>
      d.off + (if d.tp then i * d.lda else i) < |s| && Entries(s, d)[i] == s[d.off + (if d.tp then i * d.lda else i)]
  {
    forall i | 0 <= i < d.m
      ensures d.off + (if d.tp then i * d.lda else i) < |s| && Entries(s, d)[i] == s[d.off + (if d.tp then i * d.lda else i)]
    {
      EntriesAt(s, d, i);
      ColumnAddr(d.tp, d.lda, i);
    }
  }

  lemma {:induction false} ColumnAddr(tp: bool, lda: nat, i: nat)
    ensures GenAddr(tp, lda, i, 0) == if tp then i * lda else i
  {
  }

  /** A transposed view reads the cells of the untransposed view of the transposed shape. */
  lemma {:induction false} TransposedView(s: seq<real>, d: RefView)
    requires Fits(|s|, d) && d.tp
    ensures Fits(|s|, RefView(d.off, d.lda, false, d.n, d.m))
    ensures View(s, d) == Transpose(View(s, RefView(d.off, d.lda, false, d.n, d.m)), d.m)
  {
    var e := RefView(d.off, d.lda, false, d.n, d.m);
    if d.m > 0 && d.n > 0 {
      assert GenAddr(true, d.lda, d.m - 1, d.n - 1) == GenAddr(false, d.lda, d.n - 1, d.m - 1);
    }
    var A, B := View(s, d), Transpose(View(s, e), d.m);
    forall i, j | 0 <= i < d.m && 0 <= j < d.n ensures A[i][j] == B[i][j] {
      ViewAt(s, d, i, j);
      ViewAt(s, e, j, i);
    }
    MatEq(A, B, d.m, d.n);
  }

  /** Row `i` of a `Ref` matrix dotted with a `Ref` vector, each read through its flag. */
  method ViewRowDot(sA: seq<real>, dA: RefView, i: nat, sx: seq<real>, dx: RefView) returns (s: real)
    requires Fits(|sA|, dA) && Fits(|sx|, dx) && dx.n == 1 && dx.m == dA.n && i < dA.m
    ensures s == Dot(View(sA, dA)[i], Entries(sx, dx))
  {
    ghost var r, x := View(sA, dA)[i], Entries(sx, dx);
    s := 0.0;
    var j := 0;
    while j < dA.n
      invariant 0 <= j <= dA.n
      invariant s == Dot(r[..j], x[..j])
    {
      var a := ReadCell(sA, dA, i, j);
      var b := ReadCell(sx, dx, j, 0);
      DotStepWith(r, x, j, a, b);
      s := s + a * b;
      j := j + 1;
    }
    assert r[..j] == r && x[..j] == x;
  }

  /**
   * `A * x` for a `Ref` matrix and a `Ref` vector. The four branches of the source pick `er`
   * or `et` for `A` and for `x` by their transposed flags, which is what `Addr` does; the
   * result is a fresh untransposed vector of `A.rows()` entries.
   */
  method RefMatVec(sA: seq<real>, dA: RefView, sx: seq<real>, dx: RefView) returns (z: Vec)
    requires Fits(|sA|, dA) && Fits(|sx|, dx) && dx.n == 1
    requires dA.n == dx.m
    ensures z == MatVec(View(sA, dA), Entries(sx, dx))
  {
    var a := new real[dA.m];
    var i := 0;
    while i < dA.m
      invariant 0 <= i <= dA.m
      invariant forall p :: 0 <= p < i ==> a[p] == Dot(View(sA, dA)[p], Entries(sx, dx))
    {
      a[i] := ViewRowDot(sA, dA, i, sx, dx);
      i := i + 1;
    }
    z := a[..];
    forall p | 0 <= p < dA.m ensures z[p] == MatVec(View(sA, dA), Entries(sx, dx))[p] { }
  }

  /** `x + y` for two `Ref` vectors, each read through its flag as in the four branches. */
  method RefVecSum(sx: seq<real>, dx: RefView, sy: seq<real>, dy: RefView) returns (z: Vec)
    requires Fits(|sx|, dx) && Fits(|sy|, dy) && dx.n == 1 && dy.n == 1
    requires dx.m == dy.m
    ensures z == VecAdd(Entries(sx, dx), Entries(sy, dy))
  {
    var a := new real[dx.m];
    var i := 0;
    while i < dx.m
      invariant 0 <= i <= dx.m
      invariant forall p :: 0 <= p < i ==> a[p] == Entries(sx, dx)[p] + Entries(sy, dy)[p]
    {
      var u := ReadCell(sx, dx, i, 0);
      var v := ReadCell(sy, dy, i, 0);
      a[i] := u + v;
      i := i + 1;
    }
    z := a[..];
  }

  /** `x - y` for a `Ref` vector `x` and a vector of any storage `y`, through `e(i)`. */
  method RefVecDifference(sx: seq<real>, dx: RefView, y: Vec) returns (z: Vec)
    requires Fits(|sx|, dx) && dx.n == 1 && |y| == dx.m
    ensures z == VecSub(Entries(sx, dx), y)
  {
    var a := new real[dx.m];
    var i := 0;
    while i < dx.m
      invariant 0 <= i <= dx.m
      invariant forall p :: 0 <= p < i ==> a[p] == Entries(sx, dx)[p] - y[p]
    {
      var u := ReadCell(sx, dx, i, 0);
      a[i] := u - y[i];
      i := i + 1;
    }
    z := a[..];
  }

  // In-place updates of `Ref` storage.

  /** The buffer cells a view covers. */
  ghost function Cells(d: RefView): set<nat> {
    set i: nat, j: nat | i < d.m && j < d.n :: Addr(d, i, j)
  }

  /** Distinct entries of a view sit in distinct cells. */
  lemma {:induction false} AddrInjective(len: nat, d: RefView, i: nat, j: nat, p: nat, q: nat)
    requires Fits(len, d) && i < d.m && j < d.n && p < d.m && q < d.n
    requires Addr(d, i, j) == Addr(d, p, q)
    ensures i == p && j == q
  {
    if d.tp {
      RowMajorInjective(i, j, p, q, d.lda);
    } else {
      assert Ei(d.lda, i, j) == RowMajor(j, i, d.lda) && Ei(d.lda, p, q) == RowMajor(q, p, d.lda);
      RowMajorInjective(j, i, q, p, d.lda);
    }
  }

  /** Writing the cell of `(i,j)` changes entry `(i,j)` of the view and no other. */
  lemma {:induction false} ViewUpdate(s: seq<real>, d: RefView, i: nat, j: nat, v: real)
    requires Fits(|s|, d) && i < d.m && j < d.n
    ensures Addr(d, i, j) < |s|
    ensures View(s[Addr(d, i, j) := v], d) == View(s, d)[i := View(s, d)[i][j := v]]
  {
    ViewAt(s, d, i, j);
    var k := Addr(d, i, j);
    var A, B := View(s[k := v], d), View(s, d)[i := View(s, d)[i][j := v]];
    forall p, q | 0 <= p < d.m && 0 <= q < d.n ensures A[p][q] == B[p][q] {
      ViewAt(s[k := v], d, p, q);
      ViewAt(s, d, p, q);
      if Addr(d, p, q) == k {
        AddrInjective(|s|, d, p, q, i, j);
      }
    }
    MatEq(A, B, d.m, d.n);
  }

  /** `A0` with the cells before `(i,j)`, row by row, combined with `B`. */
  function Progress(op: Op, A0: Mat, B: Mat, m: nat, n: nat, i: nat, j: nat): (C: Mat)
    requires IsMat(A0, m, n) && IsMat(B, m, n)
    ensures IsMat(C, m, n)
  {
    seq(m, p requires 0 <= p < m => seq(n, q requires 0 <= q < n =>
      if p < i || (p == i && q < j) then Apply(op, A0[p][q], B[p][q]) else A0[p][q]))
  }

  lemma {:induction false} ProgressStep(op: Op, A0: Mat, B: Mat, m: nat, n: nat, i: nat, j: nat)
    requires IsMat(A0, m, n) && IsMat(B, m, n) && i < m && j < n
    ensures Progress(op, A0, B, m, n, i, j)[i][j] == A0[i][j]
    ensures var C := Progress(op, A0, B, m, n, i, j);
      C[i := C[i][j := Apply(op, A0[i][j], B[i][j])]] == Progress(op, A0, B, m, n, i, j + 1)
  {
    var C, D := Progress(op, A0, B, m, n, i, j), Progress(op, A0, B, m, n, i, j + 1);
    var E := C[i := C[i][j := Apply(op, A0[i][j], B[i][j])]];
    MatEq(E, D, m, n);
  }

  lemma {:induction false} ProgressRows(op: Op, A0: Mat, B: Mat, m: nat, n: nat, i: nat)
    requires IsMat(A0, m, n) && IsMat(B, m, n) && i < m
    ensures Progress(op, A0, B, m, n, i, n) == Progress(op, A0, B, m, n, i + 1, 0)
  {
    MatEq(Progress(op, A0, B, m, n, i, n), Progress(op, A0, B, m, n, i + 1, 0), m, n);
  }

  lemma {:induction false} ProgressEnds(op: Op, A0: Mat, B: Mat, m: nat, n: nat)
    requires IsMat(A0, m, n) && IsMat(B, m, n)
    ensures Progress(op, A0, B, m, n, 0, 0) == A0
    ensures Progress(op, A0, B, m, n, m, 0) == MatOp(op, A0, B)
  {
    MatEq(Progress(op, A0, B, m, n, 0, 0), A0, m, n);
    MatEq(Progress(op, A0, B, m, n, m, 0), MatOp(op, A0, B), m, n);
  }

  /**
   * `A += B` and `A -= B` for a general `Ref` matrix `A` and a matrix `B` of any storage:
   * `A.e(i,j) op= B.e(i,j)` for every entry. The view then holds the sum or difference, and
   * no buffer cell outside the view changes.
   */
  method CombineIntoView(op: Op, buf: array<real>, d: RefView, B: Mat)
    requires Fits(buf.Length, d) && IsMat(B, d.m, d.n)
    modifies buf
    ensures View(buf[..], d) == MatOp(op, View(old(buf[..]), d), B)
    ensures forall t :: 0 <= t < buf.Length && t !in Cells(d) ==> buf[t] == old(buf[t])
  {
    ghost var A0 := View(buf[..], d);
    ProgressEnds(op, A0, B, d.m, d.n);
    var i := 0;
    while i < d.m
      invariant 0 <= i <= d.m
      invariant View(buf[..], d) == Progress(op, A0, B, d.m, d.n, i, 0)
      invariant forall t :: 0 <= t < buf.Length && t !in Cells(d) ==> buf[t] == old(buf[t])
    {
      CombineViewRow(op, buf, d, B, i, A0);
      i := i + 1;
    }
  }

  /** Row `i` of the in-place loop. */
  method CombineViewRow(op: Op, buf: array<real>, d: RefView, B: Mat, i: nat, ghost A0: Mat)
    requires Fits(buf.Length, d) && IsMat(B, d.m, d.n) && IsMat(A0, d.m, d.n) && i < d.m
    requires View(buf[..], d) == Progress(op, A0, B, d.m, d.n, i, 0)
    modifies buf
    ensures View(buf[..], d) == Progress(op, A0, B, d.m, d.n, i + 1, 0)
    ensures forall t :: 0 <= t < buf.Length && t !in Cells(d) ==> buf[t] == old(buf[t])
  {
    var j := 0;
    while j < d.n
      invariant 0 <= j <= d.n
      invariant View(buf[..], d) == Progress(op, A0, B, d.m, d.n, i, j)
      invariant forall t :: 0 <= t < buf.Length && t !in Cells(d) ==> buf[t] == old(buf[t])
    {
      ghost var s := buf[..];
      ViewAt(s, d, i, j);
      ProgressStep(op, A0, B, d.m, d.n, i, j);
      var k := Addr(d, i, j);
      assert k in Cells(d);
      buf[k] := Apply(op, buf[k], B[i][j]);
      assert buf[..] == s[k := Apply(op, A0[i][j], B[i][j])];
      forall t | 0 <= t < buf.Length && t !in Cells(d) ensures buf[t] == old(buf[t]) {
        assert t != k && buf[t] == s[t];
      }
      ViewUpdate(s, d, i, j, Apply(op, A0[i][j], B[i][j]));
      j := j + 1;
    }
    ProgressRows(op, A0, B, d.m, d.n, i);
  }

  /** A vector's entries as the one column of a matrix. */
  function ColumnMatrix(y: Vec): (C: Mat)
    ensures IsMat(C, |y|, 1) && forall i :: 0 <= i < |y| ==> C[i][0] == y[i]
  {
    seq(|y|, i requires 0 <= i < |y| => [y[i]])
  }

  /**
   * `x += y` and `x -= y` for a `Ref` vector `x` and a vector `y` of fixed or variable size:
   * `x.e(i) op= y.e(i)`, the one-column case of the matrix loop.
   */
  method CombineIntoVector(op: Op, buf: array<real>, d: RefView, y: Vec)
    requires Fits(buf.Length, d) && d.n == 1 && |y| == d.m
    modifies buf
    ensures Entries(buf[..], d) == VecOp(op, Entries(old(buf[..]), d), y)
    ensures forall t :: 0 <= t < buf.Length && t !in Cells(d) ==> buf[t] == old(buf[t])
  {
    ghost var x0 := Entries(buf[..], d);
    ghost var A0 := View(buf[..], d);
    CombineIntoView(op, buf, d, ColumnMatrix(y));
    ghost var x1 := Entries(buf[..], d);
    forall i | 0 <= i < d.m ensures x1[i] == VecOp(op, x0, y)[i] {
      assert x1[i] == MatOp(op, A0, ColumnMatrix(y))[i][0];
    }
  }

  // The symmetric `+=` on `Ref` storage.

  /** The cells the stored triangle of a symmetric `Ref` matrix covers, `ej(i,j)` for `i <= j`. */
  ghost function SymCells(off: nat, lda: nat, n: nat): set<nat> {
    set i: nat, j: nat | i <= j < n :: off + Ej(lda, i, j)
  }

  /** Whether the upper-triangle entry `(min(p,q), max(p,q))` comes before `(i,j)` row by row. */
  predicate SymBefore(p: nat, q: nat, i: nat, j: nat) {
    var a, b := if p <= q then p else q, if p <= q then q else p;
    a < i || (a == i && b < j)
  }

  /** The dense `S0` with the symmetric pairs before `(i,j)` raised by `S`. */
  function SymProgress(S0: Mat, S: Mat, n: nat, i: nat, j: nat): (C: Mat)
    requires IsMat(S0, n, n) && IsMat(S, n, n)
    ensures IsMat(C, n, n)
  {
    seq(n, p requires 0 <= p < n => seq(n, q requires 0 <= q < n =>
      if SymBefore(p, q, i, j) then S0[p][q] + S[p][q] else S0[p][q]))
  }

  lemma {:induction false} SymProgressStep(S0: Mat, S: Mat, n: nat, i: nat, j: nat)
    requires IsSymmetric(S0) && IsSymmetric(S) && |S0| == |S| == n && i <= j < n
    ensures SymProgress(S0, S, n, i, j)[i][j] == S0[i][j]
    ensures SetSym(SymProgress(S0, S, n, i, j), i, j, S0[i][j] + S[i][j]) == SymProgress(S0, S, n, i, j + 1)
  {
    var C, D := SetSym(SymProgress(S0, S, n, i, j), i, j, S0[i][j] + S[i][j]), SymProgress(S0, S, n, i, j + 1);
    forall p, q | 0 <= p < n && 0 <= q < n ensures C[p][q] == D[p][q] {
      if p == j && q == i {
        assert S0[p][q] == S0[i][j] && S[p][q] == S[i][j];
      }
    }
    MatEq(C, D, n, n);
  }

  lemma {:induction false} SymProgressEnds(S0: Mat, S: Mat, n: nat)
    requires IsMat(S0, n, n) && IsMat(S, n, n)
    ensures SymProgress(S0, S, n, 0, 0) == S0
    ensures SymProgress(S0, S, n, n, n) == MatAdd(S0, S)
    ensures forall i :: 0 <= i < n ==> SymProgress(S0, S, n, i, n) == SymProgress(S0, S, n, i + 1, i + 1)
  {
    MatEq(SymProgress(S0, S, n, 0, 0), S0, n, n);
    MatEq(SymProgress(S0, S, n, n, n), MatAdd(S0, S), n, n);
    forall i | 0 <= i < n ensures SymProgress(S0, S, n, i, n) == SymProgress(S0, S, n, i + 1, i + 1) {
      MatEq(SymProgress(S0, S, n, i, n), SymProgress(S0, S, n, i + 1, i + 1), n, n);
    }
  }

  /**
   * `A += B` for a symmetric `Ref` matrix `A` and a symmetric `B`: `A.ej(i,j) += B.ej(i,j)`
   * for `i <= j`. The symmetric matrix `A` holds is then the sum, and no cell outside the
   * stored triangle changes.
   */
  method AddIntoSymView(buf: array<real>, off: nat, lda: nat, n: nat, U: Mat)
    requires SymFits(buf.Length, off, lda, n) && Triangle(U, n)
    modifies buf
    ensures Packed(buf[..], off, lda, n) == MatAdd(Packed(old(buf[..]), off, lda, n), SymUpper(U, n))
    ensures forall t :: 0 <= t < buf.Length && t !in SymCells(off, lda, n) ==> buf[t] == old(buf[t])
  {
    ghost var S0 := Packed(buf[..], off, lda, n);
    ghost var S := SymUpper(U, n);
    PackedSymmetric(buf[..], off, lda, n);
    SymProgressEnds(S0, S, n);
    var i := 0;
    while i < n
      invariant 0 <= i <= n
      invariant Packed(buf[..], off, lda, n) == SymProgress(S0, S, n, i, i)
      invariant forall t :: 0 <= t < buf.Length && t !in SymCells(off, lda, n) ==> buf[t] == old(buf[t])
    {
      AddSymViewRow(buf, off, lda, n, U, i, S0);
      i := i + 1;
    }
  }

  /** Row `i` of the symmetric in-place loop: columns `i <= j < n`. */
  method AddSymViewRow(buf: array<real>, off: nat, lda: nat, n: nat, U: Mat, i: nat, ghost S0: Mat)
    requires SymFits(buf.Length, off, lda, n) && Triangle(U, n) && i < n
    requires IsSymmetric(S0) && |S0| == n
    requires Packed(buf[..], off, lda, n) == SymProgress(S0, SymUpper(U, n), n, i, i)
    modifies buf
    ensures Packed(buf[..], off, lda, n) == SymProgress(S0, SymUpper(U, n), n, i + 1, i + 1)
    ensures forall t :: 0 <= t < buf.Length && t !in SymCells(off, lda, n) ==> buf[t] == old(buf[t])
  {
    ghost var S := SymUpper(U, n);
    var j := i;
    while j < n
      invariant i <= j <= n
      invariant Packed(buf[..], off, lda, n) == SymProgress(S0, S, n, i, j)
      invariant forall t :: 0 <= t < buf.Length && t !in SymCells(off, lda, n) ==> buf[t] == old(buf[t])
    {
      ghost var s := buf[..];
      SymViewStep(s, off, lda, n, S0, S, i, j);
      var k := off + Ej(lda, i, j);
      assert k in SymCells(off, lda, n);
      buf[k] := buf[k] + U[i][j];
      assert buf[..] == s[k := S0[i][j] + S[i][j]];
      forall t | 0 <= t < buf.Length && t !in SymCells(off, lda, n) ensures buf[t] == old(buf[t]) {
        assert t != k && buf[t] == s[t];
      }
      j := j + 1;
    }
    SymProgressEnds(S0, S, n);
  }

  /** One step of the symmetric in-place loop, on the buffer's contents. */
  lemma {:induction false} SymViewStep(s: seq<real>, off: nat, lda: nat, n: nat, S0: Mat, S: Mat, i: nat, j: nat)
    requires SymFits(|s|, off, lda, n) && IsSymmetric(S0) && IsSymmetric(S) && |S0| == |S| == n && i <= j < n
    requires Packed(s, off, lda, n) == SymProgress(S0, S, n, i, j)
    ensures off + Ej(lda, i, j) < |s| && s[off + Ej(lda, i, j)] == S0[i][j]
    ensures Packed(s[off + Ej(lda, i, j) := S0[i][j] + S[i][j]], off, lda, n) == SymProgress(S0, S, n, i, j + 1)
  {
    PackedAt(s, off, lda, n, i, j);
    SymProgressStep(S0, S, n, i, j);
    PackedUpdate(s, off, lda, n, i, j, S0[i][j] + S[i][j]);
  }

  // `countElements`.

  /** `1e-16`, the magnitude above which an entry counts as nonzero. */
  const Threshold: real := 0.0000000000000001

  /** `fabs(A(i,j)) > 1e-16 || i == j`. */
  predicate Counted(A: Mat, n: nat, i: nat, j: nat)
    requires IsMat(A, n, n) && i < n && j < n
  {
    A[i][j] > Threshold || A[i][j] < -Threshold || i == j
  }

  /** The counted entries `(i, q)` of row `i` with `q < j`. */
  function RowCount(A: Mat, n: nat, i: nat, j: nat): nat
    requires IsMat(A, n, n) && i < n && j <= n
    decreases j
  {
    if j == 0 then 0 else RowCount(A, n, i, j - 1) + (if Counted(A, n, i, j - 1) then 1 else 0)
  }

  /** The counted entries of the rows before `i`. */
  function MatCount(A: Mat, n: nat, i: nat): nat
    requires IsMat(A, n, n) && i <= n
    decreases i
  {
    if i == 0 then 0 else MatCount(A, n, i - 1) + RowCount(A, n, i - 1, n)
  }

  /** `countElements(A)`: the number of entries above the threshold plus the diagonal ones. */
  method CountElements(A: Mat, n: nat) returns (k: nat)
    requires IsMat(A, n, n)
    ensures k == MatCount(A, n, n)
  {
    k := 0;
    var i := 0;
    while i < n
      invariant 0 <= i <= n
      invariant k == MatCount(A, n, i)
    {
      var j := 0;
      while j < n
        invariant 0 <= j <= n
        invariant k == MatCount(A, n, i) + RowCount(A, n, i, j)
      {
        if A[i][j] > Threshold || A[i][j] < -Threshold || i == j {
          k := k + 1;
        }
        j := j + 1;
      }
      i := i + 1;
    }
  }

  /** A row counts its diagonal entry and at most all of its entries. */
  lemma {:induction false} RowCountBounds(A: Mat, n: nat, i: nat, j: nat)
    requires IsMat(A, n, n) && i < n && j <= n
    ensures (if i < j then 1 else 0) <= RowCount(A, n, i, j) <= j
    decreases j
  {
    if j > 0 {
      RowCountBounds(A, n, i, j - 1);
    }
  }

  /** Every diagonal entry counts, so the count lies between `n` and `n*n`. */
  lemma {:induction false} CountBounds(A: Mat, n: nat, i: nat)
    requires IsMat(A, n, n) && i <= n
    ensures i <= MatCount(A, n, i) <= i * n
    decreases i
  {
    if i > 0 {
      CountBounds(A, n, i - 1);
      RowCountBounds(A, n, i - 1, n);
      assert (i - 1) * n + n == i * n;
    }
  }

  /** Without off-diagonal entries above the threshold, a row counts only its diagonal. */
  lemma {:induction false} RowCountDiagonal(A: Mat, n: nat, i: nat, j: nat)
    requires IsMat(A, n, n) && i < n && j <= n
    requires forall q :: 0 <= q < n && q != i ==> -Threshold <= A[i][q] <= Threshold
    ensures RowCount(A, n, i, j) == if i < j then 1 else 0
    decreases j
  {
    if j > 0 {
      RowCountDiagonal(A, n, i, j - 1);
    }
  }

  /** A diagonal matrix, and the zero matrix, count exactly their `n` diagonal entries. */
  lemma {:induction false} CountDiagonal(A: Mat, n: nat, i: nat)
    requires IsMat(A, n, n) && i <= n
    requires forall p, q :: 0 <= p < n && 0 <= q < n && p != q ==> -Threshold <= A[p][q] <= Threshold
    ensures MatCount(A, n, i) == i
    decreases i
  {
    if i > 0 {
      CountDiagonal(A, n, i - 1);
      RowCountDiagonal(A, n, i - 1, n);
    }
  }
}
