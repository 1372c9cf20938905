/**
 * `Matrix<Sparse,Ref,Ref>` and `Matrix<SymmetricSparse,Ref,Ref>` as the products of
 * fmatvec/linear_algebra.h read them: compressed rows, `A()[k]` the stored values, `Jp()[k]`
 * their columns, and row `i` holding the entries `Ip()[i] <= k < Ip()[i+1]`.
 *
 * The dense meaning of a sparse matrix is stated entry by entry: entry `(p,q)` is the sum of
 * the values stored in row `p` at column `q`. A symmetric sparse matrix stores a triangle;
 * the product loops apply the first entry of a row once and every later entry at both
 * `(i, Jp[k])` and `(Jp[k], i)`.
 */
module Sparse {
  import opened Dense
  import opened DenseAlgebra

  datatype Csr = Csr(rows: nat, cols: nat, val: seq<real>, Ip: seq<nat>, Jp: seq<nat>)

  /** Row pointers ascend and stay inside the value array; columns are in range. */
  predicate WellFormed(A: Csr) {
    |A.Ip| == A.rows + 1 && |A.Jp| == |A.val| &&
    (forall i, j :: 0 <= i <= j <= A.rows ==> A.Ip[i] <= A.Ip[j]) && A.Ip[A.rows] <= |A.val| &&
    (forall k :: 0 <= k < |A.Jp| ==> A.Jp[k] < A.cols)
  }

  /** Sum of the stored values `val[k]`, `lo <= k < hi`, whose column is `q`. */
  function SumAt(A: Csr, lo: nat, hi: nat, q: nat): real
    requires lo <= hi <= |A.val| && |A.Jp| == |A.val|
    decreases hi
  {
    if hi == lo then 0.0
    else SumAt(A, lo, hi - 1, q) + (if A.Jp[hi - 1] == q then A.val[hi - 1] else 0.0)
  }

  /** The same sum, peeling the first entry instead of the last. */
  lemma {:induction false} SumAtFirst(A: Csr, lo: nat, hi: nat, q: nat)
    requires lo < hi <= |A.val| && |A.Jp| == |A.val|
    ensures SumAt(A, lo, hi, q) == (if A.Jp[lo] == q then A.val[lo] else 0.0) + SumAt(A, lo + 1, hi, q)
    decreases hi
  {
    if hi > lo + 1 {
      SumAtFirst(A, lo, hi - 1, q);
    }
  }

  /** The dense vector that entries `lo <= k < hi` spell out. */
  function RowOf(A: Csr, lo: nat, hi: nat): (r: Vec)
    requires lo <= hi <= |A.val| && |A.Jp| == |A.val|
    ensures |r| == A.cols && forall q :: 0 <= q < A.cols ==> r[q] == SumAt(A, lo, hi, q)
  {
    seq(A.cols, q requires 0 <= q < A.cols => SumAt(A, lo, hi, q))
  }

  /** Row `p` of a well-formed compressed matrix as a dense vector. */
  function CsrRow(A: Csr, p: nat): (r: Vec)
    requires WellFormed(A) && p < A.rows
    ensures |r| == A.cols && forall q :: 0 <= q < A.cols ==> r[q] == SumAt(A, A.Ip[p], A.Ip[p + 1], q)
  {
    RowOf(A, A.Ip[p], A.Ip[p + 1])
  }

  /** The dense `rows x cols` matrix a well-formed compressed matrix stands for. */
  function CsrDense(A: Csr): (D: Mat)
    requires WellFormed(A)
    ensures IsMat(D, A.rows, A.cols)
    ensures forall p, q :: 0 <= p < A.rows && 0 <= q < A.cols ==> D[p][q] == SumAt(A, A.Ip[p], A.Ip[p + 1], q)
  {
    seq(A.rows, p requires 0 <= p < A.rows => CsrRow(A, p))
  }

  /** `sum val[k] * x[Jp[k]]` over `lo <= k < hi`, accumulated as the loops do. */
  function SparseDot(A: Csr, lo: nat, hi: nat, x: Vec): real
    requires WellFormed(A) && lo <= hi <= |A.val| && |x| == A.cols
    decreases hi
  {
    if hi == lo then 0.0 else SparseDot(A, lo, hi - 1, x) + A.val[hi - 1] * x[A.Jp[hi - 1]]
  }

  /** The sparse accumulation is the dot product of the dense row with `x`. */
  lemma {:induction false} SparseDotIsDot(A: Csr, lo: nat, hi: nat, x: Vec)
    requires WellFormed(A) && lo <= hi <= |A.val| && |x| == A.cols
    ensures SparseDot(A, lo, hi, x) == Dot(RowOf(A, lo, hi), x)
    decreases hi
  {
    if hi == lo {
      assert RowOf(A, lo, hi) == Zeros(A.cols);
      DotZeros(x);
    } else {
      var c := A.Jp[hi - 1];
      var r := RowOf(A, lo, hi - 1);
      assert RowOf(A, lo, hi) == r[c := r[c] + A.val[hi - 1]];
      SparseDotIsDot(A, lo, hi - 1, x);
      DotBump(r, x, c, A.val[hi - 1]);
    }
  }

  // Symmetric sparse matrices.

  /** Square, and every row stores at least the entry the product reads first. */
  predicate SymWellFormed(A: Csr) {
    WellFormed(A) && A.rows == A.cols && forall i, j :: 0 <= i < j <= A.rows ==> A.Ip[i] < A.Ip[j]
  }

  /** Every row of a symmetric sparse matrix stores its diagonal entry first. */
  predicate DiagonalFirst(A: Csr) {
    SymWellFormed(A) && forall i {:trigger A.Jp[A.Ip[i]]} :: 0 <= i < A.rows ==> A.Jp[A.Ip[i]] == i
  }

  /** The contribution of row `p`'s first stored entry to `(p,q)`. */
  function First(A: Csr, p: nat, q: nat): real
    requires SymWellFormed(A) && p < A.rows
  {
    if A.Jp[A.Ip[p]] == q then A.val[A.Ip[p]] else 0.0
  }

  /** How far the second loop of the symmetric sparse product has got with row `r`: rows
      before `i` completely, row `i` up to entry `j`, later rows not at all. */
  function Hi(A: Csr, i: nat, j: nat, r: nat): (h: nat)
    requires SymWellFormed(A) && i <= A.rows && r < A.rows
    requires i < A.rows ==> A.Ip[i] + 1 <= j <= A.Ip[i + 1]
    ensures A.Ip[r] + 1 <= h <= A.Ip[r + 1]
  {
    if r < i then A.Ip[r + 1] else if r == i then j else A.Ip[r] + 1
  }

  /**
   * Entry `(p,q)` at that point: the first entry of row `p`, plus the later entries of row
   * `p` at column `q`, plus the later entries of row `q` at column `p` (their mirror images).
   */
  function Applied(A: Csr, i: nat, j: nat, p: nat, q: nat): real
    requires SymWellFormed(A) && i <= A.rows && p < A.rows && q < A.rows
    requires i < A.rows ==> A.Ip[i] + 1 <= j <= A.Ip[i + 1]
  {
    First(A, p, q) + SumAt(A, A.Ip[p] + 1, Hi(A, i, j, p), q) + SumAt(A, A.Ip[q] + 1, Hi(A, i, j, q), p)
  }

  /** The dense matrix the symmetric product has applied so far. */
  function Partial(A: Csr, i: nat, j: nat): (D: Mat)
    requires SymWellFormed(A) && i <= A.rows
    requires i < A.rows ==> A.Ip[i] + 1 <= j <= A.Ip[i + 1]
    ensures IsMat(D, A.rows, A.rows)
    ensures forall p, q :: 0 <= p < A.rows && 0 <= q < A.rows ==> D[p][q] == Applied(A, i, j, p, q)
  {
    seq(A.rows, p requires 0 <= p < A.rows => seq(A.rows, q requires 0 <= q < A.rows => Applied(A, i, j, p, q)))
  }

  /** The dense matrix of a symmetric sparse matrix: every row applied completely. */
  function SymSparseDense(A: Csr): (D: Mat)
    requires SymWellFormed(A)
    ensures IsMat(D, A.rows, A.rows)
  {
    Partial(A, A.rows, 0)
  }

  /** Only the first entries, before the second loop starts. */
  function FirstOnly(A: Csr): (F: Mat)
    requires SymWellFormed(A)
    ensures IsMat(F, A.rows, A.rows)
  {
    seq(A.rows, p requires 0 <= p < A.rows => seq(A.rows, q requires 0 <= q < A.rows => First(A, p, q)))
  }

  lemma {:induction false} StartIsFirstOnly(A: Csr)
    requires SymWellFormed(A) && A.rows > 0
    ensures Partial(A, 0, A.Ip[0] + 1) == FirstOnly(A)
  {
    var D, F := Partial(A, 0, A.Ip[0] + 1), FirstOnly(A);
    forall p, q | 0 <= p < A.rows && 0 <= q < A.rows ensures D[p][q] == F[p][q] {
    }
    MatEq(D, F, A.rows, A.rows);
  }

  /** `y[i] = A()[Ip[i]] * x[Jp[Ip[i]]]` is row `i` of the first-entries matrix times `x`. */
  lemma {:induction false} FirstOnlyRow(A: Csr, x: Vec, p: nat)
    requires SymWellFormed(A) && |x| == A.rows && p < A.rows
    ensures Dot(FirstOnly(A)[p], x) == A.val[A.Ip[p]] * x[A.Jp[A.Ip[p]]]
  {
    var c := A.Jp[A.Ip[p]];
    var z := Zeros(A.rows);
    assert FirstOnly(A)[p] == z[c := z[c] + A.val[A.Ip[p]]];
    DotBump(z, x, c, A.val[A.Ip[p]]);
    DotZeros(x);
  }

  /** Finishing row `i - 1` is starting row `i`. */
  lemma {:induction false} NextRow(A: Csr, i: nat, j: nat)
    requires SymWellFormed(A) && 0 < i <= A.rows
    requires i < A.rows ==> j == A.Ip[i] + 1
    requires i == A.rows ==> j == 0
    ensures Partial(A, i - 1, A.Ip[i]) == Partial(A, i, j)
  {
    var D, E := Partial(A, i - 1, A.Ip[i]), Partial(A, i, j);
    forall p, q | 0 <= p < A.rows && 0 <= q < A.rows ensures D[p][q] == E[p][q] {
      assert Hi(A, i - 1, A.Ip[i], p) == Hi(A, i, j, p);
      assert Hi(A, i - 1, A.Ip[i], q) == Hi(A, i, j, q);
    }
    MatEq(D, E, A.rows, A.rows);
  }

  /** `D` with `v` added to entry `(p,q)`. */
  function Bump(D: Mat, p: nat, q: nat, v: real): (E: Mat)
    requires p < |D| && q < |D[p]|
    ensures SameShape(E, D)
  {
    D[p := D[p][q := D[p][q] + v]]
  }

  /** Adding `v` at `(p,q)` adds `v * x[q]` to entry `p` of the product. */
  lemma {:induction false} MatVecBump(D: Mat, p: nat, q: nat, v: real, x: Vec)
    requires IsMat(D, |D|, |x|) && p < |D| && q < |x|
    ensures MatVec(Bump(D, p, q, v), x) == MatVec(D, x)[p := MatVec(D, x)[p] + v * x[q]]
  {
    DotBump(D[p], x, q, v);
  }

  /** One step of the inner loop applies entry `j - 1` of row `i` at `(i, Jp[j-1])` and at `(Jp[j-1], i)`. */
  lemma {:induction false} PartialStep(A: Csr, i: nat, j: nat)
    requires SymWellFormed(A) && i < A.rows && A.Ip[i] + 1 < j <= A.Ip[i + 1]
    ensures var c, v := A.Jp[j - 1], A.val[j - 1];
      Partial(A, i, j) == Bump(Bump(Partial(A, i, j - 1), i, c, v), c, i, v)
  {
    var c, v := A.Jp[j - 1], A.val[j - 1];
    var D, E := Partial(A, i, j), Bump(Bump(Partial(A, i, j - 1), i, c, v), c, i, v);
    forall p, q | 0 <= p < A.rows && 0 <= q < A.rows ensures D[p][q] == E[p][q] {
      AppliedStep(A, i, j, p, q);
    }
    MatEq(D, E, A.rows, A.rows);
  }

  /** Entry `(p,q)` gains `val[j-1]` once for `(p,q) == (i, Jp[j-1])` and once for `(Jp[j-1], i)`. */
  lemma {:induction false} AppliedStep(A: Csr, i: nat, j: nat, p: nat, q: nat)
    requires SymWellFormed(A) && i < A.rows && A.Ip[i] + 1 < j <= A.Ip[i + 1]
    requires p < A.rows && q < A.rows
    ensures var c, v := A.Jp[j - 1], A.val[j - 1];
      Applied(A, i, j, p, q) ==
      Applied(A, i, j - 1, p, q) + (if p == i && q == c then v else 0.0) + (if p == c && q == i then v else 0.0)
  {
    var c, v := A.Jp[j - 1], A.val[j - 1];
    assert Hi(A, i, j, p) == if p == i then j else Hi(A, i, j - 1, p);
    assert Hi(A, i, j, q) == if q == i then j else Hi(A, i, j - 1, q);
    if p == i {
      assert SumAt(A, A.Ip[p] + 1, j, q) == SumAt(A, A.Ip[p] + 1, j - 1, q) + (if c == q then v else 0.0);
    }
    if q == i {
      assert SumAt(A, A.Ip[q] + 1, j, p) == SumAt(A, A.Ip[q] + 1, j - 1, p) + (if c == p then v else 0.0);
    }
  }

  /** When the first entry of every row is its diagonal, the dense matrix is symmetric. */
  lemma {:induction false} SymSparseSymmetric(A: Csr)
    requires DiagonalFirst(A)
    ensures IsSymmetric(SymSparseDense(A))
  {
    var D := SymSparseDense(A);
    forall p, q | 0 <= p < A.rows && 0 <= q < A.rows ensures D[p][q] == D[q][p] {
    }
  }

  /** Row `p` of the dense matrix is what the entries of row `p` spell out. */
  lemma {:induction false} CsrDenseRow(A: Csr, p: nat)
    requires WellFormed(A) && p < A.rows
    ensures A.Ip[p] <= A.Ip[p + 1] <= |A.val|
    ensures CsrDense(A)[p] == RowOf(A, A.Ip[p], A.Ip[p + 1])
  {
    assert CsrDense(A)[p] == CsrRow(A, p);
  }

  /** The same entry split into the first value row `p` stores, if it sits in column `q`,
      and the later values row `p` stores at column `q`. */
  lemma {:induction false} CsrDenseAt(A: Csr, p: nat, q: nat)
    requires WellFormed(A) && p < A.rows && q < A.cols && A.Ip[p] < A.Ip[p + 1]
    ensures A.Ip[p + 1] <= |A.val|
    ensures CsrDense(A)[p][q] ==
      (if A.Jp[A.Ip[p]] == q then A.val[A.Ip[p]] else 0.0) + SumAt(A, A.Ip[p] + 1, A.Ip[p + 1], q)
  {
    SumAtFirst(A, A.Ip[p], A.Ip[p + 1], q);
  }

  /** Entry `(p,q)` once every row is applied. */
  lemma {:induction false} SymSparseAt(A: Csr, p: nat, q: nat)
    requires SymWellFormed(A) && p < A.rows && q < A.rows
    ensures A.Ip[p] + 1 <= A.Ip[p + 1] <= |A.val| && A.Ip[q] + 1 <= A.Ip[q + 1] <= |A.val|
    ensures SymSparseDense(A)[p][q] ==
      First(A, p, q) + SumAt(A, A.Ip[p] + 1, A.Ip[p + 1], q) + SumAt(A, A.Ip[q] + 1, A.Ip[q + 1], p)
  {
    assert Hi(A, A.rows, 0, p) == A.Ip[p + 1] && Hi(A, A.rows, 0, q) == A.Ip[q + 1];
  }

  /** Entry `(p,q)` of a symmetric sparse matrix whose rows start with their diagonal. */
  lemma {:induction false} SymSparseEntry(A: Csr, p: nat, q: nat)
    requires SymWellFormed(A) && p < A.rows && q < A.rows
    requires A.Jp[A.Ip[p]] == p && A.Jp[A.Ip[q]] == q
    ensures SymSparseDense(A)[p][q] ==
      CsrDense(A)[p][q] + CsrDense(A)[q][p] - (if p == q then A.val[A.Ip[p]] else 0.0)
  {
    SymSparseAt(A, p, q);
    CsrDenseAt(A, p, q);
    CsrDenseAt(A, q, p);
  }

  /** The first stored value of every row: the diagonal when rows start with it. */
  function Leading(A: Csr): (d: Vec)
    requires SymWellFormed(A)
    ensures |d| == A.rows && forall i :: 0 <= i < A.rows ==> d[i] == A.val[A.Ip[i]]
  {
    seq(A.rows, i requires 0 <= i < A.rows => A.val[A.Ip[i]])
  }

  /** `U + U^T - diag`, entry by entry, where `U` is the matrix read as an ordinary one. */
  function PlusTranspose(A: Csr): (E: Mat)
    requires DiagonalFirst(A)
    ensures IsMat(CsrDense(A), A.rows, A.rows)
    ensures IsMat(E, A.rows, A.rows)
  {
    MatSub(MatAdd(CsrDense(A), Transpose(CsrDense(A), A.rows)), DiagMat(Leading(A)))
  }

  lemma {:induction false} PlusTransposeEntry(A: Csr, p: nat, q: nat)
    requires DiagonalFirst(A) && p < A.rows && q < A.rows
    ensures PlusTranspose(A)[p][q] ==
      CsrDense(A)[p][q] + CsrDense(A)[q][p] - (if p == q then A.val[A.Ip[p]] else 0.0)
  {
  }

  /** Entry `(p,q)` of the symmetric sparse matrix is entry `(p,q)` of `U + U^T - diag`. */
  lemma {:induction false} PlusTransposeAt(A: Csr, p: nat, q: nat)
    requires DiagonalFirst(A) && p < A.rows && q < A.rows
    ensures SymSparseDense(A)[p][q] == PlusTranspose(A)[p][q]
  {
    assert A.Jp[A.Ip[p]] == p && A.Jp[A.Ip[q]] == q;
    SymSparseEntry(A, p, q);
    PlusTransposeEntry(A, p, q);
  }

  /**
   * Read as an ordinary compressed matrix `U` whose rows start with their diagonal, the
   * symmetric sparse matrix is `U + U^T` with the diagonal counted once.
   */
  lemma {:induction false} SymSparseIsCsrPlusTranspose(A: Csr)
    requires DiagonalFirst(A)
    ensures SymSparseDense(A) == PlusTranspose(A)
  {
    var D, E := SymSparseDense(A), PlusTranspose(A);
    forall p, q | 0 <= p < A.rows && 0 <= q < A.rows ensures D[p][q] == E[p][q] {
      PlusTransposeAt(A, p, q);
    }
    MatEq(D, E, A.rows, A.rows);
  }
}
