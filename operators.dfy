/**
 * The value-returning `operator*` forms of fmatvec/linear_algebra.h: each allocates a result
 * of `A.rows()` entries (`A1.rows() x A2.cols()` for a matrix product), runs the matching
 * three-argument `mult` loop into it and returns it. The result is the dense product of the
 * operands' dense meanings.
 */
module Operators {
  import opened Dense
  import opened DenseAlgebra
  import opened Sparse
  import opened Products

  /** A matrix-vector product left in an array of `A.rows()` entries. */
  lemma {:induction false} ArrayIsMatVec(A: Mat, x: Vec, y: array<real>)
    requires IsMat(A, |A|, |x|) && y.Length == |A|
    requires forall i :: 0 <= i < y.Length ==> y[i] == Dot(A[i], x)
    ensures y[..] == MatVec(A, x)
  {
    forall i | 0 <= i < |A| ensures y[..][i] == MatVec(A, x)[i] { }
  }

  /** General matrix times vector. */
  method MatTimesVec(A: Mat, x: Vec) returns (y: Vec)
    requires IsMat(A, |A|, |x|)
    ensures y == MatVec(A, x)
  {
    var a := new real[|A|];
    MultMatVec(A, x, a);
    ArrayIsMatVec(A, x, a);
    y := a[..];
  }

  /** Symmetric matrix (its stored triangle) times vector. */
  method SymTimesVec(U: Mat, n: nat, x: Vec) returns (y: Vec)
    requires Triangle(U, n) && |x| == n
    ensures y == MatVec(SymUpper(U, n), x)
  {
    var a := new real[n];
    MultSymVec(U, n, x, a);
    ArrayIsMatVec(SymUpper(U, n), x, a);
    y := a[..];
  }

  /** Compressed sparse matrix times vector. */
  method CsrTimesVec(A: Csr, x: Vec) returns (y: Vec)
    requires WellFormed(A) && |x| == A.cols
    ensures y == MatVec(CsrDense(A), x)
  {
    var a := new real[A.rows];
    MultCsrVec(A, x, a);
    ArrayIsMatVec(CsrDense(A), x, a);
    y := a[..];
  }

  /** Symmetric sparse matrix times vector. */
  method SymSparseTimesVec(A: Csr, x: Vec) returns (y: Vec)
    requires SymWellFormed(A) && |x| == A.rows
    ensures y == MatVec(SymSparseDense(A), x)
  {
    var a := new real[A.rows];
    MultSymSparseVec(A, x, a);
    y := a[..];
  }

  /** Row vector times general matrix. */
  method VecTimesMat(x: Vec, A: Mat, n: nat) returns (y: Vec)
    requires IsMat(A, |x|, n)
    ensures y == VecMat(x, A, n)
  {
    var a := new real[n];
    MultVecMat(x, A, n, a);
    forall i | 0 <= i < n ensures a[..][i] == VecMat(x, A, n)[i] { }
    y := a[..];
  }

  /** Row vector times symmetric matrix; for a symmetric factor that is also `A x`. */
  method VecTimesSym(x: Vec, U: Mat, n: nat) returns (y: Vec)
    requires Triangle(U, n) && |x| == n
    ensures y == VecMat(x, SymUpper(U, n), n)
    ensures y == MatVec(SymUpper(U, n), x)
  {
    var a := new real[n];
    MultVecSym(x, U, n, a);
    forall i | 0 <= i < n ensures a[..][i] == VecMat(x, SymUpper(U, n), n)[i] { }
    y := a[..];
    VecMatSymmetric(x, SymUpper(U, n));
  }

  /** A matrix product left in an array of `|A| x k` cells. */
  lemma {:induction false} ArrayIsMatMul(A: Mat, B: Mat, k: nat, a: array2<real>)
    requires IsMat(A, |A|, |B|) && IsMat(B, |B|, k) && a.Length0 == |A| && a.Length1 == k
    requires forall i, c :: 0 <= i < a.Length0 && 0 <= c < a.Length1 ==> a[i, c] == MatMul(A, B, k)[i][c]
    ensures Grid(a) == MatMul(A, B, k)
  {
    MatEq(Grid(a), MatMul(A, B, k), |A|, k);
  }

  /** General matrix times matrix, a `A1.rows() x A2.cols()` result. */
  method MatTimesMat(A1: Mat, A2: Mat, n2: nat) returns (A3: Mat)
    requires IsMat(A1, |A1|, |A2|) && IsMat(A2, |A2|, n2)
    ensures A3 == MatMul(A1, A2, n2)
  {
    var a := new real[|A1|, n2];
    MultMatMat(A1, A2, n2, a);
    ArrayIsMatMul(A1, A2, n2, a);
    A3 := Grid(a);
  }

  /** Symmetric matrix times general matrix. */
  method SymTimesMat(U: Mat, n: nat, A2: Mat, n2: nat) returns (A3: Mat)
    requires Triangle(U, n) && IsMat(A2, n, n2)
    ensures A3 == MatMul(SymUpper(U, n), A2, n2)
  {
    var a := new real[n, n2];
    MultSymMat(U, n, A2, n2, a);
    ArrayIsMatMul(SymUpper(U, n), A2, n2, a);
    A3 := Grid(a);
  }

  /** Compressed sparse matrix times general matrix. */
  method CsrTimesMat(A: Csr, A2: Mat, n2: nat) returns (A3: Mat)
    requires WellFormed(A) && IsMat(A2, A.cols, n2)
    ensures A3 == MatMul(CsrDense(A), A2, n2)
  {
    var a := new real[A.rows, n2];
    MultCsrMat(A, A2, n2, a);
    ArrayIsMatMul(CsrDense(A), A2, n2, a);
    A3 := Grid(a);
  }

  /** Symmetric sparse matrix times general matrix. */
  method SymSparseTimesMat(A: Csr, A2: Mat, n2: nat) returns (A3: Mat)
    requires SymWellFormed(A) && IsMat(A2, A.rows, n2)
    ensures A3 == MatMul(SymSparseDense(A), A2, n2)
  {
    var a := new real[A.rows, n2];
    MultSymSparseMat(A, A2, n2, a);
    ArrayIsMatMul(SymSparseDense(A), A2, n2, a);
    A3 := Grid(a);
  }

  /** Diagonal times diagonal: the diagonal of the product. */
  method DiagTimesDiagValue(d1: Vec, d2: Vec) returns (d: Vec)
    requires |d1| == |d2|
    ensures |d| == |d1| && DiagMat(d) == MatMul(DiagMat(d1), DiagMat(d2), |d1|)
  {
    var a := new real[|d1|];
    MultDiagDiag(d1, d2, a);
    d := a[..];
    var e := seq(|d1|, i requires 0 <= i < |d1| => d1[i] * d2[i]);
    forall i | 0 <= i < |d1| ensures d[i] == e[i] { }
    assert d == e;
    DiagTimesDiag(d1, d2);
  }

  /**
   * Symmetric times symmetric: the general `mult` with a symmetric left factor, reading the
   * right factor through `e(j,k)`. The result is a general matrix.
   */
  method SymTimesSym(U1: Mat, U2: Mat, n: nat) returns (A3: Mat)
    requires Triangle(U1, n) && Triangle(U2, n)
    ensures A3 == MatMul(SymUpper(U1, n), SymUpper(U2, n), n)
  {
    A3 := SymTimesMat(U1, n, SymUpper(U2, n), n);
  }

  /** The product of two symmetric matrices transposed is the product the other way round. */
  lemma {:induction false} SymProductTranspose(S1: Mat, S2: Mat)
    requires IsSymmetric(S1) && IsSymmetric(S2) && |S1| == |S2|
    ensures Transpose(MatMul(S1, S2, |S2|), |S2|) == MatMul(S2, S1, |S1|)
  {
    var n := |S1|;
    var T, P := Transpose(MatMul(S1, S2, n), n), MatMul(S2, S1, n);
    forall i, k | 0 <= i < n && 0 <= k < n ensures T[i][k] == P[i][k] {
      assert Col(S2, i) == S2[i];
      assert Col(S1, k) == S1[k];
      DotCommutes(S1[k], S2[i]);
    }
    MatEq(T, P, n, n);
  }
}
