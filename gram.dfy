/**
 * The congruence products of fmatvec/linear_algebra.h: `JTJ(A) = A^T A`, `JTMJ(B, A) =
 * A^T B A` for a symmetric or a symmetric sparse `B`, and `JMJT(A, B) = A B A^T`. Each
 * result is symmetric, so the loops fill only the stored upper triangle.
 */
module Gram {
  import opened Dense
  import opened DenseAlgebra
  import opened Sparse
  import opened Products

  /** `S.ej(i,k) = sum_j A(j,i) C(j,k)` for the cells `k >= i` of row `i`. */
  method ColumnCrossRow(A: Mat, C: Mat, m: nat, n: nat, S: array2<real>, i: nat)
    requires IsMat(A, m, n) && IsMat(C, m, n) && S.Length0 == n == S.Length1 && i < n
    modifies S
    ensures forall q :: i <= q < n ==> S[i, q] == Dot(Col(A, i), Col(C, q))
    ensures forall p, q :: 0 <= p < n && 0 <= q < n && !(p == i && i <= q) ==> S[p, q] == old(S[p, q])
  {
    var k := i;
    while k < n
      invariant i <= k <= n
      invariant forall q :: i <= q < k ==> S[i, q] == Dot(Col(A, i), Col(C, q))
      invariant forall p, q :: 0 <= p < n && 0 <= q < n && !(p == i && i <= q < k) ==> S[p, q] == old(S[p, q])
    {
      S[i, k] := Accumulate(Col(A, i), Col(C, k));
      k := k + 1;
    }
  }

  /**
   * The loops shared by `JTJ` and both `JTMJ`: the upper triangle of `A^T C`, built from
   * the columns of `A` and `C`.
   */
  method ColumnCross(A: Mat, C: Mat, m: nat, n: nat) returns (U: Mat)
    requires IsMat(A, m, n) && IsMat(C, m, n)
    ensures Triangle(U, n)
    ensures forall i, k :: 0 <= i <= k < n ==> U[i][k] == Dot(Col(A, i), Col(C, k))
  {
    var S := new real[n, n];
    var i := 0;
    while i < n
      invariant 0 <= i <= n
      invariant forall p, q :: 0 <= p < i && p <= q < n ==> S[p, q] == Dot(Col(A, p), Col(C, q))
    {
      ColumnCrossRow(A, C, m, n, S, i);
      i := i + 1;
    }
    U := Grid(S);
  }

  /** The stored triangle of `A^T C` means `A^T C` whenever that product is symmetric. */
  lemma {:induction false} ColumnCrossMeaning(U: Mat, A: Mat, C: Mat, m: nat, n: nat)
    requires IsMat(A, m, n) && IsMat(C, m, n) && Triangle(U, n)
    requires forall i, k :: 0 <= i <= k < n ==> U[i][k] == Dot(Col(A, i), Col(C, k))
    requires IsSymmetric(MatMul(Transpose(A, n), C, n))
    ensures SymUpper(U, n) == MatMul(Transpose(A, n), C, n)
  {
    var M := MatMul(Transpose(A, n), C, n);
    forall p, q | 0 <= p <= q < n ensures SymUpper(U, n)[p][q] == M[p][q] {
      assert Transpose(A, n)[p] == Col(A, p);
    }
    UpperDetermines(SymUpper(U, n), M);
  }

  /** `JTJ(A)`: the symmetric matrix `A^T A`. */
  method JTJ(A: Mat, m: nat, n: nat) returns (U: Mat)
    requires IsMat(A, m, n)
    ensures Triangle(U, n) && SymUpper(U, n) == MatMul(Transpose(A, n), A, n)
  {
    U := ColumnCross(A, A, m, n);
    forall i, k | 0 <= i < n && 0 <= k < n
      ensures MatMul(Transpose(A, n), A, n)[i][k] == MatMul(Transpose(A, n), A, n)[k][i]
    {
      GramSymmetric(A, n, i, k);
    }
    ColumnCrossMeaning(U, A, A, m, n);
  }

  /** `A^T B A` is symmetric when `B` is. */
  lemma {:induction false} CongruenceSymmetric(A: Mat, B: Mat, m: nat, n: nat)
    requires IsMat(A, m, n) && IsSymmetric(B) && |B| == m
    ensures IsSymmetric(MatMul(Transpose(A, n), MatMul(B, A, n), n))
  {
    var C := MatMul(B, A, n);
    var M := MatMul(Transpose(A, n), C, n);
    forall i, k | 0 <= i < n && 0 <= k < n ensures M[i][k] == M[k][i] {
      assert Transpose(A, n)[i] == Col(A, i) && Transpose(A, n)[k] == Col(A, k);
      MatMulColumn(B, A, n, k);
      MatMulColumn(B, A, n, i);
      BilinearSymmetric(Col(A, i), B, Col(A, k));
    }
  }

  /** `JTMJ(B, A)` with a symmetric `B`: `C = B * A`, then the triangle of `A^T C`. */
  method JTMJ(UB: Mat, A: Mat, m: nat, n: nat) returns (U: Mat)
    requires Triangle(UB, m) && IsMat(A, m, n)
    ensures Triangle(U, n)
    ensures SymUpper(U, n) == MatMul(Transpose(A, n), MatMul(SymUpper(UB, m), A, n), n)
  {
    var B := SymUpper(UB, m);
    var P := new real[m, n];
    MultSymMat(UB, m, A, n, P);
    var C := Grid(P);
    MatEq(C, MatMul(B, A, n), m, n);
    U := ColumnCross(A, C, m, n);
    CongruenceSymmetric(A, B, m, n);
    ColumnCrossMeaning(U, A, C, m, n);
  }

  /**
   * `JTMJ(B, A)` with a symmetric sparse `B`: `C = B * A` by the sparse product, then the
   * triangle of `A^T C`. When every row of `B` stores its diagonal first, the dense meaning
   * of `B` is symmetric and the result is all of `A^T B A`.
   */
  method JTMJSparse(B: Csr, A: Mat, n: nat) returns (U: Mat)
    requires SymWellFormed(B) && IsMat(A, B.rows, n)
    ensures Triangle(U, n)
    ensures forall i, k :: 0 <= i <= k < n ==>
      U[i][k] == MatMul(Transpose(A, n), MatMul(SymSparseDense(B), A, n), n)[i][k]
    ensures DiagonalFirst(B) ==>
      SymUpper(U, n) == MatMul(Transpose(A, n), MatMul(SymSparseDense(B), A, n), n)
  {
    var m := B.rows;
    var P := new real[m, n];
    MultSymSparseMat(B, A, n, P);
    var C := Grid(P);
    MatEq(C, MatMul(SymSparseDense(B), A, n), m, n);
    U := ColumnCross(A, C, m, n);
    forall i, k | 0 <= i <= k < n ensures U[i][k] == MatMul(Transpose(A, n), C, n)[i][k] {
      assert Transpose(A, n)[i] == Col(A, i);
    }
    if DiagonalFirst(B) {
      SymSparseSymmetric(B);
      CongruenceSymmetric(A, SymSparseDense(B), m, n);
      ColumnCrossMeaning(U, A, C, m, n);
    }
  }

  /** `S.ej(i,k) = sum_j C(k,j) A(i,j)` for the cells `k >= i` of row `i`. */
  method RowCrossRow(A: Mat, C: Mat, m: nat, n: nat, S: array2<real>, i: nat)
    requires IsMat(A, m, n) && IsMat(C, m, n) && S.Length0 == m == S.Length1 && i < m
    modifies S
    ensures forall q :: i <= q < m ==> S[i, q] == Dot(C[q], A[i])
    ensures forall p, q :: 0 <= p < m && 0 <= q < m && !(p == i && i <= q) ==> S[p, q] == old(S[p, q])
  {
    var k := i;
    while k < m
      invariant i <= k <= m
      invariant forall q :: i <= q < k ==> S[i, q] == Dot(C[q], A[i])
      invariant forall p, q :: 0 <= p < m && 0 <= q < m && !(p == i && i <= q < k) ==> S[p, q] == old(S[p, q])
    {
      S[i, k] := Accumulate(C[k], A[i]);
      k := k + 1;
    }
  }

  /** `A B A^T` is symmetric when `B` is. */
  lemma {:induction false} OuterCongruenceSymmetric(A: Mat, B: Mat, m: nat, n: nat)
    requires IsMat(A, m, n) && IsSymmetric(B) && |B| == n
    ensures IsSymmetric(MatMul(MatMul(A, B, n), Transpose(A, n), m))
  {
    var C := MatMul(A, B, n);
    var M := MatMul(C, Transpose(A, n), m);
    forall i, k | 0 <= i < m && 0 <= k < m ensures M[i][k] == M[k][i] {
      RowTimesSymmetric(A, B, m, n, i);
      RowTimesSymmetric(A, B, m, n, k);
      ColOfTranspose(A, n, i);
      ColOfTranspose(A, n, k);
      BilinearSymmetric(A[k], B, A[i]);
      DotCommutes(MatVec(B, A[i]), A[k]);
      DotCommutes(MatVec(B, A[k]), A[i]);
    }
  }

  /** Row `i` of `A B` is `B` applied to row `i` of `A` when `B` is symmetric. */
  lemma {:induction false} RowTimesSymmetric(A: Mat, B: Mat, m: nat, n: nat, i: nat)
    requires IsMat(A, m, n) && IsSymmetric(B) && |B| == n && i < m
    ensures MatMul(A, B, n)[i] == MatVec(B, A[i])
  {
    assert MatMul(A, B, n)[i] == VecMat(A[i], B, n);
    VecMatSymmetric(A[i], B);
  }

  /** The loops of `JMJT`: the upper triangle of `C A^T`, built from the rows of `A` and `C`. */
  method RowCross(A: Mat, C: Mat, m: nat, n: nat) returns (U: Mat)
    requires IsMat(A, m, n) && IsMat(C, m, n)
    ensures Triangle(U, m)
    ensures forall i, k :: 0 <= i <= k < m ==> U[i][k] == Dot(C[k], A[i])
  {
    var S := new real[m, m];
    var i := 0;
    while i < m
      invariant 0 <= i <= m
      invariant forall p, q :: 0 <= p < i && p <= q < m ==> S[p, q] == Dot(C[q], A[p])
    {
      RowCrossRow(A, C, m, n, S, i);
      i := i + 1;
    }
    U := Grid(S);
  }

  /** The stored triangle of `C A^T` means `C A^T` whenever that product is symmetric. */
  lemma {:induction false} RowCrossMeaning(U: Mat, A: Mat, C: Mat, m: nat, n: nat)
    requires IsMat(A, m, n) && IsMat(C, m, n) && Triangle(U, m)
    requires forall i, k :: 0 <= i <= k < m ==> U[i][k] == Dot(C[k], A[i])
    requires IsSymmetric(MatMul(C, Transpose(A, n), m))
    ensures SymUpper(U, m) == MatMul(C, Transpose(A, n), m)
  {
    var M := MatMul(C, Transpose(A, n), m);
    forall p, q | 0 <= p <= q < m ensures SymUpper(U, m)[p][q] == M[p][q] {
      ColOfTranspose(A, n, p);
      assert M[q][p] == Dot(C[q], A[p]);
    }
    UpperDetermines(SymUpper(U, m), M);
  }

  /** `JMJT(A, B)`: `C = A * B`, then the triangle of `C A^T`. */
  method JMJT(A: Mat, UB: Mat, m: nat, n: nat) returns (U: Mat)
    requires IsMat(A, m, n) && Triangle(UB, n)
    ensures Triangle(U, m)
    ensures SymUpper(U, m) == MatMul(MatMul(A, SymUpper(UB, n), n), Transpose(A, n), m)
  {
    var B := SymUpper(UB, n);
    var P := new real[m, n];
    MultMatMat(A, B, n, P);
    var C := Grid(P);
    MatEq(C, MatMul(A, B, n), m, n);
    U := RowCross(A, C, m, n);
    OuterCongruenceSymmetric(A, B, m, n);
    RowCrossMeaning(U, A, C, m, n);
  }
}
