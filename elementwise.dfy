/**
 * The element-wise `add` and `sub` loops of fmatvec/linear_algebra.h and the `operator+`,
 * `operator-`, `+=` and `-=` forms built on them.
 *
 * `add` and `sub` are the same loop with a different scalar operation, so one `Op` stands
 * for both. Read-only operands are values; the operand a loop writes is an array. A
 * symmetric operand is the triangle it stores, as in module Products.
 */
module Elementwise {
  import opened Dense
  import opened DenseAlgebra
  import opened Products

  /** Which of the two element-wise operations a loop performs. */
  datatype Op = Plus | Minus

  function Apply(op: Op, a: real, b: real): real {
    match op
    case Plus => a + b
    case Minus => a - b
  }

  /** The dense reference for vectors: `VecAdd` or `VecSub`. */
  function VecOp(op: Op, a: Vec, b: Vec): (c: Vec)
    requires |a| == |b|
    ensures |c| == |a| && forall i :: 0 <= i < |a| ==> c[i] == Apply(op, a[i], b[i])
  {
    if op == Plus then VecAdd(a, b) else VecSub(a, b)
  }

  /** The dense reference for matrices: `MatAdd` or `MatSub`. */
  function MatOp(op: Op, A: Mat, B: Mat): (C: Mat)
    requires SameShape(A, B)
    ensures SameShape(C, A)
    ensures forall i, j :: 0 <= i < |A| && 0 <= j < |A[i]| ==> C[i][j] == Apply(op, A[i][j], B[i][j])
  {
    if op == Plus then MatAdd(A, B) else MatSub(A, B)
  }

  // Vectors and row vectors.

  /** `add(a1, a2, a3)` / `sub(a1, a2, a3)`: `a3.e(i) = a1.e(i) op a2.e(i)` for `i < a1.size()`. */
  method CombineVec(op: Op, a1: Vec, a2: Vec, a3: array<real>)
    requires |a1| == |a2| <= a3.Length
    modifies a3
    ensures a3[..|a1|] == VecOp(op, a1, a2)
    ensures a3[|a1|..] == old(a3[|a1|..])
  {
    var i := 0;
    while i < |a1|
      invariant 0 <= i <= |a1|
      invariant forall p :: 0 <= p < i ==> a3[p] == Apply(op, a1[p], a2[p])
      invariant a3[|a1|..] == old(a3[|a1|..])
    {
      a3[i] := Apply(op, a1[i], a2[i]);
      i := i + 1;
    }
  }

  /** `add(a1, a2)` / `sub(a1, a2)`, i.e. `+=` and `-=`: only `a1` changes. */
  method CombineInto(op: Op, a1: array<real>, a2: Vec)
    requires a1.Length == |a2|
    modifies a1
    ensures a1[..] == VecOp(op, old(a1[..]), a2)
  {
    var i := 0;
    while i < a1.Length
      invariant 0 <= i <= a1.Length
      invariant forall p :: 0 <= p < i ==> a1[p] == Apply(op, old(a1[p]), a2[p])
      invariant forall p :: i <= p < a1.Length ==> a1[p] == old(a1[p])
    {
      a1[i] := Apply(op, a1[i], a2[i]);
      i := i + 1;
    }
  }

  /**
   * `sub(a, b, b)`, the form the move overload `a - (temporary b)` uses: the output is the
   * right operand, and each cell is read before it is overwritten.
   */
  method SubtractFrom(a: Vec, b: array<real>)
    requires |a| == b.Length
    modifies b
    ensures b[..] == VecSub(a, old(b[..]))
  {
    var i := 0;
    while i < |a|
      invariant 0 <= i <= |a|
      invariant forall p :: 0 <= p < i ==> b[p] == a[p] - old(b[p])
      invariant forall p :: i <= p < |a| ==> b[p] == old(b[p])
    {
      b[i] := a[i] - b[i];
      i := i + 1;
    }
  }

  /** `operator+` / `operator-` of two vectors: a fresh vector of `a.size()` entries. */
  method Combined(op: Op, a: Vec, b: Vec) returns (c: Vec)
    requires |a| == |b|
    ensures c == VecOp(op, a, b)
  {
    var arr := new real[|a|];
    CombineVec(op, a, b, arr);
    c := arr[..];
  }

  /** The move overload `a + (temporary b)` computes `b += a`; that is the same sum. */
  lemma {:induction false} VecAddCommutes(a: Vec, b: Vec)
    requires |a| == |b|
    ensures VecAdd(b, a) == VecAdd(a, b)
  {
    forall i | 0 <= i < |a| ensures VecAdd(b, a)[i] == VecAdd(a, b)[i] { }
  }

  /** `a + b - b == a` and `a - b + b == a`: the two operations undo each other. */
  lemma {:induction false} VecOpsInverse(a: Vec, b: Vec)
    requires |a| == |b|
    ensures VecSub(VecAdd(a, b), b) == a && VecAdd(VecSub(a, b), b) == a
  {
    forall i | 0 <= i < |a| ensures VecSub(VecAdd(a, b), b)[i] == a[i] && VecAdd(VecSub(a, b), b)[i] == a[i] { }
  }

  // General matrices.

  /** `add(A1, A2, A3)` / `sub(A1, A2, A3)`: `A3.e(i,j)` for `i < A1.rows()`, `j < A2.cols()`. */
  method CombineMat(op: Op, A1: Mat, A2: Mat, m: nat, n: nat, A3: array2<real>)
    requires IsMat(A1, m, n) && IsMat(A2, m, n) && m <= A3.Length0 && n <= A3.Length1
    modifies A3
    ensures forall i, j :: 0 <= i < m && 0 <= j < n ==> A3[i, j] == MatOp(op, A1, A2)[i][j]
    ensures forall i, j :: 0 <= i < A3.Length0 && 0 <= j < A3.Length1 && !(i < m && j < n) ==>
      A3[i, j] == old(A3[i, j])
  {
    var i := 0;
    while i < m
      invariant 0 <= i <= m
      invariant forall p, q :: 0 <= p < i && 0 <= q < n ==> A3[p, q] == Apply(op, A1[p][q], A2[p][q])
      invariant forall p, q :: 0 <= p < A3.Length0 && 0 <= q < A3.Length1 && !(p < i && q < n) ==>
        A3[p, q] == old(A3[p, q])
    {
      CombineRow(op, A1[i], A2[i], A3, i);
      i := i + 1;
    }
  }

  /** Row `i` of an element-wise matrix loop: columns `j < |r1|`. */
  method CombineRow(op: Op, r1: Vec, r2: Vec, A3: array2<real>, i: nat)
    requires |r1| == |r2| <= A3.Length1 && i < A3.Length0
    modifies A3
    ensures forall q :: 0 <= q < |r1| ==> A3[i, q] == Apply(op, r1[q], r2[q])
    ensures forall p, q :: 0 <= p < A3.Length0 && 0 <= q < A3.Length1 && !(p == i && q < |r1|) ==>
      A3[p, q] == old(A3[p, q])
  {
    var j := 0;
    while j < |r1|
      invariant 0 <= j <= |r1|
      invariant forall q :: 0 <= q < j ==> A3[i, q] == Apply(op, r1[q], r2[q])
      invariant forall p, q :: 0 <= p < A3.Length0 && 0 <= q < A3.Length1 && !(p == i && q < j) ==>
        A3[p, q] == old(A3[p, q])
    {
      A3[i, j] := Apply(op, r1[j], r2[j]);
      j := j + 1;
    }
  }

  /** `add(A1, A2)` / `sub(A1, A2)`, i.e. `+=` and `-=` on a general matrix. */
  method CombineMatInto(op: Op, A1: array2<real>, A2: Mat)
    requires IsMat(A2, A1.Length0, A1.Length1)
    modifies A1
    ensures Grid(A1) == MatOp(op, old(Grid(A1)), A2)
  {
    ghost var G := Grid(A1);
    var i := 0;
    while i < A1.Length0
      invariant 0 <= i <= A1.Length0
      invariant forall p, q :: 0 <= p < i && 0 <= q < A1.Length1 ==> A1[p, q] == Apply(op, G[p][q], A2[p][q])
      invariant forall p, q :: i <= p < A1.Length0 && 0 <= q < A1.Length1 ==> A1[p, q] == G[p][q]
    {
      CombineRowInto(op, A1, A2[i], i);
      i := i + 1;
    }
    ghost var R := MatOp(op, G, A2);
    forall p | 0 <= p < A1.Length0 ensures Grid(A1)[p] == R[p] {
      forall q | 0 <= q < A1.Length1 ensures Grid(A1)[p][q] == R[p][q] { }
    }
  }

  /** Row `i` of a matrix `+=` / `-=`. */
  method CombineRowInto(op: Op, A1: array2<real>, r2: Vec, i: nat)
    requires |r2| == A1.Length1 && i < A1.Length0
    modifies A1
    ensures forall q :: 0 <= q < A1.Length1 ==> A1[i, q] == Apply(op, old(A1[i, q]), r2[q])
    ensures forall p, q :: 0 <= p < A1.Length0 && 0 <= q < A1.Length1 && p != i ==> A1[p, q] == old(A1[p, q])
  {
    var j := 0;
    while j < A1.Length1
      invariant 0 <= j <= A1.Length1
      invariant forall q :: 0 <= q < j ==> A1[i, q] == Apply(op, old(A1[i, q]), r2[q])
      invariant forall p, q :: 0 <= p < A1.Length0 && 0 <= q < A1.Length1 && !(p == i && q < j) ==>
        A1[p, q] == old(A1[p, q])
    {
      A1[i, j] := Apply(op, A1[i, j], r2[j]);
      j := j + 1;
    }
  }

  /** `operator+` / `operator-` of two general matrices: a fresh `A.rows() x A.cols()` result. */
  method CombinedMat(op: Op, A: Mat, B: Mat, m: nat, n: nat) returns (C: Mat)
    requires IsMat(A, m, n) && IsMat(B, m, n)
    ensures C == MatOp(op, A, B)
  {
    var arr := new real[m, n];
    CombineMat(op, A, B, m, n, arr);
    C := Grid(arr);
    ghost var R := MatOp(op, A, B);
    forall i | 0 <= i < m ensures C[i] == R[i] {
      forall j | 0 <= j < n ensures C[i][j] == R[i][j] { }
    }
  }

  /** The move overload `A + (temporary B)` computes `B += A`; that is the same sum. */
  lemma {:induction false} MatAddCommutes(A: Mat, B: Mat)
    requires SameShape(A, B)
    ensures MatAdd(B, A) == MatAdd(A, B)
  {
    forall i | 0 <= i < |A| ensures MatAdd(B, A)[i] == MatAdd(A, B)[i] {
      VecAddCommutes(A[i], B[i]);
    }
  }

  // Symmetric matrices: only the stored upper triangle is read and written.

  /**
   * `add(A1, A2, A3)` / `sub(A1, A2, A3)` for symmetric operands: `A3.ej(i,j)` for
   * `i <= j < A1.size()`, the rest of `A3` unchanged. The dense meaning of the result is the
   * sum or difference of the dense operands.
   */
  method CombineSym(op: Op, U1: Mat, U2: Mat, n: nat, A3: array2<real>)
    requires Triangle(U1, n) && Triangle(U2, n) && n <= A3.Length0 && n <= A3.Length1
    modifies A3
    ensures forall i, j :: 0 <= i <= j < n ==> A3[i, j] == Apply(op, U1[i][j], U2[i][j])
    ensures forall i, j :: 0 <= i < A3.Length0 && 0 <= j < A3.Length1 && !(i <= j < n) ==>
      A3[i, j] == old(A3[i, j])
    ensures Triangle(Grid(A3), n)
    ensures SymUpper(Grid(A3), n) == MatOp(op, SymUpper(U1, n), SymUpper(U2, n))
  {
    var i := 0;
    while i < n
      invariant 0 <= i <= n
      invariant forall p, q :: 0 <= p < i && p <= q < n ==> A3[p, q] == Apply(op, U1[p][q], U2[p][q])
      invariant forall p, q :: 0 <= p < A3.Length0 && 0 <= q < A3.Length1 && !(p < i && p <= q < n) ==>
        A3[p, q] == old(A3[p, q])
    {
      CombineUpperRow(op, U1[i], U2[i], n, A3, i);
      i := i + 1;
    }
    SymCombineMeaning(op, U1, U2, Grid(A3), n);
  }

  /** Row `i` of a symmetric loop: columns `i <= j < n`. */
  method CombineUpperRow(op: Op, r1: Vec, r2: Vec, n: nat, A3: array2<real>, i: nat)
    requires n <= |r1| && n <= |r2| && i < n <= A3.Length1 && i < A3.Length0
    modifies A3
    ensures forall q :: i <= q < n ==> A3[i, q] == Apply(op, r1[q], r2[q])
    ensures forall p, q :: 0 <= p < A3.Length0 && 0 <= q < A3.Length1 && !(p == i && i <= q < n) ==>
      A3[p, q] == old(A3[p, q])
  {
    var j := i;
    while j < n
      invariant i <= j <= n
      invariant forall q :: i <= q < j ==> A3[i, q] == Apply(op, r1[q], r2[q])
      invariant forall p, q :: 0 <= p < A3.Length0 && 0 <= q < A3.Length1 && !(p == i && i <= q < j) ==>
        A3[p, q] == old(A3[p, q])
    {
      A3[i, j] := Apply(op, r1[j], r2[j]);
      j := j + 1;
    }
  }

  /** An upper triangle combined cell by cell means the combined dense symmetric matrices. */
  lemma {:induction false} SymCombineMeaning(op: Op, U1: Mat, U2: Mat, U3: Mat, n: nat)
    requires Triangle(U1, n) && Triangle(U2, n) && Triangle(U3, n)
    requires forall i, j :: 0 <= i <= j < n ==> U3[i][j] == Apply(op, U1[i][j], U2[i][j])
    ensures SymUpper(U3, n) == MatOp(op, SymUpper(U1, n), SymUpper(U2, n))
  {
    var S, R := SymUpper(U3, n), MatOp(op, SymUpper(U1, n), SymUpper(U2, n));
    forall i | 0 <= i < n ensures S[i] == R[i] {
      forall j | 0 <= j < n ensures S[i][j] == R[i][j] {
        if j < i {
          assert U3[j][i] == Apply(op, U1[j][i], U2[j][i]);
        }
      }
    }
  }

  /** `add(A1, A2)` / `sub(A1, A2)` for symmetric operands: `A1.ej(i,j) op= A2.ej(i,j)` only. */
  method CombineSymInto(op: Op, A1: array2<real>, U2: Mat, n: nat)
    requires A1.Length0 == n && A1.Length1 == n && Triangle(U2, n)
    modifies A1
    ensures forall i, j :: 0 <= i <= j < n ==> A1[i, j] == Apply(op, old(A1[i, j]), U2[i][j])
    ensures forall i, j :: 0 <= j < i < n ==> A1[i, j] == old(A1[i, j])
    ensures SymUpper(Grid(A1), n) == MatOp(op, SymUpper(old(Grid(A1)), n), SymUpper(U2, n))
  {
    ghost var G := Grid(A1);
    var i := 0;
    while i < n
      invariant 0 <= i <= n
      invariant forall p, q :: 0 <= p < i && p <= q < n ==> A1[p, q] == Apply(op, G[p][q], U2[p][q])
      invariant forall p, q :: 0 <= p < n && 0 <= q < n && !(p < i && p <= q) ==> A1[p, q] == G[p][q]
    {
      CombineUpperRowInto(op, A1, U2[i], n, i);
      i := i + 1;
    }
    SymCombineMeaning(op, G, U2, Grid(A1), n);
  }

  /** Row `i` of a symmetric `+=` / `-=`: columns `i <= j < n`. */
  method CombineUpperRowInto(op: Op, A1: array2<real>, r2: Vec, n: nat, i: nat)
    requires A1.Length0 == n && A1.Length1 == n && n <= |r2| && i < n
    modifies A1
    ensures forall q :: i <= q < n ==> A1[i, q] == Apply(op, old(A1[i, q]), r2[q])
    ensures forall p, q :: 0 <= p < n && 0 <= q < n && !(p == i && i <= q) ==> A1[p, q] == old(A1[p, q])
  {
    var j := i;
    while j < n
      invariant i <= j <= n
      invariant forall q :: i <= q < j ==> A1[i, q] == Apply(op, old(A1[i, q]), r2[q])
      invariant forall p, q :: 0 <= p < n && 0 <= q < n && !(p == i && i <= q < j) ==> A1[p, q] == old(A1[p, q])
    {
      A1[i, j] := Apply(op, A1[i, j], r2[j]);
      j := j + 1;
    }
  }

  /** `operator+` / `operator-` of two symmetric matrices: a fresh symmetric result. */
  method CombinedSym(op: Op, U1: Mat, U2: Mat, n: nat) returns (S: Mat)
    requires Triangle(U1, n) && Triangle(U2, n)
    ensures Triangle(S, n)
    ensures SymUpper(S, n) == MatOp(op, SymUpper(U1, n), SymUpper(U2, n))
  {
    var arr := new real[n, n];
    CombineSym(op, U1, U2, n, arr);
    S := Grid(arr);
  }

  // Diagonal matrices.

  /** `add(A1, A2, A3)` / `sub(A1, A2, A3)` for diagonal operands: the loop runs over `A3.size()`. */
  method CombineDiag(op: Op, d1: Vec, d2: Vec, d3: array<real>)
    requires |d1| == |d2| && d3.Length <= |d1|
    modifies d3
    ensures d3[..] == VecOp(op, d1[..d3.Length], d2[..d3.Length])
  {
    var i := 0;
    while i < d3.Length
      invariant 0 <= i <= d3.Length
      invariant forall p :: 0 <= p < i ==> d3[p] == Apply(op, d1[p], d2[p])
    {
      d3[i] := Apply(op, d1[i], d2[i]);
      i := i + 1;
    }
  }

  /** `operator+` / `operator-` of two diagonal matrices of the same size. */
  method CombinedDiag(op: Op, d1: Vec, d2: Vec) returns (d: Vec)
    requires |d1| == |d2|
    ensures DiagMat(d) == MatOp(op, DiagMat(d1), DiagMat(d2))
  {
    var arr := new real[|d1|];
    CombineDiag(op, d1, d2, arr);
    d := arr[..];
    assert d1[..|d1|] == d1 && d2[..|d2|] == d2;
    DiagCombine(op, d1, d2);
  }

  /** Combining diagonals entry-wise combines the diagonal matrices. */
  lemma {:induction false} DiagCombine(op: Op, d1: Vec, d2: Vec)
    requires |d1| == |d2|
    ensures DiagMat(VecOp(op, d1, d2)) == MatOp(op, DiagMat(d1), DiagMat(d2))
  {
    var n := |d1|;
    var D, R := DiagMat(VecOp(op, d1, d2)), MatOp(op, DiagMat(d1), DiagMat(d2));
    forall i | 0 <= i < n ensures D[i] == R[i] {
      forall j | 0 <= j < n ensures D[i][j] == R[i][j] { }
    }
  }
}
