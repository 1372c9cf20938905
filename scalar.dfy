/**
 * Scalar multiplication, scalar division and negation of fmatvec/linear_algebra.h: the
 * value-returning `x * alpha`, `alpha * x`, `x / alpha`, `-x` and the in-place `*=`, `/=`
 * (and the move overloads, which run the in-place loop on their temporary).
 *
 * The three loops differ only in the scalar map applied to each entry, so `Scaling` names
 * the map. Division is by a nonzero scalar.
 */
module ScalarOps {
  import opened Dense
  import opened DenseAlgebra
  import opened Products

  /** The scalar map a loop applies to every entry it visits. */
  datatype Scaling = Times(alpha: real) | Over(alpha: real) | Negate

  predicate Defined(s: Scaling) {
    s.Over? ==> s.alpha != 0.0
  }

  function Map(s: Scaling, a: real): real
    requires Defined(s)
  {
    match s
    case Times(alpha) => a * alpha
    case Over(alpha) => a / alpha
    case Negate => -a
  }

  function VecMap(s: Scaling, x: Vec): (y: Vec)
    requires Defined(s)
    ensures |y| == |x| && forall i :: 0 <= i < |x| ==> y[i] == Map(s, x[i])
  {
    seq(|x|, i requires 0 <= i < |x| => Map(s, x[i]))
  }

  function MatMap(s: Scaling, A: Mat): (B: Mat)
    requires Defined(s)
    ensures SameShape(B, A)
    ensures forall i, j :: 0 <= i < |A| && 0 <= j < |A[i]| ==> B[i][j] == Map(s, A[i][j])
  {
    seq(|A|, i requires 0 <= i < |A| => VecMap(s, A[i]))
  }

  /** The three maps are the dense scaling, division and negation. */
  lemma {:induction false} VecMapMeaning(s: Scaling, x: Vec)
    requires Defined(s)
    ensures s.Times? ==> VecMap(s, x) == VecScale(x, s.alpha)
    ensures s.Over? ==> VecMap(s, x) == VecDiv(x, s.alpha)
    ensures s.Negate? ==> VecMap(s, x) == VecNeg(x)
  {
    var y := VecMap(s, x);
    if s.Times? {
      assert forall i :: 0 <= i < |x| ==> y[i] == VecScale(x, s.alpha)[i];
    } else if s.Over? {
      assert forall i :: 0 <= i < |x| ==> y[i] == VecDiv(x, s.alpha)[i];
    } else {
      assert forall i :: 0 <= i < |x| ==> y[i] == VecNeg(x)[i];
    }
  }

  lemma {:induction false} MatMapMeaning(s: Scaling, A: Mat)
    requires Defined(s)
    ensures s.Times? ==> MatMap(s, A) == MatScale(A, s.alpha)
    ensures s.Over? ==> MatMap(s, A) == MatDiv(A, s.alpha)
    ensures s.Negate? ==> MatMap(s, A) == MatNeg(A)
  {
    forall i | 0 <= i < |A|
      ensures s.Times? ==> MatMap(s, A)[i] == MatScale(A, s.alpha)[i]
      ensures s.Over? ==> MatMap(s, A)[i] == MatDiv(A, s.alpha)[i]
      ensures s.Negate? ==> MatMap(s, A)[i] == MatNeg(A)[i]
    {
      VecMapMeaning(s, A[i]);
    }
  }

  /** Dividing by `alpha` undoes multiplying by it, and negating twice changes nothing. */
  lemma {:induction false} VecMapUndo(x: Vec, alpha: real)
    requires alpha != 0.0
    ensures VecMap(Over(alpha), VecMap(Times(alpha), x)) == x
    ensures VecMap(Negate, VecMap(Negate, x)) == x
  {
    var y, z := VecMap(Over(alpha), VecMap(Times(alpha), x)), VecMap(Negate, VecMap(Negate, x));
    forall i | 0 <= i < |x| ensures y[i] == x[i] && z[i] == x[i] {
      assert x[i] * alpha / alpha == x[i];
    }
  }

  lemma {:induction false} MatMapUndo(A: Mat, alpha: real)
    requires alpha != 0.0
    ensures MatMap(Over(alpha), MatMap(Times(alpha), A)) == A
    ensures MatMap(Negate, MatMap(Negate, A)) == A
  {
    forall i | 0 <= i < |A|
      ensures MatMap(Over(alpha), MatMap(Times(alpha), A))[i] == A[i]
      ensures MatMap(Negate, MatMap(Negate, A))[i] == A[i]
    {
      VecMapUndo(A[i], alpha);
    }
  }

  // Vectors and row vectors.

  /** `x * alpha`, `alpha * x`, `x / alpha`, `-x`: a fresh vector of `x.size()` entries. */
  method MappedVec(s: Scaling, x: Vec) returns (y: Vec)
    requires Defined(s)
    ensures y == VecMap(s, x)
  {
    var arr := new real[|x|];
    var i := 0;
    while i < |x|
      invariant 0 <= i <= |x|
      invariant forall p :: 0 <= p < i ==> arr[p] == Map(s, x[p])
    {
      arr[i] := Map(s, x[i]);
      i := i + 1;
    }
    y := arr[..];
  }

  /** `x *= alpha`, `x /= alpha`, and the move forms of `*`, `/` and unary `-`. */
  method MapVecInPlace(s: Scaling, x: array<real>)
    requires Defined(s)
    modifies x
    ensures x[..] == VecMap(s, old(x[..]))
  {
    var i := 0;
    while i < x.Length
      invariant 0 <= i <= x.Length
      invariant forall p :: 0 <= p < i ==> x[p] == Map(s, old(x[p]))
      invariant forall p :: i <= p < x.Length ==> x[p] == old(x[p])
    {
      x[i] := Map(s, x[i]);
      i := i + 1;
    }
  }

  // General and square matrices.

  /** `A * alpha`, `alpha * A`, `A / alpha`, `-A`: a fresh `A.rows() x A.cols()` matrix. */
  method MappedMat(s: Scaling, A: Mat, m: nat, n: nat) returns (B: Mat)
    requires Defined(s) && IsMat(A, m, n)
    ensures B == MatMap(s, A)
  {
    var arr := new real[m, n];
    var i := 0;
    while i < m
      invariant 0 <= i <= m
      invariant forall p, q :: 0 <= p < i && 0 <= q < n ==> arr[p, q] == Map(s, A[p][q])
    {
      MapRow(s, A[i], arr, i, 0);
      i := i + 1;
    }
    B := Grid(arr);
    ghost var R := MatMap(s, A);
    forall p | 0 <= p < m ensures B[p] == R[p] {
      forall q | 0 <= q < n ensures B[p][q] == R[p][q] { }
    }
  }

  /** Row `i` of a matrix scaling loop, written from column `j0` on. */
  method MapRow(s: Scaling, r: Vec, B: array2<real>, i: nat, j0: nat)
    requires Defined(s) && |r| == B.Length1 && i < B.Length0 && j0 <= |r|
    modifies B
    ensures forall q :: j0 <= q < |r| ==> B[i, q] == Map(s, r[q])
    ensures forall p, q :: 0 <= p < B.Length0 && 0 <= q < B.Length1 && !(p == i && j0 <= q) ==>
      B[p, q] == old(B[p, q])
  {
    var j := j0;
    while j < |r|
      invariant j0 <= j <= |r|
      invariant forall q :: j0 <= q < j ==> B[i, q] == Map(s, r[q])
      invariant forall p, q :: 0 <= p < B.Length0 && 0 <= q < B.Length1 && !(p == i && j0 <= q < j) ==>
        B[p, q] == old(B[p, q])
    {
      B[i, j] := Map(s, r[j]);
      j := j + 1;
    }
  }

  /** `A *= alpha`, `A /= alpha`, and the move forms of `*`, `/` and unary `-`. */
  method MapMatInPlace(s: Scaling, A: array2<real>)
    requires Defined(s)
    modifies A
    ensures Grid(A) == MatMap(s, old(Grid(A)))
  {
    ghost var G := Grid(A);
    var i := 0;
    while i < A.Length0
      invariant 0 <= i <= A.Length0
      invariant forall p, q :: 0 <= p < i && 0 <= q < A.Length1 ==> A[p, q] == Map(s, G[p][q])
      invariant forall p, q :: i <= p < A.Length0 && 0 <= q < A.Length1 ==> A[p, q] == G[p][q]
    {
      MapRowInPlace(s, A, i, 0);
      i := i + 1;
    }
    ghost var R := MatMap(s, G);
    forall p | 0 <= p < A.Length0 ensures Grid(A)[p] == R[p] {
      forall q | 0 <= q < A.Length1 ensures Grid(A)[p][q] == R[p][q] { }
    }
  }

  /** Row `i` of an in-place scaling loop, from column `j0` on. */
  method MapRowInPlace(s: Scaling, A: array2<real>, i: nat, j0: nat)
    requires Defined(s) && i < A.Length0 && j0 <= A.Length1
    modifies A
    ensures forall q :: j0 <= q < A.Length1 ==> A[i, q] == Map(s, old(A[i, q]))
    ensures forall p, q :: 0 <= p < A.Length0 && 0 <= q < A.Length1 && !(p == i && j0 <= q) ==>
      A[p, q] == old(A[p, q])
  {
    var j := j0;
    while j < A.Length1
      invariant j0 <= j <= A.Length1
      invariant forall q :: j0 <= q < j ==> A[i, q] == Map(s, old(A[i, q]))
      invariant forall p, q :: 0 <= p < A.Length0 && 0 <= q < A.Length1 && !(p == i && j0 <= q < j) ==>
        A[p, q] == old(A[p, q])
    {
      A[i, j] := Map(s, A[i, j]);
      j := j + 1;
    }
  }

  // Symmetric matrices: only `ej(i,j)` for `j >= i` is read and written.

  /** Scaling the stored triangle scales the dense symmetric matrix. */
  lemma {:induction false} SymMapMeaning(s: Scaling, U: Mat, S: Mat, n: nat)
    requires Defined(s) && Triangle(U, n) && Triangle(S, n)
    requires forall i, j :: 0 <= i <= j < n ==> S[i][j] == Map(s, U[i][j])
    ensures SymUpper(S, n) == MatMap(s, SymUpper(U, n))
  {
    var D, R := SymUpper(S, n), MatMap(s, SymUpper(U, n));
    forall i | 0 <= i < n ensures D[i] == R[i] {
      forall j | 0 <= j < n ensures D[i][j] == R[i][j] {
        if j < i {
          assert S[j][i] == Map(s, U[j][i]);
        }
      }
    }
  }

  /** `alpha * A`, `A * alpha`, `A / alpha` for a symmetric `A`: a fresh symmetric matrix. */
  method MappedSym(s: Scaling, U: Mat, n: nat) returns (S: Mat)
    requires Defined(s) && IsMat(U, n, n)
    ensures Triangle(S, n)
    ensures SymUpper(S, n) == MatMap(s, SymUpper(U, n))
  {
    var arr := new real[n, n];
    var i := 0;
    while i < n
      invariant 0 <= i <= n
      invariant forall p, q :: 0 <= p < i && p <= q < n ==> arr[p, q] == Map(s, U[p][q])
    {
      MapRow(s, U[i], arr, i, i);
      i := i + 1;
    }
    S := Grid(arr);
    SymMapMeaning(s, U, S, n);
  }

  /** `A *= alpha`, `A /= alpha` for a symmetric `A`: the lower half is not touched. */
  method MapSymInPlace(s: Scaling, A: array2<real>, n: nat)
    requires Defined(s) && A.Length0 == n && A.Length1 == n
    modifies A
    ensures forall i, j :: 0 <= i <= j < n ==> A[i, j] == Map(s, old(A[i, j]))
    ensures forall i, j :: 0 <= j < i < n ==> A[i, j] == old(A[i, j])
    ensures SymUpper(Grid(A), n) == MatMap(s, SymUpper(old(Grid(A)), n))
  {
    ghost var G := Grid(A);
    var i := 0;
    while i < n
      invariant 0 <= i <= n
      invariant forall p, q :: 0 <= p < i && p <= q < n ==> A[p, q] == Map(s, G[p][q])
      invariant forall p, q :: 0 <= p < n && 0 <= q < n && !(p < i && p <= q) ==> A[p, q] == G[p][q]
    {
      MapRowInPlace(s, A, i, i);
      i := i + 1;
    }
    SymMapMeaning(s, G, Grid(A), n);
  }

  // Diagonal matrices.

  /** Scaling the diagonal scales the diagonal matrix. */
  lemma {:induction false} DiagMapMeaning(s: Scaling, d: Vec)
    requires Defined(s)
    ensures DiagMat(VecMap(s, d)) == MatMap(s, DiagMat(d))
  {
    var n := |d|;
    var D, R := DiagMat(VecMap(s, d)), MatMap(s, DiagMat(d));
    forall i | 0 <= i < n ensures D[i] == R[i] {
      forall j | 0 <= j < n ensures D[i][j] == R[i][j] {
        if i != j {
          assert Map(s, 0.0) == 0.0;
        }
      }
    }
  }

  /** `alpha * D`, `D * alpha`, `D / alpha` for a diagonal `D`: the loop runs over the diagonal. */
  method MappedDiag(s: Scaling, d: Vec) returns (e: Vec)
    requires Defined(s)
    ensures DiagMat(e) == MatMap(s, DiagMat(d))
  {
    e := MappedVec(s, d);
    DiagMapMeaning(s, d);
  }
}
