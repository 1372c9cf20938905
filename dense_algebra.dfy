/**
 * Algebraic facts about the dense reference model that the product loops need: linearity of
 * `Dot`, moving a matrix from one side of a dot product to the other, and the symmetry of
 * `u . (B v)` for a symmetric `B`. Also the dense meaning of a diagonal matrix.
 */
module DenseAlgebra {
  import opened Dense

  /** The zero vector. */
  function Zeros(n: nat): (z: Vec)
    ensures |z| == n && forall i :: 0 <= i < n ==> z[i] == 0.0
  {
    seq(n, i requires 0 <= i < n => 0.0)
  }

  lemma {:induction false} DotZeros(x: Vec)
    ensures Dot(Zeros(|x|), x) == 0.0
    decreases |x|
  {
    if |x| > 0 {
      assert Zeros(|x|)[..|x| - 1] == Zeros(|x| - 1);
      DotZeros(x[..|x| - 1]);
    }
  }

  /** Raising entry `k` of `u` by `a` raises `u . x` by `a * x[k]`. */
  lemma {:induction false} DotBump(u: Vec, x: Vec, k: nat, a: real)
    requires |u| == |x| && k < |u|
    ensures Dot(u[k := u[k] + a], x) == Dot(u, x) + a * x[k]
    decreases |u|
  {
    var n := |u| - 1;
    var w := u[k := u[k] + a];
    if k == n {
      assert w[..n] == u[..n];
    } else {
      assert w[..n] == u[..n][k := u[k] + a];
      DotBump(u[..n], x[..n], k, a);
    }
  }

  lemma {:induction false} DotAdd(u: Vec, v: Vec, x: Vec)
    requires |u| == |v| == |x|
    ensures Dot(VecAdd(u, v), x) == Dot(u, x) + Dot(v, x)
    decreases |u|
  {
    if |u| > 0 {
      var n := |u| - 1;
      assert VecAdd(u, v)[..n] == VecAdd(u[..n], v[..n]);
      DotAdd(u[..n], v[..n], x[..n]);
    }
  }

  lemma {:induction false} DotScale(u: Vec, c: real, x: Vec)
    requires |u| == |x|
    ensures Dot(VecScale(u, c), x) == c * Dot(u, x)
    decreases |u|
  {
    if |u| > 0 {
      var n := |u| - 1;
      forall i | 0 <= i < n ensures VecScale(u, c)[..n][i] == VecScale(u[..n], c)[i] { }
      assert VecScale(u, c)[..n] == VecScale(u[..n], c);
      DotScale(u[..n], c, x[..n]);
    }
  }

  /** `u . (B v) == (u B) . v`: a matrix moves across a dot product. */
  lemma {:induction false} DotMatVec(u: Vec, B: Mat, v: Vec)
    requires IsMat(B, |u|, |v|)
    ensures Dot(u, MatVec(B, v)) == Dot(VecMat(u, B, |v|), v)
    decreases |u|
  {
    var n := |v|;
    if |u| == 0 {
      assert VecMat(u, B, n) == Zeros(n);
      DotZeros(v);
    } else {
      var r := |u| - 1;
      DotMatVec(u[..r], B[..r], v);
      MatVecPeel(u, B, v);
      VecMatPeel(u, B, v);
    }
  }

  /** The last row's share of `u . (B v)`. */
  lemma {:induction false} MatVecPeel(u: Vec, B: Mat, v: Vec)
    requires IsMat(B, |u|, |v|) && |u| > 0
    ensures var r := |u| - 1;
      IsMat(B[..r], r, |v|) &&
      Dot(u, MatVec(B, v)) == Dot(u[..r], MatVec(B[..r], v)) + u[r] * Dot(B[r], v)
  {
    var r := |u| - 1;
    assert MatVec(B, v)[..r] == MatVec(B[..r], v);
  }

  /** The last row's share of `(u B) . v`. */
  lemma {:induction false} VecMatPeel(u: Vec, B: Mat, v: Vec)
    requires IsMat(B, |u|, |v|) && |u| > 0
    ensures var r := |u| - 1;
      IsMat(B[..r], r, |v|) &&
      Dot(VecMat(u, B, |v|), v) == Dot(VecMat(u[..r], B[..r], |v|), v) + u[r] * Dot(B[r], v)
  {
    var r, n := |u| - 1, |v|;
    var W, S := VecMat(u[..r], B[..r], n), VecScale(B[r], u[r]);
    calc {
      Dot(VecMat(u, B, n), v);
    == { VecMatLastRow(u, B, n); }
      Dot(VecAdd(W, S), v);
    == { DotAdd(W, S, v); }
      Dot(W, v) + Dot(S, v);
    == { DotScale(B[r], u[r], v); }
      Dot(W, v) + u[r] * Dot(B[r], v);
    }
  }

  /** Peeling the last row off a product `u B`. */
  lemma {:induction false} VecMatLastRow(u: Vec, B: Mat, n: nat)
    requires IsMat(B, |u|, n) && |u| > 0
    ensures var r := |u| - 1;
      IsMat(B[..r], r, n) && |B[r]| == n &&
      VecMat(u, B, n) == VecAdd(VecMat(u[..r], B[..r], n), VecScale(B[r], u[r]))
  {
    var r := |u| - 1;
    var u', B' := u[..r], B[..r];
    forall c | 0 <= c < n
      ensures VecMat(u, B, n)[c] == VecAdd(VecMat(u', B', n), VecScale(B[r], u[r]))[c]
    {
      assert Col(B, c)[..r] == Col(B', c);
    }
  }

  /** For a symmetric `B`, `u B == B u`. */
  lemma {:induction false} VecMatSymmetric(u: Vec, B: Mat)
    requires IsSymmetric(B) && |u| == |B|
    ensures VecMat(u, B, |B|) == MatVec(B, u)
  {
    forall c | 0 <= c < |B| ensures VecMat(u, B, |B|)[c] == MatVec(B, u)[c] {
      assert Col(B, c) == B[c];
      DotCommutes(u, B[c]);
    }
  }

  /** For a symmetric `B`, `u . (B v) == v . (B u)`. */
  lemma {:induction false} BilinearSymmetric(u: Vec, B: Mat, v: Vec)
    requires IsSymmetric(B) && |u| == |v| == |B|
    ensures Dot(u, MatVec(B, v)) == Dot(v, MatVec(B, u))
  {
    DotMatVec(u, B, v);
    VecMatSymmetric(u, B);
    DotCommutes(MatVec(B, u), v);
  }

  /** Row `k` of a transpose read as a column. */
  lemma {:induction false} ColOfTranspose(A: Mat, n: nat, k: nat)
    requires IsMat(A, |A|, n) && k < |A|
    ensures Col(Transpose(A, n), k) == A[k]
  {
  }

  /** The dense matrix of `Matrix<Diagonal>` with diagonal `d`. */
  function DiagMat(d: Vec): (D: Mat)
    ensures IsMat(D, |d|, |d|) && IsSymmetric(D)
    ensures forall i, j :: 0 <= i < |d| && 0 <= j < |d| ==> D[i][j] == if i == j then d[i] else 0.0
  {
    seq(|d|, i requires 0 <= i < |d| => seq(|d|, j requires 0 <= j < |d| => if i == j then d[i] else 0.0))
  }

  /** Dotting with a vector that is zero except at `i` picks out entry `i`. */
  lemma {:induction false} DotUnit(u: Vec, c: Vec, i: nat)
    requires |u| == |c| && i < |c|
    requires forall j :: 0 <= j < |c| && j != i ==> c[j] == 0.0
    ensures Dot(u, c) == u[i] * c[i]
    decreases |u|
  {
    var n := |u| - 1;
    var u', c' := u[..n], c[..n];
    if i == n {
      assert c' == Zeros(n);
      DotCommutes(u', c');
      DotZeros(u');
    } else {
      DotUnit(u', c', i);
      assert c[n] == 0.0;
    }
  }

  /** Element `(i,i)` of a product with a diagonal right factor. */
  lemma {:induction false} DotDiagonal(u: Vec, d: Vec, i: nat)
    requires |u| == |d| && i < |d|
    ensures Dot(u, Col(DiagMat(d), i)) == u[i] * d[i]
  {
    var c := Col(DiagMat(d), i);
    forall j | 0 <= j < |c| && j != i ensures c[j] == 0.0 {
      assert c[j] == DiagMat(d)[j][i];
    }
    assert c[i] == DiagMat(d)[i][i];
    DotUnit(u, c, i);
  }

  /** Element-wise division by a nonzero scalar. */
  function VecDiv(a: Vec, alpha: real): (c: Vec)
    requires alpha != 0.0
    ensures |c| == |a| && forall i :: 0 <= i < |a| ==> c[i] == a[i] / alpha
  {
    seq(|a|, i requires 0 <= i < |a| => a[i] / alpha)
  }

  function MatDiv(A: Mat, alpha: real): (C: Mat)
    requires alpha != 0.0
    ensures SameShape(C, A)
    ensures forall i, j :: 0 <= i < |A| && 0 <= j < |A[i]| ==> C[i][j] == A[i][j] / alpha
  {
    seq(|A|, i requires 0 <= i < |A| => VecDiv(A[i], alpha))
  }

  /** Dividing by `alpha` undoes scaling by it. */
  lemma {:induction false} ScaleThenDivide(A: Mat, alpha: real)
    requires alpha != 0.0
    ensures MatDiv(MatScale(A, alpha), alpha) == A
  {
    var C := MatDiv(MatScale(A, alpha), alpha);
    forall i | 0 <= i < |A| ensures C[i] == A[i] {
      forall j | 0 <= j < |A[i]| ensures C[i][j] == A[i][j] {
        assert A[i][j] * alpha / alpha == A[i][j];
      }
    }
  }

  /** Negating twice gives the matrix back; negation is scaling by `-1`. */
  lemma {:induction false} NegInvolutive(A: Mat)
    ensures MatNeg(MatNeg(A)) == A && MatNeg(A) == MatScale(A, -1.0)
  {
    var C := MatNeg(MatNeg(A));
    forall i | 0 <= i < |A| ensures C[i] == A[i] && MatNeg(A)[i] == MatScale(A, -1.0)[i] { }
  }
}
