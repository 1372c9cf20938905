/**
 * The dense reference model every storage class and every loop below is stated against:
 * a vector is a sequence of reals, a matrix a sequence of rows, and an element of a product
 * is a `Dot` of a row and a column.
 */
module Dense {
  type Vec = seq<real>
  type Mat = seq<seq<real>>

  /** `A` has `m` rows of `n` entries each. */
  predicate IsMat(A: Mat, m: nat, n: nat) {
    |A| == m && forall i :: 0 <= i < m ==> |A[i]| == n
  }

  /** Sum of `u[j] * v[j]`, accumulated from index 0 upwards as the loops of the library do. */
  function Dot(u: Vec, v: Vec): real
    requires |u| == |v|
  {
    if |u| == 0 then 0.0 else Dot(u[..|u| - 1], v[..|v| - 1]) + u[|u| - 1] * v[|v| - 1]
  }

  /** One more step of an accumulation loop. */
  lemma {:induction false} DotStep(u: Vec, v: Vec, j: nat)
    requires |u| == |v| && j < |u|
    ensures Dot(u[..j + 1], v[..j + 1]) == Dot(u[..j], v[..j]) + u[j] * v[j]
  {
    assert u[..j + 1][..j] == u[..j];
    assert v[..j + 1][..j] == v[..j];
  }

  /** `DotStep` with the two entries as the loop reads them. */
  lemma {:induction false} DotStepWith(u: Vec, v: Vec, j: nat, a: real, b: real)
    requires |u| == |v| && j < |u| && u[j] == a && v[j] == b
    ensures Dot(u[..j + 1], v[..j + 1]) == Dot(u[..j], v[..j]) + a * b
  {
    DotStep(u, v, j);
  }

  /** Splitting a dot product into a prefix and a suffix. */
  lemma {:induction false} DotAppend(u1: Vec, u2: Vec, v1: Vec, v2: Vec)
    requires |u1| == |v1| && |u2| == |v2|
    ensures Dot(u1 + u2, v1 + v2) == Dot(u1, v1) + Dot(u2, v2)
    decreases |u2|
  {
    if |u2| == 0 {
      assert u1 + u2 == u1;
      assert v1 + v2 == v1;
    } else {
      var n2 := |u2| - 1;
      assert (u1 + u2)[..|u1 + u2| - 1] == u1 + u2[..n2];
      assert (v1 + v2)[..|v1 + v2| - 1] == v1 + v2[..n2];
      DotAppend(u1, u2[..n2], v1, v2[..n2]);
    }
  }

  lemma {:induction false} DotCommutes(u: Vec, v: Vec)
    requires |u| == |v|
    ensures Dot(u, v) == Dot(v, u)
    decreases |u|
  {
    if |u| > 0 {
      DotCommutes(u[..|u| - 1], v[..|v| - 1]);
    }
  }

  /** Column `j` of `A`. */
  function Col(A: Mat, j: nat): (c: Vec)
    requires forall i :: 0 <= i < |A| ==> j < |A[i]|
    ensures |c| == |A| && forall i :: 0 <= i < |A| ==> c[i] == A[i][j]
  {
    seq(|A|, i requires 0 <= i < |A| => A[i][j])
  }

  /** The `n x m` transpose of an `m x n` matrix. */
  function Transpose(A: Mat, n: nat): (T: Mat)
    requires IsMat(A, |A|, n)
    ensures IsMat(T, n, |A|)
    ensures forall i, j :: 0 <= i < n && 0 <= j < |A| ==> T[i][j] == A[j][i]
  {
    seq(n, j requires 0 <= j < n => Col(A, j))
  }

  lemma {:induction false} TransposeTwice(A: Mat, n: nat)
    requires IsMat(A, |A|, n)
    ensures Transpose(Transpose(A, n), |A|) == A
  {
    var T := Transpose(Transpose(A, n), |A|);
    assert |T| == |A|;
    forall i | 0 <= i < |A| ensures T[i] == A[i] {
      assert |T[i]| == |A[i]|;
    }
  }

  /** Matrix times column vector. */
  function MatVec(A: Mat, x: Vec): (y: Vec)
    requires IsMat(A, |A|, |x|)
    ensures |y| == |A| && forall i :: 0 <= i < |A| ==> y[i] == Dot(A[i], x)
  {
    seq(|A|, i requires 0 <= i < |A| => Dot(A[i], x))
  }

  /** Row vector times matrix: entry `i` is `x` dotted with column `i`. */
  function VecMat(x: Vec, A: Mat, n: nat): (y: Vec)
    requires IsMat(A, |x|, n)
    ensures |y| == n && forall i :: 0 <= i < n ==> y[i] == Dot(x, Col(A, i))
  {
    seq(n, i requires 0 <= i < n => Dot(x, Col(A, i)))
  }

  /** `A` (rows of length |B|) times the `|B| x k` matrix `B`. */
  function MatMul(A: Mat, B: Mat, k: nat): (C: Mat)
    requires IsMat(A, |A|, |B|) && IsMat(B, |B|, k)
    ensures IsMat(C, |A|, k)
    ensures forall i, c :: 0 <= i < |A| && 0 <= c < k ==> C[i][c] == Dot(A[i], Col(B, c))
  {
    seq(|A|, i requires 0 <= i < |A| => seq(k, c requires 0 <= c < k => Dot(A[i], Col(B, c))))
  }

  /** Column `c` of a product is the left factor applied to column `c` of the right one. */
  lemma {:induction false} MatMulColumn(A: Mat, B: Mat, k: nat, c: nat)
    requires IsMat(A, |A|, |B|) && IsMat(B, |B|, k) && c < k
    ensures Col(MatMul(A, B, k), c) == MatVec(A, Col(B, c))
  {
  }

  /** A Gram matrix `A^T A` is symmetric. */
  lemma {:induction false} GramSymmetric(A: Mat, n: nat, i: nat, k: nat)
    requires IsMat(A, |A|, n) && i < n && k < n
    ensures MatMul(Transpose(A, n), A, n)[i][k] == MatMul(Transpose(A, n), A, n)[k][i]
  {
    DotCommutes(Col(A, i), Col(A, k));
  }

  predicate IsSymmetric(A: Mat) {
    IsMat(A, |A|, |A|) && forall i, j :: 0 <= i < |A| && 0 <= j < |A| ==> A[i][j] == A[j][i]
  }

  // Element-wise operations.

  function VecAdd(a: Vec, b: Vec): (c: Vec)
    requires |a| == |b|
    ensures |c| == |a| && forall i :: 0 <= i < |a| ==> c[i] == a[i] + b[i]
  {
    seq(|a|, i requires 0 <= i < |a| => a[i] + b[i])
  }

  function VecSub(a: Vec, b: Vec): (c: Vec)
    requires |a| == |b|
    ensures |c| == |a| && forall i :: 0 <= i < |a| ==> c[i] == a[i] - b[i]
  {
    seq(|a|, i requires 0 <= i < |a| => a[i] - b[i])
  }

  function VecScale(a: Vec, alpha: real): (c: Vec)
    ensures |c| == |a| && forall i :: 0 <= i < |a| ==> c[i] == a[i] * alpha
  {
    seq(|a|, i requires 0 <= i < |a| => a[i] * alpha)
  }

  function VecNeg(a: Vec): (c: Vec)
    ensures |c| == |a| && forall i :: 0 <= i < |a| ==> c[i] == -a[i]
  {
    seq(|a|, i requires 0 <= i < |a| => -a[i])
  }

  predicate SameShape(A: Mat, B: Mat) {
    |A| == |B| && forall i :: 0 <= i < |A| ==> |A[i]| == |B[i]|
  }

  function MatAdd(A: Mat, B: Mat): (C: Mat)
    requires SameShape(A, B)
    ensures SameShape(C, A)
    ensures forall i, j :: 0 <= i < |A| && 0 <= j < |A[i]| ==> C[i][j] == A[i][j] + B[i][j]
  {
    seq(|A|, i requires 0 <= i < |A| => VecAdd(A[i], B[i]))
  }

  function MatSub(A: Mat, B: Mat): (C: Mat)
    requires SameShape(A, B)
    ensures SameShape(C, A)
    ensures forall i, j :: 0 <= i < |A| && 0 <= j < |A[i]| ==> C[i][j] == A[i][j] - B[i][j]
  {
    seq(|A|, i requires 0 <= i < |A| => VecSub(A[i], B[i]))
  }

  function MatScale(A: Mat, alpha: real): (C: Mat)
    ensures SameShape(C, A)
    ensures forall i, j :: 0 <= i < |A| && 0 <= j < |A[i]| ==> C[i][j] == A[i][j] * alpha
  {
    seq(|A|, i requires 0 <= i < |A| => VecScale(A[i], alpha))
  }

  function MatNeg(A: Mat): (C: Mat)
    ensures SameShape(C, A)
    ensures forall i, j :: 0 <= i < |A| && 0 <= j < |A[i]| ==> C[i][j] == -A[i][j]
  {
    seq(|A|, i requires 0 <= i < |A| => VecNeg(A[i]))
  }

  /** Subtraction undoes addition. */
  lemma {:induction false} AddThenSub(A: Mat, B: Mat)
    requires SameShape(A, B)
    ensures MatSub(MatAdd(A, B), B) == A
  {
    var C := MatSub(MatAdd(A, B), B);
    forall i | 0 <= i < |A| ensures C[i] == A[i] { }
  }

  /** The `n x n` identity scaled by `a`, and the constant matrix. */
  function Eye(m: nat, n: nat, a: real): (E: Mat)
    ensures IsMat(E, m, n)
    ensures forall i, j :: 0 <= i < m && 0 <= j < n ==> E[i][j] == if i == j then a else 0.0
  {
    seq(m, i requires 0 <= i < m => seq(n, j requires 0 <= j < n => if i == j then a else 0.0))
  }

  function Const(m: nat, n: nat, a: real): (K: Mat)
    ensures IsMat(K, m, n)
    ensures forall i, j :: 0 <= i < m && 0 <= j < n ==> K[i][j] == a
  {
    seq(m, i requires 0 <= i < m => seq(n, j requires 0 <= j < n => a))
  }

  /** Two matrices of the same shape with the same entries are equal. */
  lemma {:induction false} MatEq(A: Mat, B: Mat, m: nat, n: nat)
    requires IsMat(A, m, n) && IsMat(B, m, n)
    requires forall i, j :: 0 <= i < m && 0 <= j < n ==> A[i][j] == B[i][j]
    ensures A == B
  {
    forall i | 0 <= i < m ensures A[i] == B[i] { }
  }

  // Block and line updates, the reference meaning of `set`, `add` and submatrix extraction.

  /** The `m x n` block of `A` whose top left entry is `A[r0][c0]`. */
  function Block(A: Mat, r0: nat, c0: nat, m: nat, n: nat): (B: Mat)
    requires r0 + m <= |A| && forall i :: r0 <= i < r0 + m ==> c0 + n <= |A[i]|
    ensures IsMat(B, m, n)
    ensures forall i, j :: 0 <= i < m && 0 <= j < n ==> B[i][j] == A[r0 + i][c0 + j]
  {
    seq(m, i requires 0 <= i < m => seq(n, j requires 0 <= j < n => A[r0 + i][c0 + j]))
  }

  /** Row `r` with the entries from `c0` on replaced by `b` (when `add`, increased by `b`). */
  function WithSlice(r: Vec, c0: nat, b: Vec, add: bool): (s: Vec)
    requires c0 + |b| <= |r|
    ensures |s| == |r|
    ensures forall j :: 0 <= j < |r| ==>
      s[j] == if c0 <= j < c0 + |b| then (if add then r[j] + b[j - c0] else b[j - c0]) else r[j]
  {
    seq(|r|, j requires 0 <= j < |r| =>
      if c0 <= j < c0 + |b| then (if add then r[j] + b[j - c0] else b[j - c0]) else r[j])
  }

  /** `A` with the block at `(r0, c0)` replaced by `B` (when `add`, increased by `B`). */
  function WithBlock(A: Mat, r0: nat, c0: nat, B: Mat, add: bool): (C: Mat)
    requires r0 + |B| <= |A| && forall k :: 0 <= k < |B| ==> c0 + |B[k]| <= |A[r0 + k]|
    ensures |C| == |A|
    ensures forall i :: 0 <= i < |A| ==>
      C[i] == if r0 <= i < r0 + |B| then WithSlice(A[i], c0, B[i - r0], add) else A[i]
  {
    seq(|A|, i requires 0 <= i < |A| =>
      if r0 <= i < r0 + |B| then WithSlice(A[i], c0, B[i - r0], add) else A[i])
  }

  /** `A` with the rows `lo..hi-1` taken from `C`: a block write part-way through its rows. */
  function Overlay(A: Mat, C: Mat, lo: nat, hi: nat): (D: Mat)
    requires |C| == |A|
    ensures |D| == |A|
  {
    seq(|A|, p requires 0 <= p < |A| => if lo <= p < hi then C[p] else A[p])
  }

  /** One more row of `C`; with every row of the block taken, the overlay is `C`. */
  lemma {:induction false} OverlayStep(A: Mat, C: Mat, lo: nat, i: nat)
    requires |C| == |A| && lo <= i < |A|
    ensures Overlay(A, C, lo, i)[i := C[i]] == Overlay(A, C, lo, i + 1)
    ensures Overlay(A, C, lo, i)[i] == A[i]
  {
  }

  lemma {:induction false} OverlayDone(A: Mat, C: Mat, lo: nat, hi: nat)
    requires |C| == |A| && lo <= hi <= |A|
    requires forall p :: 0 <= p < |A| && !(lo <= p < hi) ==> C[p] == A[p]
    ensures Overlay(A, C, lo, hi) == C
  {
  }

  /** Writing row `i` of the block moves the overlay on by one row. */
  lemma {:induction false} WithBlockStep(A: Mat, r0: nat, c0: nat, B: Mat, add: bool, i: nat)
    requires r0 + |B| <= |A| && forall k :: 0 <= k < |B| ==> c0 + |B[k]| <= |A[r0 + k]|
    requires r0 <= i < r0 + |B|
    ensures var C := WithBlock(A, r0, c0, B, add); var D := Overlay(A, C, r0, i);
      c0 + |B[i - r0]| <= |D[i]| &&
      D[i := WithSlice(D[i], c0, B[i - r0], add)] == Overlay(A, C, r0, i + 1)
  {
    var C := WithBlock(A, r0, c0, B, add);
    OverlayStep(A, C, r0, i);
  }

  /** `A` with column `j` replaced by `x` (when `add`, increased by `x`). */
  function WithColumn(A: Mat, j: nat, x: Vec, add: bool): (C: Mat)
    requires |x| == |A| && forall i :: 0 <= i < |A| ==> j < |A[i]|
    ensures SameShape(C, A)
    ensures forall i, q :: 0 <= i < |A| && 0 <= q < |A[i]| ==>
      C[i][q] == if q == j then (if add then A[i][q] + x[i] else x[i]) else A[i][q]
  {
    seq(|A|, i requires 0 <= i < |A| => A[i][j := if add then A[i][j] + x[i] else x[i]])
  }

  /** `A` with row `i` replaced by `x` (when `add`, increased by `x`). */
  function WithRow(A: Mat, i: nat, x: Vec, add: bool): (C: Mat)
    requires i < |A| && |x| == |A[i]|
    ensures SameShape(C, A)
    ensures forall p, q :: 0 <= p < |A| && 0 <= q < |A[p]| ==>
      C[p][q] == if p == i then (if add then A[p][q] + x[q] else x[q]) else A[p][q]
  {
    A[i := if add then VecAdd(A[i], x) else x]
  }

  /** Writing a block and reading it back gives the block. */
  lemma {:induction false} BlockOfWithBlock(A: Mat, r0: nat, c0: nat, B: Mat, n: nat)
    requires IsMat(B, |B|, n) && r0 + |B| <= |A| && forall i :: r0 <= i < r0 + |B| ==> c0 + n <= |A[i]|
    ensures Block(WithBlock(A, r0, c0, B, false), r0, c0, |B|, n) == B
  {
    var C := WithBlock(A, r0, c0, B, false);
    MatEq(Block(C, r0, c0, |B|, n), B, |B|, n);
  }

  // Symmetric matrices.

  /** The `n x n` symmetric matrix whose upper triangle (`j >= i`) is that of `A`. */
  function SymUpper(A: Mat, n: nat): (S: Mat)
    requires n <= |A| && forall i :: 0 <= i < n ==> n <= |A[i]|
    ensures IsMat(S, n, n) && IsSymmetric(S)
    ensures forall i, j :: 0 <= i < n && 0 <= j < n ==> S[i][j] == if j >= i then A[i][j] else A[j][i]
  {
    seq(n, i requires 0 <= i < n => seq(n, j requires 0 <= j < n => if j >= i then A[i][j] else A[j][i]))
  }

  /** A symmetric matrix is determined by its upper triangle. */
  lemma {:induction false} SymUpperOfSymmetric(A: Mat)
    requires IsSymmetric(A)
    ensures SymUpper(A, |A|) == A
  {
    MatEq(SymUpper(A, |A|), A, |A|, |A|);
  }

  /** `A` with both mirror entries `(i,j)` and `(j,i)` set to `v`. */
  function SetSym(A: Mat, i: nat, j: nat, v: real): (B: Mat)
    requires IsMat(A, |A|, |A|) && i < |A| && j < |A|
    ensures IsMat(B, |A|, |A|)
    ensures forall p, q :: 0 <= p < |A| && 0 <= q < |A| ==>
      B[p][q] == if (p == i && q == j) || (p == j && q == i) then v else A[p][q]
  {
    seq(|A|, p requires 0 <= p < |A| => seq(|A|, q requires 0 <= q < |A| =>
      if (p == i && q == j) || (p == j && q == i) then v else A[p][q]))
  }

  /** Two symmetric matrices that agree on and above the diagonal are equal. */
  lemma {:induction false} UpperDetermines(A: Mat, B: Mat)
    requires IsSymmetric(A) && IsSymmetric(B) && |A| == |B|
    requires forall p, q :: 0 <= p <= q < |A| ==> A[p][q] == B[p][q]
    ensures A == B
  {
    forall p, q | 0 <= p < |A| && 0 <= q < |A| ensures A[p][q] == B[p][q] {
      if q < p {
        assert A[p][q] == A[q][p] && B[p][q] == B[q][p];
      }
    }
    MatEq(A, B, |A|, |A|);
  }
}
