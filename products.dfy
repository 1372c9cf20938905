/**
 * The `mult` loops of fmatvec/linear_algebra.h and the `operator*` forms built on them.
 *
 * Read-only operands are values: a general matrix is a `Mat`, a vector a `Vec`, a diagonal
 * matrix its diagonal, a sparse matrix a `Csr`. A symmetric operand is the triangle it
 * stores: `U[i][j]` for `i <= j` is `ej(i,j)` and also `ei(j,i)`; its dense meaning is
 * `SymUpper(U, n)`. The output of a three-argument `mult` is an array the loop writes, and
 * every postcondition ties that array to the dense reference product.
 */
module Products {
  import opened Dense
  import opened DenseAlgebra
  import opened Sparse

  /** A symmetric operand of size `n`: its upper triangle can be read. */
  predicate Triangle(U: Mat, n: nat) {
    n <= |U| && forall i :: 0 <= i < n ==> n <= |U[i]|
  }

  /** The matrix an output array holds, row by row. */
  function Grid(a: array2<real>): (G: Mat)
    reads a
    ensures IsMat(G, a.Length0, a.Length1)
    ensures forall i, k :: 0 <= i < a.Length0 && 0 <= k < a.Length1 ==> G[i][k] == a[i, k]
  {
    seq(a.Length0, i requires 0 <= i < a.Length0 reads a =>
      seq(a.Length1, k requires 0 <= k < a.Length1 reads a => a[i, k]))
  }

  /** Column `k` of an output array. */
  ghost function ColumnOf(a: array2<real>, k: nat): (c: Vec)
    requires k < a.Length1
    reads a
    ensures |c| == a.Length0 && forall p :: 0 <= p < a.Length0 ==> c[p] == a[p, k]
  {
    seq(a.Length0, p requires 0 <= p < a.Length0 reads a => a[p, k])
  }

  // The accumulation loops `s += u[j] * v[j]`.

  /** `for j < |u|: s += u[j] * v[j]`, started from zero. */
  method Accumulate(u: Vec, v: Vec) returns (s: real)
    requires |u| == |v|
    ensures s == Dot(u, v)
  {
    s := 0.0;
    var j := 0;
    while j < |u|
      invariant 0 <= j <= |u|
      invariant s == Dot(u[..j], v[..j])
    {
      DotStep(u, v, j);
      s := s + u[j] * v[j];
      j := j + 1;
    }
    assert u[..j] == u && v[..j] == v;
  }

  /**
   * Row `i` of a symmetric matrix times `v`: `ei(i,j) = U[j][i]` for `j < i`, then
   * `ej(i,j) = U[i][j]` for `j >= i`. The same two loops, read as `ej(j,i)` and `ei(j,i)`,
   * are the row-vector product's column `i`.
   */
  method SymRowDot(U: Mat, n: nat, i: nat, v: Vec) returns (s: real)
    requires Triangle(U, n) && i < n && |v| == n
    ensures s == Dot(SymRow(U, n, i), v)
  {
    ghost var r := SymRow(U, n, i);
    s := 0.0;
    var j := 0;
    while j < i
      invariant 0 <= j <= i
      invariant s == Dot(r[..j], v[..j])
    {
      DotStep(r, v, j);
      s := s + U[j][i] * v[j];
      j := j + 1;
    }
    while j < n
      invariant i <= j <= n
      invariant s == Dot(r[..j], v[..j])
    {
      DotStep(r, v, j);
      s := s + U[i][j] * v[j];
      j := j + 1;
    }
    assert r[..j] == r && v[..j] == v;
  }

  /** Row `i` of a symmetric matrix as the loops read it from the stored triangle. */
  function SymRow(U: Mat, n: nat, i: nat): (r: Vec)
    requires Triangle(U, n) && i < n
    ensures |r| == n && forall j :: 0 <= j < n ==> r[j] == if j < i then U[j][i] else U[i][j]
  {
    seq(n, j requires 0 <= j < n => if j < i then U[j][i] else U[i][j])
  }

  lemma {:induction false} SymRowIsRow(U: Mat, n: nat, i: nat)
    requires Triangle(U, n) && i < n
    ensures SymRow(U, n, i) == SymUpper(U, n)[i]
  {
    var r, S := SymRow(U, n, i), SymUpper(U, n);
    forall j | 0 <= j < n ensures r[j] == S[i][j] { }
  }

  /** Row `i` of a compressed sparse matrix times `v`: `s += A()[j] * v[Jp()[j]]`. */
  method SparseRowDot(A: Csr, i: nat, v: Vec) returns (s: real)
    requires WellFormed(A) && i < A.rows && |v| == A.cols
    ensures s == Dot(CsrDense(A)[i], v)
  {
    CsrDenseRow(A, i);
    s := 0.0;
    var j := A.Ip[i];
    while j < A.Ip[i + 1]
      invariant A.Ip[i] <= j <= A.Ip[i + 1]
      invariant s == SparseDot(A, A.Ip[i], j, v)
    {
      s := s + A.val[j] * v[A.Jp[j]];
      j := j + 1;
    }
    SparseDotIsDot(A, A.Ip[i], A.Ip[i + 1], v);
  }

  /** Column `i` of a symmetric matrix dotted with `x` is what the row loops compute. */
  lemma {:induction false} SymColDot(U: Mat, n: nat, i: nat, x: Vec)
    requires Triangle(U, n) && i < n && |x| == n
    ensures Dot(x, Col(SymUpper(U, n), i)) == Dot(SymRow(U, n, i), x)
  {
    SymColIsRow(U, n, i);
    SymRowIsRow(U, n, i);
    DotCommutes(SymRow(U, n, i), x);
  }

  /** A column of a symmetric matrix is its row. */
  lemma {:induction false} SymColIsRow(U: Mat, n: nat, i: nat)
    requires Triangle(U, n) && i < n
    ensures Col(SymUpper(U, n), i) == SymUpper(U, n)[i]
  {
  }

  // Matrix times vector, `mult(A, x, y)`.

  /** General: `y(i) = sum_j A(i,j) x(j)` for every `i < y.size()`. */
  method MultMatVec(A: Mat, x: Vec, y: array<real>)
    requires IsMat(A, |A|, |x|) && y.Length <= |A|
    modifies y
    ensures forall i :: 0 <= i < y.Length ==> y[i] == Dot(A[i], x)
  {
    var i := 0;
    while i < y.Length
      invariant 0 <= i <= y.Length
      invariant forall p :: 0 <= p < i ==> y[p] == Dot(A[p], x)
    {
      y[i] := Accumulate(A[i], x);
      i := i + 1;
    }
  }

  /** Symmetric: each row reads the stored triangle on both sides of the diagonal. */
  method MultSymVec(U: Mat, n: nat, x: Vec, y: array<real>)
    requires Triangle(U, n) && |x| == n && y.Length <= n
    modifies y
    ensures forall i :: 0 <= i < y.Length ==> y[i] == Dot(SymUpper(U, n)[i], x)
  {
    var i := 0;
    while i < y.Length
      invariant 0 <= i <= y.Length
      invariant forall p :: 0 <= p < i ==> y[p] == Dot(SymUpper(U, n)[p], x)
    {
      y[i] := SymRowDot(U, n, i, x);
      SymRowIsRow(U, n, i);
      i := i + 1;
    }
  }

  /** Compressed sparse: `y(i)` sums `A()[j] x(Jp()[j])` over the entries of row `i`. */
  method MultCsrVec(A: Csr, x: Vec, y: array<real>)
    requires WellFormed(A) && |x| == A.cols && y.Length <= A.rows
    modifies y
    ensures forall i :: 0 <= i < y.Length ==> y[i] == Dot(CsrDense(A)[i], x)
  {
    var i := 0;
    while i < y.Length
      invariant 0 <= i <= y.Length
      invariant forall p :: 0 <= p < i ==> y[p] == Dot(CsrDense(A)[p], x)
    {
      y[i] := SparseRowDot(A, i, x);
      i := i + 1;
    }
  }

  /** Where the second loop of the symmetric sparse product starts row `i`. */
  function Start(A: Csr, i: nat): (j: nat)
    requires SymWellFormed(A) && i <= A.rows
    ensures i < A.rows ==> A.Ip[i] + 1 <= j <= A.Ip[i + 1]
    ensures i == A.rows ==> j == 0
  {
    if i < A.rows then A.Ip[i] + 1 else 0
  }

  /** What the first loop writes: `A()[Ip[i]] x(Jp[Ip[i]])` at every `i`. */
  function FirstProducts(A: Csr, x: Vec): (w: Vec)
    requires SymWellFormed(A) && |x| == A.rows
    ensures |w| == A.rows
    ensures forall p :: 0 <= p < A.rows ==> w[p] == A.val[A.Ip[p]] * x[A.Jp[A.Ip[p]]]
  {
    seq(A.rows, p requires 0 <= p < A.rows => A.val[A.Ip[p]] * x[A.Jp[A.Ip[p]]])
  }

  /**
   * The vector the symmetric sparse loops hold once they reach entry `j` of row `i`: the first
   * loop's products, then `Twice` for every later entry of rows `0..i-1` and of row `i` below `j`.
   */
  function Run(A: Csr, x: Vec, i: nat, j: nat): (w: Vec)
    requires SymWellFormed(A) && |x| == A.rows && i <= A.rows
    requires i < A.rows ==> A.Ip[i] + 1 <= j <= A.Ip[i + 1]
    requires i == A.rows ==> j == 0
    ensures |w| == A.rows
    decreases i, j
  {
    if i < A.rows && j > A.Ip[i] + 1 then
      assert A.Ip[i + 1] <= A.Ip[A.rows];
      Twice(Run(A, x, i, j - 1), x, i, A.Jp[j - 1], A.val[j - 1])
    else if i == 0 then FirstProducts(A, x)
    else Run(A, x, i - 1, A.Ip[i])
  }

  /** One step of the second loop is one `Twice`. */
  lemma {:induction false} RunStep(A: Csr, x: Vec, i: nat, j: nat)
    requires SymWellFormed(A) && |x| == A.rows && i < A.rows && A.Ip[i] + 1 <= j < A.Ip[i + 1]
    ensures A.Jp[j] < A.rows
    ensures Run(A, x, i, j + 1) == Twice(Run(A, x, i, j), x, i, A.Jp[j], A.val[j])
  {
    assert A.Ip[i + 1] <= A.Ip[A.rows];
  }

  /** The loops' state is the product with the partially applied matrix. */
  lemma {:induction false} RunIsPartial(A: Csr, x: Vec, i: nat, j: nat)
    requires SymWellFormed(A) && |x| == A.rows && i <= A.rows
    requires i < A.rows ==> A.Ip[i] + 1 <= j <= A.Ip[i + 1]
    requires i == A.rows ==> j == 0
    ensures Run(A, x, i, j) == MatVec(Partial(A, i, j), x)
    decreases i, j, 1
  {
    if i < A.rows && j > A.Ip[i] + 1 {
      RunEntry(A, x, i, j);
    } else if i == 0 {
      RunFirst(A, x, j);
    } else {
      RunNextRow(A, x, i, j);
    }
  }

  /** A later entry of row `i`: one more `Twice` on both sides. */
  lemma {:induction false} RunEntry(A: Csr, x: Vec, i: nat, j: nat)
    requires SymWellFormed(A) && |x| == A.rows && i < A.rows
    requires A.Ip[i] + 1 < j <= A.Ip[i + 1]
    ensures Run(A, x, i, j) == MatVec(Partial(A, i, j), x)
    decreases i, j, 0
  {
    RunIsPartial(A, x, i, j - 1);
    ApplyEntry(A, x, i, j, Run(A, x, i, j - 1));
  }

  /** The first loop's products. */
  lemma {:induction false} RunFirst(A: Csr, x: Vec, j: nat)
    requires SymWellFormed(A) && |x| == A.rows
    requires A.rows > 0 ==> j == A.Ip[0] + 1
    requires A.rows == 0 ==> j == 0
    ensures Run(A, x, 0, j) == MatVec(Partial(A, 0, j), x)
  {
    assert Run(A, x, 0, j) == FirstProducts(A, x);
    FirstColumn(A, x, j);
  }

  /** Starting row `i` is finishing row `i - 1`. */
  lemma {:induction false} RunNextRow(A: Csr, x: Vec, i: nat, j: nat)
    requires SymWellFormed(A) && |x| == A.rows && 0 < i <= A.rows
    requires i < A.rows ==> j == A.Ip[i] + 1
    requires i == A.rows ==> j == 0
    ensures Run(A, x, i, j) == MatVec(Partial(A, i, j), x)
    decreases i, j, 0
  {
    RunIsPartial(A, x, i - 1, A.Ip[i]);
    NextRow(A, i, j);
  }

  /** The first loop's products are the product with the matrix the second loop starts from. */
  lemma {:induction false} FirstColumn(A: Csr, x: Vec, j: nat)
    requires SymWellFormed(A) && |x| == A.rows
    requires A.rows > 0 ==> j == A.Ip[0] + 1
    requires A.rows == 0 ==> j == 0
    ensures FirstProducts(A, x) == MatVec(Partial(A, 0, j), x)
  {
    var c := FirstProducts(A, x);
    if A.rows > 0 {
      var F := FirstOnly(A);
      forall p | 0 <= p < A.rows ensures c[p] == MatVec(F, x)[p] {
        FirstOnlyRow(A, x, p);
      }
      assert c == MatVec(F, x);
      StartIsFirstOnly(A);
    } else {
      assert c == [] == MatVec(Partial(A, 0, 0), x);
    }
  }

  /** The effect of entry `j - 1` on the product, stated on the values. */
  lemma {:induction false} ApplyEntry(A: Csr, x: Vec, i: nat, j: nat, w: Vec)
    requires SymWellFormed(A) && |x| == A.rows && i < A.rows
    requires A.Ip[i] + 1 < j <= A.Ip[i + 1]
    requires w == MatVec(Partial(A, i, j - 1), x)
    ensures A.Jp[j - 1] < |w|
    ensures Twice(w, x, i, A.Jp[j - 1], A.val[j - 1]) == MatVec(Partial(A, i, j), x)
  {
    assert A.Ip[i + 1] <= A.Ip[A.rows];
    PartialStep(A, i, j);
    BumpTwice(Partial(A, i, j - 1), x, i, A.Jp[j - 1], A.val[j - 1], w);
  }

  /** Bumping `(i,c)` and then `(c,i)` by `v` bumps the product at `i` and then at `c`. */
  lemma {:induction false} BumpTwice(D: Mat, x: Vec, i: nat, c: nat, v: real, w: Vec)
    requires IsMat(D, |D|, |x|) && i < |D| && c < |D| && i < |x| && c < |x|
    requires w == MatVec(D, x)
    ensures Twice(w, x, i, c, v) == MatVec(Bump(Bump(D, i, c, v), c, i, v), x)
  {
    MatVecBump(D, i, c, v, x);
    MatVecBump(Bump(D, i, c, v), c, i, v, x);
  }

  /** `w` after `w(i) += v x(c)` and then `w(c) += v x(i)`. */
  function Twice(w: Vec, x: Vec, i: nat, c: nat, v: real): (r: Vec)
    requires i < |w| && c < |w| && i < |x| && c < |x|
    ensures |r| == |w|
    ensures forall p :: 0 <= p < |w| ==>
      r[p] == w[p] + (if p == i then v * x[c] else 0.0) + (if p == c then v * x[i] else 0.0)
  {
    var w1 := w[i := w[i] + v * x[c]];
    w1[c := w1[c] + v * x[i]]
  }

  /** The first loop: `y(i) = A()[Ip[i]] x(Jp[Ip[i]])`. */
  method SymSparseFirst(A: Csr, x: Vec, y: array<real>)
    requires SymWellFormed(A) && |x| == A.rows && y.Length == A.rows
    modifies y
    ensures y[..] == Run(A, x, 0, Start(A, 0))
  {
    var i := 0;
    while i < y.Length
      invariant 0 <= i <= y.Length
      invariant forall p :: 0 <= p < i ==> y[p] == A.val[A.Ip[p]] * x[A.Jp[A.Ip[p]]]
    {
      y[i] := A.val[A.Ip[i]] * x[A.Jp[A.Ip[i]]];
      i := i + 1;
    }
    FirstDone(A, x, y[..]);
  }

  lemma {:induction false} FirstDone(A: Csr, x: Vec, w: Vec)
    requires SymWellFormed(A) && |x| == A.rows && |w| == A.rows
    requires forall p :: 0 <= p < A.rows ==> w[p] == A.val[A.Ip[p]] * x[A.Jp[A.Ip[p]]]
    ensures w == Run(A, x, 0, Start(A, 0))
  {
    var F := FirstProducts(A, x);
    forall p | 0 <= p < A.rows ensures w[p] == F[p] { }
    assert w == F;
  }

  /** The later entries of row `i`, each applied at `(i, Jp[j])` and at `(Jp[j], i)`. */
  method SymSparseRow(A: Csr, x: Vec, y: array<real>, i: nat)
    requires SymWellFormed(A) && |x| == A.rows && y.Length == A.rows && i < A.rows
    requires y[..] == Run(A, x, i, Start(A, i))
    modifies y
    ensures y[..] == Run(A, x, i + 1, Start(A, i + 1))
  {
    var j := A.Ip[i] + 1;
    while j < A.Ip[i + 1]
      invariant A.Ip[i] + 1 <= j <= A.Ip[i + 1]
      invariant y[..] == Run(A, x, i, j)
    {
      RunStep(A, x, i, j);
      AddPair(y, x, i, A.Jp[j], A.val[j]);
      j := j + 1;
    }
  }

  /** `y(i) += v x(c)`, then `y(c) += v x(i)`. */
  method AddPair(y: array<real>, x: Vec, i: nat, c: nat, v: real)
    requires i < y.Length && c < y.Length && i < |x| && c < |x|
    modifies y
    ensures y[..] == Twice(old(y[..]), x, i, c, v)
  {
    y[i] := y[i] + v * x[c];
    y[c] := y[c] + v * x[i];
  }

  /**
   * Symmetric sparse: every row's first stored entry is applied once, every later entry of
   * row `i` to both `y(i)` and `y(Jp[j])`. The result is the product with the dense matrix of
   * the stored triangle (`SymSparseIsCsrPlusTranspose` spells that matrix out).
   */
  method MultSymSparseVec(A: Csr, x: Vec, y: array<real>)
    requires SymWellFormed(A) && |x| == A.rows && y.Length == A.rows
    modifies y
    ensures y[..] == MatVec(SymSparseDense(A), x)
  {
    SymSparseFirst(A, x, y);
    var i := 0;
    while i < y.Length
      invariant 0 <= i <= y.Length
      invariant y[..] == Run(A, x, i, Start(A, i))
    {
      SymSparseRow(A, x, y, i);
      i := i + 1;
    }
    RunIsPartial(A, x, A.rows, 0);
  }

  // Row vector times matrix, `mult(x, A, y)`.

  /** General: `y(i) = sum_j x(j) A(j,i)`. */
  method MultVecMat(x: Vec, A: Mat, n: nat, y: array<real>)
    requires IsMat(A, |x|, n) && y.Length <= n
    modifies y
    ensures forall i :: 0 <= i < y.Length ==> y[i] == Dot(x, Col(A, i))
  {
    var i := 0;
    while i < y.Length
      invariant 0 <= i <= y.Length
      invariant forall p :: 0 <= p < i ==> y[p] == Dot(x, Col(A, p))
    {
      y[i] := Accumulate(x, Col(A, i));
      i := i + 1;
    }
  }

  /** Symmetric: `ej(j,i)` above the diagonal and `ei(j,i)` on and below it. */
  method MultVecSym(x: Vec, U: Mat, n: nat, y: array<real>)
    requires Triangle(U, n) && |x| == n && y.Length <= n
    modifies y
    ensures forall i :: 0 <= i < y.Length ==> y[i] == Dot(x, Col(SymUpper(U, n), i))
  {
    var i := 0;
    while i < y.Length
      invariant 0 <= i <= y.Length
      invariant forall p :: 0 <= p < i ==> y[p] == Dot(x, Col(SymUpper(U, n), p))
    {
      y[i] := SymRowDot(U, n, i, x);
      SymColDot(U, n, i, x);
      i := i + 1;
    }
  }

  // Matrix times matrix, `mult(A1, A2, A3)`.

  /** General: `A3(i,k) = sum_j A1(i,j) A2(j,k)` for every cell of `A3`. */
  method MultMatMat(A1: Mat, A2: Mat, n2: nat, A3: array2<real>)
    requires IsMat(A1, |A1|, |A2|) && IsMat(A2, |A2|, n2)
    requires A3.Length0 <= |A1| && A3.Length1 <= n2
    modifies A3
    ensures forall i, k :: 0 <= i < A3.Length0 && 0 <= k < A3.Length1 ==>
      A3[i, k] == MatMul(A1, A2, n2)[i][k]
  {
    var i := 0;
    while i < A3.Length0
      invariant 0 <= i <= A3.Length0
      invariant forall p, k :: 0 <= p < i && 0 <= k < A3.Length1 ==> A3[p, k] == Dot(A1[p], Col(A2, k))
    {
      MatMatRow(A1, A2, n2, A3, i);
      i := i + 1;
    }
  }

  /** Row `i` of the general product. */
  method MatMatRow(A1: Mat, A2: Mat, n2: nat, A3: array2<real>, i: nat)
    requires IsMat(A1, |A1|, |A2|) && IsMat(A2, |A2|, n2)
    requires i < A3.Length0 <= |A1| && A3.Length1 <= n2
    modifies A3
    ensures forall q :: 0 <= q < A3.Length1 ==> A3[i, q] == Dot(A1[i], Col(A2, q))
    ensures forall p, q :: 0 <= p < A3.Length0 && 0 <= q < A3.Length1 && p != i ==> A3[p, q] == old(A3[p, q])
  {
    var k := 0;
    while k < A3.Length1
      invariant 0 <= k <= A3.Length1
      invariant forall q :: 0 <= q < k ==> A3[i, q] == Dot(A1[i], Col(A2, q))
      invariant forall p, q :: 0 <= p < A3.Length0 && 0 <= q < A3.Length1 && p != i ==> A3[p, q] == old(A3[p, q])
    {
      A3[i, k] := Accumulate(A1[i], Col(A2, k));
      k := k + 1;
    }
  }

  /** Symmetric left factor: row `i` of the stored triangle, read on both sides. */
  method MultSymMat(U: Mat, n: nat, A2: Mat, n2: nat, A3: array2<real>)
    requires Triangle(U, n) && IsMat(A2, n, n2)
    requires A3.Length0 <= n && A3.Length1 <= n2
    modifies A3
    ensures forall i, k :: 0 <= i < A3.Length0 && 0 <= k < A3.Length1 ==>
      A3[i, k] == MatMul(SymUpper(U, n), A2, n2)[i][k]
  {
    var i := 0;
    while i < A3.Length0
      invariant 0 <= i <= A3.Length0
      invariant forall p, k :: 0 <= p < i && 0 <= k < A3.Length1 ==> A3[p, k] == Dot(SymUpper(U, n)[p], Col(A2, k))
    {
      SymMatRow(U, n, A2, n2, A3, i);
      i := i + 1;
    }
  }

  /** Row `i` of the symmetric product. */
  method SymMatRow(U: Mat, n: nat, A2: Mat, n2: nat, A3: array2<real>, i: nat)
    requires Triangle(U, n) && IsMat(A2, n, n2)
    requires i < A3.Length0 <= n && A3.Length1 <= n2
    modifies A3
    ensures forall q :: 0 <= q < A3.Length1 ==> A3[i, q] == Dot(SymUpper(U, n)[i], Col(A2, q))
    ensures forall p, q :: 0 <= p < A3.Length0 && 0 <= q < A3.Length1 && p != i ==> A3[p, q] == old(A3[p, q])
  {
    var k := 0;
    while k < A3.Length1
      invariant 0 <= k <= A3.Length1
      invariant forall q :: 0 <= q < k ==> A3[i, q] == Dot(SymUpper(U, n)[i], Col(A2, q))
      invariant forall p, q :: 0 <= p < A3.Length0 && 0 <= q < A3.Length1 && p != i ==> A3[p, q] == old(A3[p, q])
    {
      A3[i, k] := SymRowDot(U, n, i, Col(A2, k));
      SymRowIsRow(U, n, i);
      k := k + 1;
    }
  }

  /** Diagonal times diagonal: `A3.e(i) = A1.e(i) * A2.e(i)`. */
  method MultDiagDiag(d1: Vec, d2: Vec, d3: array<real>)
    requires |d1| == |d2| && d3.Length <= |d1|
    modifies d3
    ensures forall i :: 0 <= i < d3.Length ==> d3[i] == d1[i] * d2[i]
  {
    var i := 0;
    while i < d3.Length
      invariant 0 <= i <= d3.Length
      invariant forall p :: 0 <= p < i ==> d3[p] == d1[p] * d2[p]
    {
      d3[i] := d1[i] * d2[i];
      i := i + 1;
    }
  }

  /** The product of two diagonal matrices is the diagonal matrix of the entry-wise products. */
  lemma {:induction false} DiagTimesDiag(d1: Vec, d2: Vec)
    requires |d1| == |d2|
    ensures MatMul(DiagMat(d1), DiagMat(d2), |d1|) == DiagMat(seq(|d1|, i requires 0 <= i < |d1| => d1[i] * d2[i]))
  {
    var n := |d1|;
    var P, D := MatMul(DiagMat(d1), DiagMat(d2), n), DiagMat(seq(n, i requires 0 <= i < n => d1[i] * d2[i]));
    forall i, k | 0 <= i < n && 0 <= k < n ensures P[i][k] == D[i][k] {
      DiagRowTimes(d1, d2, i, k);
    }
    MatEq(P, D, n, n);
  }

  lemma {:induction false} DiagRowTimes(d1: Vec, d2: Vec, i: nat, k: nat)
    requires |d1| == |d2| && i < |d1| && k < |d1|
    ensures Dot(DiagMat(d1)[i], Col(DiagMat(d2), k)) == if i == k then d1[i] * d2[i] else 0.0
  {
    var r := DiagMat(d1)[i];
    DotDiagonal(r, d2, k);
    assert r[k] == if i == k then d1[i] else 0.0;
  }

  /** Compressed sparse left factor: `A3(i,k) = sum_j A1()[j] A2(Jp[j], k)` over row `i`. */
  method MultCsrMat(A: Csr, A2: Mat, n2: nat, A3: array2<real>)
    requires WellFormed(A) && IsMat(A2, A.cols, n2)
    requires A3.Length0 <= A.rows && A3.Length1 <= n2
    modifies A3
    ensures forall i, k :: 0 <= i < A3.Length0 && 0 <= k < A3.Length1 ==>
      A3[i, k] == MatMul(CsrDense(A), A2, n2)[i][k]
  {
    var i := 0;
    while i < A3.Length0
      invariant 0 <= i <= A3.Length0
      invariant forall p, k :: 0 <= p < i && 0 <= k < A3.Length1 ==> A3[p, k] == Dot(CsrDense(A)[p], Col(A2, k))
    {
      CsrMatRow(A, A2, n2, A3, i);
      i := i + 1;
    }
  }

  /** Row `i` of the compressed sparse product. */
  method CsrMatRow(A: Csr, A2: Mat, n2: nat, A3: array2<real>, i: nat)
    requires WellFormed(A) && IsMat(A2, A.cols, n2)
    requires i < A3.Length0 <= A.rows && A3.Length1 <= n2
    modifies A3
    ensures forall q :: 0 <= q < A3.Length1 ==> A3[i, q] == Dot(CsrDense(A)[i], Col(A2, q))
    ensures forall p, q :: 0 <= p < A3.Length0 && 0 <= q < A3.Length1 && p != i ==> A3[p, q] == old(A3[p, q])
  {
    var k := 0;
    while k < A3.Length1
      invariant 0 <= k <= A3.Length1
      invariant forall q :: 0 <= q < k ==> A3[i, q] == Dot(CsrDense(A)[i], Col(A2, q))
      invariant forall p, q :: 0 <= p < A3.Length0 && 0 <= q < A3.Length1 && p != i ==> A3[p, q] == old(A3[p, q])
    {
      A3[i, k] := SparseRowDot(A, i, Col(A2, k));
      k := k + 1;
    }
  }

  /**
   * Symmetric sparse left factor. Both loops run over the rows `i` and columns `k` of `A3`;
   * column `k` of `A3` goes through exactly the steps of `MultSymSparseVec` with `x` the
   * column `k` of `A2`, so every column ends as the dense product's column.
   */
  method MultSymSparseMat(A: Csr, A2: Mat, n2: nat, A3: array2<real>)
    requires SymWellFormed(A) && IsMat(A2, A.rows, n2)
    requires A3.Length0 == A.rows && A3.Length1 <= n2
    modifies A3
    ensures forall i, k :: 0 <= i < A3.Length0 && 0 <= k < A3.Length1 ==>
      A3[i, k] == MatMul(SymSparseDense(A), A2, n2)[i][k]
  {
    SymSparseMatFirst(A, A2, n2, A3);
    var i := 0;
    while i < A3.Length0
      invariant 0 <= i <= A3.Length0
      invariant forall k :: 0 <= k < A3.Length1 ==> ColumnOf(A3, k) == Run(A, Col(A2, k), i, Start(A, i))
    {
      SymSparseMatRow(A, A2, n2, A3, i);
      i := i + 1;
    }
    forall i, k | 0 <= i < A3.Length0 && 0 <= k < A3.Length1
      ensures A3[i, k] == MatMul(SymSparseDense(A), A2, n2)[i][k]
    {
      RunIsPartial(A, Col(A2, k), A.rows, 0);
      MatMulColumn(SymSparseDense(A), A2, n2, k);
      assert A3[i, k] == ColumnOf(A3, k)[i];
    }
  }

  /** The first loop: `A3(i,k) = A1()[Ip[i]] A2(Jp[Ip[i]], k)`. */
  method SymSparseMatFirst(A: Csr, A2: Mat, n2: nat, A3: array2<real>)
    requires SymWellFormed(A) && IsMat(A2, A.rows, n2)
    requires A3.Length0 == A.rows && A3.Length1 <= n2
    modifies A3
    ensures forall k :: 0 <= k < A3.Length1 ==> ColumnOf(A3, k) == Run(A, Col(A2, k), 0, Start(A, 0))
  {
    var i := 0;
    while i < A3.Length0
      invariant 0 <= i <= A3.Length0
      invariant forall p, k :: 0 <= p < i && 0 <= k < A3.Length1 ==> A3[p, k] == A.val[A.Ip[p]] * A2[A.Jp[A.Ip[p]]][k]
    {
      SymSparseMatFirstRow(A, A2, n2, A3, i);
      i := i + 1;
    }
    forall k | 0 <= k < A3.Length1 ensures ColumnOf(A3, k) == Run(A, Col(A2, k), 0, Start(A, 0)) {
      FirstDone(A, Col(A2, k), ColumnOf(A3, k));
    }
  }

  /** Row `i` of the first loop. */
  method SymSparseMatFirstRow(A: Csr, A2: Mat, n2: nat, A3: array2<real>, i: nat)
    requires SymWellFormed(A) && IsMat(A2, A.rows, n2) && i < A.rows
    requires A3.Length0 == A.rows && A3.Length1 <= n2
    modifies A3
    ensures forall q :: 0 <= q < A3.Length1 ==> A3[i, q] == A.val[A.Ip[i]] * A2[A.Jp[A.Ip[i]]][q]
    ensures forall p, q :: 0 <= p < A3.Length0 && 0 <= q < A3.Length1 && p != i ==> A3[p, q] == old(A3[p, q])
  {
    var k := 0;
    while k < A3.Length1
      invariant 0 <= k <= A3.Length1
      invariant forall q :: 0 <= q < k ==> A3[i, q] == A.val[A.Ip[i]] * A2[A.Jp[A.Ip[i]]][q]
      invariant forall p, q :: 0 <= p < A3.Length0 && 0 <= q < A3.Length1 && p != i ==> A3[p, q] == old(A3[p, q])
    {
      A3[i, k] := A.val[A.Ip[i]] * A2[A.Jp[A.Ip[i]]][k];
      k := k + 1;
    }
  }

  /** Row `i` of the second loop, for every column of `A3` in turn. */
  method SymSparseMatRow(A: Csr, A2: Mat, n2: nat, A3: array2<real>, i: nat)
    requires SymWellFormed(A) && IsMat(A2, A.rows, n2) && i < A.rows
    requires A3.Length0 == A.rows && A3.Length1 <= n2
    requires forall k :: 0 <= k < A3.Length1 ==> ColumnOf(A3, k) == Run(A, Col(A2, k), i, Start(A, i))
    modifies A3
    ensures forall k :: 0 <= k < A3.Length1 ==> ColumnOf(A3, k) == Run(A, Col(A2, k), i + 1, Start(A, i + 1))
  {
    var k := 0;
    while k < A3.Length1
      invariant 0 <= k <= A3.Length1
      invariant forall q :: 0 <= q < k ==> ColumnOf(A3, q) == Run(A, Col(A2, q), i + 1, Start(A, i + 1))
      invariant forall q :: k <= q < A3.Length1 ==> ColumnOf(A3, q) == Run(A, Col(A2, q), i, Start(A, i))
    {
      SymSparseMatEntry(A, A2, n2, A3, i, k);
      k := k + 1;
    }
  }

  /** The innermost loop: the later entries of row `i`, applied to column `k` only. */
  method SymSparseMatEntry(A: Csr, A2: Mat, n2: nat, A3: array2<real>, i: nat, k: nat)
    requires SymWellFormed(A) && IsMat(A2, A.rows, n2) && i < A.rows
    requires A3.Length0 == A.rows && k < A3.Length1 <= n2
    requires ColumnOf(A3, k) == Run(A, Col(A2, k), i, Start(A, i))
    modifies A3
    ensures ColumnOf(A3, k) == Run(A, Col(A2, k), i + 1, Start(A, i + 1))
    ensures forall p, q :: 0 <= p < A3.Length0 && 0 <= q < A3.Length1 && q != k ==> A3[p, q] == old(A3[p, q])
  {
    var j := A.Ip[i] + 1;
    while j < A.Ip[i + 1]
      invariant A.Ip[i] + 1 <= j <= A.Ip[i + 1]
      invariant ColumnOf(A3, k) == Run(A, Col(A2, k), i, j)
      invariant forall p, q :: 0 <= p < A3.Length0 && 0 <= q < A3.Length1 && q != k ==> A3[p, q] == old(A3[p, q])
    {
      RunStep(A, Col(A2, k), i, j);
      AddPairColumn(A3, k, A2, i, A.Jp[j], A.val[j]);
      j := j + 1;
    }
  }

  /** `A3(i,k) += v A2(c,k)`, then `A3(c,k) += v A2(i,k)`. */
  method AddPairColumn(A3: array2<real>, k: nat, A2: Mat, i: nat, c: nat, v: real)
    requires k < A3.Length1 && i < A3.Length0 && c < A3.Length0
    requires |A2| == A3.Length0 && forall p :: 0 <= p < |A2| ==> k < |A2[p]|
    modifies A3
    ensures ColumnOf(A3, k) == Twice(old(ColumnOf(A3, k)), Col(A2, k), i, c, v)
    ensures forall p, q :: 0 <= p < A3.Length0 && 0 <= q < A3.Length1 && q != k ==> A3[p, q] == old(A3[p, q])
  {
    ghost var x, w := Col(A2, k), ColumnOf(A3, k);
    A3[i, k] := A3[i, k] + v * A2[c][k];
    A3[c, k] := A3[c, k] + v * A2[i][k];
    ghost var r, t := ColumnOf(A3, k), Twice(w, x, i, c, v);
    forall p | 0 <= p < A3.Length0 ensures r[p] == t[p] { }
    assert r == t;
  }
}
