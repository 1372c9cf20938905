/**
 * `Matrix<General,Var,Var,AT>` of branches/user/grundl: an `M x N` matrix owning a buffer
 * of `M*N` elements stored row by row (`ele[i*N+j]`). The default matrix and `resize()`
 * hold a null buffer.
 */
module VarGeneralMatrix {
  import opened Dense
  import opened Layout

  class VarGeneral {
    var M: nat
    var N: nat
    var ele: array?<real>

    ghost predicate Valid()
      reads this
    {
      (ele == null ==> M == 0 && N == 0) && (ele != null ==> ele.Length == M * N)
    }

    /** `e(i,j)`: the cell at `ele[i*N+j]`. */
    function Get(i: nat, j: nat): real
      reads this, ele
      requires Valid() && i < M && j < N
    {
      RowMajorBound(i, j, M, N);
      ele[RowMajor(i, j, N)]
    }

    /** The matrix the buffer stores, read row by row. */
    function Contents(): (A: Mat)
      reads this, ele
      requires Valid()
      ensures IsMat(A, M, N)
    {
      if ele == null then [] else Rows(ele[..], M, N)
    }

    /** Element `(i,j)` of the matrix is the buffer cell `e(i,j)` addresses. */
    lemma {:induction false} ContentsAt(i: nat, j: nat)
      requires Valid() && i < M && j < N
      ensures Contents()[i][j] == Get(i, j)
    {
      RowsAt(ele[..], M, N, i, j);
    }

    /** `e(i,j) = v`. */
    method Put(i: nat, j: nat, v: real)
      requires Valid() && i < M && j < N
      modifies ele
      ensures Valid() && Contents() == old(Contents())[i := old(Contents())[i][j := v]]
    {
      RowsUpdate(ele[..], M, N, i, j, v);
      ele[RowMajor(i, j, N)] := v;
    }

    /** `ldim()` as written: the row count. */
    function Ldim(): nat
      reads this
    {
      M
    }

    /** `blasOrder()` as written: column-major. */
    function Order(): StorageOrder {
      ColMajorOrder
    }

    /**
     * A BLAS routine handed `(blasOrder(), ldim())` as written looks for element `(0,1)`
     * at cell `M`, while `e(0,1)` lives at cell 1: the two disagree once there are two rows.
     */
    lemma {:induction false} BlasViewMisreads()
      requires Valid() && M >= 2 && N >= 2
      ensures BlasAddress(Order(), Ldim(), 0, 1) != RowMajor(0, 1, N)
      ensures Contents()[0][1] == Get(0, 1)
    {
      ContentsAt(0, 1);
    }

    /** The leading dimension that matches `e(i,j)`: the column count. */
    function RowMajorLdim(): (l: nat)
      reads this
      ensures l == N
    {
      N
    }

    /** Under `(RowMajorOrder, N)` a BLAS routine finds every element where `e(i,j)` puts it. */
    lemma {:induction false} BlasViewMatches(i: nat, j: nat)
      requires Valid() && i < M && j < N
      ensures BlasAddress(RowMajorOrder, RowMajorLdim(), i, j) == RowMajor(i, j, N)
      ensures BlasAddress(RowMajorOrder, RowMajorLdim(), i, j) < M * N
      ensures Contents()[i][j] == ele[BlasAddress(RowMajorOrder, RowMajorLdim(), i, j)]
    {
      RowMajorBound(i, j, M, N);
      ContentsAt(i, j);
    }

    /** `Matrix()`: no size and no buffer. */
    constructor Empty()
      ensures Valid() && M == 0 && N == 0 && ele == null
    {
      M, N, ele := 0, 0, null;
    }

    /** `Matrix(m, n, NONINIT)`. */
    constructor NoInit(m: nat, n: nat)
      ensures Valid() && M == m && N == n && ele != null && fresh(ele)
    {
      M, N := m, n;
      ele := new real[m * n];
    }

    /** `Matrix(m, n, INIT, a)`. */
    constructor WithValue(m: nat, n: nat, a: real)
      ensures Valid() && M == m && N == n && fresh(ele)
      ensures Contents() == Const(m, n, a)
    {
      M, N := m, n;
      ele := new real[m * n];
      new;
      Init(a);
    }

    /** `Matrix(m, n, EYE, a)`. */
    constructor Identity(m: nat, n: nat, a: real)
      ensures Valid() && M == m && N == n && fresh(ele)
      ensures Contents() == Eye(m, n, a)
    {
      M, N := m, n;
      ele := new real[m * n];
      new;
      InitEye(a);
    }

    /** The copy constructor and the converting constructors: fresh storage holding a copy of `A`. */
    constructor FromMatrix(A: Mat, n: nat)
      requires IsMat(A, |A|, n)
      ensures Valid() && M == |A| && N == n && fresh(ele) && ele != null
      ensures Contents() == A
    {
      M, N := |A|, n;
      ele := new real[|A| * n];
      new;
      DeepCopy(A);
    }

    /** `Matrix(std::vector<std::vector<AT>> m)`: takes the column count from the first row. */
    constructor FromNested(rows: seq<seq<real>>)
      requires |rows| > 0 && IsMat(rows, |rows|, |rows[0]|)
      ensures Valid() && M == |rows| && N == |rows[0]| && fresh(ele)
      ensures Contents() == rows
    {
      M, N := |rows|, |rows[0]|;
      ele := new real[|rows| * |rows[0]|];
      new;
      DeepCopy(rows);
    }

    /** `deepCopy(A)`: element `(i,j)` of this matrix becomes `A.e(i,j)`. */
    method DeepCopy(A: Mat)
      requires Valid() && IsMat(A, M, N)
      modifies ele
      ensures Valid() && Contents() == A
    {
      var i := 0;
      while i < M
        invariant 0 <= i <= M && Valid()
        invariant forall p, q :: 0 <= p < i && 0 <= q < N ==> Contents()[p][q] == A[p][q]
      {
        var j := 0;
        while j < N
          invariant 0 <= j <= N && Valid()
          invariant forall p, q :: 0 <= q < N && (0 <= p < i || (p == i && 0 <= q < j)) ==> Contents()[p][q] == A[p][q]
        {
          Put(i, j, A[i][j]);
          j := j + 1;
        }
        i := i + 1;
      }
      MatEq(Contents(), A, M, N);
    }

    /** `init(a)`: every one of the `M*N` buffer cells, in storage order. */
    method Init(a: real)
      requires Valid()
      modifies ele
      ensures Valid() && Contents() == Const(M, N, a)
    {
      if ele != null {
        var i := 0;
        while i < M * N
          invariant 0 <= i <= M * N
          invariant forall t :: 0 <= t < i ==> ele[t] == a
        {
          ele[i] := a;
          i := i + 1;
        }
        forall p, q | 0 <= p < M && 0 <= q < N ensures Contents()[p][q] == a {
          RowsAt(ele[..], M, N, p, q);
        }
      }
      MatEq(Contents(), Const(M, N, a), M, N);
    }

    /** `init(EYE, a)`: `a` on the diagonal, 0 elsewhere. */
    method InitEye(a: real)
      requires Valid()
      modifies ele
      ensures Valid() && Contents() == Eye(M, N, a)
    {
      var i := 0;
      while i < M
        invariant 0 <= i <= M && Valid()
        invariant forall p, q :: 0 <= p < i && 0 <= q < N ==> Contents()[p][q] == if p == q then a else 0.0
      {
        var j := 0;
        while j < N
          invariant 0 <= j <= N && Valid()
          invariant forall p, q :: 0 <= q < N && (0 <= p < i || (p == i && 0 <= q < j)) ==> Contents()[p][q] == if p == q then a else 0.0
        {
          Put(i, j, if i == j then a else 0.0);
          j := j + 1;
        }
        i := i + 1;
      }
      MatEq(Contents(), Eye(M, N, a), M, N);
    }

    /** `resize()`: back to no size and no buffer. */
    method Resize()
      modifies this
      ensures Valid() && M == 0 && N == 0 && ele == null
    {
      M, N, ele := 0, 0, null;
    }

    /** `resize(m, n, NONINIT)`: new dimensions and a new buffer; the old contents are dropped. */
    method ResizeNoInit(m: nat, n: nat)
      modifies this
      ensures Valid() && M == m && N == n && ele != null && fresh(ele)
    {
      M, N := m, n;
      ele := new real[m * n];
    }

    /** `resize(m, n, INIT, a)`. */
    method ResizeInit(m: nat, n: nat, a: real)
      modifies this
      ensures Valid() && M == m && N == n && fresh(ele)
      ensures Contents() == Const(m, n, a)
    {
      ResizeNoInit(m, n);
      Init(a);
    }

    /** `resize(m, n, EYE, a)`. */
    method ResizeEye(m: nat, n: nat, a: real)
      modifies this
      ensures Valid() && M == m && N == n && fresh(ele)
      ensures Contents() == Eye(m, n, a)
    {
      ResizeNoInit(m, n);
      InitEye(a);
    }

    /**
     * `operator=`: a matrix without a buffer takes the size of `A`; any other matrix must
     * already have that size. Then every element is copied.
     */
    method Assign(A: Mat, n: nat)
      requires Valid() && IsMat(A, |A|, n)
      requires ele != null ==> M == |A| && N == n
      modifies this, ele
      ensures Valid() && M == |A| && N == n && Contents() == A
      ensures old(ele) != null ==> ele == old(ele)
    {
      if ele == null {
        M, N := |A|, n;
        ele := new real[|A| * n];
      }
      DeepCopy(A);
    }

    /** `operator<<`: reallocates exactly when a dimension differs, then copies. */
    method CopyFrom(A: Mat, n: nat)
      requires Valid() && IsMat(A, |A|, n)
      modifies this, ele
      ensures Valid() && M == |A| && N == n && Contents() == A
      ensures old(M) == |A| && old(N) == n ==> ele == old(ele)
      ensures (old(M) != |A| || old(N) != n) ==> fresh(ele)
    {
      if M != |A| || N != n {
        M, N := |A|, n;
        ele := new real[|A| * n];
      }
      DeepCopy(A);
    }

    /** `operator()(I, J)`: a new matrix holding a copy of the block, not a view of it. */
    method Sub(I: Range, J: Range) returns (B: VarGeneral)
      requires Valid() && I.Valid() && J.Valid() && I.end < M && J.end < N
      ensures fresh(B) && fresh(B.ele) && B.Valid()
      ensures B.M == I.Size() && B.N == J.Size()
      ensures B.Contents() == Block(Contents(), I.start, J.start, I.Size(), J.Size())
    {
      var A := Contents();
      B := new VarGeneral.NoInit(I.Size(), J.Size());
      B.DeepCopy(Block(A, I.start, J.start, I.Size(), J.Size()));
    }

    /** `row(i)`: a copy of row `i`. */
    method Row(i: nat) returns (x: seq<real>)
      requires Valid() && i < M
      ensures x == Contents()[i]
    {
      var r := new real[N];
      var j := 0;
      while j < N
        invariant 0 <= j <= N
        invariant forall q :: 0 <= q < j ==> r[q] == Contents()[i][q]
      {
        ContentsAt(i, j);
        r[j] := Get(i, j);
        j := j + 1;
      }
      x := r[..];
    }

    /** `col(j)`: a copy of column `j`. */
    method Column(j: nat) returns (x: seq<real>)
      requires Valid() && j < N
      ensures x == Col(Contents(), j)
    {
      var c := new real[M];
      var i := 0;
      while i < M
        invariant 0 <= i <= M
        invariant forall p :: 0 <= p < i ==> c[p] == Contents()[p][j]
      {
        ContentsAt(i, j);
        c[i] := Get(i, j);
        i := i + 1;
      }
      x := c[..];
    }

    /** `T()`: a new `N x M` matrix with `B(i,j) = e(j,i)`. */
    method T() returns (B: VarGeneral)
      requires Valid()
      ensures fresh(B) && fresh(B.ele) && B.Valid() && B.M == N && B.N == M
      ensures B.Contents() == Transpose(Contents(), N)
      ensures Contents() == old(Contents())
    {
      var A := Contents();
      B := new VarGeneral.NoInit(N, M);
      var i := 0;
      while i < N
        invariant 0 <= i <= N
        invariant B.Valid() && B.M == N && B.N == M && fresh(B.ele) && Contents() == A
        invariant forall p, q :: 0 <= p < i && 0 <= q < M ==> B.Contents()[p][q] == A[q][p]
      {
        var j := 0;
        while j < M
          invariant 0 <= j <= M
          invariant B.Valid() && B.M == N && B.N == M && fresh(B.ele) && Contents() == A
          invariant forall p, q :: 0 <= q < M && (0 <= p < i || (p == i && 0 <= q < j)) ==> B.Contents()[p][q] == A[q][p]
        {
          ContentsAt(j, i);
          B.Put(i, j, Get(j, i));
          j := j + 1;
        }
        i := i + 1;
      }
      MatEq(B.Contents(), Transpose(A, N), N, M);
    }

    /** `set(j, x)` for a column vector, `add(j, x)` when `add`. */
    method SetColumn(j: nat, x: seq<real>, add: bool)
      requires Valid() && j < N && M == |x|
      modifies ele
      ensures Valid() && Contents() == WithColumn(old(Contents()), j, x, add)
    {
      ghost var A := Contents();
      var i := 0;
      while i < M
        invariant 0 <= i <= M && Valid()
        invariant forall p, q :: 0 <= p < M && 0 <= q < N ==>
          Contents()[p][q] == if p < i && q == j then (if add then A[p][q] + x[p] else x[p]) else A[p][q]
      {
        ContentsAt(i, j);
        Put(i, j, if add then Get(i, j) + x[i] else x[i]);
        i := i + 1;
      }
      MatEq(Contents(), WithColumn(A, j, x, add), M, N);
    }

    /** `set(i, x)` for a row vector, `add(i, x)` when `add`. */
    method SetRow(i: nat, x: seq<real>, add: bool)
      requires Valid() && i < M && N == |x|
      modifies ele
      ensures Valid() && Contents() == WithRow(old(Contents()), i, x, add)
    {
      ghost var A := Contents();
      ghost var C := WithRow(A, i, x, add);
      var j := 0;
      while j < N
        invariant 0 <= j <= N && Valid() && |Contents()| == M
        invariant forall p :: 0 <= p < M && p != i ==> Contents()[p] == A[p]
        invariant forall q :: 0 <= q < j ==> Contents()[i][q] == C[i][q]
        invariant forall q :: j <= q < N ==> Contents()[i][q] == A[i][q]
      {
        ContentsAt(i, j);
        Put(i, j, if add then Get(i, j) + x[j] else x[j]);
        j := j + 1;
      }
      MatEq(Contents(), WithRow(A, i, x, add), M, N);
    }

    /** Row `i` from column `c0` on overwritten by `b` (increased by `b` when `add`). */
    method SetSlice(i: nat, c0: nat, b: Vec, add: bool)
      requires Valid() && i < M && c0 + |b| <= N
      modifies ele
      ensures Valid() && Contents() == old(Contents())[i := WithSlice(old(Contents())[i], c0, b, add)]
    {
      ghost var A := Contents();
      ghost var r := WithSlice(A[i], c0, b, add);
      var jj := 0;
      while jj < |b|
        invariant 0 <= jj <= |b| && Valid() && |Contents()| == M
        invariant forall p :: 0 <= p < M && p != i ==> Contents()[p] == A[p]
        invariant forall q :: 0 <= q < c0 ==> Contents()[i][q] == r[q]
        invariant forall q :: c0 <= q < c0 + jj ==> Contents()[i][q] == r[q]
        invariant forall q :: c0 + jj <= q < N ==> Contents()[i][q] == A[i][q]
      {
        ContentsAt(i, c0 + jj);
        Put(i, c0 + jj, if add then Get(i, c0 + jj) + b[jj] else b[jj]);
        jj := jj + 1;
      }
      MatEq(Contents(), A[i := r], M, N);
    }

    /** `set(I, J, A)`, `add(I, J, A)` when `add`: only the cells of the block `I x J` change. */
    method SetBlock(I: Range, J: Range, B: Mat, add: bool)
      requires Valid() && I.Valid() && J.Valid() && I.end < M && J.end < N
      requires IsMat(B, I.Size(), J.Size())
      modifies ele
      ensures Valid() && Contents() == WithBlock(old(Contents()), I.start, J.start, B, add)
    {
      ghost var A := Contents();
      ghost var C := WithBlock(A, I.start, J.start, B, add);
      var i := I.start;
      while i <= I.end
        invariant I.start <= i <= I.end + 1 && Valid()
        invariant Contents() == Overlay(A, C, I.start, i)
      {
        SetBlockRow(I, J, B, add, i, A);
        i := i + 1;
      }
      OverlayDone(A, C, I.start, I.end + 1);
    }

    /** Row `i` of `set(I, J, A)`: one more row of the block is written. */
    method SetBlockRow(I: Range, J: Range, B: Mat, add: bool, i: nat, ghost A: Mat)
      requires Valid() && I.Valid() && J.Valid() && I.end < M && J.end < N
      requires IsMat(B, I.Size(), J.Size()) && IsMat(A, M, N) && I.start <= i <= I.end
      requires Contents() == Overlay(A, WithBlock(A, I.start, J.start, B, add), I.start, i)
      modifies ele
      ensures Valid() && Contents() == Overlay(A, WithBlock(A, I.start, J.start, B, add), I.start, i + 1)
    {
      WithBlockStep(A, I.start, J.start, B, add, i);
      SetSlice(i, J.start, B[i - I.start], add);
    }

    /** Conversion to `std::vector<std::vector<AT>>`. */
    method ToNested() returns (rows: seq<seq<real>>)
      requires Valid()
      ensures rows == Contents()
    {
      rows := [];
      var r := 0;
      while r < M
        invariant 0 <= r <= M && |rows| == r
        invariant forall p :: 0 <= p < r ==> rows[p] == Contents()[p]
      {
        var x := Row(r);
        rows := rows + [x];
        r := r + 1;
      }
    }
  }
}
