/**
 * `Matrix<General,Fixed<M>,Var,AT>` of fmatvec: `M` rows fixed by the type, `N` columns
 * chosen at run time, and a buffer of `M*N` elements stored row by row (`ele[i*N+j]`).
 * The default matrix has `N == 0` and a null buffer.
 */
module FixedVarGeneralMatrix {
  import opened Wrappers
  import opened Dense
  import opened Layout
  import VarGeneralMatrix

  class FixedVarGeneral {
    /** The template parameter `M`. */
    const M: nat
    var N: nat
    var ele: array?<real>

    ghost predicate Valid()
      reads this
    {
      (ele == null ==> N == 0) && (ele != null ==> ele.Length == M * N)
    }

    /** `e(i,j)`: the cell at `ele[i*N+j]`. */
    function Get(i: nat, j: nat): real
      reads this, ele
      requires Valid() && i < M && j < N
    {
      RowMajorBound(i, j, M, N);
      ele[RowMajor(i, j, N)]
    }

    /** The matrix the buffer stores, read row by row. */
    function Contents(): (A: Mat)
      reads this, ele
      requires Valid()
      ensures IsMat(A, M, N)
    {
      Rows(if ele == null then [] else ele[..], M, N)
    }

    /** Element `(i,j)` of the matrix is the buffer cell `e(i,j)` addresses. */
    lemma {:induction false} ContentsAt(i: nat, j: nat)
      requires Valid() && i < M && j < N
      ensures Contents()[i][j] == Get(i, j)
    {
      RowsAt(ele[..], M, N, i, j);
    }

    /** `e(i,j) = v`. */
    method Put(i: nat, j: nat, v: real)
      requires Valid() && i < M && j < N
      modifies ele
      ensures Valid() && Contents() == old(Contents())[i := old(Contents())[i][j := v]]
    {
      RowsUpdate(ele[..], M, N, i, j, v);
      ele[RowMajor(i, j, N)] := v;
    }

    /** `ldim()`: the column count. */
    function Ldim(): (l: nat)
      reads this
      ensures l == N
    {
      N
    }

    /** `blasOrder()`: row-major. */
    function Order(): StorageOrder {
      RowMajorOrder
    }

    /** A BLAS routine handed `(blasOrder(), ldim())` finds every element where `e(i,j)` puts it. */
    lemma {:induction false} BlasViewMatches(i: nat, j: nat)
      requires Valid() && i < M && j < N
      ensures BlasAddress(Order(), Ldim(), i, j) == RowMajor(i, j, N) < M * N
      ensures Contents()[i][j] == ele[BlasAddress(Order(), Ldim(), i, j)]
    {
      RowMajorBound(i, j, M, N);
      ContentsAt(i, j);
    }

    /** `Matrix()`: no columns and no buffer. */
    constructor Empty(m: nat)
      ensures Valid() && M == m && N == 0 && ele == null
    {
      M, N, ele := m, 0, null;
    }

    /** `Matrix(n, NONINIT)`. */
    constructor NoInit(m: nat, n: nat)
      ensures Valid() && M == m && N == n && ele != null && fresh(ele)
    {
      M, N := m, n;
      ele := new real[m * n];
    }

    /** `Matrix(n, INIT, a)`. */
    constructor WithValue(m: nat, n: nat, a: real)
      ensures Valid() && M == m && N == n && fresh(ele)
      ensures Contents() == Const(m, n, a)
    {
      M, N := m, n;
      ele := new real[m * n];
      new;
      Init(a);
    }

    /** `Matrix(n, EYE, a)`. */
    constructor Identity(m: nat, n: nat, a: real)
      ensures Valid() && M == m && N == n && fresh(ele)
      ensures Contents() == Eye(m, n, a)
    {
      M, N := m, n;
      ele := new real[m * n];
      new;
      InitEye(a);
    }

    /** `Matrix(rows, n, NONINIT)`: the row count passed must be `M`. */
    constructor SizedNoInit(m: nat, rows: nat, n: nat)
      requires rows == m
      ensures Valid() && M == m && N == n && ele != null && fresh(ele)
    {
      M, N := m, n;
      ele := new real[m * n];
    }

    /** `Matrix(rows, n, INIT, a)`: the row count passed must be `M`. */
    constructor SizedWithValue(m: nat, rows: nat, n: nat, a: real)
      requires rows == m
      ensures Valid() && M == m && N == n && fresh(ele)
      ensures Contents() == Const(m, n, a)
    {
      M, N := m, n;
      ele := new real[m * n];
      new;
      Init(a);
    }

    /** `Matrix(rows, n, EYE, a)`: the row count passed must be `M`. */
    constructor SizedIdentity(m: nat, rows: nat, n: nat, a: real)
      requires rows == m
      ensures Valid() && M == m && N == n && fresh(ele)
      ensures Contents() == Eye(m, n, a)
    {
      M, N := m, n;
      ele := new real[m * n];
      new;
      InitEye(a);
    }

    /** The copy constructors: fresh storage holding a copy of `A`, which must have `M` rows. */
    constructor FromMatrix(m: nat, A: Mat, n: nat)
      requires IsMat(A, m, n)
      ensures Valid() && M == m && N == n && fresh(ele) && ele != null
      ensures Contents() == A
    {
      M, N := m, n;
      ele := new real[m * n];
      new;
      Copy(A);
    }

    /** `copy(A)`: element `(i,j)` becomes `A.e(i,j)` for every `i < M`, `j < N`. */
    method Copy(A: Mat)
      requires Valid() && IsMat(A, M, N)
      modifies ele
      ensures Valid() && Contents() == A
    {
      var i := 0;
      while i < M
        invariant 0 <= i <= M && Valid()
        invariant forall p, q :: 0 <= p < i && 0 <= q < N ==> Contents()[p][q] == A[p][q]
      {
        var j := 0;
        while j < N
          invariant 0 <= j <= N && Valid()
          invariant forall p, q :: 0 <= q < N && (0 <= p < i || (p == i && 0 <= q < j)) ==> Contents()[p][q] == A[p][q]
        {
          Put(i, j, A[i][j]);
          j := j + 1;
        }
        i := i + 1;
      }
      MatEq(Contents(), A, M, N);
    }

    /** `init(a)`: every one of the `M*N` buffer cells, in storage order. */
    method Init(a: real)
      requires Valid()
      modifies ele
      ensures Valid() && Contents() == Const(M, N, a)
    {
      if ele != null {
        var i := 0;
        while i < M * N
          invariant 0 <= i <= M * N
          invariant forall t :: 0 <= t < i ==> ele[t] == a
        {
          ele[i] := a;
          i := i + 1;
        }
        forall p, q | 0 <= p < M && 0 <= q < N ensures Contents()[p][q] == a {
          RowsAt(ele[..], M, N, p, q);
        }
      }
      MatEq(Contents(), Const(M, N, a), M, N);
    }

    /** `init(EYE, a)`: `a` on the diagonal, 0 elsewhere. */
    method InitEye(a: real)
      requires Valid()
      modifies ele
      ensures Valid() && Contents() == Eye(M, N, a)
    {
      var i := 0;
      while i < M
        invariant 0 <= i <= M && Valid()
        invariant forall p, q :: 0 <= p < i && 0 <= q < N ==> Contents()[p][q] == if p == q then a else 0.0
      {
        var j := 0;
        while j < N
          invariant 0 <= j <= N && Valid()
          invariant forall p, q :: 0 <= q < N && (0 <= p < i || (p == i && 0 <= q < j)) ==> Contents()[p][q] == if p == q then a else 0.0
        {
          Put(i, j, if i == j then a else 0.0);
          j := j + 1;
        }
        i := i + 1;
      }
      MatEq(Contents(), Eye(M, N, a), M, N);
    }

    /** `resize(n, NONINIT)`: `n` columns in a new buffer; the old contents are dropped. */
    method ResizeNoInit(n: nat)
      modifies this
      ensures Valid() && N == n && ele != null && fresh(ele)
    {
      N := n;
      ele := new real[M * n];
    }

    /** `resize(n, INIT, a)`. */
    method ResizeInit(n: nat, a: real)
      modifies this
      ensures Valid() && N == n && fresh(ele)
      ensures Contents() == Const(M, n, a)
    {
      ResizeNoInit(n);
      Init(a);
    }

    /** `resize(n, EYE, a)`. */
    method ResizeEye(n: nat, a: real)
      modifies this
      ensures Valid() && N == n && fresh(ele)
      ensures Contents() == Eye(M, n, a)
    {
      ResizeNoInit(n);
      InitEye(a);
    }

    /**
     * `resize(m, n)`: throws unless `m` is the fixed row count; otherwise `n` columns set to
     * the default value `AT()`, i.e. zero.
     */
    method Resize(m: nat, n: nat) returns (r: Outcome)
      requires Valid()
      modifies this
      ensures r.Failure? <==> m != M
      ensures r.Failure? ==> N == old(N) && ele == old(ele)
      ensures r.Success? ==> Valid() && N == n && fresh(ele) && Contents() == Const(M, n, 0.0)
    {
      if m != M {
        return Failure("A fixed-var matrix can only be resized in the second dimension.");
      }
      ResizeInit(n, 0.0);
      return Success;
    }

    /** `operator=`: the source must have `M` rows and exactly `N` columns; then every element is copied. */
    method Assign(A: Mat, n: nat)
      requires Valid() && IsMat(A, M, n) && N == n
      modifies ele
      ensures Valid() && Contents() == A
    {
      Copy(A);
    }

    /** `operator<<=`: the source must have `M` rows; the column count is adopted, reallocating
        exactly when it differs. Then every element is copied. */
    method AssignResize(A: Mat, n: nat)
      requires Valid() && IsMat(A, M, n)
      modifies this, ele
      ensures Valid() && N == n && Contents() == A
      ensures old(N) == n ==> ele == old(ele)
      ensures old(N) != n ==> fresh(ele)
    {
      if N != n {
        ResizeNoInit(n);
      }
      Copy(A);
    }

    /** `operator()(Range<Fixed<M1>,Fixed<M2>> I, J)`: a new fixed-row matrix holding a copy of the block. */
    method SubFixed(I: Range, J: Range) returns (B: FixedVarGeneral)
      requires Valid() && I.Valid() && J.Valid() && I.end < M && J.end < N
      ensures fresh(B) && fresh(B.ele) && B.Valid()
      ensures B.M == I.Size() && B.N == J.Size()
      ensures B.Contents() == Block(Contents(), I.start, J.start, I.Size(), J.Size())
    {
      var A := Contents();
      B := new FixedVarGeneral.NoInit(I.Size(), J.Size());
      B.Copy(Block(A, I.start, J.start, I.Size(), J.Size()));
    }

    /** `operator()(Range<Var,Var> I, J)`: a new `Matrix<General,Var,Var>` holding a copy of the block. */
    method Sub(I: Range, J: Range) returns (B: VarGeneralMatrix.VarGeneral)
      requires Valid() && I.Valid() && J.Valid() && I.end < M && J.end < N
      ensures fresh(B) && fresh(B.ele) && B.Valid()
      ensures B.M == I.Size() && B.N == J.Size()
      ensures B.Contents() == Block(Contents(), I.start, J.start, I.Size(), J.Size())
    {
      var A := Contents();
      B := new VarGeneralMatrix.VarGeneral.NoInit(I.Size(), J.Size());
      B.DeepCopy(Block(A, I.start, J.start, I.Size(), J.Size()));
    }

    /** `row(i)`: a copy of row `i`. */
    method Row(i: nat) returns (x: seq<real>)
      requires Valid() && i < M
      ensures x == Contents()[i]
    {
      var r := new real[N];
      var j := 0;
      while j < N
        invariant 0 <= j <= N
        invariant forall q :: 0 <= q < j ==> r[q] == Contents()[i][q]
      {
        ContentsAt(i, j);
        r[j] := Get(i, j);
        j := j + 1;
      }
      x := r[..];
    }

    /** `col(j)`: a `Vector<Fixed<M>>` copy of column `j`. */
    method Column(j: nat) returns (x: seq<real>)
      requires Valid() && j < N
      ensures x == Col(Contents(), j)
    {
      var c := new real[M];
      var i := 0;
      while i < M
        invariant 0 <= i <= M
        invariant forall p :: 0 <= p < i ==> c[p] == Contents()[p][j]
      {
        ContentsAt(i, j);
        c[i] := Get(i, j);
        i := i + 1;
      }
      x := c[..];
    }

    /** `T()`: the `N x M` matrix with `B(i,j) = e(j,i)`, built in a fresh row-major buffer. */
    method T() returns (B: Mat)
      requires Valid()
      ensures B == Transpose(Contents(), N)
    {
      var A := Contents();
      var t := new real[N * M];
      var i := 0;
      while i < N
        invariant 0 <= i <= N
        invariant forall p, q :: 0 <= p < i && 0 <= q < M ==> Rows(t[..], N, M)[p][q] == A[q][p]
      {
        var j := 0;
        while j < M
          invariant 0 <= j <= M
          invariant forall p, q :: 0 <= q < M && (0 <= p < i || (p == i && 0 <= q < j)) ==> Rows(t[..], N, M)[p][q] == A[q][p]
        {
          ContentsAt(j, i);
          RowsUpdate(t[..], N, M, i, j, Get(j, i));
          t[RowMajor(i, j, M)] := Get(j, i);
          j := j + 1;
        }
        i := i + 1;
      }
      B := Rows(t[..], N, M);
      MatEq(B, Transpose(A, N), N, M);
    }

    /** `set(j, x)` for a column vector, `add(j, x)` when `add`. */
    method SetColumn(j: nat, x: seq<real>, add: bool)
      requires Valid() && j < N && M == |x|
      modifies ele
      ensures Valid() && Contents() == WithColumn(old(Contents()), j, x, add)
    {
      ghost var A := Contents();
      var i := 0;
      while i < M
        invariant 0 <= i <= M && Valid()
        invariant forall p, q :: 0 <= p < M && 0 <= q < N ==>
          Contents()[p][q] == if p < i && q == j then (if add then A[p][q] + x[p] else x[p]) else A[p][q]
      {
        ContentsAt(i, j);
        Put(i, j, if add then Get(i, j) + x[i] else x[i]);
        i := i + 1;
      }
      MatEq(Contents(), WithColumn(A, j, x, add), M, N);
    }

    /** Row `i` from column `c0` on overwritten by `b` (increased by `b` when `add`). */
    method SetSlice(i: nat, c0: nat, b: Vec, add: bool)
      requires Valid() && i < M && c0 + |b| <= N
      modifies ele
      ensures Valid() && Contents() == old(Contents())[i := WithSlice(old(Contents())[i], c0, b, add)]
    {
      ghost var A := Contents();
      ghost var r := WithSlice(A[i], c0, b, add);
      var jj := 0;
      while jj < |b|
        invariant 0 <= jj <= |b| && Valid() && |Contents()| == M
        invariant forall p :: 0 <= p < M && p != i ==> Contents()[p] == A[p]
        invariant forall q :: 0 <= q < c0 ==> Contents()[i][q] == r[q]
        invariant forall q :: c0 <= q < c0 + jj ==> Contents()[i][q] == r[q]
        invariant forall q :: c0 + jj <= q < N ==> Contents()[i][q] == A[i][q]
      {
        ContentsAt(i, c0 + jj);
        Put(i, c0 + jj, if add then Get(i, c0 + jj) + b[jj] else b[jj]);
        jj := jj + 1;
      }
      MatEq(Contents(), A[i := r], M, N);
    }

    /** `set(i, x)` for a row vector, `add(i, x)` when `add`. */
    method SetRow(i: nat, x: seq<real>, add: bool)
      requires Valid() && i < M && N == |x|
      modifies ele
      ensures Valid() && Contents() == WithRow(old(Contents()), i, x, add)
    {
      ghost var A := Contents();
      SetSlice(i, 0, x, add);
      assert WithSlice(A[i], 0, x, add) == WithRow(A, i, x, add)[i];
    }

    /** `set(I, J, A)`, `add(I, J, A)` when `add`: only the cells of the block `I x J` change. */
    method SetBlock(I: Range, J: Range, B: Mat, add: bool)
      requires Valid() && I.Valid() && J.Valid() && I.end < M && J.end < N
      requires IsMat(B, I.Size(), J.Size())
      modifies ele
      ensures Valid() && Contents() == WithBlock(old(Contents()), I.start, J.start, B, add)
    {
      ghost var A := Contents();
      ghost var C := WithBlock(A, I.start, J.start, B, add);
      var i := I.start;
      while i <= I.end
        invariant I.start <= i <= I.end + 1 && Valid()
        invariant Contents() == Overlay(A, C, I.start, i)
      {
        SetBlockRow(I, J, B, add, i, A);
        i := i + 1;
      }
      OverlayDone(A, C, I.start, I.end + 1);
    }

    /** Row `i` of `set(I, J, A)`: one more row of the block is written. */
    method SetBlockRow(I: Range, J: Range, B: Mat, add: bool, i: nat, ghost A: Mat)
      requires Valid() && I.Valid() && J.Valid() && I.end < M && J.end < N
      requires IsMat(B, I.Size(), J.Size()) && IsMat(A, M, N) && I.start <= i <= I.end
      requires Contents() == Overlay(A, WithBlock(A, I.start, J.start, B, add), I.start, i)
      modifies ele
      ensures Valid() && Contents() == Overlay(A, WithBlock(A, I.start, J.start, B, add), I.start, i + 1)
    {
      WithBlockStep(A, I.start, J.start, B, add, i);
      SetSlice(i, J.start, B[i - I.start], add);
    }

    /** Conversion to `std::vector<std::vector<AT>>`: `M` rows of `N`. */
    method ToNested() returns (rows: seq<seq<real>>)
      requires Valid()
      ensures rows == Contents()
    {
      rows := [];
      var r := 0;
      while r < M
        invariant 0 <= r <= M && |rows| == r
        invariant forall p :: 0 <= p < r ==> rows[p] == Contents()[p]
      {
        var x := Row(r);
        rows := rows + [x];
        r := r + 1;
      }
    }
  }

  /** The column count the vector-of-vectors constructor takes: that of the first row, if any. */
  function NestedCols(rows: seq<seq<real>>): nat {
    if |rows| == 0 then 0 else |rows[0]|
  }

  /**
   * `Matrix(std::vector<std::vector<AT>> m)`: throws unless there are exactly `M` rows, each
   * as long as the first; otherwise holds a copy of `m`.
   */
  method FromNested(m: nat, rows: seq<seq<real>>) returns (r: Result<FixedVarGeneral>)
    ensures r.Err? <==> (|rows| != m || exists i :: 0 <= i < |rows| && |rows[i]| != NestedCols(rows))
    ensures r.Ok? ==> fresh(r.value) && fresh(r.value.ele) && r.value.Valid()
    ensures r.Ok? ==> r.value.M == m && r.value.N == NestedCols(rows) && r.value.Contents() == rows
  {
    var n := NestedCols(rows);
    if |rows| != m {
      return Err("The input has the wrong number of rows.");
    }
    var k := 0;
    while k < m
      invariant 0 <= k <= m
      invariant forall i :: 0 <= i < k ==> |rows[i]| == n
    {
      if |rows[k]| != n {
        return Err("The rows of the input have different length.");
      }
      k := k + 1;
    }
    var A := new FixedVarGeneral.FromMatrix(m, rows, n);
    return Ok(A);
  }
}
