/**
 * `Matrix<Symmetric,Fixed<M>,Fixed<M>,AT>`: a symmetric `M x M` matrix kept in an in-place
 * `AT ele[M][M]`. `ei(i,j)` is `ele[i][j]` and `ej(i,j)` is `ele[j][i]`; `e(i,j)` takes `ej`
 * above the diagonal and `ei` on and below it, so the matrix lives in the cells of `ele` on and
 * below its diagonal, and the cells strictly above it are never read.
 */
module FixedSymmetricMatrix {
  import opened Wrappers
  import opened Dense
  import SymmetricRefMatrix

  const RowCountMessage := "The number of rows does not match."
  const RaggedMessage := "The rows of the input have different length."
  const AsymmetricMessage := "The input is not symmetric."

  class FixedSymmetric {
    /** The template argument `M`. */
    const M: nat
    const ele: array2<real>

    ghost predicate Valid() {
      ele.Length0 == M && ele.Length1 == M
    }

    /** `e(i,j)`, which `operator()(i,j)` returns after checking the bounds. */
    function Get(i: nat, j: nat): real
      reads ele
      requires Valid() && i < M && j < M
    {
      if j > i then ele[j, i] else ele[i, j]
    }

    /** The symmetric matrix the lower triangle of `ele` stores. */
    function Contents(): (A: Mat)
      reads ele
      requires Valid()
      ensures IsMat(A, M, M)
    {
      seq(M, i requires 0 <= i < M reads ele => seq(M, j requires 0 <= j < M reads ele => Get(i, j)))
    }

    /** `ei(i,j)` and `ej(j,i)` are one cell, so `e(i,j) == e(j,i)` whatever `ele` holds. */
    lemma {:induction false} Mirror()
      requires Valid()
      ensures IsSymmetric(Contents())
      ensures forall i, j :: 0 <= i < M && 0 <= j < M ==> Get(i, j) == Get(j, i)
    {
    }

    /** The cells strictly above the diagonal of `ele`, which no `e(i,j)` uses, are as in `old`. */
    twostate predicate UpperUntouched()
      reads ele
      requires Valid()
    {
      forall p, q :: 0 <= p < q < M ==> ele[p, q] == old(ele[p, q])
    }

    /** `ej(i,j) = v` for `i <= j`: sets both `(i,j)` and `(j,i)`. */
    method PutUpper(i: nat, j: nat, v: real)
      requires Valid() && i <= j < M
      modifies ele
      ensures Contents() == SetSym(old(Contents()), i, j, v)
      ensures forall p, q :: 0 <= p < M && 0 <= q < M ==> ele[p, q] == if p == j && q == i then v else old(ele[p, q])
    {
      ele[j, i] := v;
      MatEq(Contents(), SetSym(old(Contents()), i, j, v), M, M);
    }

    /** `operator()(i,j) = v`: writes `e(i,j)`, so `(j,i)` reads `v` too. */
    method Put(i: nat, j: nat, v: real)
      requires Valid() && i < M && j < M
      modifies ele
      ensures Contents() == SetSym(old(Contents()), i, j, v)
      ensures UpperUntouched()
    {
      ghost var C := Contents();
      if j > i {
        PutUpper(i, j, v);
      } else {
        PutUpper(j, i, v);
        MatEq(SetSym(C, j, i, v), SetSym(C, i, j, v), M, M);
      }
    }

    /** `Matrix(NONINIT)`. */
    constructor NoInit(m0: nat)
      ensures Valid() && M == m0 && fresh(ele)
    {
      M := m0;
      ele := new real[m0, m0];
    }

    /** `Matrix(INIT, a)`, the default constructor with `a = 0`. */
    constructor WithValue(m0: nat, a: real)
      ensures Valid() && M == m0 && fresh(ele)
      ensures Contents() == Const(m0, m0, a)
    {
      M := m0;
      ele := new real[m0, m0];
      new;
      Init(a);
    }

    /** `Matrix(EYE, a)`. */
    constructor Identity(m0: nat, a: real)
      ensures Valid() && M == m0 && fresh(ele)
      ensures Contents() == Eye(m0, m0, a)
    {
      M := m0;
      ele := new real[m0, m0];
      new;
      InitEye(a);
    }

    /** `Matrix(m, n, NONINIT)`: the sizes must both be `M`. */
    constructor SizedNoInit(m0: nat, m: int, n: int)
      requires m == m0 && n == m0
      ensures Valid() && M == m0 && fresh(ele)
    {
      M := m0;
      ele := new real[m0, m0];
    }

    /** `Matrix(m, n, INIT, a)`. */
    constructor SizedWithValue(m0: nat, m: int, n: int, a: real)
      requires m == m0 && n == m0
      ensures Valid() && M == m0 && fresh(ele)
      ensures Contents() == Const(m0, m0, a)
    {
      M := m0;
      ele := new real[m0, m0];
      new;
      Init(a);
    }

    /** `Matrix(m, n, EYE, a)`. */
    constructor SizedIdentity(m0: nat, m: int, n: int, a: real)
      requires m == m0 && n == m0
      ensures Valid() && M == m0 && fresh(ele)
      ensures Contents() == Eye(m0, m0, a)
    {
      M := m0;
      ele := new real[m0, m0];
      new;
      InitEye(a);
    }

    /** The defaulted copy constructor: a fresh array holding every cell of `A`'s. */
    constructor Copy(A: FixedSymmetric)
      requires A.Valid()
      ensures Valid() && M == A.M && fresh(ele)
      ensures forall p, q :: 0 <= p < M && 0 <= q < M ==> ele[p, q] == A.ele[p, q]
      ensures Contents() == A.Contents()
    {
      M := A.M;
      ele := new real[A.M, A.M];
      new;
      AssignFixed(A);
    }

    /** `Matrix(const Matrix<Symmetric,Row,Row,AT>&)`: asserts the size is `M`, then copies. */
    constructor FromSymmetric(m0: nat, A: SymmetricRefMatrix.SymmetricRef)
      requires A.Valid() && A.n == m0
      ensures Valid() && M == m0 && fresh(ele)
      ensures Contents() == A.Contents()
    {
      M := m0;
      ele := new real[m0, m0];
      new;
      CopySymmetric(A);
    }

    /** `Matrix(const Matrix<Type,Row,Col,AT>&)`: asserts `M x M`, then keeps the upper triangle. */
    constructor FromMatrix(m0: nat, A: Mat)
      requires IsMat(A, m0, m0)
      ensures Valid() && M == m0 && fresh(ele)
      ensures Contents() == SymUpper(A, m0)
    {
      M := m0;
      ele := new real[m0, m0];
      new;
      CopyGeneral(A);
    }

    /** `copy(const Matrix<Type,Row,Col,AT>&)`: `ej(i,j) = A.e(i,j)` for `j >= i`, nothing else. */
    method CopyGeneral(A: Mat)
      requires Valid() && IsMat(A, M, M)
      modifies ele
      ensures Contents() == SymUpper(A, M)
      ensures UpperUntouched()
    {
      var i := 0;
      while i < M
        invariant 0 <= i <= M
        invariant UpperUntouched()
        invariant forall p, q :: 0 <= q <= p < M && q < i ==> ele[p, q] == A[q][p]
      {
        var j := i;
        while j < M
          invariant i <= j <= M
          invariant UpperUntouched()
          invariant forall p, q :: 0 <= q <= p < M && (q < i || (q == i && p < j)) ==> ele[p, q] == A[q][p]
        {
          ele[j, i] := A[i][j];
          j := j + 1;
        }
        i := i + 1;
      }
      MatEq(Contents(), SymUpper(A, M), M, M);
    }

    /** `copy(const Matrix<Symmetric,Row,Row,AT>&)`: `ej(i,j) = A.ej(i,j)` for `j >= i`. */
    method CopySymmetric(A: SymmetricRefMatrix.SymmetricRef)
      requires Valid() && A.Valid() && A.n == M
      modifies ele
      ensures Contents() == A.Contents()
      ensures UpperUntouched()
    {
      ghost var S := A.Contents();
      var i := 0;
      while i < M
        invariant 0 <= i <= M
        invariant UpperUntouched()
        invariant forall p, q :: 0 <= q <= p < M && q < i ==> ele[p, q] == S[q][p]
      {
        var j := i;
        while j < M
          invariant i <= j <= M
          invariant UpperUntouched()
          invariant forall p, q :: 0 <= q <= p < M && (q < i || (q == i && p < j)) ==> ele[p, q] == S[q][p]
        {
          A.ContentsAt(i, j);
          ele[j, i] := A.Get(i, j);
          j := j + 1;
        }
        i := i + 1;
      }
      A.Mirror();
      Mirror();
      UpperDetermines(Contents(), S);
    }

    /** `init(val)`: writes `ej(i,j) = val` for `j >= i` and nothing else. */
    method Init(a: real)
      requires Valid()
      modifies ele
      ensures Contents() == Const(M, M, a)
      ensures UpperUntouched()
    {
      CopyGeneral(Const(M, M, a));
      MatEq(SymUpper(Const(M, M, a), M), Const(M, M, a), M, M);
    }

    /** `init(EYE, val)`: `ej(i,i) = val` and `ej(i,j) = 0` for `j > i`, nothing else. */
    method InitEye(a: real)
      requires Valid()
      modifies ele
      ensures Contents() == Eye(M, M, a)
      ensures UpperUntouched()
    {
      CopyGeneral(Eye(M, M, a));
      MatEq(SymUpper(Eye(M, M, a), M), Eye(M, M, a), M, M);
    }

    /** The defaulted `operator=`: every cell of `A`'s array, read before any is written. */
    method AssignFixed(A: FixedSymmetric)
      requires Valid() && A.Valid() && A.M == M
      modifies ele
      ensures forall p, q :: 0 <= p < M && 0 <= q < M ==> ele[p, q] == old(A.ele[p, q])
      ensures Contents() == old(A.Contents())
    {
      if A.ele == ele {
        MatEq(Contents(), old(A.Contents()), M, M);
        return;
      }
      var i := 0;
      while i < M
        invariant 0 <= i <= M
        invariant forall p, q :: 0 <= p < i && 0 <= q < M ==> ele[p, q] == old(A.ele[p, q])
        invariant forall p, q :: 0 <= p < M && 0 <= q < M ==> A.ele[p, q] == old(A.ele[p, q])
      {
        var j := 0;
        while j < M
          invariant 0 <= j <= M
          invariant forall p, q :: 0 <= p < M && 0 <= q < M && (p < i || (p == i && q < j)) ==> ele[p, q] == old(A.ele[p, q])
          invariant forall p, q :: 0 <= p < M && 0 <= q < M ==> A.ele[p, q] == old(A.ele[p, q])
        {
          ele[i, j] := A.ele[i, j];
          j := j + 1;
        }
        i := i + 1;
      }
      MatEq(Contents(), old(A.Contents()), M, M);
    }

    /** `operator=(const Matrix<Type,Row,Col,AT>&)` and `operator<<=`: asserts `A` is square of
        size `M`, then keeps its upper triangle. */
    method Assign(A: Mat)
      requires Valid() && IsMat(A, |A|, |A|) && |A| == M
      modifies ele
      ensures Contents() == SymUpper(A, M)
      ensures UpperUntouched()
    {
      CopyGeneral(A);
    }

    /** `operator=` from another symmetric matrix, which picks the symmetric `copy`. */
    method AssignSymmetric(A: SymmetricRefMatrix.SymmetricRef)
      requires Valid() && A.Valid() && A.n == M
      modifies ele
      ensures Contents() == A.Contents()
      ensures UpperUntouched()
    {
      CopySymmetric(A);
    }

    /** `resize(n, m)`: nothing to do when both are `M`, a `runtime_error` otherwise. */
    method Resize(n: int, m: int) returns (r: Outcome)
      ensures r.Success? <==> n == M && m == M
      ensures r.Failure? ==> r.error == "A fixed symmetric matrix cannot be resized."
    {
      if n != M || m != M {
        return Failure("A fixed symmetric matrix cannot be resized.");
      }
      return Success;
    }

    /** `operator std::vector<std::vector<AT>>()`: `ret[r][c] = ret[c][r] = ej(r,c)` for `c >= r`. */
    method ToNested() returns (rows: seq<seq<real>>)
      requires Valid()
      ensures rows == Contents() && IsSymmetric(rows)
    {
      var ret := new real[M, M];
      var r := 0;
      while r < M
        invariant 0 <= r <= M
        invariant forall p, q :: 0 <= p < M && 0 <= q < M && (p < r || q < r) ==> ret[p, q] == Get(p, q)
      {
        var c := r;
        while c < M
          invariant r <= c <= M
          invariant forall p, q :: 0 <= p < M && 0 <= q < M && (p < r || q < r || (p == r && q < c) || (q == r && p < c)) ==> ret[p, q] == Get(p, q)
        {
          ret[r, c] := ele[c, r];
          if c > r {
            ret[c, r] := ele[c, r];
          }
          c := c + 1;
        }
        r := r + 1;
      }
      rows := seq(M, i requires 0 <= i < M reads ret => seq(M, j requires 0 <= j < M reads ret => ret[i, j]));
      MatEq(rows, Contents(), M, M);
      Mirror();
    }
  }

  /** `Matrix(const std::vector<std::vector<AT>>&)` with each row's length checked before it is
      read: `rows` must be `size` rows of `size` entries forming a symmetric matrix. The symmetry
      test is exact; the relative tolerance of `1e-13` is not modelled. */
  method FromNested(size: nat, rows: seq<seq<real>>) returns (r: Result<FixedSymmetric>)
    ensures r.Err? <==> !IsMat(rows, size, size) || !IsSymmetric(rows)
    ensures |rows| != size ==> r == Err(RowCountMessage)
    ensures r.Ok? ==> r.value.Valid() && r.value.M == size && fresh(r.value.ele)
    ensures r.Ok? ==> r.value.Contents() == rows
  {
    if |rows| != size {
      return Err(RowCountMessage);
    }
    var A := new FixedSymmetric.NoInit(size);
    var i := 0;
    while i < size
      invariant 0 <= i <= size
      invariant forall q :: 0 <= q < size && (i > 0 || q < i) ==> |rows[q]| == size
      invariant forall p, q :: 0 <= p < i && p < q < size ==> rows[p][q] == rows[q][p]
      invariant forall p, q :: 0 <= q <= p < size && q < i ==> A.ele[p, q] == rows[q][p]
    {
      if |rows[i]| != size {
        return Err(RaggedMessage);
      }
      var j := i;
      while j < size
        invariant i <= j <= size
        invariant forall q :: 0 <= q < size && (i > 0 || q == 0 || q < j) ==> |rows[q]| == size
        invariant forall p, q :: 0 <= p < size && p < q < size && (p < i || (p == i && q < j)) ==> rows[p][q] == rows[q][p]
        invariant forall p, q :: 0 <= q <= p < size && (q < i || (q == i && p < j)) ==> A.ele[p, q] == rows[q][p]
      {
        A.ele[j, i] := rows[i][j];
        if j > i {
          if |rows[j]| != size {
            return Err(RaggedMessage);
          }
          if rows[i][j] != rows[j][i] {
            return Err(AsymmetricMessage);
          }
        }
        j := j + 1;
      }
      i := i + 1;
    }
    assert IsMat(rows, size, size);
    forall p, q | 0 <= p < size && 0 <= q < size ensures A.Contents()[p][q] == rows[p][q] {
      if q < p {
        assert rows[q][p] == rows[p][q];
      }
    }
    MatEq(A.Contents(), rows, size, size);
    return Ok(A);
  }

  // The vector-of-vectors constructor as written.

  /** How the constructor's loop ends: it accepts, it throws, or it reads `rows[row][col]` past the
      end of `rows[row]`, whose length it has not checked yet. */
  datatype Scan = Accepted | Throws(message: string) | ReadsOutside(row: nat, col: nat)

  /** Column `c` onwards of row `r`: `ej(r,c) = m[r][c]`, then for `c > r` the comparison reads
      `m[c][r]`. Row `r`'s own length has already been checked. */
  function ScanColumns(rows: seq<seq<real>>, size: nat, r: nat, c: nat): Scan
    requires |rows| == size && r < size && |rows[r]| == size && r <= c <= size
    decreases size - c
  {
    if c == size then Accepted
    else if c > r && r >= |rows[c]| then ReadsOutside(c, r)
    else if c > r && rows[r][c] != rows[c][r] then Throws(AsymmetricMessage)
    else ScanColumns(rows, size, r, c + 1)
  }

  /** Row `r` onwards: row `r`'s length is checked only when the outer loop reaches it. */
  function ScanRows(rows: seq<seq<real>>, size: nat, r: nat): Scan
    requires |rows| == size && r <= size
    decreases size - r
  {
    if r == size then Accepted
    else if |rows[r]| != size then Throws(RaggedMessage)
    else
      var s := ScanColumns(rows, size, r, r);
      if s.Accepted? then ScanRows(rows, size, r + 1) else s
  }

  /** The constructor as written. */
  function ScanAsWritten(rows: seq<seq<real>>, size: nat): Scan {
    if |rows| != size then Throws(RowCountMessage) else ScanRows(rows, size, 0)
  }

  /** `M = 2` and `{{1,2},{}}`: row 0 passes its length check, and `c = 1` then reads `m[1][0]`
      of the empty row 1 before row 1's length is ever checked. */
  lemma {:induction false} AsWrittenReadsOutside()
    ensures ScanAsWritten([[1.0, 2.0], []], 2) == ReadsOutside(1, 0)
  {
    var rows: seq<seq<real>> := [[1.0, 2.0], []];
    assert ScanColumns(rows, 2, 0, 1) == ReadsOutside(1, 0);
    assert ScanColumns(rows, 2, 0, 0) == ReadsOutside(1, 0);
  }

  /** On a row `r` whose later rows all have `size` entries, the column scan accepts exactly when
      the rest of row `r` mirrors column `r`. */
  lemma {:induction false} ScanColumnsSquare(rows: seq<seq<real>>, size: nat, r: nat, c: nat)
    requires IsMat(rows, size, size) && r < size && r <= c <= size
    ensures ScanColumns(rows, size, r, c) ==
      if forall q :: c <= q < size ==> rows[r][q] == rows[q][r] then Accepted else Throws(AsymmetricMessage)
    decreases size - c
  {
    if c < size {
      ScanColumnsSquare(rows, size, r, c + 1);
    }
  }

  /** On `size` rows of `size` entries the row scan accepts exactly when rows `r` onwards mirror
      their columns on and above the diagonal. */
  lemma {:induction false} ScanRowsSquare(rows: seq<seq<real>>, size: nat, r: nat)
    requires IsMat(rows, size, size) && r <= size
    ensures ScanRows(rows, size, r) ==
      if forall p, q :: r <= p <= q < size ==> rows[p][q] == rows[q][p] then Accepted else Throws(AsymmetricMessage)
    decreases size - r
  {
    if r < size {
      ScanColumnsSquare(rows, size, r, r);
      ScanRowsSquare(rows, size, r + 1);
      if ScanColumns(rows, size, r, r).Accepted? && ScanRows(rows, size, r + 1).Accepted? {
        forall p, q | r <= p <= q < size ensures rows[p][q] == rows[q][p] {
          if p == r {
            assert r <= q < size;
          }
        }
      }
    }
  }

  /** Once every row has its `size` entries, the constructor as written and the corrected one agree:
      it accepts the symmetric inputs and throws "not symmetric" for the others. */
  lemma {:induction false} AsWrittenAgreesOnSquare(rows: seq<seq<real>>, size: nat)
    requires IsMat(rows, size, size)
    ensures ScanAsWritten(rows, size) == if IsSymmetric(rows) then Accepted else Throws(AsymmetricMessage)
  {
    ScanRowsSquare(rows, size, 0);
    if forall p, q :: 0 <= p <= q < size ==> rows[p][q] == rows[q][p] {
      forall p, q | 0 <= p < size && 0 <= q < size ensures rows[p][q] == rows[q][p] {
        if q < p {
          assert rows[q][p] == rows[p][q];
        }
      }
    }
  }
}
