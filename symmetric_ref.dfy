/**
 * `Matrix<Symmetric,Ref,Ref,AT>` of branches/user/foerg/test: a symmetric `n x n` matrix
 * that keeps one triangle of a buffer it may share with other matrices, starting at an
 * offset (`ele`) with leading dimension `lda`. `GeneralRef` is the general `Ref` view the
 * two-range submatrix operator returns.
 */
module SymmetricRefMatrix {
  import opened Dense
  import opened Layout
  import opened RefLayout

  /** `Matrix<General,Ref,Ref,AT>` as far as a view of a symmetric matrix needs it. */
  class GeneralRef {
    var m: nat
    var n: nat
    var lda: nat
    var tp: bool
    var off: nat
    var buf: array?<real>

    ghost predicate Valid()
      reads this
    {
      (buf == null ==> m == 0 || n == 0) && GenFits(if buf == null then 0 else buf.Length, off, lda, tp, m, n)
    }

    /** The matrix this view reads from the shared buffer. */
    function Contents(): (A: Mat)
      reads this, buf
      requires Valid()
      ensures IsMat(A, m, n)
    {
      Strided(if buf == null then [] else buf[..], off, lda, tp, m, n)
    }

    /** `Matrix(m, n, lda, tp, memory, ele)`: a view, no copy. */
    constructor View(m0: nat, n0: nat, lda0: nat, tp0: bool, buf0: array?<real>, off0: nat)
      requires buf0 == null ==> m0 == 0 || n0 == 0
      requires GenFits(if buf0 == null then 0 else buf0.Length, off0, lda0, tp0, m0, n0)
      ensures Valid() && m == m0 && n == n0 && lda == lda0 && tp == tp0 && buf == buf0 && off == off0
    {
      m, n, lda, tp, buf, off := m0, n0, lda0, tp0, buf0, off0;
    }
  }

  class SymmetricRef {
    var n: nat
    var lda: nat
    /** Where `ele` points into the shared buffer. */
    var off: nat
    var buf: array?<real>

    ghost predicate Valid()
      reads this
    {
      (buf == null ==> n == 0 && lda == 0 && off == 0) &&
      (buf != null ==> SymFits(buf.Length, off, lda, n))
    }

    /** The symmetric matrix the triangle stores. */
    function Contents(): (A: Mat)
      reads this, buf
      requires Valid()
      ensures IsMat(A, n, n)
    {
      Packed(if buf == null then [] else buf[..], off, lda, n)
    }

    /** `e(i,j)`: `ej(i,j)` above the diagonal, `ei(i,j)` on and below it. */
    function Get(i: nat, j: nat): real
      reads this, buf
      requires Valid() && i < n && j < n
    {
      SymAddrBound(buf.Length, off, lda, n, i, j);
      buf[off + SymAddr(lda, i, j)]
    }

    lemma {:induction false} ContentsAt(i: nat, j: nat)
      requires Valid() && i < n && j < n
      ensures Contents()[i][j] == Get(i, j)
    {
      PackedAt(buf[..], off, lda, n, i, j);
    }

    /** `e(i,j) == e(j,i)`, whatever the buffer holds. */
    lemma {:induction false} Mirror()
      requires Valid()
      ensures IsSymmetric(Contents())
    {
      PackedSymmetric(if buf == null then [] else buf[..], off, lda, n);
    }

    /** The buffer cell `k` is `ej(i,j)` of some `i <= j`: one the triangle owns. */
    ghost predicate InUpper(k: int)
      reads this
    {
      exists i: nat, j: nat :: i <= j < n && k == off + Ej(lda, i, j)
    }

    /** The buffer differs from `s` at most in cells the triangle owns. */
    ghost predicate SameOutsideUpper(s: seq<real>)
      reads this, buf
      requires buf != null
    {
      |s| == buf.Length && forall k :: 0 <= k < |s| && !InUpper(k) ==> buf[k] == s[k]
    }

    /** `ej(i,j) = v` for `i <= j`: sets both `(i,j)` and `(j,i)`. */
    method PutUpper(i: nat, j: nat, v: real)
      requires Valid() && i <= j < n
      modifies buf
      ensures Valid() && Contents() == SetSym(old(Contents()), i, j, v)
      ensures buf[..] == old(buf[..])[off + Ej(lda, i, j) := v]
    {
      PackedUpdate(buf[..], off, lda, n, i, j, v);
      buf[off + Ej(lda, i, j)] := v;
    }

    /** `ldim()`. */
    function Ldim(): (l: nat)
      reads this
      ensures l == lda
    {
      lda
    }

    /** `blasOrder()` and `blasUplo()`: column-major, lower triangle. */
    function Order(): StorageOrder {
      ColMajorOrder
    }

    /** A BLAS routine told "column-major, lower, `ldim()`" finds every element on and below the
        diagonal where `e(i,j)` keeps it. */
    lemma {:induction false} BlasLowerMatches(i: nat, j: nat)
      requires Valid() && j <= i < n
      ensures BlasAddress(Order(), Ldim(), i, j) == SymAddr(lda, i, j)
      ensures off + BlasAddress(Order(), Ldim(), i, j) < buf.Length
      ensures Contents()[i][j] == buf[off + BlasAddress(Order(), Ldim(), i, j)]
    {
      ColMajorIsLower(lda, i, j);
      PackedAt(buf[..], off, lda, n, i, j);
    }

    static lemma {:induction false} ColMajorIsLower(l: nat, i: nat, j: nat)
      requires j <= i
      ensures BlasAddress(ColMajorOrder, l, i, j) == SymAddr(l, i, j)
    {
    }

    /** `Matrix()`: no size, no buffer. */
    constructor Empty()
      ensures Valid() && n == 0 && buf == null
    {
      n, lda, off, buf := 0, 0, 0, null;
    }

    /** `Matrix(n, NONINIT)`; `Matrix(m, n, NONINIT)` ignores `m` and is the same. */
    constructor NoInit(n0: nat)
      ensures Valid() && n == n0 && lda == n0 && off == 0 && buf != null && fresh(buf)
    {
      n, lda, off := n0, n0, 0;
      buf := new real[n0 * n0];
      new;
      SquareFits(n0);
    }

    /** `Matrix(n, INIT, a)`. */
    constructor WithValue(n0: nat, a: real)
      ensures Valid() && n == n0 && lda == n0 && buf != null && fresh(buf)
      ensures Contents() == Const(n0, n0, a)
    {
      n, lda, off := n0, n0, 0;
      buf := new real[n0 * n0];
      new;
      SquareFits(n0);
      Init(a);
    }

    /** `Matrix(n, EYE, a)`. */
    constructor Identity(n0: nat, a: real)
      ensures Valid() && n == n0 && lda == n0 && buf != null && fresh(buf)
      ensures Contents() == Eye(n0, n0, a)
    {
      n, lda, off := n0, n0, 0;
      buf := new real[n0 * n0];
      new;
      SquareFits(n0);
      InitEye(a);
    }

    /** `Matrix(n, ele)`: a matrix over a caller's buffer of `n*n` elements. */
    constructor Wrap(n0: nat, a: array<real>)
      requires n0 * n0 <= a.Length
      ensures Valid() && n == n0 && lda == n0 && off == 0 && buf == a
    {
      n, lda, off, buf := n0, n0, 0, a;
      new;
      SquareFits(n0);
    }

    /** The copy constructor: shares `A`'s buffer, offset and `lda`. */
    constructor Alias(A: SymmetricRef)
      requires A.Valid()
      ensures Valid() && n == A.n && lda == A.lda && off == A.off && buf == A.buf
      ensures Contents() == A.Contents()
    {
      n, lda, off, buf := A.n, A.lda, A.off, A.buf;
    }

    /**
     * `Matrix(const Matrix<General,Ref,Ref,AT>&)`: shares a square general matrix's buffer.
     * The transposition flag is not taken over, so the symmetric matrix is the mirrored upper
     * triangle of a transposed view and the mirrored lower triangle of an untransposed one.
     */
    constructor FromGeneralRef(A: GeneralRef)
      requires A.Valid() && A.m == A.n
      ensures Valid() && n == A.n && lda == (if A.buf == null then 0 else A.lda)
      ensures off == (if A.buf == null then 0 else A.off) && buf == A.buf
      ensures A.tp ==> Contents() == SymUpper(A.Contents(), n)
      ensures !A.tp ==> Contents() == SymUpper(Transpose(A.Contents(), n), n)
    {
      n, buf := A.n, A.buf;
      lda, off := if A.buf == null then 0 else A.lda, if A.buf == null then 0 else A.off;
      new;
      if A.n > 0 {
        StridedAsPacked(buf[..], off, lda, A.tp, n);
      }
    }

    /** The converting constructor: fresh storage holding the upper triangle of a square `A`. */
    constructor FromMatrix(A: Mat, k: nat)
      requires IsMat(A, k, k)
      ensures Valid() && n == k && lda == k && buf != null && fresh(buf)
      ensures Contents() == SymUpper(A, k)
    {
      n, lda, off := k, k, 0;
      buf := new real[k * k];
      new;
      SquareFits(k);
      DeepCopy(A);
    }

    /** A fresh `n x n` buffer holds the whole triangle. */
    static lemma {:induction false} SquareFits(k: nat)
      ensures SymFits(k * k, 0, k, k)
    {
      if k > 0 {
        RowMajorBound(k - 1, k - 1, k, k);
      }
    }

    /**
     * `deepCopy(A)`: `ej(i,j) = A.e(i,j)` for every `j >= i`. From a symmetric source, whose
     * `e(i,j)` is its `ej(i,j)` for `j >= i`, this is the other `deepCopy` too.
     */
    method DeepCopy(A: Mat)
      requires Valid() && n <= |A| && forall i :: 0 <= i < n ==> n <= |A[i]|
      modifies buf
      ensures Valid() && Contents() == SymUpper(A, n)
      ensures buf != null ==> SameOutsideUpper(old(buf[..]))
    {
      ghost var s0 := if buf == null then [] else buf[..];
      ghost var S := SymUpper(A, n);
      var i := 0;
      while i < n
        invariant 0 <= i <= n && Valid()
        invariant buf != null ==> SameOutsideUpper(s0)
        invariant forall p, q :: 0 <= p <= q < n && p < i ==> Contents()[p][q] == S[p][q]
      {
        var j := i;
        while j < n
          invariant i <= j <= n && Valid()
          invariant buf != null ==> SameOutsideUpper(s0)
          invariant forall p, q :: 0 <= p <= q < n && (p < i || (p == i && q < j)) ==> Contents()[p][q] == S[p][q]
        {
          PutUpper(i, j, A[i][j]);
          j := j + 1;
        }
        i := i + 1;
      }
      Mirror();
      UpperDetermines(Contents(), S);
    }

    /** `init(a)`: writes `ej(i,j) = a` for `j >= i` and nothing else. */
    method Init(a: real)
      requires Valid()
      modifies buf
      ensures Valid() && Contents() == Const(n, n, a)
      ensures buf != null ==> SameOutsideUpper(old(buf[..]))
    {
      DeepCopy(Const(n, n, a));
      MatEq(SymUpper(Const(n, n, a), n), Const(n, n, a), n, n);
    }

    /** `init(EYE, a)`: `ej(i,i) = a` and `ej(i,j) = 0` for `j > i`, nothing else. */
    method InitEye(a: real)
      requires Valid()
      modifies buf
      ensures Valid() && Contents() == Eye(n, n, a)
      ensures buf != null ==> SameOutsideUpper(old(buf[..]))
    {
      DeepCopy(Eye(n, n, a));
      MatEq(SymUpper(Eye(n, n, a), n), Eye(n, n, a), n, n);
    }

    /** `resize()`: no size, no buffer. */
    method Resize()
      modifies this
      ensures Valid() && n == 0 && buf == null
    {
      n, lda, off, buf := 0, 0, 0, null;
    }

    /** `resize(n, NONINIT)`: fresh `n x n` storage; nothing is shared any more. */
    method ResizeNoInit(n0: nat)
      modifies this
      ensures Valid() && n == n0 && lda == n0 && off == 0 && buf != null && fresh(buf)
    {
      n, lda, off := n0, n0, 0;
      buf := new real[n0 * n0];
      SquareFits(n0);
    }

    /** `resize(n, INIT, a)`. */
    method ResizeInit(n0: nat, a: real)
      modifies this
      ensures Valid() && n == n0 && buf != null && fresh(buf) && Contents() == Const(n0, n0, a)
    {
      ResizeNoInit(n0);
      Init(a);
    }

    /** `resize(n, EYE, a)`. */
    method ResizeEye(n0: nat, a: real)
      modifies this
      ensures Valid() && n == n0 && buf != null && fresh(buf) && Contents() == Eye(n0, n0, a)
    {
      ResizeNoInit(n0);
      InitEye(a);
    }

    /** `operator>>`: from now on this matrix is a second name for `A`'s storage. */
    method AliasFrom(A: SymmetricRef)
      requires A.Valid()
      modifies this
      ensures Valid() && n == A.n && lda == A.lda && off == A.off && buf == A.buf
      ensures Contents() == A.Contents()
    {
      n, lda, off, buf := A.n, A.lda, A.off, A.buf;
    }

    /** No cell of `A`'s triangle is a cell of this matrix's triangle. */
    predicate UpperApart(A: SymmetricRef)
      reads this, A
    {
      forall p, q, i, j :: 0 <= p <= q < A.n && 0 <= i <= j < n ==> A.off + Ej(A.lda, p, q) != off + Ej(lda, i, j)
    }

    /** The loop `ej(i,j) = A.ej(i,j)` copies `A` correctly: other storage, the same triangle
        (`A` is this matrix or an alias of it), or a triangle apart from this one. */
    predicate CopyableFrom(A: SymmetricRef)
      reads this, A
    {
      A.buf == null || A.buf != buf || (A.off == off && A.lda == lda && A.n == n) || UpperApart(A)
    }

    /**
     * `operator=` from a symmetric matrix: a matrix without storage gets fresh `n x n`
     * storage; any other must already be `A.n x A.n` and is written in place. `A` is left as
     * it was, so every `A.ej(i,j)` the loop reads still holds its old value.
     */
    method Assign(A: SymmetricRef)
      requires Valid() && A.Valid() && CopyableFrom(A)
      requires buf != null ==> n == A.n
      modifies this, buf
      ensures Valid() && n == A.n && Contents() == old(A.Contents())
      ensures A.Contents() == old(A.Contents())
      ensures old(buf) != null ==> buf == old(buf) && off == old(off) && lda == old(lda)
    {
      if buf == null {
        ResizeNoInit(A.n);
      }
      var S := A.Contents();
      ghost var s0 := if buf == null then [] else buf[..];
      A.Mirror();
      DeepCopy(S);
      SymUpperOfSymmetric(S);
      if A.buf == buf && A.buf != null && !(A.off == off && A.lda == lda) {
        forall p, q | 0 <= p < A.n && 0 <= q < A.n ensures A.Contents()[p][q] == S[p][q] {
          A.ApartCell(this, s0, p, q);
        }
        MatEq(A.Contents(), S, A.n, A.n);
      }
    }

    /** A cell of this triangle that `B`'s triangle does not own keeps its value in `B`'s
        buffer when `B` changed only cells it owns. */
    lemma {:induction false} ApartCell(B: SymmetricRef, s0: seq<real>, p: nat, q: nat)
      requires Valid() && B.Valid() && buf == B.buf && buf != null && B.UpperApart(this)
      requires B.SameOutsideUpper(s0)
      requires p < n && q < n
      ensures Contents()[p][q] == Packed(s0, off, lda, n)[p][q]
    {
      PackedAt(buf[..], off, lda, n, p, q);
      PackedAt(s0, off, lda, n, p, q);
      SymAddrMirror(lda, p, q);
      var c := off + SymAddr(lda, p, q);
      assert !B.InUpper(c) by {
        if p <= q {
          assert c == off + Ej(lda, p, q);
        } else {
          assert c == off + Ej(lda, q, p);
        }
      }
    }

    /**
     * `operator=` from a general `k`-column matrix: a matrix without storage takes `|A|`
     * as its size (without checking that `A` is square); any other must be `k x k` with
     * `k == n`. Only `A(i,j)` with `j >= i` is read.
     */
    method AssignGeneral(A: Mat, k: nat)
      requires Valid() && IsMat(A, |A|, k) && |A| <= k
      requires buf != null ==> |A| == k && n == k
      modifies this, buf
      ensures Valid() && n == |A| && Contents() == SymUpper(A, |A|)
      ensures old(buf) != null ==> buf == old(buf) && off == old(off) && lda == old(lda)
    {
      if buf == null {
        ResizeNoInit(|A|);
      }
      DeepCopy(A);
    }

    /** `operator<<`: `A` must be square; storage is replaced exactly when the size differs. */
    method CopyFrom(A: Mat, k: nat)
      requires Valid() && IsMat(A, k, k)
      modifies this, buf
      ensures Valid() && n == k && Contents() == SymUpper(A, k)
      ensures old(n) == k ==> buf == old(buf) && off == old(off) && lda == old(lda)
      ensures old(n) != k ==> buf != null && fresh(buf)
    {
      if n != k {
        ResizeNoInit(k);
      }
      DeepCopy(A);
    }

    /** `copy()`: fresh `n x n` storage with the same contents, so later writes to either
        matrix leave the other alone. */
    method Copy() returns (B: SymmetricRef)
      requires Valid()
      ensures fresh(B) && fresh(B.buf) && B.buf != null && B.Valid()
      ensures B.n == n && B.Contents() == Contents()
      ensures Contents() == old(Contents())
    {
      var S := Contents();
      B := new SymmetricRef.NoInit(n);
      Mirror();
      B.DeepCopy(S);
      SymUpperOfSymmetric(S);
    }

    /**
     * `operator()(I, J)`: the block `I x J`, which must lie in one triangle, as a general
     * view over the same buffer: untransposed below the diagonal, transposed above it.
     */
    method SubGeneral(I: Range, J: Range) returns (V: GeneralRef)
      requires Valid() && I.Valid() && J.Valid() && I.end < n && J.end < n && InOneTriangle(I, J)
      ensures fresh(V) && V.Valid() && V.buf == buf && V.lda == lda
      ensures V.off == BlockViewOffset(off, lda, I, J) && V.tp == (I.start < J.start)
      ensures V.m == I.Size() && V.n == J.Size()
      ensures V.Contents() == Block(Contents(), I.start, J.start, I.Size(), J.Size())
    {
      BlockView(if buf == null then [] else buf[..], off, lda, n, I, J);
      V := new GeneralRef.View(I.Size(), J.Size(), lda, I.start < J.start, buf, BlockViewOffset(off, lda, I, J));
    }

    /** `operator()(I)`: the diagonal block `I x I` as a symmetric view over the same buffer. */
    method SubSymmetric(I: Range) returns (V: SymmetricRef)
      requires Valid() && I.Valid() && I.end < n
      ensures fresh(V) && V.Valid() && V.buf == buf && V.lda == lda
      ensures V.off == off + SymAddr(lda, I.start, I.start) && V.n == I.Size()
      ensures V.Contents() == Block(Contents(), I.start, I.start, I.Size(), I.Size())
    {
      DiagonalView(if buf == null then [] else buf[..], off, lda, n, I);
      V := new SymmetricRef.Empty();
      V.n, V.lda, V.off, V.buf := I.Size(), lda, off + SymAddr(lda, I.start, I.start), buf;
    }

    /** A diagonal view keeps reading its parent's block for as long as both exist, whatever
        is written to the shared buffer in between. */
    lemma {:induction false} ViewTracksParent(P: SymmetricRef, r0: nat)
      requires P.Valid() && P.buf != null && buf == P.buf && lda == P.lda
      requires off == P.off + SymAddr(P.lda, r0, r0) && r0 + n <= P.n
      ensures Valid() && Contents() == Block(P.Contents(), r0, r0, n, n)
    {
      DiagonalView(buf[..], P.off, lda, P.n, Range(r0, r0 + n - 1));
    }

    /** `operator std::vector<std::vector<AT>>`: all `n x n` entries through `e(r,c)`. */
    method ToNested() returns (rows: seq<seq<real>>)
      requires Valid()
      ensures rows == Contents() && IsSymmetric(rows)
    {
      rows := [];
      var r := 0;
      while r < n
        invariant 0 <= r <= n && |rows| == r
        invariant forall p :: 0 <= p < r ==> rows[p] == Contents()[p]
      {
        var row := new real[n];
        var c := 0;
        while c < n
          invariant 0 <= c <= n
          invariant forall q :: 0 <= q < c ==> row[q] == Contents()[r][q]
        {
          ContentsAt(r, c);
          row[c] := Get(r, c);
          c := c + 1;
        }
        rows := rows + [row[..]];
        r := r + 1;
      }
      Mirror();
    }
  }
}
