/**
 * Addressing of the legacy `Ref` storage: a buffer shared between views, an offset into it
 * (the `ele` pointer) and a leading dimension `lda`.
 *
 * - A general `Ref` matrix stores column by column, `ele[i + j*lda]`; a transposed one
 *   (`tp`) row by row, `ele[i*lda + j]`.
 * - A symmetric `Ref` matrix keeps one triangle: `ei(i,j) = ele[i + j*lda]`,
 *   `ej(i,j) = ele[i*lda + j]`, and `e(i,j)` is `ej` above the diagonal and `ei` on and
 *   below it.
 */
module RefLayout {
  import opened Dense
  import opened Layout

  /** `ei(i,j)`: offset `i + j*lda`. */
  function Ei(lda: nat, i: nat, j: nat): nat {
    i + j * lda
  }

  /** `ej(i,j)`: offset `i*lda + j`. */
  function Ej(lda: nat, i: nat, j: nat): nat {
    RowMajor(i, j, lda)
  }

  /** `e(i,j)` of a symmetric matrix. */
  function SymAddr(lda: nat, i: nat, j: nat): nat {
    if j > i then Ej(lda, i, j) else Ei(lda, i, j)
  }

  /** `ei(i,j)` and `ej(j,i)` are one cell, so `e(i,j)` and `e(j,i)` are too. */
  lemma {:induction false} SymAddrMirror(lda: nat, i: nat, j: nat)
    ensures Ei(lda, j, i) == Ej(lda, i, j)
    ensures SymAddr(lda, i, j) == SymAddr(lda, j, i)
    ensures SymAddr(lda, i, j) == if i <= j then Ej(lda, i, j) else Ej(lda, j, i)
  {
  }

  /** All cells of an `n x n` symmetric matrix at `off` fit in a buffer of `len`. */
  predicate SymFits(len: nat, off: nat, lda: nat, n: nat) {
    n <= lda && (n == 0 || off + Ej(lda, n - 1, n - 1) < len)
  }

  lemma {:induction false} SymAddrBound(len: nat, off: nat, lda: nat, n: nat, i: nat, j: nat)
    requires SymFits(len, off, lda, n) && i < n && j < n
    ensures off + SymAddr(lda, i, j) < len
  {
    if i <= j {
      MulMonotone(i, n - 1, lda);
    } else {
      MulMonotone(j, n - 1, lda);
    }
  }

  /** The symmetric matrix a buffer holds. */
  function Packed(s: seq<real>, off: nat, lda: nat, n: nat): (A: Mat)
    requires SymFits(|s|, off, lda, n)
    ensures IsMat(A, n, n)
  {
    seq(n, i requires 0 <= i < n =>
      seq(n, j requires 0 <= j < n => SymAddrBound(|s|, off, lda, n, i, j); s[off + SymAddr(lda, i, j)]))
  }

  lemma {:induction false} PackedAt(s: seq<real>, off: nat, lda: nat, n: nat, i: nat, j: nat)
    requires SymFits(|s|, off, lda, n) && i < n && j < n
    ensures off + SymAddr(lda, i, j) < |s| && Packed(s, off, lda, n)[i][j] == s[off + SymAddr(lda, i, j)]
  {
    SymAddrBound(|s|, off, lda, n, i, j);
  }

  /** Whatever the buffer holds, the matrix read from it is symmetric. */
  lemma {:induction false} PackedSymmetric(s: seq<real>, off: nat, lda: nat, n: nat)
    requires SymFits(|s|, off, lda, n)
    ensures IsSymmetric(Packed(s, off, lda, n))
  {
    var A := Packed(s, off, lda, n);
    forall i, j | 0 <= i < n && 0 <= j < n ensures A[i][j] == A[j][i] {
      PackedAt(s, off, lda, n, i, j);
      PackedAt(s, off, lda, n, j, i);
    }
  }

  /** Writing `ej(i,j)` for `i <= j` changes the entries `(i,j)` and `(j,i)` and no other. */
  lemma {:induction false} PackedUpdate(s: seq<real>, off: nat, lda: nat, n: nat, i: nat, j: nat, v: real)
    requires SymFits(|s|, off, lda, n) && i <= j < n
    ensures off + Ej(lda, i, j) < |s|
    ensures Packed(s[off + Ej(lda, i, j) := v], off, lda, n) == SetSym(Packed(s, off, lda, n), i, j, v)
  {
    SymAddrBound(|s|, off, lda, n, i, j);
    var k := off + Ej(lda, i, j);
    var A, B := Packed(s[k := v], off, lda, n), SetSym(Packed(s, off, lda, n), i, j, v);
    forall p, q | 0 <= p < n && 0 <= q < n ensures A[p][q] == B[p][q] {
      PackedAt(s[k := v], off, lda, n, p, q);
      PackedAt(s, off, lda, n, p, q);
      if off + SymAddr(lda, p, q) == k {
        if p <= q {
          RowMajorInjective(p, q, i, j, lda);
        } else {
          RowMajorInjective(q, p, i, j, lda);
        }
      }
    }
    MatEq(A, B, n, n);
  }

  /** `tp ? ele[i*lda + j] : ele[i + j*lda]`: element `(i,j)` of a general `Ref` matrix. */
  function GenAddr(tp: bool, lda: nat, i: nat, j: nat): nat {
    if tp then Ej(lda, i, j) else Ei(lda, i, j)
  }

  /** All cells of an `m x n` general matrix at `off` fit in a buffer of `len`, and the
      leading dimension covers a column (a row when transposed). */
  predicate GenFits(len: nat, off: nat, lda: nat, tp: bool, m: nat, n: nat) {
    (if tp then n <= lda else m <= lda) &&
    (m == 0 || n == 0 || off + GenAddr(tp, lda, m - 1, n - 1) < len)
  }

  lemma {:induction false} GenAddrBound(len: nat, off: nat, lda: nat, tp: bool, m: nat, n: nat, i: nat, j: nat)
    requires GenFits(len, off, lda, tp, m, n) && i < m && j < n
    ensures off + GenAddr(tp, lda, i, j) < len
  {
    if tp {
      MulMonotone(i, m - 1, lda);
    } else {
      MulMonotone(j, n - 1, lda);
    }
  }

  /** The general matrix a buffer holds. */
  function Strided(s: seq<real>, off: nat, lda: nat, tp: bool, m: nat, n: nat): (A: Mat)
    requires GenFits(|s|, off, lda, tp, m, n)
    ensures IsMat(A, m, n)
  {
    seq(m, i requires 0 <= i < m =>
      seq(n, j requires 0 <= j < n => GenAddrBound(|s|, off, lda, tp, m, n, i, j); s[off + GenAddr(tp, lda, i, j)]))
  }

  lemma {:induction false} StridedAt(s: seq<real>, off: nat, lda: nat, tp: bool, m: nat, n: nat, i: nat, j: nat)
    requires GenFits(|s|, off, lda, tp, m, n) && i < m && j < n
    ensures off + GenAddr(tp, lda, i, j) < |s| && Strided(s, off, lda, tp, m, n)[i][j] == s[off + GenAddr(tp, lda, i, j)]
  {
    GenAddrBound(|s|, off, lda, tp, m, n, i, j);
  }

  /** Entry `(i,j)` of a square general matrix read as a symmetric one is entry
      `(min, max)` of the general matrix, or `(max, min)` when it is not transposed. */
  lemma {:induction false} StridedAsPackedAt(s: seq<real>, off: nat, lda: nat, tp: bool, n: nat, i: nat, j: nat)
    requires GenFits(|s|, off, lda, tp, n, n) && i < n && j < n
    ensures SymFits(|s|, off, lda, n)
    ensures var p, q := if i <= j then i else j, if i <= j then j else i;
      Packed(s, off, lda, n)[i][j] == if tp then Strided(s, off, lda, tp, n, n)[p][q] else Strided(s, off, lda, tp, n, n)[q][p]
  {
    assert GenAddr(tp, lda, n - 1, n - 1) == Ej(lda, n - 1, n - 1);
    PackedAt(s, off, lda, n, i, j);
    SymAddrMirror(lda, i, j);
    var p, q := if i <= j then i else j, if i <= j then j else i;
    StridedAt(s, off, lda, tp, n, n, p, q);
    StridedAt(s, off, lda, tp, n, n, q, p);
  }

  /** The cells of a square general matrix, read as a symmetric matrix, hold the upper
      triangle of a transposed view and the mirrored lower triangle of an untransposed one. */
  lemma {:induction false} StridedAsPacked(s: seq<real>, off: nat, lda: nat, tp: bool, n: nat)
    requires GenFits(|s|, off, lda, tp, n, n)
    ensures SymFits(|s|, off, lda, n)
    ensures tp ==> Packed(s, off, lda, n) == SymUpper(Strided(s, off, lda, tp, n, n), n)
    ensures !tp ==> Packed(s, off, lda, n) == SymUpper(Transpose(Strided(s, off, lda, tp, n, n), n), n)
  {
    if n > 0 {
      assert GenAddr(tp, lda, n - 1, n - 1) == Ej(lda, n - 1, n - 1);
      var G := Strided(s, off, lda, tp, n, n);
      var U := if tp then G else Transpose(G, n);
      forall i, j | 0 <= i < n && 0 <= j < n ensures Packed(s, off, lda, n)[i][j] == SymUpper(U, n)[i][j] {
        StridedAsPackedAt(s, off, lda, tp, n, i, j);
      }
      MatEq(Packed(s, off, lda, n), SymUpper(U, n), n, n);
    }
  }

  /**
   * The general view `(I, J)` of a symmetric matrix: when the block lies below the diagonal
   * it starts at `ei(I.start, J.start)` untransposed, otherwise at `ei(J.start, I.start)`
   * transposed. Either way it reads exactly the block of the symmetric matrix.
   */
  function BlockViewOffset(off: nat, lda: nat, I: Range, J: Range): nat {
    if I.start >= J.start then off + Ei(lda, I.start, J.start) else off + Ei(lda, J.start, I.start)
  }

  predicate InOneTriangle(I: Range, J: Range) {
    if I.start >= J.start then J.end <= I.start else I.end <= J.start
  }

  lemma {:induction false} BlockViewAddr(off: nat, lda: nat, I: Range, J: Range, p: nat, q: nat)
    requires I.Valid() && J.Valid() && InOneTriangle(I, J) && p < I.Size() && q < J.Size()
    ensures BlockViewOffset(off, lda, I, J) + GenAddr(I.start < J.start, lda, p, q) ==
      off + SymAddr(lda, I.start + p, J.start + q)
  {
    var i, j := I.start + p, J.start + q;
    if I.start < J.start {
      assert i <= j;
      calc {
        BlockViewOffset(off, lda, I, J) + GenAddr(true, lda, p, q);
        off + J.start + I.start * lda + p * lda + q;
        { assert i * lda == I.start * lda + p * lda; }
        off + i * lda + j;
        off + Ej(lda, i, j);
      }
      SymAddrMirror(lda, i, j);
    } else {
      assert j <= i;
      calc {
        BlockViewOffset(off, lda, I, J) + GenAddr(false, lda, p, q);
        off + I.start + J.start * lda + p + q * lda;
        { assert j * lda == J.start * lda + q * lda; }
        off + Ei(lda, i, j);
      }
    }
  }

  lemma {:induction false} BlockView(s: seq<real>, off: nat, lda: nat, n: nat, I: Range, J: Range)
    requires SymFits(|s|, off, lda, n) && I.Valid() && J.Valid() && I.end < n && J.end < n
    requires InOneTriangle(I, J)
    ensures var voff, tp := BlockViewOffset(off, lda, I, J), I.start < J.start;
      GenFits(|s|, voff, lda, tp, I.Size(), J.Size()) &&
      Strided(s, voff, lda, tp, I.Size(), J.Size()) == Block(Packed(s, off, lda, n), I.start, J.start, I.Size(), J.Size())
  {
    var voff, tp := BlockViewOffset(off, lda, I, J), I.start < J.start;
    var m, k := I.Size(), J.Size();
    BlockViewFits(s, off, lda, n, I, J);
    var A, B := Strided(s, voff, lda, tp, m, k), Block(Packed(s, off, lda, n), I.start, J.start, m, k);
    forall p, q | 0 <= p < m && 0 <= q < k ensures A[p][q] == B[p][q] {
      BlockViewAt(s, off, lda, n, I, J, p, q);
    }
    MatEq(A, B, m, k);
  }

  lemma {:induction false} BlockViewFits(s: seq<real>, off: nat, lda: nat, n: nat, I: Range, J: Range)
    requires SymFits(|s|, off, lda, n) && I.Valid() && J.Valid() && I.end < n && J.end < n
    requires InOneTriangle(I, J)
    ensures GenFits(|s|, BlockViewOffset(off, lda, I, J), lda, I.start < J.start, I.Size(), J.Size())
  {
    var m, k := I.Size(), J.Size();
    if m > 0 && k > 0 {
      BlockViewAddr(off, lda, I, J, m - 1, k - 1);
      SymAddrBound(|s|, off, lda, n, I.end, J.end);
    }
  }

  lemma {:induction false} BlockViewAt(s: seq<real>, off: nat, lda: nat, n: nat, I: Range, J: Range, p: nat, q: nat)
    requires SymFits(|s|, off, lda, n) && I.Valid() && J.Valid() && I.end < n && J.end < n
    requires InOneTriangle(I, J) && p < I.Size() && q < J.Size()
    requires GenFits(|s|, BlockViewOffset(off, lda, I, J), lda, I.start < J.start, I.Size(), J.Size())
    ensures var voff, tp := BlockViewOffset(off, lda, I, J), I.start < J.start;
      Strided(s, voff, lda, tp, I.Size(), J.Size())[p][q] ==
      Block(Packed(s, off, lda, n), I.start, J.start, I.Size(), J.Size())[p][q]
  {
    var voff, tp := BlockViewOffset(off, lda, I, J), I.start < J.start;
    BlockViewAddr(off, lda, I, J, p, q);
    StridedAt(s, voff, lda, tp, I.Size(), J.Size(), p, q);
    PackedAt(s, off, lda, n, I.start + p, J.start + q);
  }

  lemma {:induction false} DiagonalViewAddr(off: nat, lda: nat, r0: nat, p: nat, q: nat)
    ensures off + SymAddr(lda, r0, r0) + SymAddr(lda, p, q) == off + SymAddr(lda, r0 + p, r0 + q)
  {
    assert (r0 + p) * lda == r0 * lda + p * lda;
    assert (r0 + q) * lda == r0 * lda + q * lda;
  }

  /** The symmetric view `(I)` starts at `e(I.start, I.start)` with the parent's `lda` and
      reads exactly the diagonal block. */
  lemma {:induction false} DiagonalView(s: seq<real>, off: nat, lda: nat, n: nat, I: Range)
    requires SymFits(|s|, off, lda, n) && I.Valid() && I.end < n
    ensures var voff := off + SymAddr(lda, I.start, I.start);
      SymFits(|s|, voff, lda, I.Size()) &&
      Packed(s, voff, lda, I.Size()) == Block(Packed(s, off, lda, n), I.start, I.start, I.Size(), I.Size())
  {
    var voff, m := off + SymAddr(lda, I.start, I.start), I.Size();
    DiagonalViewFits(s, off, lda, n, I);
    var A, B := Packed(s, voff, lda, m), Block(Packed(s, off, lda, n), I.start, I.start, m, m);
    forall p, q | 0 <= p < m && 0 <= q < m ensures A[p][q] == B[p][q] {
      DiagonalViewAt(s, off, lda, n, I, p, q);
    }
    MatEq(A, B, m, m);
  }

  lemma {:induction false} DiagonalViewFits(s: seq<real>, off: nat, lda: nat, n: nat, I: Range)
    requires SymFits(|s|, off, lda, n) && I.Valid() && I.end < n
    ensures SymFits(|s|, off + SymAddr(lda, I.start, I.start), lda, I.Size())
  {
    var m := I.Size();
    if m > 0 {
      DiagonalViewAddr(off, lda, I.start, m - 1, m - 1);
      SymAddrBound(|s|, off, lda, n, I.end, I.end);
    }
  }

  lemma {:induction false} DiagonalViewAt(s: seq<real>, off: nat, lda: nat, n: nat, I: Range, p: nat, q: nat)
    requires SymFits(|s|, off, lda, n) && I.Valid() && I.end < n && p < I.Size() && q < I.Size()
    requires SymFits(|s|, off + SymAddr(lda, I.start, I.start), lda, I.Size())
    ensures Packed(s, off + SymAddr(lda, I.start, I.start), lda, I.Size())[p][q] ==
      Block(Packed(s, off, lda, n), I.start, I.start, I.Size(), I.Size())[p][q]
  {
    var voff := off + SymAddr(lda, I.start, I.start);
    DiagonalViewAddr(off, lda, I.start, p, q);
    PackedAt(s, voff, lda, I.Size(), p, q);
    PackedAt(s, off, lda, n, I.start + p, I.start + q);
  }

  /** A write through the diagonal view lands on the parent: the parent then reads the
      written value at the shifted mirror pair. */
  lemma {:induction false} DiagonalViewWrite(s: seq<real>, off: nat, lda: nat, n: nat, r0: nat, i: nat, j: nat, v: real)
    requires SymFits(|s|, off, lda, n) && i <= j && r0 + j < n
    ensures off + SymAddr(lda, r0, r0) + Ej(lda, i, j) == off + Ej(lda, r0 + i, r0 + j)
    ensures off + Ej(lda, r0 + i, r0 + j) < |s|
    ensures Packed(s[off + SymAddr(lda, r0, r0) + Ej(lda, i, j) := v], off, lda, n) ==
      SetSym(Packed(s, off, lda, n), r0 + i, r0 + j, v)
  {
    assert (r0 + i) * lda == r0 * lda + i * lda;
    PackedUpdate(s, off, lda, n, r0 + i, r0 + j, v);
  }
}
