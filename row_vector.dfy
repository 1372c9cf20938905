/**
 * `RowVector<AT>` of fmatvec 1.0.2: a `1 x n` general matrix over a buffer it may share. With
 * `tp` set the row is stored contiguously, `e(i) = ele[i]`; otherwise it is a row of a
 * column-major matrix, `e(i) = ele[i*lda]`. `>>`, the copy constructor and the subvector
 * operators share the buffer; `<<`, `=` and `copy()` copy.
 */
module LegacyRowVector {
  import opened Dense
  import opened Layout
  import opened RefLayout
  import VectorRef
  import SymmetricRefMatrix

  /** `elePtr(i) - ele`: `i` when transposed, `i*lda` otherwise. */
  function RowAddr(tp: bool, lda: nat, i: nat): nat {
    if tp then i else i * lda
  }

  /** The cells of an `n`-entry row at `off` fit in a buffer of `len`, and `lda` is at least the
      matrix's one row (its `n` columns when transposed). */
  predicate RowFits(len: nat, off: nat, lda: nat, tp: bool, n: nat) {
    (if tp then n <= lda else 1 <= lda) && (n == 0 || off + RowAddr(tp, lda, n - 1) < len)
  }

  /** The row is the one row of the legacy general `1 x n` matrix with the same fields. */
  lemma {:induction false} RowIsGeneral(len: nat, off: nat, lda: nat, tp: bool, n: nat, i: nat)
    ensures RowAddr(tp, lda, i) == GenAddr(tp, lda, 0, i)
    ensures RowFits(len, off, lda, tp, n) <==> GenFits(len, off, lda, tp, 1, n)
  {
  }

  lemma {:induction false} RowAddrBound(len: nat, off: nat, lda: nat, tp: bool, n: nat, i: nat)
    requires RowFits(len, off, lda, tp, n) && i < n
    ensures off + RowAddr(tp, lda, i) < len
  {
    if !tp {
      MulMonotone(i, n - 1, lda);
    }
  }

  /** The row read from `s`. */
  function Line(s: seq<real>, off: nat, lda: nat, tp: bool, n: nat): (v: seq<real>)
    requires RowFits(|s|, off, lda, tp, n)
    ensures |v| == n
  {
    seq(n, i requires 0 <= i < n => RowAddrBound(|s|, off, lda, tp, n, i); s[off + RowAddr(tp, lda, i)])
  }

  lemma {:induction false} LineAt(s: seq<real>, off: nat, lda: nat, tp: bool, n: nat, i: nat)
    requires RowFits(|s|, off, lda, tp, n) && i < n
    ensures off + RowAddr(tp, lda, i) < |s| && Line(s, off, lda, tp, n)[i] == s[off + RowAddr(tp, lda, i)]
  {
    RowAddrBound(|s|, off, lda, tp, n, i);
  }

  /** Entry `i` sits `i` increments `inc()` after `ele`. */
  lemma {:induction false} StrideAddress(tp: bool, lda: nat, i: nat)
    ensures RowAddr(tp, lda, i) == i * (if tp then 1 else lda)
  {
  }

  /** A row vector's entries sit at strictly increasing addresses when the increment is positive. */
  lemma {:induction false} StrictStride(tp: bool, lda: nat, k: nat, i: nat)
    requires k < i && (tp || lda >= 1)
    ensures RowAddr(tp, lda, k) < RowAddr(tp, lda, i)
  {
    if !tp {
      MulMonotone(k + 1, i, lda);
    }
  }

  /** Entry `i` of a row is entry `(i, 0)` of the column read with `tp` flipped. */
  lemma {:induction false} TransposeAddress(tp: bool, lda: nat, i: nat)
    ensures GenAddr(!tp, lda, i, 0) == RowAddr(tp, lda, i)
  {
  }

  /** Entry `k` after entry `a` sits at the address of entry `a + k`. */
  lemma {:induction false} RowAddrShift(tp: bool, lda: nat, a: nat, k: nat)
    ensures RowAddr(tp, lda, a) + RowAddr(tp, lda, k) == RowAddr(tp, lda, a + k)
  {
    if !tp {
      assert (a + k) * lda == a * lda + k * lda;
    }
  }

  /** The row of `size` entries starting at entry `a` is a slice of the whole row. */
  lemma {:induction false} SubLine(s: seq<real>, off: nat, lda: nat, tp: bool, n: nat, a: nat, size: nat)
    requires RowFits(|s|, off, lda, tp, n) && 0 < size && a + size <= n
    ensures RowFits(|s|, off + RowAddr(tp, lda, a), lda, tp, size)
    ensures Line(s, off + RowAddr(tp, lda, a), lda, tp, size) == Line(s, off, lda, tp, n)[a..a + size]
  {
    RowAddrShift(tp, lda, a, size - 1);
    RowAddrBound(|s|, off, lda, tp, n, a + size - 1);
    var sub, whole := Line(s, off + RowAddr(tp, lda, a), lda, tp, size), Line(s, off, lda, tp, n);
    forall k | 0 <= k < size ensures sub[k] == whole[a + k] {
      RowAddrShift(tp, lda, a, k);
      LineAt(s, off + RowAddr(tp, lda, a), lda, tp, size, k);
      LineAt(s, off, lda, tp, n, a + k);
    }
  }

  /** Writing a cell that is none of a row's cells leaves the row as it was. */
  lemma {:induction false} LineKeeps(s: seq<real>, t: nat, v: real, off: nat, lda: nat, tp: bool, n: nat)
    requires RowFits(|s|, off, lda, tp, n) && t < |s|
    requires forall k :: 0 <= k < n ==> off + RowAddr(tp, lda, k) != t
    ensures Line(s[t := v], off, lda, tp, n) == Line(s, off, lda, tp, n)
  {
    forall k | 0 <= k < n ensures Line(s[t := v], off, lda, tp, n)[k] == Line(s, off, lda, tp, n)[k] {
      LineAt(s[t := v], off, lda, tp, n, k);
      LineAt(s, off, lda, tp, n, k);
    }
  }

  class RowVector {
    var n: nat
    var lda: nat
    var tp: bool
    /** Where `ele` points into the shared buffer. */
    var off: nat
    var buf: array?<real>

    ghost predicate Valid()
      reads this
    {
      (buf == null ==> n == 0) && RowFits(if buf == null then 0 else buf.Length, off, lda, tp, n)
    }

    /** The `n` entries. */
    function Contents(): (v: seq<real>)
      reads this, buf
      requires Valid()
      ensures |v| == n
    {
      Line(if buf == null then [] else buf[..], off, lda, tp, n)
    }

    /** `inc()`. */
    function Inc(): nat
      reads this
    {
      if tp then 1 else lda
    }

    /** `operator()(i)`: `tp ? ele[i] : ele[i*lda]`. */
    function Get(i: nat): real
      reads this, buf
      requires Valid() && i < n
    {
      RowAddrBound(buf.Length, off, lda, tp, n, i);
      if tp then buf[off + i] else buf[off + i * lda]
    }

    /** Entry `i` is the `i`-th cell of the buffer `inc()` apart from `ele`, as the element
        operator reads it. */
    lemma {:induction false} ContentsAt(i: nat)
      requires Valid() && i < n
      ensures off + i * Inc() < buf.Length
      ensures Contents()[i] == Get(i) == buf[off + i * Inc()]
    {
      LineAt(buf[..], off, lda, tp, n, i);
      StrideAddress(tp, lda, i);
    }

    /** The buffer cell `t` holds an entry of this row vector. */
    ghost predicate InView(t: int)
      reads this
    {
      exists k: nat :: k < n && t == off + RowAddr(tp, lda, k)
    }

    /** Nothing in the shared buffer `a` changed but this row vector's own cells. */
    twostate predicate OnlyView(a: array?<real>)
      reads this, a
    {
      a != null ==> forall t :: 0 <= t < a.Length && !InView(t) ==> a[t] == old(a[t])
    }

    /** No cell of `x` is one of this row vector's cells. */
    predicate CellsApart(x: RowVector)
      reads this, x
    {
      forall k, i :: 0 <= k < x.n && 0 <= i < n ==> x.off + RowAddr(x.tp, x.lda, k) != off + RowAddr(tp, lda, i)
    }

    /** `x` reads exactly this row vector's cells, entry for entry (`x` is this row vector, or
        a copy-constructed alias of it). */
    predicate SameCells(x: RowVector)
      reads this, x
    {
      x.buf == buf && x.n == n && x.off == off && x.Inc() == Inc()
    }

    /** The element loop copies `x` correctly: other storage, the same cells, or cells apart. */
    predicate CopyableFrom(x: RowVector)
      reads this, x
    {
      x.buf != buf || SameCells(x) || CellsApart(x)
    }

    /** `x(i) = v`: one cell of the shared buffer. */
    method Put(i: nat, v: real)
      requires Valid() && i < n
      modifies buf
      ensures off + RowAddr(tp, lda, i) < buf.Length
      ensures Contents() == old(Contents())[i := v]
      ensures buf[..] == old(buf[..])[off + RowAddr(tp, lda, i) := v]
    {
      RowAddrBound(buf.Length, off, lda, tp, n, i);
      Distinct(i);
      buf[off + RowAddr(tp, lda, i)] := v;
      forall k | 0 <= k < n ensures Contents()[k] == old(Contents())[i := v][k] {
        LineAt(buf[..], off, lda, tp, n, k);
        LineAt(old(buf[..]), off, lda, tp, n, k);
      }
    }

    /** Different entries sit in different cells. */
    lemma {:induction false} Distinct(i: nat)
      requires Valid() && i < n
      ensures forall k :: 0 <= k < n && k != i ==> RowAddr(tp, lda, k) != RowAddr(tp, lda, i)
    {
      forall k | 0 <= k < n && k != i ensures RowAddr(tp, lda, k) != RowAddr(tp, lda, i) {
        if k < i {
          StrictStride(tp, lda, k, i);
        } else {
          StrictStride(tp, lda, i, k);
        }
      }
    }

    /** `RowVector()`: no size, no buffer. */
    constructor Empty()
      ensures Valid() && n == 0 && buf == null
    {
      n, lda, tp, off, buf := 0, 1, false, 0, null;
    }

    /** `RowVector(n, NONINIT)`: fresh storage, `lda = 1`, not transposed. */
    constructor NoInit(n0: nat)
      ensures Valid() && n == n0 && lda == 1 && !tp && off == 0 && buf != null && fresh(buf)
    {
      n, lda, tp, off := n0, 1, false, 0;
      buf := new real[n0];
    }

    /** `RowVector(n, INIT, a)`; `RowVector(n)` is the same with `a = 0`. */
    constructor WithValue(n0: nat, a: real)
      ensures Valid() && n == n0 && buf != null && fresh(buf)
      ensures Contents() == VectorRef.Filled(n0, a)
    {
      n, lda, tp, off := n0, 1, false, 0;
      buf := new real[n0];
      new;
      Init(a);
    }

    /** `RowVector(n, ele)`: a row vector over a caller's buffer. */
    constructor Wrap(n0: nat, a: array<real>)
      requires n0 <= a.Length
      ensures Valid() && n == n0 && buf == a && off == 0
      ensures Contents() == a[..n0]
    {
      n, lda, tp, off, buf := n0, 1, false, 0, a;
      new;
      forall k | 0 <= k < n0 ensures Contents()[k] == a[..n0][k] {
        LineAt(a[..], 0, 1, false, n0, k);
      }
    }

    /** A row vector over `n0` cells of `b` from `off0` on. */
    constructor View(n0: nat, lda0: nat, tp0: bool, off0: nat, b: array?<real>)
      requires (b == null ==> n0 == 0) && RowFits(if b == null then 0 else b.Length, off0, lda0, tp0, n0)
      ensures Valid() && n == n0 && lda == lda0 && tp == tp0 && off == off0 && buf == b
    {
      n, lda, tp, off, buf := n0, lda0, tp0, off0, b;
    }

    /** The copy constructor: a reference to `x`, its memory is not copied. */
    constructor Alias(x: RowVector)
      requires x.Valid()
      ensures Valid() && n == x.n && lda == x.lda && tp == x.tp && off == x.off && buf == x.buf
      ensures Contents() == x.Contents()
    {
      n, lda, tp, off, buf := x.n, x.lda, x.tp, x.off, x.buf;
    }

    /** `resize(n, NONINIT)`: fresh storage. */
    method ResizeNoInit(n0: nat)
      modifies this
      ensures Valid() && n == n0 && lda == 1 && !tp && off == 0 && buf != null && fresh(buf)
    {
      n, lda, tp, off := n0, 1, false, 0;
      buf := new real[n0];
    }

    /** `resize(n, INIT, a)`; `resize(n)` is the same with `a = 0`. */
    method ResizeInit(n0: nat, a: real)
      modifies this
      ensures Valid() && n == n0 && buf != null && fresh(buf)
      ensures Contents() == VectorRef.Filled(n0, a)
    {
      n, lda, tp, off := n0, 1, false, 0;
      buf := new real[n0];
      Init(a);
    }

    /** `init(a)`: `ele[i] = a` when `tp`, `ele[i*lda] = a` otherwise. */
    method Init(a: real)
      requires Valid()
      modifies buf
      ensures Contents() == VectorRef.Filled(n, a)
      ensures OnlyView(buf)
    {
      if tp {
        FillStrided(1, a);
      } else {
        FillStrided(lda, a);
      }
    }

    /** `ele[i*s] = a` for every `i`, with `s = inc()`. */
    method FillStrided(s: nat, a: real)
      requires Valid() && s == Inc()
      modifies buf
      ensures Contents() == VectorRef.Filled(n, a)
      ensures OnlyView(buf)
    {
      if n == 0 {
        return;
      }
      var i := 0;
      while i < n
        invariant 0 <= i <= n
        invariant Contents()[..i] == VectorRef.Filled(n, a)[..i]
        invariant OnlyView(buf)
      {
        StrideAddress(tp, lda, i);
        // ele[i*s] = a
        Put(i, a);
        assert InView(off + RowAddr(tp, lda, i));
        assert Contents()[..i + 1] == VectorRef.Filled(n, a)[..i + 1];
        i := i + 1;
      }
      assert Contents() == Contents()[..n];
    }

    /** `deepCopy(x)`: `this(i) = x(i)` for every `i < size()`, for each of the four
        combinations of `tp` and `x.tp`, from any `x` the loop copies correctly. */
    method DeepCopy(x: RowVector)
      requires Valid() && x.Valid() && x.n == n
      requires CopyableFrom(x)
      modifies buf
      ensures Contents() == old(x.Contents())
      ensures OnlyView(buf)
    {
      if x.buf == buf && SameCells(x) {
        if n > 0 {
          forall k | 0 <= k < n ensures x.Contents()[k] == Contents()[k] {
            x.ContentsAt(k);
            ContentsAt(k);
          }
        }
        CopySelf(Inc());
      } else if tp {
        if x.tp {
          CopyStrided(x, 1, 1);
        } else {
          CopyStrided(x, 1, x.lda);
        }
      } else {
        if x.tp {
          CopyStrided(x, lda, 1);
        } else {
          CopyStrided(x, lda, x.lda);
        }
      }
    }

    /** `ele[i*s] = x.ele[i*xs]` for every `i`, with `s = inc()` and `xs = x.inc()`, from other
        storage or from cells apart from this row vector's. */
    method CopyStrided(x: RowVector, s: nat, xs: nat)
      requires Valid() && x.Valid() && x.n == n && s == Inc() && xs == x.Inc()
      requires x.buf != buf || CellsApart(x)
      modifies buf
      ensures Contents() == old(x.Contents())
      ensures OnlyView(buf)
    {
      ghost var x0 := x.Contents();
      var i := 0;
      while i < n
        invariant 0 <= i <= n
        invariant forall k :: 0 <= k < i ==> Contents()[k] == x0[k]
        invariant x.Valid() && x.Contents() == x0
        invariant OnlyView(buf)
      {
        CopyEntry(x, i, xs);
        assert InView(off + RowAddr(tp, lda, i));
        i := i + 1;
      }
    }

    /** One step of that loop, `ele[i*s] = x.ele[i*xs]`: entry `i` of `x` becomes entry `i`,
        and `x` still reads what it read before. */
    method CopyEntry(x: RowVector, i: nat, xs: nat)
      requires Valid() && x.Valid() && x.n == n && xs == x.Inc() && i < n
      requires x.buf != buf || CellsApart(x)
      modifies buf
      ensures off + RowAddr(tp, lda, i) < buf.Length
      ensures Contents() == old(Contents())[i := old(x.Contents())[i]]
      ensures buf[..] == old(buf[..])[off + RowAddr(tp, lda, i) := old(x.Contents())[i]]
      ensures x.Contents() == old(x.Contents())
    {
      x.ContentsAt(i);
      ghost var b := buf[..];
      var v := x.buf[x.off + i * xs];
      Put(i, v);
      if x.buf == buf {
        LineKeeps(b, off + RowAddr(tp, lda, i), v, x.off, x.lda, x.tp, n);
      }
    }

    /** The same loop with `x` this row vector itself: every cell is overwritten by its own
        value. */
    method CopySelf(s: nat)
      requires Valid() && s == Inc()
      modifies buf
      ensures buf != null ==> buf[..] == old(buf[..])
      ensures Contents() == old(Contents())
    {
      if n == 0 {
        return;
      }
      var i := 0;
      while i < n
        invariant 0 <= i <= n
        invariant buf[..] == old(buf[..])
      {
        StrideAddress(tp, lda, i);
        RowAddrBound(buf.Length, off, lda, tp, n, i);
        buf[off + i * s] := buf[off + i * s];
        i := i + 1;
      }
    }

    /** `operator<<` and `operator=`: nothing for an empty `x`; an empty target first gets fresh
        storage (`lda = 1`, not transposed); then the deep copy. */
    method CopyFrom(x: RowVector)
      requires Valid() && x.Valid()
      requires x.n != 0 && n != 0 ==> n == x.n && CopyableFrom(x)
      modifies this, buf
      ensures Valid()
      ensures old(x.n) == 0 ==> unchanged(this) && (buf != null ==> unchanged(buf))
      ensures old(x.n) != 0 ==> n == old(x.n) && Contents() == old(x.Contents())
      ensures old(x.n) != 0 && old(n) == 0 ==> fresh(buf) && lda == 1 && !tp
      ensures old(x.n) != 0 && old(n) != 0 ==> buf == old(buf) && off == old(off) && lda == old(lda) && tp == old(tp)
    {
      if x.n == 0 {
        return;
      }
      if n == 0 {
        n, lda, tp, off := x.n, 1, false, 0;
        buf := new real[x.n];
      }
      DeepCopy(x);
    }

    /** `operator>>`: takes `x`'s size when empty (otherwise the sizes must agree) and shares
        `x`'s memory, `ele`, `lda` and `tp`. */
    method RefTo(x: RowVector)
      requires x.Valid() && (n == 0 || n == x.n)
      modifies this
      ensures Valid() && n == old(x.n) && buf == old(x.buf) && off == old(x.off)
      ensures lda == old(x.lda) && tp == old(x.tp)
      ensures Contents() == old(x.Contents())
    {
      n, buf, off, lda, tp := x.n, x.buf, x.off, x.lda, x.tp;
    }

    /** `copy()`: fresh storage holding the same entries. */
    method Copy() returns (x: RowVector)
      requires Valid()
      ensures fresh(x) && x.Valid() && x.buf != null && fresh(x.buf) && x.n == n
      ensures x.Contents() == Contents()
    {
      x := new RowVector.NoInit(n);
      x.DeepCopy(this);
    }

    /** `operator()(I)` and `operator()(i1, i2)`: a view of entries `I.start…I.end` at
        `elePtr(I.start)` with the same `lda` and `tp`. */
    method Sub(I: Range) returns (x: RowVector)
      requires Valid() && I.Valid() && I.end < n
      ensures fresh(x) && x.Valid() && x.n == I.Size() && x.buf == buf && x.lda == lda && x.tp == tp
      ensures x.off == off + RowAddr(tp, lda, I.start)
      ensures x.Contents() == Contents()[I.start..I.end + 1]
    {
      var xoff := off + RowAddr(tp, lda, I.start);
      if I.Size() == 0 {
        x := new RowVector.View(0, lda, tp, xoff, buf);
        return;
      }
      SubLine(buf[..], off, lda, tp, n, I.start, I.Size());
      x := new RowVector.View(I.Size(), lda, tp, xoff, buf);
    }

    /** `T()`: the column vector over the same memory with `tp` flipped; its entries are this
        row vector's. */
    method T() returns (v: SymmetricRefMatrix.GeneralRef)
      requires Valid()
      ensures fresh(v) && v.Valid() && v.m == n && v.n == 1 && v.buf == buf && v.off == off
      ensures v.lda == lda && v.tp == !tp
      ensures forall i :: 0 <= i < n ==> v.Contents()[i][0] == Contents()[i]
    {
      if buf != null && n > 0 {
        TransposeAddress(tp, lda, n - 1);
      }
      v := new SymmetricRefMatrix.GeneralRef.View(n, 1, lda, !tp, buf, off);
      forall i | 0 <= i < n ensures v.Contents()[i][0] == Contents()[i] {
        TransposeAddress(tp, lda, i);
        StridedAt(buf[..], off, lda, !tp, n, 1, i, 0);
        LineAt(buf[..], off, lda, tp, n, i);
      }
    }
  }
}
