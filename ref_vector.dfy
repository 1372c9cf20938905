/**
 * `Vector<Ref,AT>`: a column vector of `m` entries over a buffer it may share with other
 * vectors and matrices. `e(i)` is `ele[i]`, and `ele` points `off` cells into the shared buffer
 * (`memory`); `ref` and `&=` make two vectors view one buffer, `operator()(Range)` and
 * `operator()(Indices)` copy.
 */
module VectorRef {
  import opened Layout

  /** `n` entries, each `a`. */
  function Filled(n: nat, a: real): (v: seq<real>)
    ensures |v| == n && forall i :: 0 <= i < n ==> v[i] == a
  {
    seq(n, _ => a)
  }

  /** `v` after `v[I[k]] := x[k]` for `k = 0, 1, …` in turn: a repeated index keeps the last write. */
  function Scatter(v: seq<real>, I: seq<nat>, x: seq<real>): (w: seq<real>)
    requires |I| == |x| && forall k :: 0 <= k < |I| ==> I[k] < |v|
    ensures |w| == |v|
    decreases |I|
  {
    if |I| == 0 then v
    else Scatter(v, I[..|I| - 1], x[..|I| - 1])[I[|I| - 1] := x[|I| - 1]]
  }

  /** Scattering one more entry is one more update. */
  lemma {:induction false} ScatterSnoc(v: seq<real>, I: seq<nat>, x: seq<real>, i: nat)
    requires |I| == |x| && forall k :: 0 <= k < |I| ==> I[k] < |v|
    requires i < |I|
    ensures Scatter(v, I[..i + 1], x[..i + 1]) == Scatter(v, I[..i], x[..i])[I[i] := x[i]]
  {
    assert I[..i + 1][..i] == I[..i] && x[..i + 1][..i] == x[..i];
  }

  /** The indices `I` moved `o` cells on. */
  function Shifted(I: seq<nat>, o: nat): (J: seq<nat>)
    ensures |J| == |I| && forall k :: 0 <= k < |I| ==> J[k] == o + I[k]
  {
    seq(|I|, k requires 0 <= k < |I| => o + I[k])
  }

  /** Scattering into the window `o .. o+m-1` of a buffer is scattering into the window. */
  lemma {:induction false} ScatterWindow(b: seq<real>, o: nat, m: nat, I: seq<nat>, x: seq<real>)
    requires o + m <= |b| && |I| == |x| && forall k :: 0 <= k < |I| ==> I[k] < m
    ensures Scatter(b, Shifted(I, o), x)[o..o + m] == Scatter(b[o..o + m], I, x)
    ensures forall t :: 0 <= t < |b| && !(o <= t < o + m) ==> Scatter(b, Shifted(I, o), x)[t] == b[t]
    decreases |I|
  {
    if |I| > 0 {
      var n := |I|;
      var I', x' := I[..n - 1], x[..n - 1];
      assert Shifted(I, o)[..n - 1] == Shifted(I', o);
      ScatterWindow(b, o, m, I', x');
      var w := Scatter(b, Shifted(I', o), x');
      assert Scatter(b, Shifted(I, o), x) == w[o + I[n - 1] := x[n - 1]];
      assert w[o + I[n - 1] := x[n - 1]][o..o + m] == w[o..o + m][I[n - 1] := x[n - 1]];
    }
  }

  /** Without repeated indices, every listed position holds its entry of `x` and every other
      position keeps its entry of `v`. */
  lemma {:induction false} ScatterMeaning(v: seq<real>, I: seq<nat>, x: seq<real>)
    requires |I| == |x| && forall k :: 0 <= k < |I| ==> I[k] < |v|
    requires forall k, l :: 0 <= k < l < |I| ==> I[k] != I[l]
    ensures forall k :: 0 <= k < |I| ==> Scatter(v, I, x)[I[k]] == x[k]
    ensures forall t :: 0 <= t < |v| && t !in I ==> Scatter(v, I, x)[t] == v[t]
    decreases |I|
  {
    if |I| > 0 {
      var I', x' := I[..|I| - 1], x[..|I| - 1];
      ScatterMeaning(v, I', x');
      forall k | 0 <= k < |I| - 1 ensures Scatter(v, I, x)[I[k]] == x[k] {
        assert I'[k] == I[k] && x'[k] == x[k];
      }
    }
  }

  /** A repeated index keeps the last value written to it: `I = [0, 0]`, `x = [1, 2]`. */
  lemma {:induction false} ScatterLastWins()
    ensures Scatter([0.0], [0, 0], [1.0, 2.0]) == [2.0]
  {
    assert Scatter([0.0], [0], [1.0]) == [1.0];
  }

  /** Nothing in `a` outside the cells `lo..hi-1` changed. */
  twostate predicate OnlyWindow(a: array?<real>, lo: int, hi: int)
    reads a
  {
    a != null ==> forall t :: 0 <= t < a.Length && !(lo <= t < hi) ==> a[t] == old(a[t])
  }

  /** `v` with the `|x|` entries from position `s` on replaced by (`add` false) or increased by
      (`add` true) the entries of `x`. */
  function Splice(v: seq<real>, s: nat, x: seq<real>, add: bool): (w: seq<real>)
    requires s + |x| <= |v|
    ensures |w| == |v|
    ensures forall t {:trigger w[t]} :: 0 <= t < |v| ==> w[t] == if s <= t < s + |x| then (if add then v[t] + x[t - s] else x[t - s]) else v[t]
  {
    seq(|v|, t requires 0 <= t < |v| => if s <= t < s + |x| then (if add then v[t] + x[t - s] else x[t - s]) else v[t])
  }

  /** Splicing changes nothing outside the window, and inside it gives the entry-wise result. */
  lemma {:induction false} SpliceWindow(v: seq<real>, s: nat, x: seq<real>, add: bool)
    requires s + |x| <= |v|
    ensures Splice(v, s, x, add)[..s] == v[..s]
    ensures Splice(v, s, x, add)[s + |x|..] == v[s + |x|..]
    ensures Splice(v, s, x, add)[s..s + |x|] == WithRange(v[s..s + |x|], x, add)
  {
    var w := Splice(v, s, x, add);
    var wt, vt := w[s + |x|..], v[s + |x|..];
    forall t | 0 <= t < |wt| ensures wt[t] == vt[t] {
      assert wt[t] == w[s + |x| + t];
    }
    assert wt == vt;
  }

  class RefVector {
    var m: nat
    var lda: nat
    /** Where `ele` points into the shared buffer. */
    var off: nat
    var buf: array?<real>

    ghost predicate Valid()
      reads this
    {
      (buf == null ==> m == 0 && off == 0) && (buf != null ==> off + m <= buf.Length)
    }

    /** The `m` entries `ele[0..m)`. */
    function Contents(): (v: seq<real>)
      reads this, buf
      requires Valid()
      ensures |v| == m
    {
      if buf == null then [] else buf[off..off + m]
    }

    /** `operator()(i)` and `e(i)`. */
    function Get(i: nat): real
      reads this, buf
      requires Valid() && i < m
    {
      buf[off + i]
    }

    /** `x(i) = v`: one cell of the shared buffer. */
    method Put(i: nat, v: real)
      requires Valid() && i < m
      modifies buf
      ensures Contents() == old(Contents())[i := v]
      ensures buf[..] == old(buf[..])[off + i := v]
    {
      buf[off + i] := v;
    }

    /** `Vector()`: no size, no buffer. */
    constructor Empty()
      ensures Valid() && m == 0 && buf == null
    {
      m, lda, off, buf := 0, 0, 0, null;
    }

    /** `Vector(m, NONINIT)`. */
    constructor NoInit(m0: nat)
      ensures Valid() && m == m0 && off == 0 && buf != null && fresh(buf)
    {
      m, lda, off := m0, m0, 0;
      buf := new real[m0];
    }

    /** `Vector(m, INIT, a)`. */
    constructor WithValue(m0: nat, a: real)
      ensures Valid() && m == m0 && off == 0 && buf != null && fresh(buf)
      ensures Contents() == Filled(m0, a)
    {
      m, lda, off := m0, m0, 0;
      buf := new real[m0];
      new;
      Init(a);
    }

    /** `Vector(m, ele)`: a vector over a caller's buffer. */
    constructor Wrap(m0: nat, a: array<real>)
      requires m0 <= a.Length
      ensures Valid() && m == m0 && off == 0 && buf == a
      ensures Contents() == a[..m0]
    {
      m, lda, off, buf := m0, m0, 0, a;
    }

    /** `Vector(const std::vector<AT>&)`: fresh storage holding `v`. */
    constructor FromSeq(v: seq<real>)
      ensures Valid() && m == |v| && buf != null && fresh(buf)
      ensures Contents() == v
    {
      var a := new real[|v|];
      var i := 0;
      while i < |v|
        invariant 0 <= i <= |v|
        invariant forall k :: 0 <= k < i ==> a[k] == v[k]
      {
        a[i] := v[i];
        i := i + 1;
      }
      m, lda, off, buf := |v|, |v|, 0, a;
    }

    /** `operator std::vector<AT>()`. */
    method ToSeq() returns (v: seq<real>)
      requires Valid()
      ensures v == Contents()
    {
      var r := new real[m];
      var i := 0;
      while i < m
        invariant 0 <= i <= m
        invariant forall k :: 0 <= k < i ==> r[k] == Contents()[k]
      {
        r[i] := buf[off + i];
        i := i + 1;
      }
      v := r[..];
    }

    /** `resize(m, NONINIT)`: fresh storage; nothing is shared any more. */
    method ResizeNoInit(m0: nat)
      modifies this
      ensures Valid() && m == m0 && off == 0 && buf != null && fresh(buf)
    {
      m, lda, off := m0, m0, 0;
      buf := new real[m0];
    }

    /** `resize(m, INIT, a)`. */
    method ResizeInit(m0: nat, a: real)
      modifies this
      ensures Valid() && m == m0 && off == 0 && buf != null && fresh(buf)
      ensures Contents() == Filled(m0, a)
    {
      m, lda, off := m0, m0, 0;
      buf := new real[m0];
      Init(a);
    }

    /** `init(val)`: every entry, through the shared buffer. */
    method Init(a: real)
      requires Valid()
      modifies buf
      ensures Contents() == Filled(m, a)
      ensures OnlyWindow(buf, off, off + m)
    {
      var i := 0;
      while i < m
        invariant 0 <= i <= m
        invariant buf != null ==> forall t :: off <= t < off + i ==> buf[t] == a
        invariant OnlyWindow(buf, off, off + i)
      {
        buf[off + i] := a;
        i := i + 1;
      }
      assert forall k :: 0 <= k < m ==> Contents()[k] == buf[off + k];
    }

    /** Reading `x` at `x.off + k` while `ele[shift + k]` is written for `k = 0, 1, …` never
        reads a cell already overwritten: other storage, a source that starts no earlier, or a
        source that ends before the first written cell. */
    predicate ReadsAhead(x: RefVector, shift: nat)
      reads this, x
    {
      x.buf != buf || x.off >= off + shift || x.off + x.m <= off + shift
    }

    /** `set(I, x)` and `add(I, x)`: `ele[I.start + k] (+)= x.e(k)` for `k < I.size()`. Entries
        outside the range, and cells outside it in the shared buffer, keep their values. */
    method SetRange(I: Range, x: RefVector, add: bool)
      requires Valid() && x.Valid() && I.Valid() && I.end < m && I.Size() == x.m
      requires ReadsAhead(x, I.start)
      modifies buf
      ensures Contents() == Splice(old(Contents()), I.start, old(x.Contents()), add)
      ensures OnlyWindow(buf, off + I.start, off + I.end + 1)
    {
      if x.m == 0 {
        assert Splice(old(Contents()), I.start, x.Contents(), add) == Contents();
        return;
      }
      WriteRange(I.start, x, add);
    }

    /** `set` and `add` on a nonempty range, stated on the window `ele[0..m)` of the buffer. */
    method WriteRange(s: nat, x: RefVector, add: bool)
      requires Valid() && x.Valid() && s + x.m <= m && x.m > 0
      requires ReadsAhead(x, s)
      modifies buf
      ensures buf[off..off + m] == Splice(old(buf[off..off + m]), s, old(x.Contents()), add)
      ensures OnlyWindow(buf, off + s, off + s + x.m)
    {
      SpliceWindowInto(buf, off, m, s, x.buf, x.off, x.m, add, buf[off..off + m], x.Contents());
    }

    /** `set` and `add` on the window `o .. o+m-1` of the buffer `b`, from position `s` of the
        window on: the window is spliced and no cell outside the written range changes. */
    static method SpliceWindowInto(b: array<real>, o: nat, m: nat, s: nat, xb: array<real>, xo: nat, n: nat, add: bool,
                                   ghost v: seq<real>, ghost x: seq<real>)
      requires o + m <= b.Length && s + n <= m && xo + n <= xb.Length
      requires xb == b ==> xo >= o + s || xo + n <= o + s
      requires v == b[o..o + m] && x == xb[xo..xo + n]
      modifies b
      ensures b[o..o + m] == Splice(v, s, x, add)
      ensures forall t :: 0 <= t < b.Length && !(o + s <= t < o + s + n) ==> b[t] == old(b[t])
    {
      ghost var b0 := b[..];
      SpliceInto(b, o + s, xb, xo, n, add, x);
      SpliceSlice(b0, o, m, s, x, add);
      assert b0[o..o + m] == v;
      ghost var b1 := b[..];
      assert b[o..o + m] == b1[o..o + m];
      forall t | 0 <= t < b.Length && !(o + s <= t < o + s + n) ensures b[t] == old(b[t]) {
        assert b[t] == b1[t] && old(b[t]) == b0[t];
      }
    }

    /** The loop of `set` and `add` on the raw buffers: `b[p + k] (+)= xb[xo + k]` for
        `k < n`; when `xb` is `b`, it is read no earlier than it is written, or it ends before
        the written cells begin. */
    static method SpliceInto(b: array<real>, p: nat, xb: array<real>, xo: nat, n: nat, add: bool, ghost x0: seq<real>)
      requires p + n <= b.Length && xo + n <= xb.Length && x0 == xb[xo..xo + n]
      requires xb == b ==> xo >= p || xo + n <= p
      modifies b
      ensures b[..] == Splice(old(b[..]), p, x0, add)
    {
      ghost var b0 := b[..];
      var k := 0;
      while k < n
        invariant 0 <= k <= n
        invariant forall t :: 0 <= t < b.Length ==> b[t] == if p <= t < p + k then (if add then b0[t] + x0[t - p] else x0[t - p]) else b0[t]
        invariant xb != b ==> xb[xo..xo + n] == x0
      {
        var a := xb[xo + k];
        assert a == x0[k];
        b[p + k] := if add then b[p + k] + a else a;
        k := k + 1;
      }
      ghost var w := Splice(b0, p, x0, add);
      assert forall t :: 0 <= t < b.Length ==> b[..][t] == w[t];
    }

    /** A splice inside a window of the buffer is a splice of the window. */
    static lemma {:induction false} SpliceSlice(b: seq<real>, off: nat, m: nat, s: nat, x: seq<real>, add: bool)
      requires off + m <= |b| && s + |x| <= m
      ensures Splice(b, off + s, x, add)[off..off + m] == Splice(b[off..off + m], s, x, add)
    {
      var u, w := Splice(b, off + s, x, add)[off..off + m], Splice(b[off..off + m], s, x, add);
      forall t | 0 <= t < m ensures u[t] == w[t] {
        assert u[t] == Splice(b, off + s, x, add)[off + t];
      }
    }

    /** `operator=`: asserts equal sizes, then `e(i) = x.e(i)` for every `i`. */
    method Assign(x: RefVector)
      requires Valid() && x.Valid() && m == x.m
      requires ReadsAhead(x, 0)
      modifies buf
      ensures Contents() == old(x.Contents())
      ensures OnlyWindow(buf, off, off + m)
    {
      if m > 0 {
        SetRange(Range(0, m - 1), x, false);
      }
    }

    /** `operator<<=`: fresh storage when the sizes differ, then the copy. */
    method CopyFrom(x: RefVector)
      requires Valid() && x.Valid()
      requires m == x.m ==> ReadsAhead(x, 0)
      modifies this, buf
      ensures Valid() && m == old(x.m) && Contents() == old(x.Contents())
      ensures old(m) != old(x.m) ==> fresh(buf) && off == 0
      ensures old(m) == old(x.m) ==> buf == old(buf) && off == old(off)
    {
      if m != x.m {
        ResizeNoInit(x.m);
      }
      Assign(x);
    }

    /** `operator&=(Vector<Ref,AT>&)`: shares `x`'s memory, `ele` and `lda`. */
    method RefTo(x: RefVector)
      requires x.Valid()
      modifies this
      ensures Valid() && m == x.m && buf == x.buf && off == x.off && lda == x.lda
      ensures Contents() == x.Contents()
    {
      m, buf, off, lda := x.m, x.buf, x.off, x.lda;
    }

    /** `ref(x, I)`: shares `x`'s memory from `x.elePtr(I.start)` on, for `I.size()` entries. */
    method RefRange(x: RefVector, I: Range)
      requires x.Valid() && I.Valid() && I.end < x.m
      modifies this
      ensures Valid() && m == I.Size() && buf == old(x.buf) && off == old(x.off) + I.start && lda == old(x.lda)
      ensures Contents() == old(x.Contents())[I.start..I.end + 1]
    {
      var b, o, n := x.buf, x.off, x.m;
      ghost var whole := x.Contents();
      m, buf, off, lda := I.Size(), b, o + I.start, x.lda;
      if b != null {
        SliceOfSlice(b[..], o, n, I.start, I.Size());
        assert whole == b[..][o..o + n];
      }
    }

    /** A slice of a slice is a slice. */
    static lemma SliceOfSlice(b: seq<real>, o: nat, n: nat, s: nat, k: nat)
      requires o + n <= |b| && s + k <= n
      ensures b[o..o + n][s..s + k] == b[o + s..o + s + k]
    {
      var u, w := b[o..o + n][s..s + k], b[o + s..o + s + k];
      forall i | 0 <= i < k ensures u[i] == w[i] {
        assert u[i] == b[o..o + n][s + i];
      }
    }

    /** A view made by `ref(x, I)` reads `x`'s entries `I.start…I.end` in every state of the
        shared buffer, so a write through either is seen through the other. */
    lemma {:induction false} ViewTracksParent(x: RefVector, I: Range)
      requires x.Valid() && I.Valid() && I.end < x.m
      requires m == I.Size() && buf == x.buf && off == x.off + I.start
      ensures Valid() && Contents() == x.Contents()[I.start..I.end + 1]
      ensures forall k :: 0 <= k < m ==> Get(k) == x.Get(I.start + k)
    {
      if buf != null {
        SliceOfSlice(buf[..], x.off, x.m, I.start, m);
        assert x.Contents() == buf[..][x.off..x.off + x.m];
        assert Contents() == buf[..][off..off + m];
      }
    }

    /** `operator()(Range)`: asserts `I.end < m` and returns a fresh copy of entries
        `I.start…I.end`. */
    method SubRange(I: Range) returns (x: RefVector)
      requires Valid() && I.Valid() && I.end < m
      ensures fresh(x) && x.Valid() && x.buf != null && fresh(x.buf)
      ensures x.Contents() == Contents()[I.start..I.end + 1]
    {
      x := new RefVector.NoInit(I.Size());
      var i := 0;
      while i < x.m
        invariant 0 <= i <= x.m && x.Valid() && x.off == 0 && x.m == I.Size() && x.buf != null && fresh(x.buf)
        invariant forall k :: 0 <= k < i ==> x.buf[k] == Contents()[I.start + k]
      {
        x.buf[i] := buf[off + I.start + i];
        i := i + 1;
      }
    }

    /** `operator()(Indices)`: asserts every index is below `m`; entry `k` is `e(I[k])`. */
    method SubIndices(I: seq<nat>) returns (x: RefVector)
      requires Valid() && forall k :: 0 <= k < |I| ==> I[k] < m
      ensures fresh(x) && x.Valid() && x.buf != null && fresh(x.buf) && x.m == |I|
      ensures forall k :: 0 <= k < |I| ==> x.Contents()[k] == Contents()[I[k]]
    {
      x := new RefVector.NoInit(|I|);
      var i := 0;
      while i < |I|
        invariant 0 <= i <= |I| && x.Valid() && x.off == 0 && x.m == |I| && x.buf != null && fresh(x.buf)
        invariant forall k :: 0 <= k < i ==> x.buf[k] == Contents()[I[k]]
      {
        x.buf[i] := buf[off + I[i]];
        i := i + 1;
      }
    }

    /** `set(Indices, x)`: `e(I[k]) = x.e(k)` for `k = 0, 1, …`; `x` is other storage, or no
        written cell `ele[I[k]]` is one of `x`'s cells. */
    method SetIndices(I: seq<nat>, x: RefVector)
      requires Valid() && x.Valid() && |I| == x.m && forall k :: 0 <= k < |I| ==> I[k] < m
      requires x.buf != buf || forall k :: 0 <= k < |I| ==> off + I[k] < x.off || x.off + x.m <= off + I[k]
      modifies buf
      ensures Contents() == Scatter(old(Contents()), I, old(x.Contents()))
      ensures OnlyWindow(buf, off, off + m)
    {
      if |I| == 0 {
        return;
      }
      assert I[0] < m;
      ScatterWindowInto(buf, off, m, I, x.buf, x.off, Contents(), x.Contents());
    }

    /** `set(Indices, x)` on the window `o .. o+m-1` of the buffer `b`: the window is
        scattered into and no cell outside it changes. */
    static method ScatterWindowInto(b: array<real>, o: nat, m: nat, I: seq<nat>, xb: array<real>, xo: nat,
                                    ghost v: seq<real>, ghost x: seq<real>)
      requires o + m <= b.Length && (forall k :: 0 <= k < |I| ==> I[k] < m) && xo + |I| <= xb.Length
      requires xb == b ==> forall k :: 0 <= k < |I| ==> o + I[k] < xo || xo + |I| <= o + I[k]
      requires v == b[o..o + m] && x == xb[xo..xo + |I|]
      modifies b
      ensures b[o..o + m] == Scatter(v, I, x)
      ensures forall t :: 0 <= t < b.Length && !(o <= t < o + m) ==> b[t] == old(b[t])
    {
      ghost var b0 := b[..];
      ScatterInto(b, Shifted(I, o), xb, xo);
      ScatterWindow(b0, o, m, I, x);
      assert b0[o..o + m] == v;
    }

    /** The loop of `set(Indices, x)` on the raw buffers: `b[J[k]] = xb[xo + k]` for
        `k = 0, 1, …`; when `xb` is `b`, no written cell is one that is read. */
    static method ScatterInto(b: array<real>, J: seq<nat>, xb: array<real>, xo: nat)
      requires (forall k :: 0 <= k < |J| ==> J[k] < b.Length) && xo + |J| <= xb.Length
      requires xb == b ==> forall k :: 0 <= k < |J| ==> J[k] < xo || xo + |J| <= J[k]
      modifies b
      ensures b[..] == Scatter(old(b[..]), J, old(xb[xo..xo + |J|]))
    {
      ghost var b0, x0 := b[..], xb[xo..xo + |J|];
      var i := 0;
      while i < |J|
        invariant 0 <= i <= |J|
        invariant b[..] == Scatter(b0, J[..i], x0[..i])
        invariant xb[xo..xo + |J|] == x0
      {
        ScatterSnoc(b0, J, x0, i);
        assert xb[xo + i] == x0[i];
        b[J[i]] := xb[xo + i];
        i := i + 1;
      }
      assert J[..|J|] == J && x0[..|J|] == x0;
    }

    /** `T()`: a fresh row vector with the same entries. */
    method T() returns (r: seq<real>)
      requires Valid()
      ensures |r| == m && forall i :: 0 <= i < m ==> r[i] == Get(i)
    {
      r := ToSeq();
    }
  }

  /** The range part of `set` (`add` false) or `add` (`add` true). */
  function WithRange(v: seq<real>, x: seq<real>, add: bool): (w: seq<real>)
    requires |v| == |x|
    ensures |w| == |v|
    ensures forall k :: 0 <= k < |v| ==> w[k] == if add then v[k] + x[k] else x[k]
  {
    seq(|v|, k requires 0 <= k < |v| => if add then v[k] + x[k] else x[k])
  }
}
