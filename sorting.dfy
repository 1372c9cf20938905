/**
 * Row sorting of fmatvec/linear_algebra.h (and the identical legacy copies): `bubbleSort` and
 * `quickSortMedian` reorder the rows of a copy of a general matrix so that the entries of one
 * pivot column ascend. Rows move as whole values (`A.set(j, A.row(j + 1))` and the legacy
 * deep-copying `A.row(j) = ...` both copy the row), so the matrix is an array of row vectors.
 */
module RowSorting {
  import opened Dense

  /**
   * The sort key of a row. Every row the sorts compare holds the pivot column; the `0.0`
   * branch only makes the key total.
   */
  function Key(row: Vec, c: nat): real {
    if c < |row| then row[c] else 0.0
  }

  /** The rows' keys ascend. */
  predicate SortedBy(s: seq<Vec>, c: nat) {
    forall p, q :: 0 <= p < q < |s| ==> Key(s[p], c) <= Key(s[q], c)
  }

  /** The keys of rows `lo .. hi-1` ascend. */
  predicate SortedOn(s: seq<Vec>, c: nat, lo: int, hi: int) {
    0 <= lo && hi <= |s| && forall p, q :: lo <= p < q < hi ==> Key(s[p], c) <= Key(s[q], c)
  }

  predicate AtMost(s: seq<Vec>, c: nat, lo: int, hi: int, pivot: real) {
    0 <= lo && hi <= |s| && forall k :: lo <= k < hi ==> Key(s[k], c) <= pivot
  }

  predicate AtLeast(s: seq<Vec>, c: nat, lo: int, hi: int, pivot: real) {
    0 <= lo && hi <= |s| && forall k :: lo <= k < hi ==> pivot <= Key(s[k], c)
  }

  /** `t` agrees with `s` outside rows `lo .. hi-1`. */
  predicate Outside(t: seq<Vec>, s: seq<Vec>, lo: int, hi: int) {
    |t| == |s| && forall k :: 0 <= k < |s| && !(lo <= k < hi) ==> t[k] == s[k]
  }

  /** The three-statement row exchange through `tmp`. */
  method SwapRows(a: array<Vec>, i: nat, j: nat)
    requires i < a.Length && j < a.Length
    modifies a
    ensures a[i] == old(a[j]) && a[j] == old(a[i])
    ensures forall k :: 0 <= k < a.Length && k != i && k != j ==> a[k] == old(a[k])
    ensures multiset(a[..]) == old(multiset(a[..]))
  {
    var tmp := a[i];
    a[i] := a[j];
    a[j] := tmp;
    assert a[..] == old(a[..])[i := old(a[j])][j := old(a[i])];
  }

  /** A permutation that leaves everything outside a segment alone permutes the segment. */
  lemma {:induction false} SegmentPerm(s: seq<Vec>, t: seq<Vec>, lo: nat, hi: nat)
    requires lo <= hi <= |s| && multiset(t) == multiset(s) && Outside(t, s, lo, hi)
    ensures multiset(t[lo..hi]) == multiset(s[lo..hi])
  {
    assert t[..lo] == s[..lo];
    assert t[hi..] == s[hi..];
    assert s == s[..lo] + s[lo..hi] + s[hi..];
    assert t == t[..lo] + t[lo..hi] + t[hi..];
    assert multiset(s) == multiset(s[..lo]) + multiset(s[lo..hi]) + multiset(s[hi..]);
    assert multiset(t) == multiset(t[..lo]) + multiset(t[lo..hi]) + multiset(t[hi..]);
    assert multiset(t[lo..hi]) == multiset(t) - multiset(t[..lo]) - multiset(t[hi..]);
    assert multiset(s[lo..hi]) == multiset(s) - multiset(s[..lo]) - multiset(s[hi..]);
  }

  /** Bounds on a segment's keys survive a permutation of that segment. */
  lemma {:induction false} TransferAtMost(s: seq<Vec>, t: seq<Vec>, c: nat, lo: nat, hi: nat, pivot: real)
    requires lo <= hi <= |s| && multiset(t) == multiset(s) && Outside(t, s, lo, hi)
    requires AtMost(s, c, lo, hi, pivot)
    ensures AtMost(t, c, lo, hi, pivot)
  {
    SegmentPerm(s, t, lo, hi);
    forall k | lo <= k < hi ensures Key(t[k], c) <= pivot {
      assert t[k] == t[lo..hi][k - lo];
      assert t[k] in multiset(s[lo..hi]);
      var w :| 0 <= w < hi - lo && s[lo..hi][w] == t[k];
      assert s[lo + w] == t[k];
    }
  }

  lemma {:induction false} TransferAtLeast(s: seq<Vec>, t: seq<Vec>, c: nat, lo: nat, hi: nat, pivot: real)
    requires lo <= hi <= |s| && multiset(t) == multiset(s) && Outside(t, s, lo, hi)
    requires AtLeast(s, c, lo, hi, pivot)
    ensures AtLeast(t, c, lo, hi, pivot)
  {
    SegmentPerm(s, t, lo, hi);
    forall k | lo <= k < hi ensures pivot <= Key(t[k], c) {
      assert t[k] == t[lo..hi][k - lo];
      assert t[k] in multiset(s[lo..hi]);
      var w :| 0 <= w < hi - lo && s[lo..hi][w] == t[k];
      assert s[lo + w] == t[k];
    }
  }

  // ---------------------------------------------------------------------------------------
  // bubbleSort
  // ---------------------------------------------------------------------------------------

  /** Rows `t ..` are sorted and no earlier row has a larger key than any of them. */
  predicate SuffixSorted(s: seq<Vec>, c: nat, t: nat) {
    t <= |s| &&
    (forall p, q :: t <= p < q < |s| ==> Key(s[p], c) <= Key(s[q], c)) &&
    (forall p, q :: 0 <= p < t <= q < |s| ==> Key(s[p], c) <= Key(s[q], c))
  }

  /** `t` is `s` after the compare-and-exchange of rows `j` and `j+1`. */
  predicate Exchanged(t: seq<Vec>, s: seq<Vec>, c: nat, j: nat) {
    j + 1 < |s| &&
    t == (if Key(s[j], c) > Key(s[j + 1], c) then s[j := s[j + 1]][j + 1 := s[j]] else s)
  }

  /** The body of the inner loop: rows `j` and `j+1` swap when their keys are out of order. */
  method Exchange(a: array<Vec>, c: nat, j: nat)
    requires j + 1 < a.Length
    modifies a
    ensures Exchanged(a[..], old(a[..]), c, j) && multiset(a[..]) == old(multiset(a[..]))
  {
    if Key(a[j], c) > Key(a[j + 1], c) {
      SwapRows(a, j, j + 1);
      assert a[..] == old(a[..])[j := old(a[j + 1])][j + 1 := old(a[j])];
    }
  }

  /** The rows of `s` whose key is `v`, in the order they stand in `s`. */
  function WithKey(s: seq<Vec>, c: nat, v: real): (t: seq<Vec>)
    ensures |t| <= |s|
    decreases |s|
  {
    if |s| == 0 then []
    else WithKey(s[..|s| - 1], c, v) + (if Key(s[|s| - 1], c) == v then [s[|s| - 1]] else [])
  }

  /** Stability: `t` keeps the rows of `s` that share a key in the order `s` has them. */
  ghost predicate KeepsTies(t: seq<Vec>, s: seq<Vec>, c: nat) {
    forall v :: WithKey(t, c, v) == WithKey(s, c, v)
  }

  lemma {:induction false} WithKeyAppend(u: seq<Vec>, w: seq<Vec>, c: nat, v: real)
    ensures WithKey(u + w, c, v) == WithKey(u, c, v) + WithKey(w, c, v)
    decreases |w|
  {
    if |w| == 0 {
      assert u + w == u;
    } else {
      var w' := w[..|w| - 1];
      assert (u + w)[..|u + w| - 1] == u + w';
      WithKeyAppend(u, w', c, v);
    }
  }

  lemma {:induction false} WithKeyOne(x: Vec, c: nat, v: real)
    ensures WithKey([x], c, v) == if Key(x, c) == v then [x] else []
  {
    assert [x][..0] == [];
  }

  /** The exchange only swaps rows whose keys differ, so it keeps ties in order. */
  lemma {:induction false} ExchangeKeepsTies(t: seq<Vec>, s: seq<Vec>, c: nat, j: nat)
    requires Exchanged(t, s, c, j)
    ensures KeepsTies(t, s, c)
  {
    if Key(s[j], c) > Key(s[j + 1], c) {
      var P, Q := s[..j], s[j + 2..];
      assert s == P + [s[j]] + [s[j + 1]] + Q;
      assert t == P + [s[j + 1]] + [s[j]] + Q;
      forall v ensures WithKey(t, c, v) == WithKey(s, c, v) {
        WithKeySwap(P, s[j], s[j + 1], Q, c, v);
      }
    }
  }

  /** Two neighbouring rows with different keys never both have key `v`, so swapping them
      leaves the rows with key `v` as they were. */
  lemma {:induction false} WithKeySwap(P: seq<Vec>, x: Vec, y: Vec, Q: seq<Vec>, c: nat, v: real)
    requires Key(x, c) != Key(y, c)
    ensures WithKey(P + [x] + [y] + Q, c, v) == WithKey(P + [y] + [x] + Q, c, v)
  {
    var A, X, Y, B := WithKey(P, c, v), WithKey([x], c, v), WithKey([y], c, v), WithKey(Q, c, v);
    WithKeyOne(x, c, v);
    WithKeyOne(y, c, v);
    WithKeyFour(P, x, y, Q, c, v);
    WithKeyFour(P, y, x, Q, c, v);
    SwapEmpty(A, X, Y, B);
  }

  /** Two neighbouring parts of which one is empty commute. */
  lemma {:induction false} SwapEmpty(A: seq<Vec>, X: seq<Vec>, Y: seq<Vec>, B: seq<Vec>)
    requires X == [] || Y == []
    ensures A + X + Y + B == A + Y + X + B
  {
    if X == [] {
      assert A + X == A && A + Y + X == A + Y;
    } else {
      assert A + X + Y == A + X && A + Y == A;
    }
  }

  /** `WithKey` of a row sequence made of four parts, part by part. */
  lemma {:induction false} WithKeyFour(P: seq<Vec>, x: Vec, y: Vec, Q: seq<Vec>, c: nat, v: real)
    ensures WithKey(P + [x] + [y] + Q, c, v) == WithKey(P, c, v) + WithKey([x], c, v) + WithKey([y], c, v) + WithKey(Q, c, v)
  {
    WithKeyAppend(P + [x] + [y], Q, c, v);
    WithKeyAppend(P + [x], [y], c, v);
    WithKeyAppend(P, [x], c, v);
  }

  /** Every row `WithKey` keeps is a row of `s` with key `v`. */
  lemma {:induction false} WithKeyMember(s: seq<Vec>, c: nat, v: real)
    ensures forall r :: r in WithKey(s, c, v) ==> r in s && Key(r, c) == v
    decreases |s|
  {
    if |s| > 0 {
      WithKeyMember(s[..|s| - 1], c, v);
      assert s == s[..|s| - 1] + [s[|s| - 1]];
    }
  }

  /** Every row of `s` is kept by `WithKey` of its own key. */
  lemma {:induction false} WithKeyHas(s: seq<Vec>, c: nat, k: nat)
    requires k < |s|
    ensures |WithKey(s, c, Key(s[k], c))| > 0
    decreases |s|
  {
    if k < |s| - 1 {
      WithKeyHas(s[..|s| - 1], c, k);
    }
  }

  /** The last key of `t` is no larger than the last key of a sorted `u` with the same ties. */
  lemma {:induction false} LastKeyBelow(t: seq<Vec>, u: seq<Vec>, c: nat)
    requires |t| > 0 && |u| > 0 && SortedBy(u, c) && KeepsTies(t, u, c)
    ensures Key(t[|t| - 1], c) <= Key(u[|u| - 1], c)
  {
    var x, K := t[|t| - 1], Key(t[|t| - 1], c);
    assert WithKey(t, c, K) == WithKey(t[..|t| - 1], c, K) + [x];
    assert WithKey(u, c, K) == WithKey(t, c, K);
    WithKeyMember(u, c, K);
    assert x in WithKey(u, c, K);
    var w :| 0 <= w < |u| && u[w] == x;
    if w < |u| - 1 {
      assert Key(u[w], c) <= Key(u[|u| - 1], c);
    }
  }

  /** Without its last row, each of two sorted sequences with the same ties keeps the same ties. */
  lemma {:induction false} DropLastTies(t: seq<Vec>, u: seq<Vec>, c: nat)
    requires |t| > 0 && |u| > 0 && SortedBy(t, c) && SortedBy(u, c) && KeepsTies(t, u, c)
    ensures t[|t| - 1] == u[|u| - 1] && KeepsTies(t[..|t| - 1], u[..|u| - 1], c)
  {
    var x, y := t[|t| - 1], u[|u| - 1];
    var t', u' := t[..|t| - 1], u[..|u| - 1];
    LastKeyBelow(t, u, c);
    LastKeyBelow(u, t, c);
    var K := Key(x, c);
    var A, B := WithKey(t', c, K), WithKey(u', c, K);
    assert WithKey(t, c, K) == A + [x];
    assert WithKey(u, c, K) == B + [y];
    assert A + [x] == B + [y];
    assert x == (A + [x])[|A|] && y == (B + [y])[|B|];
    assert A == (A + [x])[..|A|] && B == (B + [y])[..|B|];
    forall v ensures WithKey(t', c, v) == WithKey(u', c, v) {
      assert WithKey(t, c, v) == WithKey(u, c, v);
      if v != K {
        assert WithKey(t, c, v) == WithKey(t', c, v);
        assert WithKey(u, c, v) == WithKey(u', c, v);
      }
    }
  }

  /**
   * A stable sort has exactly one possible result: two sorted sequences that keep the ties of
   * one another in order are equal.
   */
  lemma {:induction false} StableSortUnique(t: seq<Vec>, u: seq<Vec>, c: nat)
    requires SortedBy(t, c) && SortedBy(u, c) && KeepsTies(t, u, c)
    ensures t == u
    decreases |t|
  {
    if |u| > 0 && |t| == 0 {
      WithKeyHas(u, c, |u| - 1);
    } else if |t| > 0 && |u| == 0 {
      WithKeyHas(t, c, |t| - 1);
    } else if |t| > 0 {
      DropLastTies(t, u, c);
      StableSortUnique(t[..|t| - 1], u[..|u| - 1], c);
      assert t == t[..|t| - 1] + [t[|t| - 1]] && u == u[..|u| - 1] + [u[|u| - 1]];
    }
  }

  /** The row a pass has carried along so far: position `j`, but never past `t-1`. */
  function Carried(j: nat, t: nat): nat
    requires t >= 1
  {
    if j < t then j else t - 1
  }

  /** A run of compare-and-exchanges keeps the order of rows with equal keys. */
  lemma {:induction false} ExchangeKeepsTiesSince(t: seq<Vec>, s: seq<Vec>, s0: seq<Vec>, c: nat, j: nat)
    requires Exchanged(t, s, c, j) && KeepsTies(s, s0, c)
    ensures KeepsTies(t, s0, c)
  {
    ExchangeKeepsTies(t, s, c, j);
  }

  /**
   * The state of a pass over `s0` before step `j`: rows `t ..` untouched, no earlier row above
   * any of them, and the carried row at least as large as every row before it.
   */
  predicate PassInv(s: seq<Vec>, s0: seq<Vec>, c: nat, t: nat, j: nat) {
    1 <= t <= |s| == |s0| && j < |s| &&
    (forall q :: t <= q < |s| ==> s[q] == s0[q]) &&
    (forall p, q :: 0 <= p < t <= q < |s| ==> Key(s[p], c) <= Key(s[q], c)) &&
    (forall k :: 0 <= k < j && k < t ==> Key(s[k], c) <= Key(s[Carried(j, t)], c))
  }

  /** One compare-and-exchange keeps the pass invariant; from row `t-1` on nothing moves. */
  lemma {:induction false} PassStep(s: seq<Vec>, s': seq<Vec>, s0: seq<Vec>, c: nat, t: nat, j: nat)
    requires SuffixSorted(s0, c, t) && PassInv(s, s0, c, t, j) && j + 1 < |s|
    requires Exchanged(s', s, c, j)
    ensures PassInv(s', s0, c, t, j + 1)
  {
    if j + 1 < t {
      CarryStep(s, s', s0, c, t, j);
    } else {
      if j + 1 > t {
        assert s[j] == s0[j] && s[j + 1] == s0[j + 1];
      }
      assert Key(s[j], c) <= Key(s[j + 1], c);
      assert s' == s;
    }
  }

  /** Inside rows `0 .. t-1` the exchange carries the larger of rows `j` and `j+1` along. */
  lemma {:induction false} CarryStep(s: seq<Vec>, s': seq<Vec>, s0: seq<Vec>, c: nat, t: nat, j: nat)
    requires PassInv(s, s0, c, t, j) && j + 1 < t
    requires Exchanged(s', s, c, j)
    ensures PassInv(s', s0, c, t, j + 1)
  {
    assert Carried(j, t) == j && Carried(j + 1, t) == j + 1;
    assert Key(s[j], c) <= Key(s'[j + 1], c) && Key(s[j + 1], c) <= Key(s'[j + 1], c);
    forall k | 0 <= k < j + 1 ensures Key(s'[k], c) <= Key(s'[j + 1], c) {
      if k < j {
        assert s'[k] == s[k];
      }
    }
    forall p, q | 0 <= p < t <= q < |s'| ensures Key(s'[p], c) <= Key(s'[q], c) {
      assert s'[q] == s[q];
      if p == j {
        assert s'[p] == s[j] || s'[p] == s[j + 1];
      } else if p == j + 1 {
        assert s'[p] == s[j] || s'[p] == s[j + 1];
      } else {
        assert s'[p] == s[p];
      }
    }
  }

  /**
   * One sweep `j = 0 .. N-2` of the inner loop. The row with the largest key among rows
   * `0 .. t-1` is carried to position `t-1`; rows `t ..` are already in place and never swap.
   */
  method BubblePass(a: array<Vec>, c: nat, t: nat)
    requires 1 <= t <= a.Length && SuffixSorted(a[..], c, t)
    modifies a
    ensures multiset(a[..]) == old(multiset(a[..])) && SuffixSorted(a[..], c, t - 1)
    ensures KeepsTies(a[..], old(a[..]), c)
  {
    var N := a.Length;
    ghost var s0 := a[..];
    var j := 0;
    while j < N - 1
      invariant 0 <= j <= N - 1
      invariant PassState(a[..], s0, c, t, j)
    {
      PassExchange(a, c, t, j, s0);
      j := j + 1;
    }
    PassDone(a[..], s0, c, t);
  }

  /** What the inner loop keeps: the rows, the order of rows with equal keys, and the pass
      invariant. */
  ghost predicate PassState(s: seq<Vec>, s0: seq<Vec>, c: nat, t: nat, j: nat) {
    multiset(s) == multiset(s0) && KeepsTies(s, s0, c) && PassInv(s, s0, c, t, j)
  }

  /** One step of the inner loop: the compare-and-exchange keeps the pass invariant, the
      rows and the order of rows with equal keys. */
  method PassExchange(a: array<Vec>, c: nat, t: nat, j: nat, ghost s0: seq<Vec>)
    requires j + 1 < a.Length && SuffixSorted(s0, c, t) && PassState(a[..], s0, c, t, j)
    modifies a
    ensures PassState(a[..], s0, c, t, j + 1)
  {
    ghost var s := a[..];
    Exchange(a, c, j);
    ExchangeKeepsTiesSince(a[..], s, s0, c, j);
    PassStep(s, a[..], s0, c, t, j);
  }

  /** At the end of a pass the carried row joins the sorted suffix. */
  lemma {:induction false} PassDone(s: seq<Vec>, s0: seq<Vec>, c: nat, t: nat)
    requires |s| > 0 && SuffixSorted(s0, c, t) && PassState(s, s0, c, t, |s| - 1)
    ensures SuffixSorted(s, c, t - 1) && multiset(s) == multiset(s0) && KeepsTies(s, s0, c)
  {
    assert Carried(|s| - 1, t) == t - 1;
    forall p, q | t - 1 <= p < q < |s| ensures Key(s[p], c) <= Key(s[q], c) {
      if t <= p {
        assert s[p] == s0[p] && s[q] == s0[q];
      }
    }
  }

  /**
   * `bubbleSort(A_, PivotCol)`: a copy of `A` whose rows are a permutation of `A`'s rows with
   * ascending keys, rows with equal keys in their original order (the sort is stable). The
   * source asserts a nonempty matrix and a pivot column inside it.
   */
  method BubbleSort(A: Mat, n: nat, c: nat) returns (S: Mat)
    requires |A| > 0 && IsMat(A, |A|, n) && c < n
    ensures |S| == |A| && multiset(S) == multiset(A) && SortedBy(S, c)
    ensures KeepsTies(S, A, c)
  {
    var a := new Vec[|A|](k requires 0 <= k < |A| => A[k]);
    assert a[..] == A;
    var N := a.Length;
    var i := 1;
    while i <= N - 1
      invariant 1 <= i <= N
      invariant multiset(a[..]) == multiset(A) && SuffixSorted(a[..], c, N - i + 1)
      invariant KeepsTies(a[..], A, c)
    {
      BubblePass(a, c, N - i + 1);
      i := i + 1;
    }
    S := a[..];
  }

  // ---------------------------------------------------------------------------------------
  // quickSortMedian
  // ---------------------------------------------------------------------------------------

  /**
   * The median-of-three step of `quicksortmedian_intern` for segments longer than four rows:
   * afterwards the pivot row `r` holds the median of the keys at `l`, the midpoint and `r`.
   */
  method MedianOfThree(a: array<Vec>, c: nat, l: nat, r: nat)
    requires l + 3 < r < a.Length
    modifies a
    ensures multiset(a[..]) == old(multiset(a[..])) && Outside(a[..], old(a[..]), l, r + 1)
    ensures var m := l + (r - l) / 2; Key(a[l], c) <= Key(a[r], c) <= Key(a[m], c)
  {
    var m := l + (r - l) / 2;
    if Key(a[l], c) > Key(a[m], c) {
      SwapRows(a, l, m);
    }
    if Key(a[l], c) > Key(a[r], c) {
      SwapRows(a, l, r);
    } else if Key(a[r], c) > Key(a[m], c) {
      SwapRows(a, r, m);
    }
  }

  /**
   * `while (A(++i, PivotCol) < A(r, PivotCol));`: the first row from `lo` on whose key is not
   * below the pivot. Row `hi` stops the scan at the latest.
   */
  method ScanUp(s: seq<Vec>, c: nat, lo: nat, hi: nat, p: real) returns (i: nat)
    requires lo <= hi < |s| && p <= Key(s[hi], c)
    ensures lo <= i <= hi && p <= Key(s[i], c)
    ensures forall k :: lo <= k < i ==> Key(s[k], c) < p
  {
    i := lo;
    while Key(s[i], c) < p
      invariant lo <= i <= hi
      invariant forall k :: lo <= k < i ==> Key(s[k], c) < p
      decreases hi - i
    {
      i := i + 1;
    }
  }

  /**
   * `while (A(--j, PivotCol) > A(r, PivotCol) && j > i);`: moving down from `hi`, the first
   * row whose key is not above the pivot, or row `i` or `i - 1` when none comes first.
   */
  method ScanDown(s: seq<Vec>, c: nat, i: nat, hi: nat, p: real) returns (j: nat)
    requires i <= hi < |s| && 0 < hi
    ensures i - 1 <= j < hi && (Key(s[j], c) <= p || j <= i)
    ensures forall k :: j < k < hi ==> p < Key(s[k], c)
  {
    j := hi - 1;
    while Key(s[j], c) > p && j > i
      invariant i - 1 <= j < hi
      invariant forall k :: j < k < hi ==> p < Key(s[k], c)
      decreases j
    {
      j := j - 1;
    }
  }

  /**
   * The partitioning state over rows `l .. r` of `s`, which started as `s0`: rows `l .. lo`
   * hold keys at most the pivot key `p`, rows `hi .. r` keys at least `p`, and row `r` is the
   * pivot row.
   */
  predicate Parted(s: seq<Vec>, s0: seq<Vec>, c: nat, l: nat, r: nat, lo: int, hi: int, p: real) {
    r < |s| && Outside(s, s0, l, r + 1) && Key(s[r], c) == p &&
    (forall k :: l <= k <= lo && k <= r ==> Key(s[k], c) <= p) &&
    (forall k :: 0 <= k && hi <= k <= r ==> p <= Key(s[k], c))
  }

  /** Exchanging the two rows the scans stopped at extends both sides. */
  lemma {:induction false} SwapExtends(s: seq<Vec>, s0: seq<Vec>, c: nat, l: nat, r: nat, lo: nat, hi: nat, p: real)
    requires l <= lo < hi < r && Parted(s, s0, c, l, r, lo - 1, hi + 1, p)
    requires p <= Key(s[lo], c) && Key(s[hi], c) <= p
    ensures Parted(s[lo := s[hi]][hi := s[lo]], s0, c, l, r, lo, hi, p)
  {
  }

  /** The final exchange of the pivot row into the place where the scans met. */
  lemma {:induction false} PivotPlaced(s: seq<Vec>, s0: seq<Vec>, c: nat, l: nat, r: nat, i: nat, p: real)
    requires l <= i <= r && Parted(s, s0, c, l, r, i - 1, i + 1, p) && p <= Key(s[i], c)
    ensures var t := s[i := s[r]][r := s[i]];
      Outside(t, s0, l, r + 1) && Key(t[i], c) == p &&
      AtMost(t, c, l, i, p) && AtLeast(t, c, i + 1, r + 1, p)
  {
  }

  /**
   * The `for (;;)` loop of `quicksortmedian_intern`: scans from both ends against the pivot
   * key of row `r` and exchanges out-of-place rows until the scans meet at `i`.
   */
  method Crossing(a: array<Vec>, c: nat, l: nat, r: nat) returns (i: nat)
    requires l < r < a.Length
    modifies a
    ensures l <= i <= r && multiset(a[..]) == old(multiset(a[..]))
    ensures Parted(a[..], old(a[..]), c, l, r, i as int - 1, i + 1, Key(old(a[r]), c))
    ensures Key(old(a[r]), c) <= Key(a[i], c)
  {
    ghost var s0 := a[..];
    var p := Key(a[r], c);
    var lo: int := l - 1;
    var hi: int := r;
    while true
      invariant l - 1 <= lo < hi <= r
      invariant lo == l - 1 ==> hi == r
      invariant multiset(a[..]) == multiset(s0) && Parted(a[..], s0, c, l, r, lo, hi, p)
      decreases hi - lo
    {
      var up := ScanUp(a[..], c, lo + 1, hi, p);
      var down := ScanDown(a[..], c, up, hi, p);
      ghost var s := a[..];
      assert Parted(s, s0, c, l, r, up as int - 1, down + 1, p);
      lo, hi := up, down;
      if lo >= hi {
        i := lo;
        return;
      }
      SwapRows(a, lo, hi);
      assert a[..] == s[lo := s[hi]][hi := s[lo]];
      SwapExtends(s, s0, c, l, r, lo, hi, p);
    }
  }

  /**
   * The partitioning step of `quicksortmedian_intern`: the `for (;;)` loop, then the exchange
   * that puts the pivot row at its final place `i`.
   */
  method Partition(a: array<Vec>, c: nat, l: nat, r: nat) returns (i: nat)
    requires l < r < a.Length
    modifies a
    ensures l <= i <= r
    ensures multiset(a[..]) == old(multiset(a[..])) && Outside(a[..], old(a[..]), l, r + 1)
    ensures AtMost(a[..], c, l, i, Key(a[i], c)) && AtLeast(a[..], c, i + 1, r + 1, Key(a[i], c))
  {
    i := Crossing(a, c, l, r);
    ghost var s := a[..];
    SwapRows(a, i, r);
    assert a[..] == s[i := s[r]][r := s[i]];
    PivotPlaced(s, old(a[..]), c, l, r, i, Key(old(a[r]), c));
  }

  /** Sorted halves around a pivot row that separates them make a sorted segment. */
  lemma {:induction false} JoinAtPivot(s: seq<Vec>, c: nat, l: nat, i: nat, hi: nat)
    requires l <= i < hi <= |s|
    requires SortedOn(s, c, l, i) && SortedOn(s, c, i + 1, hi)
    requires AtMost(s, c, l, i, Key(s[i], c)) && AtLeast(s, c, i + 1, hi, Key(s[i], c))
    ensures SortedOn(s, c, l, hi)
  {
    forall p, q | l <= p < q < hi ensures Key(s[p], c) <= Key(s[q], c) {
      if p < i && i < q {
        assert Key(s[p], c) <= Key(s[i], c) <= Key(s[q], c);
      }
    }
  }

  /** `quicksortmedian_intern(A, PivotCol, tmp, l, r)`: sorts rows `l .. r` in place. */
  method QuickSortRange(a: array<Vec>, c: nat, l: int, r: int)
    requires 0 <= l <= r + 1 <= a.Length
    modifies a
    ensures multiset(a[..]) == old(multiset(a[..])) && Outside(a[..], old(a[..]), l, r + 1)
    ensures SortedOn(a[..], c, l, r + 1)
    decreases r - l
  {
    if r > l {
      if r - l > 3 {
        MedianOfThree(a, c, l, r);
      }
      var i := Partition(a, c, l, r);
      ghost var s1 := a[..];
      ghost var pivot := Key(a[i], c);
      QuickSortRange(a, c, l, i as int - 1);
      ghost var s2 := a[..];
      TransferAtMost(s1, s2, c, l, i, pivot);
      QuickSortRange(a, c, i + 1, r);
      ghost var s3 := a[..];
      TransferAtLeast(s2, s3, c, i + 1, r + 1, pivot);
      assert s3[i] == s1[i];
      assert AtMost(s3, c, l, i, pivot) && SortedOn(s3, c, l, i) by {
        forall k | l <= k < i ensures s3[k] == s2[k] { }
      }
      JoinAtPivot(s3, c, l, i, r + 1);
    }
  }

  /**
   * `quickSortMedian(A_, PivotCol)`: a copy of `A` whose rows are a permutation of `A`'s rows
   * with ascending keys. An empty or one-row matrix is returned as it is.
   */
  method QuickSortMedian(A: Mat, n: nat, c: nat) returns (S: Mat)
    requires IsMat(A, |A|, n) && (|A| > 1 ==> c < n)
    ensures |S| == |A| && multiset(S) == multiset(A) && SortedBy(S, c)
  {
    var a := new Vec[|A|](k requires 0 <= k < |A| => A[k]);
    assert a[..] == A;
    QuickSortRange(a, c, 0, a.Length - 1);
    S := a[..];
  }

  // ---------------------------------------------------------------------------------------
  // Both sorts determine the pivot column
  // ---------------------------------------------------------------------------------------

  /** The pivot column of a row sequence. */
  function Keys(s: seq<Vec>, c: nat): (ks: seq<real>)
    ensures |ks| == |s| && forall k :: 0 <= k < |s| ==> ks[k] == Key(s[k], c)
  {
    seq(|s|, k requires 0 <= k < |s| => Key(s[k], c))
  }

  /** Removing entry `w` removes one copy of it from the multiset. */
  lemma {:induction false} RemoveAt<T>(t: seq<T>, w: nat)
    requires w < |t|
    ensures multiset(t[..w] + t[w + 1..]) == multiset(t) - multiset{t[w]}
  {
    assert t == t[..w] + [t[w]] + t[w + 1..];
    assert multiset(t) == multiset(t[..w]) + multiset{t[w]} + multiset(t[w + 1..]);
  }

  lemma {:induction false} RemoveLast<T>(t: seq<T>)
    requires |t| > 0
    ensures multiset(t[..|t| - 1]) == multiset(t) - multiset{t[|t| - 1]}
  {
    assert t == t[..|t| - 1] + [t[|t| - 1]];
  }

  /** Rows that are a permutation of each other have pivot columns that are too. */
  lemma {:induction false} KeysPermute(s: seq<Vec>, t: seq<Vec>, c: nat)
    requires multiset(s) == multiset(t)
    ensures multiset(Keys(s, c)) == multiset(Keys(t, c))
    decreases |s|
  {
    if |s| > 0 {
      var n := |s| - 1;
      var x := s[n];
      assert x in multiset(t);
      var w :| 0 <= w < |t| && t[w] == x;
      var t' := t[..w] + t[w + 1..];
      RemoveLast(s);
      RemoveAt(t, w);
      KeysPermute(s[..n], t', c);
      KeysRemoveAt(s, n, c);
      assert s[..n] + s[n + 1..] == s[..n];
      KeysRemoveAt(t, w, c);
      Restore(multiset(Keys(s, c)), Key(x, c));
      Restore(multiset(Keys(t, c)), Key(x, c));
    } else {
      assert |t| == |multiset(t)| == 0;
    }
  }

  /** The pivot column of a sequence with row `w` removed. */
  lemma {:induction false} KeysRemoveAt(t: seq<Vec>, w: nat, c: nat)
    requires w < |t|
    ensures Key(t[w], c) in multiset(Keys(t, c))
    ensures multiset(Keys(t[..w] + t[w + 1..], c)) == multiset(Keys(t, c)) - multiset{Key(t[w], c)}
  {
    var ks := Keys(t, c);
    assert ks[w] == Key(t[w], c);
    assert Keys(t[..w] + t[w + 1..], c) == ks[..w] + ks[w + 1..];
    RemoveAt(ks, w);
  }

  /** Taking out one copy of a member and putting it back. */
  lemma {:induction false} Restore<T>(m: multiset<T>, x: T)
    requires x in m
    ensures m == (m - multiset{x}) + multiset{x}
  {
  }

  predicate Ascending(u: seq<real>) {
    forall p, q :: 0 <= p < q < |u| ==> u[p] <= u[q]
  }

  /** An ascending sequence of reals is determined by its multiset of entries. */
  lemma {:induction false} AscendingUnique(u: seq<real>, v: seq<real>)
    requires Ascending(u) && Ascending(v) && multiset(u) == multiset(v)
    ensures u == v
    decreases |u|
  {
    LastEqual(u, v);
    if |u| > 0 {
      var n := |u| - 1;
      RemoveLast(u);
      RemoveLast(v);
      AscendingUnique(u[..n], v[..n]);
      SnocEqual(u, v);
    }
  }

  lemma {:induction false} SnocEqual(u: seq<real>, v: seq<real>)
    requires |u| == |v| > 0 && u[..|u| - 1] == v[..|v| - 1] && u[|u| - 1] == v[|v| - 1]
    ensures u == v
  {
    assert u == u[..|u| - 1] + [u[|u| - 1]];
    assert v == v[..|v| - 1] + [v[|v| - 1]];
  }

  /** Both largest entries are the same. */
  lemma {:induction false} LastEqual(u: seq<real>, v: seq<real>)
    requires Ascending(u) && Ascending(v) && multiset(u) == multiset(v)
    ensures |u| == |v| && (|u| > 0 ==> u[|u| - 1] == v[|v| - 1])
  {
    assert |u| == |multiset(u)| == |v|;
    if |u| > 0 {
      var n := |u| - 1;
      assert u[n] in multiset(v) && v[n] in multiset(u);
      var p :| 0 <= p < |v| && v[p] == u[n];
      var q :| 0 <= q < |u| && u[q] == v[n];
      assert u[n] <= v[n] && v[n] <= u[n];
    }
  }

  /**
   * Two sorts of the same rows by the same column, such as the results of `bubbleSort` and
   * `quickSortMedian`, agree on that column; they may differ only in the order of rows with
   * equal keys.
   */
  lemma {:induction false} SortsAgree(S1: seq<Vec>, S2: seq<Vec>, c: nat)
    requires multiset(S1) == multiset(S2) && SortedBy(S1, c) && SortedBy(S2, c)
    ensures Keys(S1, c) == Keys(S2, c)
  {
    KeysPermute(S1, S2, c);
    AscendingUnique(Keys(S1, c), Keys(S2, c));
  }
}
