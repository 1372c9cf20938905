/**
 * Index formulas of the dense storage classes, with the arithmetic facts the loops need:
 * every formula stays inside its buffer and sends distinct cells to distinct addresses.
 */
module Layout {
  /** Row-major address `i*n + j` used by the Var x Var and Fixed x Var general matrices. */
  function RowMajor(i: nat, j: nat, n: nat): nat {
    i * n + j
  }

  lemma {:induction false} MulMonotone(a: nat, b: nat, n: nat)
    requires a <= b
    ensures a * n <= b * n
    decreases b - a
  {
    if a < b {
      MulMonotone(a, b - 1, n);
      assert (b - 1) * n + n == b * n;
    }
  }

  lemma {:induction false} RowMajorBound(i: nat, j: nat, m: nat, n: nat)
    requires i < m && j < n
    ensures RowMajor(i, j, n) < m * n
  {
    MulMonotone(i + 1, m, n);
    assert (i + 1) * n == i * n + n;
  }

  lemma {:induction false} RowMajorInjective(i: nat, j: nat, p: nat, q: nat, n: nat)
    requires j < n && q < n && RowMajor(i, j, n) == RowMajor(p, q, n)
    ensures i == p && j == q
  {
    if i < p {
      MulMonotone(i + 1, p, n);
    } else if p < i {
      MulMonotone(p + 1, i, n);
    }
  }

  /** The cell written at `(i,j)` is no other cell's address. */
  lemma {:induction false} RowMajorDistinct(i: nat, j: nat, n: nat)
    requires j < n
    ensures forall p: nat, q: nat {:trigger RowMajor(p, q, n)} :: q < n && (p != i || q != j) ==> RowMajor(p, q, n) != RowMajor(i, j, n)
  {
    forall p: nat, q: nat | q < n && (p != i || q != j)
      ensures RowMajor(p, q, n) != RowMajor(i, j, n)
    {
      if RowMajor(p, q, n) == RowMajor(i, j, n) {
        RowMajorInjective(p, q, i, j, n);
      }
    }
  }

  /** A closed index range `[start, end]`; `end == start - 1` is the empty range. */
  datatype Range = Range(start: nat, end: int) {
    predicate Valid() { start <= end + 1 }
    function Size(): (s: nat)
      requires Valid()
      ensures s == end - start + 1
    {
      end - start + 1
    }
    /** Position `k` of the range is inside it. */
    predicate Contains(k: int) { start <= k <= end }
  }

  /** BLAS storage order of a dense buffer. */
  datatype StorageOrder = RowMajorOrder | ColMajorOrder

  /** Where a BLAS routine told `(order, ldim)` looks for element `(i,j)`. */
  function BlasAddress(order: StorageOrder, ldim: nat, i: nat, j: nat): nat {
    if order == RowMajorOrder then i * ldim + j else i + j * ldim
  }

  /** A row-major buffer of `m*n` elements read as `m` rows of `n`. */
  function Rows(s: seq<real>, m: nat, n: nat): (A: seq<seq<real>>)
    requires |s| == m * n
    ensures |A| == m && forall i :: 0 <= i < m ==> |A[i]| == n
  {
    seq(m, i requires 0 <= i < m =>
      seq(n, j requires 0 <= j < n => RowMajorBound(i, j, m, n); s[RowMajor(i, j, n)]))
  }

  /** Entry `(i, j)` of the matrix is buffer cell `i*n + j`. */
  lemma {:induction false} RowsAt(s: seq<real>, m: nat, n: nat, i: nat, j: nat)
    requires |s| == m * n && i < m && j < n
    ensures RowMajor(i, j, n) < |s| && Rows(s, m, n)[i][j] == s[RowMajor(i, j, n)]
  {
    RowMajorBound(i, j, m, n);
  }

  /** Writing one buffer cell changes exactly one entry of the matrix it stores. */
  lemma {:induction false} RowsUpdate(s: seq<real>, m: nat, n: nat, i: nat, j: nat, v: real)
    requires |s| == m * n && i < m && j < n
    ensures RowMajor(i, j, n) < |s|
    ensures Rows(s[RowMajor(i, j, n) := v], m, n) == Rows(s, m, n)[i := Rows(s, m, n)[i][j := v]]
  {
    RowMajorBound(i, j, m, n);
    var k := RowMajor(i, j, n);
    var A, B := Rows(s[k := v], m, n), Rows(s, m, n)[i := Rows(s, m, n)[i][j := v]];
    forall p | 0 <= p < m ensures A[p] == B[p] {
      forall q | 0 <= q < n ensures A[p][q] == B[p][q] {
        RowsAt(s[k := v], m, n, p, q);
        RowsAt(s, m, n, p, q);
        if (p != i || q != j) && RowMajor(p, q, n) == k {
          RowMajorInjective(p, q, i, j, n);
        }
      }
    }
  }

  /** The rows laid out one after the other. */
  function Flatten(A: seq<seq<real>>): seq<real> {
    if |A| == 0 then [] else A[0] + Flatten(A[1..])
  }

  lemma {:induction false} FlattenAt(A: seq<seq<real>>, m: nat, n: nat, i: nat, j: nat)
    requires |A| == m && (forall p :: 0 <= p < m ==> |A[p]| == n) && i < m && j < n
    ensures |Flatten(A)| == m * n && RowMajor(i, j, n) < m * n && Flatten(A)[RowMajor(i, j, n)] == A[i][j]
    decreases m
  {
    RowMajorBound(i, j, m, n);
    FlattenLength(A, m, n);
    var k := RowMajor(i, j, n);
    assert Flatten(A) == A[0] + Flatten(A[1..]);
    if i > 0 {
      var k' := RowMajor(i - 1, j, n);
      assert i * n == n + (i - 1) * n;
      assert k == n + k';
      FlattenAt(A[1..], m - 1, n, i - 1, j);
      assert Flatten(A)[k] == Flatten(A[1..])[k'];
    }
  }

  lemma {:induction false} FlattenLength(A: seq<seq<real>>, m: nat, n: nat)
    requires |A| == m && forall p :: 0 <= p < m ==> |A[p]| == n
    ensures |Flatten(A)| == m * n
    decreases m
  {
    if m > 0 {
      FlattenLength(A[1..], m - 1, n);
      assert m * n == n + (m - 1) * n;
    }
  }

  /** Storing a matrix row by row and reading it back is lossless. */
  lemma {:induction false} FlattenRoundTrip(A: seq<seq<real>>, m: nat, n: nat)
    requires |A| == m && forall i :: 0 <= i < m ==> |A[i]| == n
    ensures |Flatten(A)| == m * n && Rows(Flatten(A), m, n) == A
  {
    FlattenLength(A, m, n);
    var B := Rows(Flatten(A), m, n);
    forall i | 0 <= i < m ensures B[i] == A[i] {
      forall j | 0 <= j < n ensures B[i][j] == A[i][j] {
        FlattenAt(A, m, n, i, j);
      }
    }
  }

}
