/**
 * Comparisons and extrema of fmatvec/linear_algebra.h: `operator==` and `operator!=` of two
 * matrices, and `max`, `min`, `maxIndex`, `minIndex` of a vector.
 */
module Comparisons {
  import opened Dense

  /**
   * `A == B`: different shapes compare unequal, otherwise the first differing entry decides.
   * The shapes are passed along because a matrix without rows still has a column count.
   */
  method Equal(A: Mat, m1: nat, n1: nat, B: Mat, m2: nat, n2: nat) returns (eq: bool)
    requires IsMat(A, m1, n1) && IsMat(B, m2, n2)
    ensures eq <==> m1 == m2 && n1 == n2 && A == B
  {
    if m1 != m2 || n1 != n2 {
      return false;
    }
    var i := 0;
    while i < m1
      invariant 0 <= i <= m1
      invariant forall p :: 0 <= p < i ==> A[p] == B[p]
    {
      var j := 0;
      while j < n1
        invariant 0 <= j <= n1
        invariant forall q :: 0 <= q < j ==> A[i][q] == B[i][q]
      {
        if A[i][j] != B[i][j] {
          return false;
        }
        j := j + 1;
      }
      assert A[i] == B[i];
      i := i + 1;
    }
    assert A == B;
    return true;
  }

  /** `A != B`: the same walk with the answers exchanged. */
  method NotEqual(A: Mat, m1: nat, n1: nat, B: Mat, m2: nat, n2: nat) returns (ne: bool)
    requires IsMat(A, m1, n1) && IsMat(B, m2, n2)
    ensures ne <==> !(m1 == m2 && n1 == n2 && A == B)
  {
    if m1 != m2 || n1 != n2 {
      return true;
    }
    var i := 0;
    while i < m1
      invariant 0 <= i <= m1
      invariant forall p :: 0 <= p < i ==> A[p] == B[p]
    {
      var j := 0;
      while j < n1
        invariant 0 <= j <= n1
        invariant forall q :: 0 <= q < j ==> A[i][q] == B[i][q]
      {
        if A[i][j] != B[i][j] {
          return true;
        }
        j := j + 1;
      }
      assert A[i] == B[i];
      i := i + 1;
    }
    assert A == B;
    return false;
  }

  /** `max(x)`: an entry of `x` that no entry exceeds. */
  method Max(x: Vec) returns (maximum: real)
    requires |x| > 0
    ensures maximum in x
    ensures forall k :: 0 <= k < |x| ==> x[k] <= maximum
  {
    maximum := x[0];
    var i := 1;
    while i < |x|
      invariant 1 <= i <= |x|
      invariant maximum in x[..i]
      invariant forall k :: 0 <= k < i ==> x[k] <= maximum
    {
      if x[i] > maximum {
        maximum := x[i];
      }
      assert x[..i + 1] == x[..i] + [x[i]];
      i := i + 1;
    }
    assert x[..i] == x;
  }

  /** `maxIndex(x)`: the strict comparison keeps the first position of the maximum. */
  method MaxIndex(x: Vec) returns (index: nat)
    requires |x| > 0
    ensures index < |x|
    ensures forall k :: 0 <= k < |x| ==> x[k] <= x[index]
    ensures forall k :: 0 <= k < index ==> x[k] < x[index]
  {
    var maximum := x[0];
    index := 0;
    var i := 1;
    while i < |x|
      invariant 1 <= i <= |x| && index < i && maximum == x[index]
      invariant forall k :: 0 <= k < i ==> x[k] <= maximum
      invariant forall k :: 0 <= k < index ==> x[k] < maximum
    {
      if x[i] > maximum {
        maximum := x[i];
        index := i;
      }
      i := i + 1;
    }
  }

  /** `min(x)`: an entry of `x` that no entry undercuts. */
  method Min(x: Vec) returns (minimum: real)
    requires |x| > 0
    ensures minimum in x
    ensures forall k :: 0 <= k < |x| ==> minimum <= x[k]
  {
    minimum := x[0];
    var i := 1;
    while i < |x|
      invariant 1 <= i <= |x|
      invariant minimum in x[..i]
      invariant forall k :: 0 <= k < i ==> minimum <= x[k]
    {
      if x[i] < minimum {
        minimum := x[i];
      }
      assert x[..i + 1] == x[..i] + [x[i]];
      i := i + 1;
    }
    assert x[..i] == x;
  }

  /** `minIndex(x)`: the first position of the minimum. */
  method MinIndex(x: Vec) returns (index: nat)
    requires |x| > 0
    ensures index < |x|
    ensures forall k :: 0 <= k < |x| ==> x[index] <= x[k]
    ensures forall k :: 0 <= k < index ==> x[index] < x[k]
  {
    var minimum := x[0];
    index := 0;
    var i := 1;
    while i < |x|
      invariant 1 <= i <= |x| && index < i && minimum == x[index]
      invariant forall k :: 0 <= k < i ==> minimum <= x[k]
      invariant forall k :: 0 <= k < index ==> minimum < x[k]
    {
      if x[i] < minimum {
        minimum := x[i];
        index := i;
      }
      i := i + 1;
    }
  }

  /** The value `max` reports is the entry at the position `maxIndex` reports. */
  lemma {:induction false} MaxAtMaxIndex(x: Vec, maximum: real, index: nat)
    requires maximum in x && forall k :: 0 <= k < |x| ==> x[k] <= maximum
    requires index < |x| && forall k :: 0 <= k < |x| ==> x[k] <= x[index]
    ensures maximum == x[index]
  {
    var w :| 0 <= w < |x| && x[w] == maximum;
    assert x[w] <= x[index];
  }

  /** Likewise for `min` and `minIndex`. */
  lemma {:induction false} MinAtMinIndex(x: Vec, minimum: real, index: nat)
    requires minimum in x && forall k :: 0 <= k < |x| ==> minimum <= x[k]
    requires index < |x| && forall k :: 0 <= k < |x| ==> x[index] <= x[k]
    ensures minimum == x[index]
  {
    var w :| 0 <= w < |x| && x[w] == minimum;
    assert x[index] <= x[w];
  }
}
