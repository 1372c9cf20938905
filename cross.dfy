/**
 * The straight-line products on 3-vectors in fmatvec/linear_algebra.h: `crossProduct`,
 * `tripleProduct`, and `tilde` in both directions (vector to skew-symmetric matrix and back).
 * The inverse `tilde` is modelled without its debug-only tolerance check.
 */
module CrossProducts {
  import opened Dense

  /** `crossProduct(x, y)`: both operands must have three entries. */
  function Cross(x: Vec, y: Vec): (z: Vec)
    requires |x| == 3 && |y| == 3
    ensures |z| == 3
  {
    [x[1] * y[2] - x[2] * y[1], x[2] * y[0] - x[0] * y[2], x[0] * y[1] - x[1] * y[0]]
  }

  /** `tripleProduct(a, x, y)`, written out as the library writes it. */
  function Triple(a: Vec, x: Vec, y: Vec): real
    requires |a| == 3 && |x| == 3 && |y| == 3
  {
    a[0] * (x[1] * y[2] - x[2] * y[1]) + a[1] * (x[2] * y[0] - x[0] * y[2]) + a[2] * (x[0] * y[1] - x[1] * y[0])
  }

  /** A dot product of 3-vectors, unfolded. */
  lemma {:induction false} Dot3(u: Vec, v: Vec)
    requires |u| == 3 && |v| == 3
    ensures Dot(u, v) == u[0] * v[0] + u[1] * v[1] + u[2] * v[2]
  {
    var u2, v2, u1, v1 := u[..2], v[..2], u[..1], v[..1];
    assert u2[..1] == u1 && v2[..1] == v1;
    assert Dot(u1, v1) == u[0] * v[0] by {
      assert u1[..0] == [] && v1[..0] == [];
    }
    assert Dot(u2, v2) == Dot(u1, v1) + u[1] * v[1];
  }

  /** The triple product is `a` dotted with the cross product of `x` and `y`. */
  lemma {:induction false} TripleIsDotCross(a: Vec, x: Vec, y: Vec)
    requires |a| == 3 && |x| == 3 && |y| == 3
    ensures Triple(a, x, y) == Dot(a, Cross(x, y))
  {
    Dot3(a, Cross(x, y));
  }

  /** The cross product is orthogonal to both of its operands. */
  lemma {:induction false} CrossOrthogonal(x: Vec, y: Vec)
    requires |x| == 3 && |y| == 3
    ensures Dot(x, Cross(x, y)) == 0.0 && Dot(y, Cross(x, y)) == 0.0
  {
    Dot3(x, Cross(x, y));
    Dot3(y, Cross(x, y));
  }

  /** Swapping the operands negates the cross product. */
  lemma {:induction false} CrossAnticommutes(x: Vec, y: Vec)
    requires |x| == 3 && |y| == 3
    ensures Cross(y, x) == VecNeg(Cross(x, y))
  {
  }

  /** The triple product is invariant under cyclic shifts. */
  lemma {:induction false} TripleCyclic(a: Vec, x: Vec, y: Vec)
    requires |a| == 3 && |x| == 3 && |y| == 3
    ensures Triple(a, x, y) == Triple(x, y, a) && Triple(a, x, a) == 0.0
  {
  }

  /** `tilde(x)`: the 3x3 matrix `B` with `B * y == crossProduct(x, y)`. */
  function Tilde(x: Vec): (B: Mat)
    requires |x| == 3
    ensures IsMat(B, 3, 3)
  {
    [[0.0, -x[2], x[1]], [x[2], 0.0, -x[0]], [-x[1], x[0], 0.0]]
  }

  /** `tilde(T)`: reads `(T(2,1), T(0,2), T(1,0))`. */
  function InvTilde(T: Mat): (x: Vec)
    requires IsMat(T, 3, 3)
    ensures |x| == 3
  {
    [T[2][1], T[0][2], T[1][0]]
  }

  /** `tilde(x)` has a zero diagonal and is skew-symmetric. */
  lemma {:induction false} TildeSkew(x: Vec)
    requires |x| == 3
    ensures forall i :: 0 <= i < 3 ==> Tilde(x)[i][i] == 0.0
    ensures forall i, j :: 0 <= i < 3 && 0 <= j < 3 ==> Tilde(x)[i][j] == -Tilde(x)[j][i]
  {
    var B := Tilde(x);
    forall i, j | 0 <= i < 3 && 0 <= j < 3 ensures B[i][j] == -B[j][i] {
      assert i == 0 || i == 1 || i == 2;
      assert j == 0 || j == 1 || j == 2;
    }
  }

  /** The inverse `tilde` gives back the vector. */
  lemma {:induction false} TildeRoundTrip(x: Vec)
    requires |x| == 3
    ensures InvTilde(Tilde(x)) == x
  {
  }

  /** On skew-symmetric matrices the other direction holds as well. */
  lemma {:induction false} InvTildeRoundTrip(T: Mat)
    requires IsMat(T, 3, 3)
    requires forall i, j :: 0 <= i < 3 && 0 <= j < 3 ==> T[i][j] == -T[j][i]
    ensures Tilde(InvTilde(T)) == T
  {
    var B := Tilde(InvTilde(T));
    assert T[0][0] == -T[0][0] && T[1][1] == -T[1][1] && T[2][2] == -T[2][2];
    assert T[0][1] == -T[1][0] && T[1][2] == -T[2][1] && T[2][0] == -T[0][2];
    forall i | 0 <= i < 3 ensures B[i] == T[i] {
      assert i == 0 || i == 1 || i == 2;
    }
  }

  /** Multiplying by `tilde(x)` is taking the cross product with `x`. */
  lemma {:induction false} TildeIsCross(x: Vec, y: Vec)
    requires |x| == 3 && |y| == 3
    ensures MatVec(Tilde(x), y) == Cross(x, y)
  {
    var B, y', z := Tilde(x), MatVec(Tilde(x), y), Cross(x, y);
    Dot3(B[0], y);
    Dot3(B[1], y);
    Dot3(B[2], y);
    assert y'[0] == z[0] && y'[1] == z[1] && y'[2] == z[2];
  }
}
