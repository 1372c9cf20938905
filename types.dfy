/**
 * Compile-time tables of fmatvec/types.h: the scalar type `OperatorResult` gives a binary
 * operation on two scalar types, the abort-versus-throw policy of `FMATVEC_ASSERT`, and the
 * type map `ReplaceAT` that swaps the scalar parameter of a vector or matrix type.
 */
module Types {
  import opened Wrappers

  /** Scalar types an fmatvec object may hold. Only the first three appear in the result table. */
  datatype Scalar = Double | Int | ComplexDouble | Float | ComplexFloat | SymbolicExpression | IndependentVariable

  /** The scalar types of the result table. */
  predicate Tabled(a: Scalar) {
    a == Int || a == Double || a == ComplexDouble
  }

  /** Promotion rank of a tabled type: int, then double, then complex<double>. */
  function Rank(a: Scalar): nat {
    match a
    case Int => 0
    case Double => 1
    case _ => 2
  }

  /**
   * `OperatorResult<AT1,AT2>::Type`: one specialization per registered pair, `None` where the
   * primary template is only declared and so has no `Type`.
   */
  function OperatorResult(a: Scalar, b: Scalar): (r: Option<Scalar>)
    ensures r.Some? <==> Tabled(a) && Tabled(b)
    ensures r.Some? ==> r.value == (if Rank(a) >= Rank(b) then a else b)
  {
    match (a, b)
    case (Double, Double) => Some(Double)
    case (Int, Int) => Some(Int)
    case (ComplexDouble, ComplexDouble) => Some(ComplexDouble)
    case (Double, ComplexDouble) => Some(ComplexDouble)
    case (ComplexDouble, Double) => Some(ComplexDouble)
    case (Int, ComplexDouble) => Some(ComplexDouble)
    case (ComplexDouble, Int) => Some(ComplexDouble)
    case (Int, Double) => Some(Double)
    case (Double, Int) => Some(Double)
    case _ => None
  }

  /** Both argument orders are registered, so the table is symmetric. */
  lemma {:induction false} OperatorResultCommutes(a: Scalar, b: Scalar)
    ensures OperatorResult(a, b) == OperatorResult(b, a)
  {
  }

  /** Every tabled type combined with itself gives itself. */
  lemma {:induction false} SameTypeIsIdentity(a: Scalar)
    requires Tabled(a)
    ensures OperatorResult(a, a) == Some(a)
  {
  }

  /** The result of an operation is again a tabled type, and combining it once more with either argument changes nothing. */
  lemma {:induction false} ResultAbsorbs(a: Scalar, b: Scalar)
    requires OperatorResult(a, b).Some?
    ensures var c := OperatorResult(a, b).value;
      Tabled(c) && OperatorResult(c, a) == Some(c) && OperatorResult(c, b) == Some(c)
  {
  }

  /** `AssertUseException<AT>::value`: false by default, true for the two symbolic types of ast.h. */
  function AssertUseException(at: Scalar): (r: bool)
    ensures r <==> at == SymbolicExpression || at == IndependentVariable
  {
    match at
    case SymbolicExpression => true
    case IndependentVariable => true
    case _ => false
  }

  datatype AssertOutcome = Continue | Abort | Throw

  /**
   * `fmatvec_assert<useException>(expr, ...)`: the false specialisation aborts on a false
   * expression only when NDEBUG is not defined; the true one throws whatever NDEBUG says.
   */
  function FmatvecAssert(useException: bool, ndebug: bool, expr: bool): (r: AssertOutcome)
    ensures expr ==> r == Continue
    ensures r == Throw <==> !expr && useException
    ensures r == Abort <==> !expr && !useException && !ndebug
  {
    if useException then
      (if expr then Continue else Throw)
    else if !ndebug && !expr then Abort
    else Continue
  }

  /** `FMATVEC_ASSERT(expr, AT)`. */
  function FmatvecAssertFor(at: Scalar, ndebug: bool, expr: bool): AssertOutcome {
    FmatvecAssert(AssertUseException(at), ndebug, expr)
  }

  /** For the numeric scalar types a failed check never throws, and in a release build it does nothing at all. */
  lemma {:induction false} NumericAssertNeverThrows(at: Scalar, ndebug: bool, expr: bool)
    requires at != SymbolicExpression && at != IndependentVariable
    ensures FmatvecAssertFor(at, ndebug, expr) != Throw
    ensures ndebug ==> FmatvecAssertFor(at, ndebug, expr) == Continue
  {
  }

  /** For the symbolic types the outcome does not depend on NDEBUG. */
  lemma {:induction false} SymbolicAssertIgnoresNdebug(at: Scalar, expr: bool)
    requires at == SymbolicExpression || at == IndependentVariable
    ensures FmatvecAssertFor(at, true, expr) == FmatvecAssertFor(at, false, expr)
    ensures !expr ==> FmatvecAssertFor(at, true, expr) == Throw
  {
  }

  /** Type expressions `ReplaceAT` distinguishes; shape parameters are kept as opaque names. */
  datatype TypeExpr =
    | ErrorType
    | ScalarType(s: Scalar)
    | VectorType(shape: string, at: Scalar)
    | RowVectorType(shape: string, at: Scalar)
    | MatrixType(matType: string, rowShape: string, colShape: string, at: Scalar)
    | SquareMatrixType(shape: string, at: Scalar)
    | OtherType(name: string)

  /** The scalar parameter of a container type. */
  function AtomicType(t: TypeExpr): Option<Scalar> {
    match t
    case VectorType(_, at) => Some(at)
    case RowVectorType(_, at) => Some(at)
    case MatrixType(_, _, _, at) => Some(at)
    case SquareMatrixType(_, at) => Some(at)
    case _ => None
  }

  /** Same container with its shape parameters, ignoring the scalar. */
  predicate SameContainer(t: TypeExpr, u: TypeExpr) {
    match (t, u)
    case (VectorType(s, _), VectorType(s', _)) => s == s'
    case (RowVectorType(s, _), RowVectorType(s', _)) => s == s'
    case (MatrixType(m, r, c, _), MatrixType(m', r', c', _)) => m == m' && r == r' && c == c'
    case (SquareMatrixType(s, _), SquareMatrixType(s', _)) => s == s'
    case _ => false
  }

  /** `ReplaceAT<MatVec,NewAT>::Type`. */
  function ReplaceAT(t: TypeExpr, newAT: Scalar): (r: TypeExpr)
    ensures t == ErrorType ==> r == ErrorType
    ensures AtomicType(t).Some? ==> SameContainer(t, r) && AtomicType(r) == Some(newAT)
    ensures t != ErrorType && AtomicType(t).None? ==> r == ScalarType(newAT)
  {
    match t
    case ErrorType => ErrorType
    case VectorType(s, _) => VectorType(s, newAT)
    case RowVectorType(s, _) => RowVectorType(s, newAT)
    case MatrixType(m, rs, cs, _) => MatrixType(m, rs, cs, newAT)
    case SquareMatrixType(s, _) => SquareMatrixType(s, newAT)
    case _ => ScalarType(newAT)
  }

  /** Replacing twice is replacing once with the last type; replacing by the type already there changes nothing. */
  lemma {:induction false} ReplaceATTwice(t: TypeExpr, a: Scalar, b: Scalar)
    ensures ReplaceAT(ReplaceAT(t, a), b) == ReplaceAT(t, b)
    ensures AtomicType(t) == Some(a) ==> ReplaceAT(t, a) == t
  {
  }
}
