# fmatvec storage and linear algebra, modelled in Dafny

fmatvec is a C++ template library of vectors and matrices. A matrix type has three tags:

- a shape: General, Symmetric, Diagonal, Sparse or SymmetricSparse;
- a size: `Var`, `Fixed<M>` or `Ref`, the last being a view into shared memory;
- a scalar type.

Free functions such as `add`, `sub`, `mult`, `JTJ` and the sorts work on top of these types.

This project models four things:

- the storage classes: their index formulas, constructors, `init`, `resize`, the assignment operators, copies, sub-matrices and block `set`/`add`;
- the views that alias a parent's buffer;
- the loop-level arithmetic;
- the `OperatorResult` table and the assertion policy.

For each part it proves what the code promises.

## Conventions

- **Scalars are Dafny `real`.** The floating-point rounding of `double` is not modelled.
- **Dense meanings.** Vectors are `seq<real>` and general matrices `seq<seq<real>>`, in module `Dense`. `Dot`, `MatVec`, `VecMat`, `MatMul`, `Transpose`, `MatAdd` and their relatives give every operation its dense meaning. DenseAlgebra proves the algebra of these (`Dense.MatVec`, `DenseAlgebra.DotMatVec` and so on).
- **Symmetric operands.** A symmetric operand is its stored upper triangle `U`. The full matrix it stands for is `SymUpper(U, n)`, with `U[i][j]` for `i <= j` mirrored below the diagonal.
- **Storage classes are Dafny classes.** Each wraps an `array<real>`. The index formula is a function, and `Contents()` reads the whole matrix back. Every method states the new `Contents()` in terms of the old one.
- **Views.** A view is an object that shares its parent's `array` at an offset, with a leading dimension and a transposed flag. Lemmas show that a write through the view is a write to the parent.
- **Three-argument `mult`, `add` and `sub`** write into a caller's `array` or `array2`. The value-returning operators allocate an array, run the loop and return what the array then holds.
- **Size checks.** A failed `FMATVEC_ASSERT` or `assert` is a precondition. A `throw std::runtime_error` is an error `Result`, from module `Wrappers`.

| file | module | content |
|---|---|---|
| `types.dfy` | `Types` | the `OperatorResult` table, `AssertUseException`, `fmatvec_assert`, `ReplaceAT` |
| `wrappers.dfy` | `Wrappers` | `Result` and `Option` |
| `dense.dfy`, `dense_algebra.dfy` | `Dense`, `DenseAlgebra` | the dense reference meanings and their algebra |
| `layout.dfy` | `Layout` | row-major addressing `i*N + j` and flattening |
| `var_general.dfy` | `VarGeneralMatrix` | `Matrix<General,Var,Var>` from the grundl branch |
| `matlab_string.dfy` | `MatlabString` | that class's matlab-like string constructor |
| `fixed_var_general.dfy` | `FixedVarGeneralMatrix` | `Matrix<General,Fixed<M>,Var>` |
| `ref_layout.dfy` | `RefLayout` | packed symmetric `ei`/`ej` addressing and general `Ref` addressing with a transposed flag |
| `symmetric_ref.dfy` | `SymmetricRefMatrix` | `Matrix<Symmetric,Ref,Ref>` from the foerg branch, with its triangle-restricted views |
| `fixed_symmetric.dfy` | `FixedSymmetricMatrix` | `Matrix<Symmetric,Fixed<M>,Fixed<M>>` |
| `ref_vector.dfy` | `VectorRef` | `Vector<Ref>` with Range and Indices access and `ref` views |
| `row_vector.dfy` | `LegacyRowVector` | the strided `RowVector` of release 1.0.2 |
| `elementwise.dfy` | `Elementwise` | `add`, `sub`, `+`, `-`, `+=` and `-=` for vectors and for general, symmetric and diagonal matrices |
| `scalar.dfy` | `ScalarOps` | scalar `*`, `/`, `*=`, `/=` and negation |
| `products.dfy`, `sparse.dfy`, `operators.dfy` | `Products`, `Sparse`, `Operators` | the `mult` loops, the CSR and symmetric-sparse formats, and the `operator*` forms |
| `cross.dfy` | `CrossProducts` | `crossProduct`, `tripleProduct` and both directions of `tilde` |
| `compare.dfy` | `Comparisons` | `==`, `!=`, `max`, `min`, `maxIndex` and `minIndex` |
| `sorting.dfy` | `RowSorting` | `bubbleSort` and `quickSortMedian` of rows by a pivot column |
| `gram.dfy` | `Gram` | `JTJ`, `JTMJ` and `JMJT` |
| `legacy_algebra.dfy` | `LegacyAlgebra` | what only the foerg branch's linear algebra has: general times symmetric, transposed-flag `Ref` loops, `countElements`, and in-place `+=` and `-=` on `Ref` storage |

## Model

| member | source | states |
|---|---|---|
| Types.OperatorResult | fmatvec/types.h:194-209 | a result type exists exactly for two tabled scalars (int, double, complex<double>), and it is the higher-ranked of the two |
| Types.OperatorResultCommutes | fmatvec/types.h:199-201 | both argument orders are registered, so the table is symmetric |
| Types.SameTypeIsIdentity | fmatvec/types.h:203-205 | a tabled type combined with itself gives itself |
| Types.ResultAbsorbs | fmatvec/types.h:203-209 | a result is again tabled, and combining it with either argument once more gives it back |
| Types.AssertUseException | fmatvec/types.h:219 | the policy is false by default and true only for the two symbolic types, which opt into exceptions at fmatvec/ast.h:541-542 |
| Types.FmatvecAssert | fmatvec/types.h:222-241 | a true expression continues; a false one throws under the exception policy, aborts without it unless NDEBUG is set, and otherwise continues |
| Types.NumericAssertNeverThrows | fmatvec/types.h:211-226 | for numeric scalars a failed check never throws and in a release build does nothing |
| Types.SymbolicAssertIgnoresNdebug | fmatvec/types.h:212-214 | for symbolic scalars the outcome does not depend on NDEBUG, and a failed check throws |
| Types.ReplaceAT | fmatvec/types.h:254-296 | ErrorType stays ErrorType; a container keeps its kind and shapes and gets the new scalar; a plain scalar becomes the new scalar |
| Types.ReplaceATTwice | fmatvec/types.h:254-296 | replacing twice equals replacing once with the last type, and replacing by the type already there changes nothing |
| Layout.RowMajorInjective | branches/user/grundl/src/var_general_matrix.h:191-201 | two positions with column below N that share the cell `i*N+j` are the same position |
| Layout.RowsAt | fmatvec/fixed_var_general_matrix.h:230-240 | entry `(i,j)` of the m×n matrix a buffer stores is cell `i*N+j` |
| Layout.RowsUpdate | branches/user/grundl/src/var_general_matrix.h:191-193 | writing cell `i*N+j` changes entry `(i,j)` of the stored matrix and no other |
| VarGeneralMatrix.VarGeneral.ContentsAt | branches/user/grundl/src/var_general_matrix.h:191-201 | element `(i,j)` of the stored matrix is the cell `e(i,j)` addresses, `ele[i*N+j]` |
| VarGeneralMatrix.VarGeneral.Put | branches/user/grundl/src/var_general_matrix.h:191-193 | writing `e(i,j)` changes that element of the matrix and no other |
| VarGeneralMatrix.VarGeneral.BlasViewMisreads | branches/user/grundl/src/var_general_matrix.h:244-265 | with `ldim() = M` and column-major order a BLAS routine looks for `(0,1)` somewhere other than where `e(0,1)` stores it, for every matrix of at least 2×2 |
| VarGeneralMatrix.VarGeneral.RowMajorLdim | branches/user/grundl/src/var_general_matrix.h:244 | the leading dimension matching `e(i,j)` is the column count N |
| VarGeneralMatrix.VarGeneral.BlasViewMatches | branches/user/grundl/src/var_general_matrix.h:191-201 | under row-major order with leading dimension N a BLAS routine finds every element where `e(i,j)` stores it |
| VarGeneralMatrix.VarGeneral.Empty | branches/user/grundl/src/var_general_matrix.h:60 | the default matrix is 0×0 with no buffer |
| VarGeneralMatrix.VarGeneral.NoInit | branches/user/grundl/src/var_general_matrix.h:68 | an m×n matrix with a fresh buffer |
| VarGeneralMatrix.VarGeneral.WithValue | branches/user/grundl/src/var_general_matrix.h:69 | an m×n matrix with every element `a` |
| VarGeneralMatrix.VarGeneral.Identity | branches/user/grundl/src/var_general_matrix.h:70 | an m×n matrix with `a` on the diagonal and 0 elsewhere |
| VarGeneralMatrix.VarGeneral.FromMatrix | branches/user/grundl/src/var_general_matrix.h:79-93 | the copy and converting constructors give fresh storage equal to the source |
| VarGeneralMatrix.VarGeneral.FromNested | branches/user/grundl/src/var_general_matrix.h:655-662 | the vector-of-vectors constructor takes its size from the rows and the first row, and holds exactly those rows |
| VarGeneralMatrix.VarGeneral.DeepCopy | branches/user/grundl/src/var_general_matrix.h:666-671 | every element `(i,j)` becomes `A(i,j)` |
| VarGeneralMatrix.VarGeneral.Init | branches/user/grundl/src/var_general_matrix.h:441-445 | all M·N cells become `a` |
| VarGeneralMatrix.VarGeneral.InitEye | branches/user/grundl/src/var_general_matrix.h:448-453 | the diagonal becomes `a` and every other element 0 |
| VarGeneralMatrix.VarGeneral.Resize | branches/user/grundl/src/var_general_matrix.h:115-120 | `resize()` leaves a 0×0 matrix with no buffer |
| VarGeneralMatrix.VarGeneral.ResizeNoInit | branches/user/grundl/src/var_general_matrix.h:122-128 | new dimensions and a fresh buffer; the old contents are gone |
| VarGeneralMatrix.VarGeneral.ResizeInit | branches/user/grundl/src/var_general_matrix.h:130 | new dimensions, every element `a` |
| VarGeneralMatrix.VarGeneral.ResizeEye | branches/user/grundl/src/var_general_matrix.h:132 | new dimensions, `a` on the diagonal and 0 elsewhere |
| VarGeneralMatrix.VarGeneral.Assign | branches/user/grundl/src/var_general_matrix.h:400-438 | a matrix without a buffer adopts the source size; one with a buffer must already have it and keeps that buffer; afterwards it equals the source |
| VarGeneralMatrix.VarGeneral.CopyFrom | branches/user/grundl/src/var_general_matrix.h:455-468 | the buffer is replaced by a fresh one exactly when a dimension differs; afterwards the matrix equals the source |
| VarGeneralMatrix.VarGeneral.Sub | branches/user/grundl/src/var_general_matrix.h:470-483 | the block is a fresh `I.size()×J.size()` matrix with `B(i,j) = e(I.start+i, J.start+j)`, a copy and not a view |
| VarGeneralMatrix.VarGeneral.Row | branches/user/grundl/src/var_general_matrix.h:530-545 | `row(i)` is a copy of row i |
| VarGeneralMatrix.VarGeneral.Column | branches/user/grundl/src/var_general_matrix.h:547-562 | `col(j)` is a copy of column j |
| VarGeneralMatrix.VarGeneral.T | branches/user/grundl/src/var_general_matrix.h:564-571 | a fresh N×M matrix equal to the transpose; the source is unchanged |
| VarGeneralMatrix.VarGeneral.SetColumn | branches/user/grundl/src/var_general_matrix.h:573-581 | `set(j,x)` overwrites column j with x (`add(j,x)`, 608-616, adds x to it); nothing else changes |
| VarGeneralMatrix.VarGeneral.SetRow | branches/user/grundl/src/var_general_matrix.h:583-591 | `set(i,x)` overwrites row i with x (`add(i,x)`, 618-626, adds x to it); nothing else changes |
| VarGeneralMatrix.VarGeneral.SetBlock | branches/user/grundl/src/var_general_matrix.h:593-606 | `set(I,J,A)` overwrites the block `I×J` with A (`add`, 628-641, adds A to it); cells outside the block keep their values |
| VarGeneralMatrix.VarGeneral.ToNested | branches/user/grundl/src/var_general_matrix.h:643-652 | the vector-of-vectors conversion gives exactly the rows of the matrix |
| MatlabString.CountAsWritten | branches/user/grundl/src/var_general_matrix.h:363-384 | the first pass as written: `M` is the number of `;` plus one, `N` the commas of the last row plus one, and the check passes exactly when every closed row after a row with commas has the comma count of the row before it; `"[]"` gives 0×0 |
| MatlabString.Count | branches/user/grundl/src/var_general_matrix.h:363-384 | the first pass with the intended check on every row, the last one included: the same `M` and `N`, and the check passes exactly when all rows have equal length |
| MatlabString.TallyTracksRows | branches/user/grundl/src/var_general_matrix.h:370-380 | the counters hold the number of closed rows, the commas of the open row and of the previous row, and the flag says all closed rows are alike |
| MatlabString.CountCorrect | branches/user/grundl/src/var_general_matrix.h:363-384 | the intended check holds exactly for rectangular streams, and the counts are the row count and the last row's column count |
| MatlabString.RectangularSize | branches/user/grundl/src/var_general_matrix.h:385-396 | a rectangular stream of m rows of n numbers holds exactly m·n numbers, so the second pass reads every number once |
| MatlabString.Parse | branches/user/grundl/src/var_general_matrix.h:354-398 | construction succeeds exactly for the empty stream and rectangular streams; it then holds the numbers in row-major order as an m×n matrix (`"[]"` is 0×0); a ragged stream is an error |
| MatlabString.AsWrittenAcceptsRagged | branches/user/grundl/src/var_general_matrix.h:371-385 | `"[1,2;3]"` passes the check as written and is sized 2×1, one cell too few for its three numbers |
| MatlabString.AsWrittenSkipsAfterSingleColumn | branches/user/grundl/src/var_general_matrix.h:372-373 | `"[1;2,3]"`: a one-column first row leaves `buf` at 0, so the check is skipped and the stream is sized 2×2 |
| MatlabString.AsWrittenAgreesOnRectangular | branches/user/grundl/src/var_general_matrix.h:363-384 | on streams whose closed rows are all alike the as-written pass and the intended one agree |
| FixedVarGeneralMatrix.FixedVarGeneral.ContentsAt | fmatvec/fixed_var_general_matrix.h:230-240 | element `(i,j)` of the stored matrix is the cell `ele[i*N+j]` |
| FixedVarGeneralMatrix.FixedVarGeneral.Put | fmatvec/fixed_var_general_matrix.h:230-232 | writing `e(i,j)` changes that element and no other |
| FixedVarGeneralMatrix.FixedVarGeneral.Ldim | fmatvec/fixed_var_general_matrix.h:283 | the leading dimension is the column count N |
| FixedVarGeneralMatrix.FixedVarGeneral.BlasViewMatches | fmatvec/fixed_var_general_matrix.h:283-304 | under `blasOrder()` (row-major) and `ldim()` a BLAS routine finds every element where `e(i,j)` stores it |
| FixedVarGeneralMatrix.FixedVarGeneral.Empty | fmatvec/fixed_var_general_matrix.h:66 | the default matrix has M rows, no columns and no buffer |
| FixedVarGeneralMatrix.FixedVarGeneral.NoInit | fmatvec/fixed_var_general_matrix.h:77 | M×n with a fresh buffer |
| FixedVarGeneralMatrix.FixedVarGeneral.WithValue | fmatvec/fixed_var_general_matrix.h:78 | M×n with every element `a` |
| FixedVarGeneralMatrix.FixedVarGeneral.Identity | fmatvec/fixed_var_general_matrix.h:79 | M×n with `a` on the diagonal and 0 elsewhere |
| FixedVarGeneralMatrix.FixedVarGeneral.SizedNoInit | fmatvec/fixed_var_general_matrix.h:80 | the row count passed must be M |
| FixedVarGeneralMatrix.FixedVarGeneral.SizedWithValue | fmatvec/fixed_var_general_matrix.h:81 | the row count passed must be M; every element `a` |
| FixedVarGeneralMatrix.FixedVarGeneral.SizedIdentity | fmatvec/fixed_var_general_matrix.h:82 | the row count passed must be M; `a` on the diagonal and 0 elsewhere |
| FixedVarGeneralMatrix.FixedVarGeneral.FromMatrix | fmatvec/fixed_var_general_matrix.h:89-113 | the copy constructors demand M source rows and give fresh storage equal to the source |
| FixedVarGeneralMatrix.FixedVarGeneral.Copy | fmatvec/fixed_var_general_matrix.h:581-588 | every element `(i,j)` becomes `A(i,j)` |
| FixedVarGeneralMatrix.FixedVarGeneral.Init | fmatvec/fixed_var_general_matrix.h:418-423 | all M·N cells become `a` |
| FixedVarGeneralMatrix.FixedVarGeneral.InitEye | fmatvec/fixed_var_general_matrix.h:425-431 | `a` on the diagonal, 0 elsewhere |
| FixedVarGeneralMatrix.FixedVarGeneral.ResizeNoInit | fmatvec/fixed_var_general_matrix.h:143-148 | n columns in a fresh buffer; the old contents are gone |
| FixedVarGeneralMatrix.FixedVarGeneral.ResizeInit | fmatvec/fixed_var_general_matrix.h:150 | n columns, every element `a` |
| FixedVarGeneralMatrix.FixedVarGeneral.ResizeEye | fmatvec/fixed_var_general_matrix.h:152 | n columns, `a` on the diagonal and 0 elsewhere |
| FixedVarGeneralMatrix.FixedVarGeneral.Resize | fmatvec/fixed_var_general_matrix.h:156-160 | `resize(m,n)` fails exactly when m differs from M and then changes nothing; otherwise n zero-initialised columns |
| FixedVarGeneralMatrix.FixedVarGeneral.Assign | fmatvec/fixed_var_general_matrix.h:168-184 | `operator=` demands M rows and exactly N columns, then the matrix equals the source |
| FixedVarGeneralMatrix.FixedVarGeneral.AssignResize | fmatvec/fixed_var_general_matrix.h:192-197 | `operator<<=` demands M rows, replaces the buffer exactly when the column count differs, then the matrix equals the source |
| FixedVarGeneralMatrix.FixedVarGeneral.SubFixed | fmatvec/fixed_var_general_matrix.h:433-444 | a fixed-row block is a fresh copy with `B(i,j) = e(M1+i, J.start+j)` |
| FixedVarGeneralMatrix.FixedVarGeneral.Sub | fmatvec/fixed_var_general_matrix.h:446-457 | a Range block is a fresh Var×Var copy with `B(i,j) = e(I.start+i, J.start+j)` |
| FixedVarGeneralMatrix.FixedVarGeneral.Row | fmatvec/fixed_var_general_matrix.h:459-472 | `row(i)` is a copy of row i |
| FixedVarGeneralMatrix.FixedVarGeneral.Column | fmatvec/fixed_var_general_matrix.h:474-487 | `col(j)` is a copy of column j of M entries |
| FixedVarGeneralMatrix.FixedVarGeneral.T | fmatvec/fixed_var_general_matrix.h:489-496 | the N×M transpose |
| FixedVarGeneralMatrix.FixedVarGeneral.SetColumn | fmatvec/fixed_var_general_matrix.h:498-504 | `set(j,x)` overwrites column j (`add(j,x)`, 527-533, adds to it); nothing else changes |
| FixedVarGeneralMatrix.FixedVarGeneral.SetRow | fmatvec/fixed_var_general_matrix.h:506-512 | `set(i,x)` overwrites row i (`add(i,x)`, 535-541, adds to it); nothing else changes |
| FixedVarGeneralMatrix.FixedVarGeneral.SetBlock | fmatvec/fixed_var_general_matrix.h:514-554 | `set(I,J,A)` and `add(I,J,A)` change only the cells of the block `I×J` |
| FixedVarGeneralMatrix.FixedVarGeneral.ToNested | fmatvec/fixed_var_general_matrix.h:556-565 | the vector-of-vectors conversion gives M rows of N, the matrix itself |
| FixedVarGeneralMatrix.FromNested | fmatvec/fixed_var_general_matrix.h:567-577 | the vector-of-vectors constructor fails exactly when the row count is not M or a row's length differs from the first; otherwise it holds a copy |
| RefLayout.SymAddrMirror | branches/user/foerg/test/src/symmetric_matrix.h:217-239 | `ei(j,i)` and `ej(i,j)` are one cell, so `e(i,j)` and `e(j,i)` address the same cell, which is `ej` of the upper position |
| RefLayout.SymAddrBound | branches/user/foerg/test/src/symmetric_matrix.h:217-231 | every `e(i,j)` of an n×n view lies inside the buffer the view fits in |
| RefLayout.PackedAt | branches/user/foerg/test/src/symmetric_matrix.h:233-239 | entry `(i,j)` of the matrix a packed buffer holds is the cell `e(i,j)` addresses |
| RefLayout.PackedSymmetric | branches/user/foerg/test/src/symmetric_matrix.h:233-239 | whatever the buffer holds, the matrix read through `e` is symmetric |
| RefLayout.PackedUpdate | branches/user/foerg/test/src/symmetric_matrix.h:225-231 | writing `ej(i,j)` for i ≤ j changes entries `(i,j)` and `(j,i)` and no other |
| RefLayout.BlockView | branches/user/foerg/test/src/symmetric_matrix.h:495-525 | a block inside one triangle read through the general view at `elePtr` (untransposed below the diagonal, transposed above) is the block of the symmetric matrix |
| RefLayout.BlockViewFits | branches/user/foerg/test/src/symmetric_matrix.h:495-525 | that general view lies inside the parent's buffer |
| RefLayout.DiagonalView | branches/user/foerg/test/src/symmetric_matrix.h:527-543 | the symmetric view of size `I.size()` at `elePtr(I.start,I.start)` with the parent's lda is the diagonal block of the parent |
| RefLayout.DiagonalViewFits | branches/user/foerg/test/src/symmetric_matrix.h:527-543 | that view lies inside the parent's buffer |
| RefLayout.DiagonalViewWrite | branches/user/foerg/test/src/symmetric_matrix.h:527-543 | a write through the diagonal view is the parent's write at the shifted position |
| SymmetricRefMatrix.GeneralRef.View | branches/user/foerg/test/src/symmetric_matrix.h:504-509 | the general view the symmetric block operator builds: sizes, lda, transposition flag, shared buffer and offset |
| SymmetricRefMatrix.SymmetricRef.ContentsAt | branches/user/foerg/test/src/symmetric_matrix.h:233-239 | entry `(i,j)` is the cell `e(i,j)` addresses |
| SymmetricRefMatrix.SymmetricRef.Mirror | branches/user/foerg/test/src/symmetric_matrix.h:233-239 | `e(i,j) == e(j,i)` whatever the buffer holds |
| SymmetricRefMatrix.SymmetricRef.PutUpper | branches/user/foerg/test/src/symmetric_matrix.h:225-231 | writing `ej(i,j)` for i ≤ j sets `(i,j)` and `(j,i)`, and changes one buffer cell |
| SymmetricRefMatrix.SymmetricRef.Ldim | branches/user/foerg/test/src/symmetric_matrix.h:276 | `ldim()` is lda |
| SymmetricRefMatrix.SymmetricRef.BlasLowerMatches | branches/user/foerg/test/src/symmetric_matrix.h:276-298 | under column-major order, lda and the lower triangle a BLAS routine finds every lower entry where `ei` stores it |
| SymmetricRefMatrix.SymmetricRef.Empty | branches/user/foerg/test/src/symmetric_matrix.h:72-73 | the default matrix is 0×0 with no buffer |
| SymmetricRefMatrix.SymmetricRef.NoInit | branches/user/foerg/test/src/symmetric_matrix.h:84-87 | fresh n×n storage with lda n; the form with m ignores m |
| SymmetricRefMatrix.SymmetricRef.WithValue | branches/user/foerg/test/src/symmetric_matrix.h:85 | fresh n×n storage, every entry `a` |
| SymmetricRefMatrix.SymmetricRef.Identity | branches/user/foerg/test/src/symmetric_matrix.h:86 | fresh n×n storage, `a` on the diagonal and 0 elsewhere |
| SymmetricRefMatrix.SymmetricRef.Wrap | branches/user/foerg/test/src/symmetric_matrix.h:127 | an n×n matrix over a caller's buffer, lda n |
| SymmetricRefMatrix.SymmetricRef.Alias | branches/user/foerg/test/src/symmetric_matrix.h:98 | the copy constructor shares the source's buffer, offset and lda, so both read the same matrix |
| SymmetricRefMatrix.SymmetricRef.FromGeneralRef | branches/user/foerg/test/src/symmetric_matrix.h:105-110 | the general-Ref constructor demands a square source and shares its buffer, offset and lda; the matrix then holds the upper triangle of a transposed source, or the mirrored lower triangle of an untransposed one |
| RefLayout.StridedAsPacked | branches/user/foerg/test/src/symmetric_matrix.h:105-110 | the cells of a square general view, read as a symmetric matrix, form the symmetric matrix of the view's upper triangle (transposed) or of its transpose's upper triangle (untransposed) |
| RefLayout.StridedAsPackedAt | branches/user/foerg/test/src/symmetric_matrix.h:105-110 | entry (i,j) of that symmetric matrix is entry (min,max) of a transposed view, or entry (max,min) of an untransposed one |
| SymmetricRefMatrix.SymmetricRef.FromMatrix | branches/user/foerg/test/src/symmetric_matrix.h:112-118 | the converting constructor demands a square source and holds a fresh copy of its upper triangle, mirrored |
| SymmetricRefMatrix.SymmetricRef.DeepCopy | branches/user/foerg/test/src/symmetric_matrix.h:558-570 | `ej(i,j) = A.e(i,j)` for every j ≥ i: the result is the mirrored upper triangle of A, and cells outside the triangle are untouched |
| SymmetricRefMatrix.SymmetricRef.Init | branches/user/foerg/test/src/symmetric_matrix.h:453-461 | `init(a)` writes `a` to the upper triangle only; the matrix becomes all `a` |
| SymmetricRefMatrix.SymmetricRef.InitEye | branches/user/foerg/test/src/symmetric_matrix.h:463-473 | `a` on the diagonal and 0 above it, nothing else written |
| SymmetricRefMatrix.SymmetricRef.Resize | branches/user/foerg/test/src/symmetric_matrix.h:133-138 | `resize()` leaves no size and no buffer |
| SymmetricRefMatrix.SymmetricRef.ResizeNoInit | branches/user/foerg/test/src/symmetric_matrix.h:140-145 | fresh n×n storage with lda n, nothing shared |
| SymmetricRefMatrix.SymmetricRef.ResizeInit | branches/user/foerg/test/src/symmetric_matrix.h:147 | fresh storage, every entry `a` |
| SymmetricRefMatrix.SymmetricRef.ResizeEye | branches/user/foerg/test/src/symmetric_matrix.h:149 | fresh storage, `a` on the diagonal and 0 elsewhere |
| SymmetricRefMatrix.SymmetricRef.AliasFrom | branches/user/foerg/test/src/symmetric_matrix.h:383-392 | `operator>>` makes the matrix a second name for the source's storage, size and lda |
| SymmetricRefMatrix.SymmetricRef.Assign | branches/user/foerg/test/src/symmetric_matrix.h:394-411 | `operator=` into an empty matrix allocates `A.size()`; otherwise the size must match and the storage stays. The source may share the buffer: it may be this matrix, an alias of it, or a triangle with no cell in common. Afterwards the matrix equals the source and the source is unchanged |
| SymmetricRefMatrix.SymmetricRef.ApartCell | branches/user/foerg/test/src/symmetric_matrix.h:394-411 | writing only the cells of another triangle in the same buffer leaves every entry of this matrix as it was |
| SymmetricRefMatrix.SymmetricRef.AssignGeneral | branches/user/foerg/test/src/symmetric_matrix.h:413-431 | from a general matrix an empty target takes the row count without checking squareness; a non-empty one must be square of size n; only `A(i,j)` with j ≥ i is read |
| SymmetricRefMatrix.SymmetricRef.CopyFrom | branches/user/foerg/test/src/symmetric_matrix.h:434-451 | `operator<<` demands a square source and replaces the storage exactly when the size differs; the result is the source's mirrored upper triangle |
| SymmetricRefMatrix.SymmetricRef.Copy | branches/user/foerg/test/src/symmetric_matrix.h:475-482 | `copy()` gives fresh storage equal to the matrix and leaves the source unchanged |
| SymmetricRefMatrix.SymmetricRef.SubGeneral | branches/user/foerg/test/src/symmetric_matrix.h:495-525 | `operator()(I,J)` demands a block inside one triangle and returns a general view over the same buffer, transposed above the diagonal, reading exactly that block |
| SymmetricRefMatrix.SymmetricRef.SubSymmetric | branches/user/foerg/test/src/symmetric_matrix.h:527-543 | `operator()(I)` returns a symmetric view over the same buffer at `elePtr(I.start,I.start)` with the parent's lda, reading the diagonal block |
| SymmetricRefMatrix.SymmetricRef.ViewTracksParent | branches/user/foerg/test/src/symmetric_matrix.h:527-543 | a diagonal view keeps reading the parent's block after the shared buffer changes |
| SymmetricRefMatrix.SymmetricRef.ToNested | branches/user/foerg/test/src/symmetric_matrix.h:545-554 | the vector-of-vectors conversion gives all n×n entries, a symmetric nested sequence |
| FixedSymmetricMatrix.FixedSymmetric.Mirror | fmatvec/fixed_symmetric_matrix.h:161-183 | `ei(i,j) = ele[i][j]` and `ej(j,i)` are one cell, so `e(i,j) == e(j,i)` whatever the array holds |
| FixedSymmetricMatrix.FixedSymmetric.PutUpper | fmatvec/fixed_symmetric_matrix.h:169-175 | writing `ej(i,j)` for i ≤ j sets entries `(i,j)` and `(j,i)` and changes the one cell `ele[j][i]` |
| FixedSymmetricMatrix.FixedSymmetric.Put | fmatvec/fixed_symmetric_matrix.h:177-183 | writing `e(i,j)` changes `(i,j)` and `(j,i)` and no cell above the diagonal |
| FixedSymmetricMatrix.FixedSymmetric.NoInit | fmatvec/fixed_symmetric_matrix.h:55 | an M×M matrix |
| FixedSymmetricMatrix.FixedSymmetric.WithValue | fmatvec/fixed_symmetric_matrix.h:56 | every entry `a` (0 by default) |
| FixedSymmetricMatrix.FixedSymmetric.Identity | fmatvec/fixed_symmetric_matrix.h:57 | `a` on the diagonal, 0 elsewhere |
| FixedSymmetricMatrix.FixedSymmetric.SizedNoInit | fmatvec/fixed_symmetric_matrix.h:58 | the sized constructor demands m = n = M |
| FixedSymmetricMatrix.FixedSymmetric.SizedWithValue | fmatvec/fixed_symmetric_matrix.h:59 | the sizes must be M; every entry `a` |
| FixedSymmetricMatrix.FixedSymmetric.SizedIdentity | fmatvec/fixed_symmetric_matrix.h:60 | the sizes must be M; `a` on the diagonal, 0 elsewhere |
| FixedSymmetricMatrix.FixedSymmetric.Copy | fmatvec/fixed_symmetric_matrix.h:67 | the defaulted copy constructor copies every cell |
| FixedSymmetricMatrix.FixedSymmetric.FromSymmetric | fmatvec/fixed_symmetric_matrix.h:74-78 | from another symmetric matrix the size must be M; the result equals the source |
| FixedSymmetricMatrix.FixedSymmetric.FromMatrix | fmatvec/fixed_symmetric_matrix.h:85-90 | from any other matrix the source must be M×M; the result is its mirrored upper triangle |
| FixedSymmetricMatrix.FixedSymmetric.CopyGeneral | fmatvec/fixed_symmetric_matrix.h:341-347 | `copy` from a general matrix writes `ej(i,j) = A.e(i,j)` for j ≥ i only: the mirrored upper triangle of A |
| FixedSymmetricMatrix.FixedSymmetric.CopySymmetric | fmatvec/fixed_symmetric_matrix.h:349-355 | `copy` from a symmetric matrix reads `A.ej(i,j)` for j ≥ i: the result equals the source |
| FixedSymmetricMatrix.FixedSymmetric.Init | fmatvec/fixed_symmetric_matrix.h:288-295 | `init(a)` writes the upper half only; every entry reads `a` |
| FixedSymmetricMatrix.FixedSymmetric.InitEye | fmatvec/fixed_symmetric_matrix.h:297-308 | `a` on the diagonal, 0 above it, nothing else written |
| FixedSymmetricMatrix.FixedSymmetric.AssignFixed | fmatvec/fixed_symmetric_matrix.h:98 | the defaulted `operator=` copies every cell of the source |
| FixedSymmetricMatrix.FixedSymmetric.Assign | fmatvec/fixed_symmetric_matrix.h:106-112 | the template `operator=` demands an M×M source and keeps its mirrored upper triangle |
| FixedSymmetricMatrix.FixedSymmetric.AssignSymmetric | fmatvec/fixed_symmetric_matrix.h:106-112 | `operator=` from a symmetric matrix reads through `ej`; the result equals the source |
| FixedSymmetricMatrix.FixedSymmetric.Resize | fmatvec/fixed_symmetric_matrix.h:125-128 | `resize(n,m)` succeeds exactly when n = m = M and changes nothing; otherwise it throws |
| FixedSymmetricMatrix.FixedSymmetric.ToNested | fmatvec/fixed_symmetric_matrix.h:310-321 | the conversion writes `ret[r][c]` and `ret[c][r]` from `ej(r,c)`: the full symmetric M×M matrix |
| FixedSymmetricMatrix.FromNested | fmatvec/fixed_symmetric_matrix.h:323-337 | with each row's length checked before it is read, construction fails exactly when the input is not M rows of M or not symmetric; a wrong row count gives the row-count message; on success it holds the input |
| FixedSymmetricMatrix.AsWrittenReadsOutside | fmatvec/fixed_symmetric_matrix.h:326-335 | for M = 2 and `{{1,2},{}}` the loop as written reads `m[1][0]` before row 1's length is checked |
| FixedSymmetricMatrix.ScanColumnsSquare | fmatvec/fixed_symmetric_matrix.h:330-334 | on a square input the inner loop as written accepts exactly when the rest of row r mirrors column r |
| FixedSymmetricMatrix.ScanRowsSquare | fmatvec/fixed_symmetric_matrix.h:326-335 | on a square input the loop as written accepts exactly when rows r onwards mirror their columns |
| FixedSymmetricMatrix.AsWrittenAgreesOnSquare | fmatvec/fixed_symmetric_matrix.h:323-337 | once every row has M entries the constructor as written accepts the symmetric inputs and throws "not symmetric" for the rest |
| VectorRef.ScatterMeaning | fmatvec/vector.h:406-412 | with distinct indices, `set(I,x)` leaves `x[k]` at `I[k]` and every other entry unchanged |
| VectorRef.ScatterLastWins | fmatvec/vector.h:406-412 | with a repeated index the later write wins: `I = [0,0]`, `x = [1,2]` leaves 2 |
| VectorRef.SpliceWindow | fmatvec/vector.h:374-392 | a range `set`/`add` changes nothing outside the range, and inside it gives `x[k]` (or the old entry plus `x[k]`) |
| VectorRef.RefVector.Put | fmatvec/vector.h:245-251 | writing `e(i)` changes entry i and the one buffer cell `ele[i]` |
| VectorRef.RefVector.Empty | fmatvec/vector.h:79 | the default vector has no size and no buffer |
| VectorRef.RefVector.NoInit | fmatvec/vector.h:81 | m entries in fresh storage |
| VectorRef.RefVector.WithValue | fmatvec/vector.h:82 | m entries in fresh storage, each `a` |
| VectorRef.RefVector.Wrap | fmatvec/vector.h:107-108 | a vector over a caller's buffer reads its first m cells |
| VectorRef.RefVector.FromSeq | fmatvec/vector.h:359-363 | the std::vector constructor gives fresh storage holding v |
| VectorRef.RefVector.ToSeq | fmatvec/vector.h:351-356 | the std::vector conversion gives the m entries |
| VectorRef.RefVector.ResizeNoInit | fmatvec/vector.h:126-129 | fresh storage of m entries; nothing is shared any more |
| VectorRef.RefVector.ResizeInit | fmatvec/vector.h:131-134 | fresh storage of m entries, each `a` |
| VectorRef.RefVector.Init | fmatvec/vector.h:331-336 | `init(a)` sets all m entries and touches no cell of the shared buffer outside them |
| VectorRef.RefVector.SetRange | fmatvec/vector.h:374-392 | `set(I,x)` and `add(I,x)` demand the range fit and the sizes match, and change only the positions in the range, also in the shared buffer. `x` may be other storage, a window of the same buffer that starts no earlier than the range, or one that ends before it |
| VectorRef.RefVector.WriteRange | fmatvec/vector.h:374-392 | the same loop on the buffer window: the window after is the splice of x into it, and no cell outside the range changes |
| VectorRef.RefVector.SpliceWindowInto | fmatvec/vector.h:378-390 | the loop on a window of a raw buffer: the window after is the splice, and no cell outside the written range changes |
| VectorRef.RefVector.SpliceInto | fmatvec/vector.h:378-390 | the element loop on a buffer: the buffer after is the splice. The source may be the same buffer, read no earlier than it is written, or ending before the written cells |
| VectorRef.RefVector.Assign | fmatvec/vector.h:142-157 | `operator=` demands equal sizes, then the vector equals the source, also for a same-buffer source that starts no earlier or ends before the vector; only its own cells change |
| VectorRef.RefVector.CopyFrom | fmatvec/vector.h:196-200 | `operator<<=` gives fresh storage exactly when the sizes differ, then the vector equals the source; equal sizes allow the same-buffer sources that `Assign` allows |
| VectorRef.RefVector.RefTo | fmatvec/vector.h:165-172 | `&=` shares the source's memory, offset and lda, so both read the same entries |
| VectorRef.RefVector.RefRange | fmatvec/vector.h:414-424 | `ref(x,I)` shares x's memory from `I.start` for `I.size()` entries: it reads x's entries in the range |
| VectorRef.RefVector.ViewTracksParent | fmatvec/vector.h:414-424 | after any change of the shared buffer the view still reads entry `I.start+k` of x at k: writes through one are visible through the other |
| VectorRef.RefVector.SubRange | fmatvec/vector.h:338-349 | `operator()(I)` is a fresh copy of length `I.size()` with `x[i] = e(I.start+i)` |
| VectorRef.RefVector.SubIndices | fmatvec/vector.h:394-404 | `operator()(Indices)` demands every index below m and gives a fresh copy with `x[k] = e(I[k])` |
| VectorRef.RefVector.SetIndices | fmatvec/vector.h:406-412 | `set(Indices,x)` demands every index below m and writes `e(I[k]) = x[k]` in order; only the vector's own cells change. `x` may share the buffer when no written cell is one of its cells |
| VectorRef.RefVector.ScatterWindowInto | fmatvec/vector.h:406-412 | the loop on a window of a raw buffer: the window after is the scatter of x into it, and no cell outside the window changes |
| VectorRef.RefVector.ScatterInto | fmatvec/vector.h:406-412 | `b[J[k]] = xb[xo + k]` in order on a raw buffer gives the scatter. With `xb` equal to `b`, no written cell is a cell that is read |
| VectorRef.ScatterSnoc | fmatvec/vector.h:406-412 | writing one more index extends the scatter of the first writes by one update |
| VectorRef.ScatterWindow | fmatvec/vector.h:406-412 | scattering at shifted indices into a whole buffer is scattering into its window; cells outside the window keep their values |
| VectorRef.RefVector.T | fmatvec/vector.h:451-457 | `T()` is a row vector with the same entries |
| LegacyRowVector.RowIsGeneral | tags/release-1.0.2/src/row_vector.h:61-67 | `elePtr(i)` of a row vector is the address of entry `(0,i)` of the general 1×n matrix with the same lda and tp |
| LegacyRowVector.LineAt | tags/release-1.0.2/src/row_vector.h:224-242 | entry i of the row a buffer holds is `ele[i]` when tp is set and `ele[i*lda]` otherwise |
| LegacyRowVector.StrideAddress | tags/release-1.0.2/src/row_vector.h:265 | entry i sits i increments `inc()` after `ele` |
| LegacyRowVector.StrictStride | tags/release-1.0.2/src/row_vector.h:61-67 | entries sit at strictly increasing addresses when the increment is positive |
| LegacyRowVector.TransposeAddress | tags/release-1.0.2/src/row_vector.h:310-316 | entry i of the row is entry `(i,0)` of the column read with tp flipped |
| LegacyRowVector.SubLine | tags/release-1.0.2/src/row_vector.h:423-441 | the sub-row at `elePtr(I.start)` with the same lda and tp reads the parent's entries `I.start..I.end` |
| LegacyRowVector.RowVector.ContentsAt | tags/release-1.0.2/src/row_vector.h:224-242 | entry i is the cell `ele[i*inc()]` |
| LegacyRowVector.RowVector.Put | tags/release-1.0.2/src/row_vector.h:224-230 | writing `x(i)` changes entry i and its one buffer cell |
| LegacyRowVector.RowVector.Distinct | tags/release-1.0.2/src/row_vector.h:224-242 | different entries sit in different cells |
| LegacyRowVector.RowVector.Empty | tags/release-1.0.2/src/row_vector.h:80-81 | the default row vector has no size and no buffer |
| LegacyRowVector.RowVector.NoInit | tags/release-1.0.2/src/row_vector.h:109-110 | n entries in fresh storage, lda 1, not transposed |
| LegacyRowVector.RowVector.WithValue | tags/release-1.0.2/src/row_vector.h:131-132 | n entries in fresh storage, each `a` |
| LegacyRowVector.RowVector.Wrap | tags/release-1.0.2/src/row_vector.h:118-119 | a row vector over a caller's buffer reads its first n cells |
| LegacyRowVector.RowVector.View | tags/release-1.0.2/src/row_vector.h:69-70 | the protected constructor takes size, lda, tp and a pointer into shared memory |
| LegacyRowVector.RowVector.Alias | tags/release-1.0.2/src/row_vector.h:172-180 | the copy constructor references x's memory; both read the same entries |
| LegacyRowVector.RowVector.ResizeNoInit | tags/release-1.0.2/src/row_vector.h:151-154 | fresh storage, lda 1, not transposed |
| LegacyRowVector.RowVector.ResizeInit | tags/release-1.0.2/src/row_vector.h:167-170 | fresh storage, each entry `a` |
| LegacyRowVector.RowVector.Init | tags/release-1.0.2/src/row_vector.h:321-334 | `init(a)` writes every logical entry through the strided address and no other cell |
| LegacyRowVector.RowVector.FillStrided | tags/release-1.0.2/src/row_vector.h:326-331 | the strided loop `ele[i*s] = a` with `s = inc()` |
| LegacyRowVector.RowVector.DeepCopy | tags/release-1.0.2/src/row_vector.h:389-411 | in all four tp/x.tp combinations every entry becomes x's entry, and no cell outside the row changes. `x` may be other storage, the same cells (`x` is this row or an alias of it), or cells with none in common |
| LegacyRowVector.RowVector.CopyStrided | tags/release-1.0.2/src/row_vector.h:389-411 | the loop `ele[i*s] = x.ele[i*xs]` from other storage or from cells apart from the row's gives x's entries |
| LegacyRowVector.RowVector.CopyEntry | tags/release-1.0.2/src/row_vector.h:389-411 | one step of that loop sets entry i to x's entry i, changes one cell, and leaves x's entries as they were |
| LegacyRowVector.LineKeeps | tags/release-1.0.2/src/row_vector.h:389-411 | writing a cell that is none of a row's cells leaves the row's entries unchanged |
| LegacyRowVector.RowVector.CopySelf | tags/release-1.0.2/src/row_vector.h:389-411 | copying a row vector onto itself leaves the buffer as it was |
| LegacyRowVector.RowVector.CopyFrom | tags/release-1.0.2/src/row_vector.h:336-358 | `operator<<` does nothing for an empty source, allocates fresh storage (lda 1, not transposed) for an empty target, and otherwise keeps the storage; afterwards the row equals the source, which may share the buffer as `DeepCopy` allows |
| LegacyRowVector.RowVector.RefTo | tags/release-1.0.2/src/row_vector.h:360-379 | `operator>>` takes x's size when empty and always x's memory, ele, lda and tp |
| LegacyRowVector.RowVector.Copy | tags/release-1.0.2/src/row_vector.h:380-387 | `copy()` gives fresh storage with the same entries |
| LegacyRowVector.RowVector.Sub | tags/release-1.0.2/src/row_vector.h:423-441 | `operator()(I)` has length `I.size()` and aliases the parent at `elePtr(I.start)` with the same lda and tp, reading the parent's entries in the range |
| LegacyRowVector.RowVector.T | tags/release-1.0.2/src/row_vector.h:310-316 | `T()` is a column over the same memory with tp flipped and the same entries |
| Dense.DotCommutes | fmatvec/linear_algebra.h:1271-1282 | `x * y` of a row vector and a vector does not depend on the order of the factors |
| Dense.Transpose | fmatvec/linear_algebra.h:1744-1745 | `trans(A)` of an `m x n` matrix is `n x m` with entry (i,j) equal to `A(j,i)` |
| Dense.TransposeTwice | fmatvec/linear_algebra.h:1744-1756 | transposing twice gives back the matrix |
| Dense.MatVec | fmatvec/linear_algebra.h:817-825 | the dense matrix-vector product: entry i is row i dotted with `x` |
| Dense.VecMat | fmatvec/linear_algebra.h:901-909 | the dense row-vector product: entry i is `x` dotted with column i |
| Dense.MatMul | fmatvec/linear_algebra.h:949-959 | the dense matrix product: entry (i,c) is row i dotted with column c |
| Dense.MatMulColumn | fmatvec/linear_algebra.h:949-959 | column c of a product is the left factor times column c of the right one |
| Dense.GramSymmetric | fmatvec/linear_algebra.h:2109-2120 | `A^T A` is symmetric, so `JTJ` may store only its upper triangle |
| Dense.AddThenSub | fmatvec/linear_algebra.h:309-357 | subtracting `B` undoes adding it |
| Dense.BlockOfWithBlock | fmatvec/fixed_var_general_matrix.h:498-554 | writing a block with `set` and reading the same block back gives the block |
| Dense.SymUpper | fmatvec/fixed_symmetric_matrix.h:161-183 | the `n x n` symmetric matrix a stored upper triangle stands for: entry (i,j) is the stored `(min, max)` cell |
| Dense.SymUpperOfSymmetric | fmatvec/fixed_symmetric_matrix.h:161-183 | a symmetric matrix is what its own upper triangle stands for |
| Dense.UpperDetermines | fmatvec/fixed_symmetric_matrix.h:161-183 | two symmetric matrices that agree on and above the diagonal are equal |
| DenseAlgebra.DotMatVec | fmatvec/linear_algebra.h:1271-1282 | `u * (B * v) == (u * B) * v`: a matrix moves across the row-vector-vector product |
| DenseAlgebra.VecMatSymmetric | fmatvec/linear_algebra.h:911-921 | for a symmetric `B`, the row-vector product `u * B` has the entries of `B * u` |
| DenseAlgebra.BilinearSymmetric | fmatvec/linear_algebra.h:911-921 | for a symmetric `B`, `u * (B * v) == v * (B * u)` |
| DenseAlgebra.DiagMat | fmatvec/linear_algebra.h:973-978 | the dense matrix of a diagonal matrix: `d[i]` on the diagonal, zero elsewhere, and symmetric |
| DenseAlgebra.ScaleThenDivide | fmatvec/linear_algebra.h:1350-1460 | dividing by a nonzero `alpha` undoes scaling by it |
| DenseAlgebra.NegInvolutive | fmatvec/linear_algebra.h:1691-1709 | negating twice gives the matrix back, and unary `-` is scaling by `-1` |
| Products.Accumulate | fmatvec/linear_algebra.h:1271-1300 | `x * y` of a row vector and a vector, and `scalarProduct(x, y)`, start at 0 and add `x(i)*y(i)` in order, which yields the dot product; this is also the inner loop of every `mult` (lines 821-823) and of the legacy row-vector product and `scalarProduct` (branches/user/foerg/test/src/linear_algebra.h:462-475 and 627-640) |
| Elementwise.VecOp | fmatvec/linear_algebra.h:63-82 | `add`/`sub` of two vectors has the operands' length and entry i is `a[i] + b[i]` (or `a[i] - b[i]`) |
| Elementwise.MatOp | fmatvec/linear_algebra.h:309-316 | the element-wise matrix operation keeps the operands' shape and entry (i,j) is `A[i][j] op B[i][j]` |
| Elementwise.CombineVec | fmatvec/linear_algebra.h:63-82 | the three-argument loop leaves the first `a1.size()` cells of `a3` equal to the element-wise result and the cells past them unchanged |
| Elementwise.CombineInto | fmatvec/linear_algebra.h:70-89 | `add(a1,a2)` (`+=`) turns `a1` into `old(a1) + a2` and `sub(a1,a2)` (`-=`) into `old(a1) - a2`; only `a1` changes |
| Elementwise.SubtractFrom | fmatvec/linear_algebra.h:173-177 | `sub(a, b, b)`, the output aliasing the right operand, still leaves `a - old(b)` in `b` |
| Elementwise.Combined | fmatvec/linear_algebra.h:91-162 | vector `operator+` and `operator-` return a fresh vector equal to the element-wise sum or difference; the legacy row-vector difference (branches/user/foerg/test/src/linear_algebra.h:686-700) is the same loop |
| Elementwise.VecAddCommutes | fmatvec/linear_algebra.h:126-130 | the move overload that computes `b += a` gives the same vector as `a + b` |
| Elementwise.VecOpsInverse | fmatvec/linear_algebra.h:63-89 | adding then subtracting the same vector (or the other way round) gives back the original |
| Elementwise.CombineMat | fmatvec/linear_algebra.h:309-357 | `add(A1,A2,A3)` and `sub(A1,A2,A3)` set cell (i,j) of `A3`, for i below `A1.rows()` and j below `A2.cols()`, to the element-wise result and leave every other cell unchanged |
| Elementwise.CombineRow | fmatvec/linear_algebra.h:314-315 | one pass of the inner loop writes the cells of row i and nothing else |
| Elementwise.CombineMatInto | fmatvec/linear_algebra.h:333-381 | `add(A1,A2)` and `sub(A1,A2)` (`+=` and `-=` on a general matrix) turn `A1` into `old(A1) op A2`; the fixed-rows `+=` and `-=` (branches/user/foerg/test/src/linear_algebra_fixed_var.h:58-94) do the same in place |
| Elementwise.CombineRowInto | fmatvec/linear_algebra.h:338-339 | one pass of the inner `+=` loop changes row i and no other row |
| Elementwise.CombinedMat | fmatvec/linear_algebra.h:393-649 | general `operator+` and `operator-`, whatever the row and column kinds, return the element-wise sum or difference of their operands; so do the fixed-rows forms (branches/user/foerg/test/src/linear_algebra_fixed_var.h:34-57) and the legacy `Ref` forms (branches/user/foerg/test/src/linear_algebra.h:799-840) |
| Elementwise.MatAddCommutes | fmatvec/linear_algebra.h:559-563 | the move overload that computes `B += A` gives the same matrix as `A + B` |
| Elementwise.CombineSym | fmatvec/linear_algebra.h:318-365 | the symmetric `add` and `sub` loops write `A3.ej(i,j)` only for `i <= j`, leave every other cell unchanged, and the full symmetric matrix `A3` stands for is the element-wise result of the two full symmetric operands |
| Elementwise.CombineUpperRow | fmatvec/linear_algebra.h:322-323 | one row of the symmetric loop writes columns i to n-1 of row i and nothing else |
| Elementwise.SymCombineMeaning | fmatvec/linear_algebra.h:318-324 | combining two stored upper triangles cell by cell combines the full symmetric matrices they stand for |
| Elementwise.CombineSymInto | fmatvec/linear_algebra.h:342-389 | symmetric `+=` and `-=` update the upper triangle, leave the strict lower triangle alone, and make the new symmetric meaning the old one plus or minus `A2`'s |
| Elementwise.CombineUpperRowInto | fmatvec/linear_algebra.h:346-347 | one row of symmetric `+=` changes columns i to n-1 of row i and nothing else |
| Elementwise.CombinedSym | fmatvec/linear_algebra.h:472-481 | `operator+`/`operator-` of two symmetric matrices returns a triangle whose symmetric meaning is the sum or difference of the operands' |
| Elementwise.CombineDiag | fmatvec/linear_algebra.h:326-372 | the diagonal `add` and `sub` loops run over `A3.size()` and fill `d3` with the element-wise result of the first `d3.Length` entries |
| Elementwise.CombinedDiag | fmatvec/linear_algebra.h:472-481 | `operator+`/`operator-` of two diagonal matrices gives a diagonal matrix equal to the dense sum or difference |
| Elementwise.DiagCombine | fmatvec/linear_algebra.h:326-331 | combining the diagonals entry by entry combines the diagonal matrices they stand for |
| ScalarOps.VecMap | fmatvec/linear_algebra.h:1119-1127 | a scaled vector has the operand's length and entry i is the scalar map applied to `x[i]` |
| ScalarOps.MatMap | fmatvec/linear_algebra.h:1350-1358 | a scaled matrix has the operand's shape and entry (i,j) is the scalar map applied to `A[i][j]` |
| ScalarOps.VecMapMeaning | fmatvec/linear_algebra.h:1119-1188 | the three entry maps are the dense `x * alpha`, `x / alpha` and `-x` |
| ScalarOps.MatMapMeaning | fmatvec/linear_algebra.h:1350-1468 | the same for matrices |
| ScalarOps.VecMapUndo | fmatvec/linear_algebra.h:1166-1171 | dividing by a nonzero `alpha` undoes multiplying by it, and negating twice gives back the vector |
| ScalarOps.MatMapUndo | fmatvec/linear_algebra.h:1452-1460 | the same for matrices |
| ScalarOps.MappedVec | fmatvec/linear_algebra.h:1119-1263 | `x * alpha`, `alpha * x` and `x / alpha`, for vectors and row vectors, return a fresh vector whose entries are the operand's scaled or divided; the negations at lines 1621-1659 return the negated entries; the legacy scalar products and negations (branches/user/foerg/test/src/linear_algebra.h:400-457 and 528-565) are the same loops |
| ScalarOps.MapVecInPlace | fmatvec/linear_algebra.h:1128-1185 | `x *= alpha` and `x /= alpha` turn `x` into its old contents scaled or divided, and the move overloads run the same loop on their temporary; the diagonal `*=` and `/=` at lines 1580-1609 do the same to the stored diagonal |
| ScalarOps.MappedMat | fmatvec/linear_algebra.h:1350-1460 | `A * alpha`, `alpha * A` and `A / alpha` return a fresh matrix whose entries are the operand's scaled or divided; the square and general negations at lines 1667-1709, the fixed-rows negation and scaling (branches/user/foerg/test/src/linear_algebra_fixed_var.h:126-147) and the legacy scalar products and negation (branches/user/foerg/test/src/linear_algebra.h:484-514 and 735-747) are the same loops |
| ScalarOps.MapRow | fmatvec/linear_algebra.h:1356-1357 | one pass of the inner loop writes row i from column `j0` on and nothing else |
| ScalarOps.MapMatInPlace | fmatvec/linear_algebra.h:1563-1594 | `A *= alpha` and `A /= alpha` turn `A` into its old contents scaled or divided |
| ScalarOps.MapRowInPlace | fmatvec/linear_algebra.h:1566-1568 | one pass of the in-place inner loop changes row i from column `j0` on and nothing else |
| ScalarOps.SymMapMeaning | fmatvec/linear_algebra.h:1389-1396 | scaling the stored upper triangle cell by cell scales the full symmetric matrix |
| ScalarOps.MappedSym | fmatvec/linear_algebra.h:1389-1478 | `alpha * A`, `A * alpha` and `A / alpha` for a symmetric `A` write only `ej(i,j)` with `i <= j` and return a triangle whose symmetric meaning is the scaled or divided operand |
| ScalarOps.MapSymInPlace | fmatvec/linear_algebra.h:1572-1602 | symmetric `A *= alpha` and `A /= alpha` scale or divide the upper triangle, leave the strict lower triangle alone, and so scale the symmetric meaning |
| ScalarOps.DiagMapMeaning | fmatvec/linear_algebra.h:1423-1429 | scaling the diagonal scales the diagonal matrix |
| ScalarOps.MappedDiag | fmatvec/linear_algebra.h:1423-1494 | `alpha * D`, `D * alpha` and `D / alpha` for a diagonal `D` give the diagonal of the scaled or divided diagonal matrix |
| Products.Grid | fmatvec/linear_algebra.h:950-959 | the matrix an output array holds has the array's shape and its cells |
| Products.SymRowDot | fmatvec/linear_algebra.h:831-835 | the two inner loops of the symmetric product, `ei(i,j)` below the diagonal and `ej(i,j)` from it on, compute row i of the symmetric matrix dotted with `x` |
| Products.SymRow | fmatvec/linear_algebra.h:832-835 | the row the loops read: `U[j][i]` before the diagonal and `U[i][j]` from it on |
| Products.SymRowIsRow | fmatvec/linear_algebra.h:832-835 | that row is row i of the full symmetric matrix the triangle stands for |
| Products.SparseRowDot | fmatvec/linear_algebra.h:844-845 | the loop over one compressed row computes that dense row dotted with `x` |
| Products.SymColDot | fmatvec/linear_algebra.h:916-919 | the two loops of the row-vector product read column i of the symmetric matrix, which gives the same value as row i |
| Products.SymColIsRow | fmatvec/linear_algebra.h:911-921 | a column of a symmetric matrix is its row |
| Products.MultMatVec | fmatvec/linear_algebra.h:817-825 | `mult(A, x, y)` leaves `y(i)` equal to row i of `A` dotted with `x`, for every i below `y.size()`; the fixed-columns `A * x` (branches/user/foerg/test/src/linear_algebra_var_fixed.h:31-54) and the legacy `mult` (branches/user/foerg/test/src/linear_algebra.h:220-227) run the same loop |
| Products.MultSymVec | fmatvec/linear_algebra.h:827-837 | the symmetric `mult(A, x, y)` leaves `y(i)` equal to row i of the full symmetric matrix dotted with `x` |
| Products.MultCsrVec | fmatvec/linear_algebra.h:839-847 | the compressed sparse `mult(A, x, y)` leaves `y(i)` equal to row i of the dense meaning dotted with `x` |
| Products.FirstProducts | fmatvec/linear_algebra.h:852-853 | what the first loop of the symmetric sparse product writes at every i |
| Products.RunStep | fmatvec/linear_algebra.h:855-857 | one step of the second loop is one pair of updates, at i and at `Jp[j]` |
| Products.RunIsPartial | fmatvec/linear_algebra.h:852-858 | at every point of the loops the vector is the product of the partially applied matrix with `x` |
| Products.FirstColumn | fmatvec/linear_algebra.h:852-853 | the first loop's products are the product with the matrix the second loop starts from |
| Products.ApplyEntry | fmatvec/linear_algebra.h:856-857 | applying one later entry keeps the vector equal to the partial product |
| Products.BumpTwice | fmatvec/linear_algebra.h:856-857 | the two updates of one step are the product with the matrix bumped at (i,c) and at (c,i) |
| Products.Twice | fmatvec/linear_algebra.h:856-857 | `w(i) += v x(c)` then `w(c) += v x(i)`, entry by entry |
| Products.SymSparseFirst | fmatvec/linear_algebra.h:852-853 | the first loop leaves the state the second loop starts from |
| Products.SymSparseRow | fmatvec/linear_algebra.h:855-858 | one row of the second loop takes the state from the start of row i to the start of row i+1 |
| Products.AddPair | fmatvec/linear_algebra.h:856-857 | `y(i) += v x(c)`, then `y(c) += v x(i)` |
| Products.MultSymSparseVec | fmatvec/linear_algebra.h:849-860 | the symmetric sparse `mult(A, x, y)` leaves `y` equal to the dense meaning of `A` times `x` |
| Products.MultVecMat | fmatvec/linear_algebra.h:901-909 | `mult(x, A, y)` for a row vector leaves `y(i)` equal to `x` dotted with column i of `A` |
| Products.MultVecSym | fmatvec/linear_algebra.h:911-921 | `mult(x, A, y)` for a symmetric `A` leaves `y(i)` equal to `x` dotted with column i of the full symmetric matrix |
| Products.MultMatMat | fmatvec/linear_algebra.h:949-959 | `mult(A1, A2, A3)` leaves each cell (i,k) of `A3` equal to row i of `A1` dotted with column k of `A2`; the legacy generic `mult` (branches/user/foerg/test/src/linear_algebra.h:30-39) is the same triple loop |
| Products.MatMatRow | fmatvec/linear_algebra.h:953-957 | one row of the product loop writes row i of `A3` and no other row |
| Products.MultSymMat | fmatvec/linear_algebra.h:960-972 | the symmetric-left `mult(A1, A2, A3)` leaves each cell equal to a row of the full symmetric matrix dotted with a column of `A2`; the legacy one (branches/user/foerg/test/src/linear_algebra.h:41-52) splits each row at the diagonal into `ei` and `ej` reads in the same way |
| Products.SymMatRow | fmatvec/linear_algebra.h:964-970 | one row of that loop writes row i and no other row |
| Products.MultDiagDiag | fmatvec/linear_algebra.h:973-978 | `mult` of two diagonals sets `A3.e(i) = A1.e(i) * A2.e(i)` over `A3.size()` |
| Products.DiagTimesDiag | fmatvec/linear_algebra.h:973-978 | the product of two diagonal matrices is the diagonal matrix of the entry-wise products |
| Products.DiagRowTimes | fmatvec/linear_algebra.h:973-978 | row i of one diagonal matrix dotted with column k of another is `d1[i] * d2[i]` on the diagonal and zero off it |
| Products.MultCsrMat | fmatvec/linear_algebra.h:980-990 | the compressed sparse `mult(A1, A2, A3)` leaves each cell equal to a row of the dense meaning dotted with a column of `A2` |
| Products.CsrMatRow | fmatvec/linear_algebra.h:984-988 | one row of that loop writes row i and no other row |
| Products.MultSymSparseMat | fmatvec/linear_algebra.h:992-1007 | the symmetric sparse `mult(A1, A2, A3)` leaves `A3` equal to the dense meaning of `A1` times `A2`, column by column |
| Products.SymSparseMatFirst | fmatvec/linear_algebra.h:995-998 | the first loop leaves every column of `A3` in the state the second loop starts from |
| Products.SymSparseMatFirstRow | fmatvec/linear_algebra.h:996-997 | one row of the first loop writes row i and no other row |
| Products.SymSparseMatRow | fmatvec/linear_algebra.h:1000-1005 | one row of the second loop moves every column from the start of row i to the start of row i+1 |
| Products.SymSparseMatEntry | fmatvec/linear_algebra.h:1001-1004 | the innermost loop updates column k alone |
| Products.AddPairColumn | fmatvec/linear_algebra.h:1002-1003 | `A3(i,k) += v A2(c,k)`, then `A3(c,k) += v A2(i,k)`, and no other column changes |
| Sparse.CsrRow | fmatvec/linear_algebra.h:844-845 | row p of a compressed matrix, as a dense vector, holds at column q the sum of the values stored in row p at column q |
| Sparse.CsrDense | fmatvec/linear_algebra.h:839-847 | the dense `rows x cols` matrix a compressed matrix stands for, entry by entry |
| Sparse.SparseDotIsDot | fmatvec/linear_algebra.h:844-845 | the loop over one row's stored entries computes that row's dense dot product with `x` |
| Sparse.Partial | fmatvec/linear_algebra.h:852-858 | the dense matrix the symmetric sparse product has applied after the first loop and part of the second |
| Sparse.SymSparseDense | fmatvec/linear_algebra.h:849-860 | the dense `n x n` matrix a symmetric sparse matrix stands for: every row applied completely |
| Sparse.StartIsFirstOnly | fmatvec/linear_algebra.h:852-853 | after the first loop, exactly the first stored entry of every row has been applied |
| Sparse.FirstOnlyRow | fmatvec/linear_algebra.h:853 | `y.e(i) = A()[Ip[i]] * x.e(Jp[Ip[i]])` is row i of the first-entries matrix times `x` |
| Sparse.NextRow | fmatvec/linear_algebra.h:854-855 | finishing row i-1 of the second loop is starting row i |
| Sparse.MatVecBump | fmatvec/linear_algebra.h:856-857 | adding v at (p,q) adds `v * x[q]` to entry p of the product and nothing else |
| Sparse.PartialStep | fmatvec/linear_algebra.h:855-857 | one step of the inner loop applies the entry at both (i, Jp[j]) and (Jp[j], i) |
| Sparse.AppliedStep | fmatvec/linear_algebra.h:855-857 | the same step, entry by entry: an off-diagonal entry gains the value once at each mirrored position, a diagonal one twice |
| Sparse.SymSparseSymmetric | fmatvec/linear_algebra.h:849-860 | when every row stores its diagonal first, the dense meaning of a symmetric sparse matrix is symmetric |
| Sparse.CsrDenseRow | fmatvec/linear_algebra.h:844-845 | row p of the dense meaning is what row p's stored entries spell out |
| Sparse.SymSparseAt | fmatvec/linear_algebra.h:852-858 | entry (p,q) of the symmetric meaning: the first entry of row p if it is at column q, plus every later entry of row p at column q, plus every later entry of row q at column p |
| Sparse.SymSparseEntry | fmatvec/linear_algebra.h:852-858 | the same when rows store their diagonal first |
| Sparse.SymSparseIsCsrPlusTranspose | fmatvec/linear_algebra.h:849-860 | read as an ordinary compressed matrix `U` whose rows start with their diagonal, a symmetric sparse matrix means `U + U^T` with the diagonal counted once |
| Operators.ArrayIsMatVec | fmatvec/linear_algebra.h:863-898 | a result array whose every entry is a row dotted with `x` holds the dense matrix-vector product |
| Operators.MatTimesVec | fmatvec/linear_algebra.h:863-898 | `A * x` allocates `A.rows()` entries, runs `mult` into them and returns the dense product, for every fixed and variable size combination; so do the legacy matrix-vector overloads (branches/user/foerg/test/src/linear_algebra.h:229-264) |
| Operators.SymTimesVec | fmatvec/linear_algebra.h:863-898 | `A * x` for a symmetric `A` returns the product of the full symmetric matrix the stored triangle stands for and `x`; so does the legacy fixed symmetric `operator*` (branches/user/foerg/test/src/linear_algebra.h:266-277) |
| Operators.CsrTimesVec | fmatvec/linear_algebra.h:863-898 | `A * x` for a compressed sparse `A` returns the product of the dense matrix the arrays describe and `x`; so does the legacy sparse `operator*` (branches/user/foerg/test/src/linear_algebra.h:336-355), a row loop over `ia[i] .. ia[i+1]` |
| Operators.SymSparseTimesVec | fmatvec/linear_algebra.h:863-898 | `A * x` for a symmetric sparse `A` returns the product of the full symmetric matrix its upper triangle stands for and `x` |
| Operators.VecTimesMat | fmatvec/linear_algebra.h:923-946 | `x * A` allocates `A.cols()` entries and returns `x` dotted with each column of `A`; so do the legacy row-vector products (branches/user/foerg/test/src/linear_algebra.h:359-392) |
| Operators.VecTimesSym | fmatvec/linear_algebra.h:923-946 | `x * A` for a symmetric `A` returns the row-vector product, and that equals `A x` because `A` is symmetric |
| Operators.ArrayIsMatMul | fmatvec/linear_algebra.h:1009-1081 | a result array whose every cell is the dense product's cell holds the dense product |
| Operators.MatTimesMat | fmatvec/linear_algebra.h:1009-1094 | `A1 * A2` allocates `A1.rows() x A2.cols()` cells, runs `mult` and returns the dense product, for every fixed and variable size combination, the same-type and square forms included; so do the legacy general and fixed overloads (branches/user/foerg/test/src/linear_algebra.h:67-153) |
| Operators.SymTimesMat | fmatvec/linear_algebra.h:1009-1081 | `A1 * A2` with a symmetric `A1` returns the product of the full symmetric matrix and `A2`; so do the legacy overloads with a symmetric left factor (branches/user/foerg/test/src/linear_algebra.h:155-187) |
| Operators.CsrTimesMat | fmatvec/linear_algebra.h:1009-1081 | `A1 * A2` with a compressed sparse `A1` returns the product of its dense meaning and `A2` |
| Operators.SymSparseTimesMat | fmatvec/linear_algebra.h:1009-1081 | `A1 * A2` with a symmetric sparse `A1` returns the product of its full symmetric meaning and `A2` |
| Operators.DiagTimesDiagValue | fmatvec/linear_algebra.h:1045-1056 | the same-type product of two diagonal matrices is the diagonal matrix whose diagonal is the entrywise product, which is the dense product of the two |
| Operators.SymTimesSym | fmatvec/linear_algebra.h:1097-1108 | `A1 * A2` for two symmetric matrices returns a general matrix equal to the product of the two full symmetric matrices |
| Operators.SymProductTranspose | fmatvec/linear_algebra.h:1097-1108 | the general result of a symmetric-symmetric product transposed is the product in the other order, so the result is in general not symmetric |
| CrossProducts.Cross | fmatvec/linear_algebra.h:1307-1320 | `crossProduct` demands two 3-vectors and returns a 3-vector; the legacy `crossProduct` (branches/user/foerg/test/src/linear_algebra.h:647-663) asserts the same sizes and computes the same three entries |
| CrossProducts.Dot3 | fmatvec/linear_algebra.h:1327-1335 | the dot product of two 3-vectors is the three-term sum `tripleProduct` writes out |
| CrossProducts.TripleIsDotCross | fmatvec/linear_algebra.h:1327-1335 | `tripleProduct(a, x, y)` equals `a` dotted with `crossProduct(x, y)`, and so does the legacy `tripleProduct` (branches/user/foerg/test/src/linear_algebra.h:669-680) |
| CrossProducts.CrossOrthogonal | fmatvec/linear_algebra.h:1314-1316 | the cross product is orthogonal to both operands |
| CrossProducts.CrossAnticommutes | fmatvec/linear_algebra.h:1314-1316 | swapping the operands of `crossProduct` negates the result |
| CrossProducts.TripleCyclic | fmatvec/linear_algebra.h:1334 | the triple product is unchanged by a cyclic shift of its operands and vanishes when an operand repeats |
| CrossProducts.Tilde | fmatvec/linear_algebra.h:1842-1860 | `tilde(x)` of a 3-vector is a 3x3 matrix; the legacy `tilde(x)` (branches/user/foerg/test/src/linear_algebra.h:776-792) fills the same nine cells |
| CrossProducts.InvTilde | fmatvec/linear_algebra.h:1877-1900 | the inverse `tilde(T)` of a 3x3 matrix is a 3-vector read from `T(2,1)`, `T(0,2)`, `T(1,0)` |
| CrossProducts.TildeSkew | fmatvec/linear_algebra.h:1848-1856 | `tilde(x)` has a zero diagonal and is skew-symmetric |
| CrossProducts.TildeRoundTrip | fmatvec/linear_algebra.h:1842-1900 | the inverse `tilde` of `tilde(x)` is `x` |
| CrossProducts.InvTildeRoundTrip | fmatvec/linear_algebra.h:1862-1900 | on a skew-symmetric matrix, the matrix the debug check accepts exactly, `tilde(tilde(T))` is `T` |
| CrossProducts.TildeIsCross | fmatvec/linear_algebra.h:1829-1860 | `tilde(x) * y` equals `crossProduct(x, y)` |
| Comparisons.Equal | fmatvec/linear_algebra.h:1909-1924 | `A == B` is true exactly when the shapes agree and every entry agrees; a shape mismatch answers false |
| Comparisons.NotEqual | fmatvec/linear_algebra.h:1931-1943 | `A != B` is true exactly when `A == B` is false |
| Comparisons.Max | fmatvec/linear_algebra.h:1950-1960 | `max(x)` of a non-empty vector is one of its entries and no entry exceeds it; the legacy `max` (branches/user/foerg/test/src/linear_algebra.h:926-938) is the same loop |
| Comparisons.MaxIndex | fmatvec/linear_algebra.h:1967-1980 | `maxIndex(x)` is a position of a maximal entry and every earlier entry is strictly smaller, so it is the first such position; the legacy `maxIndex` (branches/user/foerg/test/src/linear_algebra.h:945-960) is the same loop |
| Comparisons.Min | fmatvec/linear_algebra.h:1987-1997 | `min(x)` of a non-empty vector is one of its entries and no entry undercuts it; the legacy `min` (branches/user/foerg/test/src/linear_algebra.h:967-979) is the same loop |
| Comparisons.MinIndex | fmatvec/linear_algebra.h:2004-2017 | `minIndex(x)` is the first position of a minimal entry; the legacy `minIndex` (branches/user/foerg/test/src/linear_algebra.h:986-1001) is the same loop |
| Comparisons.MaxAtMaxIndex | fmatvec/linear_algebra.h:1950-1980 | the value `max` returns is the entry at the position `maxIndex` returns |
| Comparisons.MinAtMinIndex | fmatvec/linear_algebra.h:1987-2017 | the value `min` returns is the entry at the position `minIndex` returns |
| RowSorting.SwapRows | fmatvec/linear_algebra.h:2039-2041 | the exchange through `tmp` swaps rows i and j, leaves every other row alone and keeps the multiset of rows |
| RowSorting.Exchange | fmatvec/linear_algebra.h:2038-2042 | the inner-loop body swaps rows j and j+1 exactly when the key of row j exceeds the key of row j+1, and permutes the rows |
| RowSorting.PassStep | fmatvec/linear_algebra.h:2037-2043 | one compare-and-exchange keeps the invariant of a pass |
| RowSorting.CarryStep | fmatvec/linear_algebra.h:2037-2043 | inside the unsorted prefix the exchange carries the larger key along |
| RowSorting.BubblePass | fmatvec/linear_algebra.h:2037-2043 | one sweep of the inner loop permutes the rows, keeps rows with equal keys in order, and grows the sorted suffix by one row |
| RowSorting.PassExchange | fmatvec/linear_algebra.h:2038-2042 | one compare-and-exchange keeps the pass invariant, the rows and the order of rows with equal keys |
| RowSorting.ExchangeKeepsTies | fmatvec/linear_algebra.h:2038-2042 | a compare-and-exchange swaps only rows whose keys differ, so for every key the rows with that key stay in order |
| RowSorting.ExchangeKeepsTiesSince | fmatvec/linear_algebra.h:2038-2042 | a run of compare-and-exchanges keeps, for every key, the rows with that key in their original order |
| RowSorting.WithKeySwap | fmatvec/linear_algebra.h:2038-2042 | swapping two neighbouring rows with different keys does not change the rows with any one key |
| RowSorting.WithKeyAppend | fmatvec/linear_algebra.h:2020 | the rows with a given key of a concatenation are those of the first part followed by those of the second |
| RowSorting.WithKeyFour | fmatvec/linear_algebra.h:2020 | the same for a sequence made of four parts |
| RowSorting.WithKeyOne | fmatvec/linear_algebra.h:2020 | a single row is kept exactly for its own key |
| RowSorting.SwapEmpty | fmatvec/linear_algebra.h:2038-2042 | two neighbouring parts of which one is empty commute |
| RowSorting.WithKeyMember | fmatvec/linear_algebra.h:2020 | every row kept for a key is a row of the sequence with that key |
| RowSorting.WithKeyHas | fmatvec/linear_algebra.h:2020 | every row is kept for its own key |
| RowSorting.LastKeyBelow | fmatvec/linear_algebra.h:2020 | the last key of a sequence is no larger than the last key of a sorted one with the same ties |
| RowSorting.DropLastTies | fmatvec/linear_algebra.h:2020 | two sorted sequences with the same ties end in the same row, and keep the same ties without it |
| RowSorting.StableSortUnique | fmatvec/linear_algebra.h:2020 | a stable sort has one possible result: two sorted sequences that keep each other's ties in order are equal |
| RowSorting.PassDone | fmatvec/linear_algebra.h:2037-2043 | at the end of a sweep the carried row joins the sorted suffix |
| RowSorting.BubbleSort | fmatvec/linear_algebra.h:2020-2046 | `bubbleSort` of a non-empty matrix with the pivot column inside it returns its rows permuted, with the pivot column ascending, and stable: for every key the rows with that key keep their original order. The legacy `bubbleSort` (branches/user/foerg/test/src/linear_algebra.h:1010-1032) does the same on a copy |
| RowSorting.MedianOfThree | fmatvec/linear_algebra.h:2056-2073 | on a segment of more than four rows the median-of-three step permutes only rows l to r and leaves the median of the three keys at row r |
| RowSorting.ScanUp | fmatvec/linear_algebra.h:2076 | the upward scan stops at the first row whose key is not below the pivot, and the pivot row bounds it |
| RowSorting.ScanDown | fmatvec/linear_algebra.h:2077 | the downward scan stops at a row whose key is not above the pivot or at the upward scan's row; every row it passed has a key above the pivot |
| RowSorting.SwapExtends | fmatvec/linear_algebra.h:2079-2081 | exchanging the two rows the scans stopped at extends both partitioned sides |
| RowSorting.PivotPlaced | fmatvec/linear_algebra.h:2083-2085 | the final exchange puts the pivot row where the scans met, with no larger key before it and no smaller key after it |
| RowSorting.Crossing | fmatvec/linear_algebra.h:2075-2082 | the `for (;;)` loop permutes the rows and stops at a row i with rows l..i-1 at most the pivot key and rows i+1..r-1 at least it |
| RowSorting.Partition | fmatvec/linear_algebra.h:2053-2085 | partitioning permutes only rows l to r and leaves at i a row no earlier key exceeds and no later key undercuts |
| RowSorting.JoinAtPivot | fmatvec/linear_algebra.h:2086-2087 | two sorted halves around a separating pivot row make a sorted segment |
| RowSorting.QuickSortRange | fmatvec/linear_algebra.h:2050-2089 | `quicksortmedian_intern(A, c, tmp, l, r)` permutes only rows l to r and sorts them by the pivot column; the legacy copy (branches/user/foerg/test/src/linear_algebra.h:1036-1072) is the same recursion |
| RowSorting.QuickSortMedian | fmatvec/linear_algebra.h:2100-2107 | `quickSortMedian` returns the rows permuted with the pivot column ascending; the legacy `quickSortMedian` (branches/user/foerg/test/src/linear_algebra.h:1083-1090) does the same on a copy |
| RowSorting.KeysPermute | fmatvec/linear_algebra.h:2026-2107 | rows that are a permutation of each other have pivot columns that are permutations of each other |
| RowSorting.AscendingUnique | fmatvec/linear_algebra.h:2026-2107 | an ascending sequence of keys is determined by its multiset |
| RowSorting.SortsAgree | fmatvec/linear_algebra.h:2020-2099 | the stable `bubbleSort` and the unstable `quickSortMedian` of the same rows agree on the pivot column; they may differ only in the order of rows with equal keys |
| Gram.ColumnCrossRow | fmatvec/linear_algebra.h:2113-2117 | one pass of the `k` loop sets `S.ej(i,k)`, for every k from i on, to column i of `A` dotted with column k of `C`, and nothing else changes |
| Gram.ColumnCross | fmatvec/linear_algebra.h:2128-2134 | the loops fill the stored upper triangle of `A^T C` from the columns of `A` and `C` |
| Gram.ColumnCrossMeaning | fmatvec/linear_algebra.h:2128-2134 | that triangle stands for all of `A^T C` whenever the product is symmetric |
| Gram.JTJ | fmatvec/linear_algebra.h:2109-2120 | `JTJ(A)` is a symmetric matrix whose full meaning is `A^T A`; the fixed-rows `JTJ` (branches/user/foerg/test/src/linear_algebra_fixed_var.h:97-108) is the same loop |
| Gram.CongruenceSymmetric | fmatvec/linear_algebra.h:2122-2136 | `A^T B A` is symmetric when `B` is, so storing one triangle loses nothing |
| Gram.JTMJ | fmatvec/linear_algebra.h:2122-2136 | `JTMJ(B, A)` for a symmetric `B` is a symmetric matrix whose full meaning is `A^T B A`; the fixed-size form (branches/user/foerg/test/src/linear_algebra_fixed_var.h:110-124) is the same loop |
| Gram.JTMJSparse | fmatvec/linear_algebra.h:2138-2152 | `JTMJ(B, A)` for a symmetric sparse `B` stores the upper triangle of `A^T B A`, with `B` meaning its stored entries mirrored; when every row stores its diagonal first that triangle stands for all of `A^T B A` |
| Gram.RowCrossRow | fmatvec/linear_algebra.h:2161-2165 | one pass of the `k` loop sets `S.ej(i,k)`, for every k from i on, to row k of `C` dotted with row i of `A`, and nothing else changes |
| Gram.OuterCongruenceSymmetric | fmatvec/linear_algebra.h:2154-2166 | `A B A^T` is symmetric when `B` is |
| Gram.RowTimesSymmetric | fmatvec/linear_algebra.h:2158 | row i of `A * B` is `B` times row i of `A` when `B` is symmetric |
| Gram.RowCross | fmatvec/linear_algebra.h:2160-2166 | the loops fill the stored upper triangle of `C A^T` from the rows of `A` and `C` |
| Gram.RowCrossMeaning | fmatvec/linear_algebra.h:2160-2166 | that triangle stands for all of `C A^T` whenever the product is symmetric |
| Gram.JMJT | fmatvec/linear_algebra.h:2154-2169 | `JMJT(A, B)` for a symmetric `B` is a symmetric matrix whose full meaning is `A B A^T` |
| LegacyAlgebra.SymColumnDot | branches/user/foerg/test/src/linear_algebra.h:59-62 | the two inner loops over a symmetric right factor, `ej(j,k)` for `j < k` and `ei(j,k)` from `k` on, add up a row dotted with column `k` of the full symmetric matrix |
| LegacyAlgebra.GenSymRow | branches/user/foerg/test/src/linear_algebra.h:56-63 | one pass of the outer loop sets every cell of row `i` to row `i` of `A1` dotted with a column of the full symmetric factor and leaves the other rows alone |
| LegacyAlgebra.MultGenSym | branches/user/foerg/test/src/linear_algebra.h:54-65 | `mult(A1, A2, A3)` with a symmetric `A2` leaves every cell of `A3` equal to the dense product's cell |
| LegacyAlgebra.GenTimesSym | branches/user/foerg/test/src/linear_algebra.h:206-214 | `operator*` with a symmetric right factor returns a fresh `A1.rows() x A2.cols()` matrix equal to the dense product with the full symmetric matrix; the `Fixed<M,N>` overload at lines 189-194 has `A1`'s M rows and gives the same product |
| LegacyAlgebra.View | branches/user/foerg/test/src/linear_algebra.h:285-328 | a general `Ref` operand read through its offset, leading dimension and transposed flag is an `m x n` matrix |
| LegacyAlgebra.ViewAt | branches/user/foerg/test/src/linear_algebra.h:285-328 | entry `(i,j)` of that matrix is the buffer cell `et(i,j)` or `er(i,j)` picks, and that cell lies inside the buffer |
| LegacyAlgebra.ReadCell | branches/user/foerg/test/src/linear_algebra.h:1152 | `e(i,j)` of a `Ref` operand returns entry `(i,j)` of the matrix the view holds |
| LegacyAlgebra.Entries | branches/user/foerg/test/src/linear_algebra.h:285-328 | a legacy vector, a one-column `Ref` matrix, has `m` entries |
| LegacyAlgebra.EntriesLayout | branches/user/foerg/test/src/linear_algebra.h:573-600 | an untransposed vector reads the `m` cells from its offset on (`er(i)`) and a transposed one every `lda`-th cell (`et(i)`) |
| LegacyAlgebra.TransposedView | branches/user/foerg/test/src/linear_algebra.h:710-733 | a transposed view holds the transpose of the untransposed view of the swapped shape on the same cells; this is how the four branches of the `Ref` mat-vec at lines 285-328 read a transposed operand, and the legacy `trans` at lines 710-733 flips the transposed flag on the same cells and so reads the transpose |
| LegacyAlgebra.ViewRowDot | branches/user/foerg/test/src/linear_algebra.h:295-324 | each of the four inner loops returns row `i` of the matrix dotted with the vector, whichever flags the two operands carry |
| LegacyAlgebra.RefMatVec | branches/user/foerg/test/src/linear_algebra.h:285-328 | `A * x` for `Ref` operands returns the dense product of the matrix and the vector the two views hold, for all four combinations of transposed flags |
| LegacyAlgebra.RefVecSum | branches/user/foerg/test/src/linear_algebra.h:573-600 | `x + y` for two `Ref` vectors returns the entrywise sum of the vectors the views hold, for all four combinations of flags |
| LegacyAlgebra.RefVecDifference | branches/user/foerg/test/src/linear_algebra.h:607-620 | `x - y` for a `Ref` vector and a vector of any storage returns the entrywise difference |
| LegacyAlgebra.AddrInjective | branches/user/foerg/test/src/linear_algebra.h:1143-1153 | two distinct entries of a fitting view sit in distinct buffer cells, so the in-place loop never writes one entry through another |
| LegacyAlgebra.ViewUpdate | branches/user/foerg/test/src/linear_algebra.h:1152 | writing the cell of `(i,j)` changes entry `(i,j)` of the view and no other entry |
| LegacyAlgebra.ProgressEnds | branches/user/foerg/test/src/linear_algebra.h:1150-1152 | before the loop no entry is combined, and after the last row every entry holds `A(i,j) op B(i,j)` |
| LegacyAlgebra.CombineViewRow | branches/user/foerg/test/src/linear_algebra.h:1151-1152 | one row of the in-place loop combines the entries of row `i` and touches no buffer cell outside the view |
| LegacyAlgebra.CombineIntoView | branches/user/foerg/test/src/linear_algebra.h:1143-1167 | `A += B` and `A -= B` on a general `Ref` matrix leave the view holding the entrywise sum or difference of its old contents and `B`, and no cell outside the view changes |
| LegacyAlgebra.ColumnMatrix | branches/user/foerg/test/src/linear_algebra.h:1110-1141 | a vector taken as the one column of a matrix keeps its entries in order |
| LegacyAlgebra.CombineIntoVector | branches/user/foerg/test/src/linear_algebra.h:1110-1141 | `x += y` and `x -= y` on a `Ref` vector leave it holding the entrywise sum or difference of its old entries and `y`, and no other buffer cell changes |
| LegacyAlgebra.SymProgressStep | branches/user/foerg/test/src/linear_algebra.h:1175-1177 | one step `A.ej(i,j) += B.ej(i,j)` raises the symmetric pair `(i,j)`, `(j,i)` of the full matrix and nothing else |
| LegacyAlgebra.SymProgressEnds | branches/user/foerg/test/src/linear_algebra.h:1175-1177 | the row-by-row walk over the upper triangle starts at the old matrix and ends at the sum |
| LegacyAlgebra.SymViewStep | branches/user/foerg/test/src/linear_algebra.h:1177 | the cell `ej(i,j)` names still holds its old value when the step reaches it, and writing the sum there advances the walk by one pair |
| LegacyAlgebra.AddSymViewRow | branches/user/foerg/test/src/linear_algebra.h:1176-1177 | row `i` of the symmetric in-place loop raises the pairs `(i,j)` for `j >= i` and touches nothing outside the stored triangle |
| LegacyAlgebra.AddIntoSymView | branches/user/foerg/test/src/linear_algebra.h:1169-1179 | `A += B` on a symmetric `Ref` matrix leaves the full symmetric matrix it holds equal to the sum, and no cell outside the stored upper triangle changes |
| LegacyAlgebra.CountElements | branches/user/foerg/test/src/linear_algebra.h:1098-1108 | `countElements(A)` returns the number of entries whose magnitude exceeds `1e-16` together with every diagonal entry |
| LegacyAlgebra.RowCountBounds | branches/user/foerg/test/src/linear_algebra.h:1098-1108 | a row's count includes its diagonal entry and never exceeds the row length |
| LegacyAlgebra.CountBounds | branches/user/foerg/test/src/linear_algebra.h:1092-1108 | since every diagonal entry counts, the count of an `n x n` matrix lies between `n` and `n*n` |
| LegacyAlgebra.RowCountDiagonal | branches/user/foerg/test/src/linear_algebra.h:1098-1108 | a row whose off-diagonal entries are all within the threshold counts exactly its diagonal entry |
| LegacyAlgebra.CountDiagonal | branches/user/foerg/test/src/linear_algebra.h:1092-1108 | a diagonal matrix, the zero matrix included, counts exactly its `n` diagonal entries |

## Left out

- Floating point: scalars are exact reals, so rounding, overflow, NaN and infinities are not modelled.
- Complex scalars: `complex<double>` appears only as an entry of the `OperatorResult` table; no arithmetic on it is modelled.
- The symbolic scalar types of `fmatvec/ast.h` appear only through their opt-in to the exception policy.
- LAPACK and BLAS bindings are foreign calls and are not part of this model. The model does state which `(blasOrder(), ldim())` pair a BLAS routine would be handed.
- `nrm2` and `nrmInf` are not modelled, because they need `sqrt`, `pow` and `fabs` on doubles.
- The inverse `tilde`'s debug tolerance check and its stack-trace abort are not modelled.
- CrossProducts.InvTilde: reads `T(2,1)`, `T(0,2)` and `T(1,0)` and does not check skew symmetry; its round-trip lemma states exact skew symmetry as the hypothesis.
- CrossProducts.Tilde: requires a 3-vector, which the current header asserts; the legacy `tilde` does not assert the size but indexes entries 0 to 2.
- FixedSymmetricMatrix.FromNested: compares the mirrored entries exactly, whereas the source uses a relative tolerance.
- LegacyAlgebra.GenTimesSym: does not model the `Type` times `Symmetric<Fixed<N,N>>` overload of `operator*` (branches/user/foerg/test/src/linear_algebra.h:196-204). That overload builds its `VarFixed<N>` result with `A3(NONINIT)` and no row count, unlike the `A1.rows()` of the other `VarFixed` overloads, and `mult` fills only `A3.rows()` rows. The row count of that default-constructed `VarFixed` matrix is fixed by a header that is not part of this model. So whether the overload returns a result whose shape does not follow `A1`, or does not compile at all, cannot be settled here. `GenTimesSym` states the `|A1| x n` product that the sibling overloads return.
- LegacyAlgebra.CountElements: keeps the `1e-16` threshold as an exact real constant, with `fabs(a) > t` written as `a > t || a < -t`.
- The rvalue "move" overloads are modelled only by their copying result: `Elementwise.VecAddCommutes` and `Elementwise.MatAddCommutes` state that `b += a` gives `a + b`.
- Reusing the moved-from buffer is not modelled.
- Output aliasing: the three-argument loops take a separate output array. A call whose output shares memory with an input, beyond the `sub(a, b, b)` case that `Elementwise.SubtractFrom` covers, is not modelled.
- Elementwise.CombineInto, Elementwise.CombineMatInto, Elementwise.CombineSymInto, LegacyAlgebra.CombineIntoView, LegacyAlgebra.CombineIntoVector, LegacyAlgebra.AddIntoSymView: the right operand of `+=` and `-=` is taken as a value read before the loop. A right operand whose storage partly overlaps the target, so that the loop reads cells it has already updated, is not modelled.
- VectorRef.RefVector.SetRange, VectorRef.RefVector.WriteRange, VectorRef.RefVector.SpliceInto, VectorRef.RefVector.Assign, VectorRef.RefVector.CopyFrom: a source in the same buffer that starts before the written range and reaches into it is excluded (`ReadsAhead`). The forward loop would read entries it has already overwritten, and that result is not modelled.
- VectorRef.RefVector.SetIndices, VectorRef.RefVector.ScatterInto: a source in the same buffer with a cell among the written ones is excluded; the result of reading a cell after it was written is not modelled.
- LegacyRowVector.RowVector.DeepCopy, LegacyRowVector.RowVector.CopyStrided, LegacyRowVector.RowVector.CopyFrom: a source in the same buffer that shares cells with the row, without reading the row's own cells entry for entry, is excluded (`CopyableFrom`, `CellsApart`); the result the loop would give is not modelled.
- SymmetricRefMatrix.SymmetricRef.Assign: a source in the same buffer with a different offset, leading dimension or size whose triangle shares cells with this one is excluded (`CopyableFrom`); the result the loop would give is not modelled.
- Comparisons.Equal: the address shortcut `&A == &B` of `operator==` is not modelled. It only returns early with `true`, the answer the loop would give.
- RowSorting.QuickSortMedian: requires the pivot column to be inside the matrix when there are two or more rows. The source does not check this and reads out of range otherwise.
- RowSorting keys read `0.0` for a column outside a row. This only makes the key function total, and the preconditions never use it.
- The legacy sorts run on `A_.copy()`: the model takes the rows as a value, so the argument is unchanged by construction, not by a separate proof.
- `branches/user/foerg/test/src/linear_algebra.h` reads its `Ref` operands through the legacy general matrix class. That class's header is not part of this model; the addressing in `RefLayout` follows the `elePtr` of `tags/release-1.0.2/src/row_vector.h`.
- The legacy `vector.h` is not part of this model.
- VectorRef.RefVector: the copy constructor, `ref(A, j)`, `ref(A, I, j)` and `&=` from a matrix take a general matrix that this model does not give `Vector<Ref>` access to, and are left out.
- MatlabString.Parse: works on a token stream of numbers, commas, semicolons and brackets; reading the numbers from characters with `>>` is not modelled.
- LegacyRowVector.RowVector.RefTo: the size agreement that the source asserts only under `FMATVEC_SIZE_CHECK` is a precondition.
- LegacyRowVector.RowVector.CopyFrom: the same holds for its size agreement.
- The doc comment on the grundl `Matrix<General,Var,Var>` submatrix says the result shares memory, but the code copies. `VarGeneralMatrix.VarGeneral.Sub` follows the code and returns a fresh copy.
- Scalar division is modelled only for a nonzero divisor: `ScalarOps.Defined` excludes `Over(0.0)`, because the source divides with no check.
- The many fixed-size and same-type `operator*`, `+` and `-` overloads differ only in the result's size tag. They are cited against the one dense member that states their result.
- C++ overload resolution, templates over the scalar type and the `NONINIT` placeholder have no counterpart here.
- Stream output, `dump` and the test and benchmark drivers are not modelled.

## Findings

| source | as written | input that shows it | evidently intended | confidence | as-written member | corrected member |
|---|---|---|---|---|---|---|
| branches/user/grundl/src/var_general_matrix.h:371-385 | the ragged-row check compares each row's comma count with the row before it only when a `;` closes a row and the previous row had commas; the last row is never checked, and a one-column row switches the check off for the next row | `"[1,2;3]"` passes and is sized 2x1 for three numbers; `"[1;2,3]"` passes and is sized 2x2 for three numbers | every row, the last one included, has the same number of entries, otherwise the constructor fails | medium, not executed | MatlabString.AsWrittenAcceptsRagged, MatlabString.AsWrittenSkipsAfterSingleColumn, MatlabString.CountAsWritten | MatlabString.Count, MatlabString.CountCorrect, MatlabString.Parse |
| branches/user/grundl/src/var_general_matrix.h:244-265 | `ldim()` returns `M` and `blasOrder()` says column-major, while `e(i,j)` stores element `(i,j)` at `ele[i*N+j]`, row-major | any matrix with at least two rows and two columns: BLAS would look for `(0,1)` at cell `M`, while it lives at cell 1 | row-major order with leading dimension `N`, as the fixed-row class declares | medium, not executed | VarGeneralMatrix.VarGeneral.BlasViewMisreads | VarGeneralMatrix.VarGeneral.RowMajorLdim, VarGeneralMatrix.VarGeneral.BlasViewMatches |
| fmatvec/fixed_symmetric_matrix.h:323-337 | the symmetry check of row `r` reads `m[c][r]` for every `c > r` before the length of row `c` has been checked | `M = 2` with rows `{1,2}` and `{}`: row 0 passes its length check, then `m[1][0]` is read from the empty row 1 | check that every row has `M` entries before reading across rows, then throw for ragged input | high, not executed | FixedSymmetricMatrix.AsWrittenReadsOutside | FixedSymmetricMatrix.FromNested |
