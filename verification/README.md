# Finite-element shape functions, modelled in Dafny

The program (`ZinkovskiyTask/Program.cs`) builds the shape functions of four
finite elements: a triangle, a quadrangle, a tetrahedron and a cube. Each
element has `Size` nodes with `Dim` coordinates each, and a fixed list of
`Size` monomials, its basis. Shape function i combines the basis terms so that
it is meant to be 1 at node i and 0 at the other nodes. For every node i,
`Create` fills an augmented `Size × (Size + 1)` matrix. Row j of that matrix
holds the basis terms at node j, and its last column holds the unit vector
e_i. `Solve` solves the system by Gaussian elimination without row exchanges,
then back substitution. The result is copied into row i of the coefficient
matrix `C`.

The model has four modules:

- `Elements` (Elements.dfy): the four variants as a datatype in place of the
  subclasses. It holds their `Size` and `Dim` and the basis each subclass's
  `ShapeCoeff` evaluates. It also has an independent description of each basis
  as exponent masks, and proofs that the two agree and that each basis is the
  full set of monomials up to the element's degree.
- `Gauss` (Gauss.dfy): `Solve` on a two-dimensional array, done in place.
  - The forward-elimination loops and the back-substitution loops are methods
    proved against pure specification functions on `seq<seq<real>>`:
    `PivotStep`, `Forward`, `Elimination` and `BackFrom`/`BackSubst`.
  - Lemmas relate those functions to the linear system. They show which
    entries a pivot step may change and that row operations keep the solution
    set. They show when back substitution fails, and that a successful
    result satisfies the reduced system, and the original system when the
    lower triangle is exactly zero.
  - The pivot test is a parameter, `PivotRule`. `SignedTest` is the test as
    the code writes it; `AbsoluteTest` tests the magnitude (see Findings).
- `ShapeFunctions` (ShapeFunctions.dfy): the class `ShapeFunction` with its
  fields, `SetCoord`, `Create` and `ShapeCoeff`.
  - Pure functions state what each row of `C` ends up holding: `TermSystem`,
    plus `Row`/`RowStart`, which thread the shared result array from one
    node's solve to the next.
  - Lemmas about them cover the all-or-nothing success of the rows and the
    stale values a failed row keeps. They also cover interpolation at the
    nodes when elimination leaves an exactly triangular matrix, and the
    failure of every row when two nodes coincide and the pivot is tested by
    magnitude.
- `TriangleExamples` (TriangleExamples.dfy): two triangles worked through the
  solver under both pivot tests. One is a right triangle whose node-0 system
  has a negative pivot. The other has two coincident nodes.

Doubles are modelled as `real` and `eps` as the constant `Gauss.Eps` (10^-10).
The "Bad FE!" console line becomes the field `solved`, one flag per row of `C`;
a `false` flag stands for one printed line.

## Model

| member | source | states |
|---|---|---|
| Elements.Size | ZinkovskiyTask/Program.cs:87 | the node count each constructor sets (3, 4, 4, 8), stated as the number of monomials in Dim coordinates, none repeated, of degree at most the variant's degree; the same constants are set at lines 102, 117 and 132 |
| Elements.Dim | ZinkovskiyTask/Program.cs:88 | the coordinate count each constructor sets: 2 for Triangle and Quadrangle, 3 for Tetrahedron and Cube, never below the basis degree; the same constants are set at lines 103, 118 and 133 |
| Elements.Terms | ZinkovskiyTask/Program.cs:83-141 | the basis of each variant evaluated at a point has Size(e) terms, and the first is the constant 1 |
| Elements.TermsAreMonomials | ZinkovskiyTask/Program.cs:91-140 | each term of each variant's list (the ShapeCoeff overrides at 91-95, 106-110, 121-125 and 136-140) is the product of the coordinates its exponent mask selects |
| Elements.ExponentsDistinct | ZinkovskiyTask/Program.cs:91-140 | no basis of the four ShapeCoeff overrides (91-95, 106-110, 121-125, 136-140) lists a monomial twice, and term 0 has degree 0 |
| Elements.BasisIsComplete | ZinkovskiyTask/Program.cs:83-141 | a multilinear monomial is in a variant's basis exactly when its degree is at most 1 (Triangle, Tetrahedron), 2 (Quadrangle) or 3 (Cube) |
| Gauss.EliminateRow | ZinkovskiyTask/Program.cs:33-34 | the k loop turns row j into row j minus row_j[i]/pivot[i] times the pivot row from column i on; no other row changes |
| Gauss.EliminateBelow | ZinkovskiyTask/Program.cs:27-35 | one pass of the pivot loop leaves the matrix equal to PivotStep(SignedTest, before, i): nothing if matr[i,i] < eps, otherwise every later row whose entry in column i is not negligible is reduced |
| Gauss.ForwardElimination | ZinkovskiyTask/Program.cs:25-36 | after the pivot loop the array equals Elimination(SignedTest, initial array) |
| Gauss.RowRemainder | ZinkovskiyTask/Program.cs:43-46 | sum is the right-hand side of row i minus the already computed unknowns times their coefficients |
| Gauss.BackSubstituteRow | ZinkovskiyTask/Program.cs:42-49 | one back-substitution pass fails exactly when the diagonal entry is negligible, leaving result unchanged; otherwise it sets result[i] to the remainder over the diagonal, keeps every other entry, and advances BackFrom by one row |
| Gauss.BackSubstitution | ZinkovskiyTask/Program.cs:37-51 | the returned flag and the final result array are BackSubst of the reduced matrix applied to the array as the caller left it |
| Gauss.Solve | ZinkovskiyTask/Program.cs:22-52 | the matrix ends as Elimination(SignedTest, input), and (flag, result) is BackSubst of that matrix from the caller's result array |
| Gauss.PivotStepFrame | ZinkovskiyTask/Program.cs:29-34 | a pivot step changes only rows below the pivot and, in them, only columns from the pivot on |
| Gauss.PivotSkipped | ZinkovskiyTask/Program.cs:27-28 | a skipped pivot leaves the matrix unchanged |
| Gauss.RowSettles | ZinkovskiyTask/Program.cs:25-35 | row i is final once pivot i - 1 is done; in particular row 0 never changes |
| Gauss.ColumnSettles | ZinkovskiyTask/Program.cs:25-35 | column c is final once pivot c is done |
| Gauss.ReduceClearsColumn | ZinkovskiyTask/Program.cs:31-34 | a reduced row has an exact 0 in the pivot column |
| Gauss.PivotStepRow | ZinkovskiyTask/Program.cs:27-34 | row r after a pivot step is the reduced row when the pivot is used, r is below it and M[r][i] is not negligible, and the old row otherwise |
| Gauss.ReducedSameEquation | ZinkovskiyTask/Program.cs:33-34 | given a true pivot equation, a reduced equation holds exactly when the original does |
| Gauss.PivotStepSameSolutions | ZinkovskiyTask/Program.cs:29-34 | if the pivot row is zero left of the pivot, a pivot step keeps the solution set |
| Gauss.ForwardSameSolutions | ZinkovskiyTask/Program.cs:25-35 | forward elimination keeps the solution set while each pivot row is zero left of its pivot |
| Gauss.EliminationSameSolutions | ZinkovskiyTask/Program.cs:25-35 | an eliminated matrix with an exactly zero lower triangle has the same solutions as the input |
| Gauss.DotLinear | ZinkovskiyTask/Program.cs:33-34 | a row equal to b minus f times p has the sum of b minus f times the sum of p |
| Gauss.SubtractDot | ZinkovskiyTask/Program.cs:33-34 | subtracting f times the pivot row from column i on subtracts f times its sum when the pivot row is zero left of i |
| Gauss.BackFromSolved | ZinkovskiyTask/Program.cs:37-49 | back substitution over rows below i succeeds exactly when none of their diagonals is negligible |
| Gauss.BackFromSolvesRows | ZinkovskiyTask/Program.cs:39-49 | after a successful back substitution every processed row's upper-triangular equation holds |
| Gauss.BackFromIgnoresStart | ZinkovskiyTask/Program.cs:39-49 | a successful back substitution does not depend on the previous contents of the rows it fills |
| Gauss.BackFromStopsAt | ZinkovskiyTask/Program.cs:47-48 | back substitution fails at the highest negligible diagonal f and leaves entries 0..f as they were |
| Gauss.BackSubstLast | ZinkovskiyTask/Program.cs:39 | the last unknown is matr[n-1, n] / matr[n-1, n-1] whenever that diagonal is not negligible |
| Gauss.BackFromFailureKeepsFirst | ZinkovskiyTask/Program.cs:37-38 | a failed back substitution leaves entry 0 of the result as it was |
| Gauss.BackSubstSolvesUpper | ZinkovskiyTask/Program.cs:37-51 | Solve's back substitution succeeds iff no diagonal is negligible; then the result satisfies the upper-triangular system and does not depend on the result array's previous contents |
| Gauss.UpperSolvesAll | ZinkovskiyTask/Program.cs:44-46 | for a matrix with a zero lower triangle, the upper-triangular equations and the full equations have the same solutions |
| Gauss.SolveSound | ZinkovskiyTask/Program.cs:22-52 | when elimination leaves an exactly zero lower triangle, a successful solve returns a solution of the input system |
| Gauss.CoefficientsDecide | ZinkovskiyTask/Program.cs:22-52 | two systems with the same coefficient columns are eliminated alike, and their solves succeed or fail together, whatever the right-hand sides and the result arrays |
| Gauss.AbsolutePivotClears | ZinkovskiyTask/Program.cs:27-34 | with the magnitude test, after pivot c every entry below the pivot in column c is negligible |
| Gauss.AbsoluteTestSolvedNearlyTriangular | ZinkovskiyTask/Program.cs:27-34 | with the magnitude test, a successful solve implies that every entry below the diagonal is negligible |
| Gauss.EqualRowsStayEqual | ZinkovskiyTask/Program.cs:25-35 | two rows equal in every coefficient column stay equal there through the pivots above both |
| Gauss.EqualRowCancels | ZinkovskiyTask/Program.cs:31-34 | with the magnitude test, a used pivot row zeroes a later row equal to it in the coefficient columns, from the pivot column on |
| Gauss.ZeroTailStays | ZinkovskiyTask/Program.cs:29-34 | a row that is zero from column j on is left so by every later pivot |
| Gauss.EqualRowsFail | ZinkovskiyTask/Program.cs:22-52 | with the magnitude test, a system with two rows equal in every coefficient column is always reported as failed |
| TriangleExamples.TriangleFirstPivot | ZinkovskiyTask/Program.cs:25-35 | the first pivot step on the right-triangle system, for either test |
| TriangleExamples.SignedTestSkipsNegativePivot | ZinkovskiyTask/Program.cs:27 | as written, the right-triangle system for node 0 keeps a non-negligible -2 below the diagonal, yet the solve reports success with a result that does not solve the system |
| TriangleExamples.AbsoluteTestSolvesTriangle | ZinkovskiyTask/Program.cs:27 | with the magnitude test the same system is solved, and the result satisfies it |
| ShapeFunctions.ShapeFunction.ShapeCoeff | ZinkovskiyTask/Program.cs:91-140 | for every variant's override (91-95, 106-110, 121-125, 136-140), ShapeCoeff(i, j) is the monomial Exponents(element)[j] at node i; for j = 0 it is 1 |
| ShapeFunctions.ShapeFunction.constructor | ZinkovskiyTask/Program.cs:85-89 | sets Size and Dim from the variant, copies the coordinates and builds C and the row flags as Create specifies |
| ShapeFunctions.ShapeFunction.SetCoord | ZinkovskiyTask/Program.cs:12-20 | X becomes a fresh Size × Dim copy of the first rows and columns of px, then C is built as Create specifies |
| ShapeFunctions.ShapeFunction.FillSystem | ZinkovskiyTask/Program.cs:58-65 | every entry of A is rewritten: A becomes the system for node i, with terms at the nodes and the unit right-hand side e_i |
| ShapeFunctions.ShapeFunction.SolveNode | ZinkovskiyTask/Program.cs:58-67 | building and solving node i's system yields Row(SignedTest, element, nodes, i), given the result array as RowStart left it |
| ShapeFunctions.ShapeFunction.CopyRow | ZinkovskiyTask/Program.cs:68-69 | row i of C becomes the result array and no other row changes |
| ShapeFunctions.ShapeFunction.SolveAll | ZinkovskiyTask/Program.cs:58-70 | after the loop over nodes, row r of C and flag r are Row(SignedTest, element, nodes, r), failed rows included |
| ShapeFunctions.ShapeFunction.Create | ZinkovskiyTask/Program.cs:53-71 | a fresh C whose row r is the result of node r's solve starting from the array the previous solve left (zeros first), and solved[r] is that solve's flag |
| ShapeFunctions.TermSystemsShareCoefficients | ZinkovskiyTask/Program.cs:60-64 | the systems of any two nodes have the same coefficient columns |
| ShapeFunctions.SolvedAlike | ZinkovskiyTask/Program.cs:66-67 | every node's solve succeeds or every one fails, so "Bad FE!" is printed for no row or for every row |
| ShapeFunctions.SolvedRowIgnoresStale | ZinkovskiyTask/Program.cs:55-56 | a successful row equals the solve from a fresh zero array: the shared result array does not leak into it |
| ShapeFunctions.FailedRowKeepsStale | ZinkovskiyTask/Program.cs:66-69 | a failed row is still stored, and its first coefficient is zero for node 0 and the previous row's value after that |
| ShapeFunctions.TermRowValue | ZinkovskiyTask/Program.cs:60-64 | row j of node i's system sums to the shape value at node j, and its right-hand side is 1 when i = j and 0 otherwise |
| ShapeFunctions.ShapeFunctionInterpolates | ZinkovskiyTask/Program.cs:53-71 | when elimination leaves an exactly zero lower triangle and the solve succeeds, shape function i is 1 at node i and 0 at every other node |
| ShapeFunctions.CoincidentNodesFail | ZinkovskiyTask/Program.cs:53-71 | with the magnitude test, an element with two nodes at the same point fails on every row, so every row gets its "Bad FE!" line |
| TriangleExamples.RightTriangleSystem | ZinkovskiyTask/Program.cs:58-65 | the system built for node 0 of the triangle (2,0), (0,0), (0,2) |
| TriangleExamples.RightTriangleAsWritten | ZinkovskiyTask/Program.cs:27 | as written, node 0's shape function of that triangle reports success but is -1 at node 2 |
| TriangleExamples.RightTriangleCorrected | ZinkovskiyTask/Program.cs:27 | with the magnitude test it is x/2: 1 at node 0 and 0 at nodes 1 and 2 |
| TriangleExamples.CoincidentTriangleSystem | ZinkovskiyTask/Program.cs:58-65 | the system built for node 0 of the triangle (2,0), (0,2), (0,2), whose rows 1 and 2 are equal |
| TriangleExamples.CoincidentSignedElimination | ZinkovskiyTask/Program.cs:25-35 | as written, elimination of that system skips the pivot -2 and keeps the diagonal entry 2 in the duplicated row |
| TriangleExamples.CoincidentTriangleAsWritten | ZinkovskiyTask/Program.cs:27 | as written, every node's solve of the degenerate triangle reports success, so no "Bad FE!" line is printed |
| TriangleExamples.CoincidentTriangleCorrected | ZinkovskiyTask/Program.cs:27 | with the magnitude test every node's solve of it fails |

## Left out

- `Print` and `Main` (ZinkovskiyTask/Program.cs:72-80, 143-164) are console output and demonstration data. They are not modelled.
- The "Bad FE!" console line is not modelled as output. It appears as the per-row flag `solved`.
- Floating point: the model computes in exact reals. It says nothing about rounding, and the exact zeros it proves would only be approximate in doubles.
- Gauss.Reduce: the specification function subtracts `row[i] / pivot[i] * pivot[k]`. The method `EliminateRow` computes `coeff * matr[i, k] / matr[i, i]` as the source does. The two are equal in reals but round differently in doubles.
- The abstract class and its four subclasses become one class with a constant `element`. The subclass constructors become the one constructor. Before `SetCoord` runs, the null `C` and `X` of the base constructor are empty arrays.
- ShapeFunctions.ShapeFunction.SetCoord: it requires `psize` to be the element's own node count. Every caller passes that; a larger value would make `ShapeCoeff` index past its term list.
- ShapeFunctions.ShapeFunction.constructor: it requires `px` to have at least Size rows and Dim columns. A smaller array raises an index exception in the source, which is not modelled.
- Gauss.SolveSound and ShapeFunctions.ShapeFunctionInterpolates assume that elimination leaves exact zeros below the diagonal. The code does not guarantee this, because entries below eps are skipped and left in place.
- The optional argument `eps = 1.0E-10` of `Solve` is the constant `Gauss.Eps`. The only caller, `Create`, uses the default.
- `Solve` takes the system size as a parameter. The source reads the field `Size`, which always equals the matrix's row count there.

## Findings

| source | as written | input that shows it | evidently intended | confidence | as-written member | corrected member |
|---|---|---|---|---|---|---|
| ZinkovskiyTask/Program.cs:27 | a pivot is skipped when `matr[i, i] < eps`, so every negative pivot is skipped, not just a near-zero one | Triangle with nodes (2,0), (0,0), (0,2). For node 0, pivot 1 becomes -2 and is skipped, leaving -2 below it. The solve reports success with coefficients (0, 0.5, -0.5), which are -1 at node 2 | skip only when `Math.Abs(matr[i, i]) < eps`, as line 31 and the back-substitution checks do | high (not executed) | TriangleExamples.RightTriangleAsWritten | TriangleExamples.RightTriangleCorrected |
| ZinkovskiyTask/Program.cs:27 | the same signed test, seen as a missed singular system | Triangle with nodes (2,0), (0,2), (0,2), two of them coincident. For node 0, pivot 0 makes rows 1 and 2 both (0, -2, 2 \| -1); pivot -2 is skipped, so diagonal entry 2 stays in row 2. All three diagonals are non-negligible, so every row's solve reports success and no "Bad FE!" line is printed | with `Math.Abs(matr[i, i]) < eps` the duplicated row is cleared, its diagonal is 0, and every row fails; in general, two coincident nodes make every row fail | high (not executed) | TriangleExamples.CoincidentTriangleAsWritten | TriangleExamples.CoincidentTriangleCorrected |
