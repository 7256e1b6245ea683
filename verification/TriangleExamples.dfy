/** Worked examples on triangle elements, exercising the solver's pivot
    test: a right triangle whose node-0 system has a negative pivot, and a
    triangle with two coincident nodes. */
module TriangleExamples {
  import Elements
  import Gauss
  import ShapeFunctions

  /** The system of the shape function of node 0 of the triangle with the
      nodes (2, 0), (0, 0), (0, 2): rows 1, x, y of each node and a 1 on the
      right-hand side of row 0 only. */
  const TriangleSystem: seq<seq<real>> := [[1.0, 2.0, 0.0, 1.0], [1.0, 0.0, 0.0, 0.0], [1.0, 0.0, 2.0, 0.0]]

  /** The system after pivot 0, which either test uses. Its pivot 1 is negative. */
  lemma TriangleFirstPivot(rule: Gauss.PivotRule)
    ensures Gauss.PivotStep(rule, TriangleSystem, 0)
            == [[1.0, 2.0, 0.0, 1.0], [0.0, -2.0, 0.0, -1.0], [0.0, -2.0, 2.0, -1.0]]
  {
    var M := TriangleSystem;
    assert Gauss.Reduce(M[1], M[0], 0) == [0.0, -2.0, 0.0, -1.0];
    assert Gauss.Reduce(M[2], M[0], 0) == [0.0, -2.0, 2.0, -1.0];
  }

  /** The signed test skips the negative pivot 1 and leaves the entry under it. */
  lemma TriangleSignedElimination()
    ensures Gauss.Elimination(Gauss.SignedTest, TriangleSystem)
            == [[1.0, 2.0, 0.0, 1.0], [0.0, -2.0, 0.0, -1.0], [0.0, -2.0, 2.0, -1.0]]
  {
    TriangleFirstPivot(Gauss.SignedTest);
    assert Gauss.Forward(Gauss.SignedTest, TriangleSystem, 1) == Gauss.PivotStep(Gauss.SignedTest, TriangleSystem, 0);
  }

  /** The absolute test uses pivot 1 and clears the entry under it. */
  lemma TriangleAbsoluteElimination()
    ensures Gauss.Elimination(Gauss.AbsoluteTest, TriangleSystem)
            == [[1.0, 2.0, 0.0, 1.0], [0.0, -2.0, 0.0, -1.0], [0.0, 0.0, 2.0, 0.0]]
  {
    var M1 := [[1.0, 2.0, 0.0, 1.0], [0.0, -2.0, 0.0, -1.0], [0.0, -2.0, 2.0, -1.0]];
    TriangleFirstPivot(Gauss.AbsoluteTest);
    assert Gauss.Forward(Gauss.AbsoluteTest, TriangleSystem, 1) == M1;
    assert Gauss.Reduce(M1[2], M1[1], 1) == [0.0, 0.0, 2.0, 0.0];
  }

  lemma TriangleSignedBack()
    ensures Gauss.BackSubst([[1.0, 2.0, 0.0, 1.0], [0.0, -2.0, 0.0, -1.0], [0.0, -2.0, 2.0, -1.0]], [0.0, 0.0, 0.0])
            == Gauss.Solution(true, [0.0, 0.5, -0.5])
  {
    var U := [[1.0, 2.0, 0.0, 1.0], [0.0, -2.0, 0.0, -1.0], [0.0, -2.0, 2.0, -1.0]];
    var x0, x1, x2 := [0.0, 0.0, 0.0], [0.0, 0.0, -0.5], [0.0, 0.5, -0.5];
    assert Gauss.BackFrom(U, x0, 3) == Gauss.BackFrom(U, x1, 2);
    assert Gauss.BackFrom(U, x1, 2) == Gauss.BackFrom(U, x2, 1);
    assert Gauss.BackFrom(U, x2, 1) == Gauss.BackFrom(U, x2, 0);
  }

  lemma TriangleAbsoluteBack()
    ensures Gauss.BackSubst([[1.0, 2.0, 0.0, 1.0], [0.0, -2.0, 0.0, -1.0], [0.0, 0.0, 2.0, 0.0]], [0.0, 0.0, 0.0])
            == Gauss.Solution(true, [0.0, 0.5, 0.0])
  {
    var U := [[1.0, 2.0, 0.0, 1.0], [0.0, -2.0, 0.0, -1.0], [0.0, 0.0, 2.0, 0.0]];
    var x0, x2 := [0.0, 0.0, 0.0], [0.0, 0.5, 0.0];
    assert Gauss.BackFrom(U, x0, 3) == Gauss.BackFrom(U, x0, 2);
    assert Gauss.BackFrom(U, x0, 2) == Gauss.BackFrom(U, x2, 1);
    assert Gauss.BackFrom(U, x2, 1) == Gauss.BackFrom(U, x2, 0);
  }

  /** With the signed pivot test a negative pivot is skipped and the entry
      under it stays, yet back substitution reports success, and the
      reported result violates the last equation. */
  lemma SignedTestSkipsNegativePivot()
    ensures var U := Gauss.Elimination(Gauss.SignedTest, TriangleSystem);
      var s := Gauss.BackSubst(U, [0.0, 0.0, 0.0]);
      !Gauss.Negligible(U[2][1]) && s.solved && s.result == [0.0, 0.5, -0.5] && !Gauss.Solves(TriangleSystem, s.result)
  {
    TriangleSignedElimination();
    TriangleSignedBack();
    assert Gauss.Dot(TriangleSystem[2], [0.0, 0.5, -0.5], 0, 3) == -1.0;
  }

  /** With the absolute pivot test the same system is solved correctly. */
  lemma AbsoluteTestSolvesTriangle()
    ensures var s := Gauss.BackSubst(Gauss.Elimination(Gauss.AbsoluteTest, TriangleSystem), [0.0, 0.0, 0.0]);
      s.solved && s.result == [0.0, 0.5, 0.0] && Gauss.Solves(TriangleSystem, s.result)
  {
    TriangleAbsoluteElimination();
    TriangleAbsoluteBack();
    var M, x := TriangleSystem, [0.0, 0.5, 0.0];
    assert Gauss.Dot(M[0], x, 0, 3) == 1.0;
    assert Gauss.Dot(M[1], x, 0, 3) == 0.0;
    assert Gauss.Dot(M[2], x, 0, 3) == 0.0;
  }

  /** A right triangle: nodes (2, 0), (0, 0) and (0, 2). */
  const RightTriangle: seq<seq<real>> := [[2.0, 0.0], [0.0, 0.0], [0.0, 2.0]]

  /** The system for node 0 of the right triangle. */
  lemma RightTriangleSystem()
    ensures ShapeFunctions.FitsNodes(Elements.Triangle, RightTriangle)
    ensures ShapeFunctions.TermSystem(Elements.Triangle, RightTriangle, 0) == TriangleSystem
  {
    var M := ShapeFunctions.TermSystem(Elements.Triangle, RightTriangle, 0);
    assert M[0] == TriangleSystem[0];
    assert M[1] == TriangleSystem[1];
    assert M[2] == TriangleSystem[2];
  }

  /** As the pivot test is written, the shape function built for node 0 of
      the right triangle reports success, yet it is -1, not 0, at node 2:
      elimination skips the negative pivot -2 and leaves -2 below it. */
  lemma RightTriangleAsWritten()
    ensures ShapeFunctions.FitsNodes(Elements.Triangle, RightTriangle)
    ensures var s := ShapeFunctions.Row(Gauss.SignedTest, Elements.Triangle, RightTriangle, 0);
      s == Gauss.Solution(true, [0.0, 0.5, -0.5])
      && ShapeFunctions.ShapeValue(Elements.Triangle, s.result, RightTriangle[2]) == -1.0
  {
    RightTriangleSystem();
    SignedTestSkipsNegativePivot();
    assert ShapeFunctions.Zeros(3) == [0.0, 0.0, 0.0];
    var s := ShapeFunctions.Row(Gauss.SignedTest, Elements.Triangle, RightTriangle, 0);
    ShapeFunctions.TermRowValue(Elements.Triangle, RightTriangle, 0, 2, s.result);
  }

  /** With the pivot tested by magnitude, node 0's shape function of the
      right triangle is x / 2: 1 at node 0 and 0 at the other two nodes. */
  lemma RightTriangleCorrected(j: nat)
    requires j < 3
    ensures ShapeFunctions.FitsNodes(Elements.Triangle, RightTriangle)
    ensures var s := ShapeFunctions.Row(Gauss.AbsoluteTest, Elements.Triangle, RightTriangle, 0);
      s == Gauss.Solution(true, [0.0, 0.5, 0.0])
      && ShapeFunctions.ShapeValue(Elements.Triangle, s.result, RightTriangle[j]) == if j == 0 then 1.0 else 0.0
  {
    RightTriangleSystem();
    AbsoluteTestSolvesTriangle();
    assert ShapeFunctions.Zeros(3) == [0.0, 0.0, 0.0];
    var s := ShapeFunctions.Row(Gauss.AbsoluteTest, Elements.Triangle, RightTriangle, 0);
    ShapeFunctions.TermRowValue(Elements.Triangle, RightTriangle, 0, j, s.result);
  }

  /** A degenerate triangle: nodes 1 and 2 are both (0, 2). */
  const CoincidentTriangle: seq<seq<real>> := [[2.0, 0.0], [0.0, 2.0], [0.0, 2.0]]

  /** Its system for node 0: rows 1 and 2 are equal. */
  const CoincidentSystem: seq<seq<real>> := [[1.0, 2.0, 0.0, 1.0], [1.0, 0.0, 2.0, 0.0], [1.0, 0.0, 2.0, 0.0]]

  lemma CoincidentTriangleSystem()
    ensures ShapeFunctions.FitsNodes(Elements.Triangle, CoincidentTriangle)
    ensures ShapeFunctions.TermSystem(Elements.Triangle, CoincidentTriangle, 0) == CoincidentSystem
  {
    var M := ShapeFunctions.TermSystem(Elements.Triangle, CoincidentTriangle, 0);
    assert M[0] == CoincidentSystem[0];
    assert M[1] == CoincidentSystem[1];
    assert M[2] == CoincidentSystem[2];
  }

  /** Pivot 0 makes rows 1 and 2 equal to (0, -2, 2 | -1); the signed test
      then skips the negative pivot -2, so the diagonal entry 2 of row 2 stays. */
  lemma CoincidentSignedElimination()
    ensures Gauss.Elimination(Gauss.SignedTest, CoincidentSystem)
            == [[1.0, 2.0, 0.0, 1.0], [0.0, -2.0, 2.0, -1.0], [0.0, -2.0, 2.0, -1.0]]
  {
    var M := CoincidentSystem;
    assert Gauss.Reduce(M[1], M[0], 0) == [0.0, -2.0, 2.0, -1.0];
    assert Gauss.Reduce(M[2], M[0], 0) == [0.0, -2.0, 2.0, -1.0];
    assert Gauss.Forward(Gauss.SignedTest, M, 1) == Gauss.PivotStep(Gauss.SignedTest, M, 0);
  }

  /** As the pivot test is written, the degenerate triangle gets no "Bad FE!"
      line: every node's solve reports success. */
  lemma CoincidentTriangleAsWritten(i: nat)
    requires i < 3
    ensures ShapeFunctions.FitsNodes(Elements.Triangle, CoincidentTriangle)
    ensures ShapeFunctions.Row(Gauss.SignedTest, Elements.Triangle, CoincidentTriangle, i).solved
  {
    CoincidentTriangleSystem();
    CoincidentSignedElimination();
    var U := Gauss.Elimination(Gauss.SignedTest, CoincidentSystem);
    Gauss.BackFromSolved(U, ShapeFunctions.Zeros(3), 3);
    assert !Gauss.Negligible(U[0][0]) && !Gauss.Negligible(U[1][1]) && !Gauss.Negligible(U[2][2]);
    ShapeFunctions.SolvedAlike(Gauss.SignedTest, Elements.Triangle, CoincidentTriangle, 0, i);
  }

  /** With the pivot tested by magnitude, every node's solve of the
      degenerate triangle fails. */
  lemma CoincidentTriangleCorrected(i: nat)
    requires i < 3
    ensures ShapeFunctions.FitsNodes(Elements.Triangle, CoincidentTriangle)
    ensures !ShapeFunctions.Row(Gauss.AbsoluteTest, Elements.Triangle, CoincidentTriangle, i).solved
  {
    CoincidentTriangleSystem();
    ShapeFunctions.CoincidentNodesFail(Elements.Triangle, CoincidentTriangle, i, 1, 2);
  }
}
