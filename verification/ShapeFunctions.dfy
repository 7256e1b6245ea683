/** The shape-function builder: for every node i of an element it solves
    the system "the combination of basis terms is 1 at node i and 0 at the
    other nodes" and stores the solution as row i of the coefficient matrix C.
    The pure part states what each row ends up holding; the class does it in
    place, as the program does. */
module ShapeFunctions {
  import Elements
  import Gauss

  /** A vector of n zeros: a result array as freshly allocated. */
  function Zeros(n: nat): (z: seq<real>)
    ensures |z| == n && forall k :: 0 <= k < n ==> z[k] == 0.0
  {
    seq(n, _ => 0.0)
  }

  /** Node coordinates that fit element e: one point of Dim(e) coordinates per node. */
  ghost predicate FitsNodes(e: Elements.Element, nodes: seq<seq<real>>)
  {
    |nodes| == Elements.Size(e) && forall j :: 0 <= j < |nodes| ==> |nodes[j]| == Elements.Dim(e)
  }

  /** The augmented system solved for node i: row j holds the basis terms at
      node j, and the right-hand side is 1 in row i and 0 in every other row. */
  function TermSystem(e: Elements.Element, nodes: seq<seq<real>>, i: nat): (M: seq<seq<real>>)
    requires FitsNodes(e, nodes) && i < |nodes|
    ensures |M| == |nodes| && Gauss.IsAugmented(M)
  {
    seq(|nodes|, j requires 0 <= j < |nodes| => Elements.Terms(e, nodes[j]) + [if i == j then 1.0 else 0.0])
  }

  /** The result array as row i's solve finds it: zeros for the first row,
      and for every later row whatever the previous solve left in it. */
  function RowStart(rule: Gauss.PivotRule, e: Elements.Element, nodes: seq<seq<real>>, i: nat): (x: seq<real>)
    requires FitsNodes(e, nodes) && i < |nodes|
    ensures |x| == |nodes|
    decreases i, 0
  {
    if i == 0 then Zeros(|nodes|) else Row(rule, e, nodes, i - 1).result
  }

  /** The outcome of the solve for node i: success flag and the result
      array, which becomes row i of the coefficient matrix either way. */
  function Row(rule: Gauss.PivotRule, e: Elements.Element, nodes: seq<seq<real>>, i: nat): (s: Gauss.Solution)
    requires FitsNodes(e, nodes) && i < |nodes|
    ensures |s.result| == |nodes|
    decreases i, 1
  {
    Gauss.BackSubst(Gauss.Elimination(rule, TermSystem(e, nodes, i)), RowStart(rule, e, nodes, i))
  }

  /** The outcomes of the solves for nodes 0 .. m - 1. */
  ghost function RowsUpTo(rule: Gauss.PivotRule, e: Elements.Element, nodes: seq<seq<real>>, m: nat): (s: seq<Gauss.Solution>)
    requires FitsNodes(e, nodes) && m <= |nodes|
    ensures |s| == m
  {
    seq(m, r requires 0 <= r < m => Row(rule, e, nodes, r))
  }

  /** One more node's outcome. */
  lemma RowsUpToStep(rule: Gauss.PivotRule, e: Elements.Element, nodes: seq<seq<real>>, m: nat)
    requires FitsNodes(e, nodes) && m < |nodes|
    ensures RowsUpTo(rule, e, nodes, m + 1) == RowsUpTo(rule, e, nodes, m) + [Row(rule, e, nodes, m)]
  {
  }

  /** The value at point p of the shape function with coefficients coeffs. */
  function ShapeValue(e: Elements.Element, coeffs: seq<real>, p: seq<real>): real
    requires |p| == Elements.Dim(e) && |coeffs| == Elements.Size(e)
  {
    Gauss.Dot(Elements.Terms(e, p), coeffs, 0, Elements.Size(e))
  }

  /** The systems of two nodes differ only in their right-hand sides. */
  lemma TermSystemsShareCoefficients(e: Elements.Element, nodes: seq<seq<real>>, i: nat, i': nat)
    requires FitsNodes(e, nodes) && i < |nodes| && i' < |nodes|
    ensures Gauss.SameCoefficients(TermSystem(e, nodes, i), TermSystem(e, nodes, i'))
  {
  }

  /** Every node's solve succeeds or every node's solve fails: success
      depends on the coefficient columns alone, which all rows share. So an
      element either gets no "Bad FE!" line or gets one per node. */
  lemma SolvedAlike(rule: Gauss.PivotRule, e: Elements.Element, nodes: seq<seq<real>>, i: nat, i': nat)
    requires FitsNodes(e, nodes) && i < |nodes| && i' < |nodes|
    ensures Row(rule, e, nodes, i).solved == Row(rule, e, nodes, i').solved
  {
    TermSystemsShareCoefficients(e, nodes, i, i');
    Gauss.CoefficientsDecide(rule, TermSystem(e, nodes, i), TermSystem(e, nodes, i'),
                             RowStart(rule, e, nodes, i), RowStart(rule, e, nodes, i'));
  }

  /** A successful row does not depend on what earlier rows left in the
      shared result array: it is what a fresh zero array would give. */
  lemma SolvedRowIgnoresStale(rule: Gauss.PivotRule, e: Elements.Element, nodes: seq<seq<real>>, i: nat)
    requires FitsNodes(e, nodes) && i < |nodes|
    ensures Row(rule, e, nodes, i).solved ==>
      Row(rule, e, nodes, i) == Gauss.BackSubst(Gauss.Elimination(rule, TermSystem(e, nodes, i)), Zeros(|nodes|))
  {
    Gauss.BackSubstSolvesUpper(Gauss.Elimination(rule, TermSystem(e, nodes, i)), RowStart(rule, e, nodes, i), Zeros(|nodes|));
  }

  /** A failed row still becomes row i of the coefficients, and its first
      coefficient is stale: zero for node 0, the previous row's value after that. */
  lemma FailedRowKeepsStale(rule: Gauss.PivotRule, e: Elements.Element, nodes: seq<seq<real>>, i: nat)
    requires FitsNodes(e, nodes) && i < |nodes|
    ensures !Row(rule, e, nodes, i).solved ==>
      Row(rule, e, nodes, i).result[0] == (if i == 0 then 0.0 else Row(rule, e, nodes, i - 1).result[0])
  {
    var U := Gauss.Elimination(rule, TermSystem(e, nodes, i));
    Gauss.BackFromFailureKeepsFirst(U, RowStart(rule, e, nodes, i), |nodes|);
  }

  /** The right-hand column does not enter a row's sum over the coefficient columns. */
  lemma TermRowValue(e: Elements.Element, nodes: seq<seq<real>>, i: nat, j: nat, coeffs: seq<real>)
    requires FitsNodes(e, nodes) && i < |nodes| && j < |nodes| && |coeffs| == |nodes|
    ensures Gauss.Dot(TermSystem(e, nodes, i)[j], coeffs, 0, |nodes|) == ShapeValue(e, coeffs, nodes[j])
    ensures TermSystem(e, nodes, i)[j][|nodes|] == if i == j then 1.0 else 0.0
  {
    var n := |nodes|;
    Gauss.DotFrame(TermSystem(e, nodes, i)[j], Elements.Terms(e, nodes[j]), coeffs, coeffs, 0, n);
  }

  /** When elimination leaves exact zeros below the diagonal and the solve
      succeeds, shape function i is 1 at node i and 0 at every other node. */
  lemma ShapeFunctionInterpolates(rule: Gauss.PivotRule, e: Elements.Element, nodes: seq<seq<real>>, i: nat, j: nat)
    requires FitsNodes(e, nodes) && i < |nodes| && j < |nodes|
    requires Gauss.LowerZero(Gauss.Elimination(rule, TermSystem(e, nodes, i)))
    requires Row(rule, e, nodes, i).solved
    ensures ShapeValue(e, Row(rule, e, nodes, i).result, nodes[j]) == if i == j then 1.0 else 0.0
  {
    var M := TermSystem(e, nodes, i);
    var coeffs := Row(rule, e, nodes, i).result;
    Gauss.SolveSound(rule, M, RowStart(rule, e, nodes, i));
    assert Gauss.Dot(M[j], coeffs, 0, |M|) == M[j][|M|];
    TermRowValue(e, nodes, i, j, coeffs);
  }

  /** Two nodes at the same point give every node's system two rows with
      equal coefficients. With the pivot tested by magnitude every solve then
      fails, so each row of such an element gets its "Bad FE!" line. */
  lemma CoincidentNodesFail(e: Elements.Element, nodes: seq<seq<real>>, i: nat, j: nat, k: nat)
    requires FitsNodes(e, nodes) && i < |nodes| && j < k < |nodes| && nodes[j] == nodes[k]
    ensures !Row(Gauss.AbsoluteTest, e, nodes, i).solved
  {
    var M := TermSystem(e, nodes, i);
    assert forall c :: 0 <= c < |M| ==> M[j][c] == M[k][c];
    Gauss.EqualRowsFail(M, RowStart(Gauss.AbsoluteTest, e, nodes, i), j, k);
  }

  /** The shape functions of one element. The element variant stands for
      the subclass; X holds the node coordinates, one row per node, and C the
      coefficients, one row per shape function. */
  class ShapeFunction {
    const element: Elements.Element
    var Size: nat
    var Dim: nat
    var C: array2<real>
    var X: array2<real>
    /** Per row of C, whether its solve succeeded; each false entry is one "Bad FE!" line. */
    var solved: seq<bool>

    /** Size and Dim are the variant's, and X holds Dim coordinates for each of the Size nodes. */
    ghost predicate HasNodes()
      reads this
    {
      Size == Elements.Size(element) && Dim == Elements.Dim(element) &&
      X.Length0 == Size && X.Length1 == Dim
    }

    /** HasNodes, and C and the flags have one row per node. */
    ghost predicate Valid()
      reads this
    {
      HasNodes() && C.Length0 == Size && C.Length1 == Size && |solved| == Size
    }

    /** The coordinates of node i. */
    function Node(i: nat): (p: seq<real>)
      reads this, X
      requires i < X.Length0
      ensures |p| == X.Length1
    {
      Gauss.Snapshot(X)[i]
    }

    /** All node coordinates. */
    ghost function Nodes(): (nodes: seq<seq<real>>)
      reads this, X
      requires HasNodes()
      ensures FitsNodes(element, nodes)
    {
      Gauss.Snapshot(X)
    }

    /** Basis term j of the element evaluated at node i. */
    function ShapeCoeff(i: nat, j: nat): (r: real)
      reads this, X
      requires Dim == Elements.Dim(element) && X.Length1 == Dim
      requires i < X.Length0 && j < Elements.Size(element)
      ensures r == Elements.Monomial(Node(i), Elements.Exponents(element)[j], Dim)
      ensures j == 0 ==> r == 1.0
    {
      Elements.TermsAreMonomials(element, Node(i), j);
      Elements.Terms(element, Node(i))[j]
    }

    /** Builds the variant's element over the first Size(e) nodes of px, each
        given by its first Dim(e) coordinates. */
    constructor (e: Elements.Element, px: array2<real>)
      requires px.Length0 >= Elements.Size(e) && px.Length1 >= Elements.Dim(e)
      ensures element == e && Valid()
      ensures forall i, j :: 0 <= i < Size && 0 <= j < Dim ==> X[i, j] == px[i, j]
      ensures forall r :: 0 <= r < Size ==> solved[r] == Row(Gauss.SignedTest, element, Nodes(), r).solved
      ensures forall r, c :: 0 <= r < Size && 0 <= c < Size ==>
        C[r, c] == Row(Gauss.SignedTest, element, Nodes(), r).result[c]
    {
      element := e;
      Size, Dim := 0, 0;
      C := new real[0, 0];
      X := new real[0, 0];
      solved := [];
      new;
      Size := Elements.Size(e);
      Dim := Elements.Dim(e);
      SetCoord(Size, px);
    }

    /** Copies the node coordinates from px, then builds the coefficients. */
    method SetCoord(psize: nat, px: array2<real>)
      requires psize == Elements.Size(element) && Dim == Elements.Dim(element)
      requires px.Length0 >= psize && px.Length1 >= Dim
      modifies this
      ensures Valid() && fresh(X) && fresh(C)
      ensures forall i, j :: 0 <= i < Size && 0 <= j < Dim ==> X[i, j] == px[i, j]
      ensures forall r :: 0 <= r < Size ==> solved[r] == Row(Gauss.SignedTest, element, Nodes(), r).solved
      ensures forall r, c :: 0 <= r < Size && 0 <= c < Size ==>
        C[r, c] == Row(Gauss.SignedTest, element, Nodes(), r).result[c]
    {
      Size := psize;
      X := new real[Size, Dim];
      var i := 0;
      while i < Size
        invariant 0 <= i <= Size && Size == psize && fresh(X) && X.Length0 == Size && X.Length1 == Dim
        invariant Dim == Elements.Dim(element)
        invariant forall r, c :: 0 <= r < i && 0 <= c < Dim ==> X[r, c] == px[r, c]
      {
        var j := 0;
        while j < Dim
          invariant 0 <= j <= Dim && i < Size && Size == psize && Dim == Elements.Dim(element)
          invariant fresh(X) && X.Length0 == Size && X.Length1 == Dim
          invariant forall r, c :: 0 <= r < i && 0 <= c < Dim ==> X[r, c] == px[r, c]
          invariant forall c :: 0 <= c < j ==> X[i, c] == px[i, c]
        {
          X[i, j] := px[i, j];
          j := j + 1;
        }
        i := i + 1;
      }
      Create();
    }

    /** Fills A with the system for node i: term k at node j in row j,
        column k, and the right-hand side 1 in row i and 0 elsewhere. */
    method FillSystem(A: array2<real>, i: nat)
      requires HasNodes()
      requires A.Length0 == Size && A.Length1 == Size + 1 && i < Size && A != X
      modifies A
      ensures Gauss.Snapshot(A) == TermSystem(element, Nodes(), i)
    {
      ghost var M := TermSystem(element, Nodes(), i);
      var j := 0;
      while j < Size
        invariant 0 <= j <= Size
        invariant forall r, c :: 0 <= r < j && 0 <= c <= Size ==> A[r, c] == M[r][c]
      {
        assert M[j] == Elements.Terms(element, Node(j)) + [if i == j then 1.0 else 0.0];
        var k := 0;
        while k < Size
          invariant 0 <= k <= Size
          invariant forall r, c :: 0 <= r < j && 0 <= c <= Size ==> A[r, c] == M[r][c]
          invariant forall c :: 0 <= c < k ==> A[j, c] == M[j][c]
        {
          A[j, k] := ShapeCoeff(j, k);
          k := k + 1;
        }
        A[j, Size] := if i == j then 1.0 else 0.0;
        j := j + 1;
      }
      Gauss.SnapshotIs(A, M);
    }

    /** Builds and solves the system of node i in A, the result array res
        holding what the previous node's solve left in it. */
    method SolveNode(A: array2<real>, res: array<real>, i: nat) returns (ok: bool)
      requires HasNodes()
      requires A.Length0 == Size && A.Length1 == Size + 1 && A != X && res.Length == Size && i < Size
      requires res[..] == RowStart(Gauss.SignedTest, element, Nodes(), i)
      modifies A, res
      ensures Gauss.Solution(ok, res[..]) == Row(Gauss.SignedTest, element, Nodes(), i)
    {
      FillSystem(A, i);
      ok := Gauss.Solve(A, res, Size);
    }

    /** Copies the result array into row i of C. */
    method CopyRow(i: nat, res: array<real>)
      requires C.Length0 == res.Length && C.Length1 == res.Length && i < res.Length
      modifies C
      ensures forall c :: 0 <= c < res.Length ==> C[i, c] == res[c]
      ensures forall r, c :: 0 <= r < C.Length0 && 0 <= c < C.Length1 && r != i ==> C[r, c] == old(C[r, c])
    {
      var j := 0;
      while j < res.Length
        invariant 0 <= j <= res.Length
        invariant forall c :: 0 <= c < j ==> C[i, c] == res[c]
        invariant forall r, c :: 0 <= r < C.Length0 && 0 <= c < C.Length1 && r != i ==> C[r, c] == old(C[r, c])
      {
        C[i, j] := res[j];
        j := j + 1;
      }
    }

    /** Solves the system of every node in turn with one shared result
        array, and copies the result into row i of C whether or not the
        solve succeeded. */
    method Create()
      requires HasNodes()
      modifies this
      ensures Valid() && X == old(X) && fresh(C)
      ensures forall r :: 0 <= r < Size ==> solved[r] == Row(Gauss.SignedTest, element, Nodes(), r).solved
      ensures forall r, c :: 0 <= r < Size && 0 <= c < Size ==>
        C[r, c] == Row(Gauss.SignedTest, element, Nodes(), r).result[c]
    {
      var A := new real[Size, Size + 1];
      var res := new real[Size](_ => 0.0);
      C := new real[Size, Size];
      solved := SolveAll(A, res);
    }

    /** The loop of Create over the nodes. */
    method SolveAll(A: array2<real>, res: array<real>) returns (flags: seq<bool>)
      requires HasNodes() && C.Length0 == Size && C.Length1 == Size
      requires A.Length0 == Size && A.Length1 == Size + 1 && res.Length == Size
      requires A != X && A != C && C != X && res[..] == Zeros(Size)
      modifies A, res, C
      ensures |flags| == Size
      ensures forall r :: 0 <= r < Size ==> flags[r] == Row(Gauss.SignedTest, element, Nodes(), r).solved
      ensures forall r, c :: 0 <= r < Size && 0 <= c < Size ==>
        C[r, c] == Row(Gauss.SignedTest, element, Nodes(), r).result[c]
    {
      ghost var nodes := Nodes();
      flags := [];
      ghost var rows: seq<Gauss.Solution> := [];
      var i := 0;
      while i < Size
        invariant 0 <= i <= Size && |nodes| == Size && nodes == Nodes()
        invariant i < Size ==> res[..] == RowStart(Gauss.SignedTest, element, nodes, i)
        invariant rows == RowsUpTo(Gauss.SignedTest, element, nodes, i) && |flags| == i
        invariant forall r :: 0 <= r < i ==> flags[r] == rows[r].solved
        invariant forall r, c :: 0 <= r < i && 0 <= c < Size ==> C[r, c] == rows[r].result[c]
      {
        ghost var row := Row(Gauss.SignedTest, element, nodes, i);
        var ok := SolveNode(A, res, i);
        flags := flags + [ok];  // a false entry stands for the "Bad FE!" line
        CopyRow(i, res);
        RowsUpToStep(Gauss.SignedTest, element, nodes, i);
        rows := rows + [row];
        assert i + 1 < Size ==> RowStart(Gauss.SignedTest, element, nodes, i + 1) == row.result;
        i := i + 1;
      }
    }
  }
}
