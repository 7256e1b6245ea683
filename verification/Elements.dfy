/** The four finite-element variants and their polynomial bases.
    Each variant fixes the number of nodes (equal to the number of basis
    terms), the spatial dimension of a node, and the ordered list of
    monomials that one shape function combines. */
module Elements {

  /** The element variants; each stands for one subclass of the shape-function class. */
  datatype Element = Triangle | Quadrangle | Tetrahedron | Cube

  /** Number of nodes and of basis terms: the number of monomials in Dim(e)
      coordinates, none used twice, of degree at most MaxDegree(e). */
  function Size(e: Element): (s: nat)
    ensures s == MonomialCount(Dim(e), MaxDegree(e))
  {
    SmallBinomials();
    match e
    case Triangle => 3
    case Quadrangle => 4
    case Tetrahedron => 4
    case Cube => 8
  }

  /** Number of coordinates of one node: two for the planar variants, three
      for the solid ones. No basis term uses a coordinate twice, so no term's
      degree exceeds it. */
  function Dim(e: Element): (d: nat)
    ensures d == (if e.Triangle? || e.Quadrangle? then 2 else 3)
    ensures MaxDegree(e) <= d
  {
    match e
    case Triangle => 2
    case Quadrangle => 2
    case Tetrahedron => 3
    case Cube => 3
  }

  /** The number of ways to choose k of n coordinates. */
  function Binomial(n: nat, k: nat): nat
  {
    if k == 0 then 1 else if n == 0 then 0 else Binomial(n - 1, k - 1) + Binomial(n - 1, k)
  }

  /** The binomial coefficients of two and three coordinates. */
  lemma SmallBinomials()
    ensures Binomial(2, 1) == 2 && Binomial(2, 2) == 1
    ensures Binomial(3, 1) == 3 && Binomial(3, 2) == 3 && Binomial(3, 3) == 1
  {
    assert Binomial(1, 1) == 1 && Binomial(1, 2) == 0;
    assert Binomial(2, 3) == 0;
  }

  /** The number of monomials in n coordinates, each used at most once, of degree at most d. */
  function MonomialCount(n: nat, d: nat): nat
  {
    if d == 0 then 1 else MonomialCount(n, d - 1) + Binomial(n, d)
  }

  /** The basis terms evaluated at point p, in the order the element uses them. */
  function Terms(e: Element, p: seq<real>): (s: seq<real>)
    requires |p| == Dim(e)
    ensures |s| == Size(e)
    ensures s[0] == 1.0
  {
    match e
    case Triangle => [1.0, p[0], p[1]]
    case Quadrangle => [1.0, p[0], p[1], p[0] * p[1]]
    case Tetrahedron => [1.0, p[0], p[1], p[2]]
    case Cube => [1.0, p[0], p[1], p[2], p[0] * p[1], p[1] * p[2], p[2] * p[0], p[0] * p[1] * p[2]]
  }

  /** A reference description of the same bases: term k is the product of the
      coordinates d with Exponents(e)[k][d] set. */
  function Exponents(e: Element): (t: seq<seq<bool>>)
    ensures |t| == Size(e)
    ensures forall k :: 0 <= k < |t| ==> |t[k]| == Dim(e)
  {
    var F, T := false, true;
    match e
    case Triangle => [[F, F], [T, F], [F, T]]
    case Quadrangle => [[F, F], [T, F], [F, T], [T, T]]
    case Tetrahedron => [[F, F, F], [T, F, F], [F, T, F], [F, F, T]]
    case Cube => [[F, F, F], [T, F, F], [F, T, F], [F, F, T],
                  [T, T, F], [F, T, T], [T, F, T], [T, T, T]]
  }

  /** The product of the first n coordinates of p that `used` selects. */
  function Monomial(p: seq<real>, used: seq<bool>, n: nat): real
    requires n <= |p| && n <= |used|
  {
    if n == 0 then 1.0
    else if used[n - 1] then Monomial(p, used, n - 1) * p[n - 1]
    else Monomial(p, used, n - 1)
  }

  /** Number of coordinates a monomial uses (its total degree). */
  function Degree(used: seq<bool>): nat
  {
    if used == [] then 0 else Degree(used[..|used| - 1]) + (if used[|used| - 1] then 1 else 0)
  }

  /** Highest total degree of the variant's basis: Triangle and Tetrahedron are
      linear, Quadrangle and Cube are the full multilinear bases. */
  function MaxDegree(e: Element): nat
  {
    match e
    case Triangle => 1
    case Quadrangle => 2
    case Tetrahedron => 1
    case Cube => 3
  }

  /** Monomial over two or three coordinates, unfolded. */
  lemma MonomialUnfolded(p: seq<real>, u: seq<bool>)
    requires 2 <= |p| == |u| <= 3
    ensures Monomial(p, u, 1) == if u[0] then p[0] else 1.0
    ensures Monomial(p, u, 2) == if u[1] then Monomial(p, u, 1) * p[1] else Monomial(p, u, 1)
    ensures |p| == 3 ==> Monomial(p, u, 3) == if u[2] then Monomial(p, u, 2) * p[2] else Monomial(p, u, 2)
  {
  }

  /** The product term of the Quadrangle basis, x·y. */
  lemma QuadrangleProductTerm(p: seq<real>)
    requires |p| == 2
    ensures Terms(Quadrangle, p)[3] == Monomial(p, Exponents(Quadrangle)[3], 2)
  {
    MonomialUnfolded(p, Exponents(Quadrangle)[3]);
  }

  /** The product of all three coordinates, x·y·z, the last term of the Cube basis. */
  lemma CubeTripleTerm(p: seq<real>)
    requires |p| == 3
    ensures Terms(Cube, p)[7] == Monomial(p, Exponents(Cube)[7], 3)
  {
    var u := Exponents(Cube)[7];
    MonomialUnfolded(p, u);
    assert Monomial(p, u, 2) == p[0] * p[1];
  }

  /** Products of two coordinates in the Cube basis: x·y (term 4), y·z (term 5), z·x (term 6). */
  lemma CubeXYTerm(p: seq<real>)
    requires |p| == 3
    ensures Terms(Cube, p)[4] == Monomial(p, Exponents(Cube)[4], 3)
  {
    MonomialUnfolded(p, Exponents(Cube)[4]);
  }

  lemma CubeYZTerm(p: seq<real>)
    requires |p| == 3
    ensures Terms(Cube, p)[5] == Monomial(p, Exponents(Cube)[5], 3)
  {
    MonomialUnfolded(p, Exponents(Cube)[5]);
  }

  lemma CubeZXTerm(p: seq<real>)
    requires |p| == 3
    ensures Terms(Cube, p)[6] == Monomial(p, Exponents(Cube)[6], 3)
  {
    MonomialUnfolded(p, Exponents(Cube)[6]);
  }

  /** Every term is the monomial that the exponent table names. */
  lemma TermsAreMonomials(e: Element, p: seq<real>, k: nat)
    requires |p| == Dim(e) && k < Size(e)
    ensures Terms(e, p)[k] == Monomial(p, Exponents(e)[k], Dim(e))
  {
    if e == Cube && k == 7 {
      CubeTripleTerm(p);
    } else if e == Cube && k == 4 {
      CubeXYTerm(p);
    } else if e == Cube && k == 5 {
      CubeYZTerm(p);
    } else if e == Cube && k == 6 {
      CubeZXTerm(p);
    } else if e == Quadrangle && k == 3 {
      QuadrangleProductTerm(p);
    } else {
      MonomialUnfolded(p, Exponents(e)[k]);
    }
  }

  /** A mask that selects no coordinate has degree 0. */
  lemma {:induction false} DegreeOfEmptyMask(used: seq<bool>)
    requires forall d :: 0 <= d < |used| ==> !used[d]
    ensures Degree(used) == 0
  {
    if used != [] {
      DegreeOfEmptyMask(used[..|used| - 1]);
    }
  }

  /** No monomial appears twice, and the constant term comes first. */
  lemma ExponentsDistinct(e: Element)
    ensures forall k, l :: 0 <= k < l < Size(e) ==> Exponents(e)[k] != Exponents(e)[l]
    ensures Degree(Exponents(e)[0]) == 0
  {
    DegreeOfEmptyMask(Exponents(e)[0]);
  }

  /** The basis of each variant holds exactly the monomials of degree at most
      MaxDegree(e) in Dim(e) coordinates, each coordinate at most once. */
  lemma {:induction false} BasisIsComplete(e: Element, u: seq<bool>)
    requires |u| == Dim(e)
    ensures u in Exponents(e) <==> Degree(u) <= MaxDegree(e)
  {
    var F, T := false, true;
    if |u| == 2 {
      assert u == [u[0], u[1]];
      assert Degree(u) == Degree([u[0]]) + (if u[1] then 1 else 0);
      assert Degree([u[0]]) == Degree([]) + (if u[0] then 1 else 0);
    } else {
      assert u == [u[0], u[1], u[2]];
      assert u[..2] == [u[0], u[1]];
      assert Degree(u) == Degree([u[0], u[1]]) + (if u[2] then 1 else 0);
      assert Degree([u[0], u[1]]) == Degree([u[0]]) + (if u[1] then 1 else 0);
      assert Degree([u[0]]) == Degree([]) + (if u[0] then 1 else 0);
    }
  }
}
