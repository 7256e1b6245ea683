/** Solving one dense augmented system by forward elimination without row
    exchanges, followed by back substitution.

    A system of size n is n rows of n + 1 reals: n coefficient columns and
    the right-hand side in column n. The solver overwrites the matrix in
    place and fills the result array from the last entry down. Floating
    point is modelled by exact reals. */
module Gauss {

  /** The tolerance of the solver: pivots and entries below it count as zero. */
  const Eps: real := 1.0e-10

  function Abs(x: real): real
  {
    if x < 0.0 then -x else x
  }

  /** An entry that already counts as zero: it is not eliminated, and as a
      diagonal entry in back substitution it makes the solve fail. */
  predicate Negligible(x: real)
  {
    Abs(x) < Eps
  }

  /** The two pivot tests of forward elimination. The solver as written
      compares the signed pivot with the tolerance, so a negative pivot is
      skipped exactly like a tiny one; the absolute test skips only pivots
      that are negligible, like every other test of the solver. */
  datatype PivotRule = SignedTest | AbsoluteTest

  predicate SkipsPivot(rule: PivotRule, p: real)
  {
    match rule
    case SignedTest => p < Eps
    case AbsoluteTest => Negligible(p)
  }

  /** M is n rows of n + 1 entries. */
  ghost predicate IsAugmented(M: seq<seq<real>>)
  {
    forall r :: 0 <= r < |M| ==> |M[r]| == |M| + 1
  }

  /** Sum of row[c] * x[c] for lo <= c < hi. */
  function Dot(row: seq<real>, x: seq<real>, lo: nat, hi: nat): real
    requires lo <= hi <= |row| && hi <= |x|
    decreases hi
  {
    if lo == hi then 0.0 else Dot(row, x, lo, hi - 1) + row[hi - 1] * x[hi - 1]
  }

  /** x satisfies every equation of the system M. */
  ghost predicate Solves(M: seq<seq<real>>, x: seq<real>)
    requires IsAugmented(M) && |x| == |M|
  {
    forall r :: 0 <= r < |M| ==> Dot(M[r], x, 0, |M|) == M[r][|M|]
  }

  /** x satisfies the upper-triangular part of M: row r read from column r on. */
  ghost predicate SolvesUpper(U: seq<seq<real>>, x: seq<real>)
    requires IsAugmented(U) && |x| == |U|
  {
    forall r :: 0 <= r < |U| ==> Dot(U[r], x, r, |U|) == U[r][|U|]
  }

  /** Every entry below the diagonal of U is exactly zero. */
  ghost predicate LowerZero(U: seq<seq<real>>)
    requires IsAugmented(U)
  {
    forall r, c :: 0 <= c < r < |U| ==> U[r][c] == 0.0
  }

  /** Columns from i on of row lose f times the pivot row; columns before i are kept. */
  function Subtract(row: seq<real>, pivot: seq<real>, i: nat, f: real): seq<real>
    requires i < |row| == |pivot|
  {
    seq(|row|, c requires 0 <= c < |row| => if c < i then row[c] else row[c] - f * pivot[c])
  }

  /** The row operation of one elimination: the multiplier is the row's
      entry in the pivot column over the pivot, so that entry becomes zero. */
  function Reduce(row: seq<real>, pivot: seq<real>, i: nat): seq<real>
    requires i < |row| == |pivot| && pivot[i] != 0.0
  {
    Subtract(row, pivot, i, row[i] / pivot[i])
  }

  /** Row r after elimination with the (used) pivot row i. */
  function Eliminated(M: seq<seq<real>>, i: nat, r: nat): seq<real>
    requires IsAugmented(M) && i < |M| && r < |M| && M[i][i] != 0.0
  {
    if i < r && !Negligible(M[r][i]) then Reduce(M[r], M[i], i) else M[r]
  }

  /** Elimination with pivot row i. A skipped pivot leaves M as it is; so does
      a row whose entry in column i is negligible. Only rows below the pivot
      and only columns from i on can change. */
  function PivotStep(rule: PivotRule, M: seq<seq<real>>, i: nat): (M': seq<seq<real>>)
    requires IsAugmented(M) && i < |M|
    ensures |M'| == |M| && IsAugmented(M')
  {
    if SkipsPivot(rule, M[i][i]) then M else seq(|M|, r requires 0 <= r < |M| => Eliminated(M, i, r))
  }

  /** A pivot step changes only the rows below the pivot, and in them only
      the columns from the pivot column on. */
  lemma PivotStepFrame(rule: PivotRule, M: seq<seq<real>>, i: nat)
    requires IsAugmented(M) && i < |M|
    ensures forall r :: 0 <= r <= i ==> PivotStep(rule, M, i)[r] == M[r]
    ensures forall r, c :: 0 <= r < |M| && 0 <= c < i ==> PivotStep(rule, M, i)[r][c] == M[r][c]
  {
  }

  /** A skipped pivot leaves the matrix as it is. */
  lemma PivotSkipped(rule: PivotRule, M: seq<seq<real>>, i: nat)
    requires IsAugmented(M) && i < |M| && SkipsPivot(rule, M[i][i])
    ensures PivotStep(rule, M, i) == M
  {
  }

  /** The matrix after the pivot steps 0 .. m - 1. */
  function Forward(rule: PivotRule, M: seq<seq<real>>, m: nat): (F: seq<seq<real>>)
    requires IsAugmented(M) && m <= |M|
    ensures |F| == |M| && IsAugmented(F)
    decreases m
  {
    if m == 0 then M else PivotStep(rule, Forward(rule, M, m - 1), m - 1)
  }

  /** One more pivot step. */
  lemma ForwardUnfold(rule: PivotRule, M: seq<seq<real>>, m: nat)
    requires IsAugmented(M) && 0 < m <= |M|
    ensures Forward(rule, M, m) == PivotStep(rule, Forward(rule, M, m - 1), m - 1)
  {
  }

  /** Forward elimination runs the pivots 0 .. n - 2. */
  function Elimination(rule: PivotRule, M: seq<seq<real>>): (U: seq<seq<real>>)
    requires IsAugmented(M) && |M| >= 1
    ensures |U| == |M| && IsAugmented(U)
  {
    Forward(rule, M, |M| - 1)
  }

  /** The outcome of a solve: whether it succeeded and the result array as it is left. */
  datatype Solution = Solution(solved: bool, result: seq<real>)

  /** Back substitution over rows i - 1 down to 0, the later entries of x
      being already computed. It stops at the first negligible diagonal,
      leaving the entries from there down as they were. */
  function BackFrom(U: seq<seq<real>>, x: seq<real>, i: nat): (s: Solution)
    requires IsAugmented(U) && |x| == |U| && i <= |U|
    ensures |s.result| == |x|
    ensures forall c :: i <= c < |x| ==> s.result[c] == x[c]
    decreases i
  {
    if i == 0 then Solution(true, x)
    else if Negligible(U[i - 1][i - 1]) then Solution(false, x)
    else BackFrom(U, x[i - 1 := (U[i - 1][|U|] - Dot(U[i - 1], x, i, |U|)) / U[i - 1][i - 1]], i - 1)
  }

  /** One step of back substitution, for the in-place loop: a negligible
      diagonal entry stops it, ... */
  lemma BackFromStop(U: seq<seq<real>>, x: seq<real>, i: nat)
    requires IsAugmented(U) && |x| == |U| && 0 < i <= |U| && Negligible(U[i - 1][i - 1])
    ensures BackFrom(U, x, i) == Solution(false, x)
  {
  }

  /** ... any other fills in entry i - 1 and goes on with the rows above. */
  lemma BackFromStep(U: seq<seq<real>>, x: seq<real>, i: nat)
    requires IsAugmented(U) && |x| == |U| && 0 < i <= |U| && !Negligible(U[i - 1][i - 1])
    ensures BackFrom(U, x, i)
      == BackFrom(U, x[i - 1 := (U[i - 1][|U|] - Dot(U[i - 1], x, i, |U|)) / U[i - 1][i - 1]], i - 1)
  {
  }

  /** Back substitution over the whole reduced matrix U, starting from the
      result array x as the caller left it. */
  function BackSubst(U: seq<seq<real>>, x: seq<real>): (s: Solution)
    requires IsAugmented(U) && |x| == |U|
    ensures |s.result| == |x|
  {
    BackFrom(U, x, |U|)
  }

  /** The values of a two-dimensional array, row by row. */
  function Snapshot(a: array2<real>): (M: seq<seq<real>>)
    reads a
    ensures |M| == a.Length0
    ensures forall r :: 0 <= r < a.Length0 ==> |M[r]| == a.Length1
    ensures forall r, c :: 0 <= r < a.Length0 && 0 <= c < a.Length1 ==> M[r][c] == a[r, c]
  {
    seq(a.Length0, r requires 0 <= r < a.Length0 reads a =>
      seq(a.Length1, c requires 0 <= c < a.Length1 reads a => a[r, c]))
  }

  /** An array holding M entry by entry has M as its snapshot. */
  lemma SnapshotIs(a: array2<real>, M: seq<seq<real>>)
    requires |M| == a.Length0 && forall r :: 0 <= r < |M| ==> |M[r]| == a.Length1
    requires forall r, c :: 0 <= r < a.Length0 && 0 <= c < a.Length1 ==> a[r, c] == M[r][c]
    ensures Snapshot(a) == M
  {
    forall r | 0 <= r < |M| ensures Snapshot(a)[r] == M[r] { }
  }

  /** One row operation of forward elimination, done in place: row j loses
      coeff / matr[i, i] times row i, from column i on (the loop over k). */
  method EliminateRow(matr: array2<real>, size: nat, i: nat, j: nat, coeff: real,
                      ghost row: seq<real>, ghost pivot: seq<real>)
    requires matr.Length0 == size && matr.Length1 == size + 1 && i < j < size
    requires |row| == |pivot| == size + 1 && pivot[i] != 0.0 && coeff == row[i]
    requires forall c :: 0 <= c <= size ==> matr[j, c] == row[c] && matr[i, c] == pivot[c]
    modifies matr
    ensures forall r, c :: 0 <= r < size && 0 <= c <= size && r != j ==> matr[r, c] == old(matr[r, c])
    ensures forall c :: 0 <= c <= size ==> matr[j, c] == Reduce(row, pivot, i)[c]
  {
    var k := i;
    while k < size + 1
      invariant i <= k <= size + 1
      invariant forall r, c :: 0 <= r < size && 0 <= c <= size && r != j ==> matr[r, c] == old(matr[r, c])
      invariant forall c :: 0 <= c <= size ==> matr[j, c] == (if i <= c < k then Reduce(row, pivot, i)[c] else row[c])
    {
      MultiplierSwap(coeff, matr[i, k], matr[i, i]);
      matr[j, k] := matr[j, k] - coeff * matr[i, k] / matr[i, i];
      k := k + 1;
    }
  }

  /** One pass of the pivot loop for pivot i: a skipped pivot leaves the
      matrix alone; otherwise every later row j whose entry in column i is
      not negligible is reduced (the loop over j). */
  method EliminateBelow(matr: array2<real>, size: nat, i: nat, ghost F: seq<seq<real>>)
    requires matr.Length0 == size && matr.Length1 == size + 1 && i < size
    requires |F| == size && IsAugmented(F)
    requires forall r, c :: 0 <= r < size && 0 <= c <= size ==> matr[r, c] == F[r][c]
    modifies matr
    ensures forall r, c :: 0 <= r < size && 0 <= c <= size ==> matr[r, c] == PivotStep(SignedTest, F, i)[r][c]
  {
    ghost var P := PivotStep(SignedTest, F, i);
    if matr[i, i] < Eps {
      PivotSkipped(SignedTest, F, i);
      return;
    }
    var j := i + 1;
    while j < size
      invariant i + 1 <= j <= size
      invariant forall r, c :: 0 <= r < size && 0 <= c <= size ==>
        matr[r, c] == (if i < r < j then P[r][c] else F[r][c])
    {
      assert P[j] == Eliminated(F, i, j);
      var coeff := matr[j, i];
      if Abs(coeff) < Eps {
        j := j + 1;
        continue;
      }
      EliminateRow(matr, size, i, j, coeff, F[j], F[i]);
      j := j + 1;
    }
    assert forall r :: 0 <= r <= i ==> P[r] == F[r];
  }

  /** Forward elimination in place (the loop over pivots i < size - 1). */
  method ForwardElimination(matr: array2<real>, size: nat)
    requires size >= 1 && matr.Length0 == size && matr.Length1 == size + 1
    modifies matr
    ensures Snapshot(matr) == Elimination(SignedTest, old(Snapshot(matr)))
  {
    ghost var M0 := Snapshot(matr);
    ghost var F := M0;
    var i := 0;
    while i < size - 1
      invariant 0 <= i <= size - 1
      invariant F == Forward(SignedTest, M0, i)
      invariant IsAugmented(F) && |F| == size
      invariant forall r, c :: 0 <= r < size && 0 <= c <= size ==> matr[r, c] == F[r][c]
    {
      EliminateBelow(matr, size, i, F);
      F := PivotStep(SignedTest, F, i);
      assert Forward(SignedTest, M0, i + 1) == F;
      i := i + 1;
    }
    SnapshotIs(matr, F);
  }

  /** The sum loop of back substitution for row i: the right-hand side minus
      the already computed entries times their coefficients. */
  method RowRemainder(matr: array2<real>, result: array<real>, size: nat, i: nat, ghost U: seq<seq<real>>)
    returns (sum: real)
    requires matr.Length0 == size && matr.Length1 == size + 1 && result.Length == size && i < size
    requires |U| == size && IsAugmented(U)
    requires forall c :: 0 <= c <= size ==> matr[i, c] == U[i][c]
    ensures sum == U[i][size] - Dot(U[i], result[..], i + 1, size)
  {
    sum := matr[i, size];
    var j := i + 1;
    while j < size
      invariant i + 1 <= j <= size
      invariant sum == U[i][size] - Dot(U[i], result[..], i + 1, j)
    {
      sum := sum - result[j] * matr[i, j];
      j := j + 1;
    }
  }

  /** One pass of the back-substitution loop for row i: the remainder is
      summed, then a negligible diagonal entry stops the solve and any other
      fills in result[i]. */
  method BackSubstituteRow(matr: array2<real>, result: array<real>, size: nat, i: nat, ghost U: seq<seq<real>>)
    returns (ok: bool)
    requires matr.Length0 == size && matr.Length1 == size + 1 && result.Length == size && i < size
    requires |U| == size && IsAugmented(U)
    requires forall r, c :: 0 <= r < size && 0 <= c <= size ==> matr[r, c] == U[r][c]
    modifies result
    ensures ok == !Negligible(U[i][i])
    ensures !ok ==> result[..] == old(result[..]) && BackFrom(U, old(result[..]), i + 1) == Solution(false, result[..])
    ensures ok ==> result[..] == old(result[..])[i := (U[i][size] - Dot(U[i], old(result[..]), i + 1, size)) / U[i][i]]
    ensures ok ==> BackFrom(U, old(result[..]), i + 1) == BackFrom(U, result[..], i)
  {
    ghost var x := result[..];
    var sum := RowRemainder(matr, result, size, i, U);
    if Abs(matr[i, i]) < Eps {
      BackFromStop(U, x, i + 1);
      return false;
    }
    BackFromStep(U, x, i + 1);
    result[i] := sum / matr[i, i];
    assert result[..] == x[i := sum / U[i][i]];
    return true;
  }

  /** Back substitution in place (lines after the elimination loop): fills
      result from the last entry down, failing at a negligible diagonal. */
  method BackSubstitution(matr: array2<real>, result: array<real>, size: nat) returns (ok: bool)
    requires size >= 1 && matr.Length0 == size && matr.Length1 == size + 1 && result.Length == size
    modifies result
    ensures Solution(ok, result[..]) == BackSubst(Snapshot(matr), old(result[..]))
  {
    ghost var U := Snapshot(matr);
    ghost var x0 := result[..];
    if Abs(matr[size - 1, size - 1]) < Eps {
      BackFromStop(U, x0, size);
      return false;
    }
    BackFromStep(U, x0, size);
    result[size - 1] := matr[size - 1, size] / matr[size - 1, size - 1];
    assert Dot(U[size - 1], x0, size, size) == 0.0;
    assert result[..] == x0[size - 1 := (U[size - 1][size] - Dot(U[size - 1], x0, size, size)) / U[size - 1][size - 1]];
    var k := 0;
    while k < size - 1
      invariant 0 <= k <= size - 1
      invariant BackFrom(U, result[..], size - 1 - k) == BackSubst(U, x0)
    {
      var i := size - k - 2;
      ghost var x := result[..];
      assert BackFrom(U, x, i + 1) == BackSubst(U, x0) by {
        assert size - 1 - k == i + 1;
      }
      ok := BackSubstituteRow(matr, result, size, i, U);
      if !ok {
        return false;
      }
      k := k + 1;
      assert size - 1 - k == i;
    }
    return true;
  }

  /** Solves the augmented system of the given size held in matr, writing
      the solution into result. matr ends as the eliminated matrix and the
      outcome is back substitution on it; on failure result keeps what it
      had below the failing row. */
  method Solve(matr: array2<real>, result: array<real>, size: nat) returns (ok: bool)
    requires size >= 1
    requires matr.Length0 == size && matr.Length1 == size + 1 && result.Length == size
    modifies matr, result
    ensures Snapshot(matr) == Elimination(SignedTest, old(Snapshot(matr)))
    ensures Solution(ok, result[..]) == BackSubst(Snapshot(matr), old(result[..]))
  {
    ForwardElimination(matr, size);
    ok := BackSubstitution(matr, result, size);
  }

  // ---------------------------------------------------------------------
  // Sums

  /** Dot reads row and x only at the columns lo .. hi - 1. */
  lemma {:induction false} DotFrame(row: seq<real>, row': seq<real>, x: seq<real>, x': seq<real>, lo: nat, hi: nat)
    requires lo <= hi <= |row| && hi <= |row'| && hi <= |x| && hi <= |x'|
    requires forall c :: lo <= c < hi ==> row[c] == row'[c] && x[c] == x'[c]
    ensures Dot(row, x, lo, hi) == Dot(row', x', lo, hi)
    decreases hi
  {
    if lo < hi {
      DotFrame(row, row', x, x', lo, hi - 1);
    }
  }

  /** Dot peeled from its low end: column lo - 1 and the columns from lo on. */
  lemma {:induction false} DotLow(row: seq<real>, x: seq<real>, lo: nat, hi: nat)
    requires 0 < lo <= hi <= |row| && hi <= |x|
    ensures Dot(row, x, lo - 1, hi) == row[lo - 1] * x[lo - 1] + Dot(row, x, lo, hi)
    decreases hi
  {
    if lo < hi {
      DotLow(row, x, lo, hi - 1);
    }
  }

  /** Columns whose coefficient is zero do not contribute. */
  lemma {:induction false} DotZeroPrefix(row: seq<real>, x: seq<real>, r: nat, hi: nat)
    requires r <= hi <= |row| && hi <= |x|
    requires forall c :: 0 <= c < r ==> row[c] == 0.0
    ensures Dot(row, x, 0, hi) == Dot(row, x, r, hi)
    decreases r
  {
    if r > 0 {
      DotZeroPrefix(row, x, r - 1, hi);
      DotLow(row, x, r, hi);
    }
  }

  // ---------------------------------------------------------------------
  // Back substitution

  /** Back substitution over rows i - 1 .. 0 succeeds exactly when none of
      their diagonal entries is negligible. */
  lemma {:induction false} BackFromSolved(U: seq<seq<real>>, x: seq<real>, i: nat)
    requires IsAugmented(U) && |x| == |U| && i <= |U|
    ensures BackFrom(U, x, i).solved <==> forall r :: 0 <= r < i ==> !Negligible(U[r][r])
    decreases i
  {
    if i > 0 && !Negligible(U[i - 1][i - 1]) {
      var v := (U[i - 1][|U|] - Dot(U[i - 1], x, i, |U|)) / U[i - 1][i - 1];
      BackFromSolved(U, x[i - 1 := v], i - 1);
    }
  }

  /** The entry that back substitution computes satisfies its equation. */
  lemma SolvedEntry(d: real, b: real, s: real, v: real)
    requires d != 0.0 && v == (b - s) / d
    ensures d * v + s == b
  {
  }

  /** The row that one step of back substitution solves keeps holding:
      later steps change only entries left of it. */
  lemma BackFromSolvesTop(U: seq<seq<real>>, x: seq<real>, i: nat)
    requires IsAugmented(U) && |x| == |U| && 0 < i <= |U| && !Negligible(U[i - 1][i - 1])
    ensures var n := |U|;
      var x' := x[i - 1 := (U[i - 1][n] - Dot(U[i - 1], x, i, n)) / U[i - 1][i - 1]];
      Dot(U[i - 1], BackFrom(U, x', i - 1).result, i - 1, n) == U[i - 1][n]
  {
    var n := |U|;
    var d := U[i - 1][i - 1];
    var v := (U[i - 1][n] - Dot(U[i - 1], x, i, n)) / d;
    var x' := x[i - 1 := v];
    var res := BackFrom(U, x', i - 1).result;
    calc {
      Dot(U[i - 1], res, i - 1, n);
      { DotFrame(U[i - 1], U[i - 1], res, x', i - 1, n); }
      Dot(U[i - 1], x', i - 1, n);
      { DotLow(U[i - 1], x', i, n); }
      d * x'[i - 1] + Dot(U[i - 1], x', i, n);
      { DotFrame(U[i - 1], U[i - 1], x', x, i, n); }
      d * v + Dot(U[i - 1], x, i, n);
      { SolvedEntry(d, U[i - 1][n], Dot(U[i - 1], x, i, n), v); }
      U[i - 1][n];
    }
  }

  /** When back substitution succeeds, each processed row r holds as an
      equation over the columns r .. n - 1. */
  lemma {:induction false} BackFromSolvesRows(U: seq<seq<real>>, x: seq<real>, i: nat)
    requires IsAugmented(U) && |x| == |U| && i <= |U|
    requires BackFrom(U, x, i).solved
    ensures forall r :: 0 <= r < i ==> Dot(U[r], BackFrom(U, x, i).result, r, |U|) == U[r][|U|]
    decreases i
  {
    if i > 0 {
      var n := |U|;
      var x' := x[i - 1 := (U[i - 1][n] - Dot(U[i - 1], x, i, n)) / U[i - 1][i - 1]];
      BackFromStep(U, x, i);
      BackFromSolvesRows(U, x', i - 1);
      BackFromSolvesTop(U, x, i);
    }
  }

  /** A successful back substitution overwrites every entry: its result
      does not depend on what the array held before. */
  lemma {:induction false} BackFromIgnoresStart(U: seq<seq<real>>, x: seq<real>, y: seq<real>, i: nat)
    requires IsAugmented(U) && |x| == |U| == |y| && i <= |U|
    requires forall c :: i <= c < |U| ==> x[c] == y[c]
    requires BackFrom(U, x, i).solved
    ensures BackFrom(U, y, i) == BackFrom(U, x, i)
    decreases i
  {
    var n := |U|;
    if i == 0 {
      assert x == y;
    } else {
      DotFrame(U[i - 1], U[i - 1], x, y, i, n);
      var v := (U[i - 1][n] - Dot(U[i - 1], x, i, n)) / U[i - 1][i - 1];
      BackFromIgnoresStart(U, x[i - 1 := v], y[i - 1 := v], i - 1);
    }
  }

  /** Back substitution stops at the highest row f below i whose diagonal is
      negligible: it fails, and the entries 0 .. f keep their old values. */
  lemma {:induction false} BackFromStopsAt(U: seq<seq<real>>, x: seq<real>, i: nat, f: nat)
    requires IsAugmented(U) && |x| == |U| && f < i <= |U|
    requires Negligible(U[f][f])
    requires forall r :: f < r < i ==> !Negligible(U[r][r])
    ensures !BackFrom(U, x, i).solved
    ensures forall c :: 0 <= c <= f ==> BackFrom(U, x, i).result[c] == x[c]
    decreases i
  {
    if f < i - 1 {
      var v := (U[i - 1][|U|] - Dot(U[i - 1], x, i, |U|)) / U[i - 1][i - 1];
      BackFromStopsAt(U, x[i - 1 := v], i - 1, f);
    }
  }

  /** The last unknown is the last right-hand side over the last diagonal
      entry, whenever that entry is not negligible. */
  lemma BackSubstLast(U: seq<seq<real>>, x: seq<real>)
    requires IsAugmented(U) && |x| == |U| >= 1 && !Negligible(U[|U| - 1][|U| - 1])
    ensures BackSubst(U, x).result[|U| - 1] == U[|U| - 1][|U|] / U[|U| - 1][|U| - 1]
  {
    var n := |U|;
    BackFromStep(U, x, n);
    assert Dot(U[n - 1], x, n, n) == 0.0;
  }

  /** A failed back substitution never reaches entry 0: that entry keeps
      the value the array held before. */
  lemma {:induction false} BackFromFailureKeepsFirst(U: seq<seq<real>>, x: seq<real>, i: nat)
    requires IsAugmented(U) && |x| == |U| && i <= |U|
    ensures !BackFrom(U, x, i).solved ==> BackFrom(U, x, i).result[0] == x[0]
    decreases i
  {
    if i > 1 && !Negligible(U[i - 1][i - 1]) {
      var v := (U[i - 1][|U|] - Dot(U[i - 1], x, i, |U|)) / U[i - 1][i - 1];
      BackFromStep(U, x, i);
      BackFromFailureKeepsFirst(U, x[i - 1 := v], i - 1);
    }
  }

  /** Back substitution over a whole matrix: it succeeds exactly when no
      diagonal entry is negligible, and then the result satisfies the upper
      triangle of U and does not depend on the array's previous contents. */
  lemma BackSubstSolvesUpper(U: seq<seq<real>>, x: seq<real>, y: seq<real>)
    requires IsAugmented(U) && |x| == |U| == |y|
    ensures BackSubst(U, x).solved <==> forall r :: 0 <= r < |U| ==> !Negligible(U[r][r])
    ensures BackSubst(U, x).solved ==> SolvesUpper(U, BackSubst(U, x).result)
    ensures BackSubst(U, x).solved ==> BackSubst(U, y) == BackSubst(U, x)
  {
    BackFromSolved(U, x, |U|);
    if BackSubst(U, x).solved {
      BackFromSolvesRows(U, x, |U|);
      BackFromIgnoresStart(U, x, y, |U|);
    }
  }

  // ---------------------------------------------------------------------
  // Forward elimination

  /** With the coefficients below the diagonal all zero, the equations read
      from column 0 and from the diagonal on are the same. */
  lemma UpperSolvesAll(U: seq<seq<real>>, x: seq<real>)
    requires IsAugmented(U) && |x| == |U| && LowerZero(U)
    ensures SolvesUpper(U, x) <==> Solves(U, x)
  {
    forall r | 0 <= r < |U|
      ensures Dot(U[r], x, 0, |U|) == Dot(U[r], x, r, |U|)
    {
      DotZeroPrefix(U[r], x, r, |U|);
    }
  }

  /** Moving the division of a row operation's multiplier. */
  lemma MultiplierSwap(a: real, b: real, q: real)
    requires q != 0.0
    ensures a * b / q == a / q * b
  {
  }

  /** The inductive step of DotLinear on plain numbers: one more column of
      a row minus f times another. */
  lemma LinearStep(d: real, dRow: real, dPivot: real, a: real, b: real, p: real, f: real, y: real,
                   d': real, dRow': real, dPivot': real)
    requires d == dRow - f * dPivot && a == b - f * p
    requires d' == d + a * y && dRow' == dRow + b * y && dPivot' == dPivot + p * y
    ensures d' == dRow' - f * dPivot'
  {
    assert a * y == b * y - f * (p * y);
  }

  /** Dot is linear in the row: a row that is b minus f times p, column by
      column, has the sum of b minus f times the sum of p. */
  lemma {:induction false} DotLinear(a: seq<real>, b: seq<real>, p: seq<real>, f: real, x: seq<real>, hi: nat)
    requires hi <= |a| && hi <= |b| && hi <= |p| && hi <= |x|
    requires forall c :: 0 <= c < hi ==> a[c] == b[c] - f * p[c]
    ensures Dot(a, x, 0, hi) == Dot(b, x, 0, hi) - f * Dot(p, x, 0, hi)
    decreases hi
  {
    if hi > 0 {
      var c := hi - 1;
      DotLinear(a, b, p, f, x, c);
      LinearStep(Dot(a, x, 0, c), Dot(b, x, 0, c), Dot(p, x, 0, c), a[c], b[c], p[c], f, x[c],
                 Dot(a, x, 0, hi), Dot(b, x, 0, hi), Dot(p, x, 0, hi));
    }
  }

  /** A row that is row minus f times the pivot row from column i on has
      the sum of row minus f times the sum of the pivot row, provided the
      pivot row is zero left of column i. */
  lemma SubtractDot(row: seq<real>, pivot: seq<real>, i: nat, f: real, x: seq<real>)
    requires i < |row| - 1 && |row| == |pivot| && |x| == |row| - 1
    requires forall c :: 0 <= c < i ==> pivot[c] == 0.0
    ensures Dot(Subtract(row, pivot, i, f), x, 0, |x|) == Dot(row, x, 0, |x|) - f * Dot(pivot, x, 0, |x|)
  {
    var R := Subtract(row, pivot, i, f);
    forall c | 0 <= c < |x|
      ensures R[c] == row[c] - f * pivot[c]
    {
      if c < i {
        assert pivot[c] == 0.0 && R[c] == row[c];
      }
    }
    DotLinear(R, row, pivot, f, x, |x|);
  }

  /** Subtracting f times a true equation from another gives an equation
      that holds exactly when the other one does. */
  lemma LinearSameEquation(a: seq<real>, b: seq<real>, p: seq<real>, f: real, x: seq<real>)
    requires |a| == |b| == |p| == |x| + 1
    requires Dot(a, x, 0, |x|) == Dot(b, x, 0, |x|) - f * Dot(p, x, 0, |x|)
    requires a[|x|] == b[|x|] - f * p[|x|]
    requires Dot(p, x, 0, |x|) == p[|x|]
    ensures Dot(b, x, 0, |x|) == b[|x|] <==> Dot(a, x, 0, |x|) == a[|x|]
  {
    var n := |x|;
    ShiftedEquation(Dot(a, x, 0, n), Dot(b, x, 0, n), Dot(p, x, 0, n), a[n], b[n], p[n], f);
  }

  /** A reduced equation holds exactly when the original one does, given
      that the pivot equation holds and the pivot row is zero left of column i. */
  lemma ReducedSameEquation(row: seq<real>, pivot: seq<real>, i: nat, x: seq<real>)
    requires i < |row| - 1 && |row| == |pivot| && pivot[i] != 0.0 && |x| == |row| - 1
    requires forall c :: 0 <= c < i ==> pivot[c] == 0.0
    requires Dot(pivot, x, 0, |x|) == pivot[|x|]
    ensures Dot(row, x, 0, |x|) == row[|x|]
            <==> Dot(Reduce(row, pivot, i), x, 0, |x|) == Reduce(row, pivot, i)[|x|]
  {
    var f := row[i] / pivot[i];
    SubtractDot(row, pivot, i, f, x);
    LinearSameEquation(Subtract(row, pivot, i, f), row, pivot, f, x);
  }

  /** Subtracting the same multiple of a true equation from both sides of
      another keeps it true or false. */
  lemma ShiftedEquation(d': real, d: real, dPivot: real, b': real, b: real, bPivot: real, f: real)
    requires d' == d - f * dPivot && b' == b - f * bPivot && dPivot == bPivot
    ensures d == b <==> d' == b'
  {
  }

  /** Row r after pivot step i: reduced when the pivot is used and the
      row's entry under it is not negligible, untouched otherwise. */
  lemma PivotStepRow(rule: PivotRule, M: seq<seq<real>>, i: nat, r: nat)
    requires IsAugmented(M) && i < |M| && r < |M|
    ensures !SkipsPivot(rule, M[i][i]) && i < r && !Negligible(M[r][i]) ==>
              M[i][i] != 0.0 && PivotStep(rule, M, i)[r] == Reduce(M[r], M[i], i)
    ensures SkipsPivot(rule, M[i][i]) || r <= i || Negligible(M[r][i]) ==>
              PivotStep(rule, M, i)[r] == M[r]
  {
  }

  /** One equation before and after a pivot step, given the pivot equation. */
  lemma RowStepSameEquation(rule: PivotRule, M: seq<seq<real>>, i: nat, x: seq<real>, r: nat)
    requires IsAugmented(M) && i < |M| && r < |M| && |x| == |M|
    requires forall c :: 0 <= c < i ==> M[i][c] == 0.0
    requires Dot(M[i], x, 0, |M|) == M[i][|M|]
    ensures Dot(M[r], x, 0, |M|) == M[r][|M|]
            <==> Dot(PivotStep(rule, M, i)[r], x, 0, |M|) == PivotStep(rule, M, i)[r][|M|]
  {
    PivotStepRow(rule, M, i, r);
    if !SkipsPivot(rule, M[i][i]) && i < r && !Negligible(M[r][i]) {
      ReducedSameEquation(M[r], M[i], i, x);
    }
  }

  /** A pivot step whose pivot row is zero left of the diagonal keeps the
      solutions of the system: every row operation subtracts a multiple of
      the pivot equation, which stays in place. */
  lemma PivotStepSameSolutions(rule: PivotRule, M: seq<seq<real>>, i: nat, x: seq<real>)
    requires IsAugmented(M) && i < |M| && |x| == |M|
    requires forall c :: 0 <= c < i ==> M[i][c] == 0.0
    ensures Solves(M, x) <==> Solves(PivotStep(rule, M, i), x)
  {
    var P := PivotStep(rule, M, i);
    if Solves(M, x) || Solves(P, x) {
      assert Dot(M[i], x, 0, |M|) == M[i][|M|] by {
        assert P[i] == M[i];
      }
      forall r | 0 <= r < |M|
        ensures Dot(M[r], x, 0, |M|) == M[r][|M|] <==> Dot(P[r], x, 0, |M|) == P[r][|M|]
      {
        RowStepSameEquation(rule, M, i, x, r);
      }
    }
  }

  /** Row i is final once pivot i - 1 is done: later steps change only rows below their pivot. */
  lemma {:induction false} RowSettles(rule: PivotRule, M: seq<seq<real>>, i: nat, m: nat)
    requires IsAugmented(M) && i < |M| && i <= m <= |M|
    ensures Forward(rule, M, m)[i] == Forward(rule, M, i)[i]
    decreases m
  {
    if m > i {
      ForwardUnfold(rule, M, m);
      RowSettles(rule, M, i, m - 1);
    }
  }

  /** Column c is final once pivot c is done: later steps change only columns from their pivot on. */
  lemma {:induction false} ColumnSettles(rule: PivotRule, M: seq<seq<real>>, r: nat, c: nat, m: nat)
    requires IsAugmented(M) && r < |M| && c < m <= |M|
    ensures Forward(rule, M, m)[r][c] == Forward(rule, M, c + 1)[r][c]
    decreases m
  {
    if m > c + 1 {
      ForwardUnfold(rule, M, m);
      ColumnSettles(rule, M, r, c, m - 1);
    }
  }

  lemma {:induction false} ForwardSameSolutions(rule: PivotRule, M: seq<seq<real>>, m: nat, x: seq<real>)
    requires IsAugmented(M) && m <= |M| && |x| == |M|
    requires forall i, c :: 0 <= c < i < m ==> Forward(rule, M, i)[i][c] == 0.0
    ensures Solves(M, x) <==> Solves(Forward(rule, M, m), x)
    decreases m
  {
    if m > 0 {
      var F := Forward(rule, M, m - 1);
      ForwardUnfold(rule, M, m);
      ForwardSameSolutions(rule, M, m - 1, x);
      PivotStepSameSolutions(rule, F, m - 1, x);
    }
  }

  /** When elimination leaves exact zeros below the diagonal, the eliminated
      system has the same solutions as the original one. */
  lemma EliminationSameSolutions(rule: PivotRule, M: seq<seq<real>>, x: seq<real>)
    requires IsAugmented(M) && |M| >= 1 && |x| == |M|
    requires LowerZero(Elimination(rule, M))
    ensures Solves(M, x) <==> Solves(Elimination(rule, M), x)
  {
    var n := |M|;
    forall i, c | 0 <= c < i < n - 1
      ensures Forward(rule, M, i)[i][c] == 0.0
    {
      RowSettles(rule, M, i, n - 1);
    }
    ForwardSameSolutions(rule, M, n - 1, x);
  }

  /** Soundness of the solver: when it reports success and elimination left
      exact zeros below the diagonal, the result solves the original system,
      whatever the result array held before. */
  lemma SolveSound(rule: PivotRule, M: seq<seq<real>>, x: seq<real>)
    requires IsAugmented(M) && |M| >= 1 && |x| == |M|
    requires LowerZero(Elimination(rule, M))
    ensures BackSubst(Elimination(rule, M), x).solved ==> Solves(M, BackSubst(Elimination(rule, M), x).result)
  {
    var U := Elimination(rule, M);
    var s := BackSubst(U, x);
    if s.solved {
      BackSubstSolvesUpper(U, x, x);
      UpperSolvesAll(U, s.result);
      EliminationSameSolutions(rule, M, s.result);
    }
  }

  // ---------------------------------------------------------------------
  // The pivot test

  lemma MultiplierCancels(a: real, d: real)
    requires d != 0.0
    ensures a - a / d * d == 0.0
  {
  }

  /** The row operation clears the pivot column. */
  lemma ReduceClearsColumn(row: seq<real>, pivot: seq<real>, i: nat)
    requires i < |row| == |pivot| && pivot[i] != 0.0
    ensures Reduce(row, pivot, i)[i] == 0.0
  {
    MultiplierCancels(row[i], pivot[i]);
  }

  /** With the absolute test, a used pivot leaves every entry under it
      negligible: either it already was, or the row operation makes it zero. */
  lemma AbsolutePivotClears(F: seq<seq<real>>, c: nat, r: nat)
    requires IsAugmented(F) && c < r < |F| && !Negligible(F[c][c])
    ensures Negligible(PivotStep(AbsoluteTest, F, c)[r][c])
  {
    PivotStepRow(AbsoluteTest, F, c, r);
    if !Negligible(F[r][c]) {
      ReduceClearsColumn(F[r], F[c], c);
    }
  }

  lemma AbsoluteEntryNegligible(M: seq<seq<real>>, r: nat, c: nat)
    requires IsAugmented(M) && c < r < |M|
    requires !Negligible(Forward(AbsoluteTest, M, c)[c][c])
    ensures Negligible(Forward(AbsoluteTest, M, c + 1)[r][c])
  {
    AbsolutePivotClears(Forward(AbsoluteTest, M, c), c, r);
  }

  /** With the absolute test, a successful solve means that elimination left
      every entry below the diagonal negligible. (With the signed test it
      need not: the right-triangle example shows a negative pivot skipped.) */
  lemma AbsoluteTestSolvedNearlyTriangular(M: seq<seq<real>>, x: seq<real>)
    requires IsAugmented(M) && |M| >= 1 && |x| == |M|
    ensures BackSubst(Elimination(AbsoluteTest, M), x).solved ==>
      forall r, c :: 0 <= c < r < |M| ==> Negligible(Elimination(AbsoluteTest, M)[r][c])
  {
    var n := |M|;
    var U := Elimination(AbsoluteTest, M);
    BackFromSolved(U, x, n);
    if BackSubst(U, x).solved {
      forall r, c | 0 <= c < r < n
        ensures Negligible(U[r][c])
      {
        RowSettles(AbsoluteTest, M, c, n - 1);
        AbsoluteEntryNegligible(M, r, c);
        ColumnSettles(AbsoluteTest, M, r, c, n - 1);
      }
    }
  }

  /** Two rows that agree in every coefficient column still agree after the
      pivots above both of them: each step treats them alike. */
  lemma {:induction false} EqualRowsStayEqual(rule: PivotRule, M: seq<seq<real>>, j: nat, k: nat, m: nat)
    requires IsAugmented(M) && j < k < |M| && m <= j
    requires forall c :: 0 <= c < |M| ==> M[j][c] == M[k][c]
    ensures forall c :: 0 <= c < |M| ==> Forward(rule, M, m)[j][c] == Forward(rule, M, m)[k][c]
  {
    if m > 0 {
      EqualRowsStayEqual(rule, M, j, k, m - 1);
      ForwardUnfold(rule, M, m);
      var F := Forward(rule, M, m - 1);
      PivotStepRow(rule, F, m - 1, j);
      PivotStepRow(rule, F, m - 1, k);
    }
  }

  /** With the magnitude test, a used pivot j clears a later row that agrees
      with row j in every coefficient column, from column j on. */
  lemma EqualRowCancels(F: seq<seq<real>>, j: nat, k: nat)
    requires IsAugmented(F) && j < k < |F| && !Negligible(F[j][j])
    requires forall c :: 0 <= c < |F| ==> F[j][c] == F[k][c]
    ensures forall c :: j <= c < |F| ==> PivotStep(AbsoluteTest, F, j)[k][c] == 0.0
  {
    PivotStepRow(AbsoluteTest, F, j, k);
    assert F[k][j] / F[j][j] == 1.0;
  }

  /** Once row k is zero from column j on, later pivots leave it so: its
      entry under each of them is zero, hence negligible. */
  lemma {:induction false} ZeroTailStays(rule: PivotRule, M: seq<seq<real>>, k: nat, j: nat, m0: nat, m: nat)
    requires IsAugmented(M) && k < |M| && j < m0 <= m <= |M|
    requires forall c :: j <= c < |M| ==> Forward(rule, M, m0)[k][c] == 0.0
    ensures forall c :: j <= c < |M| ==> Forward(rule, M, m)[k][c] == 0.0
  {
    if m > m0 {
      ZeroTailStays(rule, M, k, j, m0, m - 1);
      ForwardUnfold(rule, M, m);
      var F := Forward(rule, M, m - 1);
      assert Negligible(F[k][m - 1]);
      PivotStepRow(rule, F, m - 1, k);
    }
  }

  /** With the magnitude test, a system in which two rows agree in every
      coefficient column is reported as failed: either the earlier row's
      pivot is negligible, or it is used and leaves a zero diagonal in the
      later row. */
  lemma EqualRowsFail(M: seq<seq<real>>, x: seq<real>, j: nat, k: nat)
    requires IsAugmented(M) && |x| == |M| && j < k < |M|
    requires forall c :: 0 <= c < |M| ==> M[j][c] == M[k][c]
    ensures !BackSubst(Elimination(AbsoluteTest, M), x).solved
  {
    var n := |M|;
    var U := Elimination(AbsoluteTest, M);
    BackFromSolved(U, x, n);
    EqualRowsStayEqual(AbsoluteTest, M, j, k, j);
    var F := Forward(AbsoluteTest, M, j);
    if Negligible(F[j][j]) {
      RowSettles(AbsoluteTest, M, j, n - 1);
      assert Negligible(U[j][j]);
    } else {
      EqualRowCancels(F, j, k);
      ForwardUnfold(AbsoluteTest, M, j + 1);
      ZeroTailStays(AbsoluteTest, M, k, j, j + 1, n - 1);
      assert Negligible(U[k][k]);
    }
  }

  // ---------------------------------------------------------------------
  // The right-hand side does not steer the solver

  /** Two systems with the same coefficient columns; their right-hand sides may differ. */
  ghost predicate SameCoefficients(M: seq<seq<real>>, M': seq<seq<real>>)
  {
    |M| == |M'| && IsAugmented(M) && IsAugmented(M') &&
    forall r, c :: 0 <= r < |M| && 0 <= c < |M| ==> M[r][c] == M'[r][c]
  }

  lemma PivotStepSameCoefficients(rule: PivotRule, M: seq<seq<real>>, M': seq<seq<real>>, i: nat)
    requires SameCoefficients(M, M') && i < |M|
    ensures SameCoefficients(PivotStep(rule, M, i), PivotStep(rule, M', i))
  {
    var P, P' := PivotStep(rule, M, i), PivotStep(rule, M', i);
    forall r | 0 <= r < |M|
      ensures forall c :: 0 <= c < |M| ==> P[r][c] == P'[r][c]
    {
      PivotStepRow(rule, M, i, r);
      PivotStepRow(rule, M', i, r);
    }
  }

  lemma {:induction false} ForwardSameCoefficients(rule: PivotRule, M: seq<seq<real>>, M': seq<seq<real>>, m: nat)
    requires SameCoefficients(M, M') && m <= |M|
    ensures SameCoefficients(Forward(rule, M, m), Forward(rule, M', m))
    decreases m
  {
    if m > 0 {
      var F, F' := Forward(rule, M, m - 1), Forward(rule, M', m - 1);
      ForwardUnfold(rule, M, m);
      ForwardUnfold(rule, M', m);
      ForwardSameCoefficients(rule, M, M', m - 1);
      PivotStepSameCoefficients(rule, F, F', m - 1);
    }
  }

  /** Elimination treats the coefficient columns alike whatever the
      right-hand side, so whether a solve succeeds depends on the
      coefficients alone, not on the right-hand side nor on the result
      array's previous contents. */
  lemma CoefficientsDecide(rule: PivotRule, M: seq<seq<real>>, M': seq<seq<real>>, x: seq<real>, y: seq<real>)
    requires SameCoefficients(M, M') && |M| >= 1 && |x| == |y| == |M|
    ensures SameCoefficients(Elimination(rule, M), Elimination(rule, M'))
    ensures BackSubst(Elimination(rule, M), x).solved == BackSubst(Elimination(rule, M'), y).solved
  {
    ForwardSameCoefficients(rule, M, M', |M| - 1);
    BackFromSolved(Elimination(rule, M), x, |M|);
    BackFromSolved(Elimination(rule, M'), y, |M|);
  }
}
