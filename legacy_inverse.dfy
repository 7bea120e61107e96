/**
 * The `Matrix.inverse` of the earlier all-in-one index.js: Gauss-Jordan elimination that,
 * below each pivot, clears only the next row.
 */
module LegacyInverse {
  import opened Wrappers
  import opened Numbers
  import opened MatrixValues
  import opened Layouts
  import opened Elimination
  import opened Matrices
  import opened Transforms

  /**
   * One pass of the older forward loop: pivot, divide row i by its pivot, then clear
   * column i in row i + 1 only (nothing for the last row).
   */
  function OldInverseStep(s: System, i: nat): (r: Result<System>)
    requires Square(s) && i < s.left.rows
    ensures r.Ok? ==> SameShape(s, r.value)
  {
    match Pivoted(s, i)
    case Err(e) => Err(e)
    case Ok(t) => Ok(ClearNext(SysScale(t, i, 1.0 / t.left.cells[i][i]), i))
  }

  /** Row i + 1, if there is one, loses the multiple of row i that clears its column i. */
  function ClearNext(s: System, i: nat): (t: System)
    requires Square(s) && i < s.left.rows
    ensures SameShape(s, t)
  {
    if i == s.left.rows - 1 then s
    else SysAddMultiple(s, i + 1, i, -s.left.cells[i + 1][i])
  }

  /** The older forward loop from row i on; it can only fail for want of a pivot. */
  function OldForward(s: System, i: nat): (r: Result<System>)
    requires Square(s) && i <= s.left.rows
    ensures r.Ok? ==> SameShape(s, r.value)
    ensures r.Err? ==> r.error == SingularMatrix
    decreases s.left.rows - i
  {
    if i == s.left.rows then Ok(s)
    else
      match OldInverseStep(s, i)
      case Err(e) => Err(e)
      case Ok(t) => OldForward(t, i + 1)
  }

  /** What the older `inverse` returns or raises, for a matrix m. */
  function OldInverseSpec(m: Mat): (r: Result<Mat>)
    requires Wf(m)
    ensures r.Err? ==> r.error == if m.rows != m.cols then NotSquare else SingularMatrix
    ensures r.Ok? ==> m.rows == m.cols && Wf(r.value) && r.value.rows == m.rows && r.value.cols == m.rows
  {
    if m.rows != m.cols then Err(NotSquare)
    else
      match OldForward(System(m, Identity(m.rows)), 0)
      case Err(e) => Err(e)
      case Ok(s) => Ok(Backward(s, m.rows as int - 1).right)
  }

  /** In the last two passes there is at most one row below the pivot, and the two loops agree. */
  lemma OldInverseStepAgrees(s: System, i: nat)
    requires Square(s) && i < s.left.rows && s.left.rows <= i + 2
    ensures OldInverseStep(s, i) == InverseStep(s, i)
  {
    if Pivoted(s, i).Ok? {
      var t := Pivoted(s, i).value;
      var scaled := SysScale(t, i, 1.0 / t.left.cells[i][i]);
      if i < s.left.rows - 1 {
        var next := ClearNext(scaled, i);
        assert ElimBelow(next, i, i + 2) == next;
      }
    }
  }

  /** From the second-to-last row on, the older forward loop is the newer one. */
  lemma {:induction false} OldForwardAgrees(s: System, i: nat)
    requires Square(s) && i <= s.left.rows <= i + 2
    ensures OldForward(s, i) == Forward(s, i)
    decreases s.left.rows - i
  {
    if i < s.left.rows {
      OldInverseStepAgrees(s, i);
      if InverseStep(s, i).Ok? {
        OldForwardAgrees(InverseStep(s, i).value, i + 1);
      }
    }
  }

  /** For matrices of size at most 2 the older `inverse` is the newer one, so it is correct there. */
  lemma OldInverseAgreesUpToTwo(m: Mat)
    requires Wf(m) && m.rows <= 2
    ensures OldInverseSpec(m) == InverseSpec(m)
    ensures OldInverseSpec(m).Ok? ==>
      MatMul(m, OldInverseSpec(m).value) == Identity(m.rows) && MatMul(OldInverseSpec(m).value, m) == Identity(m.rows)
  {
    if m.rows == m.cols {
      OldForwardAgrees(System(m, Identity(m.rows)), 0);
    }
    if InverseSpec(m).Ok? {
      InverseSpecCorrect(m);
    }
  }
  /** Dividing a row by 1 changes nothing. */
  lemma ScaleByOne(s: System, i: nat)
    requires WfSys(s) && i < s.left.rows
    ensures SysScale(s, i, 1.0) == s
  {
    assert Scaled(s.left.cells[i], 1.0) == s.left.cells[i];
    assert Scaled(s.right.cells[i], 1.0) == s.right.cells[i];
  }

  /** Adding 0 times a row changes nothing. */
  lemma AddNothing(s: System, target: nat, src: nat)
    requires WfSys(s) && target < s.left.rows && src < s.left.rows
    ensures SysAddMultiple(s, target, src, 0.0) == s
  {
    assert AddMultiple(s.left.cells[target], 0.0, s.left.cells[src]) == s.left.cells[target];
    assert AddMultiple(s.right.cells[target], 0.0, s.right.cells[src]) == s.right.cells[target];
  }

  /**
   * A system whose left side has ones on the diagonal and zeros just below it goes
   * through the older forward loop unchanged, whatever lies further below.
   */
  lemma {:induction false} OldForwardLeaves(s: System, i: nat)
    requires Square(s) && i <= s.left.rows
    requires forall k :: i <= k < s.left.rows ==> s.left.cells[k][k] == 1.0
    requires forall k :: i < k < s.left.rows ==> s.left.cells[k][k - 1] == 0.0
    ensures OldForward(s, i) == Ok(s)
    decreases s.left.rows - i
  {
    if i < s.left.rows {
      PivotedStays(s, i);
      ScaleByOne(s, i);
      if i < s.left.rows - 1 {
        AddNothing(s, i + 1, i);
      }
      assert OldInverseStep(s, i) == Ok(s);
      OldForwardLeaves(s, i + 1);
    }
  }

  /** Clearing column i above row i changes nothing when those entries are already zero. */
  lemma {:induction false} ClearAboveLeaves(s: System, i: nat, r: int)
    requires Square(s) && i < s.left.rows && r < i
    requires forall k :: 0 <= k <= r ==> s.left.cells[k][i] == 0.0
    ensures ClearAbove(s, i, r) == s
    decreases r + 1
  {
    if r >= 0 {
      AddNothing(s, r, i);
      ClearAboveLeaves(s, i, r - 1);
    }
  }

  /** The backward loop changes nothing when the left side is zero above the diagonal. */
  lemma {:induction false} BackwardLeaves(s: System, i: int)
    requires Square(s) && i < s.left.rows
    requires forall r, c :: 0 <= r < c < s.left.rows ==> s.left.cells[r][c] == 0.0
    ensures Backward(s, i) == s
    decreases i
  {
    if i > 0 {
      ClearAboveLeaves(s, i, i - 1);
      BackwardLeaves(s, i - 1);
    }
  }

  /**
   * The older `inverse` of any matrix with ones on the diagonal, zeros above it and zeros
   * just below it is the identity, whatever the matrix holds further below.
   */
  lemma OldInverseOfUnitLower(m: Mat)
    requires Wf(m) && m.rows == m.cols
    requires forall k :: 0 <= k < m.rows ==> m.cells[k][k] == 1.0
    requires forall k :: 0 < k < m.rows ==> m.cells[k][k - 1] == 0.0
    requires forall r, c :: 0 <= r < c < m.rows ==> m.cells[r][c] == 0.0
    ensures OldInverseSpec(m) == Ok(Identity(m.rows))
  {
    var s := System(m, Identity(m.rows));
    OldForwardLeaves(s, 0);
    BackwardLeaves(s, m.rows as int - 1);
  }

  /**
   * The older `inverse` is wrong on M = [[1, 0, 0], [0, 1, 0], [1, 0, 1]]: it returns the
   * identity, which is not an inverse of M.
   */
  lemma OldInverseWrong(m: Mat)
    requires m == Mat3([1.0, 0.0, 0.0], [0.0, 1.0, 0.0], [1.0, 0.0, 1.0])
    ensures OldInverseSpec(m) == Ok(Identity(3))
    ensures MatMul(m, OldInverseSpec(m).value) != Identity(3)
  {
    OldInverseOfUnitLower(m);
    MatMulIdentityRight(m);
    assert Identity(3).cells[2] == Unit(3, 2);
    assert m.cells[2][0] != Identity(3).cells[2][0];
  }

  /** Pivoting column 0 never moves a row whose column-0 entry is zero, such as an affine bottom row. */
  lemma PivotKeepsRow(s: System, k: nat)
    requires Square(s) && 0 < k < s.left.rows && s.left.cells[k][0] == 0.0 && Pivoted(s, 0).Ok?
    ensures Pivoted(s, 0).value.left.cells[k] == s.left.cells[k]
  {
    if Abs(s.left.cells[0][0]) < Epsilon {
      var p := FirstPivot(s.left, 0, 0).value;
      assert p != k;
    }
  }

  /**
   * On an affine matrix the older `inverse` is the newer one: the only row its first pass
   * skips is the bottom row, whose column-0 entry is already zero.
   */
  lemma OldInverseAgreesOnAffine(t: Mat)
    requires Affine(t)
    ensures OldInverseSpec(t) == InverseSpec(t)
  {
    var s := System(t, Identity(3));
    assert s.left.cells[2][0] == 0.0;
    if Pivoted(s, 0).Ok? {
      var p := Pivoted(s, 0).value;
      PivotKeepsRow(s, 2);
      var scaled := SysScale(p, 0, 1.0 / p.left.cells[0][0]);
      var next := ClearNext(scaled, 0);
      assert next.left.cells[2][0] == 0.0;
      AddNothing(next, 2, 0);
      assert ElimBelow(next, 0, 2) == next;
      assert OldInverseStep(s, 0) == InverseStep(s, 0) == Ok(next);
      OldForwardAgrees(next, 1);
    }
  }

  lemma OldInverseStepKeeps(s: System, i: nat, m: Mat)
    requires Square(s) && i < s.left.rows && OldInverseStep(s, i).Ok?
    ensures Keeps(s, OldInverseStep(s, i).value, m)
  {
    var t := Pivoted(s, i).value;
    PivotedKeeps(s, i, m);
    var f := 1.0 / t.left.cells[i][i];
    var u := SysScale(t, i, f);
    ScaleKeeps(t, i, f, m);
    KeepsTransitive(s, t, u, m);
    if i < s.left.rows - 1 {
      var k := -u.left.cells[i + 1][i];
      AddMultipleKeeps(u, i + 1, i, k, m);
      KeepsTransitive(s, u, SysAddMultiple(u, i + 1, i, k), m);
    }
  }

  lemma {:induction false} OldForwardKeeps(s: System, i: nat, m: Mat)
    requires Square(s) && i <= s.left.rows && OldForward(s, i).Ok?
    ensures Keeps(s, OldForward(s, i).value, m)
    decreases s.left.rows - i
  {
    if i < s.left.rows {
      var t := OldInverseStep(s, i).value;
      OldInverseStepKeeps(s, i, m);
      OldForwardKeeps(t, i + 1, m);
      KeepsTransitive(s, t, OldForward(t, i + 1).value, m);
    }
  }

  /** The system [m | I] after both loops of the older `inverse`. */
  ghost function OldReduction(m: Mat): (s: System)
    requires Wf(m) && m.rows == m.cols && OldForward(System(m, Identity(m.rows)), 0).Ok?
    ensures SameShape(System(m, Identity(m.rows)), s)
  {
    Backward(OldForward(System(m, Identity(m.rows)), 0).value, m.rows as int - 1)
  }

  /** The older loops keep the solutions of [m | I] and the record right * m == left. */
  lemma OldReductionKeeps(m: Mat)
    requires Wf(m) && m.rows == m.cols && OldForward(System(m, Identity(m.rows)), 0).Ok?
    ensures Tracks(OldReduction(m), m)
    ensures Solutions(OldReduction(m)) == Solutions(System(m, Identity(m.rows)))
  {
    var s0 := System(m, Identity(m.rows));
    var s1 := OldForward(s0, 0).value;
    var s2 := Backward(s1, m.rows as int - 1);
    MatMulIdentityLeft(m);
    assert Tracks(s0, m);
    OldForwardKeeps(s0, 0, m);
    BackwardKeeps(s1, m.rows as int - 1, m);
    KeepsTransitive(s0, s1, s2, m);
    assert s2 == OldReduction(m);
  }

  /**
   * What the older `inverse` does get right: its result R still records its row
   * operations, R * m being the left side it ends with, so R is a two-sided inverse of m
   * exactly when that left side is the identity.
   */
  lemma OldInverseRecords(m: Mat)
    requires Wf(m) && OldInverseSpec(m).Ok?
    ensures m.rows == m.cols && OldForward(System(m, Identity(m.rows)), 0).Ok?
    ensures MatMul(OldInverseSpec(m).value, m) == OldReduction(m).left
    ensures OldReduction(m).left == Identity(m.rows) ==>
      MatMul(m, OldInverseSpec(m).value) == Identity(m.rows) && MatMul(OldInverseSpec(m).value, m) == Identity(m.rows)
  {
    var n := m.rows;
    var s2 := OldReduction(m);
    var r := s2.right;
    OldReductionKeeps(m);
    if s2.left == Identity(n) {
      MatMulIdentityLeft(r);
      assert Solves(s2, r);
      assert r in Solutions(System(m, Identity(n)));
    }
  }
  lemma OldForwardStops(s: System, i: nat)
    requires Square(s) && i < s.left.rows && Pivoted(s, i).Err?
    ensures OldForward(s, i) == Err(SingularMatrix)
  {
  }

  lemma OldForwardStep(s: System, i: nat, pivoted: System, scaled: System, next: System)
    requires Square(s) && i < s.left.rows && Pivoted(s, i) == Ok(pivoted)
    requires scaled == SysScale(pivoted, i, 1.0 / pivoted.left.cells[i][i])
    requires next == ClearNext(scaled, i)
    ensures Square(next) && next.left.rows == s.left.rows
    ensures OldForward(s, i) == OldForward(next, i + 1)
  {
    assert OldInverseStep(s, i) == Ok(next);
  }

  /** Row i + 1 of both matrices, if there is one, loses the multiple of row i that clears its column i. */
  method ClearNextOfBoth(a: Matrix, b: Matrix, n: nat, i: nat)
    requires SquarePair(a, b, n) && i < n
    modifies a.data, b.data
    ensures Both(a, b, n) == ClearNext(old(Both(a, b, n)), i)
  {
    if i != n - 1 {
      var multiples := a.Get(i, i + 1).value;
      SubtractRowMultipleOfBoth(a, b, n, i + 1, i, multiples);
    }
  }

  /**
   * The forward loop of the older `inverse`: pivot, divide row i by its pivot, clear
   * column i in row i + 1; false as soon as a column has no usable pivot.
   */
  method OldForwardPass(a: Matrix, b: Matrix, n: nat) returns (ok: bool)
    requires SquarePair(a, b, n)
    modifies a.data, b.data
    ensures ok <==> OldForward(old(Both(a, b, n)), 0).Ok?
    ensures ok ==> OldForward(old(Both(a, b, n)), 0) == Ok(Both(a, b, n))
  {
    ghost var goal := OldForward(Both(a, b, n), 0);
    ghost var cur := Both(a, b, n);
    for i := 0 to n
      invariant cur == Both(a, b, n) && OldForward(cur, i) == goal
    {
      var found := PivotBoth(a, b, n, i);
      if !found {
        OldForwardStops(cur, i);
        return false;
      }
      ghost var pivoted := Both(a, b, n);
      var scaleFactor := a.Get(i, i).value;
      DivideRowOfBoth(a, b, n, i, scaleFactor);
      ghost var scaled := Both(a, b, n);
      ClearNextOfBoth(a, b, n, i);
      ghost var next := Both(a, b, n);
      OldForwardStep(cur, i, pivoted, scaled, next);
      cur := next;
    }
    return true;
  }

  /**
   * The older `inverse()`: square check, identity, copy, the older forward loop, then
   * the backward loop of the newer one; the receiver does not change.
   */
  method OldInverse(m: Matrix) returns (r: Result<Matrix>)
    requires m.Valid()
    ensures r.Err? <==> OldInverseSpec(m.Value()).Err?
    ensures r.Err? ==> r.error == OldInverseSpec(m.Value()).error
    ensures r.Ok? ==> fresh(r.value) && fresh(r.value.data) && r.value.Valid()
    ensures r.Ok? ==> r.value.Value() == OldInverseSpec(m.Value()).value
  {
    if m.rows != m.cols {
      return Err(NotSquare);
    }
    r := OldInverseOfSquare(m);
  }

  /** The older `inverse()` past its square check. */
  method OldInverseOfSquare(m: Matrix) returns (r: Result<Matrix>)
    requires m.Valid() && m.rows == m.cols
    ensures r.Err? <==> OldForward(System(m.Value(), Identity(m.rows)), 0).Err?
    ensures r.Err? ==> r.error == SingularMatrix
    ensures r.Ok? ==> fresh(r.value) && fresh(r.value.data) && r.value.Valid()
    ensures r.Ok? ==> r.value.Value() == OldInverseSpec(m.Value()).value
  {
    var n := m.rows;
    var identity := IdentityMatrix(n);
    var clone := m.Copy();
    var ok := OldForwardPass(clone, identity, n);
    if !ok {
      return Err(SingularMatrix);
    }
    BackwardPass(clone, identity, n);
    return Ok(identity);
  }
}
