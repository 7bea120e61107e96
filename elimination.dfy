/**
 * Gauss-Jordan elimination on values. A `System` is the pair [left | right] that the
 * engine reduces in place: every row operation is applied to both sides. The functions
 * here state, step by step, what the loops of `Matrix.inverse` compute; the lemmas prove
 * that they compute an inverse.
 */
module Elimination {
  import opened Wrappers
  import opened Numbers
  import opened MatrixValues

  datatype System = System(left: Mat, right: Mat)

  ghost predicate WfSys(s: System) {
    Wf(s.left) && Wf(s.right) && s.left.rows == s.right.rows
  }

  /** t has the shape of s. */
  ghost predicate SameShape(s: System, t: System) {
    WfSys(t) && t.left.rows == s.left.rows && t.left.cols == s.left.cols && t.right.cols == s.right.cols
  }

  /** x solves the system: left * x == right. */
  ghost predicate Solves(s: System, x: Mat)
    requires WfSys(s)
  {
    Wf(x) && x.rows == s.left.cols && x.cols == s.right.cols && MatMul(s.left, x) == s.right
  }

  /** The right side records the row operations done so far: right * m == left. */
  ghost predicate Tracks(s: System, m: Mat)
    requires WfSys(s)
  {
    Wf(m) && s.right.cols == m.rows && m.cols == s.left.cols && MatMul(s.right, m) == s.left
  }

  // ------------------------------------------------------------ row operations on both sides

  function SysSwap(s: System, i: nat, j: nat): (t: System)
    requires WfSys(s) && i < s.left.rows && j < s.left.rows
    ensures SameShape(s, t)
  {
    System(SwapRows(s.left, i, j), SwapRows(s.right, i, j))
  }

  function SysScale(s: System, i: nat, f: real): (t: System)
    requires WfSys(s) && i < s.left.rows
    ensures SameShape(s, t)
  {
    System(ScaleRow(s.left, i, f), ScaleRow(s.right, i, f))
  }

  function SysAddMultiple(s: System, target: nat, src: nat, k: real): (t: System)
    requires WfSys(s) && target < s.left.rows && src < s.left.rows
    ensures SameShape(s, t)
  {
    System(AddRowMultiple(s.left, target, src, k), AddRowMultiple(s.right, target, src, k))
  }

  /** Swapping two equations keeps exactly the same solutions. */
  lemma SwapSolutions(s: System, i: nat, j: nat, x: Mat)
    requires WfSys(s) && i < s.left.rows && j < s.left.rows
    ensures Solves(SysSwap(s, i, j), x) <==> Solves(s, x)
  {
    if Wf(x) && x.rows == s.left.cols && x.cols == s.right.cols {
      MatMulSwapRows(s.left, x, i, j);
      SwapRowsUndo(MatMul(s.left, x), i, j);
      SwapRowsUndo(s.right, i, j);
    }
  }

  /** Scaling an equation by a non-zero factor keeps exactly the same solutions. */
  lemma ScaleSolutions(s: System, i: nat, f: real, x: Mat)
    requires WfSys(s) && i < s.left.rows && f != 0.0
    ensures Solves(SysScale(s, i, f), x) <==> Solves(s, x)
  {
    if Wf(x) && x.rows == s.left.cols && x.cols == s.right.cols {
      MatMulScaleRow(s.left, x, i, f);
      ScaleRowUndo(MatMul(s.left, x), i, f);
      ScaleRowUndo(s.right, i, f);
    }
  }

  /** Adding a multiple of another equation keeps exactly the same solutions. */
  lemma AddMultipleSolutions(s: System, target: nat, src: nat, k: real, x: Mat)
    requires WfSys(s) && target < s.left.rows && src < s.left.rows && target != src
    ensures Solves(SysAddMultiple(s, target, src, k), x) <==> Solves(s, x)
  {
    if Wf(x) && x.rows == s.left.cols && x.cols == s.right.cols {
      MatMulAddRowMultiple(s.left, x, target, src, k);
      AddRowMultipleUndo(MatMul(s.left, x), target, src, k);
      AddRowMultipleUndo(s.right, target, src, k);
    }
  }

  lemma SwapTracks(s: System, i: nat, j: nat, m: Mat)
    requires WfSys(s) && i < s.left.rows && j < s.left.rows && Tracks(s, m)
    ensures Tracks(SysSwap(s, i, j), m)
  {
    MatMulSwapRows(s.right, m, i, j);
  }

  lemma ScaleTracks(s: System, i: nat, f: real, m: Mat)
    requires WfSys(s) && i < s.left.rows && Tracks(s, m)
    ensures Tracks(SysScale(s, i, f), m)
  {
    MatMulScaleRow(s.right, m, i, f);
  }

  lemma AddMultipleTracks(s: System, target: nat, src: nat, k: real, m: Mat)
    requires WfSys(s) && target < s.left.rows && src < s.left.rows && Tracks(s, m)
    ensures Tracks(SysAddMultiple(s, target, src, k), m)
  {
    MatMulAddRowMultiple(s.right, m, target, src, k);
  }

  // ------------------------------------------------------------------------- pivot search

  /** The first row at or after `from` whose entry in column `col` is at least Epsilon in magnitude. */
  function FirstPivot(m: Mat, col: nat, from: nat): (p: Option<nat>)
    requires Wf(m) && col < m.cols
    ensures p.Some? ==> from <= p.value < m.rows && Abs(m.cells[p.value][col]) >= Epsilon
    ensures p.Some? ==> forall r :: from <= r < p.value ==> Abs(m.cells[r][col]) < Epsilon
    ensures p.None? ==> forall r :: from <= r < m.rows ==> Abs(m.cells[r][col]) < Epsilon
    decreases m.rows - from
  {
    if from >= m.rows then None
    else if Abs(m.cells[from][col]) >= Epsilon then Some(from)
    else FirstPivot(m, col, from + 1)
  }

  // -------------------------------------------------- the steps of Matrix.inverse (matrix.mjs)

  ghost predicate Square(s: System) {
    WfSys(s) && s.left.rows == s.left.cols
  }

  /**
   * Step i's pivoting: keep row i when its diagonal entry is at least Epsilon in
   * magnitude, else swap in the first row below with a usable entry; singular when
   * there is none.
   */
  function Pivoted(s: System, i: nat): (r: Result<System>)
    requires Square(s) && i < s.left.rows
    ensures r.Err? <==> forall k :: i <= k < s.left.rows ==> Abs(s.left.cells[k][i]) < Epsilon
    ensures r.Err? ==> r.error == SingularMatrix
    ensures r.Ok? ==> SameShape(s, r.value) && Abs(r.value.left.cells[i][i]) >= Epsilon
  {
    if Abs(s.left.cells[i][i]) < Epsilon then
      match FirstPivot(s.left, i, i)
      case None => Err(SingularMatrix)
      case Some(p) => Ok(SysSwap(s, i, p))
    else Ok(s)
  }

  /** Rows j, j+1, ... lose their column-i entry by subtracting that multiple of row i. */
  function ElimBelow(s: System, i: nat, j: nat): (t: System)
    requires Square(s) && i < j <= s.left.rows
    ensures SameShape(s, t)
    decreases s.left.rows - j
  {
    if j == s.left.rows then s
    else ElimBelow(SysAddMultiple(s, j, i, -s.left.cells[j][i]), i, j + 1)
  }

  /** One pass of the forward loop: pivot, divide row i by its pivot, clear below. */
  function InverseStep(s: System, i: nat): (r: Result<System>)
    requires Square(s) && i < s.left.rows
    ensures r.Ok? ==> SameShape(s, r.value)
  {
    match Pivoted(s, i)
    case Err(e) => Err(e)
    case Ok(t) => Ok(ElimBelow(SysScale(t, i, 1.0 / t.left.cells[i][i]), i, i + 1))
  }

  /** The forward loop from row i on. */
  function Forward(s: System, i: nat): (r: Result<System>)
    requires Square(s) && i <= s.left.rows
    ensures r.Ok? ==> SameShape(s, r.value)
    decreases s.left.rows - i
  {
    if i == s.left.rows then Ok(s)
    else
      match InverseStep(s, i)
      case Err(e) => Err(e)
      case Ok(t) => assert SameShape(s, t); Forward(t, i + 1)
  }

  /** Rows r, r-1, ..., 0 lose their column-i entry by subtracting that multiple of row i. */
  function ClearAbove(s: System, i: nat, r: int): (t: System)
    requires Square(s) && i < s.left.rows && r < i
    ensures SameShape(s, t)
    decreases r + 1
  {
    if r < 0 then s
    else ClearAbove(SysAddMultiple(s, r, i, -s.left.cells[r][i]), i, r - 1)
  }

  /** The backward loop from column i down to column 1. */
  function Backward(s: System, i: int): (t: System)
    requires Square(s) && i < s.left.rows
    ensures SameShape(s, t)
    decreases i
  {
    if i <= 0 then s else Backward(ClearAbove(s, i, i - 1), i - 1)
  }

  /** What `inverse` returns or raises, for a matrix m. */
  function InverseSpec(m: Mat): (r: Result<Mat>)
    requires Wf(m)
  {
    if m.rows != m.cols then Err(NotSquare)
    else
      match Forward(System(m, Identity(m.rows)), 0)
      case Err(e) => Err(e)
      case Ok(s) => Ok(Backward(s, m.rows as int - 1).right)
  }

  // --------------------------------------- one iteration of each loop, for the methods

  lemma PivotedStays(s: System, i: nat)
    requires Square(s) && i < s.left.rows && Abs(s.left.cells[i][i]) >= Epsilon
    ensures Pivoted(s, i) == Ok(s)
  {
  }

  lemma PivotedSwaps(s: System, i: nat, p: nat)
    requires Square(s) && i < s.left.rows && Abs(s.left.cells[i][i]) < Epsilon
    requires FirstPivot(s.left, i, i) == Some(p)
    ensures Pivoted(s, i) == Ok(SysSwap(s, i, p))
  {
  }

  lemma ForwardStops(s: System, i: nat)
    requires Square(s) && i < s.left.rows && Pivoted(s, i).Err?
    ensures Forward(s, i) == Err(SingularMatrix)
  {
  }

  lemma ForwardStep(s: System, i: nat, pivoted: System, scaled: System, next: System)
    requires Square(s) && i < s.left.rows && Pivoted(s, i) == Ok(pivoted)
    requires scaled == SysScale(pivoted, i, 1.0 / pivoted.left.cells[i][i])
    requires next == ElimBelow(scaled, i, i + 1)
    ensures Square(next) && next.left.rows == s.left.rows
    ensures Forward(s, i) == Forward(next, i + 1)
  {
  }

  lemma ElimBelowStep(s: System, i: nat, j: nat, multiples: real, next: System, goal: System)
    requires Square(s) && i < j < s.left.rows && multiples == s.left.cells[j][i]
    requires next == SysAddMultiple(s, j, i, -multiples) && ElimBelow(s, i, j) == goal
    ensures Square(next) && next.left.rows == s.left.rows && ElimBelow(next, i, j + 1) == goal
  {
  }

  lemma ClearAboveStep(s: System, i: nat, r: nat, multiples: real, next: System, goal: System)
    requires Square(s) && r < i < s.left.rows && multiples == s.left.cells[r][i]
    requires next == SysAddMultiple(s, r, i, -multiples) && ClearAbove(s, i, r) == goal
    ensures Square(next) && next.left.rows == s.left.rows && ClearAbove(next, i, r as int - 1) == goal
  {
  }

  lemma BackwardStep(s: System, i: nat, next: System, goal: System)
    requires Square(s) && 0 < i < s.left.rows && next == ClearAbove(s, i, i - 1) && Backward(s, i) == goal
    ensures Square(next) && next.left.rows == s.left.rows && Backward(next, i - 1) == goal
  {
  }

  // ------------------------------------------------------------- both invariants, per pass

  /** All the solutions of a system. */
  ghost function Solutions(s: System): iset<Mat>
    requires WfSys(s)
  {
    iset x | Solves(s, x)
  }

  /** Every pass keeps the solutions of the system and the record right * m == left. */
  ghost predicate Keeps(s: System, t: System, m: Mat)
    requires WfSys(s) && WfSys(t)
  {
    (Tracks(s, m) ==> Tracks(t, m)) && Solutions(t) == Solutions(s)
  }

  lemma KeepsTransitive(s: System, t: System, u: System, m: Mat)
    requires WfSys(s) && WfSys(t) && WfSys(u) && Keeps(s, t, m) && Keeps(t, u, m)
    ensures Keeps(s, u, m)
  {
  }

  lemma SwapKeeps(s: System, i: nat, j: nat, m: Mat)
    requires WfSys(s) && i < s.left.rows && j < s.left.rows
    ensures Keeps(s, SysSwap(s, i, j), m)
  {
    forall x { SwapSolutions(s, i, j, x); }
    if Tracks(s, m) { SwapTracks(s, i, j, m); }
  }

  lemma ScaleKeeps(s: System, i: nat, f: real, m: Mat)
    requires WfSys(s) && i < s.left.rows && f != 0.0
    ensures Keeps(s, SysScale(s, i, f), m)
  {
    forall x { ScaleSolutions(s, i, f, x); }
    if Tracks(s, m) { ScaleTracks(s, i, f, m); }
  }

  lemma AddMultipleKeeps(s: System, target: nat, src: nat, k: real, m: Mat)
    requires WfSys(s) && target < s.left.rows && src < s.left.rows && target != src
    ensures Keeps(s, SysAddMultiple(s, target, src, k), m)
  {
    forall x { AddMultipleSolutions(s, target, src, k, x); }
    if Tracks(s, m) { AddMultipleTracks(s, target, src, k, m); }
  }

  lemma PivotedKeeps(s: System, i: nat, m: Mat)
    requires Square(s) && i < s.left.rows && Pivoted(s, i).Ok?
    ensures Keeps(s, Pivoted(s, i).value, m)
  {
    if Abs(s.left.cells[i][i]) < Epsilon {
      SwapKeeps(s, i, FirstPivot(s.left, i, i).value, m);
    }
  }

  lemma {:induction false} ElimBelowKeeps(s: System, i: nat, j: nat, m: Mat)
    requires Square(s) && i < j <= s.left.rows
    ensures Keeps(s, ElimBelow(s, i, j), m)
    decreases s.left.rows - j
  {
    if j < s.left.rows {
      var t := SysAddMultiple(s, j, i, -s.left.cells[j][i]);
      AddMultipleKeeps(s, j, i, -s.left.cells[j][i], m);
      ElimBelowKeeps(t, i, j + 1, m);
      KeepsTransitive(s, t, ElimBelow(t, i, j + 1), m);
    }
  }

  lemma InverseStepKeeps(s: System, i: nat, m: Mat)
    requires Square(s) && i < s.left.rows && InverseStep(s, i).Ok?
    ensures Keeps(s, InverseStep(s, i).value, m)
  {
    var t := Pivoted(s, i).value;
    PivotedKeeps(s, i, m);
    var f := 1.0 / t.left.cells[i][i];
    var u := SysScale(t, i, f);
    ScaleKeeps(t, i, f, m);
    KeepsTransitive(s, t, u, m);
    ElimBelowKeeps(u, i, i + 1, m);
    KeepsTransitive(s, u, ElimBelow(u, i, i + 1), m);
  }

  lemma {:induction false} ForwardKeeps(s: System, i: nat, m: Mat)
    requires Square(s) && i <= s.left.rows && Forward(s, i).Ok?
    ensures Keeps(s, Forward(s, i).value, m)
    decreases s.left.rows - i
  {
    if i < s.left.rows {
      var t := InverseStep(s, i).value;
      InverseStepKeeps(s, i, m);
      ForwardKeeps(t, i + 1, m);
      KeepsTransitive(s, t, Forward(t, i + 1).value, m);
    }
  }

  lemma {:induction false} ClearAboveKeeps(s: System, i: nat, r: int, m: Mat)
    requires Square(s) && i < s.left.rows && r < i
    ensures Keeps(s, ClearAbove(s, i, r), m)
    decreases r + 1
  {
    if r >= 0 {
      var t := SysAddMultiple(s, r, i, -s.left.cells[r][i]);
      AddMultipleKeeps(s, r, i, -s.left.cells[r][i], m);
      ClearAboveKeeps(t, i, r - 1, m);
      KeepsTransitive(s, t, ClearAbove(t, i, r - 1), m);
    }
  }

  lemma {:induction false} BackwardKeeps(s: System, i: int, m: Mat)
    requires Square(s) && i < s.left.rows
    ensures Keeps(s, Backward(s, i), m)
    decreases i
  {
    if i > 0 {
      var t := ClearAbove(s, i, i - 1);
      ClearAboveKeeps(s, i, i - 1, m);
      BackwardKeeps(t, i - 1, m);
      KeepsTransitive(s, t, Backward(t, i - 1), m);
    }
  }

  // ------------------------------------------------------------------- shape of the left side

  /** Columns before i are done: unit diagonal above, zeros below the diagonal. */
  ghost predicate Reduced(c: Mat, i: nat)
    requires Wf(c) && c.rows == c.cols
  {
    (forall r :: 0 <= r < i && r < c.rows ==> c.cells[r][r] == 1.0) &&
    (forall r, k :: 0 <= k < i && k < r < c.rows ==> c.cells[r][k] == 0.0)
  }

  /** Upper unit triangular, and every column after i is a unit column. */
  ghost predicate Cleared(c: Mat, i: int)
    requires Wf(c) && c.rows == c.cols
  {
    Reduced(c, c.rows) &&
    forall r, k :: i < k < c.rows && 0 <= k && 0 <= r < c.rows && r != k ==> c.cells[r][k] == 0.0
  }

  lemma PivotedReduced(s: System, i: nat)
    requires Square(s) && i < s.left.rows && Reduced(s.left, i) && Pivoted(s, i).Ok?
    ensures Reduced(Pivoted(s, i).value.left, i)
  {
  }

  lemma ScaleReduced(s: System, i: nat)
    requires Square(s) && i < s.left.rows && Reduced(s.left, i) && s.left.cells[i][i] != 0.0
    ensures Reduced(SysScale(s, i, 1.0 / s.left.cells[i][i]).left, i)
    ensures SysScale(s, i, 1.0 / s.left.cells[i][i]).left.cells[i][i] == 1.0
  {
    var c := s.left;
    var d := SysScale(s, i, 1.0 / c.cells[i][i]).left;
    assert d.cells[i][i] == c.cells[i][i] * (1.0 / c.cells[i][i]);
    forall k | 0 <= k < i
      ensures d.cells[i][k] == 0.0
    {
      assert d.cells[i][k] == c.cells[i][k] * (1.0 / c.cells[i][i]);
    }
  }

  lemma {:induction false} ElimBelowReduced(s: System, i: nat, j: nat)
    requires Square(s) && i < j <= s.left.rows && Reduced(s.left, i) && s.left.cells[i][i] == 1.0
    requires forall r :: i < r < j ==> s.left.cells[r][i] == 0.0
    ensures Reduced(ElimBelow(s, i, j).left, i + 1)
    decreases s.left.rows - j
  {
    if j < s.left.rows {
      var c := s.left;
      var t := SysAddMultiple(s, j, i, -c.cells[j][i]);
      var d := t.left;
      assert d.cells[j] == AddMultiple(c.cells[j], -c.cells[j][i], c.cells[i]);
      assert d.cells[j][i] == 0.0;
      forall k | 0 <= k < i
        ensures d.cells[j][k] == 0.0
      {
        assert d.cells[j][k] == c.cells[j][k] + -c.cells[j][i] * c.cells[i][k];
      }
      ElimBelowReduced(t, i, j + 1);
    }
  }

  lemma InverseStepReduced(s: System, i: nat)
    requires Square(s) && i < s.left.rows && Reduced(s.left, i) && InverseStep(s, i).Ok?
    ensures Reduced(InverseStep(s, i).value.left, i + 1)
  {
    var t := Pivoted(s, i).value;
    PivotedReduced(s, i);
    ScaleReduced(t, i);
    ElimBelowReduced(SysScale(t, i, 1.0 / t.left.cells[i][i]), i, i + 1);
  }

  lemma {:induction false} ForwardReduced(s: System, i: nat)
    requires Square(s) && i <= s.left.rows && Reduced(s.left, i) && Forward(s, i).Ok?
    ensures Reduced(Forward(s, i).value.left, s.left.rows)
    decreases s.left.rows - i
  {
    if i < s.left.rows {
      InverseStepReduced(s, i);
      ForwardReduced(InverseStep(s, i).value, i + 1);
    }
  }

  lemma {:induction false} ClearAboveCleared(s: System, i: nat, r: int)
    requires Square(s) && i < s.left.rows && r < i && Cleared(s.left, i)
    requires forall r' :: r < r' < i && 0 <= r' ==> s.left.cells[r'][i] == 0.0
    ensures Cleared(ClearAbove(s, i, r).left, i - 1)
    decreases r + 1
  {
    var c := s.left;
    var n := c.rows;
    if r >= 0 {
      var t := SysAddMultiple(s, r, i, -c.cells[r][i]);
      var d := t.left;
      assert d.cells[r] == AddMultiple(c.cells[r], -c.cells[r][i], c.cells[i]);
      forall k | 0 <= k < n
        ensures d.cells[r][k] == if k == i then 0.0 else c.cells[r][k]
      {
        if k != i {
          assert c.cells[i][k] == 0.0;
        }
      }
      ClearAboveCleared(t, i, r - 1);
    }
  }

  lemma {:induction false} BackwardCleared(s: System, i: int)
    requires Square(s) && -1 <= i < s.left.rows && Cleared(s.left, i)
    ensures Cleared(Backward(s, i).left, 0)
    decreases i
  {
    if i > 0 {
      ClearAboveCleared(s, i, i - 1);
      BackwardCleared(ClearAbove(s, i, i - 1), i - 1);
    }
  }

  lemma ClearedIsIdentity(c: Mat)
    requires Wf(c) && c.rows == c.cols && Cleared(c, 0)
    ensures c == Identity(c.rows)
  {
    var id := Identity(c.rows);
    forall r | 0 <= r < c.rows
      ensures c.cells[r] == id.cells[r]
    {
    }
  }

  // ------------------------------------------------------------------------- correctness

  /** The system [m | I] after both passes of `inverse`, when the forward pass finds every pivot. */
  ghost function Reduction(m: Mat): (s: System)
    requires Wf(m) && m.rows == m.cols && Forward(System(m, Identity(m.rows)), 0).Ok?
    ensures SameShape(System(m, Identity(m.rows)), s)
  {
    Backward(Forward(System(m, Identity(m.rows)), 0).value, m.rows as int - 1)
  }

  /** The reduction keeps the solutions of [m | I] and still records the row operations. */
  lemma ReductionKeeps(m: Mat)
    requires Wf(m) && m.rows == m.cols && Forward(System(m, Identity(m.rows)), 0).Ok?
    ensures Tracks(Reduction(m), m)
    ensures Solutions(Reduction(m)) == Solutions(System(m, Identity(m.rows)))
  {
    var s0 := System(m, Identity(m.rows));
    var s1 := Forward(s0, 0).value;
    var s2 := Backward(s1, m.rows as int - 1);
    MatMulIdentityLeft(m);
    ForwardKeeps(s0, 0, m);
    BackwardKeeps(s1, m.rows as int - 1, m);
    KeepsTransitive(s0, s1, s2, m);
    assert s2 == Reduction(m);
  }

  /** The left side of the reduction is the identity. */
  lemma ReductionIsIdentity(m: Mat)
    requires Wf(m) && m.rows == m.cols && Forward(System(m, Identity(m.rows)), 0).Ok?
    ensures Reduction(m).left == Identity(m.rows)
  {
    var n := m.rows;
    var s0 := System(m, Identity(n));
    var s1 := Forward(s0, 0).value;
    var s2 := Reduction(m);
    assert Reduced(s0.left, 0);
    ForwardReduced(s0, 0);
    assert Cleared(s1.left, n as int - 1);
    BackwardCleared(s1, n as int - 1);
    assert s2.left.rows == n && s2.left.cols == n;
    assert Cleared(s2.left, 0);
    ClearedIsIdentity(s2.left);
  }

  lemma InverseSpecReduces(m: Mat)
    requires Wf(m) && InverseSpec(m).Ok?
    ensures m.rows == m.cols && Forward(System(m, Identity(m.rows)), 0).Ok?
    ensures Reduction(m).left == Identity(m.rows) && Reduction(m).right == InverseSpec(m).value
    ensures Tracks(Reduction(m), m)
    ensures Solutions(Reduction(m)) == Solutions(System(m, Identity(m.rows)))
  {
    ReductionKeeps(m);
    ReductionIsIdentity(m);
  }

  /** When `inverse` returns R for m, R is the one and only matrix x with m * x == I. */
  lemma InverseSpecUnique(m: Mat)
    requires Wf(m) && InverseSpec(m).Ok?
    ensures m.rows == m.cols
    ensures forall x :: Wf(x) && x.rows == m.rows && x.cols == m.rows ==>
      (MatMul(m, x) == Identity(m.rows) <==> x == InverseSpec(m).value)
  {
    InverseSpecReduces(m);
    var n := m.rows;
    var s0 := System(m, Identity(n));
    var s2 := Reduction(m);
    var r := s2.right;
    forall x | Wf(x) && x.rows == n && x.cols == n
      ensures MatMul(m, x) == Identity(n) <==> x == r
    {
      MatMulIdentityLeft(x);
      assert Solves(s2, x) <==> x == r;
      assert Solves(s0, x) <==> MatMul(m, x) == Identity(n);
      assert x in Solutions(s2) <==> x in Solutions(s0);
    }
  }

  /** When `inverse` returns R for m, then m * R == I and R * m == I. */
  lemma InverseSpecCorrect(m: Mat)
    requires Wf(m) && InverseSpec(m).Ok?
    ensures m.rows == m.cols
    ensures MatMul(m, InverseSpec(m).value) == Identity(m.rows)
    ensures MatMul(InverseSpec(m).value, m) == Identity(m.rows)
  {
    InverseSpecReduces(m);
    InverseSpecUnique(m);
  }
}
