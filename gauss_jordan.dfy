/**
 * `AugmentedMatrix.gje` on values. Unlike the older `inverse`, the elimination of
 * augmented-matrix.mjs works on any shape: a column without a usable pivot is skipped
 * instead of raising, the pivot row is divided by its pivot and then `clearOutRows`
 * subtracts (entry / pivot value) times it from the rows below, and a backward pass
 * clears above each diagonal entry. It also keeps the determinant bookkeeping: the
 * number of swaps and the product of the pivots it divided by.
 */
module GaussJordan {
  import opened Wrappers
  import opened Numbers
  import opened MatrixValues
  import opened Elimination

  // ---------------------------------------------------------------------- clearOutRows

  /** What a row clears with: minus its entry in the pivot column over the pivot value. */
  function Multiplier(entry: real, pv: real): real
    requires pv != 0.0
  {
    -(entry / pv)
  }

  /** Rows t, t + 1, ... each lose (their column-p entry / pv) times row p. */
  function ClearDown(s: System, p: nat, t: nat, pv: real): (u: System)
    requires WfSys(s) && p < s.left.rows && p < s.left.cols && p < t <= s.left.rows && pv != 0.0
    ensures SameShape(s, u)
    decreases s.left.rows - t
  {
    if t == s.left.rows then s
    else ClearDown(SysAddMultiple(s, t, p, Multiplier(s.left.cells[t][p], pv)), p, t + 1, pv)
  }

  /** Rows t, t - 1, ..., 0 each lose (their column-p entry / pv) times row p. */
  function ClearUp(s: System, p: nat, t: int, pv: real): (u: System)
    requires WfSys(s) && p < s.left.rows && p < s.left.cols && t < p && pv != 0.0
    ensures SameShape(s, u)
    decreases t + 1
  {
    if t < 0 then s
    else ClearUp(SysAddMultiple(s, t, p, Multiplier(s.left.cells[t][p], pv)), p, t - 1, pv)
  }

  /**
   * `clearOutRows(p, direction)` with (p, p) in range: nothing when the signed pivot
   * value is below Epsilon, else every row below (or above) p is cleared against row p.
   */
  function ClearOut(s: System, p: nat, up: bool): (u: System)
    requires WfSys(s) && p < s.left.rows && p < s.left.cols
    ensures SameShape(s, u)
  {
    var pv := s.left.cells[p][p];
    if pv < Epsilon then s
    else if up then ClearUp(s, p, p - 1, pv)
    else ClearDown(s, p, p + 1, pv)
  }

  /** One pass of the downward loop, for the method that runs it. */
  lemma ClearDownStep(s: System, p: nat, t: nat, pv: real, next: System, goal: System)
    requires WfSys(s) && p < s.left.rows && p < s.left.cols && p < t < s.left.rows && pv != 0.0
    requires next == SysAddMultiple(s, t, p, Multiplier(s.left.cells[t][p], pv)) && ClearDown(s, p, t, pv) == goal
    ensures SameShape(s, next) && ClearDown(next, p, t + 1, pv) == goal
  {
  }

  /** One pass of the upward loop, for the method that runs it. */
  lemma ClearUpStep(s: System, p: nat, t: nat, pv: real, next: System, goal: System)
    requires WfSys(s) && p < s.left.rows && p < s.left.cols && t < p && pv != 0.0
    requires next == SysAddMultiple(s, t, p, Multiplier(s.left.cells[t][p], pv)) && ClearUp(s, p, t, pv) == goal
    ensures SameShape(s, next) && ClearUp(next, p, t as int - 1, pv) == goal
  {
  }

  /** Clearing from row t downwards leaves the rows before t alone. */
  lemma {:induction false} ClearDownKept(s: System, p: nat, t: nat, pv: real)
    requires WfSys(s) && p < s.left.rows && p < s.left.cols && p < t <= s.left.rows && pv != 0.0
    ensures forall r :: 0 <= r < t ==>
      ClearDown(s, p, t, pv).left.cells[r] == s.left.cells[r] && ClearDown(s, p, t, pv).right.cells[r] == s.right.cells[r]
    decreases s.left.rows - t
  {
    if t < s.left.rows {
      ClearDownKept(SysAddMultiple(s, t, p, Multiplier(s.left.cells[t][p], pv)), p, t + 1, pv);
    }
  }

  /**
   * Every row r from t on becomes row r less (its column-p entry / pv) times row p:
   * the loop is the same as updating each row on its own against the original row p.
   */
  lemma {:induction false} ClearDownRows(s: System, p: nat, t: nat, pv: real)
    requires WfSys(s) && p < s.left.rows && p < s.left.cols && p < t <= s.left.rows && pv != 0.0
    ensures forall r :: t <= r < s.left.rows ==>
      ClearDown(s, p, t, pv).left.cells[r] == AddMultiple(s.left.cells[r], Multiplier(s.left.cells[r][p], pv), s.left.cells[p])
    ensures forall r :: t <= r < s.left.rows ==>
      ClearDown(s, p, t, pv).right.cells[r] == AddMultiple(s.right.cells[r], Multiplier(s.left.cells[r][p], pv), s.right.cells[p])
    decreases s.left.rows - t
  {
    if t < s.left.rows {
      var next := SysAddMultiple(s, t, p, Multiplier(s.left.cells[t][p], pv));
      ClearDownRows(next, p, t + 1, pv);
      ClearDownKept(next, p, t + 1, pv);
      assert next.left.cells[p] == s.left.cells[p] && next.right.cells[p] == s.right.cells[p];
      forall r | t < r < s.left.rows
        ensures next.left.cells[r] == s.left.cells[r] && next.right.cells[r] == s.right.cells[r]
      {
      }
    }
  }

  /** Clearing from row t upwards leaves the rows after t alone. */
  lemma {:induction false} ClearUpKept(s: System, p: nat, t: int, pv: real)
    requires WfSys(s) && p < s.left.rows && p < s.left.cols && t < p && pv != 0.0
    ensures forall r :: t < r < s.left.rows && 0 <= r ==>
      ClearUp(s, p, t, pv).left.cells[r] == s.left.cells[r] && ClearUp(s, p, t, pv).right.cells[r] == s.right.cells[r]
    decreases t + 1
  {
    if t >= 0 {
      ClearUpKept(SysAddMultiple(s, t, p, Multiplier(s.left.cells[t][p], pv)), p, t - 1, pv);
    }
  }

  /** Every row r from t down to 0 becomes row r less (its column-p entry / pv) times row p. */
  lemma {:induction false} ClearUpRows(s: System, p: nat, t: int, pv: real)
    requires WfSys(s) && p < s.left.rows && p < s.left.cols && t < p && pv != 0.0
    ensures forall r :: 0 <= r <= t ==>
      ClearUp(s, p, t, pv).left.cells[r] == AddMultiple(s.left.cells[r], Multiplier(s.left.cells[r][p], pv), s.left.cells[p])
    ensures forall r :: 0 <= r <= t ==>
      ClearUp(s, p, t, pv).right.cells[r] == AddMultiple(s.right.cells[r], Multiplier(s.left.cells[r][p], pv), s.right.cells[p])
    decreases t + 1
  {
    if t >= 0 {
      var next := SysAddMultiple(s, t, p, Multiplier(s.left.cells[t][p], pv));
      ClearUpRows(next, p, t - 1, pv);
      ClearUpKept(next, p, t - 1, pv);
      assert next.left.cells[p] == s.left.cells[p] && next.right.cells[p] == s.right.cells[p];
      forall r | 0 <= r < t
        ensures next.left.cells[r] == s.left.cells[r] && next.right.cells[r] == s.right.cells[r]
      {
      }
    }
  }

  /**
   * With a usable pivot value, `clearOutRows` zeroes column p in every row on the side
   * it clears, each by subtracting (its entry / pivot value) times row p from both
   * sides; row p and the rows on the other side keep both sides.
   */
  lemma ClearOutZeroes(s: System, p: nat, up: bool)
    requires WfSys(s) && p < s.left.rows && p < s.left.cols && s.left.cells[p][p] >= Epsilon
    ensures forall r :: 0 <= r < s.left.rows && ((up && r < p) || (!up && r > p)) ==>
      ClearOut(s, p, up).left.cells[r] ==
        AddMultiple(s.left.cells[r], -(s.left.cells[r][p] / s.left.cells[p][p]), s.left.cells[p]) &&
      ClearOut(s, p, up).right.cells[r] ==
        AddMultiple(s.right.cells[r], -(s.left.cells[r][p] / s.left.cells[p][p]), s.right.cells[p])
    ensures forall r :: 0 <= r < s.left.rows && ((up && r < p) || (!up && r > p)) ==>
      ClearOut(s, p, up).left.cells[r][p] == 0.0
    ensures forall r :: 0 <= r < s.left.rows && !((up && r < p) || (!up && r > p)) ==>
      ClearOut(s, p, up).left.cells[r] == s.left.cells[r] && ClearOut(s, p, up).right.cells[r] == s.right.cells[r]
  {
    var pv := s.left.cells[p][p];
    if up {
      ClearUpRows(s, p, p - 1, pv);
      ClearUpKept(s, p, p - 1, pv);
    } else {
      ClearDownRows(s, p, p + 1, pv);
      ClearDownKept(s, p, p + 1, pv);
    }
    forall r | 0 <= r < s.left.rows && ((up && r < p) || (!up && r > p))
      ensures ClearOut(s, p, up).left.cells[r][p] == 0.0
    {
      ZeroedEntry(s.left.cells[r], s.left.cells[p], p);
    }
  }

  /** Subtracting (u[p] / w[p]) times w from u zeroes entry p. */
  lemma ZeroedEntry(u: seq<real>, w: seq<real>, p: nat)
    requires |u| == |w| && p < |u| && w[p] != 0.0
    ensures AddMultiple(u, -(u[p] / w[p]), w)[p] == 0.0
  {
  }

  // ------------------------------------------------------------------------------ gje

  /** The state of the forward loop: the system and the determinant bookkeeping. */
  datatype Progress = Progress(sys: System, swaps: nat, totalScale: real)

  /**
   * One pass of the forward loop, for column `row`: nothing when the column has no
   * usable pivot at or below the diagonal; else swap the pivot row up (one more swap),
   * multiply the total scale by the pivot, divide row `row` by it and clear below.
   */
  function GjeStep(g: Progress, row: nat): (h: Progress)
    requires WfSys(g.sys) && row < g.sys.left.rows && row < g.sys.left.cols
    ensures SameShape(g.sys, h.sys)
  {
    var s := g.sys;
    match FirstPivot(s.left, row, row)
    case None => g
    case Some(p) =>
      var swapped := if p != row then SysSwap(s, row, p) else s;
      var swaps := if p != row then g.swaps + 1 else g.swaps;
      var scaleFactor := swapped.left.cells[row][row];
      var scaled := SysScale(swapped, row, 1.0 / scaleFactor);
      Progress(ClearOut(scaled, row, false), swaps, ScaledBy(g.totalScale, scaleFactor))
  }

  /** `totalScale *= scaleFactor`: the running product of the pivots divided out. */
  function ScaledBy(totalScale: real, scaleFactor: real): real {
    totalScale * scaleFactor
  }

  function Min(a: nat, b: nat): nat {
    if a < b then a else b
  }

  /** The forward loop from column `row` up to min(rows, cols). */
  function GjeForward(g: Progress, row: nat): (h: Progress)
    requires WfSys(g.sys) && row <= Min(g.sys.left.rows, g.sys.left.cols)
    ensures SameShape(g.sys, h.sys)
    decreases Min(g.sys.left.rows, g.sys.left.cols) - row
  {
    if row == Min(g.sys.left.rows, g.sys.left.cols) then g
    else GjeForward(GjeStep(g, row), row + 1)
  }

  /**
   * The backward loop from `row` down to 1: `clearOutRows(row, 'up')`, which raises a
   * RangeError as soon as (row, row) is outside the left side.
   */
  function GjeBackward(s: System, row: int): (r: Result<System>)
    requires WfSys(s) && row < s.left.rows
    ensures r.Ok? ==> SameShape(s, r.value)
    decreases row
  {
    if row <= 0 then Ok(s)
    else if row >= s.left.cols then Err(RangeError)
    else GjeBackward(ClearOut(s, row, true), row - 1)
  }

  /** A pass of the forward loop over a column with no usable pivot changes nothing. */
  lemma GjeStepSkips(g: Progress, row: nat)
    requires WfSys(g.sys) && row < g.sys.left.rows && row < g.sys.left.cols
    requires FirstPivot(g.sys.left, row, row).None?
    ensures GjeStep(g, row) == g
  {
  }

  /**
   * A pass of the forward loop with pivot row p, given the systems after each of its
   * steps, the new swap count and the new total scale.
   */
  lemma GjeStepTaken(g: Progress, row: nat, p: nat, swapped: System, h: Progress)
    requires WfSys(g.sys) && row < g.sys.left.rows && row < g.sys.left.cols
    requires FirstPivot(g.sys.left, row, row) == Some(p)
    requires swapped == if p != row then SysSwap(g.sys, row, p) else g.sys
    requires swapped.left.cells[row][row] != 0.0
    requires h.sys == ClearOut(SysScale(swapped, row, 1.0 / swapped.left.cells[row][row]), row, false)
    requires h.swaps == if p != row then g.swaps + 1 else g.swaps
    requires h.totalScale == ScaledBy(g.totalScale, swapped.left.cells[row][row])
    ensures GjeStep(g, row) == h
  {
  }

  /** One pass of the forward loop, for the method that runs it. */
  lemma GjeForwardStep(g: Progress, row: nat, next: Progress, goal: Progress)
    requires WfSys(g.sys) && row < Min(g.sys.left.rows, g.sys.left.cols)
    requires next == GjeStep(g, row) && GjeForward(g, row) == goal
    ensures SameShape(g.sys, next.sys) && GjeForward(next, row + 1) == goal
  {
  }

  /** One pass of the backward loop, for the method that runs it. */
  lemma GjeBackwardStep(s: System, row: nat, next: System, goal: Result<System>)
    requires WfSys(s) && 0 < row < s.left.rows && row < s.left.cols
    requires next == ClearOut(s, row, true) && GjeBackward(s, row) == goal
    ensures SameShape(s, next) && GjeBackward(next, row - 1) == goal
  {
  }

  /** x to the power n. */
  function Power(x: real, n: nat): real {
    if n == 0 then 1.0 else x * Power(x, n - 1)
  }

  /** What `gje` returns: the reduced sides and `scaledDown`. */
  datatype Eliminated = Eliminated(left: Mat, right: Mat, scaledDown: real)

  /** `gje()` on the system s. */
  function Gje(s: System): (r: Result<Eliminated>)
    requires WfSys(s)
    ensures r.Ok? ==> SameShape(s, System(r.value.left, r.value.right))
  {
    var f := GjeForward(Progress(s, 0, 1.0), 0);
    match GjeBackward(f.sys, s.left.rows as int - 1)
    case Err(e) => Err(e)
    case Ok(t) => Ok(Eliminated(t.left, t.right, ScaledDown(f.swaps, f.totalScale)))
  }

  /** `scaledDown`: (-1)^swaps times the product of the pivots divided out. */
  function ScaledDown(swaps: nat, totalScale: real): real {
    Power(-1.0, swaps) * totalScale
  }

  /** (-1)^n is 1 for an even number of swaps and -1 for an odd one. */
  lemma {:induction false} MinusOnePower(n: nat)
    ensures Power(-1.0, n) == if n % 2 == 0 then 1.0 else -1.0
  {
    if n > 0 {
      MinusOnePower(n - 1);
    }
  }

  // ------------------------------------------------------------------ when gje raises

  lemma {:induction false} GjeBackwardFails(s: System, row: int)
    requires WfSys(s) && row < s.left.rows
    ensures GjeBackward(s, row).Err? <==> row > 0 && row >= s.left.cols
    ensures GjeBackward(s, row).Err? ==> GjeBackward(s, row).error == RangeError
    decreases row
  {
    if 0 < row < s.left.cols {
      GjeBackwardFails(ClearOut(s, row, true), row - 1);
    }
  }

  /**
   * `gje` raises (a RangeError, from the backward pass) exactly when the left side has
   * at least two rows and more rows than columns.
   */
  lemma GjeFails(s: System)
    requires WfSys(s)
    ensures Gje(s).Err? <==> s.left.rows >= 2 && s.left.rows > s.left.cols
    ensures Gje(s).Err? ==> Gje(s).error == RangeError
  {
    var f := GjeForward(Progress(s, 0, 1.0), 0);
    GjeBackwardFails(f.sys, s.left.rows as int - 1);
  }

  // ------------------------------------------------- gje keeps the solutions of the system

  lemma {:induction false} ClearDownKeeps(s: System, p: nat, t: nat, pv: real, m: Mat)
    requires WfSys(s) && p < s.left.rows && p < s.left.cols && p < t <= s.left.rows && pv != 0.0
    ensures Keeps(s, ClearDown(s, p, t, pv), m)
    decreases s.left.rows - t
  {
    if t < s.left.rows {
      var k := Multiplier(s.left.cells[t][p], pv);
      var next := SysAddMultiple(s, t, p, k);
      AddMultipleKeeps(s, t, p, k, m);
      ClearDownKeeps(next, p, t + 1, pv, m);
      KeepsTransitive(s, next, ClearDown(next, p, t + 1, pv), m);
    }
  }

  lemma {:induction false} ClearUpKeeps(s: System, p: nat, t: int, pv: real, m: Mat)
    requires WfSys(s) && p < s.left.rows && p < s.left.cols && t < p && pv != 0.0
    ensures Keeps(s, ClearUp(s, p, t, pv), m)
    decreases t + 1
  {
    if t >= 0 {
      var k := Multiplier(s.left.cells[t][p], pv);
      var next := SysAddMultiple(s, t, p, k);
      AddMultipleKeeps(s, t, p, k, m);
      ClearUpKeeps(next, p, t - 1, pv, m);
      KeepsTransitive(s, next, ClearUp(next, p, t - 1, pv), m);
    }
  }

  lemma ClearOutKeeps(s: System, p: nat, up: bool, m: Mat)
    requires WfSys(s) && p < s.left.rows && p < s.left.cols
    ensures Keeps(s, ClearOut(s, p, up), m)
  {
    var pv := s.left.cells[p][p];
    if pv >= Epsilon {
      if up {
        ClearUpKeeps(s, p, p - 1, pv, m);
      } else {
        ClearDownKeeps(s, p, p + 1, pv, m);
      }
    }
  }

  lemma GjeStepKeeps(g: Progress, row: nat, m: Mat)
    requires WfSys(g.sys) && row < g.sys.left.rows && row < g.sys.left.cols
    ensures Keeps(g.sys, GjeStep(g, row).sys, m)
  {
    var s := g.sys;
    match FirstPivot(s.left, row, row)
    case None =>
    case Some(p) =>
      var swapped := if p != row then SysSwap(s, row, p) else s;
      SwapKeeps(s, row, p, m);
      var scaleFactor := swapped.left.cells[row][row];
      var scaled := SysScale(swapped, row, 1.0 / scaleFactor);
      ScaleKeeps(swapped, row, 1.0 / scaleFactor, m);
      KeepsTransitive(s, swapped, scaled, m);
      ClearOutKeeps(scaled, row, false, m);
      KeepsTransitive(s, scaled, ClearOut(scaled, row, false), m);
  }

  lemma {:induction false} GjeForwardKeeps(g: Progress, row: nat, m: Mat)
    requires WfSys(g.sys) && row <= Min(g.sys.left.rows, g.sys.left.cols)
    ensures Keeps(g.sys, GjeForward(g, row).sys, m)
    decreases Min(g.sys.left.rows, g.sys.left.cols) - row
  {
    if row < Min(g.sys.left.rows, g.sys.left.cols) {
      var h := GjeStep(g, row);
      GjeStepKeeps(g, row, m);
      GjeForwardKeeps(h, row + 1, m);
      KeepsTransitive(g.sys, h.sys, GjeForward(h, row + 1).sys, m);
    }
  }

  lemma {:induction false} GjeBackwardKeeps(s: System, row: int, m: Mat)
    requires WfSys(s) && row < s.left.rows && GjeBackward(s, row).Ok?
    ensures Keeps(s, GjeBackward(s, row).value, m)
    decreases row
  {
    if row > 0 {
      var t := ClearOut(s, row, true);
      ClearOutKeeps(s, row, true, m);
      GjeBackwardKeeps(t, row - 1, m);
      KeepsTransitive(s, t, GjeBackward(t, row - 1).value, m);
    }
  }

  /**
   * Every row operation of `gje` is applied to both sides and is invertible, so the
   * reduced system has exactly the solutions of the original, and when the right side
   * recorded the row operations (right * m == left) it still does.
   */
  lemma GjeKeeps(s: System, m: Mat)
    requires WfSys(s) && Gje(s).Ok?
    ensures var e := Gje(s).value;
      WfSys(System(e.left, e.right)) && Keeps(s, System(e.left, e.right), m)
  {
    var f := GjeForward(Progress(s, 0, 1.0), 0);
    GjeForwardKeeps(Progress(s, 0, 1.0), 0, m);
    GjeBackwardKeeps(f.sys, s.left.rows as int - 1, m);
    KeepsTransitive(s, f.sys, GjeBackward(f.sys, s.left.rows as int - 1).value, m);
  }

  // --------------------------------------------- a square system with a pivot in every column

  /** With pivot value 1, clearing below is the forward elimination of `inverse`. */
  lemma {:induction false} ClearDownIsElimBelow(s: System, i: nat, j: nat)
    requires Square(s) && i < j <= s.left.rows
    ensures ClearDown(s, i, j, 1.0) == ElimBelow(s, i, j)
    decreases s.left.rows - j
  {
    if j < s.left.rows {
      assert s.left.cells[j][i] / 1.0 == s.left.cells[j][i];
      ClearDownIsElimBelow(SysAddMultiple(s, j, i, -s.left.cells[j][i]), i, j + 1);
    }
  }

  /** With pivot value 1, clearing above is the backward elimination of `inverse`. */
  lemma {:induction false} ClearUpIsClearAbove(s: System, i: nat, r: int)
    requires Square(s) && i < s.left.rows && r < i
    ensures ClearUp(s, i, r, 1.0) == ClearAbove(s, i, r)
    decreases r + 1
  {
    if r >= 0 {
      assert s.left.cells[r][i] / 1.0 == s.left.cells[r][i];
      ClearUpIsClearAbove(SysAddMultiple(s, r, i, -s.left.cells[r][i]), i, r - 1);
    }
  }

  /** Where column `row` has a usable pivot, a pass of `gje` is a pass of `inverse`. */
  lemma GjeStepIsInverseStep(g: Progress, row: nat)
    requires Square(g.sys) && row < g.sys.left.rows && InverseStep(g.sys, row).Ok?
    ensures GjeStep(g, row).sys == InverseStep(g.sys, row).value
  {
    var s := g.sys;
    var p := FirstPivot(s.left, row, row).value;
    var swapped := if p != row then SysSwap(s, row, p) else s;
    assert Pivoted(s, row) == Ok(swapped);
    var scaleFactor := swapped.left.cells[row][row];
    var scaled := SysScale(swapped, row, 1.0 / scaleFactor);
    assert scaled.left.cells[row][row] == scaleFactor * (1.0 / scaleFactor) == 1.0;
    ClearDownIsElimBelow(scaled, row, row + 1);
  }

  lemma {:induction false} GjeForwardIsForward(g: Progress, row: nat)
    requires Square(g.sys) && row <= g.sys.left.rows && Forward(g.sys, row).Ok?
    ensures GjeForward(g, row).sys == Forward(g.sys, row).value
    decreases g.sys.left.rows - row
  {
    if row < g.sys.left.rows {
      GjeStepIsInverseStep(g, row);
      GjeForwardIsForward(GjeStep(g, row), row + 1);
    }
  }

  lemma {:induction false} GjeBackwardIsBackward(s: System, row: int)
    requires Square(s) && -1 <= row < s.left.rows && Cleared(s.left, row)
    ensures GjeBackward(s, row) == Ok(Backward(s, row))
    decreases row
  {
    if row > 0 {
      assert s.left.cells[row][row] == 1.0;
      ClearUpIsClearAbove(s, row, row - 1);
      ClearAboveCleared(s, row, row - 1);
      GjeBackwardIsBackward(ClearAbove(s, row, row - 1), row - 1);
    }
  }

  /**
   * When every column of a square left side has a usable pivot at or below the
   * diagonal in turn, `gje` turns the left side into the identity and leaves on the
   * right the one and only solution x of left * x == right.
   */
  lemma GjeSolves(s: System)
    requires Square(s) && Forward(s, 0).Ok?
    ensures Gje(s).Ok? && Gje(s).value.left == Identity(s.left.rows)
    ensures Solves(s, Gje(s).value.right)
    ensures forall x :: Solves(s, x) ==> x == Gje(s).value.right
  {
    var n := s.left.rows;
    var g := Progress(s, 0, 1.0);
    var f := Forward(s, 0).value;
    GjeForwardIsForward(g, 0);
    assert Reduced(s.left, 0);
    ForwardReduced(s, 0);
    assert Cleared(f.left, n as int - 1);
    GjeBackwardIsBackward(f, n as int - 1);
    var t := Backward(f, n as int - 1);
    BackwardCleared(f, n as int - 1);
    ClearedIsIdentity(t.left);
    ForwardKeeps(s, 0, s.left);
    BackwardKeeps(f, n as int - 1, s.left);
    KeepsTransitive(s, f, t, s.left);
    assert Gje(s).value.right == t.right;
    MatMulIdentityLeft(t.right);
    assert t.right in Solutions(t);
    forall x | Solves(s, x)
      ensures x == t.right
    {
      assert x in Solutions(t);
      MatMulIdentityLeft(x);
    }
  }

  // -------------------------------------------------------------------------------- det

  /** The product of the first k diagonal entries. */
  function DiagonalProduct(m: Mat, k: nat): real
    requires Wf(m) && k <= m.rows && k <= m.cols
  {
    if k == 0 then 1.0 else DiagonalProduct(m, k - 1) * m.cells[k - 1][k - 1]
  }

  /**
   * `det()`: a dimension error unless square; else `gje` on [m | an n x 0 side], and the
   * product of the reduced diagonal times `scaledDown`.
   */
  function DetSpec(m: Mat): (r: Result<real>)
    requires Wf(m)
  {
    if m.rows != m.cols then Err(NotSquare)
    else match Gje(System(m, Zero(m.rows, 0)))
      case Err(e) => Err(e)
      case Ok(e) => Ok(ScaledBy(DiagonalProduct(e.left, m.rows), e.scaledDown))
  }

  /** `det()` raises exactly for a non-square matrix: a square system never trips `gje`'s backward pass. */
  lemma DetFails(m: Mat)
    requires Wf(m)
    ensures DetSpec(m).Err? <==> m.rows != m.cols
    ensures DetSpec(m).Err? ==> DetSpec(m).error == NotSquare
  {
    if m.rows == m.cols {
      GjeFails(System(m, Zero(m.rows, 0)));
    }
  }

  /** The identity's diagonal multiplies to 1. */
  lemma {:induction false} DiagonalOfIdentity(n: nat, k: nat)
    requires k <= n
    ensures DiagonalProduct(Identity(n), k) == 1.0
  {
    if k > 0 {
      DiagonalOfIdentity(n, k - 1);
    }
  }

  /**
   * When every column has a usable pivot in turn, the reduced diagonal is all ones and
   * `det()` is `scaledDown`, (-1)^swaps times the product of the pivots divided out.
   */
  lemma DetOfPivoted(m: Mat)
    requires Wf(m) && m.rows == m.cols && Forward(System(m, Zero(m.rows, 0)), 0).Ok?
    ensures Gje(System(m, Zero(m.rows, 0))).Ok? && DetSpec(m) == Ok(Gje(System(m, Zero(m.rows, 0))).value.scaledDown)
  {
    GjeSolves(System(m, Zero(m.rows, 0)));
    DiagonalOfIdentity(m.rows, m.rows);
  }
}
