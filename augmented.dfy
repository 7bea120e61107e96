/**
 * The linear system [L | R] of augmented-matrix.mjs. Both sides are `Matrix` objects,
 * and a row of the system is a pair of one-row views into them, so every row operation
 * of the elimination is done in place in the buffers of the whole system. Each method
 * here is proved to compute the value-level function of the same name in GaussJordan.
 */
module Augmented {
  import opened Wrappers
  import opened Numbers
  import opened MatrixValues
  import opened Layouts
  import opened Elimination
  import opened GaussJordan
  import opened Matrices

  /** What `gje` returns: the two sides it reduced in place, and `scaledDown`. */
  datatype GjeResult = GjeResult(leftHandSide: Matrix, rightHandSide: Matrix, scaledDown: real)

  class AugmentedMatrix {
    const left: Matrix
    const right: Matrix

    /** Two valid sides with the same number of rows, in separate buffers. */
    ghost predicate Valid() {
      left.Valid() && right.Valid() && left.rows == right.rows && left.data != right.data
    }

    /** The system this object shows. */
    ghost function Value(): (s: System)
      reads left.data, right.data
      requires Valid()
      ensures WfSys(s) && s.left.rows == left.rows && s.left.cols == left.cols && s.right.cols == right.cols
    {
      System(left.Value(), right.Value())
    }

    /** `new AugmentedMatrix(leftHandSide, rightHandSide)` once the row counts agree. */
    constructor (leftHandSide: Matrix, rightHandSide: Matrix)
      requires leftHandSide.Valid() && rightHandSide.Valid()
      requires leftHandSide.rows == rightHandSide.rows && leftHandSide.data != rightHandSide.data
      ensures Valid() && left == leftHandSide && right == rightHandSide
    {
      left := leftHandSide;
      right := rightHandSide;
    }

    /**
     * `getRow(row)`: the system made of the views of row `row` of both sides; they
     * share this system's buffers, so what is done to them is done to this system.
     */
    method GetRow(row: nat) returns (equation: AugmentedMatrix)
      requires Valid() && row < left.rows
      ensures fresh(equation) && equation.Valid()
      ensures equation.left.data == left.data && equation.right.data == right.data
      ensures equation.left.Shape() == Sub(left.Shape(), 0, left.cols, row, row + 1)
      ensures equation.right.Shape() == Sub(right.Shape(), 0, right.cols, row, row + 1)
      ensures equation.Value() == System(SubMat(Value().left, 0, left.cols, row, row + 1),
                                         SubMat(Value().right, 0, right.cols, row, row + 1))
    {
      var leftHandSide := left.Slice(0, left.cols, row, row + 1);
      var rightHandSide := right.Slice(0, right.cols, row, row + 1);
      equation := new AugmentedMatrix(leftHandSide, rightHandSide);
    }

    /** `multiply(factor)`: both sides multiplied by factor in their own cells; no other slot changes. */
    method Multiply(factor: real)
      requires Valid()
      modifies left.data, right.data
      ensures Value() == System(MatScale(old(Value()).left, factor), MatScale(old(Value()).right, factor))
      ensures left.OutsideUnchanged(old(left.data[..])) && right.OutsideUnchanged(old(right.data[..]))
    {
      left.ScaleInPlace(factor);
      right.ScaleInPlace(factor);
    }

    /**
     * `add(other)`: other's left side is added into the left side, then other's right
     * side into the right side. Each `add` raises on a shape mismatch, so a mismatch of
     * the right sides comes after the left side has been changed.
     */
    method Add(other: AugmentedMatrix) returns (o: Outcome)
      requires Valid() && other.Valid()
      requires other.left.data != left.data && other.left.data != right.data
      requires other.right.data != left.data && other.right.data != right.data
      modifies left.data, right.data
      ensures o.Pass? <==> other.left.rows == left.rows && other.left.cols == left.cols && other.right.cols == right.cols
      ensures o.Fail? ==> o.error == DimensionMismatch
      ensures other.left.rows == left.rows && other.left.cols == left.cols ==>
        left.Value() == MatAdd(old(left.Value()), other.left.Value())
      ensures !(other.left.rows == left.rows && other.left.cols == left.cols) ==> left.Value() == old(left.Value())
      ensures o.Pass? ==> right.Value() == MatAdd(old(right.Value()), other.right.Value())
      ensures o.Fail? ==> right.Value() == old(right.Value())
      ensures left.OutsideUnchanged(old(left.data[..])) && right.OutsideUnchanged(old(right.data[..]))
    {
      o := left.AddInPlace(other.left);
      if o.Fail? {
        return;
      }
      o := right.AddInPlace(other.right);
    }

    /** `rowSwap(rowOne, rowTwo)`: the two equations trade places on both sides. */
    method RowSwap(rowOne: nat, rowTwo: nat)
      requires Valid() && rowOne < left.rows && rowTwo < left.rows
      modifies left.data, right.data
      ensures Value() == SysSwap(old(Value()), rowOne, rowTwo)
      ensures left.OutsideUnchanged(old(left.data[..])) && right.OutsideUnchanged(old(right.data[..]))
    {
      left.RowSwap(rowOne, rowTwo);
      right.RowSwap(rowOne, rowTwo);
    }

    /** `copy()`: the same system in buffers of its own. */
    method Copy() returns (c: AugmentedMatrix)
      requires Valid()
      ensures fresh(c) && fresh(c.left) && fresh(c.right) && fresh(c.left.data) && fresh(c.right.data)
      ensures c.Valid() && c.left.Shape() == left.Shape() && c.right.Shape() == right.Shape()
      ensures c.Value() == Value()
    {
      var leftHandSide := left.Copy();
      var rightHandSide := right.Copy();
      c := new AugmentedMatrix(leftHandSide, rightHandSide);
    }

    /**
     * `clearOutRows(pivot, direction)`: a RangeError when (pivot, pivot) is outside the
     * left side; else the rows below (or, going up, above) the pivot row are cleared
     * against it as `ClearOut` says, which does nothing for a pivot value under Epsilon.
     */
    method ClearOutRows(pivot: nat, up: bool) returns (o: Outcome)
      requires Valid()
      modifies left.data, right.data
      ensures o.Pass? <==> pivot < left.rows && pivot < left.cols
      ensures o.Fail? ==> o.error == RangeError && Value() == old(Value())
      ensures o.Pass? ==> Value() == ClearOut(old(Value()), pivot, up)
    {
      if pivot >= left.rows || pivot >= left.cols {
        return Fail(RangeError);
      }
      var pivotRowEquation := GetRow(pivot);
      var pivotValue := left.Get(pivot, pivot).value;
      if pivotValue < Epsilon {
        return Pass;
      }
      if up {
        ClearUpward(pivotRowEquation, pivot, pivotValue);
      } else {
        ClearDownward(pivotRowEquation, pivot, pivotValue);
      }
      return Pass;
    }

    /** The loop of `clearOutRows(pivot, 'down')`, from the row below the pivot to the last. */
    method ClearDownward(pivotRowEquation: AugmentedMatrix, pivot: nat, pivotValue: real)
      requires Valid() && pivot < left.rows && pivot < left.cols && pivotValue != 0.0
      requires IsRowOf(pivotRowEquation, pivot)
      modifies left.data, right.data
      ensures Value() == ClearDown(old(Value()), pivot, pivot + 1, pivotValue)
    {
      ghost var goal := ClearDown(Value(), pivot, pivot + 1, pivotValue);
      ghost var cur := Value();
      for targetRow := pivot + 1 to left.rows
        invariant cur == Value() && ClearDown(cur, pivot, targetRow, pivotValue) == goal
      {
        SubtractPivotRow(pivotRowEquation, pivot, targetRow, pivotValue);
        ghost var next := Value();
        ClearDownStep(cur, pivot, targetRow, pivotValue, next, goal);
        cur := next;
      }
    }

    /** The loop of `clearOutRows(pivot, 'up')`, from the row above the pivot to row 0. */
    method ClearUpward(pivotRowEquation: AugmentedMatrix, pivot: nat, pivotValue: real)
      requires Valid() && pivot < left.rows && pivot < left.cols && pivotValue != 0.0
      requires IsRowOf(pivotRowEquation, pivot)
      modifies left.data, right.data
      ensures Value() == ClearUp(old(Value()), pivot, pivot as int - 1, pivotValue)
    {
      ghost var goal := ClearUp(Value(), pivot, pivot as int - 1, pivotValue);
      ghost var cur := Value();
      var targetRow: int := pivot as int - 1;
      while targetRow >= 0
        invariant -1 <= targetRow < pivot
        invariant cur == Value() && ClearUp(cur, pivot, targetRow, pivotValue) == goal
      {
        SubtractPivotRow(pivotRowEquation, pivot, targetRow, pivotValue);
        ghost var next := Value();
        ClearUpStep(cur, pivot, targetRow, pivotValue, next, goal);
        cur, targetRow := next, targetRow - 1;
      }
    }

    /** The views of row `row` of this system, as `getRow(row)` makes them. */
    ghost predicate IsRowOf(equation: AugmentedMatrix, row: nat)
      requires Valid() && row < left.rows
    {
      equation.Valid() && equation.left.data == left.data && equation.right.data == right.data &&
      equation.left.Shape() == Sub(left.Shape(), 0, left.cols, row, row + 1) &&
      equation.right.Shape() == Sub(right.Shape(), 0, right.cols, row, row + 1)
    }

    /**
     * One pass of `clearOutRows`' loop: row `target` of both sides loses
     * (its column-pivot entry / pivotValue) times the pivot row, by adding a scaled copy
     * of the pivot row's views into the target row's views.
     */
    method SubtractPivotRow(pivotRowEquation: AugmentedMatrix, pivot: nat, target: nat, pivotValue: real)
      requires Valid() && pivot < left.rows && pivot < left.cols && target < left.rows && pivotValue != 0.0
      requires IsRowOf(pivotRowEquation, pivot)
      modifies left.data, right.data
      ensures Value() == SysAddMultiple(old(Value()), target, pivot, Multiplier(old(Value()).left.cells[target][pivot], pivotValue))
    {
      ghost var s := Value();
      ReadSub(left.data[..], left.Shape(), 0, left.cols, pivot, pivot + 1);
      ReadSub(right.data[..], right.Shape(), 0, right.cols, pivot, pivot + 1);
      var factor := Multiplier(left.Get(pivot, target).value, pivotValue);
      var subtractOff := pivotRowEquation.ScaledCopy(factor);
      ScaledRowView(s.left, pivot, factor);
      ScaledRowView(s.right, pivot, factor);
      AddToRow(target, subtractOff);
      RowPlusScaled(s, target, pivot, factor);
    }

    /** `copy()` followed by `multiply(factor)`: a system of its own holding this one times factor. */
    method ScaledCopy(factor: real) returns (c: AugmentedMatrix)
      requires Valid()
      ensures fresh(c.left.data) && fresh(c.right.data) && c.Valid()
      ensures c.left.rows == left.rows && c.left.cols == left.cols && c.right.cols == right.cols
      ensures c.Value() == System(MatScale(Value().left, factor), MatScale(Value().right, factor))
    {
      c := Copy();
      c.Multiply(factor);
    }

    /**
     * `getRow(target).add(addend)` for a one-row addend: the single row of each side of
     * addend is added into row `target` of that side; no other row changes.
     */
    method AddToRow(target: nat, addend: AugmentedMatrix)
      requires Valid() && addend.Valid() && target < left.rows
      requires addend.left.rows == 1 && addend.left.cols == left.cols && addend.right.cols == right.cols
      requires addend.left.data != left.data && addend.left.data != right.data
      requires addend.right.data != left.data && addend.right.data != right.data
      modifies left.data, right.data
      ensures Value() == System(AddToRowOf(old(Value()).left, target, addend.Value().left.cells[0]),
                                AddToRowOf(old(Value()).right, target, addend.Value().right.cells[0]))
    {
      ghost var s := Value();
      ghost var leftBefore, rightBefore := left.data[..], right.data[..];
      var targetRowEquation := GetRow(target);
      var _ := targetRowEquation.Add(addend);
      RowWritten(left, targetRowEquation.left, leftBefore, target);
      RowWritten(right, targetRowEquation.right, rightBefore, target);
      SumRowView(s.left, target, addend.left.Value());
      SumRowView(s.right, target, addend.right.Value());
    }

    /** `getRow(row).multiply(factor)`: row `row` of both sides times factor; no other row changes. */
    method ScaleRowOfBoth(row: nat, factor: real)
      requires Valid() && row < left.rows
      modifies left.data, right.data
      ensures Value() == SysScale(old(Value()), row, factor)
    {
      ghost var s := Value();
      ghost var leftBefore, rightBefore := left.data[..], right.data[..];
      var equation := GetRow(row);
      equation.Multiply(factor);
      RowWritten(left, equation.left, leftBefore, row);
      RowWritten(right, equation.right, rightBefore, row);
      ScaledRowView(s.left, row, factor);
      ScaledRowView(s.right, row, factor);
    }

    /**
     * One pass of `gje`'s forward loop, for column `row`: nothing when no row at or
     * below the diagonal has a usable pivot; else swap it up (one more swap), multiply
     * the total scale by the pivot, divide the pivot row by it and clear below.
     */
    method EliminateColumn(row: nat, swaps: nat, totalScale: real) returns (newSwaps: nat, newTotalScale: real)
      requires Valid() && row < left.rows && row < left.cols
      modifies left.data, right.data
      ensures Progress(Value(), newSwaps, newTotalScale) == GjeStep(Progress(old(Value()), swaps, totalScale), row)
    {
      ghost var g := Progress(Value(), swaps, totalScale);
      var scaleFactor := left.Get(row, row).value;
      var pivot := left.FindFirstRowWithPivot(row);
      if pivot.None? {
        GjeStepSkips(g, row);
        return swaps, totalScale;
      }
      var p := pivot.value;
      if p != row {
        RowSwap(row, p);
        scaleFactor := left.Get(row, row).value;
      }
      newSwaps := if p != row then swaps + 1 else swaps;
      ghost var swapped := Value();
      newTotalScale := ScaledBy(totalScale, scaleFactor);
      assert Abs(swapped.left.cells[row][row]) >= Epsilon;
      DivideAndClear(row, scaleFactor);
      GjeStepTaken(g, row, p, swapped, Progress(Value(), newSwaps, newTotalScale));
    }

    /** The pivot row divided by its pivot value, then `clearOutRows(row, 'down')`. */
    method DivideAndClear(row: nat, scaleFactor: real)
      requires Valid() && row < left.rows && row < left.cols
      requires scaleFactor == Value().left.cells[row][row] && scaleFactor != 0.0
      modifies left.data, right.data
      ensures Value() == ClearOut(SysScale(old(Value()), row, 1.0 / old(Value()).left.cells[row][row]), row, false)
    {
      ScaleRowOfBoth(row, 1.0 / scaleFactor);
      var _ := ClearOutRows(row, false);
    }

    /**
     * `gje()`: the system is reduced in place and the same two matrices are returned,
     * with `scaledDown` = (-1)^swaps * totalScale, exactly as `GaussJordan.Gje` computes;
     * a RangeError from the backward pass is passed on.
     */
    method Gje() returns (r: Result<GjeResult>)
      requires Valid()
      modifies left.data, right.data
      ensures r.Ok? <==> GaussJordan.Gje(old(Value())).Ok?
      ensures r.Err? ==> r.error == GaussJordan.Gje(old(Value())).error
      ensures r.Ok? ==> r.value.leftHandSide == left && r.value.rightHandSide == right
      ensures r.Ok? ==> Value() == System(GaussJordan.Gje(old(Value())).value.left, GaussJordan.Gje(old(Value())).value.right)
      ensures r.Ok? ==> r.value.scaledDown == GaussJordan.Gje(old(Value())).value.scaledDown
    {
      var swaps, totalScale := ForwardPass();
      var o := BackwardPass();
      if o.Fail? {
        return Err(o.error);
      }
      return Ok(GjeResult(left, right, ScaledDown(swaps, totalScale)));
    }

    /** The forward loop of `gje`, with its swap count and total scale. */
    method ForwardPass() returns (swaps: nat, totalScale: real)
      requires Valid()
      modifies left.data, right.data
      ensures Progress(Value(), swaps, totalScale) == GjeForward(Progress(old(Value()), 0, 1.0), 0)
    {
      swaps, totalScale := 0, 1.0;
      ghost var goal := GjeForward(Progress(Value(), 0, 1.0), 0);
      ghost var cur := Progress(Value(), 0, 1.0);
      for row := 0 to Min(left.rows, left.cols)
        invariant cur == Progress(Value(), swaps, totalScale) && GjeForward(cur, row) == goal
      {
        swaps, totalScale := EliminateColumn(row, swaps, totalScale);
        ghost var next := Progress(Value(), swaps, totalScale);
        GjeForwardStep(cur, row, next, goal);
        cur := next;
      }
    }

    /** The backward loop of `gje`: `clearOutRows(row, 'up')` from the last row down to row 1. */
    method BackwardPass() returns (o: Outcome)
      requires Valid()
      modifies left.data, right.data
      ensures o.Pass? <==> GjeBackward(old(Value()), left.rows as int - 1).Ok?
      ensures o.Fail? ==> o.error == GjeBackward(old(Value()), left.rows as int - 1).error
      ensures o.Pass? ==> Value() == GjeBackward(old(Value()), left.rows as int - 1).value
    {
      ghost var goal := GjeBackward(Value(), left.rows as int - 1);
      if left.rows == 0 {
        return Pass;
      }
      for row := left.rows downto 1
        invariant GjeBackward(Value(), row as int - 1) == goal
      {
        ghost var cur := Value();
        o := ClearOutRows(row, true);
        if o.Fail? {
          return;
        }
        assert GjeBackward(cur, row) == goal;
        assert Value() == ClearOut(cur, row, true);
        assert 0 < row < cur.left.rows && row < cur.left.cols;
        GjeBackwardStep(cur, row, Value(), goal);
      }
      return Pass;
    }
  }

  /**
   * The constructor's check: a DimensionMismatch when a right side is given with a
   * different number of rows; without one, the right side is a fresh rows x 0 matrix.
   */
  method NewAugmentedMatrix(leftHandSide: Matrix, rightHandSide: Option<Matrix>) returns (r: Result<AugmentedMatrix>)
    requires leftHandSide.Valid() && (rightHandSide.Some? ==> rightHandSide.value.Valid())
    requires rightHandSide.Some? ==> rightHandSide.value.data != leftHandSide.data
    ensures r.Err? <==> rightHandSide.Some? && rightHandSide.value.rows != leftHandSide.rows
    ensures r.Err? ==> r.error == DimensionMismatch
    ensures r.Ok? ==> fresh(r.value) && r.value.Valid() && r.value.left == leftHandSide
    ensures r.Ok? && rightHandSide.Some? ==> r.value.right == rightHandSide.value
    ensures r.Ok? && rightHandSide.None? ==> fresh(r.value.right) && r.value.Value().right == Zero(leftHandSide.rows, 0)
  {
    if rightHandSide.Some? && leftHandSide.rows != rightHandSide.value.rows {
      return Err(DimensionMismatch);
    }
    var right: Matrix;
    if rightHandSide.Some? {
      right := rightHandSide.value;
    } else {
      right := new Matrix(leftHandSide.rows, 0, None, 0, 0, 0);
    }
    var system := new AugmentedMatrix(leftHandSide, right);
    return Ok(system);
  }

  /**
   * `det()`: a dimension error unless square; else `gje` on a copy with an empty right
   * side, and the product of the reduced diagonal times `scaledDown`. The receiver is
   * not changed.
   */
  method Det(m: Matrix) returns (r: Result<real>)
    requires m.Valid()
    ensures r == DetSpec(m.Value())
  {
    if m.rows != m.cols {
      return Err(NotSquare);
    }
    var leftHandSide := m.Copy();
    var rightHandSide := new Matrix(m.rows, 0, None, 0, 0, 0);
    var system := new AugmentedMatrix(leftHandSide, rightHandSide);
    assert system.Value() == System(m.Value(), Zero(m.rows, 0));
    var reduced := system.Gje();
    if reduced.Err? {
      return Err(reduced.error);
    }
    var product := DiagonalProductOf(reduced.value.leftHandSide);
    return Ok(ScaledBy(product, reduced.value.scaledDown));
  }

  /** The product of the diagonal entries of a square matrix, multiplied up from the top left. */
  method DiagonalProductOf(a: Matrix) returns (product: real)
    requires a.Valid() && a.rows == a.cols
    ensures product == DiagonalProduct(a.Value(), a.rows)
  {
    product := 1.0;
    for i := 0 to a.rows
      invariant product == DiagonalProduct(a.Value(), i)
    {
      product := product * a.Get(i, i).value;
    }
  }

  /**
   * A row view written in place: if the buffer changed only inside the view of row t,
   * the parent shows the view's row as its row t and its old rows everywhere else.
   */
  lemma RowWritten(parent: Matrix, view: Matrix, before: seq<real>, t: nat)
    requires parent.Valid() && view.Valid() && view.data == parent.data && t < parent.rows
    requires view.Shape() == Sub(parent.Shape(), 0, parent.cols, t, t + 1)
    requires view.OutsideUnchanged(before)
    ensures Fits(parent.Shape(), |before|)
    ensures parent.Value() ==
      Read(before, parent.Shape()).(cells := Read(before, parent.Shape()).cells[t := view.Value().cells[0]])
  {
    RowViewWritten(before, parent.data[..], parent.Shape(), t);
  }

  /** The one row of a row view, scaled by f, is that row scaled by f. */
  lemma ScaledRowView(a: Mat, row: nat, f: real)
    requires Wf(a) && row < a.rows
    ensures MatScale(SubMat(a, 0, a.cols, row, row + 1), f).cells[0] == Scaled(a.cells[row], f)
  {
    assert a.cells[row][0..a.cols] == a.cells[row];
  }

  /** Row t of m with the entries of u added in. */
  function AddToRowOf(m: Mat, t: nat, u: seq<real>): (x: Mat)
    requires Wf(m) && t < m.rows && |u| == m.cols
    ensures Wf(x) && x.rows == m.rows && x.cols == m.cols
  {
    m.(cells := m.cells[t := Plus(m.cells[t], u)])
  }

  /** The one row of (the view of row t) + v is row t plus the one row of v. */
  lemma SumRowView(a: Mat, t: nat, v: Mat)
    requires Wf(a) && Wf(v) && t < a.rows && v.rows == 1 && v.cols == a.cols
    ensures MatAdd(SubMat(a, 0, a.cols, t, t + 1), v).cells[0] == Plus(a.cells[t], v.cells[0])
  {
    assert a.cells[t][0..a.cols] == a.cells[t];
  }

  /** Adding k times row p into row t of both sides is the row operation of the system. */
  lemma RowPlusScaled(s: System, t: nat, p: nat, k: real)
    requires WfSys(s) && t < s.left.rows && p < s.left.rows
    ensures System(AddToRowOf(s.left, t, Scaled(s.left.cells[p], k)), AddToRowOf(s.right, t, Scaled(s.right.cells[p], k))) ==
      SysAddMultiple(s, t, p, k)
  {
    assert Plus(s.left.cells[t], Scaled(s.left.cells[p], k)) == AddMultiple(s.left.cells[t], k, s.left.cells[p]);
    assert Plus(s.right.cells[t], Scaled(s.right.cells[p], k)) == AddMultiple(s.right.cells[t], k, s.right.cells[p]);
  }
}
