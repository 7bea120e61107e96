/**
 * The strided dense matrix of matrix.mjs. A `Matrix` is a window (rows x cols, a row
 * size and two offsets) onto a flat buffer that other matrices may share: `Slice`
 * returns such views, and a write through a view is a write to its parent.
 */
module Matrices {
  import opened Wrappers
  import opened Numbers
  import opened MatrixValues
  import opened Layouts
  import opened Elimination

  /** What `dot` reads from a 1 x n or n x 1 matrix: a single row wins over a single column. */
  function Entries(m: Mat): (v: seq<real>)
    requires Wf(m) && (m.rows == 1 || m.cols == 1)
    ensures |v| == if m.rows == 1 then m.cols else m.rows
  {
    if m.rows == 1 then m.cells[0] else Column(m, 0)
  }

  /** A one-row sub-matrix reads as that row. */
  lemma RowOfSub(m: Mat, row: nat)
    requires Wf(m) && row < m.rows
    ensures Entries(SubMat(m, 0, m.cols, row, row + 1)) == m.cells[row]
  {
    assert m.cells[row][0..m.cols] == m.cells[row];
  }

  /** A one-column sub-matrix reads as that column. */
  lemma ColumnOfSub(m: Mat, col: nat)
    requires Wf(m) && col < m.cols
    ensures Entries(SubMat(m, col, col + 1, 0, m.rows)) == Column(m, col)
  {
    var v := SubMat(m, col, col + 1, 0, m.rows);
    if m.rows == 1 {
      assert v.cells[0] == m.cells[0][col..col + 1];
    } else {
      forall r | 0 <= r < m.rows
        ensures Column(v, 0)[r] == Column(m, col)[r]
      {
        assert v.cells[r] == m.cells[r][col..col + 1];
      }
    }
  }

  class Matrix {
    const rows: nat
    const cols: nat
    /** Distance in the buffer between the starts of consecutive rows. */
    const stride: nat
    const rowOffset: nat
    const colOffset: nat
    const data: array<real>

    function Shape(): Layout {
      Layout(rows, cols, stride, rowOffset, colOffset)
    }

    ghost predicate Valid() {
      Fits(Shape(), data.Length)
    }

    /** The matrix this object shows. */
    ghost function Value(): (m: Mat)
      reads data
      requires Valid()
      ensures Wf(m) && m.rows == rows && m.cols == cols
    {
      Read(data[..], Shape())
    }

    /** Every slot of the buffer outside this matrix's cells still holds what it held in `before`. */
    ghost predicate OutsideUnchanged(before: seq<real>)
      reads data
      requires Valid()
    {
      |before| == data.Length &&
      forall i :: 0 <= i < data.Length && i !in Footprint(Shape()) ==> data[i] == before[i]
    }

    /**
     * `new Matrix(rows, cols, data, dataRowSize, rowOffset, colOffset)`: without a
     * buffer a zero-filled rows * cols one is allocated; a row size of 0 means `cols`.
     */
    constructor (rows: nat, cols: nat, buffer: Option<array<real>>, dataRowSize: nat, rowOffset: nat, colOffset: nat)
      requires Fits(Layout(rows, cols, if dataRowSize == 0 then cols else dataRowSize, rowOffset, colOffset),
                    if buffer.Some? then buffer.value.Length else rows * cols)
      ensures Valid()
      ensures this.rows == rows && this.cols == cols
      ensures this.rowOffset == rowOffset && this.colOffset == colOffset
      ensures stride == if dataRowSize == 0 then cols else dataRowSize
      ensures buffer.Some? ==> data == buffer.value
      ensures buffer.None? ==> fresh(data) && Value() == Zero(rows, cols)
    {
      this.rows := rows;
      this.cols := cols;
      this.stride := if dataRowSize == 0 then cols else dataRowSize;
      this.rowOffset := rowOffset;
      this.colOffset := colOffset;
      if buffer.Some? {
        this.data := buffer.value;
      } else {
        this.data := new real[rows * cols](_ => 0.0);
      }
      new;
      if buffer.None? {
        var z := Zero(rows, cols);
        forall r | 0 <= r < rows
          ensures Value().cells[r] == z.cells[r]
        {
        }
      }
    }

    /** `_checkBounds`: a RangeError exactly when (c, r) lies outside [0, cols) x [0, rows). */
    function CheckBounds(c: int, r: int): (o: Outcome)
      ensures o.Pass? <==> 0 <= c < cols && 0 <= r < rows
      ensures o.Fail? ==> o.error == RangeError
    {
      if r < 0 || c < 0 || r >= rows || c >= cols then Fail(RangeError) else Pass
    }

    /** `_computeDataIndex`: the buffer slot of an in-range cell. */
    function DataIndex(c: nat, r: nat): (i: nat)
      requires Valid() && c < cols && r < rows
      ensures i < data.Length && i in Footprint(Shape())
    {
      Index(Shape(), c, r)
    }

    /** `get(c, r)`. */
    function Get(c: int, r: int): (x: Result<real>)
      reads data
      requires Valid()
      ensures x.Ok? <==> 0 <= c < cols && 0 <= r < rows
      ensures x.Err? ==> x.error == RangeError
      ensures x.Ok? ==> x.value == Value().cells[r][c]
    {
      match CheckBounds(c, r)
      case Fail(e) => Err(e)
      case Pass => Ok(data[DataIndex(c, r)])
    }

    /** `set(c, r, v)`: writes only the slot of (c, r), so only that cell changes. */
    method Set(c: int, r: int, v: real) returns (o: Outcome)
      requires Valid()
      modifies data
      ensures o.Pass? <==> 0 <= c < cols && 0 <= r < rows
      ensures o.Fail? ==> o.error == RangeError && data[..] == old(data[..])
      ensures o.Pass? ==> data[..] == old(data[..])[DataIndex(c, r) := v]
      ensures o.Pass? ==> Value() == Update(old(Value()), c, r, v)
    {
      o := CheckBounds(c, r);
      if o.Pass? {
        data[DataIndex(c, r)] := v;
        ReadAfterWrite(old(data[..]), Shape(), c, r, v);
      }
    }

    /**
     * `slice(c0, c1, r0, r1)`, with the receiver's own offsets added in: a view of
     * columns [c0, c1) and rows [r0, r1) that shares this buffer.
     */
    method Slice(colStart: nat, colEnd: nat, rowStart: nat, rowEnd: nat) returns (view: Matrix)
      requires Valid() && colStart <= colEnd <= cols && rowStart <= rowEnd <= rows
      ensures fresh(view) && view.Valid() && view.data == data
      ensures view.Shape() == Sub(Shape(), colStart, colEnd, rowStart, rowEnd)
      ensures view.Value() == SubMat(Value(), colStart, colEnd, rowStart, rowEnd)
    {
      view := new Matrix(rowEnd - rowStart, colEnd - colStart, Some(data), stride,
                         rowOffset + rowStart, colOffset + colStart);
      ReadSub(data[..], Shape(), colStart, colEnd, rowStart, rowEnd);
    }

    /** `slice` as matrix.mjs writes it: the view's origin ignores the receiver's offsets. */
    method SliceAsWritten(colStart: nat, colEnd: nat, rowStart: nat, rowEnd: nat) returns (view: Matrix)
      requires Valid() && colStart <= colEnd <= cols && rowStart <= rowEnd <= rows
      ensures fresh(view) && view.Valid() && view.data == data
      ensures view.Shape() == Layout(rowEnd - rowStart, colEnd - colStart, stride, rowStart, colStart)
    {
      MulMonotone(stride, rowEnd, rowOffset + rows);
      view := new Matrix(rowEnd - rowStart, colEnd - colStart, Some(data), stride, rowStart, colStart);
    }

    /** `copy`, keeping the receiver's layout: the same cells in a buffer of its own. */
    method Copy() returns (m: Matrix)
      requires Valid()
      ensures fresh(m) && fresh(m.data) && m.Valid() && m.Shape() == Shape()
      ensures m.Value() == Value()
    {
      var buf := new real[data.Length](i requires 0 <= i < data.Length reads data => data[i]);
      m := new Matrix(rows, cols, Some(buf), stride, rowOffset, colOffset);
      assert buf[..] == data[..];
    }

    /** `copy` as matrix.mjs writes it: the whole buffer, read back as a compact root matrix. */
    method CopyAsWritten() returns (m: Matrix)
      requires Valid()
      ensures fresh(m) && fresh(m.data) && m.Valid() && m.Shape() == Root(rows, cols)
      ensures m.data[..] == data[..]
    {
      var buf := new real[data.Length](i requires 0 <= i < data.Length reads data => data[i]);
      MulMonotone(rows, cols, stride);
      MulMonotone(stride, rows, rowOffset + rows);
      m := new Matrix(rows, cols, Some(buf), 0, 0, 0);
      assert buf[..] == data[..];
    }

    /**
     * `multiply(factor, this)`: every entry multiplied by factor, written back into this
     * matrix's own cells, so through a view into its parent; no other slot changes.
     */
    method ScaleInPlace(factor: real)
      requires Valid()
      modifies data
      ensures Value() == MatScale(old(Value()), factor)
      ensures OutsideUnchanged(old(data[..]))
    {
      ghost var m0 := Value();
      ghost var t := MatScale(m0, factor);
      MixedNone(m0, t);
      for row := 0 to rows
        invariant Value() == Mixed(m0, t, row, 0) && OutsideUnchanged(old(data[..]))
      {
        ScaleRowOf(row, factor, m0, t);
      }
      MixedAll(m0, t);
    }

    /** Row `row` of `multiply(factor, this)`, with the rows before it done. */
    method ScaleRowOf(row: nat, factor: real, ghost m0: Mat, ghost t: Mat)
      requires Valid() && row < rows && Wf(m0) && m0.rows == rows && m0.cols == cols
      requires t == MatScale(m0, factor) && Value() == Mixed(m0, t, row, 0)
      modifies data
      ensures Value() == Mixed(m0, t, row + 1, 0)
      ensures forall i :: 0 <= i < data.Length && i !in Footprint(Shape()) ==> data[i] == old(data[i])
    {
      for col := 0 to cols
        invariant Value() == Mixed(m0, t, row, col)
        invariant forall i :: 0 <= i < data.Length && i !in Footprint(Shape()) ==> data[i] == old(data[i])
      {
        ghost var x := Value();
        var entry := Get(col, row).value;
        var v := entry * factor;
        ScaleStep(m0, t, x, row, col, factor, entry, v);
        var _ := Set(col, row, v);
      }
      MixedNextRow(m0, t, row);
    }

    /**
     * `add(other, this)`: a dimension error unless the shapes agree; else each entry
     * of other is added into this matrix's own cells and no other slot changes.
     */
    method AddInPlace(other: Matrix) returns (o: Outcome)
      requires Valid() && other.Valid() && other.data != data
      modifies data
      ensures o.Pass? <==> other.rows == rows && other.cols == cols
      ensures o.Fail? ==> o.error == DimensionMismatch && data[..] == old(data[..])
      ensures o.Pass? ==> Value() == MatAdd(old(Value()), other.Value())
      ensures OutsideUnchanged(old(data[..]))
    {
      if other.rows != rows || other.cols != cols {
        return Fail(DimensionMismatch);
      }
      ghost var m0 := Value();
      ghost var t := MatAdd(m0, other.Value());
      MixedNone(m0, t);
      for row := 0 to rows
        invariant Value() == Mixed(m0, t, row, 0) && OutsideUnchanged(old(data[..]))
      {
        AddRowOf(other, row, m0, t);
      }
      MixedAll(m0, t);
      return Pass;
    }

    /** Row `row` of `add(other, this)`, with the rows before it done. */
    method AddRowOf(other: Matrix, row: nat, ghost m0: Mat, ghost t: Mat)
      requires Valid() && other.Valid() && other.data != data && other.rows == rows && other.cols == cols
      requires row < rows && Wf(m0) && m0.rows == rows && m0.cols == cols
      requires t == MatAdd(m0, other.Value()) && Value() == Mixed(m0, t, row, 0)
      modifies data
      ensures Value() == Mixed(m0, t, row + 1, 0)
      ensures forall i :: 0 <= i < data.Length && i !in Footprint(Shape()) ==> data[i] == old(data[i])
    {
      ghost var addend := other.Value();
      for col := 0 to cols
        invariant Value() == Mixed(m0, t, row, col) && other.Value() == addend
        invariant forall i :: 0 <= i < data.Length && i !in Footprint(Shape()) ==> data[i] == old(data[i])
      {
        ghost var x := Value();
        var mine := Get(col, row).value;
        var theirs := other.Get(col, row).value;
        var v := mine + theirs;
        AddStep(m0, addend, t, x, row, col, v);
        var _ := Set(col, row, v);
      }
      MixedNextRow(m0, t, row);
    }

    /** `rowSwap(rowOne, rowTwo)`: the two rows trade places, one column at a time. */
    method RowSwap(rowOne: nat, rowTwo: nat)
      requires Valid() && rowOne < rows && rowTwo < rows
      modifies data
      ensures Value() == SwapRows(old(Value()), rowOne, rowTwo)
      ensures OutsideUnchanged(old(data[..]))
    {
      ghost var m0 := Value();
      ghost var t := SwapRows(m0, rowOne, rowTwo);
      BlendNone(m0, t);
      for c := 0 to cols
        invariant Value() == Blend(m0, t, c) && OutsideUnchanged(old(data[..]))
      {
        BlendStepTwo(m0, t, c, rowOne, rowTwo);
        var myValue := Get(c, rowOne).value;
        var o := Set(c, rowOne, Get(c, rowTwo).value);
        o := Set(c, rowTwo, myValue);
      }
      BlendAll(m0, t);
    }

    /**
     * `findFirstRowWithPivot(column)`: the first row at or below the diagonal whose
     * entry in the column is at least Epsilon in magnitude, or none.
     */
    method FindFirstRowWithPivot(column: nat) returns (pivot: Option<nat>)
      requires Valid() && column < cols
      ensures pivot == FirstPivot(Value(), column, column)
    {
      if column >= rows {
        return None;
      }
      for r := column to rows
        invariant FirstPivot(Value(), column, r) == FirstPivot(Value(), column, column)
      {
        if Abs(Get(column, r).value) >= Epsilon {
          return Some(r);
        }
      }
      return None;
    }

    /** The length `dot` sees: the column count of a single row, else the row count of a single column. */
    function VectorLength(): (d: Option<nat>)
      ensures d.Some? <==> rows == 1 || cols == 1
      ensures d.Some? ==> d.value == if rows == 1 then cols else rows
    {
      if rows == 1 then Some(cols) else if cols == 1 then Some(rows) else None
    }

    /** Entry i of a single row or a single column, read the way `dot` reads it. */
    method Entry(i: nat) returns (x: real)
      requires Valid() && (rows == 1 || cols == 1) && i < |Entries(Value())|
      ensures x == Entries(Value())[i]
    {
      x := if rows == 1 then Get(i, 0).value else Get(0, i).value;
    }

    /**
     * `dot(vector)`: both operands must be a single row or a single column of the same
     * length; the result is the sum of the products of their entries.
     */
    method Dot(vector: Matrix) returns (r: Result<real>)
      requires Valid() && vector.Valid()
      ensures r.Ok? <==> ((rows == 1 || cols == 1) && (vector.rows == 1 || vector.cols == 1) &&
                          |Entries(Value())| == |Entries(vector.Value())|)
      ensures r.Err? ==> r.error == DimensionMismatch
      ensures r.Ok? ==> r.value == MatrixValues.Dot(Entries(Value()), Entries(vector.Value()))
    {
      var myDimensions, vectorDimensions := VectorLength(), vector.VectorLength();
      if vectorDimensions.None? || myDimensions.None? || vectorDimensions.value != myDimensions.value {
        return Err(DimensionMismatch);
      }
      ghost var u, w := Entries(Value()), Entries(vector.Value());
      var n := myDimensions.value;
      assert n == |u| == |w|;
      var dotProduct := 0.0;
      assert MatrixValues.Dot(u[..0], w[..0]) == 0.0;
      for i := 0 to n
        invariant dotProduct == MatrixValues.Dot(u[..i], w[..i])
      {
        var mine := Entry(i);
        var theirs := vector.Entry(i);
        DotAccumulate(u, w, i, dotProduct, mine, theirs);
        dotProduct := dotProduct + mine * theirs;
      }
      assert u[..n] == u && w[..n] == w;
      return Ok(dotProduct);
    }

    /** One cell of `multiply`: the dot product of a one-row view of this matrix and a one-column view of the other. */
    method RowTimesColumn(other: Matrix, row: nat, col: nat) returns (d: real)
      requires Valid() && other.Valid() && other.rows == cols && row < rows && col < other.cols
      ensures d == MatMul(Value(), other.Value()).cells[row][col]
    {
      var myRow := Slice(0, cols, row, row + 1);
      var otherCol := other.Slice(col, col + 1, 0, other.rows);
      RowOfSub(Value(), row);
      ColumnOfSub(other.Value(), col);
      var r := myRow.Dot(otherCol);
      d := r.value;
    }

    /**
     * `multiply(other)`: the product, each cell the dot product of a row view of this
     * matrix and a column view of the other; neither operand changes.
     */
    method Multiply(other: Matrix) returns (r: Result<Matrix>)
      requires Valid() && other.Valid()
      ensures r.Err? <==> other.rows != cols
      ensures r.Err? ==> r.error == DimensionMismatch
      ensures r.Ok? ==> fresh(r.value) && fresh(r.value.data) && r.value.Valid()
      ensures r.Ok? ==> r.value.Shape() == Root(rows, other.cols) && r.value.Value() == MatMul(Value(), other.Value())
    {
      if other.rows != cols {
        return Err(DimensionMismatch);
      }
      ghost var a, b := Value(), other.Value();
      ghost var p := MatMul(a, b);
      var output := new Matrix(rows, other.cols, None, 0, 0, 0);
      FilledNone(p);
      for row := 0 to output.rows
        invariant output.Valid() && output.Value() == Filled(p, row, 0)
      {
        for col := 0 to output.cols
          invariant output.Valid() && output.Value() == Filled(p, row, col)
        {
          var d := RowTimesColumn(other, row, col);
          FilledStep(p, row, col);
          var _ := output.Set(col, row, d);
        }
        FilledNextRow(p, row);
      }
      FilledAll(p);
      return Ok(output);
    }

    /**
     * `inverse()`: Gauss-Jordan elimination on a copy of this matrix, with every row
     * operation applied to a growing identity as well; this matrix does not change.
     */
    method Inverse() returns (r: Result<Matrix>)
      requires Valid()
      ensures r.Err? <==> InverseSpec(Value()).Err?
      ensures r.Err? ==> r.error == InverseSpec(Value()).error
      ensures r.Ok? ==> fresh(r.value) && fresh(r.value.data) && r.value.Valid()
      ensures r.Ok? ==> r.value.Value() == InverseSpec(Value()).value
    {
      if rows != cols {
        return Err(NotSquare);
      }
      var n := rows;
      var identity := IdentityMatrix(n);
      var clone := Copy();
      // put the left matrix into reduced row echelon form
      var ok := ForwardPass(clone, identity, n);
      if !ok {
        return Err(SingularMatrix);
      }
      // turn the left matrix into the identity
      BackwardPass(clone, identity, n);
      return Ok(identity);
    }
  }

  /** The n x n identity `inverse` starts from: a zero matrix with ones set on the diagonal. */
  method IdentityMatrix(n: nat) returns (identity: Matrix)
    ensures fresh(identity) && fresh(identity.data) && identity.Valid()
    ensures identity.rows == identity.cols == n && identity.Value() == Identity(n)
  {
    identity := new Matrix(n, n, None, 0, 0, 0);
    BlendNone(Zero(n, n), Identity(n));
    for i := 0 to n
      invariant identity.Valid() && identity.Value() == Blend(Zero(n, n), Identity(n), i)
    {
      BlendStep(Zero(n, n), Identity(n), i, i);
      var _ := identity.Set(i, i, 1.0);
    }
    BlendAll(Zero(n, n), Identity(n));
  }

  // ------------------------------------------ the column loops of `inverse`, on both sides

  /** The working copy and the growing inverse: two n x n matrices in separate buffers. */
  ghost predicate SquarePair(a: Matrix, b: Matrix, n: nat) {
    a.Valid() && b.Valid() && a.data != b.data && a.rows == a.cols == b.rows == b.cols == n
  }

  /** The system the two matrices hold together, [a | b]. */
  ghost function Both(a: Matrix, b: Matrix, n: nat): (s: System)
    reads a.data, b.data
    requires SquarePair(a, b, n)
    ensures WfSys(s) && s.left.rows == s.left.cols == s.right.cols == n
  {
    System(a.Value(), b.Value())
  }

  /** x less `multiples` times y, the value `inverse` writes when it subtracts a multiple of a row. */
  function LessMultiple(x: real, y: real, multiples: real): real {
    x - y * multiples
  }

  /** Row i of m divided by sf, which is multiplying it by 1 / sf. */
  method DivideRowOf(m: Matrix, n: nat, i: nat, sf: real)
    requires m.Valid() && m.rows == m.cols == n && i < n && sf != 0.0
    modifies m.data
    ensures m.Value() == ScaleRow(old(m.Value()), i, 1.0 / sf)
  {
    ghost var m0 := m.Value();
    ghost var t := ScaleRow(m0, i, 1.0 / sf);
    BlendNone(m0, t);
    for c := 0 to n
      invariant m.Value() == Blend(m0, t, c)
    {
      DivideStep(m0, t, m.Value(), c, i, sf);
      var o := m.Set(c, i, m.Get(c, i).value / sf);
    }
    BlendAll(m0, t);
  }

  /** Row target of m loses `multiples` times row src. */
  method SubtractRowMultipleOf(m: Matrix, n: nat, target: nat, src: nat, multiples: real)
    requires m.Valid() && m.rows == m.cols == n && target < n && src < n && target != src
    modifies m.data
    ensures m.Value() == AddRowMultiple(old(m.Value()), target, src, -multiples)
  {
    ghost var m0 := m.Value();
    ghost var t := AddRowMultiple(m0, target, src, -multiples);
    BlendNone(m0, t);
    for c := 0 to n
      invariant m.Value() == Blend(m0, t, c)
    {
      SubtractStep(m0, t, m.Value(), c, target, src, multiples);
      var o := m.Set(c, target, LessMultiple(m.Get(c, target).value, m.Get(c, src).value, multiples));
    }
    BlendAll(m0, t);
  }

  /** Rows i and p of both matrices trade places. */
  method SwapRowsOfBoth(a: Matrix, b: Matrix, n: nat, i: nat, p: nat)
    requires SquarePair(a, b, n) && i < n && p < n
    modifies a.data, b.data
    ensures Both(a, b, n) == SysSwap(old(Both(a, b, n)), i, p)
  {
    a.RowSwap(i, p);
    b.RowSwap(i, p);
  }

  /** Row i of both matrices divided by sf. */
  method DivideRowOfBoth(a: Matrix, b: Matrix, n: nat, i: nat, sf: real)
    requires SquarePair(a, b, n) && i < n && sf != 0.0
    modifies a.data, b.data
    ensures Both(a, b, n) == SysScale(old(Both(a, b, n)), i, 1.0 / sf)
  {
    DivideRowOf(a, n, i, sf);
    DivideRowOf(b, n, i, sf);
  }

  /** Row target of both matrices loses `multiples` times row src. */
  method SubtractRowMultipleOfBoth(a: Matrix, b: Matrix, n: nat, target: nat, src: nat, multiples: real)
    requires SquarePair(a, b, n) && target < n && src < n && target != src
    modifies a.data, b.data
    ensures Both(a, b, n) == SysAddMultiple(old(Both(a, b, n)), target, src, -multiples)
  {
    SubtractRowMultipleOf(a, n, target, src, multiples);
    SubtractRowMultipleOf(b, n, target, src, multiples);
  }

  /**
   * Step i's pivoting: when the diagonal entry is below Epsilon in magnitude, the first
   * row at or after i with a usable entry in column i trades places with row i; false,
   * with nothing changed, when there is no such row.
   */
  method PivotBoth(a: Matrix, b: Matrix, n: nat, i: nat) returns (found: bool)
    requires SquarePair(a, b, n) && i < n
    modifies a.data, b.data
    ensures found <==> Pivoted(old(Both(a, b, n)), i).Ok?
    ensures found ==> Both(a, b, n) == Pivoted(old(Both(a, b, n)), i).value
  {
    ghost var cur := Both(a, b, n);
    var scaleFactor := a.Get(i, i).value;
    if Abs(scaleFactor) < Epsilon {
      var swap := a.FindFirstRowWithPivot(i);
      if swap.None? {
        return false;
      }
      SwapRowsOfBoth(a, b, n, i, swap.value);
      PivotedSwaps(cur, i, swap.value);
    } else {
      PivotedStays(cur, i);
    }
    return true;
  }

  /**
   * The forward loop of `inverse`: for each i, pivot, divide row i by its pivot and
   * clear column i below it; false as soon as a column has no usable pivot.
   */
  method ForwardPass(a: Matrix, b: Matrix, n: nat) returns (ok: bool)
    requires SquarePair(a, b, n)
    modifies a.data, b.data
    ensures ok <==> Forward(old(Both(a, b, n)), 0).Ok?
    ensures !ok ==> Forward(old(Both(a, b, n)), 0) == Err(SingularMatrix)
    ensures ok ==> Forward(old(Both(a, b, n)), 0) == Ok(Both(a, b, n))
  {
    ghost var goal := Forward(Both(a, b, n), 0);
    ghost var cur := Both(a, b, n);
    for i := 0 to n
      invariant cur == Both(a, b, n) && Forward(cur, i) == goal
    {
      var found := PivotBoth(a, b, n, i);
      if !found {
        ForwardStops(cur, i);
        return false;
      }
      ghost var pivoted := Both(a, b, n);
      var scaleFactor := a.Get(i, i).value;
      DivideRowOfBoth(a, b, n, i, scaleFactor);
      ghost var scaled := Both(a, b, n);
      if i != n - 1 {
        ClearBelow(a, b, n, i);
      }
      ghost var next := Both(a, b, n);
      ForwardStep(cur, i, pivoted, scaled, next);
      cur := next;
    }
    return true;
  }

  /** Rows i + 1 .. n - 1 of both matrices lose the multiple of row i that clears their column i. */
  method ClearBelow(a: Matrix, b: Matrix, n: nat, i: nat)
    requires SquarePair(a, b, n) && i < n
    modifies a.data, b.data
    ensures Both(a, b, n) == ElimBelow(old(Both(a, b, n)), i, i + 1)
  {
    ghost var goal := ElimBelow(Both(a, b, n), i, i + 1);
    ghost var cur := Both(a, b, n);
    for j := i + 1 to n
      invariant cur == Both(a, b, n) && ElimBelow(cur, i, j) == goal
    {
      var multiples := a.Get(i, j).value;
      SubtractRowMultipleOfBoth(a, b, n, j, i, multiples);
      ghost var next := Both(a, b, n);
      ElimBelowStep(cur, i, j, multiples, next, goal);
      cur := next;
    }
  }

  /** Rows i - 1 down to 0 of both matrices lose the multiple of row i that clears their column i. */
  method ClearAboveOfBoth(a: Matrix, b: Matrix, n: nat, i: nat)
    requires SquarePair(a, b, n) && i < n
    modifies a.data, b.data
    ensures Both(a, b, n) == ClearAbove(old(Both(a, b, n)), i, i as int - 1)
  {
    ghost var goal := ClearAbove(Both(a, b, n), i, i as int - 1);
    ghost var cur := Both(a, b, n);
    var r: int := i as int - 1;
    while r >= 0
      invariant -1 <= r < i && cur == Both(a, b, n) && ClearAbove(cur, i, r) == goal
    {
      var multiples := a.Get(i, r).value;
      SubtractRowMultipleOfBoth(a, b, n, r, i, multiples);
      ghost var next := Both(a, b, n);
      ClearAboveStep(cur, i, r, multiples, next, goal);
      cur, r := next, r - 1;
    }
  }

  /** The backward pass of `inverse`: columns n - 1 down to 1 cleared above the diagonal. */
  method BackwardPass(a: Matrix, b: Matrix, n: nat)
    requires SquarePair(a, b, n)
    modifies a.data, b.data
    ensures Both(a, b, n) == Backward(old(Both(a, b, n)), n as int - 1)
  {
    ghost var goal := Backward(Both(a, b, n), n as int - 1);
    ghost var cur := Both(a, b, n);
    var i: int := n as int - 1;
    while i > 0
      invariant -1 <= i < n && cur == Both(a, b, n) && Backward(cur, i) == goal
    {
      ClearAboveOfBoth(a, b, n, i);
      ghost var next := Both(a, b, n);
      BackwardStep(cur, i, next, goal);
      cur, i := next, i - 1;
    }
  }

  /**
   * Writing x / sf into column c of row i, while the blend towards "row i times 1 / sf"
   * has reached column c, moves it on by one.
   */
  lemma DivideStep(m: Mat, t: Mat, x: Mat, c: nat, i: nat, sf: real)
    requires Wf(m) && i < m.rows && c < m.cols && sf != 0.0
    requires t == ScaleRow(m, i, 1.0 / sf) && x == Blend(m, t, c)
    ensures Update(x, c, i, x.cells[i][c] / sf) == Blend(m, t, c + 1)
  {
    assert x.cells[i][c] / sf == t.cells[i][c];
    BlendStep(m, t, c, i);
  }

  /**
   * Writing x - y * multiples into column c of row target, while the blend towards
   * "row target plus -multiples times row src" has reached column c, moves it on by one.
   */
  lemma SubtractStep(m: Mat, t: Mat, x: Mat, c: nat, target: nat, src: nat, multiples: real)
    requires Wf(m) && target < m.rows && src < m.rows && target != src && c < m.cols
    requires t == AddRowMultiple(m, target, src, -multiples) && x == Blend(m, t, c)
    ensures Update(x, c, target, LessMultiple(x.cells[target][c], x.cells[src][c], multiples)) == Blend(m, t, c + 1)
  {
    assert LessMultiple(x.cells[target][c], x.cells[src][c], multiples) == t.cells[target][c];
    BlendStep(m, t, c, target);
  }

  /** Writing x * f into cell (col, row), while the mix towards "every entry times f" has reached it, moves it on by one. */
  lemma ScaleStep(m: Mat, t: Mat, x: Mat, row: nat, col: nat, f: real, entry: real, v: real)
    requires Wf(m) && row < m.rows && col < m.cols
    requires t == MatScale(m, f) && x == Mixed(m, t, row, col) && entry == x.cells[row][col] && v == entry * f
    ensures Update(x, col, row, v) == Mixed(m, t, row, col + 1)
  {
    assert v == t.cells[row][col];
    MixedStep(m, t, row, col);
  }

  /** Writing x + o into cell (col, row), while the mix towards m + o has reached it, moves it on by one. */
  lemma AddStep(m: Mat, o: Mat, t: Mat, x: Mat, row: nat, col: nat, v: real)
    requires Wf(m) && Wf(o) && o.rows == m.rows && o.cols == m.cols && row < m.rows && col < m.cols
    requires t == MatAdd(m, o) && x == Mixed(m, t, row, col) && v == x.cells[row][col] + o.cells[row][col]
    ensures Update(x, col, row, v) == Mixed(m, t, row, col + 1)
  {
    assert v == t.cells[row][col];
    MixedStep(m, t, row, col);
  }
  /**
   * What `copy` as matrix.mjs writes it loses: for any view with a row offset, over a
   * buffer whose slots hold distinct values, the root layout that the as-written copy
   * reads shows a different first cell from the view it was asked to copy.
   */
  lemma CopyDropsOffsets(buf: seq<real>, l: Layout)
    requires Fits(l, |buf|) && 0 < l.rows && 0 < l.cols && 0 < l.rowOffset
    requires forall i :: 0 <= i < |buf| ==> buf[i] == i as real
    ensures Fits(Root(l.rows, l.cols), |buf|)
    ensures Read(buf, l).cells[0][0] != Read(buf, Root(l.rows, l.cols)).cells[0][0]
  {
    MulMonotone(l.stride, l.rows, l.rowOffset + l.rows);
    assert l.rows * l.cols <= l.rows * l.stride;
    assert Index(l, 0, 0) > 0;
    assert Index(Root(l.rows, l.cols), 0, 0) == 0;
  }

  /**
   * What `slice` as matrix.mjs writes it loses: a non-empty slice of a view with a row
   * offset, taken as written (origin (colStart, rowStart) in the buffer), shows a different
   * first cell from the corrected slice of that view.
   */
  lemma SliceDropsOffsets(buf: seq<real>, l: Layout, c0: nat, c1: nat, r0: nat, r1: nat)
    requires Fits(l, |buf|) && c0 < c1 <= l.cols && r0 < r1 <= l.rows && 0 < l.rowOffset
    requires forall i :: 0 <= i < |buf| ==> buf[i] == i as real
    ensures Fits(Layout(r1 - r0, c1 - c0, l.stride, r0, c0), |buf|)
    ensures Read(buf, Sub(l, c0, c1, r0, r1)).cells[0][0] != Read(buf, Layout(r1 - r0, c1 - c0, l.stride, r0, c0)).cells[0][0]
  {
    MulMonotone(l.stride, r1, l.rowOffset + l.rows);
    var v, w := Sub(l, c0, c1, r0, r1), Layout(r1 - r0, c1 - c0, l.stride, r0, c0);
    assert l.stride * (r0 + l.rowOffset) == l.stride * r0 + l.stride * l.rowOffset;
    assert l.stride * l.rowOffset > 0;
    assert Index(v, 0, 0) > Index(w, 0, 0);
  }
}
