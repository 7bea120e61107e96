/**
 * How a matrix sits in a flat buffer. Cell (col c, row r) of a matrix with row size
 * `stride` and offsets (rowOffset, colOffset) lives at
 * stride * (r + rowOffset) + c + colOffset. A slice is another layout over the same
 * buffer, which is how views share storage with their parent.
 */
module Layouts {
  import opened MatrixValues

  datatype Layout = Layout(rows: nat, cols: nat, stride: nat, rowOffset: nat, colOffset: nat)

  /** Each row of the layout stays within one stride, and all rows are inside a buffer of length len. */
  predicate Fits(l: Layout, len: nat) {
    l.colOffset + l.cols <= l.stride && (l.rowOffset + l.rows) * l.stride <= len
  }

  /** The layout of a freshly allocated rows x cols matrix: row-major, no offsets. */
  function Root(rows: nat, cols: nat): (l: Layout)
    ensures Fits(l, rows * cols)
  {
    Layout(rows, cols, cols, 0, 0)
  }

  lemma MulMonotone(s: nat, a: nat, b: nat)
    requires a <= b
    ensures s * a <= s * b
  {
    assert s * b == s * a + s * (b - a);
  }

  /** The buffer slot of cell (c, r): it lies below the end of the layout's last row. */
  function Index(l: Layout, c: nat, r: nat): (i: nat)
    requires c < l.cols && r < l.rows && l.colOffset + l.cols <= l.stride
    ensures i < (l.rowOffset + l.rows) * l.stride
  {
    MulMonotone(l.stride, r + l.rowOffset + 1, l.rowOffset + l.rows);
    assert l.stride * (r + l.rowOffset + 1) == l.stride * (r + l.rowOffset) + l.stride;
    l.stride * (r + l.rowOffset) + c + l.colOffset
  }

  /** Distinct cells of a fitting layout occupy distinct slots. */
  lemma IndexInjective(l: Layout, c1: nat, r1: nat, c2: nat, r2: nat)
    requires l.colOffset + l.cols <= l.stride
    requires c1 < l.cols && r1 < l.rows && c2 < l.cols && r2 < l.rows
    requires Index(l, c1, r1) == Index(l, c2, r2)
    ensures c1 == c2 && r1 == r2
  {
    if r1 < r2 {
      assert l.stride * (r1 + l.rowOffset + 1) == l.stride * (r1 + l.rowOffset) + l.stride;
      MulMonotone(l.stride, r1 + l.rowOffset + 1, r2 + l.rowOffset);
    } else if r2 < r1 {
      assert l.stride * (r2 + l.rowOffset + 1) == l.stride * (r2 + l.rowOffset) + l.stride;
      MulMonotone(l.stride, r2 + l.rowOffset + 1, r1 + l.rowOffset);
    }
  }

  /** The matrix a layout shows over a buffer. */
  ghost function Read(buf: seq<real>, l: Layout): (m: Mat)
    requires Fits(l, |buf|)
    ensures Wf(m) && m.rows == l.rows && m.cols == l.cols
    ensures forall r, c {:trigger buf[Index(l, c, r)]} :: 0 <= r < l.rows && 0 <= c < l.cols ==> m.cells[r][c] == buf[Index(l, c, r)]
  {
    Mat(l.rows, l.cols,
      seq(l.rows, r requires 0 <= r < l.rows =>
        seq(l.cols, c requires 0 <= c < l.cols => buf[Index(l, c, r)])))
  }

  /** The buffer slots a layout can reach. */
  ghost function Footprint(l: Layout): set<int>
    requires l.colOffset + l.cols <= l.stride
  {
    set c: nat, r: nat | c < l.cols && r < l.rows :: Index(l, c, r)
  }

  /** The layout of the sub-matrix with columns [c0, c1) and rows [r0, r1), in the same buffer. */
  function Sub(l: Layout, c0: nat, c1: nat, r0: nat, r1: nat): (v: Layout)
    requires c0 <= c1 <= l.cols && r0 <= r1 <= l.rows
    ensures forall len: nat :: Fits(l, len) ==> Fits(v, len)
    ensures v.rows == r1 - r0 && v.cols == c1 - c0
  {
    var v := Layout(r1 - r0, c1 - c0, l.stride, l.rowOffset + r0, l.colOffset + c0);
    assert forall len: nat :: Fits(l, len) ==> Fits(v, len) by {
      MulMonotone(l.stride, l.rowOffset + r1, l.rowOffset + l.rows);
    }
    v
  }

  /** A view reads exactly the parent's cells shifted by its origin. */
  lemma ReadSub(buf: seq<real>, l: Layout, c0: nat, c1: nat, r0: nat, r1: nat)
    requires Fits(l, |buf|) && c0 <= c1 <= l.cols && r0 <= r1 <= l.rows
    ensures Read(buf, Sub(l, c0, c1, r0, r1)) == SubMat(Read(buf, l), c0, c1, r0, r1)
  {
    var v, w := Read(buf, Sub(l, c0, c1, r0, r1)), SubMat(Read(buf, l), c0, c1, r0, r1);
    forall r | 0 <= r < r1 - r0
      ensures v.cells[r] == w.cells[r]
    {
      forall c | 0 <= c < c1 - c0
        ensures v.cells[r][c] == w.cells[r][c]
      {
        assert Index(Sub(l, c0, c1, r0, r1), c, r) == Index(l, c + c0, r + r0);
      }
    }
  }

  /** Writing one slot of the buffer changes exactly the one cell that lives there. */
  lemma ReadAfterWrite(buf: seq<real>, l: Layout, c: nat, r: nat, x: real)
    requires Fits(l, |buf|) && c < l.cols && r < l.rows
    ensures Read(buf[Index(l, c, r) := x], l) == Update(Read(buf, l), c, r, x)
  {
    var a, b := Read(buf[Index(l, c, r) := x], l), Update(Read(buf, l), c, r, x);
    forall r', c' | 0 <= r' < l.rows && 0 <= c' < l.cols
      ensures a.cells[r'][c'] == b.cells[r'][c']
    {
      if (r', c') != (r, c) && Index(l, c', r') == Index(l, c, r) {
        IndexInjective(l, c', r', c, r);
      }
    }
    forall r' | 0 <= r' < l.rows
      ensures a.cells[r'] == b.cells[r']
    {
    }
  }

  /** A cell of the parent outside a view's rectangle is not in the view's footprint. */
  lemma OutsideFootprint(l: Layout, c0: nat, c1: nat, r0: nat, r1: nat, c: nat, r: nat)
    requires l.colOffset + l.cols <= l.stride && c0 <= c1 <= l.cols && r0 <= r1 <= l.rows
    requires c < l.cols && r < l.rows && !(r0 <= r < r1 && c0 <= c < c1)
    ensures Index(l, c, r) !in Footprint(Sub(l, c0, c1, r0, r1))
  {
    var v := Sub(l, c0, c1, r0, r1);
    forall c': nat, r': nat | c' < v.cols && r' < v.rows
      ensures Index(v, c', r') != Index(l, c, r)
    {
      assert Index(v, c', r') == Index(l, c' + c0, r' + r0);
      if Index(l, c' + c0, r' + r0) == Index(l, c, r) {
        IndexInjective(l, c, r, c' + c0, r' + r0);
      }
    }
  }

  /**
   * If a buffer changed only inside the footprint of the view with columns [c0, c1) and
   * rows [r0, r1), the parent now shows the view's cells inside that rectangle and its
   * old cells everywhere else.
   */
  lemma ReadAfterViewWrite(before: seq<real>, after: seq<real>, l: Layout, c0: nat, c1: nat, r0: nat, r1: nat)
    requires |before| == |after| && Fits(l, |before|) && c0 <= c1 <= l.cols && r0 <= r1 <= l.rows
    requires forall i :: 0 <= i < |before| && i !in Footprint(Sub(l, c0, c1, r0, r1)) ==> after[i] == before[i]
    ensures forall r, c :: 0 <= r < l.rows && 0 <= c < l.cols ==>
      Read(after, l).cells[r][c] ==
        if r0 <= r < r1 && c0 <= c < c1 then Read(after, Sub(l, c0, c1, r0, r1)).cells[r - r0][c - c0]
        else Read(before, l).cells[r][c]
  {
    forall r, c | 0 <= r < l.rows && 0 <= c < l.cols && !(r0 <= r < r1 && c0 <= c < c1)
      ensures after[Index(l, c, r)] == before[Index(l, c, r)]
    {
      OutsideFootprint(l, c0, c1, r0, r1, c, r);
    }
    ReadSub(after, l, c0, c1, r0, r1);
    forall r, c | 0 <= r < l.rows && 0 <= c < l.cols && r0 <= r < r1 && c0 <= c < c1
      ensures Read(after, l).cells[r][c] == Read(after, Sub(l, c0, c1, r0, r1)).cells[r - r0][c - c0]
    {
      assert SubMat(Read(after, l), c0, c1, r0, r1).cells[r - r0][c - c0] == Read(after, l).cells[r][c];
    }
  }

  /**
   * If a buffer changed only inside the footprint of the view of row t, the parent
   * shows that view's single row as its row t and its old rows everywhere else.
   */
  lemma RowViewWritten(before: seq<real>, after: seq<real>, l: Layout, t: nat)
    requires |before| == |after| && Fits(l, |before|) && t < l.rows
    requires forall i :: 0 <= i < |before| && i !in Footprint(Sub(l, 0, l.cols, t, t + 1)) ==> after[i] == before[i]
    ensures Read(after, l) ==
      Read(before, l).(cells := Read(before, l).cells[t := Read(after, Sub(l, 0, l.cols, t, t + 1)).cells[0]])
  {
    ReadAfterViewWrite(before, after, l, 0, l.cols, t, t + 1);
    var a, b := Read(after, l), Read(before, l).(cells := Read(before, l).cells[t := Read(after, Sub(l, 0, l.cols, t, t + 1)).cells[0]]);
    forall r | 0 <= r < l.rows
      ensures a.cells[r] == b.cells[r]
    {
    }
  }
}
