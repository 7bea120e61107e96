/**
 * What `det()` comes to on the kinds of matrix the engine and its tests use: a matrix
 * with a zero column, a diagonal matrix (the scales among them), a rotation, and the
 * worked examples of the determinant tests, each followed through `gje` on
 * [m | an n x 0 side].
 */
module Determinants {
  import opened Wrappers
  import opened Numbers
  import opened MatrixValues
  import opened Elimination
  import opened GaussJordan
  import opened Transforms

  /** Adding no multiple of w leaves u as it is. */
  lemma AddNothing(u: seq<real>, k: real, w: seq<real>)
    requires |u| == |w| && k == 0.0
    ensures AddMultiple(u, k, w) == u
  {
  }

  // ------------------------------------------------------------------- a zero column

  /** Column j of m is all zeroes. */
  ghost predicate ZeroColumn(m: Mat, j: nat)
    requires Wf(m) && j < m.cols
  {
    forall r :: 0 <= r < m.rows ==> m.cells[r][j] == 0.0
  }

  /** Clearing against a pivot row keeps a zero column zero. */
  lemma ClearOutKeepsZeroColumn(s: System, p: nat, up: bool, j: nat)
    requires WfSys(s) && p < s.left.rows && p < s.left.cols && j < s.left.cols && ZeroColumn(s.left, j)
    ensures ZeroColumn(ClearOut(s, p, up).left, j)
  {
    if s.left.cells[p][p] >= Epsilon {
      ClearOutZeroes(s, p, up);
    }
  }

  /** A pass of the forward loop (swap, divide, clear) keeps a zero column zero. */
  lemma GjeStepKeepsZeroColumn(g: Progress, row: nat, j: nat)
    requires WfSys(g.sys) && row < g.sys.left.rows && row < g.sys.left.cols
    requires j < g.sys.left.cols && ZeroColumn(g.sys.left, j)
    ensures ZeroColumn(GjeStep(g, row).sys.left, j)
  {
    match FirstPivot(g.sys.left, row, row)
    case None =>
    case Some(p) =>
      var swapped := if p != row then SysSwap(g.sys, row, p) else g.sys;
      var scaled := SysScale(swapped, row, 1.0 / swapped.left.cells[row][row]);
      assert ZeroColumn(scaled.left, j);
      ClearOutKeepsZeroColumn(scaled, row, false, j);
  }

  lemma {:induction false} GjeForwardKeepsZeroColumn(g: Progress, row: nat, j: nat)
    requires WfSys(g.sys) && row <= Min(g.sys.left.rows, g.sys.left.cols)
    requires j < g.sys.left.cols && ZeroColumn(g.sys.left, j)
    ensures ZeroColumn(GjeForward(g, row).sys.left, j)
    decreases Min(g.sys.left.rows, g.sys.left.cols) - row
  {
    if row < Min(g.sys.left.rows, g.sys.left.cols) {
      GjeStepKeepsZeroColumn(g, row, j);
      GjeForwardKeepsZeroColumn(GjeStep(g, row), row + 1, j);
    }
  }

  lemma {:induction false} GjeBackwardKeepsZeroColumn(s: System, row: int, j: nat)
    requires WfSys(s) && row < s.left.rows && GjeBackward(s, row).Ok?
    requires j < s.left.cols && ZeroColumn(s.left, j)
    ensures ZeroColumn(GjeBackward(s, row).value.left, j)
    decreases row
  {
    if row > 0 {
      ClearOutKeepsZeroColumn(s, row, true, j);
      GjeBackwardKeepsZeroColumn(ClearOut(s, row, true), row - 1, j);
    }
  }

  /** A zero anywhere on the diagonal makes the diagonal's product zero. */
  lemma {:induction false} DiagonalProductOfZero(m: Mat, k: nat, j: nat)
    requires Wf(m) && k <= m.rows && k <= m.cols && j < k && m.cells[j][j] == 0.0
    ensures DiagonalProduct(m, k) == 0.0
  {
    if j < k - 1 {
      DiagonalProductOfZero(m, k - 1, j);
    }
  }

  /**
   * A square matrix with a zero column has determinant 0: the column never offers a
   * pivot, every row operation keeps it zero, and so its diagonal entry ends up 0.
   */
  lemma DetOfZeroColumn(m: Mat, j: nat)
    requires Wf(m) && m.rows == m.cols && j < m.cols && ZeroColumn(m, j)
    ensures DetSpec(m) == Ok(0.0)
  {
    var s := System(m, Zero(m.rows, 0));
    var f := GjeForward(Progress(s, 0, 1.0), 0);
    GjeForwardKeepsZeroColumn(Progress(s, 0, 1.0), 0, j);
    DetFails(m);
    GjeBackwardKeepsZeroColumn(f.sys, m.rows as int - 1, j);
    DiagonalProductOfZero(Gje(s).value.left, m.rows, j);
  }

  // ----------------------------------------------------------------- a diagonal matrix

  /** Every entry off the diagonal of m is zero. */
  ghost predicate Diagonal(m: Mat)
    requires Wf(m)
  {
    forall r, c :: 0 <= r < m.rows && 0 <= c < m.cols && r != c ==> m.cells[r][c] == 0.0
  }

  /** Scaling row i by f scales the product of a diagonal through row i by f. */
  lemma {:induction false} DiagonalProductOfScaledRow(m: Mat, i: nat, f: real, k: nat)
    requires Wf(m) && i < m.rows && k <= m.rows && k <= m.cols
    ensures DiagonalProduct(ScaleRow(m, i, f), k) == if i < k then DiagonalProduct(m, k) * f else DiagonalProduct(m, k)
  {
    if k > 0 {
      DiagonalProductOfScaledRow(m, i, f, k - 1);
      var before := DiagonalProduct(m, k - 1);
      var last := m.cells[k - 1][k - 1];
      if i == k - 1 {
        assert ScaleRow(m, i, f).cells[i][i] == last * f;
        assert before * (last * f) == (before * last) * f;
      } else if i < k - 1 {
        assert (before * f) * last == (before * last) * f;
      }
    }
  }

  /**
   * A pass of the forward loop over a diagonal left side whose diagonal entry is a
   * usable pivot: no swap, the row divided by the entry, nothing to clear below it.
   */
  lemma PivotOnDiagonal(g: Progress, row: nat)
    requires WfSys(g.sys) && g.sys.left.rows == g.sys.left.cols && row < g.sys.left.rows
    requires Diagonal(g.sys.left) && Abs(g.sys.left.cells[row][row]) >= Epsilon
    ensures GjeStep(g, row).sys.left == ScaleRow(g.sys.left, row, 1.0 / g.sys.left.cells[row][row])
    ensures GjeStep(g, row).swaps == g.swaps
    ensures GjeStep(g, row).totalScale == ScaledBy(g.totalScale, g.sys.left.cells[row][row])
  {
    var s := g.sys;
    var d := s.left.cells[row][row];
    assert FirstPivot(s.left, row, row) == Some(row);
    var scaled := SysScale(s, row, 1.0 / d);
    assert scaled.left.cells[row][row] == d * (1.0 / d) == 1.0;
    ClearOutZeroes(scaled, row, false);
    var h := GjeStep(g, row);
    forall r | row < r < s.left.rows
      ensures h.sys.left.cells[r] == scaled.left.cells[r]
    {
      AddNothing(scaled.left.cells[r], -(scaled.left.cells[r][row] / 1.0), scaled.left.cells[row]);
    }
    assert h.sys.left.cells == scaled.left.cells;
  }

  /** Dividing a product by d and multiplying the total scale by d leaves their product as it was. */
  lemma Rescaled(p: real, d: real, totalScale: real)
    requires d != 0.0
    ensures ScaledBy(p * (1.0 / d), ScaledBy(totalScale, d)) == ScaledBy(p, totalScale)
  {
    assert (p * (1.0 / d)) * (totalScale * d) == p * totalScale * (d * (1.0 / d));
  }

  /**
   * A pass of the forward loop over a diagonal left side: the column's only candidate
   * is its diagonal entry, so the pass swaps nothing, keeps the side diagonal, and moves
   * the entry from the diagonal into the total scale when it is a usable pivot.
   */
  lemma GjeStepOnDiagonal(g: Progress, row: nat)
    requires WfSys(g.sys) && g.sys.left.rows == g.sys.left.cols && row < g.sys.left.rows
    requires Diagonal(g.sys.left)
    ensures Diagonal(GjeStep(g, row).sys.left) && GjeStep(g, row).swaps == g.swaps
    ensures ScaledBy(DiagonalProduct(GjeStep(g, row).sys.left, g.sys.left.rows), GjeStep(g, row).totalScale) ==
            ScaledBy(DiagonalProduct(g.sys.left, g.sys.left.rows), g.totalScale)
  {
    var s := g.sys;
    var n := s.left.rows;
    var d := s.left.cells[row][row];
    if Abs(d) >= Epsilon {
      PivotOnDiagonal(g, row);
      DiagonalProductOfScaledRow(s.left, row, 1.0 / d, n);
      Rescaled(DiagonalProduct(s.left, n), d, g.totalScale);
    } else {
      assert FirstPivot(s.left, row, row).None?;
    }
  }

  lemma {:induction false} GjeForwardOnDiagonal(g: Progress, row: nat)
    requires WfSys(g.sys) && g.sys.left.rows == g.sys.left.cols && row <= g.sys.left.rows
    requires Diagonal(g.sys.left)
    ensures Diagonal(GjeForward(g, row).sys.left) && GjeForward(g, row).swaps == g.swaps
    ensures ScaledBy(DiagonalProduct(GjeForward(g, row).sys.left, g.sys.left.rows), GjeForward(g, row).totalScale) ==
            ScaledBy(DiagonalProduct(g.sys.left, g.sys.left.rows), g.totalScale)
    decreases g.sys.left.rows - row
  {
    if row < g.sys.left.rows {
      GjeStepOnDiagonal(g, row);
      GjeForwardOnDiagonal(GjeStep(g, row), row + 1);
    }
  }

  /** Clearing above a pivot of a diagonal left side subtracts nothing from it. */
  lemma {:induction false} GjeBackwardOnDiagonal(s: System, row: int)
    requires WfSys(s) && s.left.rows == s.left.cols && row < s.left.rows && Diagonal(s.left)
    ensures GjeBackward(s, row).Ok? && GjeBackward(s, row).value.left == s.left
    decreases row
  {
    if row > 0 {
      var t := ClearOut(s, row, true);
      if s.left.cells[row][row] >= Epsilon {
        ClearOutZeroes(s, row, true);
        forall r | 0 <= r < row
          ensures t.left.cells[r] == s.left.cells[r]
        {
          AddNothing(s.left.cells[r], -(s.left.cells[r][row] / s.left.cells[row][row]), s.left.cells[row]);
        }
        assert t.left.cells == s.left.cells;
      }
      GjeBackwardOnDiagonal(t, row - 1);
    }
  }

  /** The determinant of a diagonal matrix is the product of its diagonal. */
  lemma DetOfDiagonal(m: Mat)
    requires Wf(m) && m.rows == m.cols && Diagonal(m)
    ensures DetSpec(m) == Ok(DiagonalProduct(m, m.rows))
  {
    var s := System(m, Zero(m.rows, 0));
    var g := Progress(s, 0, 1.0);
    var f := GjeForward(g, 0);
    GjeForwardOnDiagonal(g, 0);
    GjeBackwardOnDiagonal(f.sys, m.rows as int - 1);
    assert Gje(s).value.scaledDown == f.totalScale;
  }

  /** `scale(x, y)` has determinant x * y. */
  lemma DetOfScale(x: real, y: real)
    ensures DetSpec(Scale(x, y)) == Ok(x * y)
  {
    var m := Scale(x, y);
    DetOfDiagonal(m);
    assert DiagonalProduct(m, 1) == x;
    assert DiagonalProduct(m, 2) == x * y;
  }

  // ----------------------------------------------- a forward pass that ends triangular

  /** Every entry below the diagonal of m is zero. */
  ghost predicate UpperTriangular(m: Mat)
    requires Wf(m)
  {
    forall r, c :: 0 <= c < r < m.rows && c < m.cols ==> m.cells[r][c] == 0.0
  }

  /**
   * Clearing above a pivot of an upper triangular left side subtracts rows that are zero
   * left of their own diagonal, so the side stays triangular and keeps its diagonal.
   */
  lemma ClearUpOnTriangular(s: System, p: nat)
    requires WfSys(s) && s.left.rows == s.left.cols && p < s.left.rows && UpperTriangular(s.left)
    ensures UpperTriangular(ClearOut(s, p, true).left)
    ensures forall i :: 0 <= i < s.left.rows ==> ClearOut(s, p, true).left.cells[i][i] == s.left.cells[i][i]
  {
    if s.left.cells[p][p] >= Epsilon {
      ClearOutZeroes(s, p, true);
    }
  }

  lemma {:induction false} GjeBackwardOnTriangular(s: System, row: int)
    requires WfSys(s) && s.left.rows == s.left.cols && row < s.left.rows && UpperTriangular(s.left)
    ensures GjeBackward(s, row).Ok?
    ensures forall i :: 0 <= i < s.left.rows ==> GjeBackward(s, row).value.left.cells[i][i] == s.left.cells[i][i]
    decreases row
  {
    if row > 0 {
      ClearUpOnTriangular(s, row);
      GjeBackwardOnTriangular(ClearOut(s, row, true), row - 1);
    }
  }

  /** Two matrices with the same diagonal have the same diagonal product. */
  lemma {:induction false} DiagonalProductOfSameDiagonal(a: Mat, b: Mat, k: nat)
    requires Wf(a) && Wf(b) && k <= a.rows && k <= a.cols && k <= b.rows && k <= b.cols
    requires forall i :: 0 <= i < k ==> a.cells[i][i] == b.cells[i][i]
    ensures DiagonalProduct(a, k) == DiagonalProduct(b, k)
  {
    if k > 0 {
      DiagonalProductOfSameDiagonal(a, b, k - 1);
    }
  }

  /** What `gje` returns after a forward pass that leaves the left side upper triangular. */
  lemma GjeAfterTriangularForward(s: System)
    requires WfSys(s) && s.left.rows == s.left.cols
    requires UpperTriangular(GjeForward(Progress(s, 0, 1.0), 0).sys.left)
    ensures var f := GjeForward(Progress(s, 0, 1.0), 0);
      Gje(s).Ok? && Gje(s).value.scaledDown == ScaledDown(f.swaps, f.totalScale) &&
      DiagonalProduct(Gje(s).value.left, s.left.rows) == DiagonalProduct(f.sys.left, s.left.rows)
  {
    var f := GjeForward(Progress(s, 0, 1.0), 0);
    GjeBackwardOnTriangular(f.sys, s.left.rows as int - 1);
    DiagonalProductOfSameDiagonal(Gje(s).value.left, f.sys.left, s.left.rows);
  }

  /**
   * When the forward pass leaves the left side upper triangular, the backward pass
   * keeps its diagonal, and `det()` is that diagonal's product times `scaledDown`.
   */
  lemma DetOfTriangularForward(m: Mat)
    requires Wf(m) && m.rows == m.cols
    requires UpperTriangular(GjeForward(Progress(System(m, Zero(m.rows, 0)), 0, 1.0), 0).sys.left)
    ensures var f := GjeForward(Progress(System(m, Zero(m.rows, 0)), 0, 1.0), 0);
      DetSpec(m) == Ok(ScaledBy(DiagonalProduct(f.sys.left, m.rows), ScaledDown(f.swaps, f.totalScale)))
  {
    GjeAfterTriangularForward(System(m, Zero(m.rows, 0)));
  }

  /** Clearing below a pivot of 1: each row below loses its column entry times row p. */
  lemma ClearDownEntries(s: System, p: nat)
    requires WfSys(s) && p < s.left.rows && p < s.left.cols && s.left.cells[p][p] == 1.0
    ensures forall r :: 0 <= r <= p ==> ClearOut(s, p, false).left.cells[r] == s.left.cells[r]
    ensures forall r, c :: p < r < s.left.rows && 0 <= c < s.left.cols ==>
      ClearOut(s, p, false).left.cells[r][c] == s.left.cells[r][c] - s.left.cells[r][p] * s.left.cells[p][c]
  {
    ClearOutZeroes(s, p, false);
    forall r, c | p < r < s.left.rows && 0 <= c < s.left.cols
      ensures ClearOut(s, p, false).left.cells[r][c] == s.left.cells[r][c] - s.left.cells[r][p] * s.left.cells[p][c]
    {
      var k := -(s.left.cells[r][p] / s.left.cells[p][p]);
      assert ClearOut(s, p, false).left.cells[r] == AddMultiple(s.left.cells[r], k, s.left.cells[p]);
      assert k == -s.left.cells[r][p];
    }
  }

  /**
   * Dividing row p by its entry d and clearing below it, entry by entry: the rows above
   * keep their entries, row p is divided by d, and every row below loses its column-p
   * entry times the divided row.
   */
  lemma ScaleAndClearEntries(w: System, p: nat, d: real)
    requires WfSys(w) && p < w.left.rows && p < w.left.cols && d == w.left.cells[p][p] && d != 0.0
    ensures var t := ClearOut(SysScale(w, p, 1.0 / d), p, false).left;
      (forall r, c :: 0 <= r < p && 0 <= c < w.left.cols ==> t.cells[r][c] == w.left.cells[r][c]) &&
      (forall c :: 0 <= c < w.left.cols ==> t.cells[p][c] == w.left.cells[p][c] * (1.0 / d)) &&
      (forall r, c :: p < r < w.left.rows && 0 <= c < w.left.cols ==>
        t.cells[r][c] == w.left.cells[r][c] - w.left.cells[r][p] * (w.left.cells[p][c] * (1.0 / d)))
  {
    var scaled := SysScale(w, p, 1.0 / d);
    assert scaled.left.cells[p][p] == d * (1.0 / d) == 1.0;
    ClearDownEntries(scaled, p);
  }

  // ------------------------------------------------------ the determinant tests' matrices

  /** The diagonal of a 3 x 3 matrix multiplies out entry by entry. */
  lemma DiagonalProduct3(m: Mat)
    requires Wf(m) && m.rows == 3 && m.cols == 3
    ensures DiagonalProduct(m, 3) == m.cells[0][0] * m.cells[1][1] * m.cells[2][2]
  {
    assert DiagonalProduct(m, 1) == m.cells[0][0];
  }

  /** A pass of the forward loop whose pivot is already on the diagonal. */
  lemma PassInPlace(g: Progress, row: nat)
    requires WfSys(g.sys) && row < g.sys.left.rows && row < g.sys.left.cols
    requires FirstPivot(g.sys.left, row, row) == Some(row)
    ensures GjeStep(g, row) == Progress(ClearOut(SysScale(g.sys, row, 1.0 / g.sys.left.cells[row][row]), row, false),
                                        g.swaps, ScaledBy(g.totalScale, g.sys.left.cells[row][row]))
  {
  }

  /** A pass of the forward loop that swaps pivot row p up to row `row`. */
  lemma PassSwapped(g: Progress, row: nat, p: nat)
    requires WfSys(g.sys) && row < g.sys.left.rows && row < g.sys.left.cols
    requires FirstPivot(g.sys.left, row, row) == Some(p) && p != row
    ensures var w := SysSwap(g.sys, row, p);
      GjeStep(g, row) == Progress(ClearOut(SysScale(w, row, 1.0 / w.left.cells[row][row]), row, false),
                                  g.swaps + 1, ScaledBy(g.totalScale, w.left.cells[row][row]))
  {
  }

  /**
   * A 3 x 3 left side whose first column is done, (1, 0, 0), and whose lower right block
   * is upper triangular with v and w on its diagonal.
   */
  ghost predicate SecondPassReady(m: Mat, v: real, w: real)
  {
    Wf(m) && m.rows == 3 && m.cols == 3 && m.cells[0][0] == 1.0 &&
    m.cells[1][0] == 0.0 && m.cells[1][1] == v &&
    m.cells[2][0] == 0.0 && m.cells[2][1] == 0.0 && m.cells[2][2] == w
  }

  /** The second pass takes v as its pivot and turns it into 1, leaving the third row alone. */
  lemma SecondPass(g: Progress, v: real, w: real)
    requires WfSys(g.sys) && SecondPassReady(g.sys.left, v, w) && Abs(v) >= Epsilon
    ensures SecondPassReady(GjeStep(g, 1).sys.left, 1.0, w)
    ensures GjeStep(g, 1).swaps == g.swaps && GjeStep(g, 1).totalScale == ScaledBy(g.totalScale, v)
  {
    assert FirstPivot(g.sys.left, 1, 1) == Some(1);
    PassInPlace(g, 1);
    var x := g.sys.left.cells[1][2];
    ScaleAndClearEntries(g.sys, 1, v);
    var b := GjeStep(g, 1).sys.left;
    assert b.cells[1][1] == v * (1.0 / v) == 1.0;
    assert b.cells[2][0] == 0.0 - 0.0 * (0.0 * (1.0 / v)) == 0.0;
    assert b.cells[2][1] == 0.0 - 0.0 * (v * (1.0 / v)) == 0.0;
    assert b.cells[2][2] == w - 0.0 * (x * (1.0 / v)) == w;
  }

  /** The third pass takes w as its pivot and turns it into 1, leaving the rows above alone. */
  lemma ThirdPass(g: Progress, w: real)
    requires WfSys(g.sys) && SecondPassReady(g.sys.left, 1.0, w) && Abs(w) >= Epsilon
    ensures SecondPassReady(GjeStep(g, 2).sys.left, 1.0, 1.0)
    ensures GjeStep(g, 2).swaps == g.swaps && GjeStep(g, 2).totalScale == ScaledBy(g.totalScale, w)
  {
    assert FirstPivot(g.sys.left, 2, 2) == Some(2);
    PassInPlace(g, 2);
    ScaleAndClearEntries(g.sys, 2, w);
    assert GjeStep(g, 2).sys.left.cells[2][2] == w * (1.0 / w) == 1.0;
  }

  /**
   * The last pass over a 3 x 3 left side whose first two columns are done and whose
   * last diagonal entry is w: w is the third pivot, leaving an upper triangle with ones
   * on its diagonal.
   */
  lemma LastPass(g: Progress, w: real)
    requires WfSys(g.sys) && SecondPassReady(g.sys.left, 1.0, w) && Abs(w) >= Epsilon
    ensures GjeForward(g, 2).swaps == g.swaps
    ensures GjeForward(g, 2).totalScale == ScaledBy(g.totalScale, w)
    ensures UpperTriangular(GjeForward(g, 2).sys.left) && DiagonalProduct(GjeForward(g, 2).sys.left, 3) == 1.0
  {
    ThirdPass(g, w);
    var g3 := GjeStep(g, 2);
    assert GjeForward(g3, 3) == g3;
    DiagonalProduct3(g3.sys.left);
  }

  /**
   * The last two passes over a 3 x 3 left side whose first column is done and whose
   * lower right block is upper triangular with v and w on its diagonal: v is the second
   * pivot and w the third, leaving an upper triangle with ones on its diagonal.
   */
  lemma LastTwoPasses(g: Progress, v: real, w: real)
    requires WfSys(g.sys) && SecondPassReady(g.sys.left, v, w) && Abs(v) >= Epsilon && Abs(w) >= Epsilon
    ensures GjeForward(g, 1).swaps == g.swaps
    ensures GjeForward(g, 1).totalScale == ScaledBy(ScaledBy(g.totalScale, v), w)
    ensures UpperTriangular(GjeForward(g, 1).sys.left) && DiagonalProduct(GjeForward(g, 1).sys.left, 3) == 1.0
  {
    SecondPass(g, v, w);
    LastPass(GjeStep(g, 1), w);
  }

  /** A unit vector's coordinates lie in [-1, 1], and they are never both below the pivot tolerance. */
  lemma UnitCoordinates(c: real, s: real)
    requires c * c + s * s == 1.0
    ensures Abs(c) <= 1.0 && Abs(s) <= 1.0
    ensures Abs(c) < Epsilon ==> Abs(s) >= Epsilon
  {
    assert Abs(c) * Abs(c) == c * c && Abs(s) * Abs(s) == s * s;
    SquareOrder(Abs(c), 1.0);
    SquareOrder(Abs(s), 1.0);
    SquareOrder(Abs(c), Epsilon);
    SquareOrder(Epsilon, Abs(s));
  }

  /** Between non-negative numbers, squaring keeps the order, and so does taking the square root. */
  lemma SquareOrder(x: real, b: real)
    requires 0.0 <= x && 0.0 <= b
    ensures x < b <==> x * x < b * b
  {
    if x < b {
      calc {
        x * x;
      <= x * b;
      < b * b;
      }
    } else {
      calc {
        b * b;
      <= b * x;
      <= x * x;
      }
    }
  }

  /** A pivot that is a nonzero coordinate of a unit vector has a reciprocal of size at least 1. */
  lemma ReciprocalOfCoordinate(x: real)
    requires x != 0.0 && Abs(x) <= 1.0
    ensures Abs(1.0 / x) >= 1.0 && Abs(-1.0 / x) >= 1.0
  {
    var r := Abs(1.0 / x);
    assert r * Abs(x) == 1.0;
    assert r == r * 1.0 >= r * Abs(x);
  }

  /** The system `det()` eliminates for a 3 x 3 matrix m, at the start of the forward loop. */
  function Start(m: Mat): (g: Progress)
    requires Wf(m) && m.rows == 3
    ensures WfSys(g.sys) && g.sys.left == m && g.swaps == 0 && g.totalScale == 1.0
  {
    Progress(System(m, Zero(3, 0)), 0, 1.0)
  }

  /** The arithmetic of a pass that pivots on x, the row below holding y then x's partner z = -+y. */
  lemma UnitPivotArithmetic(x: real, y: real, z: real)
    requires x * x + y * y == 1.0 && x != 0.0
    ensures x * (1.0 / x) == 1.0 && y - y * (x * (1.0 / x)) == 0.0 && 0.0 - y * (0.0 * (1.0 / x)) == 0.0
    ensures z == -y ==> x - y * (z * (1.0 / x)) == 1.0 / x
    ensures z == y ==> -x - y * (z * (1.0 / x)) == -1.0 / x
  {
    assert x * (1.0 / x) == 1.0;
    if z == -y {
      calc {
        x - y * (z * (1.0 / x));
        x + (y * y) * (1.0 / x);
        (x * x + y * y) * (1.0 / x);
      }
    }
    if z == y {
      calc {
        -x - y * (z * (1.0 / x));
        -x - (y * y) * (1.0 / x);
        -(x * x + y * y) * (1.0 / x);
      }
    }
  }

  /** The rows the first pass leaves when it pivots on cos in place. */
  lemma RotationEntriesOnCos(c: real, s: real)
    requires c * c + s * s == 1.0 && Abs(c) >= Epsilon
    ensures SecondPassReady(ClearOut(SysScale(Start(Rotate(c, s)).sys, 0, 1.0 / c), 0, false).left, 1.0 / c, 1.0)
  {
    var w := Start(Rotate(c, s)).sys;
    assert w.left.cols == 3 && w.left.cells[0][1] == -s && w.left.cells[0][2] == 0.0;
    UnitPivotArithmetic(c, s, -s);
    ScaleAndClearEntries(w, 0, c);
  }

  /** With cos off the tolerance, the first pass pivots on it in place, leaving 1 / cos next. */
  lemma RotationPassOnCos(c: real, s: real)
    requires c * c + s * s == 1.0 && Abs(c) >= Epsilon
    ensures SecondPassReady(GjeStep(Start(Rotate(c, s)), 0).sys.left, 1.0 / c, 1.0)
    ensures GjeStep(Start(Rotate(c, s)), 0).swaps == 0
    ensures GjeStep(Start(Rotate(c, s)), 0).totalScale == ScaledBy(1.0, c)
  {
    var g := Start(Rotate(c, s));
    assert FirstPivot(g.sys.left, 0, 0) == Some(0);
    PassInPlace(g, 0);
    RotationEntriesOnCos(c, s);
  }

  /** The rows the first pass leaves when it swaps the sin row up and pivots on it. */
  lemma RotationEntriesOnSin(c: real, s: real)
    requires c * c + s * s == 1.0 && Abs(s) >= Epsilon
    ensures var w := SysSwap(Start(Rotate(c, s)).sys, 0, 1);
      w.left.cells[0][0] == s &&
      SecondPassReady(ClearOut(SysScale(w, 0, 1.0 / s), 0, false).left, -1.0 / s, 1.0)
  {
    var w := SysSwap(Start(Rotate(c, s)).sys, 0, 1);
    assert w.left.cols == 3 && w.left.cells[0][0] == s && w.left.cells[0][1] == c && w.left.cells[0][2] == 0.0;
    assert w.left.cells[1] == [c, -s, 0.0] && w.left.cells[2] == [0.0, 0.0, 1.0];
    UnitPivotArithmetic(s, c, c);
    ScaleAndClearEntries(w, 0, s);
  }

  /** With cos within the tolerance, the first pass swaps the sin row up and pivots on it, leaving -1 / sin next. */
  lemma RotationPassOnSin(c: real, s: real)
    requires c * c + s * s == 1.0 && Abs(c) < Epsilon && Abs(s) >= Epsilon
    ensures SecondPassReady(GjeStep(Start(Rotate(c, s)), 0).sys.left, -1.0 / s, 1.0)
    ensures GjeStep(Start(Rotate(c, s)), 0).swaps == 1
    ensures GjeStep(Start(Rotate(c, s)), 0).totalScale == ScaledBy(1.0, s)
  {
    var g := Start(Rotate(c, s));
    assert FirstPivot(g.sys.left, 0, 1) == Some(1);
    assert FirstPivot(g.sys.left, 0, 0) == Some(1);
    PassSwapped(g, 0, 1);
    RotationEntriesOnSin(c, s);
  }

  /**
   * The determinant a 3 x 3 matrix comes to when its first pass leaves its lower right
   * block upper triangular with v and w on the diagonal: (-1)^swaps times the three pivots.
   */
  lemma DetAfterFirstPass(m: Mat, v: real, w: real)
    requires Wf(m) && m.rows == 3 && m.cols == 3
    requires SecondPassReady(GjeStep(Start(m), 0).sys.left, v, w) && Abs(v) >= Epsilon && Abs(w) >= Epsilon
    ensures DetSpec(m) == Ok(ScaledBy(1.0, ScaledDown(GjeStep(Start(m), 0).swaps,
                                                      ScaledBy(ScaledBy(GjeStep(Start(m), 0).totalScale, v), w))))
  {
    var g := Start(m);
    var g1 := GjeStep(g, 0);
    LastTwoPasses(g1, v, w);
    assert GjeForward(g, 0) == GjeForward(g1, 1);
    DetOfTriangularForward(m);
  }

  /** A rotation whose cos is off the tolerance: pivots cos and 1 / cos, no swap. */
  lemma DetOfRotationOnCos(c: real, s: real)
    requires c * c + s * s == 1.0 && Abs(c) >= Epsilon
    ensures DetSpec(Rotate(c, s)) == Ok(1.0)
  {
    UnitCoordinates(c, s);
    ReciprocalOfCoordinate(c);
    RotationPassOnCos(c, s);
    DetAfterFirstPass(Rotate(c, s), 1.0 / c, 1.0);
    assert ScaledBy(ScaledBy(ScaledBy(1.0, c), 1.0 / c), 1.0) == 1.0;
    assert ScaledDown(0, 1.0) == 1.0;
  }

  /** A rotation whose cos is within the tolerance: one swap, pivots sin and -1 / sin. */
  lemma DetOfRotationOnSin(c: real, s: real)
    requires c * c + s * s == 1.0 && Abs(c) < Epsilon
    ensures DetSpec(Rotate(c, s)) == Ok(1.0)
  {
    UnitCoordinates(c, s);
    ReciprocalOfCoordinate(s);
    RotationPassOnSin(c, s);
    DetAfterFirstPass(Rotate(c, s), -1.0 / s, 1.0);
    assert ScaledBy(ScaledBy(ScaledBy(1.0, s), -1.0 / s), 1.0) == -1.0;
    assert ScaledDown(1, -1.0) == Power(-1.0, 1) * -1.0 == 1.0;
  }

  /** A rotation by any angle has determinant 1, whichever row the first pass pivots on. */
  lemma DetOfRotation(c: real, s: real)
    requires c * c + s * s == 1.0
    ensures DetSpec(Rotate(c, s)) == Ok(1.0)
  {
    if Abs(c) >= Epsilon {
      DetOfRotationOnCos(c, s);
    } else {
      DetOfRotationOnSin(c, s);
    }
  }

  // ------------------------------------------------- the worked examples with a zero middle column

  /** The first pass over a 3 x 3 matrix whose top-left entry is a pivot: no swap, scale by that entry. */
  lemma FirstPassInPlace(m: Mat)
    requires Wf(m) && m.rows == 3 && m.cols == 3 && Abs(m.cells[0][0]) >= Epsilon
    ensures GjeStep(Start(m), 0) == Progress(ClearOut(SysScale(Start(m).sys, 0, 1.0 / m.cells[0][0]), 0, false),
                                             0, ScaledBy(1.0, m.cells[0][0]))
  {
    assert FirstPivot(m, 0, 0) == Some(0);
    PassInPlace(Start(m), 0);
  }

  /** (2, 0, -2), (0, 1, 0), (2, 0, 2): pivots 2, 1 and 4 with no swap, so the determinant is 8. */
  lemma DetOfMiddleRowExample()
    ensures DetSpec(Mat3([2.0, 0.0, -2.0], [0.0, 1.0, 0.0], [2.0, 0.0, 2.0])) == Ok(8.0)
  {
    var m := Mat3([2.0, 0.0, -2.0], [0.0, 1.0, 0.0], [2.0, 0.0, 2.0]);
    var w := Start(m).sys;
    assert w.left.cells[0][0] == 2.0 && w.left.cells[0][1] == 0.0 && w.left.cells[0][2] == -2.0;
    FirstPassInPlace(m);
    ScaleAndClearEntries(w, 0, 2.0);
    DetAfterFirstPass(m, 1.0, 4.0);
  }

  /** (2, 0, -2), (55, 1, 23), (2, 0, 2): the 55 is cleared away, pivots 2, 1 and 4, determinant 8. */
  lemma DetOfFullMiddleRowExample()
    ensures DetSpec(Mat3([2.0, 0.0, -2.0], [55.0, 1.0, 23.0], [2.0, 0.0, 2.0])) == Ok(8.0)
  {
    var m := Mat3([2.0, 0.0, -2.0], [55.0, 1.0, 23.0], [2.0, 0.0, 2.0]);
    var w := Start(m).sys;
    assert w.left.cells[0][0] == 2.0 && w.left.cells[0][1] == 0.0 && w.left.cells[0][2] == -2.0;
    FirstPassInPlace(m);
    ScaleAndClearEntries(w, 0, 2.0);
    DetAfterFirstPass(m, 1.0, 4.0);
  }

  /**
   * (2, 0, -2), (2, 0, 2), (0, 1, 0): after the first pass the middle row has no pivot
   * in column 1, so the second pass swaps the last row up; pivots 2, 1 and 4 with one
   * swap make the determinant -8.
   */
  lemma DetOfSwappedExample()
    ensures DetSpec(Mat3([2.0, 0.0, -2.0], [2.0, 0.0, 2.0], [0.0, 1.0, 0.0])) == Ok(-8.0)
  {
    var m := Mat3([2.0, 0.0, -2.0], [2.0, 0.0, 2.0], [0.0, 1.0, 0.0]);
    var g := Start(m);
    SwappedExampleFirstPass();
    var g1 := GjeStep(g, 0);
    SwappedExampleSecondPass(g1);
    var g2 := GjeStep(g1, 1);
    LastPass(g2, 4.0);
    assert GjeForward(g, 0) == GjeForward(g2, 2);
    DetOfTriangularForward(m);
    assert ScaledDown(1, ScaledBy(ScaledBy(ScaledBy(1.0, 2.0), 1.0), 4.0)) == Power(-1.0, 1) * 8.0 == -8.0;
  }

  /** The first pass over the swapped example leaves (1, 0, -1), (0, 0, 4), (0, 1, 0). */
  lemma SwappedExampleFirstPass()
    ensures var t := GjeStep(Start(Mat3([2.0, 0.0, -2.0], [2.0, 0.0, 2.0], [0.0, 1.0, 0.0])), 0);
      t.swaps == 0 && t.totalScale == 2.0 && WfSys(t.sys) &&
      t.sys.left == Mat3([1.0, 0.0, -1.0], [0.0, 0.0, 4.0], [0.0, 1.0, 0.0])
  {
    var m := Mat3([2.0, 0.0, -2.0], [2.0, 0.0, 2.0], [0.0, 1.0, 0.0]);
    var w := Start(m).sys;
    assert w.left.cells[0][0] == 2.0 && w.left.cells[0][1] == 0.0 && w.left.cells[0][2] == -2.0;
    FirstPassInPlace(m);
    ScaleAndClearEntries(w, 0, 2.0);
    var t := GjeStep(Start(m), 0).sys.left;
    assert t.cells[0] == [1.0, 0.0, -1.0] && t.cells[1] == [0.0, 0.0, 4.0] && t.cells[2] == [0.0, 1.0, 0.0];
  }

  /** The second pass over the swapped example swaps rows 1 and 2, leaving pivot 1 in place and 4 below it. */
  lemma SwappedExampleSecondPass(g: Progress)
    requires WfSys(g.sys) && g.sys.left == Mat3([1.0, 0.0, -1.0], [0.0, 0.0, 4.0], [0.0, 1.0, 0.0])
    ensures SecondPassReady(GjeStep(g, 1).sys.left, 1.0, 4.0)
    ensures GjeStep(g, 1).swaps == g.swaps + 1 && GjeStep(g, 1).totalScale == ScaledBy(g.totalScale, 1.0)
  {
    assert FirstPivot(g.sys.left, 1, 2) == Some(2);
    assert FirstPivot(g.sys.left, 1, 1) == Some(2);
    PassSwapped(g, 1, 2);
    var w := SysSwap(g.sys, 1, 2);
    assert w.left.cells[1][1] == 1.0 && w.left.cells[1][0] == 0.0 && w.left.cells[1][2] == 0.0;
    assert w.left.cells[0] == [1.0, 0.0, -1.0] && w.left.cells[2] == [0.0, 0.0, 4.0];
    ScaleAndClearEntries(w, 1, 1.0);
  }

  // ------------------------------------------------- the worked examples with a missing pivot

  /** A 3 x 3 left side whose first column is done and whose second column has nothing below the top row. */
  ghost predicate NoSecondPivotReady(m: Mat)
  {
    Wf(m) && m.rows == 3 && m.cols == 3 &&
    m.cells[1][0] == 0.0 && m.cells[2][0] == 0.0 && m.cells[1][1] == 0.0 && m.cells[2][1] == 0.0
  }

  /** Whether the third pass pivots or skips, it leaves the upper triangle with a zero on its diagonal. */
  lemma ThirdPassAfterNoPivot(g: Progress)
    requires WfSys(g.sys) && NoSecondPivotReady(g.sys.left)
    ensures UpperTriangular(GjeForward(g, 2).sys.left) && DiagonalProduct(GjeForward(g, 2).sys.left, 3) == 0.0
  {
    var l := g.sys.left;
    var g3 := GjeStep(g, 2);
    assert GjeForward(g3, 3) == g3;
    var d := l.cells[2][2];
    if Abs(d) >= Epsilon {
      assert FirstPivot(l, 2, 2) == Some(2);
      PassInPlace(g, 2);
      ScaleAndClearEntries(g.sys, 2, d);
      assert g3.sys.left.cells[2][0] == 0.0 * (1.0 / d) && g3.sys.left.cells[2][1] == 0.0 * (1.0 / d);
    } else {
      assert FirstPivot(l, 2, 2).None?;
    }
    DiagonalProduct3(g3.sys.left);
  }

  /**
   * When the second column has nothing below the top row, the second pass finds no pivot,
   * and whatever the third pass does, the forward loop leaves an upper triangle with a
   * zero on its diagonal.
   */
  lemma NoSecondPivot(g: Progress)
    requires WfSys(g.sys) && NoSecondPivotReady(g.sys.left)
    ensures UpperTriangular(GjeForward(g, 1).sys.left) && DiagonalProduct(GjeForward(g, 1).sys.left, 3) == 0.0
  {
    assert FirstPivot(g.sys.left, 1, 1).None?;
    assert GjeStep(g, 1) == g;
    ThirdPassAfterNoPivot(g);
  }

  /** A 3 x 3 matrix whose first pass leaves no pivot in column 1 has determinant 0. */
  lemma DetAfterFirstPassSingular(m: Mat)
    requires Wf(m) && m.rows == 3 && m.cols == 3
    requires NoSecondPivotReady(GjeStep(Start(m), 0).sys.left)
    ensures DetSpec(m) == Ok(0.0)
  {
    var g := Start(m);
    var g1 := GjeStep(g, 0);
    NoSecondPivot(g1);
    assert GjeForward(g, 0) == GjeForward(g1, 1);
    DetOfTriangularForward(m);
  }

  /** (1, 2, 3), (3, 6, 9), (2, 4, 6): one pivot out of three, so the determinant is 0. */
  lemma DetOfOnePivotExample()
    ensures DetSpec(Mat3([1.0, 2.0, 3.0], [3.0, 6.0, 9.0], [2.0, 4.0, 6.0])) == Ok(0.0)
  {
    var m := Mat3([1.0, 2.0, 3.0], [3.0, 6.0, 9.0], [2.0, 4.0, 6.0]);
    var w := Start(m).sys;
    assert w.left.cells[0][0] == 1.0 && w.left.cells[0][1] == 2.0;
    FirstPassInPlace(m);
    ScaleAndClearEntries(w, 0, 1.0);
    DetAfterFirstPassSingular(m);
  }

  /** (1, 2, 3), (3, 6, 7), (2, 4, 6): no pivot in the middle column, so the determinant is 0. */
  lemma DetOfMissingMiddlePivotExample()
    ensures DetSpec(Mat3([1.0, 2.0, 3.0], [3.0, 6.0, 7.0], [2.0, 4.0, 6.0])) == Ok(0.0)
  {
    var m := Mat3([1.0, 2.0, 3.0], [3.0, 6.0, 7.0], [2.0, 4.0, 6.0]);
    var w := Start(m).sys;
    assert w.left.cells[0][0] == 1.0 && w.left.cells[0][1] == 2.0;
    FirstPassInPlace(m);
    ScaleAndClearEntries(w, 0, 1.0);
    DetAfterFirstPassSingular(m);
  }

  /**
   * (1, 2, 3), (3, 6, 9), (2, 4, 2): no pivot in the middle column though the last one
   * has one, so the determinant is 0.
   */
  lemma DetOfMissingLastPivotExample()
    ensures DetSpec(Mat3([1.0, 2.0, 3.0], [3.0, 6.0, 9.0], [2.0, 4.0, 2.0])) == Ok(0.0)
  {
    var m := Mat3([1.0, 2.0, 3.0], [3.0, 6.0, 9.0], [2.0, 4.0, 2.0]);
    var w := Start(m).sys;
    assert w.left.cells[0][0] == 1.0 && w.left.cells[0][1] == 2.0;
    FirstPassInPlace(m);
    ScaleAndClearEntries(w, 0, 1.0);
    DetAfterFirstPassSingular(m);
  }
}
