/**
 * Dense matrices as values, and the algebra the engine's algorithms rely on:
 * the product, the identity, the dot product and the three elementary row
 * operations (swap, scale, add a multiple of another row).
 */
module MatrixValues {

  /** A rows x cols matrix; `cells[r][c]` is the entry the engine addresses as (col c, row r). */
  datatype Mat = Mat(rows: nat, cols: nat, cells: seq<seq<real>>)

  ghost predicate Wf(m: Mat) {
    |m.cells| == m.rows && forall r :: 0 <= r < m.rows ==> |m.cells[r]| == m.cols
  }

  function Zero(rows: nat, cols: nat): (z: Mat)
    ensures Wf(z) && z.rows == rows && z.cols == cols
  {
    Mat(rows, cols, seq(rows, _ => seq(cols, _ => 0.0)))
  }

  /** The unit vector e_k of length n. */
  function Unit(n: nat, k: nat): (u: seq<real>)
    ensures |u| == n
  {
    seq(n, i => if i == k then 1.0 else 0.0)
  }

  function Identity(n: nat): (id: Mat)
    ensures Wf(id) && id.rows == n && id.cols == n
    ensures forall r :: 0 <= r < n ==> id.cells[r] == Unit(n, r)
  {
    Mat(n, n, seq(n, r requires 0 <= r < n => Unit(n, r)))
  }

  /** The sum of u[i] * v[i], accumulated from index 0 upwards. */
  function Dot(u: seq<real>, v: seq<real>): real
    requires |u| == |v|
    decreases |u|
  {
    if |u| == 0 then 0.0 else Dot(u[..|u| - 1], v[..|v| - 1]) + u[|u| - 1] * v[|v| - 1]
  }

  function Column(m: Mat, c: nat): (col: seq<real>)
    requires Wf(m) && c < m.cols
    ensures |col| == m.rows
  {
    seq(m.rows, r requires 0 <= r < m.rows => m.cells[r][c])
  }

  /** The matrix product: cell (c, r) is the dot product of row r of a and column c of b. */
  function MatMul(a: Mat, b: Mat): (p: Mat)
    requires Wf(a) && Wf(b) && a.cols == b.rows
    ensures Wf(p) && p.rows == a.rows && p.cols == b.cols
  {
    Mat(a.rows, b.cols,
      seq(a.rows, r requires 0 <= r < a.rows =>
        seq(b.cols, c requires 0 <= c < b.cols => Dot(a.cells[r], Column(b, c)))))
  }

  /** Columns [c0, c1) and rows [r0, r1) of m, as a matrix of their own. */
  function SubMat(m: Mat, c0: nat, c1: nat, r0: nat, r1: nat): (v: Mat)
    requires Wf(m) && c0 <= c1 <= m.cols && r0 <= r1 <= m.rows
    ensures Wf(v) && v.rows == r1 - r0 && v.cols == c1 - c0
  {
    Mat(r1 - r0, c1 - c0, seq(r1 - r0, r requires 0 <= r < r1 - r0 => m.cells[r + r0][c0..c1]))
  }

  /** Cell (c, r) replaced by v. */
  function Update(m: Mat, c: nat, r: nat, v: real): (u: Mat)
    requires Wf(m) && c < m.cols && r < m.rows
    ensures Wf(u) && u.rows == m.rows && u.cols == m.cols
  {
    m.(cells := m.cells[r := m.cells[r][c := v]])
  }

  // ---------------------------------------------------------------- row operations

  function Scaled(u: seq<real>, s: real): (w: seq<real>)
    ensures |w| == |u|
  {
    seq(|u|, k requires 0 <= k < |u| => u[k] * s)
  }

  /** u + k * w, entry by entry. */
  function AddMultiple(u: seq<real>, k: real, w: seq<real>): (x: seq<real>)
    requires |u| == |w|
    ensures |x| == |u|
  {
    seq(|u|, i requires 0 <= i < |u| => u[i] + k * w[i])
  }

  function SwapRows(m: Mat, i: nat, j: nat): (s: Mat)
    requires Wf(m) && i < m.rows && j < m.rows
    ensures Wf(s) && s.rows == m.rows && s.cols == m.cols
  {
    m.(cells := m.cells[i := m.cells[j]][j := m.cells[i]])
  }

  function ScaleRow(m: Mat, i: nat, s: real): (x: Mat)
    requires Wf(m) && i < m.rows
    ensures Wf(x) && x.rows == m.rows && x.cols == m.cols
  {
    m.(cells := m.cells[i := Scaled(m.cells[i], s)])
  }

  /** Row `target` plus k times row `src`. */
  function AddRowMultiple(m: Mat, target: nat, src: nat, k: real): (x: Mat)
    requires Wf(m) && target < m.rows && src < m.rows
    ensures Wf(x) && x.rows == m.rows && x.cols == m.cols
  {
    m.(cells := m.cells[target := AddMultiple(m.cells[target], k, m.cells[src])])
  }

  // ------------------------------------------- row operations done one column at a time

  /** The first c columns taken from t, the others still from m. */
  ghost function Blend(m: Mat, t: Mat, c: nat): (x: Mat)
    requires Wf(m) && Wf(t) && t.rows == m.rows && t.cols == m.cols && c <= m.cols
    ensures Wf(x) && x.rows == m.rows && x.cols == m.cols
    ensures forall r, k :: 0 <= r < m.rows && 0 <= k < m.cols ==>
      x.cells[r][k] == if k < c then t.cells[r][k] else m.cells[r][k]
  {
    Mat(m.rows, m.cols, seq(m.rows, r requires 0 <= r < m.rows =>
      seq(m.cols, k requires 0 <= k < m.cols => if k < c then t.cells[r][k] else m.cells[r][k])))
  }

  lemma BlendNone(m: Mat, t: Mat)
    requires Wf(m) && Wf(t) && t.rows == m.rows && t.cols == m.cols
    ensures Blend(m, t, 0) == m
  {
    var x := Blend(m, t, 0);
    forall r | 0 <= r < m.rows
      ensures x.cells[r] == m.cells[r]
    {
    }
  }

  lemma BlendAll(m: Mat, t: Mat)
    requires Wf(m) && Wf(t) && t.rows == m.rows && t.cols == m.cols
    ensures Blend(m, t, m.cols) == t
  {
    var x := Blend(m, t, m.cols);
    forall r | 0 <= r < m.rows
      ensures x.cells[r] == t.cells[r]
    {
    }
  }

  /** Where t differs from m in column c only in row i, writing t's entry moves the blend on by one column. */
  lemma BlendStep(m: Mat, t: Mat, c: nat, i: nat)
    requires Wf(m) && Wf(t) && t.rows == m.rows && t.cols == m.cols && c < m.cols && i < m.rows
    requires forall r :: 0 <= r < m.rows && r != i ==> t.cells[r][c] == m.cells[r][c]
    ensures Update(Blend(m, t, c), c, i, t.cells[i][c]) == Blend(m, t, c + 1)
  {
    var x, y := Update(Blend(m, t, c), c, i, t.cells[i][c]), Blend(m, t, c + 1);
    forall r | 0 <= r < m.rows
      ensures x.cells[r] == y.cells[r]
    {
    }
  }

  /**
   * Where t differs from m in column c only in rows i and j, writing t's entries of
   * rows i and j (in that order) moves the blend on by one column.
   */
  lemma BlendStepTwo(m: Mat, t: Mat, c: nat, i: nat, j: nat)
    requires Wf(m) && Wf(t) && t.rows == m.rows && t.cols == m.cols && c < m.cols
    requires i < m.rows && j < m.rows
    requires forall r :: 0 <= r < m.rows && r != i && r != j ==> t.cells[r][c] == m.cells[r][c]
    ensures Update(Update(Blend(m, t, c), c, i, t.cells[i][c]), c, j, t.cells[j][c]) == Blend(m, t, c + 1)
  {
    var x, y := Update(Update(Blend(m, t, c), c, i, t.cells[i][c]), c, j, t.cells[j][c]), Blend(m, t, c + 1);
    forall r | 0 <= r < m.rows
      ensures x.cells[r] == y.cells[r]
    {
    }
  }

  /** The cells of p before (col, row) in row-major order; zeros from there on. */
  ghost function Filled(p: Mat, row: nat, col: nat): (x: Mat)
    requires Wf(p) && row <= p.rows && col <= p.cols
    ensures Wf(x) && x.rows == p.rows && x.cols == p.cols
    ensures forall r, c :: 0 <= r < p.rows && 0 <= c < p.cols ==>
      x.cells[r][c] == if r < row || (r == row && c < col) then p.cells[r][c] else 0.0
  {
    Mat(p.rows, p.cols, seq(p.rows, r requires 0 <= r < p.rows =>
      seq(p.cols, c requires 0 <= c < p.cols => if r < row || (r == row && c < col) then p.cells[r][c] else 0.0)))
  }

  lemma FilledNone(p: Mat)
    requires Wf(p)
    ensures Filled(p, 0, 0) == Zero(p.rows, p.cols)
  {
    var x := Filled(p, 0, 0);
    forall r | 0 <= r < p.rows
      ensures x.cells[r] == Zero(p.rows, p.cols).cells[r]
    {
    }
  }

  lemma FilledStep(p: Mat, row: nat, col: nat)
    requires Wf(p) && row < p.rows && col < p.cols
    ensures Update(Filled(p, row, col), col, row, p.cells[row][col]) == Filled(p, row, col + 1)
  {
    var x, y := Update(Filled(p, row, col), col, row, p.cells[row][col]), Filled(p, row, col + 1);
    forall r | 0 <= r < p.rows
      ensures x.cells[r] == y.cells[r]
    {
    }
  }

  lemma FilledNextRow(p: Mat, row: nat)
    requires Wf(p) && row < p.rows
    ensures Filled(p, row, p.cols) == Filled(p, row + 1, 0)
  {
    var x, y := Filled(p, row, p.cols), Filled(p, row + 1, 0);
    forall r | 0 <= r < p.rows
      ensures x.cells[r] == y.cells[r]
    {
    }
  }

  lemma FilledAll(p: Mat)
    requires Wf(p)
    ensures Filled(p, p.rows, 0) == p
  {
    var x := Filled(p, p.rows, 0);
    forall r | 0 <= r < p.rows
      ensures x.cells[r] == p.cells[r]
    {
    }
  }

  /** The cells of t before (col, row) in row-major order, the cells of m from there on. */
  ghost function Mixed(m: Mat, t: Mat, row: nat, col: nat): (x: Mat)
    requires Wf(m) && Wf(t) && t.rows == m.rows && t.cols == m.cols && row <= m.rows && col <= m.cols
    ensures Wf(x) && x.rows == m.rows && x.cols == m.cols
    ensures forall r, c :: 0 <= r < m.rows && 0 <= c < m.cols ==>
      x.cells[r][c] == if r < row || (r == row && c < col) then t.cells[r][c] else m.cells[r][c]
  {
    Mat(m.rows, m.cols, seq(m.rows, r requires 0 <= r < m.rows =>
      seq(m.cols, c requires 0 <= c < m.cols => if r < row || (r == row && c < col) then t.cells[r][c] else m.cells[r][c])))
  }

  lemma MixedNone(m: Mat, t: Mat)
    requires Wf(m) && Wf(t) && t.rows == m.rows && t.cols == m.cols
    ensures Mixed(m, t, 0, 0) == m
  {
    var x := Mixed(m, t, 0, 0);
    forall r | 0 <= r < m.rows
      ensures x.cells[r] == m.cells[r]
    {
    }
  }

  lemma MixedStep(m: Mat, t: Mat, row: nat, col: nat)
    requires Wf(m) && Wf(t) && t.rows == m.rows && t.cols == m.cols && row < m.rows && col < m.cols
    ensures Update(Mixed(m, t, row, col), col, row, t.cells[row][col]) == Mixed(m, t, row, col + 1)
  {
    var x, y := Update(Mixed(m, t, row, col), col, row, t.cells[row][col]), Mixed(m, t, row, col + 1);
    forall r | 0 <= r < m.rows
      ensures x.cells[r] == y.cells[r]
    {
    }
  }

  lemma MixedNextRow(m: Mat, t: Mat, row: nat)
    requires Wf(m) && Wf(t) && t.rows == m.rows && t.cols == m.cols && row < m.rows
    ensures Mixed(m, t, row, m.cols) == Mixed(m, t, row + 1, 0)
  {
    var x, y := Mixed(m, t, row, m.cols), Mixed(m, t, row + 1, 0);
    forall r | 0 <= r < m.rows
      ensures x.cells[r] == y.cells[r]
    {
    }
  }

  lemma MixedAll(m: Mat, t: Mat)
    requires Wf(m) && Wf(t) && t.rows == m.rows && t.cols == m.cols
    ensures Mixed(m, t, m.rows, 0) == t
  {
    var x := Mixed(m, t, m.rows, 0);
    forall r | 0 <= r < m.rows
      ensures x.cells[r] == t.cells[r]
    {
    }
  }

  // ------------------------------------------------------------- entry-wise operations

  /** Every entry of m times f. */
  function MatScale(m: Mat, f: real): (x: Mat)
    requires Wf(m)
    ensures Wf(x) && x.rows == m.rows && x.cols == m.cols
  {
    Mat(m.rows, m.cols, seq(m.rows, r requires 0 <= r < m.rows => Scaled(m.cells[r], f)))
  }

  /** a + b, entry by entry. */
  function MatAdd(a: Mat, b: Mat): (x: Mat)
    requires Wf(a) && Wf(b) && a.rows == b.rows && a.cols == b.cols
    ensures Wf(x) && x.rows == a.rows && x.cols == a.cols
  {
    Mat(a.rows, a.cols, seq(a.rows, r requires 0 <= r < a.rows => Plus(a.cells[r], b.cells[r])))
  }

  // -------------------------------------------------------------- dot product lemmas

  /** Extending both prefixes by one position adds that position's product. */
  lemma DotPrefixStep(u: seq<real>, v: seq<real>, i: nat)
    requires |u| == |v| && i < |u|
    ensures Dot(u[..i + 1], v[..i + 1]) == Dot(u[..i], v[..i]) + u[i] * v[i]
  {
    assert u[..i + 1][..i] == u[..i] && v[..i + 1][..i] == v[..i];
  }

  /** One step of a running sum: adding the next product extends the prefix by one. */
  lemma DotAccumulate(u: seq<real>, v: seq<real>, i: nat, acc: real, x: real, y: real)
    requires |u| == |v| && i < |u|
    requires acc == Dot(u[..i], v[..i]) && x == u[i] && y == v[i]
    ensures acc + x * y == Dot(u[..i + 1], v[..i + 1])
  {
    DotPrefixStep(u, v, i);
  }

  lemma {:induction false} DotSymmetric(u: seq<real>, v: seq<real>)
    requires |u| == |v|
    ensures Dot(u, v) == Dot(v, u)
    decreases |u|
  {
    if |u| > 0 {
      DotSymmetric(u[..|u| - 1], v[..|v| - 1]);
    }
  }

  lemma {:induction false} DotScaledLeft(u: seq<real>, v: seq<real>, s: real)
    requires |u| == |v|
    ensures Dot(Scaled(u, s), v) == s * Dot(u, v)
    decreases |u|
  {
    if |u| > 0 {
      var n := |u|;
      var a, b := Scaled(u, s)[..n - 1], Scaled(u[..n - 1], s);
      forall i | 0 <= i < n - 1
        ensures a[i] == b[i]
      {
      }
      assert a == b;
      DotScaledLeft(u[..n - 1], v[..n - 1], s);
    }
  }

  /** u + w, entry by entry. */
  function Plus(u: seq<real>, w: seq<real>): (x: seq<real>)
    requires |u| == |w|
    ensures |x| == |u|
  {
    seq(|u|, i requires 0 <= i < |u| => u[i] + w[i])
  }

  lemma {:induction false} DotPlusLeft(u: seq<real>, w: seq<real>, v: seq<real>)
    requires |u| == |w| == |v|
    ensures Dot(Plus(u, w), v) == Dot(u, v) + Dot(w, v)
    decreases |u|
  {
    if |u| > 0 {
      var n := |u|;
      var a, b := Plus(u, w)[..n - 1], Plus(u[..n - 1], w[..n - 1]);
      forall i | 0 <= i < n - 1
        ensures a[i] == b[i]
      {
      }
      assert a == b;
      DotPlusLeft(u[..n - 1], w[..n - 1], v[..n - 1]);
    }
  }

  lemma DotAddMultipleLeft(u: seq<real>, k: real, w: seq<real>, v: seq<real>)
    requires |u| == |w| == |v|
    ensures Dot(AddMultiple(u, k, w), v) == Dot(u, v) + k * Dot(w, v)
  {
    assert AddMultiple(u, k, w) == Plus(u, Scaled(w, k));
    DotPlusLeft(u, Scaled(w, k), v);
    DotScaledLeft(w, v, k);
  }



  /** `dot` is bilinear: linear in its second argument too. */
  lemma {:induction false} DotAddMultipleRight(u: seq<real>, v: seq<real>, k: real, w: seq<real>)
    requires |u| == |v| == |w|
    ensures Dot(u, AddMultiple(v, k, w)) == Dot(u, v) + k * Dot(u, w)
  {
    var x := AddMultiple(v, k, w);
    DotSymmetric(u, x);
    DotAddMultipleLeft(v, k, w, u);
    DotSymmetric(v, u);
    DotSymmetric(w, u);
  }

  /** Changing one position of both operands changes the sum by exactly that term. */
  lemma {:induction false} DotUpdate(u: seq<real>, v: seq<real>, i: nat, a: real, b: real)
    requires |u| == |v| && i < |u|
    ensures Dot(u[i := a], v[i := b]) == Dot(u, v) - u[i] * v[i] + a * b
    decreases |u|
  {
    var n := |u|;
    if i == n - 1 {
      assert u[i := a][..n - 1] == u[..n - 1];
      assert v[i := b][..n - 1] == v[..n - 1];
    } else {
      assert u[i := a][..n - 1] == u[..n - 1][i := a];
      assert v[i := b][..n - 1] == v[..n - 1][i := b];
      DotUpdate(u[..n - 1], v[..n - 1], i, a, b);
    }
  }

  lemma {:induction false} DotZeroLeft(v: seq<real>)
    ensures Dot(seq(|v|, _ => 0.0), v) == 0.0
    decreases |v|
  {
    if |v| > 0 {
      var n := |v|;
      assert seq(n, _ => 0.0)[..n - 1] == seq(n - 1, _ => 0.0);
      DotZeroLeft(v[..n - 1]);
    }
  }

  /** Multiplying by a unit vector selects one entry. */
  lemma DotUnitLeft(v: seq<real>, k: nat)
    requires k < |v|
    ensures Dot(Unit(|v|, k), v) == v[k]
  {
    var z := seq(|v|, _ => 0.0);
    assert Unit(|v|, k) == z[k := 1.0];
    assert v == v[k := v[k]];
    DotZeroLeft(v);
    DotUpdate(z, v, k, 1.0, v[k]);
  }

  lemma DotUnitRight(u: seq<real>, k: nat)
    requires k < |u|
    ensures Dot(u, Unit(|u|, k)) == u[k]
  {
    DotUnitLeft(u, k);
    DotSymmetric(u, Unit(|u|, k));
  }

  // ----------------------------------------------------------- matrix product lemmas

  lemma MatMulIdentityLeft(a: Mat)
    requires Wf(a)
    ensures MatMul(Identity(a.rows), a) == a
  {
    var p := MatMul(Identity(a.rows), a);
    forall r | 0 <= r < a.rows
      ensures p.cells[r] == a.cells[r]
    {
      forall c | 0 <= c < a.cols
        ensures p.cells[r][c] == a.cells[r][c]
      {
        DotUnitLeft(Column(a, c), r);
      }
    }
  }

  lemma MatMulIdentityRight(a: Mat)
    requires Wf(a)
    ensures MatMul(a, Identity(a.cols)) == a
  {
    var p := MatMul(a, Identity(a.cols));
    forall r | 0 <= r < a.rows
      ensures p.cells[r] == a.cells[r]
    {
      forall c | 0 <= c < a.cols
        ensures p.cells[r][c] == a.cells[r][c]
      {
        assert Column(Identity(a.cols), c) == Unit(a.cols, c);
        DotUnitRight(a.cells[r], c);
      }
    }
  }

  /** A row operation on the left factor is the same row operation on the product. */
  lemma MatMulSwapRows(x: Mat, y: Mat, i: nat, j: nat)
    requires Wf(x) && Wf(y) && x.cols == y.rows && i < x.rows && j < x.rows
    ensures MatMul(SwapRows(x, i, j), y) == SwapRows(MatMul(x, y), i, j)
  {
    var p, q := MatMul(SwapRows(x, i, j), y), SwapRows(MatMul(x, y), i, j);
    forall r | 0 <= r < x.rows
      ensures p.cells[r] == q.cells[r]
    {
    }
  }

  lemma MatMulScaleRow(x: Mat, y: Mat, i: nat, s: real)
    requires Wf(x) && Wf(y) && x.cols == y.rows && i < x.rows
    ensures MatMul(ScaleRow(x, i, s), y) == ScaleRow(MatMul(x, y), i, s)
  {
    var p, q := MatMul(ScaleRow(x, i, s), y), ScaleRow(MatMul(x, y), i, s);
    forall c | 0 <= c < y.cols
      ensures p.cells[i][c] == q.cells[i][c]
    {
      DotScaledLeft(x.cells[i], Column(y, c), s);
    }
    assert p.cells[i] == q.cells[i];
    forall r | 0 <= r < x.rows
      ensures p.cells[r] == q.cells[r]
    {
    }
  }

  lemma MatMulAddRowMultiple(x: Mat, y: Mat, target: nat, src: nat, k: real)
    requires Wf(x) && Wf(y) && x.cols == y.rows && target < x.rows && src < x.rows
    ensures MatMul(AddRowMultiple(x, target, src, k), y) == AddRowMultiple(MatMul(x, y), target, src, k)
  {
    var p, q := MatMul(AddRowMultiple(x, target, src, k), y), AddRowMultiple(MatMul(x, y), target, src, k);
    forall c | 0 <= c < y.cols
      ensures p.cells[target][c] == q.cells[target][c]
    {
      DotAddMultipleLeft(x.cells[target], k, x.cells[src], Column(y, c));
    }
    assert p.cells[target] == q.cells[target];
    forall r | 0 <= r < x.rows
      ensures p.cells[r] == q.cells[r]
    {
    }
  }

  // ------------------------------------------------------------- undoing row operations

  lemma SwapRowsUndo(m: Mat, i: nat, j: nat)
    requires Wf(m) && i < m.rows && j < m.rows
    ensures SwapRows(SwapRows(m, i, j), i, j) == m
  {
    var x := SwapRows(SwapRows(m, i, j), i, j);
    forall r | 0 <= r < m.rows
      ensures x.cells[r] == m.cells[r]
    {
    }
  }

  lemma ScaleRowUndo(m: Mat, i: nat, s: real)
    requires Wf(m) && i < m.rows && s != 0.0
    ensures ScaleRow(ScaleRow(m, i, s), i, 1.0 / s) == m
  {
    var x := ScaleRow(ScaleRow(m, i, s), i, 1.0 / s);
    forall c | 0 <= c < m.cols
      ensures x.cells[i][c] == m.cells[i][c]
    {
      assert x.cells[i][c] == m.cells[i][c] * s * (1.0 / s);
    }
    forall r | 0 <= r < m.rows
      ensures x.cells[r] == m.cells[r]
    {
    }
  }

  lemma AddRowMultipleUndo(m: Mat, target: nat, src: nat, k: real)
    requires Wf(m) && target < m.rows && src < m.rows && target != src
    ensures AddRowMultiple(AddRowMultiple(m, target, src, k), target, src, -k) == m
  {
    var x := AddRowMultiple(AddRowMultiple(m, target, src, k), target, src, -k);
    forall c | 0 <= c < m.cols
      ensures x.cells[target][c] == m.cells[target][c]
    {
    }
    forall r | 0 <= r < m.rows
      ensures x.cells[r] == m.cells[r]
    {
    }
  }
}
