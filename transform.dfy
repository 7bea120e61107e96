/**
 * The transform compiler and rasterizer of transform.mjs: three 3 x 3 homogeneous
 * generators, the table that turns a parsed command into one of them, the left-to-right
 * product of a command string, the integer bounding box of the mapped corners, and
 * `transform`, which maps every destination pixel back into the source image.
 */
module Transforms {
  import opened Wrappers
  import opened Numbers
  import opened MatrixValues
  import opened Layouts
  import opened Elimination
  import opened GaussJordan
  import opened Matrices
  import opened Augmented
  import opened Bitmaps
  import opened Commands

  // ------------------------------------------------------------------------ generators

  /** A 3 x 3 matrix from its rows. */
  function Mat3(r0: seq<real>, r1: seq<real>, r2: seq<real>): (m: Mat)
    requires |r0| == 3 && |r1| == 3 && |r2| == 3
    ensures Wf(m) && m.rows == 3 && m.cols == 3
  {
    Mat(3, 3, [r0, r1, r2])
  }

  /** A homogeneous 2D transform: 3 x 3 with bottom row (0, 0, 1). */
  ghost predicate Affine(m: Mat) {
    Wf(m) && m.rows == 3 && m.cols == 3 && m.cells[2] == [0.0, 0.0, 1.0]
  }

  /** `scale(x, y)`: diag(x, y, 1). */
  function Scale(x: real, y: real): (m: Mat)
    ensures Affine(m)
  {
    Mat3([x, 0.0, 0.0], [0.0, y, 0.0], [0.0, 0.0, 1.0])
  }

  /** `rotate`, given the cosine and sine of the angle. */
  function Rotate(cos: real, sin: real): (m: Mat)
    ensures Affine(m)
  {
    Mat3([cos, -sin, 0.0], [sin, cos, 0.0], [0.0, 0.0, 1.0])
  }

  /** `translate(x, y)`: the identity with x and y in the last column. */
  function Translate(x: real, y: real): (m: Mat)
    ensures Affine(m)
  {
    Mat3([1.0, 0.0, x], [0.0, 1.0, y], [0.0, 0.0, 1.0])
  }

  /** A dot product of two 3-vectors, written out. */
  lemma Dot3(u: seq<real>, v: seq<real>)
    requires |u| == 3 && |v| == 3
    ensures Dot(u, v) == u[0] * v[0] + u[1] * v[1] + u[2] * v[2]
  {
    assert u[..2][..1] == u[..1] && v[..2][..1] == v[..1];
    assert u[..1][..0] == [] && v[..1][..0] == [];
    assert Dot(u[..1], v[..1]) == u[0] * v[0];
    assert Dot(u[..2], v[..2]) == u[0] * v[0] + u[1] * v[1];
    assert u[..3] == u && v[..3] == v;
  }

  /** One cell of a product whose inner dimension is 3. */
  lemma ProductCell(a: Mat, b: Mat, r: nat, c: nat)
    requires Wf(a) && Wf(b) && a.cols == 3 && b.rows == 3 && r < a.rows && c < b.cols
    ensures MatMul(a, b).cells[r][c] ==
      a.cells[r][0] * b.cells[0][c] + a.cells[r][1] * b.cells[1][c] + a.cells[r][2] * b.cells[2][c]
  {
    Dot3(a.cells[r], Column(b, c));
  }

  /** Two 3 x 3 matrices with the same nine cells are equal. */
  lemma SameCells3(p: Mat, q: Mat)
    requires Wf(p) && Wf(q) && p.rows == q.rows == 3 && p.cols == q.cols == 3
    requires forall r, c :: 0 <= r < 3 && 0 <= c < 3 ==> p.cells[r][c] == q.cells[r][c]
    ensures p == q
  {
    forall r | 0 <= r < 3
      ensures p.cells[r] == q.cells[r]
    {
    }
  }

  /** The product of two homogeneous transforms is one: the bottom row stays (0, 0, 1). */
  lemma AffineProduct(a: Mat, b: Mat)
    requires Affine(a) && Affine(b)
    ensures Affine(MatMul(a, b))
  {
    var p := MatMul(a, b);
    forall c | 0 <= c < 3
      ensures p.cells[2][c] == b.cells[2][c]
    {
      ProductCell(a, b, 2, c);
    }
  }

  /** All nine cells of a product of 3 x 3 matrices. */
  lemma Product3(a: Mat, b: Mat)
    requires Wf(a) && Wf(b) && a.rows == a.cols == b.rows == b.cols == 3
    ensures forall r, c :: 0 <= r < 3 && 0 <= c < 3 ==>
      (MatMul(a, b).cells[r][c] ==
       a.cells[r][0] * b.cells[0][c] + a.cells[r][1] * b.cells[1][c] + a.cells[r][2] * b.cells[2][c])
  {
    forall r, c | 0 <= r < 3 && 0 <= c < 3 {
      ProductCell(a, b, r, c);
    }
  }

  /** Scalings compose by multiplying their factors. */
  lemma ScalesCompose(a: real, b: real, c: real, d: real)
    ensures MatMul(Scale(a, b), Scale(c, d)) == Scale(a * c, b * d)
  {
    Product3(Scale(a, b), Scale(c, d));
    SameCells3(MatMul(Scale(a, b), Scale(c, d)), Scale(a * c, b * d));
  }

  /** Translations compose by adding their offsets. */
  lemma TranslationsCompose(a: real, b: real, c: real, d: real)
    ensures MatMul(Translate(a, b), Translate(c, d)) == Translate(a + c, b + d)
  {
    Product3(Translate(a, b), Translate(c, d));
    SameCells3(MatMul(Translate(a, b), Translate(c, d)), Translate(a + c, b + d));
  }

  /** `scale(1, 1)`, the start of every product, is the identity. */
  lemma UnitScaleIsIdentity()
    ensures Scale(1.0, 1.0) == Identity(3)
  {
    SameCells3(Scale(1.0, 1.0), Identity(3));
  }

  /** A translation is undone by the opposite translation. */
  lemma TranslationUndone(x: real, y: real)
    ensures MatMul(Translate(x, y), Translate(-x, -y)) == Identity(3)
  {
    TranslationsCompose(x, y, -x, -y);
    SameCells3(Translate(0.0, 0.0), Identity(3));
  }

  /** A scaling by nonzero factors is undone by the reciprocal scaling. */
  lemma ScaleUndone(x: real, y: real)
    requires x != 0.0 && y != 0.0
    ensures MatMul(Scale(x, y), Scale(1.0 / x, 1.0 / y)) == Identity(3)
  {
    var p, q := 1.0 / x, 1.0 / y;
    ScalesCompose(x, y, p, q);
    assert x * p == 1.0 && y * q == 1.0;
    assert MatMul(Scale(x, y), Scale(p, q)) == Scale(1.0, 1.0);
    UnitScaleIsIdentity();
  }

  /** A rotation is undone by the rotation through the opposite angle (same cosine, opposite sine). */
  lemma RotationUndone(cos: real, sin: real)
    requires cos * cos + sin * sin == 1.0
    ensures MatMul(Rotate(cos, sin), Rotate(cos, -sin)) == Identity(3)
  {
    Product3(Rotate(cos, sin), Rotate(cos, -sin));
    SameCells3(MatMul(Rotate(cos, sin), Rotate(cos, -sin)), Identity(3));
  }

  // ------------------------------------------------------------------ the command table

  /**
   * Math.cos and Math.sin of `degrees * Math.PI / 180`, which the model does not compute:
   * the cosine and the sine of an angle given in degrees.
   */
  type Trig = real -> (real, real)

  /** The names the command table of `computeTransformMatrix` knows. */
  predicate Supported(name: string) {
    name == "scale" || name == "scaleX" || name == "scaleY" || name == "rotate" ||
    name == "translate" || name == "translateX" || name == "translateY"
  }

  /** How many numbers each generator needs before none of its entries is undefined. */
  function Arity(name: string): nat {
    if name == "translate" then 2 else 1
  }

  /**
   * `commandMap[name](...inputs)`: an unknown name raises; `scale` with one number scales
   * both axes by it, and extra numbers are ignored.
   */
  function Generate(c: Command, trig: Trig): (r: Result<Mat>)
    ensures r.Ok? ==> Affine(r.value)
  {
    if !Supported(c.name) then Err(UnsupportedCommand(c.name))
    else if |c.inputs| < Arity(c.name) then Err(MissingArgument(c.name))
    else
      var x := c.inputs[0];
      if c.name == "scale" then Ok(Scale(x, if |c.inputs| >= 2 then c.inputs[1] else x))
      else if c.name == "scaleX" then Ok(Scale(x, 1.0))
      else if c.name == "scaleY" then Ok(Scale(1.0, x))
      else if c.name == "rotate" then Ok(Rotate(trig(x).0, trig(x).1))
      else if c.name == "translate" then Ok(Translate(x, c.inputs[1]))
      else if c.name == "translateX" then Ok(Translate(x, 0.0))
      else Ok(Translate(0.0, x))
  }

  /** A command is refused exactly when its name is unknown or it lacks a number. */
  lemma GenerateFails(c: Command, trig: Trig)
    ensures Generate(c, trig).Err? <==> !Supported(c.name) || |c.inputs| < Arity(c.name)
    ensures !Supported(c.name) ==> Generate(c, trig) == Err(UnsupportedCommand(c.name))
  {
  }

  // -------------------------------------------------------------- computeTransformMatrix

  /** The product acc * C1 * ... * Cn of the commands' matrices, or the first refusal. */
  function Compose(acc: Mat, cmds: seq<Command>, trig: Trig): (r: Result<Mat>)
    requires Affine(acc)
    ensures r.Ok? ==> Affine(r.value)
    decreases |cmds|
  {
    if cmds == [] then Ok(acc)
    else
      match Generate(cmds[0], trig)
      case Err(e) => Err(e)
      case Ok(m) =>
        AffineProduct(acc, m);
        Compose(MatMul(acc, m), cmds[1..], trig)
  }

  /** What `computeTransformMatrix` returns for a parsed command list: scale(1, 1) times every command. */
  function TransformMatrixOf(cmds: seq<Command>, trig: Trig): (r: Result<Mat>)
  {
    Compose(Scale(1.0, 1.0), cmds, trig)
  }

  /** One more command multiplies the product so far on the right. */
  lemma {:induction false} ComposeAppend(acc: Mat, cmds: seq<Command>, c: Command, trig: Trig)
    requires Affine(acc)
    ensures Compose(acc, cmds + [c], trig) ==
      match Compose(acc, cmds, trig)
      case Err(e) => Err(e)
      case Ok(m) =>
        match Generate(c, trig)
        case Err(e) => Err(e)
        case Ok(g) => Ok(MatMul(m, g))
    decreases |cmds|
  {
    if cmds == [] {
      assert [] + [c] == [c];
      assert [c][1..] == [];
    } else {
      assert (cmds + [c])[0] == cmds[0];
      assert (cmds + [c])[1..] == cmds[1..] + [c];
      match Generate(cmds[0], trig)
      case Err(e) =>
      case Ok(m) =>
        AffineProduct(acc, m);
        ComposeAppend(MatMul(acc, m), cmds[1..], c, trig);
    }
  }

  /**
   * The product fails exactly when some command is refused, and then with the refusal of
   * the first such command.
   */
  lemma {:induction false} ComposeFails(acc: Mat, cmds: seq<Command>, trig: Trig)
    requires Affine(acc)
    ensures Compose(acc, cmds, trig).Err? <==> exists k :: 0 <= k < |cmds| && Generate(cmds[k], trig).Err?
    ensures Compose(acc, cmds, trig).Err? ==>
      exists k :: (0 <= k < |cmds| && Generate(cmds[k], trig).Err? &&
        Compose(acc, cmds, trig).error == Generate(cmds[k], trig).error &&
        forall j :: 0 <= j < k ==> Generate(cmds[j], trig).Ok?)
    decreases |cmds|
  {
    if cmds != [] {
      match Generate(cmds[0], trig)
      case Err(e) =>
      case Ok(m) =>
        AffineProduct(acc, m);
        ComposeFails(MatMul(acc, m), cmds[1..], trig);
        if Compose(acc, cmds, trig).Err? {
          var k :| 0 <= k < |cmds[1..]| && Generate(cmds[1..][k], trig).Err? && Compose(acc, cmds, trig).error == Generate(cmds[1..][k], trig).error &&
            forall j :: 0 <= j < k ==> Generate(cmds[1..][j], trig).Ok?;
          assert forall j :: 0 <= j < k + 1 ==> Generate(cmds[j], trig).Ok? by {
            forall j | 0 <= j < k + 1
              ensures Generate(cmds[j], trig).Ok?
            {
              if j > 0 {
                assert cmds[j] == cmds[1..][j - 1];
              }
            }
          }
          assert cmds[k + 1] == cmds[1..][k];
        }
        if exists k :: 0 <= k < |cmds| && Generate(cmds[k], trig).Err? {
          var k :| 0 <= k < |cmds| && Generate(cmds[k], trig).Err?;
          assert k > 0 && cmds[1..][k - 1] == cmds[k];
        }
    }
  }

  /** The empty command string gives the identity. */
  lemma EmptyCommandsGiveIdentity(trig: Trig)
    ensures TransformMatrixOf(ParseCommands(""), trig) == Ok(Identity(3))
  {
    UnitScaleIsIdentity();
  }

  /** A single command gives exactly that command's matrix. */
  lemma SingleCommand(c: Command, trig: Trig)
    ensures TransformMatrixOf([c], trig) == Generate(c, trig)
  {
    UnitScaleIsIdentity();
    assert [c][0] == c && [c][1..] == [];
    if Generate(c, trig).Ok? {
      var g := Generate(c, trig).value;
      MatMulIdentityLeft(g);
      assert Compose(MatMul(Identity(3), g), [], trig) == Ok(g);
    }
  }

  // ------------------------------------------------------------- matrices from literals

  /** The rows of a matrix one after another: the array literal a generator hands to `new Matrix`. */
  function Flatten(rows: seq<seq<real>>, cols: nat): (flat: seq<real>)
    requires forall r :: 0 <= r < |rows| ==> |rows[r]| == cols
    ensures |flat| == |rows| * cols
  {
    if rows == [] then [] else Flatten(rows[..|rows| - 1], cols) + rows[|rows| - 1]
  }

  /** Cell (c, r) sits at index cols * r + c of the flattened rows. */
  lemma {:induction false} FlattenAt(rows: seq<seq<real>>, cols: nat, r: nat, c: nat)
    requires forall k :: 0 <= k < |rows| ==> |rows[k]| == cols
    requires r < |rows| && c < cols
    ensures cols * r + c < |Flatten(rows, cols)| && Flatten(rows, cols)[cols * r + c] == rows[r][c]
  {
    var n := |rows|;
    var front := rows[..n - 1];
    if r < n - 1 {
      MulMonotone(cols, r + 1, n - 1);
      FlattenAt(front, cols, r, c);
    } else {
      assert |Flatten(front, cols)| == cols * r;
    }
  }

  /** A root matrix over the flattened rows of m shows m. */
  lemma FlattenRead(m: Mat)
    requires Wf(m)
    ensures Read(Flatten(m.cells, m.cols), Root(m.rows, m.cols)) == m
  {
    var x := Read(Flatten(m.cells, m.cols), Root(m.rows, m.cols));
    forall r | 0 <= r < m.rows
      ensures x.cells[r] == m.cells[r]
    {
      forall c | 0 <= c < m.cols
        ensures x.cells[r][c] == m.cells[r][c]
      {
        FlattenAt(m.cells, m.cols, r, c);
        assert Index(Root(m.rows, m.cols), c, r) == m.cols * r + c;
      }
    }
  }

  /** `new Matrix(rows, cols, new Float32Array([...]))` for the cells of m. */
  method NewMatrix(m: Mat) returns (x: Matrix)
    requires Wf(m)
    ensures fresh(x) && fresh(x.data) && x.Valid() && x.Shape() == Root(m.rows, m.cols) && x.Value() == m
  {
    var flat := Flatten(m.cells, m.cols);
    var buf := new real[|flat|](i requires 0 <= i < |flat| => flat[i]);
    assert buf[..] == flat;
    x := new Matrix(m.rows, m.cols, Some(buf), 0, 0, 0);
    FlattenRead(m);
  }

  /**
   * `computeTransformMatrix(commands)`: starting from scale(1, 1), each parsed command's
   * matrix is looked up and multiplied on the right; an unknown command raises.
   */
  method ComputeTransformMatrix(commands: string, trig: Trig) returns (r: Result<Matrix>)
    ensures r.Err? <==> TransformMatrixOf(ParseCommands(commands), trig).Err?
    ensures r.Err? ==> r.error == TransformMatrixOf(ParseCommands(commands), trig).error
    ensures r.Ok? ==> fresh(r.value) && fresh(r.value.data) && r.value.Valid() && r.value.Shape() == Root(3, 3)
    ensures r.Ok? ==> r.value.Value() == TransformMatrixOf(ParseCommands(commands), trig).value
  {
    var transformMatrix := NewMatrix(Scale(1.0, 1.0));
    var commandList := ParseTransformCommands(commands);
    ghost var goal := TransformMatrixOf(commandList, trig);
    for k := 0 to |commandList|
      invariant fresh(transformMatrix) && fresh(transformMatrix.data)
      invariant transformMatrix.Valid() && transformMatrix.Shape() == Root(3, 3)
      invariant Affine(transformMatrix.Value()) && Compose(transformMatrix.Value(), commandList[k..], trig) == goal
    {
      assert commandList[k..][0] == commandList[k] && commandList[k..][1..] == commandList[k + 1..];
      var rightMatrix := Generate(commandList[k], trig);
      if rightMatrix.Err? {
        return Err(rightMatrix.error);
      }
      var right := NewMatrix(rightMatrix.value);
      AffineProduct(transformMatrix.Value(), right.Value());
      var product := transformMatrix.Multiply(right);
      transformMatrix := product.value;
    }
    return Ok(transformMatrix);
  }

  // ------------------------------------------------------------------ mapping points

  /** The homogeneous column vector (x, y, 1). */
  function Column3(x: real, y: real): (v: Mat)
    ensures Wf(v) && v.rows == 3 && v.cols == 1
  {
    Mat(3, 1, [[x], [y], [1.0]])
  }

  /** Row r of t applied to the homogeneous vector (dx, dy, 1). */
  function RowApplied(t: Mat, r: nat, dx: real, dy: real): real
    requires Wf(t) && t.rows == 3 && t.cols == 3 && r < 3
  {
    t.cells[r][0] * dx + t.cells[r][1] * dy + t.cells[r][2]
  }

  /**
   * Where a 3 x 3 transform t sends the point (x, y) when it acts around the origin
   * (ox, oy): the first two rows applied to the offset from the origin, origin added back.
   */
  function MapPoint(t: Mat, x: real, y: real, ox: real, oy: real): (real, real)
    requires Wf(t) && t.rows == 3 && t.cols == 3
  {
    (RowApplied(t, 0, x - ox, y - oy) + ox, RowApplied(t, 1, x - ox, y - oy) + oy)
  }

  /** Row r of t times the column (dx, dy, 1) is row r of t applied to (dx, dy). */
  lemma ColumnProduct(t: Mat, dx: real, dy: real)
    requires Wf(t) && t.rows == 3 && t.cols == 3
    ensures forall r :: 0 <= r < 3 ==> MatMul(t, Column3(dx, dy)).cells[r][0] == RowApplied(t, r, dx, dy)
  {
    var v := Column3(dx, dy);
    assert v.cells[0][0] == dx && v.cells[1][0] == dy && v.cells[2][0] == 1.0;
    ProductCell(t, v, 0, 0);
    ProductCell(t, v, 1, 0);
    ProductCell(t, v, 2, 0);
  }

  /** One coordinate of the two-step map, regrouped: the row of a product applied at once. */
  lemma Regroup(a0: real, a1: real, a2: real, b00: real, b01: real, b02: real, b10: real, b11: real, b12: real, dx: real, dy: real)
    ensures (a0 * b00 + a1 * b10) * dx + (a0 * b01 + a1 * b11) * dy + (a0 * b02 + a1 * b12 + a2) ==
      a0 * (b00 * dx + b01 * dy + b02) + a1 * (b10 * dx + b11 * dy + b12) + a2
  {
    assert a0 * (b00 * dx + b01 * dy + b02) == a0 * b00 * dx + a0 * b01 * dy + a0 * b02;
    assert a1 * (b10 * dx + b11 * dy + b12) == a1 * b10 * dx + a1 * b11 * dy + a1 * b12;
  }

  /**
   * Row r of a * b applied to (dx, dy, 1) is row r of a applied to b's image of that
   * vector, when b keeps the last coordinate at 1.
   */
  lemma RowOfProduct(a: Mat, b: Mat, r: nat, dx: real, dy: real)
    requires Wf(a) && a.rows == 3 && a.cols == 3 && Affine(b) && r < 3
    ensures RowApplied(MatMul(a, b), r, dx, dy) == RowApplied(a, r, RowApplied(b, 0, dx, dy), RowApplied(b, 1, dx, dy))
  {
    ProductCell(a, b, r, 0);
    ProductCell(a, b, r, 1);
    ProductCell(a, b, r, 2);
    assert b.cells[2] == [0.0, 0.0, 1.0];
    Regroup(a.cells[r][0], a.cells[r][1], a.cells[r][2], b.cells[0][0], b.cells[0][1], b.cells[0][2],
            b.cells[1][0], b.cells[1][1], b.cells[1][2], dx, dy);
  }

  /** Mapping by a product maps by the right factor first, then by the left one. */
  lemma MapPointProduct(a: Mat, b: Mat, x: real, y: real, ox: real, oy: real)
    requires Wf(a) && a.rows == 3 && a.cols == 3 && Affine(b)
    ensures var q := MapPoint(b, x, y, ox, oy);
      MapPoint(MatMul(a, b), x, y, ox, oy) == MapPoint(a, q.0, q.1, ox, oy)
  {
    var dx, dy := x - ox, y - oy;
    var qx, qy := RowApplied(b, 0, dx, dy), RowApplied(b, 1, dx, dy);
    assert MapPoint(b, x, y, ox, oy) == (qx + ox, qy + oy);
    assert qx + ox - ox == qx && qy + oy - oy == qy;
    RowOfProduct(a, b, 0, dx, dy);
    RowOfProduct(a, b, 1, dx, dy);
  }

  /** The identity leaves every point where it is. */
  lemma MapPointIdentity(x: real, y: real, ox: real, oy: real)
    ensures MapPoint(Identity(3), x, y, ox, oy) == (x, y)
  {
  }

  /** A translation moves every point by its offsets, whatever the origin. */
  lemma MapPointTranslate(a: real, b: real, x: real, y: real, ox: real, oy: real)
    ensures MapPoint(Translate(a, b), x, y, ox, oy) == (x + a, y + b)
  {
  }

  /** A point mapped by t and then by a left inverse of t comes back to where it was. */
  lemma MapPointUndone(t: Mat, inv: Mat, x: real, y: real, ox: real, oy: real)
    requires Affine(t) && Wf(inv) && inv.rows == 3 && inv.cols == 3 && MatMul(inv, t) == Identity(3)
    ensures var q := MapPoint(t, x, y, ox, oy); MapPoint(inv, q.0, q.1, ox, oy) == (x, y)
  {
    MapPointProduct(inv, t, x, y, ox, oy);
    MapPointIdentity(x, y, ox, oy);
  }

  // ----------------------------------------------------------------- computeBoundingBox

  /** `Math.min(...xs)` of a non-empty list. */
  function MinOf(xs: seq<real>): (m: real)
    requires |xs| > 0
    ensures m in xs && forall k :: 0 <= k < |xs| ==> m <= xs[k]
  {
    if |xs| == 1 then xs[0]
    else
      var rest := MinOf(xs[1..]);
      if xs[0] <= rest then xs[0] else rest
  }

  /** `Math.max(...xs)` of a non-empty list. */
  function MaxOf(xs: seq<real>): (m: real)
    requires |xs| > 0
    ensures m in xs && forall k :: 0 <= k < |xs| ==> xs[k] <= m
  {
    if |xs| == 1 then xs[0]
    else
      var rest := MaxOf(xs[1..]);
      if xs[0] >= rest then xs[0] else rest
  }

  datatype Box = Box(top: int, right: int, bottom: int, left: int)

  /**
   * `computeBoundingBox`: left and top are the minima truncated by `|0`, right and bottom
   * the maxima rounded up by `Math.ceil`.
   */
  function BoundingBox(xs: seq<real>, ys: seq<real>): Box
    requires |xs| > 0 && |ys| > 0
  {
    Box(ToInt32(MinOf(ys)), Ceil(MaxOf(xs)), Ceil(MaxOf(ys)), ToInt32(MinOf(xs)))
  }

  /** A 32-bit signed number. */
  predicate InInt32(x: real) {
    -(TwoTo31 as real) < x < TwoTo31 as real
  }

  /**
   * Along one axis: every coordinate lies at most at the far edge, and, while the least
   * coordinate fits in 32 bits, strictly less than one pixel before the near edge (the
   * truncation of a negative minimum rounds it up), so the near edge never passes the far one.
   */
  lemma {:induction false} EdgesAround(vs: seq<real>)
    requires |vs| > 0
    ensures forall k :: 0 <= k < |vs| ==> vs[k] <= Ceil(MaxOf(vs)) as real
    ensures InInt32(MinOf(vs)) ==> ToInt32(MinOf(vs)) <= Ceil(MaxOf(vs))
    ensures InInt32(MinOf(vs)) ==> forall k :: 0 <= k < |vs| ==> ToInt32(MinOf(vs)) as real - 1.0 < vs[k]
    ensures InInt32(MinOf(vs)) && MinOf(vs) >= 0.0 ==> forall k :: 0 <= k < |vs| ==> ToInt32(MinOf(vs)) as real <= vs[k]
  {
    var lo, hi := MinOf(vs), MaxOf(vs);
    if InInt32(lo) {
      assert ToInt32(lo) == Trunc(lo);
      assert lo <= hi by {
        assert vs[0] in vs;
      }
    }
  }

  /** The bounding box of points whose least coordinates fit in 32 bits is well ordered. */
  lemma BoxOrdered(xs: seq<real>, ys: seq<real>)
    requires |xs| > 0 && |ys| > 0 && InInt32(MinOf(xs)) && InInt32(MinOf(ys))
    ensures BoundingBox(xs, ys).left <= BoundingBox(xs, ys).right
    ensures BoundingBox(xs, ys).top <= BoundingBox(xs, ys).bottom
  {
    EdgesAround(xs);
    EdgesAround(ys);
  }

  // ------------------------------------------------------------------------ transform

  /** `(n || 1)`: an extent of zero pixels still makes a one-pixel image. */
  function OrOne(n: int): int {
    if n == 0 then 1 else n
  }

  /** The origin `transform` turns about: the one given, else the centre of the image. */
  function OriginOf(width: nat, height: nat, origin: Option<(real, real)>): (real, real) {
    if origin.Some? then origin.value else (width as real / 2.0, height as real / 2.0)
  }

  /** The x coordinates of the corners (0, 0), (w, 0), (0, h), (w, h) after `t`. */
  function CornerXs(t: Mat, width: nat, height: nat, o: (real, real)): (xs: seq<real>)
    requires Wf(t) && t.rows == 3 && t.cols == 3
    ensures |xs| == 4
  {
    [MapPoint(t, 0.0, 0.0, o.0, o.1).0, MapPoint(t, width as real, 0.0, o.0, o.1).0,
     MapPoint(t, 0.0, height as real, o.0, o.1).0, MapPoint(t, width as real, height as real, o.0, o.1).0]
  }

  /** The y coordinates of the same four corners. */
  function CornerYs(t: Mat, width: nat, height: nat, o: (real, real)): (ys: seq<real>)
    requires Wf(t) && t.rows == 3 && t.cols == 3
    ensures |ys| == 4
  {
    [MapPoint(t, 0.0, 0.0, o.0, o.1).1, MapPoint(t, width as real, 0.0, o.0, o.1).1,
     MapPoint(t, 0.0, height as real, o.0, o.1).1, MapPoint(t, width as real, height as real, o.0, o.1).1]
  }

  /**
   * What `transform` decides before it paints: the bounding box, the size of the new
   * image, and the inverse it samples through (None when the matrix is too close to
   * singular, in which case the new image stays blank).
   */
  datatype Plan = Plan(box: Box, width: int, height: int, inverse: Option<Mat>)

  /** The integer box `computeBoundingBox` puts around the four corners moved by `t`. */
  function BoxFor(t: Mat, width: nat, height: nat, o: (real, real)): Box
    requires Wf(t) && t.rows == 3 && t.cols == 3
  {
    BoundingBox(CornerXs(t, width, height, o), CornerYs(t, width, height, o))
  }

  /**
   * The determinant test and inverse of `transform`: None when |det t| < EPSILON (the image
   * is left blank), else the inverse it samples through, or the error either step raises.
   */
  function Sampler(t: Mat): (r: Result<Option<Mat>>)
    requires Wf(t) && t.rows == 3 && t.cols == 3
    ensures r.Ok? && r.value.Some? ==> Wf(r.value.value) && r.value.value.rows == 3 && r.value.value.cols == 3
  {
    match DetSpec(t)
    case Err(e) => Err(e)
    case Ok(d) =>
      if Abs(d) < Epsilon then Ok(None)
      else match InverseSpec(t)
        case Err(e) => Err(e)
        case Ok(inv) =>
          InverseSpecReduces(t);
          Ok(Some(inv))
  }

  /** The decisions of `transform` once its matrix is known: box, image size, then the sampler. */
  function PlanFor(t: Mat, width: nat, height: nat, o: (real, real)): (r: Result<Plan>)
    requires Wf(t) && t.rows == 3 && t.cols == 3
    ensures r.Ok? ==> r.value.width > 0 && r.value.height > 0
    ensures r.Ok? ==> 0 <= r.value.box.right - r.value.box.left <= r.value.width
    ensures r.Ok? ==> 0 <= r.value.box.bottom - r.value.box.top <= r.value.height
    ensures r.Ok? && r.value.inverse.Some? ==>
      Wf(r.value.inverse.value) && r.value.inverse.value.rows == 3 && r.value.inverse.value.cols == 3
  {
    PlanOf(BoxFor(t, width, height, o), Sampler(t))
  }

  /** Given the box and the sampler: the image size `(n || 1)` of the box, then the sampler's outcome. */
  function PlanOf(box: Box, sampler: Result<Option<Mat>>): (r: Result<Plan>)
    requires sampler.Ok? && sampler.value.Some? ==>
      Wf(sampler.value.value) && sampler.value.value.rows == 3 && sampler.value.value.cols == 3
    ensures r.Ok? ==> r.value.width > 0 && r.value.height > 0
    ensures r.Ok? ==> 0 <= r.value.box.right - r.value.box.left <= r.value.width
    ensures r.Ok? ==> 0 <= r.value.box.bottom - r.value.box.top <= r.value.height
    ensures r.Ok? && r.value.inverse.Some? ==>
      Wf(r.value.inverse.value) && r.value.inverse.value.rows == 3 && r.value.inverse.value.cols == 3
  {
    var w, h := OrOne(box.right - box.left), OrOne(box.bottom - box.top);
    if w <= 0 || h <= 0 then Err(InvalidImageSize)
    else match sampler
      case Err(e) => Err(e)
      case Ok(inverse) => Ok(Plan(box, w, h, inverse))
  }

  /** A plan that samples through an inverse holds a two-sided inverse of the transform. */
  lemma PlanInverse(t: Mat, width: nat, height: nat, o: (real, real), plan: Plan)
    requires Affine(t) && PlanFor(t, width, height, o) == Ok(plan) && plan.inverse.Some?
    ensures MatMul(t, plan.inverse.value) == Identity(3) && MatMul(plan.inverse.value, t) == Identity(3)
  {
    InverseSpecCorrect(t);
  }

  /** What the loop of `transform` reads from: the source image, the inverse, box and origin. */
  datatype Canvas = Canvas(src: seq<byte>, width: nat, height: nat, inverse: Mat, box: Box, ox: real, oy: real)

  ghost predicate CanvasOk(f: Canvas) {
    |f.src| == f.width * f.height * Channels && Wf(f.inverse) && f.inverse.rows == 3 && f.inverse.cols == 3
  }

  /** The four zero bytes of a pixel `transform` never writes. */
  const Blank: seq<byte> := [0, 0, 0, 0]

  /** The source pixel the destination point (col, row) samples: the inverse image, rounded. */
  function SourcePoint(f: Canvas, col: int, row: int): (int, int)
    requires CanvasOk(f)
  {
    var p := MapPoint(f.inverse, col as real, row as real, f.ox, f.oy);
    (Round(p.0), Round(p.1))
  }

  /**
   * Pixel (X, Y) of the new image: inside the box it is the source pixel it samples when
   * that lies in the source image; every other pixel stays blank.
   */
  function DestPixel(f: Canvas, X: nat, Y: nat): (p: seq<byte>)
    requires CanvasOk(f)
    ensures |p| == Channels
  {
    if X < f.box.right - f.box.left && Y < f.box.bottom - f.box.top && Hits(f, X, Y) then
      var s := SourcePoint(f, f.box.left + X, f.box.top + Y);
      PixelIn(f.src, f.width, f.height, s.0, s.1)
    else Blank
  }

  /** Box pixel (X, Y) samples a point inside the source image. */
  predicate Hits(f: Canvas, X: nat, Y: nat)
    requires CanvasOk(f)
  {
    var s := SourcePoint(f, f.box.left + X, f.box.top + Y);
    0 <= s.0 < f.width && 0 <= s.1 < f.height
  }

  /** Pixel (X, Y) of the image a plan produces from the source `src`. */
  function PlannedPixel(src: seq<byte>, width: nat, height: nat, plan: Plan, o: (real, real), X: nat, Y: nat): (p: seq<byte>)
    requires |src| == width * height * Channels
    requires plan.inverse.Some? ==> Wf(plan.inverse.value) && plan.inverse.value.rows == 3 && plan.inverse.value.cols == 3
    ensures |p| == Channels
  {
    if plan.inverse.None? then Blank
    else DestPixel(Canvas(src, width, height, plan.inverse.value, plan.box, o.0, o.1), X, Y)
  }

  /** `transform` invents no colour: every new pixel is blank or a copy of a source pixel. */
  lemma NoNewColours(src: seq<byte>, width: nat, height: nat, plan: Plan, o: (real, real), X: nat, Y: nat)
    requires |src| == width * height * Channels
    requires plan.inverse.Some? ==> Wf(plan.inverse.value) && plan.inverse.value.rows == 3 && plan.inverse.value.cols == 3
    ensures var p := PlannedPixel(src, width, height, plan, o, X, Y);
      p == Blank || exists x: nat, y: nat :: x < width && y < height && p == PixelIn(src, width, height, x, y)
  {
    var p := PlannedPixel(src, width, height, plan, o, X, Y);
    if p != Blank {
      var f := Canvas(src, width, height, plan.inverse.value, plan.box, o.0, o.1);
      var s := SourcePoint(f, f.box.left + X, f.box.top + Y);
      assert p == PixelIn(src, width, height, s.0, s.1);
    }
  }

  /**
   * A source pixel that an affine `t` sends exactly onto the integer point (left + X, top + Y)
   * of the box is the colour of new pixel (X, Y), whenever the plan samples through a left
   * inverse of `t` (as every plan `PlanFor` makes does, by `PlanInverse`).
   */
  lemma PixelLandsBack(src: seq<byte>, width: nat, height: nat, t: Mat, o: (real, real), plan: Plan,
                       x: nat, y: nat, X: nat, Y: nat)
    requires |src| == width * height * Channels && x < width && y < height
    requires Affine(t) && plan.inverse.Some?
    requires Wf(plan.inverse.value) && plan.inverse.value.rows == 3 && plan.inverse.value.cols == 3
    requires MatMul(plan.inverse.value, t) == Identity(3)
    requires X < plan.box.right - plan.box.left && Y < plan.box.bottom - plan.box.top
    requires MapPoint(t, x as real, y as real, o.0, o.1) == ((plan.box.left + X) as real, (plan.box.top + Y) as real)
    ensures PlannedPixel(src, width, height, plan, o, X, Y) == PixelIn(src, width, height, x, y)
  {
    SamplesBack(Canvas(src, width, height, plan.inverse.value, plan.box, o.0, o.1), t, o, plan.box, x, y, X, Y);
  }

  /** The canvas form of the previous lemma: a canvas whose inverse undoes `t` samples t's images back. */
  lemma SamplesBack(f: Canvas, t: Mat, o: (real, real), box: Box, x: nat, y: nat, X: nat, Y: nat)
    requires CanvasOk(f) && Affine(t) && MatMul(f.inverse, t) == Identity(3)
    requires f.ox == o.0 && f.oy == o.1 && f.box == box
    requires x < f.width && y < f.height
    requires X < box.right - box.left && Y < box.bottom - box.top
    requires MapPoint(t, x as real, y as real, o.0, o.1) == ((box.left + X) as real, (box.top + Y) as real)
    ensures DestPixel(f, X, Y) == PixelIn(f.src, f.width, f.height, x, y)
  {
    MapPointUndone(t, f.inverse, x as real, y as real, f.ox, f.oy);
    var back := MapPoint(f.inverse, (f.box.left + X) as real, (f.box.top + Y) as real, f.ox, f.oy);
    assert back == (x as real, y as real);
    RoundWhole(x);
    RoundWhole(y);
    assert SourcePoint(f, f.box.left + X, f.box.top + Y) == (Round(back.0), Round(back.1));
  }

  /** Rounding a whole number leaves it. */
  lemma RoundWhole(k: int)
    ensures Round(k as real) == k
  {
  }

  /** The colours a loop is to leave in a dw x dh image: row y, column x holds pixel (x, y). */
  ghost predicate IsGrid(want: seq<seq<seq<byte>>>, dw: nat, dh: nat) {
    |want| == dh && forall y :: 0 <= y < dh ==> |want[y]| == dw
  }

  /** The colours of `DestPixel` over a dw x dh image. */
  ghost function Wanted(f: Canvas, dw: nat, dh: nat): (want: seq<seq<seq<byte>>>)
    requires CanvasOk(f)
    ensures IsGrid(want, dw, dh)
  {
    seq(dh, y requires 0 <= y < dh => seq(dw, x requires 0 <= x < dw => DestPixel(f, x, y)))
  }

  /**
   * `want` holds the colours of `DestPixel`. The link is only used where a `DestPixel`
   * term is in play, so the loop that paints `want` never meets the sampling arithmetic.
   */
  ghost predicate Paints(f: Canvas, want: seq<seq<seq<byte>>>, dw: nat, dh: nat)
    requires CanvasOk(f)
  {
    && IsGrid(want, dw, dh)
    && forall x: nat, y: nat {:trigger DestPixel(f, x, y)} :: x < dw && y < dh ==> want[y][x] == DestPixel(f, x, y)
  }

  lemma WantedPaints(f: Canvas, dw: nat, dh: nat)
    requires CanvasOk(f)
    ensures Paints(f, Wanted(f, dw, dh), dw, dh)
  {
  }

  /**
   * The new image's bytes after a row-by-row loop has visited rows [0, Y) and, in row Y,
   * columns [0, X): visited pixels hold their wanted colour, the rest are blank.
   */
  ghost predicate PaintedUpTo(buf: seq<byte>, dw: nat, dh: nat, want: seq<seq<seq<byte>>>, Y: nat, X: nat)
    requires |buf| == dw * dh * Channels && IsGrid(want, dw, dh)
  {
    forall x: nat, y: nat :: x < dw && y < dh ==>
      PixelIn(buf, dw, dh, x, y) == (if y < Y || (y == Y && x < X) then want[y][x] else Blank)
  }

  /** Every pixel of an all-zero buffer is blank. */
  lemma ZeroPixels(buf: seq<byte>, dw: nat, dh: nat)
    requires |buf| == dw * dh * Channels
    requires forall i :: 0 <= i < |buf| ==> buf[i] == 0
    ensures forall x: nat, y: nat :: x < dw && y < dh ==> PixelIn(buf, dw, dh, x, y) == Blank
  {
    forall x: nat, y: nat | x < dw && y < dh
      ensures PixelIn(buf, dw, dh, x, y) == Blank
    {
      var p := PixelIn(buf, dw, dh, x, y);
      PixelInside(dw, dh, x, y);
      assert p == [p[0], p[1], p[2], p[3]];
    }
  }

  /** A new ImageData is all zero bytes, so nothing is painted yet. */
  lemma BlankStart(buf: seq<byte>, dw: nat, dh: nat, want: seq<seq<seq<byte>>>)
    requires |buf| == dw * dh * Channels && IsGrid(want, dw, dh)
    requires forall i :: 0 <= i < |buf| ==> buf[i] == 0
    ensures PaintedUpTo(buf, dw, dh, want, 0, 0)
  {
    ZeroPixels(buf, dw, dh);
  }

  /** A visit that writes pixel (X, Y) its wanted colour: only that pixel changes. */
  lemma {:induction false} PaintHit(buf: seq<byte>, dw: nat, dh: nat, want: seq<seq<seq<byte>>>, Y: nat, X: nat)
    requires |buf| == dw * dh * Channels && IsGrid(want, dw, dh)
    requires X < dw && Y < dh && |want[Y][X]| == Channels
    requires PaintedUpTo(buf, dw, dh, want, Y, X)
    ensures PaintedUpTo(WithPixel(buf, dw, dh, X, Y, want[Y][X]), dw, dh, want, Y, X + 1)
  {
    var after := WithPixel(buf, dw, dh, X, Y, want[Y][X]);
    forall x: nat, y: nat | x < dw && y < dh
      ensures PixelIn(after, dw, dh, x, y) == (if y < Y || (y == Y && x < X + 1) then want[y][x] else Blank)
    {
      GetAfterSet(buf, dw, dh, X, Y, want[Y][X], x, y);
    }
  }

  /** A visit that writes nothing, where the wanted colour is blank already. */
  lemma {:induction false} PaintMiss(buf: seq<byte>, dw: nat, dh: nat, want: seq<seq<seq<byte>>>, Y: nat, X: nat)
    requires |buf| == dw * dh * Channels && IsGrid(want, dw, dh)
    requires X < dw && Y < dh && want[Y][X] == Blank
    requires PaintedUpTo(buf, dw, dh, want, Y, X)
    ensures PaintedUpTo(buf, dw, dh, want, Y, X + 1)
  {
    forall x: nat, y: nat | x < dw && y < dh
      ensures PixelIn(buf, dw, dh, x, y) == (if y < Y || (y == Y && x < X + 1) then want[y][x] else Blank)
    {
      if (x, y) != (X, Y) {
        assert (y < Y || (y == Y && x < X + 1)) == (y < Y || (y == Y && x < X));
      }
    }
  }

  /** Leaving row Y after its first `width` pixels: the rest of the row is wanted blank. */
  lemma RowDone(buf: seq<byte>, dw: nat, dh: nat, want: seq<seq<seq<byte>>>, Y: nat, width: nat)
    requires |buf| == dw * dh * Channels && IsGrid(want, dw, dh)
    requires Y < dh ==> forall x :: width <= x < dw ==> want[Y][x] == Blank
    requires PaintedUpTo(buf, dw, dh, want, Y, width)
    ensures PaintedUpTo(buf, dw, dh, want, Y + 1, 0)
  {
  }

  /** Once the first `height` rows are visited, and the rest are wanted blank, every pixel is as wanted. */
  lemma AllPainted(buf: seq<byte>, dw: nat, dh: nat, want: seq<seq<seq<byte>>>, height: nat)
    requires |buf| == dw * dh * Channels && IsGrid(want, dw, dh)
    requires forall y :: height <= y < dh ==> forall x :: 0 <= x < dw ==> want[y][x] == Blank
    requires PaintedUpTo(buf, dw, dh, want, height, 0)
    ensures forall x: nat, y: nat :: x < dw && y < dh ==> PixelIn(buf, dw, dh, x, y) == want[y][x]
  {
  }

  /** Outside the box, the new image stays blank. */
  lemma OutsideBoxBlank(f: Canvas, want: seq<seq<seq<byte>>>, dw: nat, dh: nat)
    requires CanvasOk(f) && Paints(f, want, dw, dh)
    ensures forall y :: 0 <= y < dh ==> forall x :: 0 <= x < dw ==>
      (x >= f.box.right - f.box.left || y >= f.box.bottom - f.box.top ==> want[y][x] == Blank)
  {
    forall y, x | 0 <= y < dh && 0 <= x < dw && (x >= f.box.right - f.box.left || y >= f.box.bottom - f.box.top)
      ensures want[y][x] == Blank
    {
      assert want[y][x] == DestPixel(f, x, y);
    }
  }

  /**
   * One visit of the loop of `transform`: the box point (col, row) is mapped back through
   * the inverse and rounded; when that lands in the source, its pixel is copied to
   * (col - left, row - top), and otherwise nothing is written.
   */
  method PaintPixel(source: Image, dest: Image, inverse: Matrix, box: Box, ox: real, oy: real, col: int, row: int,
                    ghost f: Canvas, ghost want: seq<seq<seq<byte>>>) returns (ghost hit: bool)
    requires source.Valid() && dest.Valid() && source.data != dest.data
    requires inverse.Valid() && inverse.rows == 3 && inverse.cols == 3
    requires f == Canvas(source.data[..], source.width, source.height, inverse.Value(), box, ox, oy)
    requires box.left <= col < box.right && box.top <= row < box.bottom
    requires box.right - box.left <= dest.width && box.bottom - box.top <= dest.height
    modifies dest.data
    requires CanvasOk(f) && Paints(f, want, dest.width, dest.height)
    ensures hit ==> |want[row - box.top][col - box.left]| == Channels
    ensures hit ==>
      dest.data[..] == WithPixel(old(dest.data[..]), dest.width, dest.height, col - box.left, row - box.top, want[row - box.top][col - box.left])
    ensures !hit ==> dest.data[..] == old(dest.data[..]) && want[row - box.top][col - box.left] == Blank
  {
    var X, Y := col - box.left, row - box.top;
    assert want[Y][X] == DestPixel(f, X, Y);
    var originalX, originalY := MapBack(inverse, col, row, ox, oy, f);
    assert box.left + X == col && box.top + Y == row;
    var outsideImageBounds := originalX < 0 || originalY < 0 || originalX >= source.width || originalY >= source.height;
    hit := !outsideImageBounds;
    if !outsideImageBounds {
      assert source.GetPixel(originalX, originalY) == DestPixel(f, col - box.left, row - box.top);
      dest.SetPixel(col - box.left, row - box.top, source.GetPixel(originalX, originalY));
    }
  }

  /** The source point of box point (col, row): the inverse applied, the origin added back, rounded. */
  method MapBack(inverse: Matrix, col: int, row: int, ox: real, oy: real, ghost f: Canvas) returns (originalX: int, originalY: int)
    requires inverse.Valid() && inverse.rows == 3 && inverse.cols == 3
    requires CanvasOk(f) && f.inverse == inverse.Value() && f.ox == ox && f.oy == oy
    ensures (originalX, originalY) == SourcePoint(f, col, row)
  {
    var originalPosition := MultiplyColumn(inverse, col as real - ox, row as real - oy);
    ghost var image := MapPoint(f.inverse, col as real, row as real, ox, oy);
    var x := originalPosition.Get(0, 0).value + ox;
    var y := originalPosition.Get(0, 1).value + oy;
    assert (x, y) == image;
    originalX := Round(x);
    originalY := Round(y);
  }

  /** One pass of the inner loop of `transform`: every point of row `row` of the box. */
  method PaintRow(source: Image, dest: Image, inverse: Matrix, box: Box, ox: real, oy: real, row: int,
                  ghost f: Canvas, ghost want: seq<seq<seq<byte>>>)
    requires source.Valid() && dest.Valid() && source.data != dest.data
    requires inverse.Valid() && inverse.rows == 3 && inverse.cols == 3
    requires f == Canvas(source.data[..], source.width, source.height, inverse.Value(), box, ox, oy)
    requires CanvasOk(f) && Paints(f, want, dest.width, dest.height)
    requires 0 <= box.right - box.left <= dest.width && 0 <= box.bottom - box.top <= dest.height
    requires box.top <= row < box.bottom
    requires PaintedUpTo(dest.data[..], dest.width, dest.height, want, row - box.top, 0)
    modifies dest.data
    ensures PaintedUpTo(dest.data[..], dest.width, dest.height, want, row - box.top, box.right - box.left)
  {
    for col := box.left to box.right
      invariant PaintedUpTo(dest.data[..], dest.width, dest.height, want, row - box.top, col - box.left)
    {
      ghost var before := dest.data[..];
      ghost var X, Y: nat := col - box.left, row - box.top;
      ghost var hit := PaintPixel(source, dest, inverse, box, ox, oy, col, row, f, want);
      if hit {
        PaintHit(before, dest.width, dest.height, want, Y, X);
      } else {
        PaintMiss(before, dest.width, dest.height, want, Y, X);
      }
    }
  }

  /** The loop of `transform`: every point of the box, row by row, gets its final colour. */
  method Paint(source: Image, dest: Image, inverse: Matrix, box: Box, ox: real, oy: real)
    requires source.Valid() && dest.Valid() && source.data != dest.data
    requires inverse.Valid() && inverse.rows == 3 && inverse.cols == 3
    requires 0 <= box.right - box.left <= dest.width && 0 <= box.bottom - box.top <= dest.height
    requires forall i :: 0 <= i < dest.data.Length ==> dest.data[i] == 0
    modifies dest.data
    ensures forall x: nat, y: nat :: x < dest.width && y < dest.height ==>
      dest.GetPixel(x, y) == DestPixel(Canvas(source.data[..], source.width, source.height, inverse.Value(), box, ox, oy), x, y)
  {
    ghost var f := Canvas(source.data[..], source.width, source.height, inverse.Value(), box, ox, oy);
    assert CanvasOk(f);
    ghost var want := Wanted(f, dest.width, dest.height);
    WantedPaints(f, dest.width, dest.height);
    OutsideBoxBlank(f, want, dest.width, dest.height);
    BlankStart(dest.data[..], dest.width, dest.height, want);
    for row := box.top to box.bottom
      invariant PaintedUpTo(dest.data[..], dest.width, dest.height, want, row - box.top, 0)
    {
      PaintRow(source, dest, inverse, box, ox, oy, row, f, want);
      RowDone(dest.data[..], dest.width, dest.height, want, row - box.top, box.right - box.left);
    }
    AllPainted(dest.data[..], dest.width, dest.height, want, box.bottom - box.top);
  }

  /** The two `set`s of `transform` that add the origin back to a mapped corner. */
  method AddOrigin(m: Matrix, ox: real, oy: real)
    requires m.Valid() && m.rows == 3 && m.cols == 1
    modifies m.data
    ensures m.Value().cells[2][0] == old(m.Value()).cells[2][0]
    ensures m.Value().cells[0][0] == old(m.Value()).cells[0][0] + ox
    ensures m.Value().cells[1][0] == old(m.Value()).cells[1][0] + oy
  {
    var x := m.Get(0, 0).value;
    var _ := m.Set(0, 0, x + ox);
    var y := m.Get(0, 1).value;
    var _ := m.Set(0, 1, y + oy);
  }

  /** `t.multiply(new Matrix(3, 1, [dx, dy, 1]))`. */
  method MultiplyColumn(t: Matrix, dx: real, dy: real) returns (m: Matrix)
    requires t.Valid() && t.rows == 3 && t.cols == 3
    ensures fresh(m) && fresh(m.data) && m.Valid() && m.rows == 3 && m.cols == 1
    ensures forall r :: 0 <= r < 3 ==> m.Value().cells[r][0] == RowApplied(t.Value(), r, dx, dy)
  {
    var v := NewMatrix(Column3(dx, dy));
    var p := t.Multiply(v);
    m := p.value;
    ColumnProduct(t.Value(), dx, dy);
  }

  /** One corner after `multiply` and the origin added back: the corner `t` moves about the origin. */
  method MapExtremum(t: Matrix, x: real, y: real, ox: real, oy: real) returns (m: Matrix)
    requires t.Valid() && t.rows == 3 && t.cols == 3
    ensures fresh(m) && m.Valid() && m.rows == 3 && m.cols == 1
    ensures m.Value().cells[0][0] == MapPoint(t.Value(), x, y, ox, oy).0
    ensures m.Value().cells[1][0] == MapPoint(t.Value(), x, y, ox, oy).1
  {
    m := MultiplyColumn(t, x - ox, y - oy);
    AddOrigin(m, ox, oy);
  }

  /** What `transform` returns: the new image and where its top-left corner lies. */
  datatype Transformed = Transformed(newImageData: Image, left: int, top: int)

  /**
   * What a call of `transform` delivers for a plan: the plan's error, or an image of the
   * planned size whose every pixel is the planned one.
   */
  ghost predicate Delivers(r: Result<Transformed>, plan: Result<Plan>, src: seq<byte>, width: nat, height: nat, o: (real, real))
    requires |src| == width * height * Channels
    requires plan.Ok? && plan.value.inverse.Some? ==>
      Wf(plan.value.inverse.value) && plan.value.inverse.value.rows == 3 && plan.value.inverse.value.cols == 3
    reads if r.Ok? then {r.value.newImageData.data} else {}
  {
    && (r.Err? <==> plan.Err?)
    && (r.Err? ==> r.error == plan.error)
    && (r.Ok? ==>
      && r.value.newImageData.Valid()
      && r.value.newImageData.width == plan.value.width && r.value.newImageData.height == plan.value.height
      && r.value.left == plan.value.box.left && r.value.top == plan.value.box.top
      && forall x: nat, y: nat :: x < r.value.newImageData.width && y < r.value.newImageData.height ==>
        r.value.newImageData.GetPixel(x, y) == PlannedPixel(src, width, height, plan.value, o, x, y))
  }

  /** `computeBoundingBox` of the four extrema `transform` builds. */
  method ComputeBoundingBox(t: Matrix, width: nat, height: nat, o: (real, real)) returns (box: Box)
    requires t.Valid() && t.rows == 3 && t.cols == 3
    ensures box == BoxFor(t.Value(), width, height, o)
  {
    var (originX, originY) := o;
    var e0 := MapExtremum(t, 0.0, 0.0, originX, originY);
    var e1 := MapExtremum(t, width as real, 0.0, originX, originY);
    var e2 := MapExtremum(t, 0.0, height as real, originX, originY);
    var e3 := MapExtremum(t, width as real, height as real, originX, originY);
    var xs := [e0.Get(0, 0).value, e1.Get(0, 0).value, e2.Get(0, 0).value, e3.Get(0, 0).value];
    var ys := [e0.Get(0, 1).value, e1.Get(0, 1).value, e2.Get(0, 1).value, e3.Get(0, 1).value];
    assert xs == CornerXs(t.Value(), width, height, o);
    assert ys == CornerYs(t.Value(), width, height, o);
    box := BoundingBox(xs, ys);
  }

  /** `det()` and, unless it is below EPSILON, `inverse()` of the transform matrix. */
  method Sample(t: Matrix) returns (r: Result<Option<Matrix>>)
    requires t.Valid() && t.rows == 3 && t.cols == 3
    ensures r.Err? <==> Sampler(t.Value()).Err?
    ensures r.Err? ==> r.error == Sampler(t.Value()).error
    ensures r.Ok? ==> (r.value.None? <==> Sampler(t.Value()).value.None?)
    ensures r.Ok? && r.value.Some? ==> fresh(r.value.value) && fresh(r.value.value.data) && r.value.value.Valid()
    ensures r.Ok? && r.value.Some? ==> r.value.value.rows == 3 && r.value.value.cols == 3
    ensures r.Ok? && r.value.Some? ==> r.value.value.Value() == Sampler(t.Value()).value.value
  {
    var det := Det(t);
    if det.Err? {
      return Err(det.error);
    }
    if Abs(det.value) < Epsilon {
      return Ok(None);
    }
    var inverse := t.Inverse();
    if inverse.Err? {
      return Err(inverse.error);
    }
    return Ok(Some(inverse.value));
  }

  /** `transform` once its matrix is built: box, then the rest of the plan and the loop. */
  method TransformWith(imageData: Image, transformMatrix: Matrix, o: (real, real)) returns (r: Result<Transformed>)
    requires imageData.Valid() && transformMatrix.Valid() && transformMatrix.rows == 3 && transformMatrix.cols == 3
    ensures Delivers(r, PlanFor(transformMatrix.Value(), imageData.width, imageData.height, o),
      imageData.data[..], imageData.width, imageData.height, o)
    ensures r.Ok? ==> fresh(r.value.newImageData) && fresh(r.value.newImageData.data)
  {
    var box := ComputeBoundingBox(transformMatrix, imageData.width, imageData.height, o);
    r := TransformInBox(imageData, transformMatrix, box, o);
  }

  /** `transform` once its box is known: new image, determinant test, inverse, loop. */
  method TransformInBox(imageData: Image, transformMatrix: Matrix, box: Box, o: (real, real)) returns (r: Result<Transformed>)
    requires imageData.Valid() && transformMatrix.Valid() && transformMatrix.rows == 3 && transformMatrix.cols == 3
    ensures Delivers(r, PlanOf(box, Sampler(transformMatrix.Value())), imageData.data[..], imageData.width, imageData.height, o)
    ensures r.Ok? ==> fresh(r.value.newImageData) && fresh(r.value.newImageData.data)
  {
    var width, height := OrOne(box.right - box.left), OrOne(box.bottom - box.top);
    if width <= 0 || height <= 0 {
      return Err(InvalidImageSize);
    }
    var newImageData := new Image(width, height);
    var inverse := Sample(transformMatrix);
    if inverse.Err? {
      return Err(inverse.error);
    }
    if inverse.value.None? {
      ZeroPixels(newImageData.data[..], width, height);
      return Ok(Transformed(newImageData, box.left, box.top));
    }
    Paint(imageData, newImageData, inverse.value.value, box, o.0, o.1);
    return Ok(Transformed(newImageData, box.left, box.top));
  }

  /**
   * `transform(imageData, commands, origin)`: the commands' error, or exactly what the plan
   * for their matrix says.
   */
  method Transform(imageData: Image, commands: string, origin: Option<(real, real)>, trig: Trig) returns (r: Result<Transformed>)
    requires imageData.Valid()
    ensures TransformMatrixOf(ParseCommands(commands), trig).Err? ==>
      r == Err(TransformMatrixOf(ParseCommands(commands), trig).error)
    ensures TransformMatrixOf(ParseCommands(commands), trig).Ok? ==>
      var o := OriginOf(imageData.width, imageData.height, origin);
      Delivers(r, PlanFor(TransformMatrixOf(ParseCommands(commands), trig).value, imageData.width, imageData.height, o),
        imageData.data[..], imageData.width, imageData.height, o)
    ensures r.Ok? ==> fresh(r.value.newImageData.data)
  {
    var o := OriginOf(imageData.width, imageData.height, origin);
    var transformMatrix := ComputeTransformMatrix(commands, trig);
    if transformMatrix.Err? {
      return Err(transformMatrix.error);
    }
    r := TransformWith(imageData, transformMatrix.value, o);
  }
}
