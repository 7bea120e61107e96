/** The `transform` of the earlier all-in-one index.js, built on its older `Matrix.inverse`. */
module LegacyTransform {
  import opened Wrappers
  import opened MatrixValues
  import opened Elimination
  import opened Matrices
  import opened Bitmaps
  import opened Commands
  import opened Transforms
  import opened LegacyInverse

  /**
   * The decisions of the older `transform` once its box is known: the older inverse (its
   * error first, and no determinant test), then an image of exactly the box's size.
   */
  function OldPlanOf(box: Box, inverse: Result<Mat>): (r: Result<Plan>)
    requires inverse.Ok? ==> Wf(inverse.value) && inverse.value.rows == 3 && inverse.value.cols == 3
    ensures r.Err? <==> inverse.Err? || box.right - box.left <= 0 || box.bottom - box.top <= 0
    ensures r.Err? && inverse.Err? ==> r.error == inverse.error
    ensures r.Ok? ==> r.value.box == box && r.value.inverse == Some(inverse.value)
    ensures r.Ok? ==> r.value.width == box.right - box.left && r.value.height == box.bottom - box.top
  {
    match inverse
    case Err(e) => Err(e)
    case Ok(inv) =>
      var width, height := box.right - box.left, box.bottom - box.top;
      if width <= 0 || height <= 0 then Err(InvalidImageSize)
      else Ok(Plan(box, width, height, Some(inv)))
  }

  /** The plan of the older `transform` for matrix t. */
  function OldPlanFor(t: Mat, width: nat, height: nat, o: (real, real)): (r: Result<Plan>)
    requires Wf(t) && t.rows == 3 && t.cols == 3
    ensures r.Ok? ==> r.value.inverse.Some?
    ensures r.Ok? ==> Wf(r.value.inverse.value) && r.value.inverse.value.rows == 3 && r.value.inverse.value.cols == 3
  {
    OldPlanOf(BoxFor(t, width, height, o), OldInverseSpec(t))
  }

  /**
   * The older `transform` always samples through a two-sided inverse of its affine
   * matrix, so every source pixel lands back on itself (Transforms.PixelLandsBack).
   */
  lemma OldPlanInverse(t: Mat, width: nat, height: nat, o: (real, real), plan: Plan)
    requires Affine(t) && OldPlanFor(t, width, height, o) == Ok(plan)
    ensures plan.inverse.Some?
    ensures MatMul(t, plan.inverse.value) == Identity(3) && MatMul(plan.inverse.value, t) == Identity(3)
  {
    OldInverseAgreesOnAffine(t);
    InverseSpecCorrect(t);
  }

  /**
   * Where the newer `transform` draws through an inverse, the older one, when it succeeds,
   * plans exactly the same image: same box, same size, same inverse.
   */
  lemma OldPlanAgrees(t: Mat, width: nat, height: nat, o: (real, real))
    requires Affine(t) && OldPlanFor(t, width, height, o).Ok?
    requires PlanFor(t, width, height, o).Ok? && PlanFor(t, width, height, o).value.inverse.Some?
    ensures OldPlanFor(t, width, height, o) == PlanFor(t, width, height, o)
  {
    OldInverseAgreesOnAffine(t);
  }

  /** The older `transform` once its box is known: inverse, new image, loop. */
  method OldTransformInBox(imageData: Image, transformMatrix: Matrix, box: Box, o: (real, real)) returns (r: Result<Transformed>)
    requires imageData.Valid() && transformMatrix.Valid() && transformMatrix.rows == 3 && transformMatrix.cols == 3
    ensures Delivers(r, OldPlanOf(box, OldInverseSpec(transformMatrix.Value())), imageData.data[..], imageData.width, imageData.height, o)
    ensures r.Ok? ==> fresh(r.value.newImageData) && fresh(r.value.newImageData.data)
  {
    var inverse := OldInverse(transformMatrix);
    if inverse.Err? {
      return Err(inverse.error);
    }
    var width, height := box.right - box.left, box.bottom - box.top;
    if width <= 0 || height <= 0 {
      return Err(InvalidImageSize);
    }
    var newImageData := new Image(width, height);
    Paint(imageData, newImageData, inverse.value, box, o.0, o.1);
    return Ok(Transformed(newImageData, box.left, box.top));
  }

  /** The older `transform` once its matrix is built. */
  method OldTransformWith(imageData: Image, transformMatrix: Matrix, o: (real, real)) returns (r: Result<Transformed>)
    requires imageData.Valid() && transformMatrix.Valid() && transformMatrix.rows == 3 && transformMatrix.cols == 3
    ensures Delivers(r, OldPlanFor(transformMatrix.Value(), imageData.width, imageData.height, o),
      imageData.data[..], imageData.width, imageData.height, o)
    ensures r.Ok? ==> fresh(r.value.newImageData) && fresh(r.value.newImageData.data)
  {
    var box := ComputeBoundingBox(transformMatrix, imageData.width, imageData.height, o);
    r := OldTransformInBox(imageData, transformMatrix, box, o);
  }

  /**
   * The older `transform(imageData, commands, origin)`: the commands' error, or exactly
   * what the older plan for their matrix says.
   */
  method OldTransform(imageData: Image, commands: string, origin: Option<(real, real)>, trig: Trig) returns (r: Result<Transformed>)
    requires imageData.Valid()
    ensures TransformMatrixOf(ParseCommands(commands), trig).Err? ==>
      r == Err(TransformMatrixOf(ParseCommands(commands), trig).error)
    ensures TransformMatrixOf(ParseCommands(commands), trig).Ok? ==>
      var o := OriginOf(imageData.width, imageData.height, origin);
      Delivers(r, OldPlanFor(TransformMatrixOf(ParseCommands(commands), trig).value, imageData.width, imageData.height, o),
        imageData.data[..], imageData.width, imageData.height, o)
    ensures r.Ok? ==> fresh(r.value.newImageData.data)
  {
    var o := OriginOf(imageData.width, imageData.height, origin);
    var transformMatrix := ComputeTransformMatrix(commands, trig);
    if transformMatrix.Err? {
      return Err(transformMatrix.error);
    }
    r := OldTransformWith(imageData, transformMatrix.value, o);
  }
}
