/**
 * The pixel routines of the earlier all-in-one index.js that the newer modules do not
 * have: the argument check of `lighten`, and `makeBlue`. Its `getPixel` and `setPixel`
 * are those of bitmap.mjs (Bitmaps.Image.GetPixel/SetPixel).
 */
module LegacyPixels {
  import opened Wrappers
  import opened Bitmaps

  /** The guard of `lighten` and `makeBlue`: the percentage must lie in [0, 1]. */
  function PercentCheck(percent: real): (o: Outcome)
    ensures o.Pass? <==> 0.0 <= percent <= 1.0
    ensures o.Fail? ==> o.error == PercentOutOfRange
  {
    if percent < 0.0 || percent > 1.0 then Fail(PercentOutOfRange) else Pass
  }

  /** Some channel of the pixel, alpha included, is non-zero. */
  predicate NotWhite(p: seq<byte>) {
    exists k :: 0 <= k < |p| && p[k] != 0
  }

  /** What `makeBlue` makes of one pixel: pure blue with its alpha kept, unless every channel is zero. */
  function Blued(p: seq<byte>): (q: seq<byte>)
    requires |p| == Channels
    ensures |q| == Channels && q[3] == p[3]
  {
    if NotWhite(p) then [0, 0, 255, p[3]] else p
  }

  /** Blueing twice is blueing once. */
  lemma BluedIdempotent(p: seq<byte>)
    requires |p| == Channels
    ensures Blued(Blued(p)) == Blued(p)
  {
    if NotWhite(p) {
      assert Blued(p)[2] != 0;
    }
  }

  /** Blueing keeps alpha, leaves an all-zero pixel alone and gives every other one R = 0, G = 0, B = 255. */
  lemma BluedChannels(p: seq<byte>)
    requires |p| == Channels
    ensures Blued(p) == p <==> !NotWhite(p) || (p[0] == 0 && p[1] == 0 && p[2] == 255)
    ensures NotWhite(p) ==> Blued(p)[0] == 0 && Blued(p)[1] == 0 && Blued(p)[2] == 255
  {
    if NotWhite(p) && p[0] == 0 && p[1] == 0 && p[2] == 255 {
      assert p == [p[0], p[1], p[2], p[3]];
    }
  }

  /** The scan of `makeBlue` for a non-zero channel, stopping at the first one. */
  method FindNotWhite(pixel: seq<byte>) returns (notWhite: bool)
    ensures notWhite <==> NotWhite(pixel)
  {
    notWhite := false;
    for color := 0 to |pixel|
      invariant forall k :: 0 <= k < color ==> pixel[k] == 0
    {
      if pixel[color] != 0 {
        notWhite := true;
        break;
      }
    }
  }

  /**
   * The pixels of buf: those before (X, Y) in row order are the blued pixels of orig,
   * the rest are orig's own.
   */
  ghost predicate BluedUpTo(buf: seq<byte>, orig: seq<byte>, width: nat, height: nat, Y: nat, X: nat)
    requires |buf| == |orig| == width * height * Channels
  {
    forall x: nat, y: nat :: x < width && y < height ==>
      PixelIn(buf, width, height, x, y) ==
        if y < Y || (y == Y && x < X) then Blued(PixelIn(orig, width, height, x, y))
        else PixelIn(orig, width, height, x, y)
  }

  /** Writing the blued (X, Y) moves the frontier on by one pixel. */
  lemma {:induction false} BlueStep(buf: seq<byte>, orig: seq<byte>, width: nat, height: nat, Y: nat, X: nat)
    requires |buf| == |orig| == width * height * Channels && X < width && Y < height
    requires BluedUpTo(buf, orig, width, height, Y, X)
    ensures BluedUpTo(WithPixel(buf, width, height, X, Y, Blued(PixelIn(orig, width, height, X, Y))), orig, width, height, Y, X + 1)
  {
    var after := WithPixel(buf, width, height, X, Y, Blued(PixelIn(orig, width, height, X, Y)));
    forall x: nat, y: nat | x < width && y < height
      ensures PixelIn(after, width, height, x, y) ==
        if y < Y || (y == Y && x < X + 1) then Blued(PixelIn(orig, width, height, x, y))
        else PixelIn(orig, width, height, x, y)
    {
      GetAfterSet(buf, width, height, X, Y, Blued(PixelIn(orig, width, height, X, Y)), x, y);
    }
  }

  /**
   * `makeBlue(imageData, percent)`: the percentage check, then every pixel with a non-zero
   * channel becomes blue (alpha kept) and every all-zero pixel stays as it was.
   */
  method MakeBlue(imageData: Image, percent: real) returns (o: Outcome)
    requires imageData.Valid()
    modifies imageData.data
    ensures o == PercentCheck(percent)
    ensures o.Fail? ==> imageData.data[..] == old(imageData.data[..])
    ensures o.Pass? ==> forall x: nat, y: nat :: x < imageData.width && y < imageData.height ==>
      imageData.GetPixel(x, y) == Blued(PixelIn(old(imageData.data[..]), imageData.width, imageData.height, x, y))
  {
    o := PercentCheck(percent);
    if o.Fail? {
      return;
    }
    ghost var orig := imageData.data[..];
    for row := 0 to imageData.height
      invariant BluedUpTo(imageData.data[..], orig, imageData.width, imageData.height, row, 0)
    {
      MakeBlueRow(imageData, row, orig);
    }
  }

  /** One row of `makeBlue`: each pixel read, scanned, recoloured when not white, and written back. */
  method MakeBlueRow(imageData: Image, row: nat, ghost orig: seq<byte>)
    requires imageData.Valid() && row < imageData.height && |orig| == imageData.data.Length
    requires BluedUpTo(imageData.data[..], orig, imageData.width, imageData.height, row, 0)
    modifies imageData.data
    ensures BluedUpTo(imageData.data[..], orig, imageData.width, imageData.height, row + 1, 0)
  {
    var width, height := imageData.width, imageData.height;
    for col := 0 to width
      invariant BluedUpTo(imageData.data[..], orig, width, height, row, col)
    {
      var pixel := imageData.GetPixel(col, row);
      assert pixel == PixelIn(orig, width, height, col, row);
      var notWhite := FindNotWhite(pixel);
      if notWhite {
        pixel := pixel[0 := 0][1 := 0][2 := 255];
        assert pixel == Blued(PixelIn(orig, width, height, col, row));
      }
      BlueStep(imageData.data[..], orig, width, height, row, col);
      imageData.SetPixel(col, row, pixel);
    }
  }
}
