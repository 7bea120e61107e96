/** `createUpscaleOfImageData` of the earlier all-in-one index.js: nearest-neighbour upscaling. */
module Upscale {
  import opened Wrappers
  import opened Numbers
  import opened Layouts
  import opened Bitmaps
  import opened Transforms

  /** Quotient and remainder by a positive k are unique. */
  lemma DivUnique(x: int, k: int, q: int, r: int)
    requires 0 < k && 0 <= r < k && x == q * k + r
    ensures x / k == q && x % k == r
  {
    var q2, r2 := x / k, x % k;
    assert x == q2 * k + r2;
    assert (q - q2) * k == r2 - r;
    assert k * (q - q2) == (q - q2) * k && k * (q2 - q) == (q2 - q) * k;
    if q > q2 {
      MulMonotone(k, 1, q - q2);
    } else if q < q2 {
      MulMonotone(k, 1, q2 - q);
    }
  }

  /** Splitting a coordinate of the upscaled image into its source pixel and its place in the block. */
  lemma BlockOf(k: nat, n: nat, x: nat)
    requires 0 < k && x < n * k
    ensures 0 <= x / k < n && 0 <= x % k < k && x == x / k * k + x % k
  {
    assert k * (x / k) <= x;
    if x / k >= n {
      MulMonotone(k, n, x / k);
    }
  }

  /** Block c, place d inside it: coordinate c * k + d, and back. */
  lemma InBlock(k: nat, n: nat, c: nat, d: nat)
    requires d < k && c < n
    ensures c * k + d < n * k && (c * k + d) / k == c && (c * k + d) % k == d
  {
    MulMonotone(k, c + 1, n);
    assert (c + 1) * k == c * k + k;
    DivUnique(c * k + d, k, c, d);
  }

  /** The source pixel that pixel (x, y) of the upscaled image repeats: (x / k, y / k). */
  function SourcePixel(src: seq<byte>, width: nat, height: nat, k: nat, x: nat, y: nat): (p: seq<byte>)
    requires |src| == width * height * Channels && 0 < k && x < width * k && y < height * k
    ensures x / k < width && y / k < height
    ensures p == PixelIn(src, width, height, x / k, y / k)
  {
    BlockOf(k, width, x);
    BlockOf(k, height, y);
    PixelIn(src, width, height, x / k, y / k)
  }

  /**
   * `out` is the nearest-neighbour upscale of `src` by the factor k: every pixel of the
   * (width * k) x (height * k) image repeats the source pixel it falls into.
   */
  ghost predicate IsUpscale(out: seq<byte>, src: seq<byte>, width: nat, height: nat, k: nat)
    requires |src| == width * height * Channels && 0 < k
  {
    && |out| == width * k * (height * k) * Channels
    && forall x: nat, y: nat :: x < width * k && y < height * k ==>
         PixelIn(out, width * k, height * k, x, y) == SourcePixel(src, width, height, k, x, y)
  }

  /** Byte i of an image buffer is byte i % 4 of pixel ((i / 4) % width, (i / 4) / width). */
  lemma ByteOfPixel(width: nat, height: nat, i: nat)
    requires i < width * height * Channels
    ensures 0 < width && (i / Channels) % width < width && (i / Channels) / width < height
    ensures i == PixelOffset(width, (i / Channels) % width, (i / Channels) / width) + i % Channels
  {
    var p := i / Channels;
    assert p < width * height;
    assert 0 < width;
    var x, y := p % width, p / width;
    assert p == y * width + x;
    if y >= height {
      MulMonotone(width, height, y);
    }
  }

  /** Two buffers of one size whose pixels all agree are the same buffer. */
  lemma PixelsDetermine(a: seq<byte>, b: seq<byte>, width: nat, height: nat)
    requires |a| == width * height * Channels && |b| == |a|
    requires forall x: nat, y: nat :: x < width && y < height ==> PixelIn(a, width, height, x, y) == PixelIn(b, width, height, x, y)
    ensures a == b
  {
    forall i | 0 <= i < |a|
      ensures a[i] == b[i]
    {
      ByteOfPixel(width, height, i);
      var x, y := (i / Channels) % width, (i / Channels) / width;
      PixelInside(width, height, x, y);
      assert PixelIn(a, width, height, x, y)[i % Channels] == PixelIn(b, width, height, x, y)[i % Channels];
    }
  }

  /** There is only one upscale of an image by a given factor. */
  lemma UpscaleUnique(a: seq<byte>, b: seq<byte>, src: seq<byte>, width: nat, height: nat, k: nat)
    requires |src| == width * height * Channels && 0 < k
    requires IsUpscale(a, src, width, height, k) && IsUpscale(b, src, width, height, k)
    ensures a == b
  {
    PixelsDetermine(a, b, width * k, height * k);
  }

  /** Upscaling by 1 copies the image. */
  lemma UpscaleByOne(out: seq<byte>, src: seq<byte>, width: nat, height: nat)
    requires |src| == width * height * Channels
    requires IsUpscale(out, src, width, height, 1)
    ensures out == src
  {
    PixelsDetermine(out, src, width, height);
  }

  /** (x / a) / b == x / (a * b) for positive a and b. */
  lemma DivDiv(x: nat, a: nat, b: nat)
    requires 0 < a && 0 < b
    ensures x / a / b == x / (a * b) == x / (b * a)
  {
    var q, r := x / a / b, x / a % b;
    assert x / a == q * b + r;
    assert x == (q * b + r) * a + x % a;
    assert x == q * (a * b) + (r * a + x % a);
    MulMonotone(a, r + 1, b);
    assert r * a + x % a < a * b;
    DivUnique(x, a * b, q, r * a + x % a);
  }

  /** Pixel (x, y) of an upscale by k is source pixel (x / k, y / k). */
  lemma UpscaleAt(out: seq<byte>, src: seq<byte>, width: nat, height: nat, k: nat, x: nat, y: nat)
    requires |src| == width * height * Channels && 0 < k
    requires IsUpscale(out, src, width, height, k)
    requires x < width * k && y < height * k
    ensures x / k < width && y / k < height
    ensures PixelIn(out, width * k, height * k, x, y) == PixelIn(src, width, height, x / k, y / k)
  {
    assert PixelIn(out, width * k, height * k, x, y) == SourcePixel(src, width, height, k, x, y);
  }

  lemma MulAssoc(x: nat, a: nat, b: nat)
    ensures x * a * b == x * (a * b)
  {
  }

  /** One pixel of an upscale by a followed by an upscale by b is the source pixel (x / (a * b), y / (a * b)). */
  lemma UpscaleTwicePixel(mid: seq<byte>, out: seq<byte>, src: seq<byte>, width: nat, height: nat, a: nat, b: nat, x: nat, y: nat)
    requires |src| == width * height * Channels && 0 < a && 0 < b
    requires IsUpscale(mid, src, width, height, a)
    requires IsUpscale(out, mid, width * a, height * a, b)
    requires x < width * a * b && y < height * a * b
    ensures x < width * (a * b) && y < height * (a * b)
    ensures PixelIn(out, width * a * b, height * a * b, x, y) == SourcePixel(src, width, height, a * b, x, y)
  {
    MulAssoc(width, a, b);
    MulAssoc(height, a, b);
    UpscaleAt(out, mid, width * a, height * a, b, x, y);
    UpscaleAt(mid, src, width, height, a, x / b, y / b);
    DivDiv(x, b, a);
    DivDiv(y, b, a);
  }

  /** Upscaling by a and then by b is upscaling by a * b. */
  lemma UpscaleTwice(mid: seq<byte>, out: seq<byte>, src: seq<byte>, width: nat, height: nat, a: nat, b: nat)
    requires |src| == width * height * Channels && 0 < a && 0 < b
    requires IsUpscale(mid, src, width, height, a)
    requires IsUpscale(out, mid, width * a, height * a, b)
    ensures IsUpscale(out, src, width, height, a * b)
  {
    assert width * a * b == width * (a * b) && height * a * b == height * (a * b);
    forall x: nat, y: nat | x < width * (a * b) && y < height * (a * b)
      ensures PixelIn(out, width * (a * b), height * (a * b), x, y) == SourcePixel(src, width, height, a * b, x, y)
    {
      UpscaleTwicePixel(mid, out, src, width, height, a, b, x, y);
    }
  }

  /** Every pixel of source block (c, r) of an upscale is source pixel (c, r). */
  lemma UpscaleBlocks(out: seq<byte>, src: seq<byte>, width: nat, height: nat, k: nat, c: nat, r: nat, dx: nat, dy: nat)
    requires |src| == width * height * Channels && 0 < k
    requires IsUpscale(out, src, width, height, k)
    requires c < width && r < height && dx < k && dy < k
    ensures c * k + dx < width * k && r * k + dy < height * k
    ensures PixelIn(out, width * k, height * k, c * k + dx, r * k + dy) == PixelIn(src, width, height, c, r)
  {
    InBlock(k, width, c, dx);
    InBlock(k, height, r, dy);
  }

  /**
   * The loops of `createUpscaleOfImageData` visit source pixels row by row and, for each,
   * its block row by row: pixel (x, y) of the upscale is written once the visit has passed
   * (row, col, v, h) in that order.
   */
  ghost predicate Reached(k: nat, x: nat, y: nat, row: nat, col: nat, v: nat, h: nat)
    requires 0 < k
  {
    || y / k < row
    || (y / k == row && (x / k < col || (x / k == col && (y % k < v || (y % k == v && x % k < h)))))
  }

  /** The upscale's bytes at visit (row, col, v, h): reached pixels repeat their source pixel, the rest are blank. */
  ghost predicate UpscaledUpTo(buf: seq<byte>, src: seq<byte>, width: nat, height: nat, k: nat, row: nat, col: nat, v: nat, h: nat)
    requires |src| == width * height * Channels && 0 < k
  {
    && |buf| == width * k * (height * k) * Channels
    && forall x: nat, y: nat :: x < width * k && y < height * k ==>
         PixelIn(buf, width * k, height * k, x, y)
           == if Reached(k, x, y, row, col, v, h) then SourcePixel(src, width, height, k, x, y) else Blank
  }

  /** A fresh ImageData is all zero: nothing reached yet. */
  lemma UpscaleStart(buf: seq<byte>, src: seq<byte>, width: nat, height: nat, k: nat)
    requires |src| == width * height * Channels && 0 < k
    requires |buf| == width * k * (height * k) * Channels
    requires forall i :: 0 <= i < |buf| ==> buf[i] == 0
    ensures UpscaledUpTo(buf, src, width, height, k, 0, 0, 0, 0)
  {
    ZeroPixels(buf, width * k, height * k);
    forall x: nat, y: nat | x < width * k && y < height * k
      ensures !Reached(k, x, y, 0, 0, 0, 0)
    {
      assert x / k >= 0 && y / k >= 0 && y % k >= 0 && x % k >= 0;
    }
  }

  /** Writing the source pixel to place (h, v) of block (col, row) reaches exactly that pixel. */
  lemma {:induction false} UpscaleHit(buf: seq<byte>, src: seq<byte>, width: nat, height: nat, k: nat, row: nat, col: nat, v: nat, h: nat)
    requires |src| == width * height * Channels && 0 < k
    requires row < height && col < width && v < k && h < k
    requires UpscaledUpTo(buf, src, width, height, k, row, col, v, h)
    ensures col * k + h < width * k && row * k + v < height * k
    ensures UpscaledUpTo(WithPixel(buf, width * k, height * k, col * k + h, row * k + v, PixelIn(src, width, height, col, row)),
      src, width, height, k, row, col, v, h + 1)
  {
    InBlock(k, width, col, h);
    InBlock(k, height, row, v);
    var X, Y := col * k + h, row * k + v;
    var p := PixelIn(src, width, height, col, row);
    var after := WithPixel(buf, width * k, height * k, X, Y, p);
    forall x: nat, y: nat | x < width * k && y < height * k
      ensures PixelIn(after, width * k, height * k, x, y)
        == if Reached(k, x, y, row, col, v, h + 1) then SourcePixel(src, width, height, k, x, y) else Blank
    {
      GetAfterSet(buf, width * k, height * k, X, Y, p, x, y);
      BlockOf(k, width, x);
      BlockOf(k, height, y);
      if (x, y) != (X, Y) {
        assert !(x / k == col && y / k == row && x % k == h && y % k == v);
        assert Reached(k, x, y, row, col, v, h + 1) == Reached(k, x, y, row, col, v, h);
      }
    }
  }

  /** Leaving a row of a block, entering the next. */
  lemma BlockRowDone(buf: seq<byte>, src: seq<byte>, width: nat, height: nat, k: nat, row: nat, col: nat, v: nat)
    requires |src| == width * height * Channels && 0 < k
    requires UpscaledUpTo(buf, src, width, height, k, row, col, v, k)
    ensures UpscaledUpTo(buf, src, width, height, k, row, col, v + 1, 0)
  {
    forall x: nat, y: nat | x < width * k && y < height * k
      ensures Reached(k, x, y, row, col, v, k) == Reached(k, x, y, row, col, v + 1, 0)
    {
      BlockOf(k, width, x);
    }
  }

  /** Leaving a block, entering the next one along the row. */
  lemma BlockDone(buf: seq<byte>, src: seq<byte>, width: nat, height: nat, k: nat, row: nat, col: nat)
    requires |src| == width * height * Channels && 0 < k
    requires UpscaledUpTo(buf, src, width, height, k, row, col, k, 0)
    ensures UpscaledUpTo(buf, src, width, height, k, row, col + 1, 0, 0)
  {
    forall x: nat, y: nat | x < width * k && y < height * k
      ensures Reached(k, x, y, row, col, k, 0) == Reached(k, x, y, row, col + 1, 0, 0)
    {
      BlockOf(k, height, y);
    }
  }

  /** Leaving a row of source pixels, entering the next. */
  lemma SourceRowDone(buf: seq<byte>, src: seq<byte>, width: nat, height: nat, k: nat, row: nat)
    requires |src| == width * height * Channels && 0 < k
    requires UpscaledUpTo(buf, src, width, height, k, row, width, 0, 0)
    ensures UpscaledUpTo(buf, src, width, height, k, row + 1, 0, 0, 0)
  {
    forall x: nat, y: nat | x < width * k && y < height * k
      ensures Reached(k, x, y, row, width, 0, 0) == Reached(k, x, y, row + 1, 0, 0, 0)
    {
      BlockOf(k, width, x);
    }
  }

  /** Once every source row is visited, the buffer is the upscale. */
  lemma UpscaleDone(buf: seq<byte>, src: seq<byte>, width: nat, height: nat, k: nat)
    requires |src| == width * height * Channels && 0 < k
    requires UpscaledUpTo(buf, src, width, height, k, height, 0, 0, 0)
    ensures IsUpscale(buf, src, width, height, k)
  {
    forall x: nat, y: nat | x < width * k && y < height * k
      ensures Reached(k, x, y, height, 0, 0, 0)
    {
      BlockOf(k, height, y);
    }
  }

  /** `typedArray.set(bytes, offset)`: the bytes from `offset` on are replaced by `bytes`. */
  method SetBytes(data: array<byte>, bytes: seq<byte>, offset: nat)
    requires offset + |bytes| <= data.Length
    modifies data
    ensures data[..] == old(data[..])[..offset] + bytes + old(data[..])[offset + |bytes|..]
  {
    forall i | 0 <= i < |bytes| {
      data[offset + i] := bytes[i];
    }
    assert data[..] == old(data[..])[..offset] + bytes + old(data[..])[offset + |bytes|..];
  }

  /** `pixelBaseLocation`: the first byte of block (col, row) in an upscale `w` pixels wide. */
  function BlockBase(w: nat, k: nat, row: nat, col: nat): nat {
    row * k * Channels * w + col * k * Channels
  }

  /** The byte offset the source computes for place (h, v) of block (col, row) is that pixel's offset. */
  lemma WriteOffset(w: nat, k: nat, row: nat, col: nat, v: nat, h: nat)
    ensures BlockBase(w, k, row, col) + v * Channels * w + h * Channels == PixelOffset(w, col * k + h, row * k + v)
  {
    assert PixelOffset(w, col * k + h, row * k + v) == ((row * k + v) * w + col * k + h) * Channels;
    assert (row * k + v) * w == row * k * w + v * w;
  }

  /** The two inner loops: pixel `pixel` of (col, row) is written to each place of its block. */
  method ReplicatePixel(upscale: Image, k: nat, row: nat, col: nat, pixel: seq<byte>, base: nat,
                        ghost src: seq<byte>, ghost width: nat, ghost height: nat)
    requires upscale.Valid() && |src| == width * height * Channels && 0 < k
    requires upscale.width == width * k && upscale.height == height * k
    requires row < height && col < width && pixel == PixelIn(src, width, height, col, row)
    requires base == BlockBase(upscale.width, k, row, col)
    requires UpscaledUpTo(upscale.data[..], src, width, height, k, row, col, 0, 0)
    modifies upscale.data
    ensures UpscaledUpTo(upscale.data[..], src, width, height, k, row, col + 1, 0, 0)
  {
    var verticalOffset := 0;
    while verticalOffset < k
      invariant verticalOffset <= k
      invariant UpscaledUpTo(upscale.data[..], src, width, height, k, row, col, verticalOffset, 0)
    {
      var horizontalOffset := 0;
      while horizontalOffset < k
        invariant horizontalOffset <= k
        invariant UpscaledUpTo(upscale.data[..], src, width, height, k, row, col, verticalOffset, horizontalOffset)
      {
        WriteOffset(upscale.width, k, row, col, verticalOffset, horizontalOffset);
        UpscaleHit(upscale.data[..], src, width, height, k, row, col, verticalOffset, horizontalOffset);
        PixelInside(upscale.width, upscale.height, col * k + horizontalOffset, row * k + verticalOffset);
        SetBytes(upscale.data, pixel, base + verticalOffset * Channels * upscale.width + horizontalOffset * Channels);
        horizontalOffset := horizontalOffset + 1;
      }
      BlockRowDone(upscale.data[..], src, width, height, k, row, col, verticalOffset);
      verticalOffset := verticalOffset + 1;
    }
    BlockDone(upscale.data[..], src, width, height, k, row, col);
  }

  /** One pass of the column loop: every pixel of source row `row` replicated into its block. */
  method UpscaleRow(imageData: Image, upscale: Image, k: nat, row: nat)
    requires imageData.Valid() && upscale.Valid() && upscale.data != imageData.data && 0 < k
    requires upscale.width == imageData.width * k && upscale.height == imageData.height * k
    requires row < imageData.height
    requires UpscaledUpTo(upscale.data[..], imageData.data[..], imageData.width, imageData.height, k, row, 0, 0, 0)
    modifies upscale.data
    ensures UpscaledUpTo(upscale.data[..], imageData.data[..], imageData.width, imageData.height, k, row + 1, 0, 0, 0)
  {
    for col := 0 to imageData.width
      invariant UpscaledUpTo(upscale.data[..], imageData.data[..], imageData.width, imageData.height, k, row, col, 0, 0)
    {
      var pixel := imageData.GetPixel(col, row);
      var pixelBaseLocation := BlockBase(upscale.width, k, row, col);
      ReplicatePixel(upscale, k, row, col, pixel, pixelBaseLocation, imageData.data[..], imageData.width, imageData.height);
    }
    SourceRowDone(upscale.data[..], imageData.data[..], imageData.width, imageData.height, k, row);
  }

  /**
   * `createUpscaleOfImageData(imageData, scaleFactor)`: with k = scaleFactor|0, an image k
   * times as wide and as high in which every pixel repeats the source pixel it falls into;
   * ImageData refuses the size when k is not positive.
   */
  method CreateUpscale(imageData: Image, scaleFactor: real) returns (r: Result<Image>)
    requires imageData.Valid()
    ensures r.Err? <==> imageData.width * ToInt32(scaleFactor) <= 0 || imageData.height * ToInt32(scaleFactor) <= 0
    ensures r.Err? ==> r.error == InvalidImageSize
    ensures r.Ok? ==> 0 < ToInt32(scaleFactor) && r.value.Valid() && fresh(r.value.data)
    ensures r.Ok? ==> r.value.width == imageData.width * ToInt32(scaleFactor) && r.value.height == imageData.height * ToInt32(scaleFactor)
    ensures r.Ok? ==> IsUpscale(r.value.data[..], imageData.data[..], imageData.width, imageData.height, ToInt32(scaleFactor))
  {
    var k := ToInt32(scaleFactor);
    if imageData.width * k <= 0 || imageData.height * k <= 0 {
      return Err(InvalidImageSize);
    }
    var upscale := new Image(imageData.width * k, imageData.height * k);
    UpscaleStart(upscale.data[..], imageData.data[..], imageData.width, imageData.height, k);
    for row := 0 to imageData.height
      invariant UpscaledUpTo(upscale.data[..], imageData.data[..], imageData.width, imageData.height, k, row, 0, 0, 0)
    {
      UpscaleRow(imageData, upscale, k, row);
    }
    UpscaleDone(upscale.data[..], imageData.data[..], imageData.width, imageData.height, k);
    return Ok(upscale);
  }
}
