/**
 * The RGBA pixel buffers of bitmap.mjs: an image is width x height pixels stored row
 * by row, four bytes (red, green, blue, alpha) per pixel.
 */
module Bitmaps {
  import opened Layouts

  /** One byte of a Uint8ClampedArray. */
  newtype byte = x: int | 0 <= x < 256

  const Channels: nat := 4

  /** The first byte of pixel (x, y) in an image `width` pixels wide. */
  function PixelOffset(width: nat, x: nat, y: nat): nat {
    (y * width + x) * Channels
  }

  /** The byte window of an in-range pixel lies inside the buffer. */
  lemma PixelInside(width: nat, height: nat, x: nat, y: nat)
    requires x < width && y < height
    ensures PixelOffset(width, x, y) + Channels <= width * height * Channels
  {
    MulMonotone(width, y + 1, height);
    assert width * (y + 1) == y * width + width;
    MulMonotone(Channels, y * width + x + 1, width * height);
  }

  /** The byte windows of two different in-range pixels do not overlap. */
  lemma PixelsApart(width: nat, x: nat, y: nat, x2: nat, y2: nat, k: nat, k2: nat)
    requires x < width && x2 < width && k < Channels && k2 < Channels
    requires PixelOffset(width, x, y) + k == PixelOffset(width, x2, y2) + k2
    ensures x == x2 && y == y2 && k == k2
  {
    var p, p2 := y * width + x, y2 * width + x2;
    assert p * Channels + k == p2 * Channels + k2;
    assert p == p2 && k == k2;
    var rows := y + y2 + 1;
    IndexInjective(Layout(rows, width, width, 0, 0), x, y, x2, y2);
  }

  /** The four bytes of pixel (x, y) in a buffer. */
  function PixelIn(buf: seq<byte>, width: nat, height: nat, x: nat, y: nat): (p: seq<byte>)
    requires |buf| == width * height * Channels && x < width && y < height
    ensures |p| == Channels
  {
    PixelInside(width, height, x, y);
    buf[PixelOffset(width, x, y)..PixelOffset(width, x, y) + Channels]
  }

  /** The buffer with the four bytes of pixel (x, y) replaced by `colors`. */
  function WithPixel(buf: seq<byte>, width: nat, height: nat, x: nat, y: nat, colors: seq<byte>): (after: seq<byte>)
    requires |buf| == width * height * Channels && |colors| == Channels && x < width && y < height
    ensures |after| == |buf|
  {
    PixelInside(width, height, x, y);
    buf[..PixelOffset(width, x, y)] + colors + buf[PixelOffset(width, x, y) + Channels..]
  }

  /** An ImageData: the dimensions never change, the bytes do. */
  class Image {
    const width: nat
    const height: nat
    const data: array<byte>

    ghost predicate Valid() {
      data.Length == width * height * Channels
    }

    /** `new ImageData(width, height)`: all bytes zero; the platform refuses a zero dimension. */
    constructor (width: nat, height: nat)
      requires width > 0 && height > 0
      ensures Valid() && this.width == width && this.height == height && fresh(data)
      ensures forall i :: 0 <= i < data.Length ==> data[i] == 0
    {
      this.width := width;
      this.height := height;
      data := new byte[width * height * Channels](_ => 0);
    }

    /** `getPixel(imageData, x, y)`: the four bytes of pixel (x, y); the caller keeps (x, y) in range. */
    function GetPixel(x: nat, y: nat): (p: seq<byte>)
      reads data
      requires Valid() && x < width && y < height
      ensures PixelOffset(width, x, y) + Channels <= data.Length
      ensures p == data[PixelOffset(width, x, y)..PixelOffset(width, x, y) + Channels]
    {
      PixelInside(width, height, x, y);
      PixelIn(data[..], width, height, x, y)
    }

    /**
     * `setPixel(imageData, x, y, colors)`: out of range it does nothing; in range it
     * overwrites exactly the four bytes of (x, y).
     */
    method SetPixel(x: int, y: int, colors: seq<byte>)
      requires Valid() && |colors| == Channels
      modifies data
      ensures !(0 <= x < width && 0 <= y < height) ==> data[..] == old(data[..])
      ensures 0 <= x < width && 0 <= y < height ==>
        data[..] == WithPixel(old(data[..]), width, height, x, y, colors)
    {
      if x < 0 || y < 0 {
        return;
      }
      if x >= width || y >= height {
        return;
      }
      var offset := PixelOffset(width, x, y);
      PixelInside(width, height, x, y);
      forall k | 0 <= k < Channels {
        data[offset + k] := colors[k];
      }
      assert data[..] == old(data[..])[..offset] + colors + old(data[..])[offset + Channels..];
    }
  }

  /**
   * After an in-range write of `colors` to (x, y), reading (x, y) gives `colors` back
   * and every other pixel reads as before.
   */
  lemma {:induction false} GetAfterSet(buf: seq<byte>, width: nat, height: nat, x: nat, y: nat, colors: seq<byte>, x2: nat, y2: nat)
    requires |buf| == width * height * Channels && |colors| == Channels && x < width && y < height
    requires x2 < width && y2 < height
    ensures PixelIn(WithPixel(buf, width, height, x, y, colors), width, height, x2, y2)
         == if (x2, y2) == (x, y) then colors else PixelIn(buf, width, height, x2, y2)
  {
    PixelInside(width, height, x, y);
    PixelInside(width, height, x2, y2);
    var o, o2 := PixelOffset(width, x, y), PixelOffset(width, x2, y2);
    var after := WithPixel(buf, width, height, x, y, colors);
    assert after == buf[..o] + colors + buf[o + Channels..];
    if (x2, y2) == (x, y) {
      assert after[o..o + Channels] == colors;
    } else {
      forall i | o2 <= i < o2 + Channels
        ensures after[i] == buf[i]
      {
        if o <= i < o + Channels {
          PixelsApart(width, x, y, x2, y2, i - o, i - o2);
        }
      }
      assert after[o2..o2 + Channels] == buf[o2..o2 + Channels];
    }
  }
}
