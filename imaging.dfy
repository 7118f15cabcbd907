/**
 * Bitmaps and the padding that brings a capture up to the OCR engine's minimum size
 * (MainWindow.PadImage), plus the screen read that fills a fresh bitmap.
 */
module Imaging {
  import opened Outcomes

  /** A 32-bit ARGB colour, as Color.ToArgb gives it. */
  newtype Argb = n: int | 0 <= n < 0x1_0000_0000

  /** Bitmap.PixelFormat; captures use 32 bits per pixel with alpha. */
  datatype PixelFormat = Format32bppArgb | OtherFormat(code: int)

  /** An image as a value: columns of pixels, indexed [x][y] like Bitmap.GetPixel(x, y). */
  type Grid = seq<seq<Argb>>

  /** The display: the colour at each absolute screen coordinate. */
  type Screen = (int, int) -> Argb

  function WidthOf(g: Grid): nat { |g| }

  function HeightOf(g: Grid): nat { if g == [] then 0 else |g[0]| }

  /** A rectangular image of at least one pixel, the only kind System.Drawing.Bitmap can hold. */
  predicate IsImage(g: Grid) {
    |g| >= 1 && |g[0]| >= 1 && forall x :: 0 <= x < |g| ==> |g[x]| == |g[0]|
  }

  function Max(a: int, b: int): int { if a >= b then a else b }

  /**
   * The size PadImage gives an image of w by h: unchanged when it already meets both
   * minimums, otherwise 16 more than the larger of the size and the minimum on each
   * axis, and so strictly larger than both.
   */
  function PaddedSize(w: int, h: int, minW: int, minH: int): (r: (int, int))
    ensures h >= minH && w >= minW ==> r == (w, h)
    ensures !(h >= minH && w >= minW) ==>
      r.0 >= w + 16 && r.0 >= minW + 16 && r.0 - 16 in {w, minW}
      && r.1 >= h + 16 && r.1 >= minH + 16 && r.1 - 16 in {h, minH}
    ensures r.0 >= minW && r.1 >= minH
  {
    if h >= minH && w >= minW then (w, h)
    else (Max(w + 16, minW + 16), Max(h + 16, minH + 16))
  }

  /** The pixel at (x, y) of the padded canvas: the image shifted by (8, 8) over its own top-left colour. */
  function PaddedPixel(g: Grid, x: int, y: int): Argb
    requires IsImage(g)
  {
    if 8 <= x < 8 + WidthOf(g) && 8 <= y < 8 + HeightOf(g) then g[x - 8][y - 8] else g[0][0]
  }

  /** The image PadImage returns, as a value. */
  function Pad(g: Grid, minW: int, minH: int): (r: Grid)
    requires IsImage(g)
    ensures IsImage(r)
    ensures (WidthOf(r), HeightOf(r)) == PaddedSize(WidthOf(g), HeightOf(g), minW, minH)
  {
    if HeightOf(g) >= minH && WidthOf(g) >= minW then g
    else
      var (w, h) := PaddedSize(WidthOf(g), HeightOf(g), minW, minH);
      seq(w, x requires 0 <= x < w => seq(h, y requires 0 <= y < h => PaddedPixel(g, x, y)))
  }

  /** The w by h piece of g whose top-left corner is (left, top). */
  function Crop(g: Grid, left: nat, top: nat, w: nat, h: nat): (r: Grid)
    requires left + w <= |g| && forall x :: left <= x < left + w ==> top + h <= |g[x]|
    ensures |r| == w && forall x :: 0 <= x < w ==> |r[x]| == h
  {
    seq(w, x requires 0 <= x < w => seq(h, y requires 0 <= y < h => g[left + x][top + y]))
  }

  /** Two images with the same columns and the same pixels are the same image. */
  lemma SameImage(a: Grid, b: Grid)
    requires |a| == |b|
    requires forall x :: 0 <= x < |a| ==> |a[x]| == |b[x]|
    requires forall x, y :: 0 <= x < |a| && 0 <= y < |a[x]| ==> a[x][y] == b[x][y]
    ensures a == b
  {
    forall x | 0 <= x < |a| ensures a[x] == b[x] {
      assert forall y :: 0 <= y < |a[x]| ==> a[x][y] == b[x][y];
    }
  }

  /** A grid of the padded size holding PaddedPixel everywhere is the padded image. */
  lemma PaddedPixelsArePad(g: Grid, minW: int, minH: int, got: Grid)
    requires IsImage(g)
    requires !(HeightOf(g) >= minH && WidthOf(g) >= minW)
    requires (|got|, HeightOf(got)) == PaddedSize(WidthOf(g), HeightOf(g), minW, minH)
    requires forall x :: 0 <= x < |got| ==> |got[x]| == HeightOf(got)
    requires forall x, y :: 0 <= x < |got| && 0 <= y < HeightOf(got) ==> got[x][y] == PaddedPixel(g, x, y)
    ensures got == Pad(g, minW, minH)
  {
    SameImage(got, Pad(g, minW, minH));
  }

  /** An image that already meets the minimums comes back as it is, so padding twice is padding once. */
  lemma PadIdempotent(g: Grid, minW: int, minH: int)
    requires IsImage(g)
    ensures Pad(Pad(g, minW, minH), minW, minH) == Pad(g, minW, minH)
    ensures HeightOf(g) >= minH && WidthOf(g) >= minW ==> Pad(g, minW, minH) == g
  {
  }

  /**
   * A padded image holds the original at offset (8, 8) and the original's top-left
   * colour everywhere else.
   */
  lemma PadPlacesImage(g: Grid, minW: int, minH: int)
    requires IsImage(g)
    requires !(HeightOf(g) >= minH && WidthOf(g) >= minW)
    ensures forall x, y :: 0 <= x < WidthOf(g) && 0 <= y < HeightOf(g) ==>
      Pad(g, minW, minH)[x + 8][y + 8] == g[x][y]
    ensures forall x, y ::
      (0 <= x < WidthOf(Pad(g, minW, minH)) && 0 <= y < HeightOf(Pad(g, minW, minH))
       && !(8 <= x < 8 + WidthOf(g) && 8 <= y < 8 + HeightOf(g))) ==> Pad(g, minW, minH)[x][y] == g[0][0]
  {
  }

  /** Cropping the padding away again gives back the original image. */
  lemma CropUndoesPad(g: Grid, minW: int, minH: int)
    requires IsImage(g)
    requires !(HeightOf(g) >= minH && WidthOf(g) >= minW)
    ensures var p := Pad(g, minW, minH);
      8 + WidthOf(g) <= |p| && (forall x :: 8 <= x < 8 + WidthOf(g) ==> 8 + HeightOf(g) <= |p[x]|)
      && Crop(p, 8, 8, WidthOf(g), HeightOf(g)) == g
  {
    var p := Pad(g, minW, minH);
    var c := Crop(p, 8, 8, WidthOf(g), HeightOf(g));
    SameImage(c, g);
  }

  /** The pixels of a screen rectangle, as CopyFromScreen copies them into a bitmap of that size. */
  function Captured(screen: Screen, left: int, top: int, w: nat, h: nat): (g: Grid)
    ensures |g| == w && forall x :: 0 <= x < w ==> |g[x]| == h
    ensures w >= 1 && h >= 1 ==> IsImage(g)
  {
    seq(w, x requires 0 <= x < w => seq(h, y => screen(left + x, top + y)))
  }

  /** System.Drawing.Bitmap: a fixed-size pixel buffer with a pixel format. */
  class Bitmap {
    const Format: PixelFormat
    const Pixels: array2<Argb>

    function Width(): int { Pixels.Length0 }

    function Height(): int { Pixels.Length1 }

    /** A Bitmap has at least one pixel on each axis. */
    predicate Valid() { Pixels.Length0 >= 1 && Pixels.Length1 >= 1 }

    /** The pixels as a value. */
    function Image(): (g: Grid)
      reads Pixels
      ensures |g| == Pixels.Length0
      ensures forall x :: 0 <= x < |g| ==> |g[x]| == Pixels.Length1
      ensures forall x, y :: 0 <= x < Pixels.Length0 && 0 <= y < Pixels.Length1 ==> g[x][y] == Pixels[x, y]
      ensures Valid() ==> IsImage(g)
    {
      seq(Pixels.Length0, x requires 0 <= x < Pixels.Length0 reads Pixels =>
        seq(Pixels.Length1, y requires 0 <= y < Pixels.Length1 reads Pixels => Pixels[x, y]))
    }

    /** new Bitmap(width, height, format). */
    constructor (width: int, height: int, format: PixelFormat)
      requires width >= 1 && height >= 1
      ensures Valid() && Format == format && Width() == width && Height() == height
      ensures fresh(Pixels)
    {
      Format := format;
      Pixels := new Argb[width, height];
    }

    /** Graphics.Clear: every pixel becomes c. */
    method Clear(c: Argb)
      modifies Pixels
      ensures forall x, y :: 0 <= x < Pixels.Length0 && 0 <= y < Pixels.Length1 ==> Pixels[x, y] == c
    {
      forall x, y | 0 <= x < Pixels.Length0 && 0 <= y < Pixels.Length1 {
        Pixels[x, y] := c;
      }
    }

    /**
     * Graphics.DrawImageUnscaled(src, dx, dy): src's pixel (x, y) lands on (x + dx, y + dy)
     * where that is inside this bitmap; every other pixel is left as it was.
     */
    method DrawImageUnscaled(src: Bitmap, dx: int, dy: int)
      requires src.Pixels != Pixels
      modifies Pixels
      ensures forall x, y :: 0 <= x < Pixels.Length0 && 0 <= y < Pixels.Length1 ==>
        Pixels[x, y] == if 0 <= x - dx < src.Pixels.Length0 && 0 <= y - dy < src.Pixels.Length1
                        then src.Pixels[x - dx, y - dy] else old(Pixels[x, y])
    {
      forall x, y | 0 <= x < Pixels.Length0 && 0 <= y < Pixels.Length1
        && 0 <= x - dx < src.Pixels.Length0 && 0 <= y - dy < src.Pixels.Length1
      {
        Pixels[x, y] := src.Pixels[x - dx, y - dy];
      }
    }
  }

  /**
   * MainWindow.PadImage: returns the image itself when it is at least minW wide and
   * minH tall, otherwise a fresh bitmap of the same format holding Pad of its pixels.
   */
  method PadImage(image: Bitmap, minW: int, minH: int) returns (r: Bitmap)
    requires image.Valid()
    ensures r.Valid() && r.Format == image.Format
    ensures image.Height() >= minH && image.Width() >= minW ==> r == image
    ensures !(image.Height() >= minH && image.Width() >= minW) ==> fresh(r) && fresh(r.Pixels)
    ensures r.Image() == Pad(image.Image(), minW, minH)
  {
    if image.Height() >= minH && image.Width() >= minW {
      return image;
    }
    var width := Max(image.Width() + 16, minW + 16);
    var height := Max(image.Height() + 16, minH + 16);
    var dest := new Bitmap(width, height, image.Format);
    dest.Clear(image.Pixels[0, 0]);
    dest.DrawImageUnscaled(image, 8, 8);
    ghost var src := image.Image();
    assert forall x, y :: 0 <= x < width && 0 <= y < height ==> dest.Pixels[x, y] == PaddedPixel(src, x, y);
    PaddedPixelsArePad(src, minW, minH, dest.Image());
    r := dest;
  }

  /**
   * A bitmap of width by height filled from the screen rectangle at (left, top): the
   * constructor's ArgumentException for a non-positive size, then CopyFromScreen.
   */
  method Capture(screen: Screen, left: int, top: int, width: int, height: int) returns (r: Result<Bitmap, Fault>)
    ensures r.Failure? <==> width < 1 || height < 1
    ensures r.Failure? ==> r.error == InvalidBitmapSize(width, height)
    ensures r.Success? ==>
      (fresh(r.value) && fresh(r.value.Pixels) && r.value.Valid()
       && r.value.Format == Format32bppArgb && r.value.Image() == Captured(screen, left, top, width, height))
  {
    if width < 1 || height < 1 {
      return Failure(InvalidBitmapSize(width, height));
    }
    var bmp := new Bitmap(width, height, Format32bppArgb);
    forall x, y | 0 <= x < width && 0 <= y < height {
      bmp.Pixels[x, y] := screen(left + x, top + y);
    }
    ghost var shot := Captured(screen, left, top, width, height);
    ghost var g := bmp.Image();
    assert forall x, y :: 0 <= x < |g| && 0 <= y < |g[x]| ==> g[x][y] == shot[x][y];
    SameImage(g, shot);
    r := Success(bmp);
  }
}
