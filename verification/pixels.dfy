/** Pixel buffers and colours in the shape the canvas API hands them to the
    icon generator (script.js). */
module Pixels {
  import Arith

  /** An RGB colour as getAverageColor returns it; alpha is never part of it. */
  datatype Color = Color(r: int, g: int, b: int)

  predicate IsByte(v: int) { 0 <= v <= 255 }

  predicate ValidColor(c: Color) { IsByte(c.r) && IsByte(c.g) && IsByte(c.b) }

  /** A pixel position: column x, row y. */
  datatype Point = Point(x: nat, y: nat)

  /** An RGBA buffer laid out like canvas ImageData: four bytes per pixel
      (red, green, blue, alpha), pixels in row-major order. */
  datatype Image = Image(data: seq<int>, width: nat, height: nat)

  predicate Valid(img: Image) {
    && |img.data| == img.width * img.height * 4
    && forall i :: 0 <= i < |img.data| ==> IsByte(img.data[i])
  }

  predicate InBounds(img: Image, p: Point) {
    p.x < img.width && p.y < img.height
  }

  predicate AllInBounds(img: Image, ps: seq<Point>) {
    forall i :: 0 <= i < |ps| ==> InBounds(img, ps[i])
  }

  lemma RowMajorBound(x: nat, y: nat, w: nat, h: nat)
    requires x < w && y < h
    ensures y * w + x < w * h
  {
    Arith.MulMonotone(y + 1, h, w);
  }

  /** Offset of channel `ch` of pixel `p` in the buffer: `(y * width + x) * 4 + ch`.
      It lies inside the buffer and its position modulo four names the channel. */
  function ByteIndex(img: Image, p: Point, ch: nat): (i: nat)
    requires Valid(img) && InBounds(img, p) && ch < 4
    ensures i < |img.data| && i % 4 == ch
  {
    RowMajorBound(p.x, p.y, img.width, img.height);
    (p.y * img.width + p.x) * 4 + ch
  }

  /** The byte of channel `ch` (0 red, 1 green, 2 blue, 3 alpha) of pixel `p`. */
  function Sample(img: Image, p: Point, ch: nat): (v: int)
    requires Valid(img) && InBounds(img, p) && ch < 4
    ensures IsByte(v)
  {
    img.data[ByteIndex(img, p, ch)]
  }

  function PixelColor(img: Image, p: Point): (c: Color)
    requires Valid(img) && InBounds(img, p)
    ensures ValidColor(c)
  {
    Color(Sample(img, p, 0), Sample(img, p, 1), Sample(img, p, 2))
  }

  /** Two buffers of the same shape that differ at most in their alpha bytes. */
  predicate SameRgb(a: Image, b: Image) {
    && a.width == b.width && a.height == b.height && |a.data| == |b.data|
    && forall i :: 0 <= i < |a.data| && i % 4 != 3 ==> a.data[i] == b.data[i]
  }
}
